/**
 The volume boot record: load the FAT and the root directory, find the target
 file by name and copy its clusters to consecutive memory.
 */
module Fat12Loader {

  import opened Machine
  import opened ClusterChain
  import opened Chs
  import opened Disk
  import opened Fat12Table
  import opened Fat12Volume
  import opened RealMode

  /** What the drive answers to one reset and one read request. */
  datatype Attempt = Attempt(reset: bool, read: bool)

  datatype Outcome = Halted | Booted(entry: u16)

  predicate Works(script: seq<Attempt>, i: nat) {
    i >= |script| || (script[i].reset && script[i].read)
  }

  /** What is left of a script after `n` attempts. */
  function Rest(script: seq<Attempt>, n: nat): seq<Attempt> {
    if n <= |script| then script[n..] else []
  }

  predicate WorksWithinFive(script: seq<Attempt>, k: nat) {
    exists i :: k <= i < k + 5 && Works(script, i)
  }

  /** A fifth attempt is made and no sixth: what counts after four failures is the fifth answer. */
  lemma FiveAttempts(script: seq<Attempt>)
    requires |script| >= 5 && forall i :: 0 <= i < 4 ==> !(script[i].reset && script[i].read)
    ensures WorksWithinFive(script, 0) <==> script[4].reset && script[4].read
    ensures WorksWithinFive(script[..4], 0)
  {
    assert Works(script, 4) <==> script[4].reset && script[4].read;
    assert Works(script[..4], 4);
  }

  /** No five attempts in a row fail. */
  ghost predicate Reliable(script: seq<Attempt>) {
    forall k: nat :: WorksWithinFive(script, k)
  }

  lemma ReliableRest(script: seq<Attempt>, n: nat)
    requires Reliable(script)
    ensures Reliable(Rest(script, n))
  {
    forall k: nat ensures WorksWithinFive(Rest(script, n), k) {
      assert WorksWithinFive(script, k + n);
      var j :| k + n <= j < k + n + 5 && Works(script, j);
      assert Works(Rest(script, n), j - n);
    }
  }

  /** Register arithmetic is exact while the results fit. */
  lemma Exact(x: nat)
    ensures x < TWO16 ==> After(0, x) == x
    ensures x < 256 ==> LowByte(x) == x
    ensures x < 2048 ==> ShiftLeft5(x) == x * 32
  {
  }

  /** mulw: the low half of the product. */
  function LowProduct(x: u16, y: u16): u16 {
    Mul(x, y) % TWO16
  }

  lemma LowProductExact(x: u16, y: u16)
    ensures Mul(x, y) < TWO16 ==> LowProduct(x, y) == Mul(x, y)
  {
  }

  /** The final jump stays in segment 0 and keeps 16 bits of the shifted segment. */
  function JumpOffset(segment: u16): u16 {
    segment * 16 % TWO16
  }

  lemma JumpTarget(segment: u16)
    ensures JumpOffset(segment) == segment * 16 <==> segment < 0x1000
  {
  }

  /** Where the loader's stack and its 512 bytes of code and variables lie. */
  datatype Placement = Placement(stackLow: nat, stackTop: nat, link: nat) {
    function LinkEnd(): nat {
      link + RECORD_SIZE
    }

    /** Both lie in the first 64 KiB, and neither meets the bytes from `low` to `high`. */
    predicate ClearOf(low: nat, high: nat) {
      && stackLow <= stackTop <= TWO16 && LinkEnd() <= TWO16
      && (stackTop <= low || high <= stackLow)
      && (LinkEnd() <= low || high <= link)
    }
  }

  const RECORD_SIZE: nat := 512

  /**
   The source's own values: a stack from 0x0600 down, of which twenty bytes
   are in use while a cluster is read, and code linked at 0x0a00.
   */
  const SOURCE_PLACEMENT: Placement := Placement(0x5EC, 0x600, 0xA00)

  /** The end of the FAT and root directory in memory. */
  function TablesEnd(b: Bpb): nat {
    FAT_BASE + b.FatSize() + b.rootEntries * 32
  }

  predicate InTables(b: Bpb, a: nat) {
    FAT_BASE <= a < TablesEnd(b)
  }

  predicate InFat(b: Bpb, a: nat) {
    FAT_BASE <= a < FAT_BASE + b.FatSize()
  }

  /** No byte of the region is overwritten by the table loads. */
  predicate TablesSpare(b: Bpb, low: nat, high: nat) {
    forall a: nat :: low <= a < high ==> !InTables(b, a)
  }

  lemma TablesSpareIff(b: Bpb, low: nat, high: nat)
    requires b.WellFormed() && low < high
    ensures TablesSpare(b, low, high) <==> high <= FAT_BASE || TablesEnd(b) <= low
  {
    var a := if low < FAT_BASE then FAT_BASE else low;
    assert low <= a < high && a < TablesEnd(b) ==> InTables(b, a);
  }

  /**
   With the source's values the FAT covers all of the stack in use, on every
   volume; the code is spared exactly by tables of at most 0x500 bytes.
   */
  lemma SourcePlacementFails(b: Bpb)
    requires b.WellFormed()
    ensures forall a: nat :: SOURCE_PLACEMENT.stackLow <= a < SOURCE_PLACEMENT.stackTop ==> InFat(b, a)
    ensures !TablesSpare(b, SOURCE_PLACEMENT.stackLow, SOURCE_PLACEMENT.stackTop)
    ensures TablesSpare(b, SOURCE_PLACEMENT.link, SOURCE_PLACEMENT.LinkEnd()) <==>
              b.FatSize() + b.rootEntries * 32 <= 0x500
    ensures !SOURCE_PLACEMENT.ClearOf(FAT_BASE, TablesEnd(b))
  {
    RegionSizes(b);
    TablesSpareIff(b, SOURCE_PLACEMENT.stackLow, SOURCE_PLACEMENT.stackTop);
    TablesSpareIff(b, SOURCE_PLACEMENT.link, SOURCE_PLACEMENT.LinkEnd());
  }

  /**
   What `popw %ax; ret` take at the end of the first load with the source's
   stack: two words of the FAT, whatever was pushed.
   */
  lemma ReturnsIntoFat(b: Bpb, disk: seq<u8>, before: seq<u8>, after: seq<u8>)
    requires b.WellFormed() && Holds(b, disk) && TWO16 + FAT_BASE <= |before|
    requires Written(before, after, FAT_BASE, Fat(b, disk))
    ensures Word(after, 0x5F2) == Word(Fat(b, disk), 0xF2) && Word(after, 0x5F4) == Word(Fat(b, disk), 0xF4)
  {
    Regions(b, disk);
    var fat := Fat(b, disk);
    WrittenInside(before, after, FAT_BASE, fat);
    var part := after[FAT_BASE..FAT_BASE + |fat|];
    assert part[0xF2] == after[0x5F2] && part[0xF3] == after[0x5F3];
    assert part[0xF4] == after[0x5F4] && part[0xF5] == after[0x5F5];
  }

  /** The boot record's own parameter block: its tables cover the code as well. */
  lemma FloppyOverwritesCode()
    ensures FLOPPY.WellFormed() && TablesEnd(FLOPPY) == 0x3300
    ensures forall a: nat :: SOURCE_PLACEMENT.link <= a < SOURCE_PLACEMENT.LinkEnd() ==> InTables(FLOPPY, a)
  {
    FloppyWellFormed();
    assert FLOPPY.FatSize() == 4608;
  }

  /** A stack below 0x7c00 and code left there are clear of the same tables and of a target at 0x10000. */
  lemma FloppyFitsElsewhere()
    ensures Placement(0x7B00, 0x7C00, 0x7C00).ClearOf(FAT_BASE, TablesEnd(FLOPPY))
    ensures Placement(0x7B00, 0x7C00, 0x7C00).ClearOf(0x1_0000, 0x2_0000)
  {
    FloppyOverwritesCode();
  }

  class Loader {
    const bpb: Bpb
    const disk: seq<u8>
    const loadSegment: u16
    const place: Placement
    const mem: array<u8>
    var script: seq<Attempt>
    var eoc: u16

    constructor (bpb: Bpb, disk: seq<u8>, loadSegment: u16, place: Placement, mem: array<u8>, script: seq<Attempt>)
      ensures this.bpb == bpb && this.disk == disk && this.loadSegment == loadSegment
      ensures this.place == place && this.mem == mem && this.script == script
    {
      this.bpb, this.disk, this.loadSegment := bpb, disk, loadSegment;
      this.place, this.mem, this.script := place, mem, script;
      eoc := 0;
    }

    function Target(): nat {
      loadSegment * 16
    }

    function RootBase(): nat {
      FAT_BASE + bpb.FatSize()
    }

    function RootEnd(): nat {
      RootBase() + bpb.rootEntries * 32
    }

    /**
     Memory is what segment and offset can reach, the target lies behind the
     tables, and neither meets the loader's stack or code. The source's own
     placement is refused here (`SourcePlacementFails`).
     */
    ghost predicate Valid()
      reads this
    {
      && bpb.WellFormed()
      && Holds(bpb, disk)
      && mem.Length == 0x11_0000
      && RootEnd() <= Target()
      && place.ClearOf(FAT_BASE, RootEnd())
      && place.ClearOf(Target(), Target() + TWO16)
    }

    /** Stack and code, which the loader lives on. */
    function OwnMemory(): (seq<u8>, seq<u8>)
      requires Valid()
      reads this, mem
    {
      (mem[place.stackLow..place.stackTop], mem[place.link..place.LinkEnd()])
    }

    /** The 64 KiB from `base` on. */
    function Segment(base: nat): seq<u8>
      requires base + TWO16 <= mem.Length
      reads mem
    {
      mem[base..base + TWO16]
    }

    /** FAT and root directory are where the loader puts them. */
    ghost predicate TablesLoaded()
      requires Valid()
      reads this, mem
    {
      && mem[FAT_BASE..RootBase()] == Fat(bpb, disk)
      && mem[RootBase()..RootEnd()] == Root(bpb, disk)
      && eoc == Mark(bpb, disk)
    }

    /** The address names sectors of the disk. */
    predicate Readable(p: Packed, count: nat)
      requires bpb.Geometry().Valid()
    {
      p.Valid(bpb.Geometry()) && p.Linear(bpb.Geometry()) + count <= bpb.totalSectors
    }

    function DataAt(p: Packed, count: nat): seq<u8>
      requires bpb.Geometry().Valid()
    {
      Sectors(disk, bpb.bytesPerSector, p.Linear(bpb.Geometry()), count)
    }

    /** Interrupt 13h, function 2: a read that fails transfers nothing. */
    method Int13Read(p: Packed, count: u8, es: u16, bx: u16, accepted: bool) returns (carry: bool)
      requires Valid()
      requires bpb.Bytes(count) <= TWO16
      modifies mem
      ensures !carry <==> accepted && Readable(p, count)
      ensures carry ==> mem[..] == old(mem[..])
      ensures !carry ==> Segment(es * 16) == Store(old(Segment(es * 16)), bx, DataAt(p, count))
      ensures forall a :: 0 <= a < mem.Length && !(es * 16 <= a < es * 16 + TWO16) ==> mem[a] == old(mem[a])
    {
      carry := true;
      if accepted && Readable(p, count) {
        carry := false;
        EncodeLinear(bpb.Geometry(), p);
        SectorsLength(disk, bpb.bytesPerSector, p.Linear(bpb.Geometry()), count, bpb.totalSectors);
        var image := Store(Segment(es * 16), bx, DataAt(p, count));
        forall o | 0 <= o < TWO16 {
          mem[es * 16 + o] := image[o];
        }
      }
    }

    /** Read sectors, resetting the drive before each of at most five attempts. */
    method Load(p: Packed, al: u8, es: u16, bx: u16) returns (ok: bool)
      requires Valid()
      requires bpb.Bytes(al) <= TWO16
      modifies mem, this`script
      ensures ok <==> Readable(p, al) && WorksWithinFive(old(script), 0)
      ensures Reliable(old(script)) ==> Reliable(script) && (ok <==> Readable(p, al))
      ensures !ok ==> mem[..] == old(mem[..])
      ensures ok ==> Segment(es * 16) == Store(old(Segment(es * 16)), bx, DataAt(p, al))
      ensures forall a :: 0 <= a < mem.Length && !(es * 16 <= a < es * 16 + TWO16) ==> mem[a] == old(mem[a])
    {
      hide Mul, Div, Bpb.RootFillsSectors, Geometry.Total, Packed.Linear, Packed.Valid, Sectors, Store;
      var counter: u8 := 6;
      ghost var tried := 0;
      ok := false;
      while true
        invariant 1 <= counter <= 6 && tried == 6 - counter
        invariant script == Rest(old(script), tried)
        invariant Readable(p, al) ==> forall i :: 0 <= i < tried ==> !Works(old(script), i)
        invariant mem[..] == old(mem[..])
        decreases counter
      {
        counter := counter - 1;
        if counter == 0 {
          break;
        }
        var attempt := NextAttempt(old(script), tried);
        tried := tried + 1;
        if !attempt.reset {
          continue;
        }
        var carry := Int13Read(p, al, es, bx, attempt.read);
        if !carry {
          ok := true;
          break;
        }
      }
      if Reliable(old(script)) {
        assert WorksWithinFive(old(script), 0);
        ReliableRest(old(script), tried);
      }
    }

    /** The drive's answer to the next attempt. */
    method NextAttempt(ghost whole: seq<Attempt>, ghost tried: nat) returns (attempt: Attempt)
      requires script == Rest(whole, tried)
      modifies this`script
      ensures script == Rest(whole, tried + 1)
      ensures (attempt.reset && attempt.read) == Works(whole, tried)
    {
      if script == [] {
        attempt := Attempt(true, true);
      } else {
        attempt := script[0];
        script := script[1..];
      }
    }

    /** A load to segment 0x50 that stays inside it. */
    method LoadTable(p: Packed, al: u8, bx: u16) returns (ok: bool)
      requires Valid()
      requires bpb.Bytes(al) <= TWO16 && bx + |DataAt(p, al)| <= TWO16
      modifies mem, this`script
      ensures Reliable(old(script)) && Readable(p, al) ==> ok
      ensures Reliable(old(script)) ==> Reliable(script)
      ensures !ok ==> mem[..] == old(mem[..])
      ensures ok ==> Written(old(mem[..]), mem[..], FAT_BASE + bx, DataAt(p, al))
    {
      hide Mul, Div, Bpb.RootFillsSectors, Geometry.Total, Packed.Linear, Packed.Sector, Packed.Cylinder, Sectors, Store;
      ok := Load(p, al, 0x50, bx);
      if ok {
        StoreInPlace(old(mem[..]), mem[..], FAT_BASE, bx, DataAt(p, al));
      }
    }

    /** The additions in a loop that stand for a multiplication. */
    method RepeatAdd(start: u16, step: u16, count: nat) returns (sum: u16)
      requires count >= 1
      ensures sum == After(start, Mul(count, step))
    {
      var left := count;
      sum := start;
      ghost var added := 0;
      while left != 0
        invariant 0 <= left <= count
        invariant added == (count - left) * step
        invariant sum == (start + added) % TWO16
      {
        MulSum(count - left, 1, step);
        added := added + step;
        sum := (sum + step) % TWO16;
        left := left - 1;
      }
    }

    /** Within the first track the first FAT sector has the sector number after its own. */
    lemma StartAddress()
      requires Valid()
      ensures Packed(bpb.reservedSectors + 1, 0, 0).Valid(bpb.Geometry())
      ensures Packed(bpb.reservedSectors + 1, 0, 0).Linear(bpb.Geometry()) == bpb.reservedSectors
      ensures DataAt(Packed(bpb.reservedSectors + 1, 0, 0), bpb.sectorsPerFat) == Fat(bpb, disk)
    {
      assert 0 * bpb.heads == 0 * bpb.sectorsPerTrack;
    }

    /** load_fat: the FAT goes to 0x0500, and its entry 1 becomes the end mark. */
    method LoadFat() returns (ok: bool, at: Packed)
      requires Valid()
      modifies mem, this`script, this`eoc
      ensures Reliable(old(script)) ==> ok && Reliable(script)
      ensures ok ==> at.Valid(bpb.Geometry()) && at.Linear(bpb.Geometry()) == bpb.reservedSectors
      ensures ok ==> eoc == Mark(bpb, disk)
      ensures ok ==> SecondEntry(Fat(bpb, disk), eoc)
      ensures ok ==> Written(old(mem[..]), mem[..], FAT_BASE, Fat(bpb, disk))
      ensures !ok ==> mem[..] == old(mem[..])
    {
      hide Mul, Div, Bpb.RootFillsSectors, Geometry.Total, Packed.Linear, Packed.Sector, Packed.Cylinder, Sectors, Store;
      hide SecondEntry, Mark;
      Regions(bpb, disk);
      at := Packed(bpb.reservedSectors + 1, 0, 0);
      StartAddress();
      ok := LoadTable(at, bpb.sectorsPerFat, 0);
      if ok {
        MarkIsEntryOne(bpb, disk);
        EntryOne(Fat(bpb, disk));
        assert mem[FAT_BASE + 1] == Fat(bpb, disk)[1] && mem[FAT_BASE + 2] == Fat(bpb, disk)[2];
        eoc := Join(mem[FAT_BASE + 1], mem[FAT_BASE + 2]) / 16;
      }
    }

    /**
     load_root: the root directory follows the FATs on disk and the first FAT
     in memory; the data area follows the root directory on disk.
     */
    method LoadRoot(fatAt: Packed) returns (ok: bool, bx: u16, at: Packed)
      requires Valid()
      requires fatAt.Valid(bpb.Geometry()) && fatAt.Linear(bpb.Geometry()) == bpb.reservedSectors
      modifies mem, this`script
      ensures Reliable(old(script)) ==> ok && Reliable(script)
      ensures ok ==> bx == bpb.FatSize() && at.Valid(bpb.Geometry())
      ensures ok && bpb.DataStart() < bpb.totalSectors ==> at.Linear(bpb.Geometry()) == bpb.DataStart()
      ensures ok ==> Written(old(mem[..]), mem[..], RootBase(), Root(bpb, disk))
      ensures !ok ==> mem[..] == old(mem[..])
    {
      hide Mul, Div, Bpb.RootFillsSectors, Geometry.Total, Packed.Linear, Packed.Sector, Packed.Cylinder, Sectors, Store;
      Regions(bpb, disk);
      hide After, LowByte, ShiftLeft5;
      Exact(Mul(bpb.fats, bpb.sectorsPerFat));
      Exact(bpb.FatSize());
      Exact(bpb.rootEntries);
      Exact(bpb.RootSectors());
      var g := bpb.Geometry();
      var ax := RepeatAdd(0, bpb.sectorsPerFat, bpb.fats);
      AdvanceLinear(g, fatAt, ax);
      at := AddChs(g, fatAt, ax);
      bx := RepeatAdd(0, bpb.bytesPerSector, bpb.sectorsPerFat);
      ax := Div(ShiftLeft5(bpb.rootEntries), bpb.bytesPerSector);
      ok := LoadTable(at, LowByte(ax), bx);
      if ok {
        AdvanceLinear(g, at, LowByte(ax));
        at := AddChs(g, at, LowByte(ax));
      }
    }

    /** repe cmpsb: compare eleven bytes with the target name. */
    method CompareName(bx: u16) returns (equal: bool)
      requires Valid() && bx + 11 <= TWO16
      ensures equal <==> mem[FAT_BASE + bx..FAT_BASE + bx + 11] == TARGET
    {
      var cx := 0;
      equal := true;
      while cx < 11 && equal
        invariant 0 <= cx <= 11
        invariant equal ==> forall k :: 0 <= k < cx ==> mem[FAT_BASE + bx + k] == TARGET[k]
        invariant !equal ==> exists k :: 0 <= k < 11 && mem[FAT_BASE + bx + k] != TARGET[k]
        decreases 11 - cx, equal
      {
        if mem[FAT_BASE + bx + cx] != TARGET[cx] {
          equal := false;
        } else {
          cx := cx + 1;
        }
      }
      if !equal {
        var k :| 0 <= k < 11 && mem[FAT_BASE + bx + k] != TARGET[k];
        assert mem[FAT_BASE + bx..FAT_BASE + bx + 11][k] != TARGET[k];
      }
    }

    lemma EntryInMemory(i: nat)
      requires Valid() && TablesLoaded() && i < bpb.rootEntries
      ensures var at := RootBase() + i * 32;
              && Named(Root(bpb, disk), i) == (mem[at..at + 11] == TARGET)
              && FirstCluster(Root(bpb, disk), i) == Join(mem[at + 26], mem[at + 27])
    {
      hide Mul, Div, Bpb.RootFillsSectors, Geometry.Total, Packed.Linear, Packed.Sector, Packed.Cylinder, Sectors, Store;
      Regions(bpb, disk);
      assert Root(bpb, disk) == mem[..][RootBase()..RootEnd()];
      PartOfPart(mem[..], RootBase(), RootEnd(), i * 32, 11);
      PartOfPart(mem[..], RootBase(), RootEnd(), i * 32 + 26, 2);
      WordOfPart(Root(bpb, disk), i * 32 + 26);
    }

    /** find_file: the first entry with the target name, from offset `start` on. */
    method FindFile(start: u16) returns (found: bool, bx: u16, ghost i: nat)
      requires Valid() && TablesLoaded() && start == bpb.FatSize()
      ensures FirstNamed(Root(bpb, disk), bpb.rootEntries, i)
      ensures found <==> i < bpb.rootEntries
      ensures found ==> bx == start + i * 32
    {
      hide Mul, Div, Bpb.RootFillsSectors, Geometry.Total, Packed.Linear, Packed.Sector, Packed.Cylinder, Sectors, Store;
      var cx: u16 := bpb.rootEntries;
      bx := start;
      found := false;
      hide Named, NoneNamed;
      i := 0;
      NoneNamedStep(Root(bpb, disk), 0);
      while cx != 0
        invariant 0 <= cx <= bpb.rootEntries && i == bpb.rootEntries - cx
        invariant cx != 0 ==> bx == start + i * 32
        invariant NoneNamed(Root(bpb, disk), i)
      {
        EntryInMemory(i);
        NoneNamedStep(Root(bpb, disk), i);
        found := CompareName(bx);
        if found {
          return;
        }
        i := i + 1;
        cx := cx - 1;
        if cx != 0 {
          bx := bx + 32;
        }
      }
    }

    lemma LookupSteps(memory: seq<u8>, ax: u16)
      requires |memory| >= TWO16
      ensures var at := After(FAT_BASE, After(ax, ax / 2));
              Lookup(memory)(ax) == Decode(Join(memory[at], memory[After(at, 1)]), ax)
    {
      hide Decode, Join;
      assert LookupAt(ax) == After(FAT_BASE, After(ax, ax / 2));
      hide LookupAt, After;
      AfterOne(LookupAt(ax));
      assert Lookup(memory)(ax) ==
             Decode(Join(Byte(memory, LookupAt(ax)), Byte(memory, (LookupAt(ax) + 1) % TWO16)), ax);
    }

    lemma AfterOne(at: u16)
      ensures After(at, 1) == (at + 1) % TWO16
    {
    }

    lemma DecodeIs(word: u16, ax: u16)
      ensures Decode(word, ax) == if ax % 2 == 1 then word / 16 else word % 4096
    {
    }

    /** The first cluster of the file found. */
    method FindFirst(start: u16) returns (found: bool, first: u16, ghost i: nat)
      requires Valid() && TablesLoaded() && start == bpb.FatSize()
      ensures FirstNamed(Root(bpb, disk), bpb.rootEntries, i)
      ensures found <==> i < bpb.rootEntries
      ensures found ==> first == FirstCluster(Root(bpb, disk), i)
    {
      hide Mul, Div, Bpb.RootFillsSectors, Geometry.Total, Packed.Linear, Packed.Sector, Packed.Cylinder, Sectors, Store;
      hide FirstNamed, FirstCluster, Root, Fat;
      var bx;
      first := 0;
      found, bx, i := FindFile(start);
      if found {
        EntryInMemory(i);
        assert FAT_BASE + bx == RootBase() + i * 32;
        first := Join(mem[FAT_BASE + bx + 26], mem[FAT_BASE + bx + 27]);
      }
    }

    /** The lookup of a cluster in segment 0; it finds the table's entry if it does not wrap. */
    method NextCluster(ax: u16) returns (next: u16)
      requires Valid() && TablesLoaded()
      ensures next == Lookup(mem[..])(ax)
      ensures Covers(Fat(bpb, disk), ax) && Addressable(ax) ==> next == Next(Fat(bpb, disk))(ax)
    {
      hide Mul, Div, Bpb.RootFillsSectors, Geometry.Total, Packed.Linear, Packed.Sector, Packed.Cylinder, Sectors, Store;
      Regions(bpb, disk);
      var fat := Fat(bpb, disk);
      hide Lookup, LookupAt, Next, Decode, After, Addressable, Covers;
      assert fat == mem[..][FAT_BASE..RootBase()];
      if Covers(fat, ax) && Addressable(ax) {
        LookupIsNext(mem[..], fat, ax);
      }
      LookupSteps(mem[..], ax);
      var bx := After(ax, ax / 2);
      var at := After(FAT_BASE, bx);
      var word := Join(mem[at], mem[After(at, 1)]);
      DecodeIs(word, ax);
      next := if ax % 2 == 1 then word / 16 else word % 4096;
    }

    /** The address of cluster `ax`, from the address of the data area. */
    method ClusterAddress(data: Packed, ax: u16) returns (at: Packed)
      requires Valid() && bpb.InData(ax)
      requires data.Valid(bpb.Geometry()) && data.Linear(bpb.Geometry()) == bpb.DataStart()
      ensures Readable(at, bpb.sectorsPerCluster)
      ensures DataAt(at, bpb.sectorsPerCluster) == Cluster(bpb, disk)(ax)
      ensures |DataAt(at, bpb.sectorsPerCluster)| == bpb.ClusterSize()
    {
      hide Mul, Div, Bpb.RootFillsSectors, Geometry.Total, Packed.Linear, Packed.Sector, Packed.Cylinder, Sectors, Store;
      Regions(bpb, disk);
      hide LowProduct;
      var product := LowProduct(ax - 2, bpb.sectorsPerCluster);
      LowProductExact(ax - 2, bpb.sectorsPerCluster);
      AdvanceLinear(bpb.Geometry(), data, product);
      at := AddChs(bpb.Geometry(), data, product);
      SectorsLength(disk, bpb.bytesPerSector, bpb.ClusterStart(ax), bpb.sectorsPerCluster, bpb.totalSectors);
    }

    /** What changes in one segment alone stays the same around it. */
    lemma SegmentAlone(before: seq<u8>, after: seq<u8>, base: nat, low: nat, middle: nat, high: nat)
      requires |before| == |after| && base + TWO16 <= |before| && low <= middle <= high <= base
      requires forall a :: 0 <= a < |before| && !(base <= a < base + TWO16) ==> after[a] == before[a]
      ensures after[..base] == before[..base] && after[base + TWO16..] == before[base + TWO16..]
      ensures after[low..middle] == before[low..middle] && after[middle..high] == before[middle..high]
    {
    }

    /** One pass of the load_file loop: copy a cluster and look up the one after it. */
    method LoadCluster(ax: u16, data: Packed, bx: u16) returns (ok: bool, end: u16, next: u16)
      requires Valid() && TablesLoaded() && bpb.InData(ax) && Covers(Fat(bpb, disk), ax) && Addressable(ax)
      requires data.Valid(bpb.Geometry()) && data.Linear(bpb.Geometry()) == bpb.DataStart()
      modifies mem, this`script
      ensures Reliable(old(script)) ==> ok && Reliable(script)
      ensures Segment(Target()) == if ok then Store(old(Segment(Target())), bx, Cluster(bpb, disk)(ax))
                                   else old(Segment(Target()))
      ensures ok ==> end == After(bx, bpb.ClusterSize()) && next == Next(Fat(bpb, disk))(ax)
      ensures mem[..Target()] == old(mem[..Target()])
      ensures mem[Target() + TWO16..] == old(mem[Target() + TWO16..])
      ensures TablesLoaded() && OwnMemory() == old(OwnMemory())
    {
      hide Mul, Div, Bpb.RootFillsSectors, Geometry.Total, Packed.Linear, Packed.Sector, Packed.Cylinder, Sectors, Store;
      hide Lookup, LookupAt, Next, Decode, Addressable, Covers, Reliable, WorksWithinFive;
      end, next := bx, ax;
      var at := ClusterAddress(data, ax);
      ghost var before := mem[..];
      ok := Load(at, bpb.sectorsPerCluster, loadSegment, bx);
      SegmentAlone(before, mem[..], Target(), FAT_BASE, RootBase(), RootEnd());
      OwnKept(before, mem[..], Target(), Target() + TWO16);
      if ok {
        end := RepeatAdd(bx, bpb.bytesPerSector, bpb.sectorsPerCluster);
        next := NextCluster(ax);
      }
    }

    /**
     load_file: copy cluster after cluster until the table says the end mark.
     `n` counts the passes that stored a cluster; a failed read ends the loop
     with the clusters before it in place.
     */
    method LoadFile(first: u16, data: Packed, ghost c: seq<nat>) returns (ok: bool, ghost n: nat)
      requires Valid() && TablesLoaded()
      requires data.Valid(bpb.Geometry()) && data.Linear(bpb.Geometry()) == bpb.DataStart()
      requires IsChain(c, first, Next(Fat(bpb, disk)), AtMark(Mark(bpb, disk)))
      requires forall j :: 0 <= j < |c| ==> bpb.InData(c[j]) && Covers(Fat(bpb, disk), c[j]) && Addressable(c[j])
      modifies mem, this`script
      ensures Reliable(old(script)) ==> ok
      ensures n <= |c| && (ok <==> n == |c|)
      ensures Segment(Target()) == StoreAll(old(Segment(Target())), c[..n], Cluster(bpb, disk), bpb.ClusterSize())
      ensures mem[..Target()] == old(mem[..Target()])
      ensures mem[Target() + TWO16..] == old(mem[Target() + TWO16..])
      ensures OwnMemory() == old(OwnMemory())
    {
      hide Mul, Div, Bpb.RootFillsSectors, Geometry.Total, Packed.Linear, Packed.Sector, Packed.Cylinder, Sectors, Store;
      hide IsChain, Next, AtMark, Covers, Addressable, Reliable, StoreAll, Offset, After;
      hide Packed.Valid, Bpb.InData, Bpb.DataStart, Bpb.ClusterSize, Fat12Volume.Cluster, Mark;
      var ax: u16 := first;
      var bx: u16 := 0;
      n := 0;
      ghost var size, read := bpb.ClusterSize(), Cluster(bpb, disk);
      ghost var before, fat := Segment(Target()), Fat(bpb, disk);
      assert c[..0] == [];
      NothingStored(before, read, size);
      ChainStarts(c, first, Next(fat), AtMark(eoc));
      while true
        invariant n < |c| && ax == c[n]
        invariant bx == Offset(n, size)
        invariant Segment(Target()) == StoreAll(before, c[..n], read, size)
        invariant mem[..Target()] == old(mem[..Target()])
        invariant mem[Target() + TWO16..] == old(mem[Target() + TWO16..])
        invariant TablesLoaded() && OwnMemory() == old(OwnMemory())
        invariant Reliable(old(script)) ==> Reliable(script)
        decreases |c| - n
      {
        ok, bx, ax := LoadCluster(ax, data, bx);
        if !ok {
          return;
        }
        StoreAllStep(before, c, read, size, n);
        MarkedLink(fat, c, first, eoc, n);
        n := n + 1;
        if ax == eoc {
          assert c[..n] == c;
          return;
        }
      }
    }

    /** load_fat and load_root, which nothing separates in the source. */
    method LoadTables() returns (ok: bool, bx: u16, data: Packed)
      requires Valid()
      modifies mem, this
      ensures Reliable(old(script)) ==> ok && Reliable(script)
      ensures ok ==> TablesLoaded() && bx == bpb.FatSize() && data.Valid(bpb.Geometry())
      ensures ok && bpb.DataStart() < bpb.totalSectors ==> data.Linear(bpb.Geometry()) == bpb.DataStart()
      ensures Segment(Target()) == old(Segment(Target())) && OwnMemory() == old(OwnMemory())
      ensures forall a :: 0 <= a < mem.Length && !(FAT_BASE <= a < RootEnd()) ==> mem[a] == old(mem[a])
    {
      hide SecondEntry;
      hide Written, Next, Reliable;
      hide Mul, Div, Bpb.RootFillsSectors, Geometry.Total, Packed.Linear, Packed.Sector, Packed.Cylinder, Sectors, Store;
      Regions(bpb, disk);
      ghost var before := mem[..];
      var at: Packed;
      ok, at := LoadFat();
      bx, data := 0, at;
      ghost var between := mem[..];
      if ok {
        ok, bx, data := LoadRoot(at);
      }
      TablesStored(before, between, mem[..], ok);
      OwnKept(before, mem[..], FAT_BASE, RootEnd());
    }

    /** Memory after the FAT was stored and, unless a load failed, the root directory behind it. */
    lemma TablesStored(before: seq<u8>, between: seq<u8>, after: seq<u8>, both: bool)
      requires Valid() && |before| == mem.Length
      requires Written(before, between, FAT_BASE, Fat(bpb, disk)) || (between == before && !both)
      requires Written(between, after, RootBase(), Root(bpb, disk)) || (after == between && !both)
      requires both ==> Written(between, after, RootBase(), Root(bpb, disk))
      ensures |after| == |before| && after[Target()..Target() + TWO16] == before[Target()..Target() + TWO16]
      ensures forall a :: 0 <= a < |before| && !(FAT_BASE <= a < RootEnd()) ==> after[a] == before[a]
      ensures both ==> after[FAT_BASE..RootBase()] == Fat(bpb, disk) && after[RootBase()..RootEnd()] == Root(bpb, disk)
    {
      hide Mul, Div, Bpb.WellFormed, Written, Sectors;
      TablesSized();
      var fat, root := Fat(bpb, disk), Root(bpb, disk);
      if both {
        TwoStores(before, between, after, FAT_BASE, RootBase(), RootEnd(), fat, root, Target(), TWO16);
      } else {
        StoredBefore(before, between, FAT_BASE, fat, Target(), TWO16);
        StoredBefore(between, after, RootBase(), root, Target(), TWO16);
      }
    }

    lemma TablesSized()
      requires Valid()
      ensures bpb.bytesPerSector > 0 && |Fat(bpb, disk)| == bpb.FatSize() && |Root(bpb, disk)| == bpb.rootEntries * 32
    {
      Regions(bpb, disk);
    }

    /** What memory holds at the target once the file with chain `c` was copied there. */
    ghost predicate FileLoaded(c: seq<nat>, before: seq<u8>)
      requires Valid() && |before| == TWO16
      reads this, mem
    {
      var file := File(bpb, disk, c);
      && (forall o: nat :: o < TWO16 ==>
            Segment(Target())[o] == if o < |file| then file[LastPosition(|file|, o)] else before[o])
      && (|file| <= TWO16 ==> Segment(Target()) == file + before[|file|..])
    }

    lemma FileLoadedByStores(i: nat, c: seq<nat>, before: seq<u8>)
      requires Valid() && |before| == TWO16 && FileChain(bpb, disk, i, c)
      requires Segment(Target()) == StoreAll(before, c, Cluster(bpb, disk), bpb.ClusterSize())
      ensures FileLoaded(c, before)
      ensures |File(bpb, disk, c)| == |c| * bpb.ClusterSize()
    {
      var read, size := Cluster(bpb, disk), bpb.ClusterSize();
      forall j | 0 <= j < |c| ensures |read(c[j])| == size {
        ClusterLength(bpb, disk, c[j]);
      }
      MulMono(1, bpb.sectorsPerCluster, bpb.bytesPerSector);
      ContentsLength(c, read, size);
      forall o: nat | o < TWO16
        ensures Segment(Target())[o]
             == if o < |c| * size then File(bpb, disk, c)[LastPosition(|c| * size, o)] else before[o]
      {
        StoreAllAt(before, c, read, size, o);
      }
      if |c| * size <= TWO16 {
        StoreAllFits(before, c, read, size);
      }
    }

    /**
     The whole loader, up to the jump. The chain of the file found, if one is
     found, has to lie inside the volume and reach the end mark.
     */
    method Boot(ghost c: seq<nat>) returns (r: Outcome, ghost i: nat)
      requires Valid()
      requires forall k: nat :: k < bpb.rootEntries && FirstNamed(Root(bpb, disk), bpb.rootEntries, k) ==>
                 FileChain(bpb, disk, k, c)
      modifies mem, this
      ensures FirstNamed(Root(bpb, disk), bpb.rootEntries, i)
      ensures r.Booted? ==> i < bpb.rootEntries && FileLoaded(c, old(Segment(Target())))
      ensures r.Booted? ==> r.entry == JumpOffset(loadSegment)
      ensures i == bpb.rootEntries ==> r == Halted && Segment(Target()) == old(Segment(Target()))
      ensures OwnMemory() == old(OwnMemory())
      ensures Reliable(old(script)) ==> (r.Booted? <==> i < bpb.rootEntries)
    {
      hide Mul, Div, Bpb.RootFillsSectors, Geometry.Total, Packed.Linear, Packed.Sector, Packed.Cylinder, Sectors, Store;
      hide FileChain, IsChain, Next, AtMark, Covers, Addressable, FirstNamed, FirstCluster, Reliable, StoreAll, Fat, Root;
      i := FirstNamedExists(Root(bpb, disk), bpb.rootEntries);
      ghost var before := Segment(Target());
      var ok, start, data := LoadTables();
      if !ok {
        return Halted, i;
      }
      var found, first, at := FindFirst(start);
      FirstNamedUnique(Root(bpb, disk), bpb.rootEntries, i, at);
      if !found {
        return Halted, i;
      }
      ChainFacts(i, c);
      ghost var passes;
      ok, passes := LoadFile(first, data, c);
      assert ok ==> c[..passes] == c;
      if !ok {
        return Halted, i;
      }
      FileLoadedByStores(i, c, before);
      return Booted(JumpOffset(loadSegment)), i;
    }

    /** Memory that differs in a region clear of stack and code. */
    lemma OwnKept(before: seq<u8>, after: seq<u8>, low: nat, high: nat)
      requires |before| == |after| >= TWO16 && place.ClearOf(low, high)
      requires forall a :: 0 <= a < |before| && !(low <= a < high) ==> after[a] == before[a]
      ensures place.stackLow <= place.stackTop <= |before| && place.LinkEnd() <= |before|
      ensures after[place.stackLow..place.stackTop] == before[place.stackLow..place.stackTop]
      ensures after[place.link..place.LinkEnd()] == before[place.link..place.LinkEnd()]
    {
    }

    lemma ChainFacts(i: nat, c: seq<nat>)
      requires Valid() && FileChain(bpb, disk, i, c)
      ensures IsChain(c, FirstCluster(Root(bpb, disk), i), Next(Fat(bpb, disk)), AtMark(Mark(bpb, disk)))
      ensures forall j :: 0 <= j < |c| ==> bpb.InData(c[j]) && Covers(Fat(bpb, disk), c[j]) && Addressable(c[j])
      ensures bpb.DataStart() < bpb.totalSectors
    {
      assert bpb.InData(c[0]);
    }
  }
}
