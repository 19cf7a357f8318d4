/** What a FAT12 volume stores: its layout, its root directory and its files. */
module Fat12Volume {

  import opened Machine
  import opened ClusterChain
  import opened Disk
  import opened Fat12Table
  import Chs

  /** The BIOS parameter block fields the loader reads. */
  datatype Bpb = Bpb(
    bytesPerSector: u16,
    sectorsPerCluster: u8,
    reservedSectors: u16,
    fats: u8,
    rootEntries: u16,
    totalSectors: u16,
    sectorsPerFat: u16,
    sectorsPerTrack: u8,
    heads: u8)
  {
    function Geometry(): Chs.Geometry {
      Chs.Geometry(sectorsPerTrack, heads)
    }

    function RootSectors(): nat
      requires bytesPerSector > 0
    {
      Div(rootEntries * 32, bytesPerSector)
    }

    predicate RootFillsSectors()
      requires bytesPerSector > 0
    {
      rootEntries * 32 % bytesPerSector == 0
    }

    function RootStart(): nat {
      reservedSectors + Mul(fats, sectorsPerFat)
    }

    function DataStart(): nat
      requires bytesPerSector > 0
    {
      RootStart() + RootSectors()
    }

    /** First sector of cluster `k`. */
    function ClusterStart(k: nat): int
      requires bytesPerSector > 0
    {
      if k < 2 then -1 else DataStart() + Mul(k - 2, sectorsPerCluster)
    }

    function Bytes(sectors: nat): nat {
      Mul(sectors, bytesPerSector)
    }

    function ClusterSize(): nat {
      Bytes(sectorsPerCluster)
    }

    function FatSize(): nat {
      Bytes(sectorsPerFat)
    }

    /**
     A volume the loader can address: the first FAT sector lies in the first
     track, root entries fill whole sectors, and FAT and root directory fit
     one after the other into the 64 KiB segment they are loaded to.
     */
    predicate WellFormed() {
      && Geometry().Valid()
      && 512 <= bytesPerSector && 1 <= sectorsPerCluster && ClusterSize() <= TWO16
      && reservedSectors + 1 <= sectorsPerTrack
      && 1 <= fats && 1 <= sectorsPerFat < 256
      && 1 <= rootEntries < 2048 && RootFillsSectors() && RootSectors() < 256
      && FatSize() + rootEntries * 32 <= TWO16
      && DataStart() <= totalSectors && totalSectors <= Geometry().Total()
    }

    /** Cluster `k` lies in the data area. */
    predicate InData(k: nat)
      requires bytesPerSector > 0
    {
      2 <= k && ClusterStart(k) + sectorsPerCluster <= totalSectors
    }
  }

  /** A disk image that holds every sector the parameter block announces. */
  predicate Holds(b: Bpb, disk: seq<u8>) {
    |disk| == b.Bytes(b.totalSectors)
  }

  function Fat(b: Bpb, disk: seq<u8>): seq<u8> {
    Sectors(disk, b.bytesPerSector, b.reservedSectors, b.sectorsPerFat)
  }

  function Root(b: Bpb, disk: seq<u8>): seq<u8>
    requires b.bytesPerSector > 0
  {
    Sectors(disk, b.bytesPerSector, b.RootStart(), b.RootSectors())
  }

  /** The end mark is the entry of cluster 1. */
  function Mark(b: Bpb, disk: seq<u8>): u16 {
    Entry(Fat(b, disk), 1)
  }

  /** `v` is what bytes 1 and 2 hold above their low four bits, and the second entry of every table packed there. */
  ghost predicate SecondEntry(fat: seq<u8>, v: u16) {
    && |fat| >= 3 && v == fat[1] / 16 + 16 * fat[2] as int
    && forall e: seq<Entry12> :: |e| >= 2 && Pack(e) <= fat ==> v == e[1]
  }

  /** The mark is the second entry of the packed table, in bytes 1 and 2 of the FAT. */
  lemma MarkIsEntryOne(b: Bpb, disk: seq<u8>)
    requires |Fat(b, disk)| >= 3
    ensures SecondEntry(Fat(b, disk), Mark(b, disk))
  {
    var fat := Fat(b, disk);
    MarkBytes(fat);
    forall e: seq<Entry12> | |e| >= 2 && Pack(e) <= fat ensures Mark(b, disk) == e[1] {
      EntryOfPack(e, 1);
      PackLength(e);
      MarkBytes(Pack(e));
    }
  }

  lemma MarkBytes(fat: seq<u8>)
    requires |fat| >= 3
    ensures Entry(fat, 1) == fat[1] / 16 + 16 * fat[2] as int
  {
    EntryOne(fat);
    DecodePair(fat[0], fat[1], fat[2]);
  }

  /** The bytes of a cluster. */
  function Cluster(b: Bpb, disk: seq<u8>): nat -> seq<u8>
    requires b.bytesPerSector > 0
  {
    (k: nat) => Sectors(disk, b.bytesPerSector, b.ClusterStart(k), b.sectorsPerCluster)
  }

  const TARGET: seq<u8> := [66, 79, 79, 84, 76, 68, 32, 32, 83, 89, 83]

  predicate Named(root: seq<u8>, i: nat) {
    i * 32 + 11 <= |root| && root[i * 32..i * 32 + 11] == TARGET
  }

  /** No entry before `n` has the target name. */
  predicate NoneNamed(root: seq<u8>, n: nat) {
    forall j :: 0 <= j < n ==> !Named(root, j)
  }

  /** `i` is the first entry with the target name; `n` means that there is none. */
  ghost predicate FirstNamed(root: seq<u8>, n: nat, i: nat) {
    && i <= n
    && NoneNamed(root, i)
    && (i < n ==> Named(root, i))
  }

  lemma NoneNamedStep(root: seq<u8>, n: nat)
    ensures NoneNamed(root, 0)
    ensures NoneNamed(root, n) && !Named(root, n) ==> NoneNamed(root, n + 1)
  {
  }

  lemma FirstNamedExists(root: seq<u8>, n: nat) returns (i: nat)
    ensures FirstNamed(root, n, i)
  {
    i := 0;
    while i < n && !Named(root, i)
      invariant i <= n && NoneNamed(root, i)
    {
      i := i + 1;
    }
  }

  lemma FirstNamedUnique(root: seq<u8>, n: nat, i: nat, j: nat)
    requires FirstNamed(root, n, i) && FirstNamed(root, n, j)
    ensures i == j
  {
  }

  function FirstCluster(root: seq<u8>, i: nat): u16 {
    Word(root, i * 32 + 26)
  }

  /** A directory entry: name, fifteen bytes the loader skips, first cluster and size. */
  datatype DirectoryEntry = DirectoryEntry(name: seq<char>, middle: seq<u8>, cluster: u16, size: seq<u8>) {
    predicate Valid() {
      |name| == 11 && (forall i :: 0 <= i < 11 ==> name[i] < 256 as char) && |middle| == 15 && |size| == 4
    }

    function Encode(): (bytes: seq<u8>)
      requires Valid()
      ensures |bytes| == 32
    {
      CharBytes(name) + middle + [cluster % 256, cluster / 256] + size
    }
  }

  function CharBytes(s: seq<char>): seq<u8>
    requires forall i :: 0 <= i < |s| ==> s[i] < 256 as char
  {
    seq(|s|, i requires 0 <= i < |s| => s[i] as int)
  }

  /** A directory of encoded entries, as section 6 of the FAT specification lays it out. */
  function EncodeDirectory(entries: seq<DirectoryEntry>): seq<u8>
    requires forall i :: 0 <= i < |entries| ==> entries[i].Valid()
  {
    if entries == [] then [] else EncodeDirectory(entries[..|entries| - 1]) + entries[|entries| - 1].Encode()
  }

  lemma {:induction false} EncodedEntryAt(entries: seq<DirectoryEntry>, i: nat)
    requires forall i :: 0 <= i < |entries| ==> entries[i].Valid()
    requires i < |entries|
    ensures |EncodeDirectory(entries)| == |entries| * 32
    ensures EncodeDirectory(entries)[i * 32..i * 32 + 32] == entries[i].Encode()
  {
    hide DirectoryEntry.Encode;
    var n := |entries| - 1;
    var front := EncodeDirectory(entries[..n]);
    if n == 0 {
      assert front == [];
    } else {
      EncodedEntryAt(entries[..n], if i < n then i else 0);
    }
    SlotOfConcat(front, entries[n].Encode(), i * 32);
  }

  lemma SlotOfConcat(front: seq<u8>, last: seq<u8>, at: nat)
    requires |last| == 32
    ensures at + 32 <= |front| ==> (front + last)[at..at + 32] == front[at..at + 32]
    ensures at == |front| ==> (front + last)[at..at + 32] == last
  {
  }

  /** The loader's reading of a directory: the name to look for, and where the first cluster is. */
  lemma DirectoryReads(entries: seq<DirectoryEntry>, i: nat)
    requires forall i :: 0 <= i < |entries| ==> entries[i].Valid()
    requires i < |entries|
    ensures var root := EncodeDirectory(entries);
            && (Named(root, i) <==> entries[i].name == "BOOTLD  SYS")
            && FirstCluster(root, i) == entries[i].cluster
  {
    hide EncodeDirectory, DirectoryEntry.Encode, Join, Word;
    EncodedEntryAt(entries, i);
    SlotReads(EncodeDirectory(entries), i, entries[i]);
  }

  lemma SlotReads(root: seq<u8>, i: nat, e: DirectoryEntry)
    requires e.Valid() && i * 32 + 32 <= |root| && root[i * 32..i * 32 + 32] == e.Encode()
    ensures Named(root, i) <==> e.name == "BOOTLD  SYS"
    ensures FirstCluster(root, i) == e.cluster
  {
    hide DirectoryEntry.Encode, Join;
    var at := i * 32;
    EntryReads(root[at..at + 32], e);
    PartOfPart(root, at, at + 32, 0, 11);
    PartOfPart(root, at, at + 32, 26, 2);
    WordOfPart(root, at + 26);
  }

  lemma EntryReads(bytes: seq<u8>, e: DirectoryEntry)
    requires e.Valid() && bytes == e.Encode()
    ensures bytes[..11] == TARGET <==> e.name == "BOOTLD  SYS"
    ensures bytes[0..11] == bytes[..11] && Join(bytes[26], bytes[27]) == e.cluster
  {
    var name := "BOOTLD  SYS";
    assert bytes[..11] == CharBytes(e.name);
    assert CharBytes(name) == TARGET;
    if bytes[..11] == TARGET {
      forall k | 0 <= k < 11 ensures e.name[k] == name[k] {
        assert CharBytes(e.name)[k] == CharBytes(name)[k];
      }
      assert e.name == name;
    }
    DivModParts(e.cluster, 256);
  }

  /** `c` is the chain of the file at directory entry `i`, inside table and data area. */
  ghost predicate FileChain(b: Bpb, disk: seq<u8>, i: nat, c: seq<nat>)
    requires b.bytesPerSector > 0
  {
    && IsChain(c, FirstCluster(Root(b, disk), i), Next(Fat(b, disk)), AtMark(Mark(b, disk)))
    && forall j :: 0 <= j < |c| ==> b.InData(c[j]) && Covers(Fat(b, disk), c[j]) && Addressable(c[j])
  }

  /** The bytes of the file. */
  function File(b: Bpb, disk: seq<u8>, c: seq<nat>): seq<u8>
    requires b.bytesPerSector > 0
  {
    Contents(c, Cluster(b, disk))
  }

  lemma Regions(b: Bpb, disk: seq<u8>)
    requires b.WellFormed() && Holds(b, disk)
    ensures |Fat(b, disk)| == b.FatSize() && |Root(b, disk)| == b.rootEntries * 32
    ensures b.Bytes(b.RootSectors()) == b.rootEntries * 32
    ensures b.reservedSectors + b.sectorsPerFat <= b.RootStart() <= b.DataStart()
    ensures b.RootSectors() >= 1 && b.FatSize() >= 512
  {
    hide Sectors, Chs.Geometry.Total;
    RegionSizes(b);
    SectorsLength(disk, b.bytesPerSector, b.reservedSectors, b.sectorsPerFat, b.totalSectors);
    SectorsLength(disk, b.bytesPerSector, b.RootStart(), b.RootSectors(), b.totalSectors);
  }

  lemma RegionSizes(b: Bpb)
    requires b.WellFormed()
    ensures b.Bytes(b.RootSectors()) == b.rootEntries * 32
    ensures b.reservedSectors + b.sectorsPerFat <= b.RootStart() <= b.DataStart()
    ensures b.RootSectors() >= 1 && b.FatSize() >= 512
  {
    hide Chs.Geometry.Total;
    MulMono(1, b.fats, b.sectorsPerFat);
    MulMono(1, b.sectorsPerFat, b.bytesPerSector);
    DivExact(b.rootEntries * 32, b.bytesPerSector);
  }

  /**
   From any first cluster the directory can name, and whatever memory its
   lookup leads to, the loader meets the mark within 4097 links, or never.
   */
  lemma FileEndsIff(memory: seq<u8>, first: u16, mark: u16)
    ensures (exists c :: IsChain(c, first, Lookup(memory), AtMark(mark)))
       <==> StopsWithin(4097, first, Lookup(memory), AtMark(mark))
  {
    ChainExistsFromAnywhereIff(4096, first, Lookup(memory), AtMark(mark));
  }

  /** Of a chain only the first cluster can be out of reach of the lookup. */
  lemma ChainAddressableIff(fat: seq<u8>, c: seq<nat>, first: nat, stop: nat -> bool)
    requires IsChain(c, first, Next(fat), stop)
    ensures (forall j :: 0 <= j < |c| ==> Addressable(c[j])) <==> Addressable(first)
  {
    forall j | 1 <= j < |c| ensures Addressable(c[j]) {
      assert c[j] == Next(fat)(c[j - 1]);
    }
  }

  /** The FAT specification gives a FAT12 volume fewer than 4085 clusters; all of them can be looked up. */
  lemma SpecifiedClustersAddressable(b: Bpb, k: nat)
    requires b.WellFormed() && b.InData(k)
    requires Div(b.totalSectors - b.DataStart(), b.sectorsPerCluster) < 4085
    ensures Addressable(k)
  {
    ClusterBelow(b.totalSectors - b.DataStart(), b.sectorsPerCluster, k - 2);
  }

  lemma ClusterBelow(sectors: nat, size: nat, k: nat)
    requires size > 0 && Mul(k, size) + size <= sectors
    ensures k < Div(sectors, size)
  {
    DivModParts(sectors, size);
    if k >= Div(sectors, size) {
      MulMono(Div(sectors, size), k, size);
    }
  }

  /**
   A larger volume that is well formed otherwise: the lookup of a cluster in
   its data area and table wraps to an address below the table.
   */
  lemma HighClusterMisread()
    ensures var b := Bpb(512, 1, 1, 1, 16, 65535, 126, 63, 16);
            && b.WellFormed() && b.InData(43000) && 43000 + 43000 / 2 + 1 < b.FatSize()
            && LookupAt(43000) == 0xF4 && LookupAt(43000) < FAT_BASE
  {
    var b := Bpb(512, 1, 1, 1, 16, 65535, 126, 63, 16);
    assert b.RootSectors() == 1 && b.FatSize() == 64512;
  }

  /** End of chain as the FAT specification defines it: any entry from 0xFF8. */
  function EndOfChain(): nat -> bool {
    (v: nat) => v >= 0xFF8
  }

  /**
   The loader compares with one saved mark. It follows a file's chain as the
   specification defines it exactly when that chain ends in the saved value.
   */
  lemma MarkMeetsSpecificationIff(fat: seq<u8>, first: nat, mark: u16, c: seq<nat>)
    requires IsChain(c, first, Next(fat), EndOfChain())
    ensures IsChain(c, first, Next(fat), AtMark(mark)) <==> Entry(fat, c[|c| - 1]) == mark
    ensures forall i :: 0 <= i < |c| ==> (Entry(fat, c[i]) >= 0xFF8 <==> i == |c| - 1)
  {
    forall i | 0 <= i < |c| ensures Entry(fat, c[i]) >= 0xFF8 <==> i == |c| - 1 {
      assert EndOfChain()(Next(fat)(c[i])) <==> i == |c| - 1;
    }
    var last := c[|c| - 1];
    assert EndOfChain()(Next(fat)(last));
    if Entry(fat, last) == mark {
      forall i | 0 <= i < |c| ensures AtMark(mark)(Next(fat)(c[i])) <==> i == |c| - 1 {
        assert EndOfChain()(Next(fat)(c[i])) <==> i == |c| - 1;
      }
    } else {
      assert !AtMark(mark)(Next(fat)(last));
    }
  }

  lemma ClusterLength(b: Bpb, disk: seq<u8>, k: nat)
    requires b.WellFormed() && Holds(b, disk) && b.InData(k)
    ensures |Cluster(b, disk)(k)| == b.ClusterSize()
  {
    SectorsLength(disk, b.bytesPerSector, b.ClusterStart(k), b.sectorsPerCluster, b.totalSectors);
  }

  /**
   Where everything lies, in bytes: the FAT behind the reserved sectors, the
   root directory behind all FATs, and behind it the clusters from number 2 on.
   */
  lemma VolumeTiles(b: Bpb, disk: seq<u8>, n: nat)
    requires b.WellFormed() && Holds(b, disk) && b.DataStart() + Mul(n, b.sectorsPerCluster) <= b.totalSectors
    ensures var bytes := b.bytesPerSector as int;
            var fat, root := b.reservedSectors * bytes, (b.reservedSectors + b.fats * b.sectorsPerFat) * bytes;
            var data := root + b.rootEntries * 32;
            var end := data + n * b.sectorsPerCluster * bytes;
            && 0 <= fat <= fat + b.sectorsPerFat * bytes <= root <= data <= end <= |disk|
            && Fat(b, disk) == disk[fat..fat + b.sectorsPerFat * bytes]
            && Root(b, disk) == disk[root..data]
            && Contents(AllClusters(n), Cluster(b, disk)) == disk[data..end]
  {
    hide Sectors, Contents, Chs.Geometry.Total;
    RegionSizes(b);
    var size, spc := b.bytesPerSector, b.sectorsPerCluster;
    MulMono(b.DataStart() + Mul(n, spc), b.totalSectors, size);
    MulMono(b.DataStart(), b.DataStart() + Mul(n, spc), size);
    MulMono(b.RootStart(), b.DataStart(), size);
    MulMono(b.reservedSectors + b.sectorsPerFat, b.RootStart(), size);
    MulMono(0, b.reservedSectors, size);
    SectorsPlace(disk, size, b.reservedSectors, b.sectorsPerFat);
    SectorsPlace(disk, size, b.RootStart(), b.RootSectors());
    MulSum(b.RootStart(), b.RootSectors(), size);
    MulSum(b.DataStart(), Mul(n, spc), size);
    MulSum(b.reservedSectors, b.sectorsPerFat, size);
    ClustersTile(disk, size, b.DataStart(), spc, Cluster(b, disk), n);
  }

  /** Sectors of the root directory as the FAT specification rounds them up. */
  function SpecifiedRootSectors(b: Bpb): nat
    requires b.bytesPerSector > 0
  {
    Div(b.rootEntries * 32 + b.bytesPerSector - 1, b.bytesPerSector)
  }

  /**
   What the loader computes, in a 16-bit shift, a truncating division and a
   byte register, is the specified number exactly when the shift loses no
   bit, the entries fill whole sectors, and those fit a byte.
   */
  lemma RootSectorsExactIff(b: Bpb)
    requires b.bytesPerSector > 0
    ensures LowByte(Div(ShiftLeft5(b.rootEntries), b.bytesPerSector)) == SpecifiedRootSectors(b) <==>
              b.rootEntries < 2048 && b.RootFillsSectors() && b.RootSectors() < 256
  {
    hide Div, LowByte, ShiftLeft5, Mul;
    var a, n: nat := b.rootEntries * 32, b.bytesPerSector;
    RoundedUp(a, n);
    ShiftBits(b.rootEntries);
    DivModParts(ShiftLeft5(b.rootEntries), n);
    ByteBits(Div(ShiftLeft5(b.rootEntries), n));
    if b.rootEntries >= 2048 {
      QuotientLess(ShiftLeft5(b.rootEntries), a, n);
    }
  }

  lemma ShiftBits(x: u16)
    ensures if x < 2048 then ShiftLeft5(x) == x * 32 else ShiftLeft5(x) + TWO16 <= x * 32
  {
  }

  lemma ByteBits(x: u16)
    ensures if x < 256 then LowByte(x) == x else LowByte(x) < x
  {
  }

  lemma QuotientLess(w: nat, a: nat, n: nat)
    requires 0 < n && w + n <= a
    ensures Div(w, n) < Div(a, n)
  {
    RoundedUp(w, n);
    RoundedUp(a, n);
    if Div(a, n) <= Div(w, n) {
      MulMono(Div(a, n), Div(w, n), n);
    }
  }

  /** Rounding up is rounding down, and one more exactly when something is left. */
  lemma RoundedUp(a: nat, n: nat)
    requires n > 0
    ensures Div(a + n - 1, n) == Div(a, n) + if a % n == 0 then 0 else 1
    ensures Mul(Div(a, n), n) <= a < Mul(Div(a, n), n) + n
  {
    DivModParts(a, n);
    var q, r := Div(a, n), Mod(a, n);
    MulSum(q, 1, n);
    if r == 0 {
      DivModUnique(a + n - 1, n, q, n - 1);
    } else {
      DivModUnique(a + n - 1, n, q + 1, r - 1);
    }
  }

  /** The adds for root directory, data area and cluster `k` land on the first sector of the cluster. */
  lemma AddsReachCluster(b: Bpb, fatAt: Chs.Packed, k: nat)
    requires b.WellFormed() && b.InData(k)
    requires fatAt.Valid(b.Geometry()) && fatAt.Linear(b.Geometry()) == b.reservedSectors
    ensures var g := b.Geometry();
            var root := Chs.Advance(g, fatAt, Mul(b.fats, b.sectorsPerFat));
            && root.Valid(g) && Chs.Advance(g, root, b.RootSectors()).Valid(g)
            && var at := Chs.Advance(g, Chs.Advance(g, root, b.RootSectors()), Mul(k - 2, b.sectorsPerCluster));
               at.Valid(g) && at.Linear(g) == b.ClusterStart(k)
  {
    hide Mul, Div, Chs.Advance, Chs.Packed.Linear, Chs.Geometry.Total, Bpb.RootFillsSectors;
    var g := b.Geometry();
    var m, n, c := Mul(b.fats, b.sectorsPerFat), b.RootSectors(), Mul(k - 2, b.sectorsPerCluster);
    Chs.AdvanceAdditive(g, fatAt, m, n);
    Chs.AdvanceAdditive(g, fatAt, m + n, c);
    Chs.AdvanceAdditive(g, Chs.Advance(g, fatAt, m), n, c);
    Chs.AdvanceLinear(g, fatAt, m + n + c);
  }

  /** The parameter block the boot record itself carries. */
  const FLOPPY: Bpb := Bpb(512, 1, 1, 2, 224, 2880, 9, 18, 2)

  lemma FloppyWellFormed()
    ensures FLOPPY.WellFormed()
    ensures FLOPPY.RootStart() == 19 && FLOPPY.DataStart() == 33 && FLOPPY.ClusterStart(2848) == 2879
    ensures FLOPPY.InData(2848) && !FLOPPY.InData(2849)
  {
    assert FLOPPY.RootSectors() == 14 && FLOPPY.FatSize() == 4608;
  }
}
