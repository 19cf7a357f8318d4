/** Where the configurator puts the partition structures, and what the device holds afterwards. */
module GptLayout {

  import opened Machine

  const MBR_ENTRY: nat := 446
  const MBR_ENTRY_SIZE: nat := 16
  const HEADER_SIZE: nat := 92
  const SLOTS: nat := 128
  const ENTRY_SIZE: nat := 128
  const ARRAY_SIZE: nat := 16384
  const PART_DATA_LBA: nat := 34
  const EFI_SIZE: nat := 0x400_0000

  /** The sector numbers of the structures, in 64-bit arithmetic. */
  datatype Layout = Layout(
    primaryHeader: u64, primaryArray: u64, efiFirst: u64, efiLast: u64,
    firstUsable: u64, lastUsable: u64, backupArray: u64, backupHeader: u64)

  function Place(size: nat, sector: nat): Layout
    requires sector >= ENTRY_SIZE && size < TWO64
  {
    var count := Div(size, sector);
    Layout(1, 2, PART_DATA_LBA, PART_DATA_LBA + EfiSectors(sector),
           PART_DATA_LBA, (count - PART_DATA_LBA) % TWO64,
           (count - ArraySectors(sector) - 1) % TWO64, (count - 1) % TWO64)
  }

  function EfiSectors(sector: nat): (n: nat)
    requires sector >= ENTRY_SIZE
    ensures n <= EFI_SIZE
  {
    DivModParts(EFI_SIZE, sector);
    Div(EFI_SIZE, sector)
  }

  /** A range of bytes on the device. */
  datatype Range = Range(start: nat, end: nat)

  predicate Apart(a: Range, b: Range) {
    a.end <= b.start || b.end <= a.start
  }

  function MbrRange(): Range {
    Range(MBR_ENTRY, MBR_ENTRY + MBR_ENTRY_SIZE)
  }

  function At(lba: nat, sector: nat, length: nat): Range {
    Range(Mul(lba, sector), Mul(lba, sector) + length)
  }

  function EfiRange(l: Layout, sector: nat): Range {
    Range(Mul(l.efiFirst, sector), Mul(l.efiLast + 1, sector))
  }

  /** The six structures in the order of their addresses. */
  function Ranges(l: Layout, sector: nat): (r: seq<Range>)
    ensures |r| == 6
  {
    [MbrRange(), At(l.primaryHeader, sector, HEADER_SIZE), At(l.primaryArray, sector, ARRAY_SIZE),
     EfiRange(l, sector), At(l.backupArray, sector, ARRAY_SIZE), At(l.backupHeader, sector, HEADER_SIZE)]
  }

  /**
   Structures lie apart and on the device, the EFI partition in the usable
   range, and the backup array ends where its header starts (section 5.3 of
   the UEFI Specification).
   */
  predicate Sound(size: nat, sector: nat)
    requires sector >= ENTRY_SIZE && size < TWO64
  {
    var l := Place(size, sector);
    var r := Ranges(l, sector);
    && (forall i, j :: 0 <= i < j < 6 ==> Apart(r[i], r[j]))
    && (forall i :: 0 <= i < 6 ==> r[i].end <= size)
    && l.firstUsable <= l.efiFirst && l.efiLast <= l.lastUsable
    && r[4].end == r[5].start
  }

  /** The configurator computes a layout, without dividing by zero, and it is sound. */
  predicate Works(size: nat, sector: nat)
    requires size < TWO64
  {
    sector >= ENTRY_SIZE && Sound(size, sector)
  }

  /** Sectors the entry array takes. */
  function ArraySectors(sector: nat): nat
    requires sector >= ENTRY_SIZE
  {
    SLOTS / (sector / ENTRY_SIZE)
  }

  lemma ArraySectorsFit(sector: nat)
    requires WorkingSector(sector)
    ensures 1 <= ArraySectors(sector) <= 32 && Mul(ArraySectors(sector), sector) == ARRAY_SIZE
  {
  }

  predicate Ordered(r: seq<Range>) {
    && (forall i :: 0 <= i < |r| ==> r[i].start <= r[i].end)
    && (forall i :: 0 < i < |r| ==> r[i - 1].end <= r[i].start)
  }

  lemma {:induction false} OrderedApart(r: seq<Range>, i: nat, j: nat)
    requires Ordered(r) && i < j < |r|
    ensures r[i].end <= r[j].start
  {
    if i < j - 1 {
      OrderedApart(r, i, j - 1);
      assert r[j - 1].end <= r[j].start;
    }
  }

  /** On sectors of a working size a device of enough sectors is laid out soundly. */
  lemma LargeEnough(size: nat, sector: nat)
    requires WorkingSector(sector) && size < TWO64
    requires Div(size, sector) >= 68 + EfiSectors(sector)
    ensures Sound(size, sector)
  {
    hide Mul, Div, ArraySectors;
    var l, count, q := Place(size, sector), Div(size, sector), ArraySectors(sector);
    var r := Ranges(l, sector);
    DivModParts(size, sector);
    ArraySectorsFit(sector);
    PlaceExact(size, sector);
    Products(sector, l.efiLast + 1, l.backupArray, q, count);
    assert Ordered(r);
    forall i, j | 0 <= i < j < 6 ensures Apart(r[i], r[j]) {
      OrderedApart(r, i, j);
    }
    forall i | 0 <= i < 6 ensures r[i].end <= size {
      if i < 5 {
        OrderedApart(r, i, 5);
      }
    }
  }

  lemma PlaceExact(size: nat, sector: nat)
    requires WorkingSector(sector) && size < TWO64
    requires Div(size, sector) >= 68 + EfiSectors(sector)
    ensures var l := Place(size, sector);
            && l.lastUsable == Div(size, sector) - 34 && l.backupHeader == Div(size, sector) - 1
            && l.backupArray == Div(size, sector) - ArraySectors(sector) - 1
  {
    hide Mul, Div, ArraySectors;
    DivModParts(size, sector);
    ArraySectorsFit(sector);
    SmallMod(Div(size, sector) - 34);
    SmallMod(Div(size, sector) - 1);
    SmallMod(Div(size, sector) - ArraySectors(sector) - 1);
  }

  lemma SmallMod(x: int)
    ensures 0 <= x < TWO64 ==> x % TWO64 == x
  {
  }

  lemma Products(sector: nat, efiEnd: nat, backup: nat, q: nat, count: nat)
    requires sector >= 512 && Mul(q, sector) == ARRAY_SIZE
    requires PART_DATA_LBA <= efiEnd <= backup && count == backup + q + 1
    ensures MBR_ENTRY + MBR_ENTRY_SIZE <= Mul(1, sector) && Mul(1, sector) + HEADER_SIZE <= Mul(2, sector)
    ensures Mul(2, sector) + ARRAY_SIZE <= Mul(PART_DATA_LBA, sector) <= Mul(efiEnd, sector) <= Mul(backup, sector)
    ensures Mul(backup, sector) + ARRAY_SIZE == Mul(count - 1, sector)
    ensures Mul(count - 1, sector) + HEADER_SIZE <= Mul(count, sector)
  {
    MulMono(PART_DATA_LBA, efiEnd, sector);
    MulMono(efiEnd, backup, sector);
    MulSum(backup, q, sector);
    MulSum(count - 1, 1, sector);
  }

  /** The sector sizes whose entry array fills whole sectors and ends before the data area. */
  predicate WorkingSector(sector: nat) {
    sector in {512, 1024, 2048, 4096, 8192, 16384}
  }

  /**
   For every sector size and every device: the exact condition of a sound
   layout. Below 128 bytes the configurator divides by zero.
   */
  lemma SoundIff(size: nat, sector: nat)
    requires size < TWO64
    ensures Works(size, sector) <==>
              WorkingSector(sector) && Div(size, sector) >= 68 + EfiSectors(sector)
  {
    if WorkingSector(sector) && Div(size, sector) >= 68 + EfiSectors(sector) {
      LargeEnough(size, sector);
    }
    if Works(size, sector) {
      SoundOnlyIf(size, sector);
    }
  }

  /**
   A sound layout in bytes: the primary header in the second sector, the array
   behind it, a partition of 64 MiB and one sector from sector 34 on, and at
   the end of the last whole sector's start the backup array and header.
   */
  lemma LayoutBytes(size: nat, sector: nat)
    requires size < TWO64 && Works(size, sector)
    ensures var r := Ranges(Place(size, sector), sector);
            var last := size - size % sector - sector;
            && r[0] == Range(446, 462)
            && r[1] == Range(sector, sector + 92)
            && r[2] == Range(2 * sector, 2 * sector + 16384)
            && r[3] == Range(34 * sector, 34 * sector + 64 * 1024 * 1024 + sector)
            && r[4] == Range(last - 16384, last)
            && r[5] == Range(last, last + 92)
    ensures var l := Place(size, sector);
            l.firstUsable == 34 && l.lastUsable == size / sector - 34
  {
    hide Mul, Div, Place, Sound;
    SoundIff(size, sector);
    PlaceExact(size, sector);
    PlaceFixed(size, sector);
    ArraySectorsFit(sector);
    EfiBytes(sector);
    var l, count := Place(size, sector), Div(size, sector);
    DivModParts(size, sector);
    ProductsAdd(count - 1, 1, sector);
    ProductsAdd(l.backupArray, ArraySectors(sector), sector);
    ProductsFixed(sector);
    ProductsAdd(34, EfiSectors(sector) + 1, sector);
    ProductsAdd(EfiSectors(sector), 1, sector);
    hide ArraySectors, EfiSectors;
    DivIs(size, sector);
  }

  lemma DivIs(size: nat, sector: nat)
    requires sector > 0
    ensures Div(size, sector) == size / sector && Mod(size, sector) == size % sector
  {
  }

  lemma PlaceFixed(size: nat, sector: nat)
    requires sector >= ENTRY_SIZE && size < TWO64
    ensures var l := Place(size, sector);
            && l.primaryHeader == 1 && l.primaryArray == 2 && l.efiFirst == 34 && l.firstUsable == 34
            && l.efiLast == 34 + EfiSectors(sector)
  {
  }

  lemma ProductsFixed(sector: nat)
    ensures Mul(1, sector) == sector && Mul(2, sector) == 2 * sector && Mul(34, sector) == 34 * sector
  {
  }

  lemma EfiBytes(sector: nat)
    requires WorkingSector(sector)
    ensures Mul(EfiSectors(sector), sector) == 64 * 1024 * 1024
  {
  }

  /** The working sizes are those from 512 on of which whole sectors make up the entry array. */
  lemma WorkingSectorIff(sector: nat)
    requires sector >= ENTRY_SIZE
    ensures WorkingSector(sector) <==> sector >= 512 && Mul(ArraySectors(sector), sector) == ARRAY_SIZE
  {
    if sector >= 512 && Mul(ArraySectors(sector), sector) == ARRAY_SIZE {
      ArraySectorsFew(sector);
      ArrayDivisors(ArraySectors(sector), sector);
    }
    if WorkingSector(sector) {
      ArraySectorsFit(sector);
    }
  }

  lemma ArraySectorsFew(sector: nat)
    requires sector >= 512
    ensures ArraySectors(sector) <= 32
  {
    DivModParts(sector, ENTRY_SIZE);
    DivModParts(SLOTS, sector / ENTRY_SIZE);
    MulMono(4, sector / ENTRY_SIZE, Div(SLOTS, sector / ENTRY_SIZE));
  }

  lemma ArrayDivisors(q: nat, sector: nat)
    requires q <= 32 && Mul(q, sector) == ARRAY_SIZE
    ensures WorkingSector(sector)
  {
    if q <= 16 {
      SmallDivisors(q, sector);
    } else {
      LargeDivisors(q, sector);
    }
  }

  lemma SmallDivisors(q: nat, sector: nat)
    requires q <= 16 && Mul(q, sector) == ARRAY_SIZE
    ensures sector in {1024, 2048, 4096, 8192, 16384}
  {
    assert q in {0, 1, 2, 3, 4, 5, 6, 7, 8, 9, 10, 11, 12, 13, 14, 15, 16};
  }

  lemma LargeDivisors(q: nat, sector: nat)
    requires 17 <= q <= 32 && Mul(q, sector) == ARRAY_SIZE
    ensures sector == 512
  {
    assert q in {17, 18, 19, 20, 21, 22, 23, 24, 25, 26, 27, 28, 29, 30, 31, 32};
  }

  lemma SoundOnlyIf(size: nat, sector: nat)
    requires size < TWO64 && Works(size, sector)
    ensures WorkingSector(sector) && Div(size, sector) >= 68 + EfiSectors(sector)
  {
    hide Mul, Div, ArraySectors;
    var l, count, q := Place(size, sector), Div(size, sector), ArraySectors(sector);
    var r := Ranges(l, sector);
    assert Apart(r[2], r[3]) && r[3].end <= size && r[4].end == r[5].start;
    DivModParts(size, sector);
    if sector < 512 {
      EarlyData(sector, l.efiLast + 1);
    }
    if count < 34 {
      BeyondEnd(size, sector, l.efiLast + 1);
    }
    SmallMod(count - 34);
    SmallMod(count - 1);
    ArraySectorsFew(sector);
    SmallMod(count - q - 1);
    ProductsAdd(l.backupArray, q, sector);
    WorkingSectorIff(sector);
  }

  lemma ProductsAdd(x: nat, y: nat, sector: nat)
    ensures Mul(x + y, sector) == Mul(x, sector) + Mul(y, sector)
  {
    MulSum(x, y, sector);
  }

  lemma EarlyData(sector: nat, efiEnd: nat)
    requires 0 < sector < 512 && efiEnd >= PART_DATA_LBA + 1
    ensures Mul(PART_DATA_LBA, sector) < Mul(2, sector) + ARRAY_SIZE && Mul(2, sector) < Mul(efiEnd, sector)
  {
    MulMono(3, efiEnd, sector);
  }

  lemma BeyondEnd(size: nat, sector: nat, efiEnd: nat)
    requires sector > 0 && Div(size, sector) < 34 && efiEnd >= 35
    ensures size < Mul(efiEnd, sector)
  {
    DivModParts(size, sector);
    MulMono(Div(size, sector) + 1, efiEnd, sector);
    MulSum(Div(size, sector), 1, sector);
  }

  /** One fseek and fwrite. */
  datatype Write = Write(position: nat, data: seq<u8>)

  predicate Covers(w: Write, b: nat) {
    w.position <= b < w.position + |w.data|
  }

  predicate Fit(writes: seq<Write>, length: nat) {
    forall i :: 0 <= i < |writes| ==> writes[i].position + |writes[i].data| <= length
  }

  function Over(before: seq<u8>, w: Write): (after: seq<u8>)
    requires w.position + |w.data| <= |before|
    ensures |after| == |before|
  {
    before[..w.position] + w.data + before[w.position + |w.data|..]
  }

  /** What a device holds after some writes. */
  function Image(base: seq<u8>, writes: seq<Write>): (image: seq<u8>)
    requires Fit(writes, |base|)
    ensures |image| == |base|
  {
    if writes == [] then base
    else Over(Image(base, writes[..|writes| - 1]), writes[|writes| - 1])
  }

  /** The last of the writes that covers a byte, or -1. */
  function LastOn(writes: seq<Write>, b: nat): (i: int)
    ensures -1 <= i < |writes| && (i >= 0 ==> Covers(writes[i], b))
    ensures forall j :: i < j < |writes| ==> !Covers(writes[j], b)
  {
    if writes == [] then -1
    else if Covers(writes[|writes| - 1], b) then |writes| - 1
    else LastOn(writes[..|writes| - 1], b)
  }

  /** Every byte is that of the last write on it, or the one that was there. */
  lemma {:induction false} ImageAt(base: seq<u8>, writes: seq<Write>, b: nat)
    requires Fit(writes, |base|) && b < |base|
    ensures var i := LastOn(writes, b);
            Image(base, writes)[b] == if i < 0 then base[b] else writes[i].data[b - writes[i].position]
  {
    hide Over, Covers;
    if writes != [] {
      var w := writes[|writes| - 1];
      ImageAt(base, writes[..|writes| - 1], b);
      OverAt(Image(base, writes[..|writes| - 1]), w, b);
    }
  }

  lemma OverAt(before: seq<u8>, w: Write, b: nat)
    requires w.position + |w.data| <= |before| && b < |before|
    ensures Over(before, w)[b] == if Covers(w, b) then w.data[b - w.position] else before[b]
  {
  }

  predicate Meets(w: Write, r: Range) {
    w.position < r.end && r.start < w.position + |w.data|
  }

  /** A range that no write meets is as it was. */
  lemma ImageOutside(base: seq<u8>, writes: seq<Write>, r: Range)
    requires Fit(writes, |base|) && r.start <= r.end <= |base|
    requires forall i :: 0 <= i < |writes| ==> !Meets(writes[i], r)
    ensures Image(base, writes)[r.start..r.end] == base[r.start..r.end]
  {
    var image := Image(base, writes);
    forall b | r.start <= b < r.end ensures image[b] == base[b] {
      ImageAt(base, writes, b);
      assert forall i :: 0 <= i < |writes| ==> !Meets(writes[i], r) && !Covers(writes[i], b);
    }
  }

  /** What a write stored is there at the end if no later one meets it. */
  lemma ImageInside(base: seq<u8>, writes: seq<Write>, k: nat)
    requires Fit(writes, |base|) && k < |writes|
    requires forall i :: k < i < |writes| ==> !Meets(writes[i], Extent(writes[k]))
    ensures var r := Extent(writes[k]);
            r.end <= |base| && Image(base, writes)[r.start..r.end] == writes[k].data
  {
    var image, r := Image(base, writes), Extent(writes[k]);
    forall b | r.start <= b < r.end ensures image[b] == writes[k].data[b - r.start] {
      ImageAt(base, writes, b);
      assert Covers(writes[k], b) && forall i :: k < i < |writes| ==> !Meets(writes[i], r) && !Covers(writes[i], b);
      assert LastOn(writes, b) == k;
    }
  }

  function Extent(w: Write): Range {
    Range(w.position, w.position + |w.data|)
  }

  /** The writes of main, in its order: MBR entry, primary header and array, backup array and header. */
  function Plan(l: Layout, sector: nat, entry: seq<u8>, header: seq<u8>, backup: seq<u8>, table: seq<u8>): seq<Write> {
    [Write(MBR_ENTRY, entry), Write(Mul(l.primaryHeader, sector), header), Write(Mul(l.primaryArray, sector), table),
     Write(Mul(l.backupArray, sector), table), Write(Mul(l.backupHeader, sector), backup)]
  }

  /** All structures are on the device, and the EFI partition is as it was. */
  predicate ReadsBack(l: Layout, sector: nat, base: seq<u8>, image: seq<u8>,
                      entry: seq<u8>, header: seq<u8>, backup: seq<u8>, table: seq<u8>)
  {
    var r := Ranges(l, sector);
    && |image| == |base|
    && (forall i :: 0 <= i < 6 ==> r[i].start <= r[i].end <= |base|)
    && image[r[0].start..r[0].end] == entry
    && image[r[1].start..r[1].end] == header
    && image[r[2].start..r[2].end] == table
    && image[r[3].start..r[3].end] == base[r[3].start..r[3].end]
    && image[r[4].start..r[4].end] == table
    && image[r[5].start..r[5].end] == backup
  }

  /** On a working layout the writes fit and meet neither each other nor the EFI partition. */
  lemma PlanApart(size: nat, sector: nat, entry: seq<u8>, header: seq<u8>, backup: seq<u8>, table: seq<u8>)
    requires size < TWO64 && Works(size, sector)
    requires |entry| == MBR_ENTRY_SIZE && |header| == |backup| == HEADER_SIZE && |table| == ARRAY_SIZE
    ensures var l := Place(size, sector);
            var r, plan := Ranges(l, sector), Plan(l, sector, entry, header, backup, table);
            && Fit(plan, size) && r[3].start <= r[3].end <= size
            && (forall i :: 0 <= i < 5 ==> Extent(plan[i]) == r[Structure(i)])
            && (forall i :: 0 <= i < 5 ==> !Meets(plan[i], r[3]))
            && (forall i, j :: 0 <= i < j < 5 ==> !Meets(plan[j], Extent(plan[i])))
  {
    hide Mul, Place;
    var l := Place(size, sector);
    var r, plan := Ranges(l, sector), Plan(l, sector, entry, header, backup, table);
    RangesSized(size, l, sector);
    forall i | 0 <= i < 5
      ensures Extent(plan[i]) == r[Structure(i)] && !Meets(plan[i], r[3]) && Extent(plan[i]).end <= size
    {
      assert if i < 3 then Apart(r[i], r[3]) else Apart(r[3], r[Structure(i)]);
    }
    forall i, j | 0 <= i < j < 5 ensures !Meets(plan[j], Extent(plan[i])) {
      assert Extent(plan[i]) == r[Structure(i)] && Extent(plan[j]) == r[Structure(j)];
      assert Apart(r[Structure(i)], r[Structure(j)]);
    }
    assert forall i :: 0 <= i < 5 ==> Extent(plan[i]).end <= size;
  }

  /** The structure a write stores; the fourth is the EFI partition. */
  function Structure(write: nat): nat {
    if write < 3 then write else write + 1
  }

  lemma WorksReadsBack(size: nat, sector: nat, base: seq<u8>,
                       entry: seq<u8>, header: seq<u8>, backup: seq<u8>, table: seq<u8>)
    requires size < TWO64 && Works(size, sector) && |base| == size
    requires |entry| == MBR_ENTRY_SIZE && |header| == |backup| == HEADER_SIZE && |table| == ARRAY_SIZE
    ensures var l := Place(size, sector);
            var plan := Plan(l, sector, entry, header, backup, table);
            Fit(plan, size) && ReadsBack(l, sector, base, Image(base, plan), entry, header, backup, table)
  {
    hide Mul, Place, Image, Sound, Ranges, Meets;
    var l := Place(size, sector);
    var r, plan := Ranges(l, sector), Plan(l, sector, entry, header, backup, table);
    PlanApart(size, sector, entry, header, backup, table);
    ImageOutside(base, plan, r[3]);
    forall i | 0 <= i < 5
      ensures var e := r[Structure(i)];
              e.start <= e.end <= size && Image(base, plan)[e.start..e.end] == plan[i].data
    {
      assert Extent(plan[i]) == r[Structure(i)];
      ImageInside(base, plan, i);
    }
    assert Structure(0) == 0 && Structure(1) == 1 && Structure(2) == 2 && Structure(3) == 4 && Structure(4) == 5;
  }

  lemma RangesSized(size: nat, l: Layout, sector: nat)
    requires sector >= ENTRY_SIZE && size < TWO64 && l == Place(size, sector)
    ensures var r := Ranges(l, sector);
            && r[0].end == r[0].start + MBR_ENTRY_SIZE && r[1].end == r[1].start + HEADER_SIZE
            && r[2].end == r[2].start + ARRAY_SIZE && r[3].start <= r[3].end
            && r[4].end == r[4].start + ARRAY_SIZE && r[5].end == r[5].start + HEADER_SIZE
  {
    MulMono(l.efiFirst, l.efiLast + 1, sector);
  }

  class Device {
    const bytes: array<u8>

    constructor (bytes: array<u8>)
      ensures this.bytes == bytes
    {
      this.bytes := bytes;
    }

    /** fseek and fwrite. */
    method WriteAt(position: nat, data: seq<u8>)
      requires position + |data| <= bytes.Length
      modifies bytes
      ensures bytes[..] == Over(old(bytes[..]), Write(position, data))
    {
      forall i | 0 <= i < |data| {
        bytes[position + i] := data[i];
      }
    }

    /**
     main, for every layout whose writes lie on the device. When the layout
     works all structures are still there at the end.
     */
    method Configure(sector: nat, entry: seq<u8>, header: seq<u8>, backup: seq<u8>, table: seq<u8>)
      requires sector >= ENTRY_SIZE && bytes.Length < TWO64
      requires |entry| == MBR_ENTRY_SIZE && |header| == |backup| == HEADER_SIZE && |table| == ARRAY_SIZE
      requires Fit(Plan(Place(bytes.Length, sector), sector, entry, header, backup, table), bytes.Length)
      modifies bytes
      ensures bytes[..] == Image(old(bytes[..]), Plan(Place(bytes.Length, sector), sector, entry, header, backup, table))
      ensures Works(bytes.Length, sector) ==>
                ReadsBack(Place(bytes.Length, sector), sector, old(bytes[..]), bytes[..], entry, header, backup, table)
    {
      hide Mul, Place, Image, Sound, ReadsBack, Over;
      var l := Place(bytes.Length, sector);
      ghost var base, plan := bytes[..], Plan(l, sector, entry, header, backup, table);
      assert forall i :: 0 <= i < 5 ==> plan[i].position + |plan[i].data| <= bytes.Length;
      ImageOfFive(base, plan);
      WriteAt(MBR_ENTRY, entry);
      WriteAt(Mul(l.primaryHeader, sector), header);
      WriteAt(Mul(l.primaryArray, sector), table);
      WriteAt(Mul(l.backupArray, sector), table);
      WriteAt(Mul(l.backupHeader, sector), backup);
      if Works(bytes.Length, sector) {
        WorksReadsBack(bytes.Length, sector, base, entry, header, backup, table);
      }
    }
  }

  lemma ImageOfFive(base: seq<u8>, w: seq<Write>)
    requires |w| == 5 && Fit(w, |base|)
    ensures forall i :: 0 <= i < 5 ==> w[i].position + |w[i].data| <= |base|
    ensures Image(base, w) == Over(Over(Over(Over(Over(base, w[0]), w[1]), w[2]), w[3]), w[4])
  {
    hide Over;
    ImageLast(base, w);
    ImageLast(base, w[..4]);
    ImageLast(base, w[..3]);
    ImageLast(base, w[..2]);
    ImageLast(base, w[..1]);
    assert w[..4][..3] == w[..3] && w[..3][..2] == w[..2] && w[..2][..1] == w[..1] && w[..1][..0] == [];
  }

  lemma ImageLast(base: seq<u8>, w: seq<Write>)
    requires w != [] && Fit(w, |base|)
    ensures var n := |w| - 1;
            && Fit(w[..n], |base|) && w[n].position + |w[n].data| <= |base|
            && Image(base, w) == Over(Image(base, w[..n]), w[n])
    ensures Image(base, []) == base
  {
  }
}
