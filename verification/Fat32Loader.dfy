/**
 The FAT32 boot sector: 64-bit sector numbers in two halves, a table that is
 read through a window of one sector, and the loop that copies a file.
 */
module Fat32Loader {

  import opened Machine
  import opened ClusterChain
  import opened Disk
  import opened Fat32Volume

  const SCRATCH: nat := 0x7E00
  const TARGET: nat := 0x0500

  /**
   Where the loader itself lies: boot sector and variables from 0x7C00, and
   below it the stack down to the frame of the disk interrupt.
   */
  const OWN_LOW: nat := 0x7BD0
  const OWN_END: nat := 0x7E00

  /** Memory behind the interrupt vectors and the firmware's data that the loader does not run in. */
  predicate Spares(low: nat, end: nat) {
    TARGET <= low && (end <= OWN_LOW || OWN_END <= low)
  }

  /** Memory outside destination and window is the same. */
  predicate Kept(before: seq<u8>, after: seq<u8>, start: nat, end: nat, si: nat, size: nat) {
    && |after| == |before|
    && forall a :: 0 <= a < |before| && !(start <= a < end) && !(si <= a < si + size) ==> after[a] == before[a]
  }

  lemma KeptAll(before: seq<u8>, start: nat, end: nat, si: nat, size: nat)
    ensures Kept(before, before, start, end, si, size)
  {
  }

  /** A pass that stays inside the destination keeps what is kept, the loader among it. */
  lemma KeptStep(whole: seq<u8>, before: seq<u8>, after: seq<u8>, start: nat, to: nat, end: nat, si: nat, size: nat)
    requires Kept(whole, before, start, end, si, size) && Kept(before, after, start, to, si, size) && to <= end
    ensures Kept(whole, after, start, end, si, size)
    ensures |whole| == TWO16 && Spares(start, end) && Spares(si, si + size) ==>
              |after| == |before| == TWO16 && after[OWN_LOW..OWN_END] == before[OWN_LOW..OWN_END]
    ensures !(start <= SCRATCH + 13 < end) && !(si <= SCRATCH + 13 < si + size) ==>
              Byte(after, SCRATCH + 13) == Byte(before, SCRATCH + 13)
  {
  }

  class Loader {
    const disk: seq<u8>
    const sectorSize: u16
    const mem: array<u8>
    var fatLow: u32
    var fatHigh: u32
    var dataLow: u32
    var dataHigh: u32
    /** The four bytes at data_lba + 12: part of the partition type identifier. */
    var guidWord: u32

    constructor (disk: seq<u8>, sectorSize: u16, mem: array<u8>)
      ensures this.disk == disk && this.sectorSize == sectorSize && this.mem == mem
      ensures dataHigh == 0
    {
      this.disk, this.sectorSize, this.mem := disk, sectorSize, mem;
      fatLow, fatHigh, dataLow, dataHigh, guidWord := 0, 0, 0, 0, 0x11D2_F81F;
    }

    /** Segment 0, and sectors that hold whole table entries. */
    predicate Valid() {
      mem.Length == TWO16 && 4 <= sectorSize && sectorSize % 4 == 0
    }

    function FatLba(): nat
      reads this
    {
      Pair(fatLow, fatHigh)
    }

    function DataLba(): nat
      reads this
    {
      Pair(dataLow, dataHigh)
    }

    function Bytes(sectors: nat): nat {
      Mul(sectors, sectorSize)
    }

    /** The disk holds these sectors. */
    predicate OnDisk(lba: nat, n: nat) {
      Bytes(lba + n) <= |disk|
    }

    /** add64: add the low halves, then the high halves with the carry. */
    method Add64(eax: u32, edx: u32, low: u32, high: u32) returns (l: u32, h: u32)
      ensures Pair(l, h) == Sum64(Pair(eax, edx), Pair(low, high))
    {
      var carry := if eax + low >= TWO32 then 1 else 0;
      l := (eax + low) % TWO32;
      h := (edx + high + carry) % TWO32;
      PairSum(eax, edx, low, high);
    }

    /** mul: the product of a double word and a byte in two halves. */
    method MulWide(eax: u32, ebx: u8) returns (l: u32, h: u32)
      ensures Pair(l, h) == Mul(eax, ebx) && h < 256
    {
      MulMono(eax, TWO32 - 1, ebx);
      MulMono(0, eax, ebx);
      l := Mul(eax, ebx) % TWO32;
      h := Mul(eax, ebx) / TWO32;
    }

    /** load_sectors_lba: the extended read. Its carry flag is not looked at. */
    method LoadSectors(eax: u32, edx: u32, bx: u16, di: u16)
      requires Valid() && di + Bytes(bx) <= TWO16
      modifies mem
      ensures OnDisk(Pair(eax, edx), bx) ==>
                Written(old(mem[..]), mem[..], di, Sectors(disk, sectorSize, Pair(eax, edx), bx))
      ensures !OnDisk(Pair(eax, edx), bx) ==> mem[..] == old(mem[..])
    {
      var lba := Pair(eax, edx);
      if OnDisk(lba, bx) {
        SectorsOnDisk(disk, sectorSize, lba, bx);
        var data := Sectors(disk, sectorSize, lba, bx);
        forall i | 0 <= i < |data| {
          mem[di + i] := data[i];
        }
      }
    }

    /** Sectors of all FATs, from the parameter block. */
    function TableSize(memory: seq<u8>): u64 {
      MulMono(Dword(memory, SCRATCH + 36), TWO32, Byte(memory, SCRATCH + 16));
      Mul(Dword(memory, SCRATCH + 36), Byte(memory, SCRATCH + 16))
    }

    /**
     The fields of a parameter block at 0x7e00, as section 3 of the FAT
     specification lays them out: thirteen bytes before the sectors per
     cluster and nineteen before the sectors per FAT are not read here.
     */
    lemma BlockFields(memory: seq<u8>, head: seq<u8>, spc: u8, reserved: u16, fats: u8, middle: seq<u8>, perFat: u32)
      requires Valid() && |head| == 13 && |middle| == 19 && |memory| == TWO16
      requires memory[0x7E00..0x7E28] ==
               head + [spc, reserved % 256, reserved / 256, fats] + middle + DwordBytes(perFat)
      ensures Word(memory, SCRATCH + 14) == reserved
      ensures TableSize(memory) == Total(seq(fats, _ => perFat as nat))
      ensures mem[..] == memory ==> SectorsPerCluster() == spc
    {
      hide DwordBytes, Dword, Mul, Total;
      var block := memory[0x7E00..0x7E28];
      assert memory[0x7E0D] == block[13] == spc && memory[0x7E10] == block[16] == fats;
      assert memory[0x7E0E] == block[14] && memory[0x7E0F] == block[15];
      WordOfBytes(memory, 0x7E0E, reserved);
      assert memory[0x7E24..0x7E28] == block[36..40] == DwordBytes(perFat);
      DwordOfBytes(memory, 0x7E24, perFat);
      TotalOfEqual(fats, perFat);
    }

    /**
     init_fat: first FAT sector behind the reserved sectors, data area behind
     the FATs. The high half of the data area's number misses its variable.
     */
    method InitFat(eax: u32, edx: u32)
      requires Valid()
      modifies this
      ensures FatLba() == Sum64(Pair(eax, edx), Word(mem[..], SCRATCH + 14))
      ensures var data := Sum64(FatLba(), TableSize(mem[..]));
              && dataLow == Low(data) && guidWord == High(data)
              && dataHigh == old(dataHigh)
              && (DataLba() == data <==> High(data) == old(dataHigh))
    {
      hide Pair, Sum64, Mul, Low, High, Word, Dword;
      PairHalves(0, 0, Word(mem[..], SCRATCH + 14));
      var l, h := Add64(eax, edx, Word(mem[..], SCRATCH + 14), 0);
      fatLow, fatHigh := l, h;
      l, h := MulWide(Dword(mem[..], SCRATCH + 36), mem[SCRATCH + 16]);
      Sum64Exact(Pair(l, h), FatLba());
      l, h := Add64(l, h, fatLow, fatHigh);
      dataLow := l;
      guidWord := h;
      PairHalves(l, h, Pair(l, h));
      PairHalves(l, dataHigh, Pair(l, h));
    }

    /** The window: load the FAT sector of cluster `k` and index by the remainder. */
    method NextCluster(k: u32, si: u16) returns (next: u32)
      requires Valid() && si + sectorSize <= TWO16
      requires OnDisk(FatLba() + Div(k, sectorSize / 4), 1)
      requires FatLba() + Div(k, sectorSize / 4) < TWO64
      modifies mem
      ensures next == Next(disk, sectorSize, FatLba())(k)
      ensures exists window :: |window| == sectorSize && Written(old(mem[..]), mem[..], si, window)
    {
      hide Sectors, Mul, Div, Mod, Pair, Sum64, Dword;
      var entries := sectorSize / 4;
      DivModParts(k, entries);
      var page, index := Div(k, entries), Mod(k, entries);
      PairHalves(0, 0, page);
      Sum64Exact(page, FatLba());
      var l, h := Add64(page, 0, fatLow, fatHigh);
      ghost var window := Sectors(disk, sectorSize, FatLba() + page, 1);
      WindowLength(FatLba() + page);
      LoadSectors(l, h, 1, si);
      WrittenInside(old(mem[..]), mem[..], si, window);
      WindowEntry(disk, sectorSize, FatLba(), k);
      DwordOfPart(mem[..], si, si + sectorSize, 4 * index);
      next := Dword(mem[..], si + 4 * index);
    }

    function SectorsPerCluster(): u8
      reads mem
    {
      Byte(mem[..], SCRATCH + 13)
    }

    /** Bytes of cluster `k` on the disk. */
    function File(): nat -> seq<u8>
      reads this, mem
    {
      Cluster(disk, sectorSize, DataLba(), SectorsPerCluster())
    }

    /** Cluster and table entry of `k` lie on the disk, at 64-bit sector numbers. */
    predicate ReachableAt(fat: nat, data: nat, spc: u8, k: nat)
      requires Valid()
    {
      && 2 <= k < TWO32
      && data + Mul(k - 2, spc) < TWO64
      && OnDisk(data + Mul(k - 2, spc), spc)
      && fat + Div(k, sectorSize / 4) < TWO64
      && OnDisk(fat + Div(k, sectorSize / 4), 1)
    }

    predicate Reachable(k: nat)
      requires Valid()
      reads this, mem
    {
      ReachableAt(FatLba(), DataLba(), SectorsPerCluster(), k)
    }

    /** Loop body up to the table lookup: a whole cluster goes to `di`. */
    method LoadCluster(eax: u32, di: u16)
      requires Valid() && Reachable(eax)
      requires di + Bytes(SectorsPerCluster()) <= TWO16
      modifies mem
      ensures Written(old(mem[..]), mem[..], di, old(File())(eax))
      ensures |old(File())(eax)| == Bytes(old(SectorsPerCluster()))
    {
      hide Sectors, Mul, Pair, Sum64;
      var ebx := Byte(mem[..], SCRATCH + 13);
      var l, h := MulWide(eax - 2, ebx);
      Sum64Exact(Pair(l, h), DataLba());
      l, h := Add64(l, h, dataLow, dataHigh);
      SectorsOnDisk(disk, sectorSize, DataLba() + Mul(eax - 2, ebx), ebx);
      LoadSectors(l, h, ebx, di);
    }

    /**
     One pass of the loop: copy a cluster behind `head`, which starts at
     `start`, and look up the next one through the window at `si`.
     */
    method LoadLink(eax: u32, di: u16, si: u16, ghost start: nat, ghost head: seq<u8>) returns (next: u32)
      requires Valid() && Reachable(eax)
      requires start <= di && mem[start..di] == head
      requires SectorsPerCluster() >= 1 && di + Bytes(SectorsPerCluster()) <= TWO16
      requires si + sectorSize <= TWO16 && (di + Bytes(SectorsPerCluster()) <= si || si + sectorSize <= start)
      modifies mem
      ensures next == Next(disk, sectorSize, FatLba())(eax)
      ensures var data := old(File())(eax);
              && |data| == Bytes(old(SectorsPerCluster())) && sectorSize <= |data|
              && mem[start..di + |data|] == head + data
              && mem[start..di + sectorSize] == head + data[..sectorSize]
      ensures Kept(old(mem[..]), mem[..], start, di + Bytes(old(SectorsPerCluster())), si, sectorSize)
    {
      hide Sectors, Mul, Div, Pair, Sum64, Next, Cluster, Written, Dword;
      Steps(0, 1, SectorsPerCluster());
      ghost var m0, data := mem[..], File()(eax);
      LoadCluster(eax, di);
      ghost var m1 := mem[..];
      next := NextCluster(eax, si);
      ghost var window :| |window| == sectorSize && Written(m1, mem[..], si, window);
      Pass(m0, m1, mem[..], start, di, si, head, data, window, sectorSize);
    }

    /**
     load_file_from_cluster: after each cluster the destination moves on by
     one sector. `end` lies behind the last byte written.
     */
    method LoadFile(first: u32, start: u16, si: u16, ghost c: seq<nat>, ghost end: nat)
      requires Valid() && IsChain(c, first, Next(disk, sectorSize, FatLba()), AtThreshold())
      requires SectorsPerCluster() >= 1
      requires forall j :: 0 <= j < |c| ==> Reachable(c[j])
      requires end == start + Bytes(|c| - 1) + Bytes(SectorsPerCluster()) <= TWO16
      requires si + sectorSize <= TWO16 && (end <= si || si + sectorSize <= start)
      requires Spares(start, end) && Spares(si, si + sectorSize)
      requires !(start <= SCRATCH + 13 < end) && !(si <= SCRATCH + 13 < si + sectorSize)
      modifies mem
      ensures mem[start..end] == Loaded(c, old(File()), sectorSize)
      ensures mem[OWN_LOW..OWN_END] == old(mem[OWN_LOW..OWN_END])
      ensures Kept(old(mem[..]), mem[..], start, end, si, sectorSize)
    {
      hide Sectors, Mul, Div, Pair, Sum64, Next, Cluster, Written, Heads, OnDisk, Contents, Loaded;
      hide IsChain, AtThreshold, ReachableAt;
      hide Kept;
      ghost var whole := mem[..];
      KeptAll(whole, start, end, si, sectorSize);
      var eax: u32 := first;
      var di: u16 := start;
      ghost var n, read, next := 0, File(), Next(disk, sectorSize, FatLba());
      ghost var spc := SectorsPerCluster();
      Steps(0, 1, 1);
      assert c[..0] == [];
      NothingLoaded(read, sectorSize);
      ChainStarts(c, first, next, AtThreshold());
      while true
        invariant n < |c| && eax == c[n]
        invariant di == start + Bytes(n)
        invariant mem[start..di] == Contents(c[..n], Heads(read, sectorSize))
        invariant SectorsPerCluster() == spc && Kept(whole, mem[..], start, end, si, sectorSize)
        invariant mem[OWN_LOW..OWN_END] == old(mem[OWN_LOW..OWN_END])
        decreases |c| - n
      {
        Steps(n, |c|, spc);
        assert Reachable(c[n]);
        ghost var before := mem[..];
        eax := LoadLink(eax, di, si, start, Contents(c[..n], Heads(read, sectorSize)));
        KeptStep(whole, before, mem[..], start, di + Bytes(spc), end, si, sectorSize);
        LoadedStep(c, read, sectorSize, n);
        ThresholdLink(c, first, next, n);
        if eax >= THRESHOLD {
          assert c[..n + 1] == c;
          return;
        }
        n := n + 1;
        di := di + sectorSize;
      }
    }

    /**
     From the partition's first sector to a file in memory. `c` is the chain
     as the FAT specification defines it, of which the loader follows the
     first `n` clusters; what it leaves is the file exactly when the file has
     one cluster, or clusters have one sector and no entry before the last
     reaches the loader's threshold.
     */
    method LoadFromPartition(eax: u32, edx: u32, first: u32, start: u16, si: u16,
                             ghost c: seq<nat>, ghost fat: u64, ghost data: u64, ghost spc: u8)
      returns (ghost n: nat, ghost end: nat)
      requires Valid() && dataHigh == 0 && spc == SectorsPerCluster() && spc >= 1
      requires fat == Sum64(Pair(eax, edx), Word(mem[..], SCRATCH + 14))
      requires data == Sum64(fat, TableSize(mem[..])) && High(data) == 0
      requires IsChain(c, first, Masked(Next(disk, sectorSize, fat)), EndOfChain())
      requires forall j :: 0 <= j < |c| ==> ReachableAt(fat, data, spc, c[j])
      requires start + Bytes(|c| - 1) + Bytes(spc) <= TWO16
      requires si + sectorSize <= TWO16
      requires start + Bytes(|c| - 1) + Bytes(spc) <= si || si + sectorSize <= start
      requires Spares(start, start + Bytes(|c| - 1) + Bytes(spc)) && Spares(si, si + sectorSize)
      requires !(start <= SCRATCH + 13 < start + Bytes(|c| - 1) + Bytes(spc))
      requires !(si <= SCRATCH + 13 < si + sectorSize)
      modifies this, mem
      ensures 1 <= n <= |c| && start <= end <= TWO16
      ensures mem[start..end] == Loaded(c[..n], Cluster(disk, sectorSize, data, spc), sectorSize)
      ensures mem[start..end] == Contents(c, Cluster(disk, sectorSize, data, spc)) <==>
                |c| == 1 || (spc == 1 && InteriorBelow(c, Next(disk, sectorSize, fat)))
      ensures mem[OWN_LOW..OWN_END] == old(mem[OWN_LOW..OWN_END])
    {
      hide Pair, Sum64, High, Low, Mul, Div, Word, Dword, OnDisk, Masked, InteriorBelow, Loaded, Sectors;
      InitFat(eax, edx);
      assert FatLba() == fat && DataLba() == data;
      ghost var read := Cluster(disk, sectorSize, data, spc);
      forall j | 0 <= j < |c| ensures |read(c[j])| == spc * sectorSize {
        ClusterBytes(fat, data, c[j]);
      }
      n := FileLoadedIff(c, first, Next(disk, sectorSize, fat), read, sectorSize, spc);
      end := start + Bytes(n - 1) + Bytes(spc);
      MoreBytes(n - 1, |c| - 1);
      assert forall j :: 0 <= j < n ==> c[..n][j] == c[j];
      LoadFile(first, start, si, c[..n], end);
    }

    /**
     The largest file that can be loaded to the target without running over
     the loader: sectors written in all, and clusters on a usual disk.
     */
    lemma TargetSparesLoaderIff(clusters: nat, spc: nat)
      requires Valid() && clusters >= 1
      ensures Spares(TARGET, TARGET + Bytes(clusters - 1) + Bytes(spc)) <==>
                clusters - 1 + spc <= Div(OWN_LOW - TARGET, sectorSize)
      ensures sectorSize == 512 && spc == 1 ==>
                (Spares(TARGET, TARGET + Bytes(clusters - 1) + Bytes(spc)) <==> clusters <= 59)
    {
      var sectors, most := clusters - 1 + spc, Div(OWN_LOW - TARGET, sectorSize);
      MulSum(clusters - 1, spc, sectorSize);
      DivModParts(OWN_LOW - TARGET, sectorSize);
      if sectors <= most {
        MulMono(sectors, most, sectorSize);
      } else {
        MulMono(most + 1, sectors, sectorSize);
        MulSum(most, 1, sectorSize);
      }
    }

    lemma ClusterBytes(fat: nat, data: nat, k: nat)
      requires Valid() && ReachableAt(fat, data, SectorsPerCluster(), k)
      ensures |Cluster(disk, sectorSize, data, SectorsPerCluster())(k)| == SectorsPerCluster() * sectorSize
    {
      SectorsOnDisk(disk, sectorSize, data + Mul(k - 2, SectorsPerCluster()), SectorsPerCluster());
    }

    lemma MoreBytes(n: nat, m: nat)
      requires n <= m
      ensures Bytes(n) <= Bytes(m)
    {
      MulMono(n, m, sectorSize);
    }

    lemma Steps(n: nat, m: nat, spc: nat)
      requires n < m && spc >= 1
      ensures Bytes(0) == 0 && Bytes(n + 1) == Bytes(n) + sectorSize && sectorSize <= Bytes(spc)
      ensures Bytes(n) <= Bytes(m - 1) && (n + 1 < m ==> Bytes(n + 1) <= Bytes(m - 1))
    {
      MulSum(n, 1, sectorSize);
      MulMono(n, m - 1, sectorSize);
      MulMono(1, spc, sectorSize);
      if n + 1 < m {
        MulMono(n + 1, m - 1, sectorSize);
      }
    }

    /** One pass of the loop in memory: a cluster behind `head`, then the table window. */
    lemma Pass(m0: seq<u8>, m1: seq<u8>, m2: seq<u8>, start: nat, di: nat, si: nat,
               head: seq<u8>, data: seq<u8>, window: seq<u8>, size: nat)
      requires start <= di <= |m0| && m0[start..di] == head && size <= |data|
      requires Written(m0, m1, di, data) && Written(m1, m2, si, window)
      requires di + |data| <= si || si + |window| <= start
      ensures |m2| == |m0|
      ensures m2[start..di + |data|] == head + data && m2[start..di + size] == head + data[..size]
      ensures Kept(m0, m2, start, di + |data|, si, |window|)
    {
      hide Written;
      WrittenElsewhere(m0, m1, di, data);
      WrittenElsewhere(m1, m2, si, window);
      WrittenInside(m0, m1, di, data);
      WrittenOutside(m0, m1, di, data, start, di);
      WrittenOutside(m1, m2, si, window, start, di + |data|);
      assert m1[start..di + |data|] == m1[start..di] + m1[di..di + |data|];
      assert m2[start..di + size] == m2[start..di + |data|][..di + size - start];
      assert (head + data)[..di + size - start] == head + data[..size];
    }

    lemma WindowLength(lba: nat)
      requires Valid() && OnDisk(lba, 1)
      ensures Bytes(1) == sectorSize && |Sectors(disk, sectorSize, lba, 1)| == sectorSize
    {
      SectorsOnDisk(disk, sectorSize, lba, 1);
    }
  }
}
