/** FAT32 numbers, table and files, and what the loader's shortcuts do to them. */
module Fat32Volume {

  import opened Machine
  import opened ClusterChain
  import opened Disk

  /** A 64-bit number from its halves. */
  function Pair(low: u32, high: u32): u64 {
    low as int + TWO32 * high as int
  }

  function Low(x: u64): u32 {
    x % TWO32
  }

  function High(x: u64): u32 {
    x / TWO32
  }

  /** Halves determine a number, and the high half is lost with a wrong one. */
  lemma PairHalves(low: u32, high: u32, x: u64)
    ensures Low(Pair(low, high)) == low && High(Pair(low, high)) == high
    ensures Pair(Low(x), high) == x <==> High(x) == high
    ensures x < TWO32 ==> Pair(x, 0) == x
  {
  }

  /** Addition as the processor does it on 64 bits. */
  function Sum64(x: u64, y: u64): u64 {
    (x as int + y as int) % TWO64
  }

  lemma Sum64Exact(x: u64, y: u64)
    ensures x as int + y as int < TWO64 ==> Sum64(x, y) == x as int + y as int
    ensures Sum64(x, y) == Sum64(y, x)
  {
  }

  lemma PairSum(eax: u32, edx: u32, low: u32, high: u32)
    ensures var carry := if eax as int + low as int >= TWO32 then 1 else 0;
            Sum64(Pair(eax, edx), Pair(low, high)) ==
            Pair((eax as int + low as int) % TWO32, (edx as int + high as int + carry) % TWO32)
  {
    var a := eax as int + low as int;
    var carry := if a >= TWO32 then 1 else 0;
    var b := edx as int + high as int + carry;
    var over := if b >= TWO32 then 1 else 0;
    assert a % TWO32 == a - carry * TWO32;
    assert b % TWO32 == b - over * TWO32;
    assert Pair(eax, edx) + Pair(low, high) == over * TWO64 + Pair(a % TWO32, b % TWO32);
  }

  /** Sectors of several tables. */
  function Total(lengths: seq<nat>): nat {
    if lengths == [] then 0 else Total(lengths[..|lengths| - 1]) + lengths[|lengths| - 1]
  }

  lemma {:induction false} TotalOfEqual(n: nat, length: nat)
    ensures Total(seq(n, _ => length)) == Mul(length, n)
  {
    if n > 0 {
      TotalOfEqual(n - 1, length);
      assert seq(n, _ => length)[..n - 1] == seq(n - 1, _ => length);
      MulSum(n - 1, 1, length);
    }
  }

  /** The table as one array of double words from sector `fat` on. */
  function Next(disk: seq<u8>, size: nat, fat: nat): nat -> nat {
    (k: nat) => Dword(disk, Mul(fat, size) + 4 * k)
  }

  lemma DwordOfPart(s: seq<u8>, low: nat, high: nat, i: nat)
    requires low <= high <= |s| && low + i + 4 <= high
    ensures Dword(s, low + i) == Dword(s[low..high], i)
  {
  }

  /** Quotient and remainder by the entries of a sector address the entry of the whole table. */
  lemma WindowEntry(disk: seq<u8>, size: nat, fat: nat, k: nat)
    requires 4 <= size && size % 4 == 0
    requires Mul(fat + Div(k, size / 4) + 1, size) <= |disk|
    ensures 4 * Mod(k, size / 4) + 4 <= size
    ensures Dword(Sectors(disk, size, fat + Div(k, size / 4), 1), 4 * Mod(k, size / 4)) == Next(disk, size, fat)(k)
  {
    hide Sectors, Dword, Mul;
    var page, index := Div(k, size / 4), Mod(k, size / 4);
    DivModParts(k, size / 4);
    EntryAddress(fat, page, index, size, k);
    DwordOfSector(disk, size, fat + page, 4 * index);
  }

  lemma EntryAddress(fat: nat, page: nat, index: nat, size: nat, k: nat)
    requires size % 4 == 0 && k == Mul(page, size / 4) + index
    ensures Mul(fat + page, size) + 4 * index == Mul(fat, size) + 4 * k
  {
    MulSum(fat, page, size);
    FourTimes(page, size);
  }

  lemma FourTimes(x: nat, size: nat)
    requires size % 4 == 0
    ensures x * size == 4 * (x * (size / 4))
  {
    var q := size / 4;
    assert size == 4 * q;
    MulAssoc(x, 4, q);
    MulAssoc(4, x, q);
  }

  lemma DwordOfSector(disk: seq<u8>, size: nat, lba: nat, i: nat)
    requires Mul(lba + 1, size) <= |disk| && i + 4 <= size
    ensures Dword(Sectors(disk, size, lba, 1), i) == Dword(disk, Mul(lba, size) + i)
  {
    SectorsOnDisk(disk, size, lba, 1);
    MulOne(size);
    hide Mul, Sectors;
    var sector, at := Sectors(disk, size, lba, 1), Mul(lba, size);
    assert sector[i] == disk[at + i] && sector[i + 1] == disk[at + (i + 1)];
    assert sector[i + 2] == disk[at + (i + 2)] && sector[i + 3] == disk[at + (i + 3)];
  }

  function FirstSector(disk: seq<u8>, data: nat, spc: nat, k: nat): int {
    if k < 2 then -1 else data + Mul(k - 2, spc)
  }

  /** The bytes of cluster `k`, from data area, sector size and sectors per cluster. */
  function Cluster(disk: seq<u8>, size: nat, data: nat, spc: nat): nat -> seq<u8> {
    (k: nat) => Sectors(disk, size, FirstSector(disk, data, spc, k), spc)
  }

  /** The clusters tile the data area, from number 2 on. */
  lemma DataAreaTiled(disk: seq<u8>, size: nat, data: nat, spc: nat, n: nat)
    requires Mul(data + Mul(n, spc), size) <= |disk|
    ensures 0 <= data * size <= (data + n * spc) * size <= |disk|
    ensures Contents(AllClusters(n), Cluster(disk, size, data, spc)) == disk[data * size..(data + n * spc) * size]
  {
    hide Sectors, Contents;
    ClustersTile(disk, size, data, spc, Cluster(disk, size, data, spc), n);
    MulMono(0, data, size);
  }

  /** A table of double words, least significant byte first. */
  function PackTable(entries: seq<u32>): seq<u8> {
    if entries == [] then [] else PackTable(entries[..|entries| - 1]) + DwordBytes(entries[|entries| - 1])
  }

  lemma {:induction false} PackTableAt(entries: seq<u32>, k: nat)
    requires k < |entries|
    ensures |PackTable(entries)| == 4 * |entries|
    ensures PackTable(entries)[4 * k..4 * k + 4] == DwordBytes(entries[k])
  {
    var n := |entries| - 1;
    if n == 0 {
      assert PackTable(entries[..0]) == [];
    } else {
      PackTableAt(entries[..n], if k < n then k else 0);
    }
  }

  /** The loader's successor function gives back the entries of a packed table. */
  lemma NextOfPackTable(disk: seq<u8>, size: nat, fat: nat, entries: seq<u32>, k: nat)
    requires k < |entries| && Mul(fat, size) <= |disk| && PackTable(entries) <= disk[Mul(fat, size)..]
    ensures Next(disk, size, fat)(k) == entries[k]
  {
    hide DwordBytes, Dword, PackTable, Mul, Next;
    PackTableAt(entries, k);
    var i := 4 * k;
    NextAt(disk, size, fat, k);
    PackedDword(disk, Mul(fat, size), PackTable(entries), i, entries[k]);
  }

  lemma NextAt(disk: seq<u8>, size: nat, fat: nat, k: nat)
    ensures Next(disk, size, fat)(k) == Dword(disk, Mul(fat, size) + 4 * k)
  {
  }

  lemma PackedDword(disk: seq<u8>, at: nat, table: seq<u8>, i: nat, x: u32)
    requires at <= |disk| && table <= disk[at..]
    requires i + 4 <= |table| && table[i..i + 4] == DwordBytes(x)
    ensures Dword(disk, at + i) == x
  {
    hide Dword, DwordBytes;
    PartOfPart(disk, at, |disk|, i, 4);
    assert table[i..i + 4] == disk[at..][i..i + 4];
    DwordOfBytes(disk, at + i, x);
  }

  /** The first `size` bytes of each cluster. */
  function Heads(read: nat -> seq<u8>, size: nat): nat -> seq<u8> {
    (k: nat) => if size <= |read(k)| then read(k)[..size] else []
  }

  /** What the loader leaves: one sector of each cluster but the last, which is whole. */
  function Loaded(c: seq<nat>, read: nat -> seq<u8>, size: nat): seq<u8>
    requires c != []
  {
    Contents(c[..|c| - 1], Heads(read, size)) + read(c[|c| - 1])
  }

  lemma NothingLoaded(read: nat -> seq<u8>, size: nat)
    ensures Contents([], Heads(read, size)) == []
  {
  }

  /** One more whole cluster, and one more head once the loader goes on behind it. */
  lemma LoadedStep(c: seq<nat>, read: nat -> seq<u8>, size: nat, n: nat)
    requires n < |c| && size <= |read(c[n])|
    ensures Loaded(c[..n + 1], read, size) == Contents(c[..n], Heads(read, size)) + read(c[n])
    ensures Contents(c[..n + 1], Heads(read, size)) == Contents(c[..n], Heads(read, size)) + read(c[n])[..size]
  {
    assert c[..n + 1][..n] == c[..n];
  }

  /** The loader's end test: the entry as stored is at least this number. */
  const THRESHOLD: nat := 0x0F_FFF7

  function AtThreshold(): nat -> bool {
    (v: nat) => v >= THRESHOLD
  }

  /** The end test and the specification's, in numbers. */
  lemma EndTests(v: u32)
    ensures AtThreshold()(v) <==> v >= 1_048_567
    ensures EndOfChain()(Masked((k: nat) => v)(0)) <==> 268_435_448 <= v % 268_435_456
  {
  }

  /** A link of a chain that ends at the threshold, and whether it is the last. */
  lemma ThresholdLink(c: seq<nat>, first: nat, next: nat -> nat, n: nat)
    requires IsChain(c, first, next, AtThreshold()) && n < |c|
    ensures next(c[n]) >= THRESHOLD <==> n == |c| - 1
    ensures n + 1 < |c| ==> c[n + 1] == next(c[n])
  {
    assert AtThreshold()(next(c[n])) <==> n == |c| - 1;
  }

  /** A FAT32 entry has 28 bits, and the chain ends at 0x0FFFFFF8 or above. */
  function Masked(next: nat -> nat): nat -> nat {
    (k: nat) => next(k) % 0x1000_0000
  }

  function EndOfChain(): nat -> bool {
    (v: nat) => v >= 0x0FFF_FFF8
  }

  /** Every entry but the last one's is below the loader's threshold. */
  predicate InteriorBelow(c: seq<nat>, next: nat -> nat) {
    forall i :: 0 <= i < |c| - 1 ==> next(c[i]) < THRESHOLD
  }

  /**
   The loader follows a prefix of a file's chain, and the whole chain exactly
   when no entry before the last reaches the threshold.
   */
  lemma LoaderFollowsPrefix(c: seq<nat>, first: nat, next: nat -> nat) returns (n: nat)
    requires IsChain(c, first, Masked(next), EndOfChain())
    ensures 1 <= n <= |c| && IsChain(c[..n], first, next, AtThreshold())
    ensures n == |c| <==> InteriorBelow(c, next)
  {
    n := 1;
    while n < |c| && next(c[n - 1]) < THRESHOLD
      invariant 1 <= n <= |c|
      invariant forall i :: 0 <= i < n - 1 ==> next(c[i]) < THRESHOLD
    {
      n := n + 1;
    }
    assert EndOfChain()(Masked(next)(c[|c| - 1]));
    var d := c[..n];
    forall i | 0 <= i < n ensures AtThreshold()(next(d[i])) <==> i == n - 1 {
      assert d[i] == c[i];
    }
    forall i | 0 < i < n ensures d[i] == next(d[i - 1]) {
      assert c[i] == Masked(next)(c[i - 1]) && next(c[i - 1]) < THRESHOLD;
    }
  }

  lemma HeadsLength(c: seq<nat>, read: nat -> seq<u8>, size: nat)
    requires forall i :: 0 <= i < |c| ==> size <= |read(c[i])|
    ensures |Contents(c, Heads(read, size))| == |c| * size
  {
    ContentsLength(c, Heads(read, size), size);
  }

  lemma {:induction false} HeadsWhole(c: seq<nat>, read: nat -> seq<u8>, size: nat)
    requires forall i :: 0 <= i < |c| ==> size == |read(c[i])|
    ensures Contents(c, Heads(read, size)) == Contents(c, read)
  {
    if c != [] {
      HeadsWhole(c[..|c| - 1], read, size);
      assert read(c[|c| - 1])[..size] == read(c[|c| - 1]);
    }
  }

  /**
   What is loaded for a file with chain `c` of which the loader follows the
   first `n` clusters is the file exactly when the file has one cluster, or
   clusters have one sector and the loader follows all of them.
   */
  lemma LoadedIsFileIff(c: seq<nat>, n: nat, read: nat -> seq<u8>, size: nat, spc: nat)
    requires size > 0 && spc > 0 && 1 <= n <= |c|
    requires forall i :: 0 <= i < |c| ==> |read(c[i])| == spc * size
    ensures Loaded(c[..n], read, size) == Contents(c, read) <==> |c| == 1 || (spc == 1 && n == |c|)
  {
    var d := c[..n];
    MulMono(1, spc, size);
    ContentsLength(c, read, spc * size);
    HeadsLength(d[..n - 1], read, size);
    assert |Loaded(d, read, size)| == (n - 1) * size + spc * size;
    if |c| == 1 || (spc == 1 && n == |c|) {
      assert d == c;
      if n == 1 {
        assert c[..0] == [];
      } else {
        HeadsWhole(c[..n - 1], read, size);
      }
    } else {
      LengthsDiffer(n, |c|, size, spc);
    }
  }

  /**
   For every file, as the specification defines its chain: the clusters the
   loader follows, and the exact condition under which it loads the file.
   */
  lemma FileLoadedIff(c: seq<nat>, first: nat, next: nat -> nat, read: nat -> seq<u8>, size: nat, spc: nat)
    returns (n: nat)
    requires IsChain(c, first, Masked(next), EndOfChain())
    requires size > 0 && spc > 0
    requires forall i :: 0 <= i < |c| ==> |read(c[i])| == spc * size
    ensures 1 <= n <= |c| && IsChain(c[..n], first, next, AtThreshold())
    ensures Loaded(c[..n], read, size) == Contents(c, read) <==>
              |c| == 1 || (spc == 1 && InteriorBelow(c, next))
  {
    n := LoaderFollowsPrefix(c, first, next);
    LoadedIsFileIff(c, n, read, size, spc);
  }

  lemma LengthsDiffer(n: nat, m: nat, size: nat, spc: nat)
    requires size > 0 && spc > 0 && 1 <= n <= m && m > 1 && (spc > 1 || n < m)
    ensures (n - 1) * size + spc * size < m * (spc * size)
  {
    MulSum(n - 1, spc, size);
    MulAssoc(m, spc, size);
    SectorsFewer(n, m, spc);
    MulLess(n - 1 + spc, m * spc, size);
  }

  lemma SectorsFewer(n: nat, m: nat, spc: nat)
    requires spc > 0 && 1 <= n <= m && m > 1 && (spc > 1 || n < m)
    ensures n - 1 + spc < m * spc
  {
    MulSum(m - 1, 1, spc);
    if spc > 1 {
      MulMono(2, spc, m - 1);
    }
  }
}
