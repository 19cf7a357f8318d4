/** A disk as the firmware reads it: whole sectors by linear number. */
module Disk {

  import opened Machine
  import opened ClusterChain

  /** `n` sectors of the disk starting at a linear sector number. */
  function Sectors(disk: seq<u8>, size: nat, linear: int, n: nat): seq<u8> {
    MulMono(linear, linear + n, size);
    if 0 <= linear && (linear + n) * size <= |disk| then
      assert 0 <= linear * size;
      disk[linear * size..(linear + n) * size]
    else []
  }

  lemma SectorsLength(disk: seq<u8>, size: nat, linear: nat, n: nat, total: nat)
    requires linear + n <= total && |disk| == Mul(total, size)
    ensures |Sectors(disk, size, linear, n)| == Mul(n, size)
  {
    MulMono(linear + n, total, size);
    MulMono(0, linear, size);
    MulSum(linear, n, size);
  }

  lemma SectorsOnDisk(disk: seq<u8>, size: nat, linear: nat, n: nat)
    requires Mul(linear + n, size) <= |disk|
    ensures |Sectors(disk, size, linear, n)| == Mul(n, size)
    ensures forall i :: 0 <= i < Mul(n, size) ==>
              Mul(linear, size) + i < |disk| && Sectors(disk, size, linear, n)[i] == disk[Mul(linear, size) + i]
  {
    MulSum(linear, n, size);
    MulMono(0, linear, size);
    SectorsFrom(disk, size, linear, n, Mul(linear, size), Mul(n, size));
  }

  lemma SectorsFrom(disk: seq<u8>, size: nat, linear: nat, n: nat, at: nat, length: nat)
    requires at == linear * size && at + length == (linear + n) * size <= |disk|
    ensures Sectors(disk, size, linear, n) == disk[at..at + length]
  {
  }

  /** The clusters of a volume in order; their numbers start at 2. */
  function AllClusters(n: nat): seq<nat> {
    seq(n, i => i + 2)
  }

  /**
   Clusters of `spc` sectors from sector `data` on tile the data area: one
   behind the other they are its bytes.
   */
  lemma {:induction false} ClustersTile(disk: seq<u8>, size: nat, data: nat, spc: nat, read: nat -> seq<u8>, n: nat)
    requires Mul(data + Mul(n, spc), size) <= |disk|
    requires forall k :: 2 <= k < n + 2 ==> read(k) == Sectors(disk, size, data + Mul(k - 2, spc), spc)
    ensures Mul(data, size) <= Mul(data + Mul(n, spc), size)
    ensures Contents(AllClusters(n), read) == disk[Mul(data, size)..Mul(data + Mul(n, spc), size)]
  {
    hide Mul, Sectors;
    NamedMono(data, data + Mul(n, spc), size);
    if n == 0 {
      NamedZero(spc);
      assert AllClusters(0) == [];
    } else {
      var c := AllClusters(n);
      assert c[..n - 1] == AllClusters(n - 1) && c[n - 1] == n + 1;
      NextTile(disk, size, data, spc, n - 1);
      ClustersTile(disk, size, data, spc, read, n - 1);
      assert read(n + 1) == Sectors(disk, size, data + Mul(n - 1, spc), spc);
    }
  }

  lemma NextTile(disk: seq<u8>, size: nat, data: nat, spc: nat, n: nat)
    requires Mul(data + Mul(n + 1, spc), size) <= |disk|
    ensures var low, middle, high := Mul(data, size), Mul(data + Mul(n, spc), size), Mul(data + Mul(n + 1, spc), size);
            && low <= middle <= high
            && disk[low..high] == disk[low..middle] + Sectors(disk, size, data + Mul(n, spc), spc)
  {
    MulSum(n, 1, spc);
    NamedMono(data, data + Mul(n, spc), size);
    NamedMono(data + Mul(n, spc), data + Mul(n + 1, spc), size);
    SectorsPlace(disk, size, data + Mul(n, spc), spc);
  }

  lemma SectorsPlace(disk: seq<u8>, size: nat, start: nat, n: nat)
    requires Mul(start + n, size) <= |disk|
    ensures Mul(start, size) <= Mul(start + n, size)
    ensures Sectors(disk, size, start, n) == disk[Mul(start, size)..Mul(start + n, size)]
  {
    NamedMono(start, start + n, size);
  }
}
