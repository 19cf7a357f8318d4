/**
 The allocation chain of a file, independent of how a loader stores or reads
 the table. Both loaders are proved against this specification.
 */
module ClusterChain {

  import opened Machine

  /**
   `c` is the chain from `first`: each link is the table entry of the cluster
   before it, and the entry of the last cluster, and of no other, says stop.
   The first cluster is never tested, as in both loaders.
   */
  ghost predicate IsChain(c: seq<nat>, first: nat, next: nat -> nat, stop: nat -> bool) {
    && |c| >= 1
    && c[0] == first
    && (forall i :: 0 <= i < |c| ==> (stop(next(c[i])) <==> i == |c| - 1))
    && (forall i :: 0 < i < |c| ==> c[i] == next(c[i - 1]))
  }

  lemma ChainStarts(c: seq<nat>, first: nat, next: nat -> nat, stop: nat -> bool)
    requires IsChain(c, first, next, stop)
    ensures |c| >= 1 && c[0] == first
  {
  }

  /** Bytes of the clusters of `c`, in chain order. */
  function Contents(c: seq<nat>, read: nat -> seq<u8>): seq<u8> {
    if c == [] then [] else Contents(c[..|c| - 1], read) + read(c[|c| - 1])
  }

  /** The cluster reached after `n` links. */
  function Visit(n: nat, first: nat, next: nat -> nat): nat {
    if n == 0 then first else next(Visit(n - 1, first, next))
  }

  /** The walk meets the end mark within `bound` links. */
  predicate StopsWithin(bound: nat, first: nat, next: nat -> nat, stop: nat -> bool) {
    exists t :: 1 <= t <= bound && stop(Visit(t, first, next))
  }

  /** A chain is the walk along the table. */
  lemma {:induction false} ChainIsWalk(c: seq<nat>, first: nat, next: nat -> nat, stop: nat -> bool, i: nat)
    requires IsChain(c, first, next, stop)
    requires i < |c|
    ensures c[i] == Visit(i, first, next)
  {
    if i > 0 {
      ChainIsWalk(c, first, next, stop, i - 1);
    }
  }

  /** There is at most one chain from a cluster. */
  lemma ChainUnique(c: seq<nat>, d: seq<nat>, first: nat, next: nat -> nat, stop: nat -> bool)
    requires IsChain(c, first, next, stop)
    requires IsChain(d, first, next, stop)
    ensures c == d
  {
    var m := if |c| <= |d| then |c| else |d|;
    forall i | 0 <= i < m ensures c[i] == d[i] {
      ChainIsWalk(c, first, next, stop, i);
      ChainIsWalk(d, first, next, stop, i);
    }
    assert c[m - 1] == d[m - 1];
  }

  /** Equal clusters have equal successors all the way down the chain. */
  lemma {:induction false} ShiftedWalk(c: seq<nat>, first: nat, next: nat -> nat, stop: nat -> bool, i: nat, j: nat, t: nat)
    requires IsChain(c, first, next, stop)
    requires i < j && j + t < |c| && c[i] == c[j]
    ensures c[i + t] == c[j + t]
  {
    if t > 0 {
      ShiftedWalk(c, first, next, stop, i, j, t - 1);
      assert c[i + t] == next(c[i + t - 1]) && c[j + t] == next(c[j + t - 1]);
    }
  }

  /** A chain that reaches the end mark visits no cluster twice. */
  lemma ChainNoRepeat(c: seq<nat>, first: nat, next: nat -> nat, stop: nat -> bool)
    requires IsChain(c, first, next, stop)
    ensures forall i, j :: 0 <= i < j < |c| ==> c[i] != c[j]
  {
    forall i, j | 0 <= i < j < |c| ensures c[i] != c[j] {
      if c[i] == c[j] {
        ShiftedWalk(c, first, next, stop, i, j, |c| - 1 - j);
        assert false;
      }
    }
  }

  /** Distinct numbers below `bound` are at most `bound` many. */
  lemma {:induction false} Pigeonhole(c: seq<nat>, bound: nat)
    requires forall i :: 0 <= i < |c| ==> c[i] < bound
    requires forall i, j :: 0 <= i < j < |c| ==> c[i] != c[j]
    ensures |c| <= bound
  {
    assert |c| > 0 ==> c[0] < bound;
    if bound == 0 {
    } else if k :| 0 <= k < |c| && c[k] == bound - 1 {
      var d := c[..k] + c[k + 1..];
      Pigeonhole(d, bound - 1);
    } else {
      Pigeonhole(c, bound - 1);
    }
  }

  /**
   Exactly the walks that stop within `bound` links have a chain, when all
   clusters are numbered below `bound`. A walk that does not is endless.
   */
  lemma ChainExistsIff(bound: nat, first: nat, next: nat -> nat, stop: nat -> bool)
    requires first < bound
    requires forall k: nat :: k < bound && !stop(next(k)) ==> next(k) < bound
    ensures (exists c :: IsChain(c, first, next, stop)) <==> StopsWithin(bound, first, next, stop)
  {
    if StopsWithin(bound, first, next, stop) {
      var c := ChainOfWalk(bound, first, next, stop);
    }
    if c :| IsChain(c, first, next, stop) {
      ChainNoRepeat(c, first, next, stop);
      forall i: nat | i < |c| ensures c[i] < bound {
        ChainBelow(c, first, next, stop, bound, i);
      }
      Pigeonhole(c, bound);
      ChainIsWalk(c, first, next, stop, |c| - 1);
      assert stop(Visit(|c|, first, next));
    }
  }

  /**
   The same for a first cluster of any number: only the links have to stay
   below the bound, and one more of them has to be looked at.
   */
  lemma ChainExistsFromAnywhereIff(bound: nat, first: nat, next: nat -> nat, stop: nat -> bool)
    requires forall k: nat :: !stop(next(k)) ==> next(k) < bound
    ensures (exists c :: IsChain(c, first, next, stop)) <==> StopsWithin(bound + 1, first, next, stop)
  {
    if StopsWithin(bound + 1, first, next, stop) {
      var c := ChainOfWalk(bound + 1, first, next, stop);
    }
    if c :| IsChain(c, first, next, stop) {
      ChainNoRepeat(c, first, next, stop);
      var links := c[1..];
      forall i: nat | i < |links| ensures links[i] < bound {
        assert links[i] == next(c[i]) && (stop(next(c[i])) <==> i == |c| - 1);
      }
      Pigeonhole(links, bound);
      ChainIsWalk(c, first, next, stop, |c| - 1);
      assert stop(Visit(|c|, first, next));
    }
  }

  lemma {:induction false} ChainBelow(c: seq<nat>, first: nat, next: nat -> nat, stop: nat -> bool, bound: nat, i: nat)
    requires IsChain(c, first, next, stop)
    requires first < bound
    requires forall k: nat :: k < bound && !stop(next(k)) ==> next(k) < bound
    requires i < |c|
    ensures c[i] < bound
  {
    if i > 0 {
      ChainBelow(c, first, next, stop, bound, i - 1);
      assert !stop(next(c[i - 1]));
    }
  }

  /** The chain read off a walk that stops. */
  lemma ChainOfWalk(bound: nat, first: nat, next: nat -> nat, stop: nat -> bool) returns (c: seq<nat>)
    requires StopsWithin(bound, first, next, stop)
    ensures IsChain(c, first, next, stop)
  {
    c := [first];
    while !stop(Visit(|c|, first, next))
      invariant 1 <= |c| <= bound
      invariant forall i :: 0 <= i < |c| ==> c[i] == Visit(i, first, next)
      invariant forall t :: 1 <= t < |c| ==> !stop(Visit(t, first, next))
      decreases bound - |c|
    {
      assert |c| < bound;
      c := c + [Visit(|c|, first, next)];
    }
    forall i | 0 <= i < |c| ensures stop(next(c[i])) <==> i == |c| - 1 {
      assert next(c[i]) == Visit(i + 1, first, next);
    }
    forall i | 0 < i < |c| ensures c[i] == next(c[i - 1]) {
      assert Visit(i, first, next) == next(Visit(i - 1, first, next));
    }
  }

  lemma {:induction false} ContentsLength(c: seq<nat>, read: nat -> seq<u8>, size: nat)
    requires forall i :: 0 <= i < |c| ==> |read(c[i])| == size
    ensures |Contents(c, read)| == |c| * size
  {
    if c != [] {
      var n := |c| - 1;
      ContentsLength(c[..n], read, size);
      assert (n + 1) * size == n * size + size;
    }
  }

  /** Cluster `i` of a chain starts at byte `i * size` of the contents. */
  lemma {:induction false} ContentsAt(c: seq<nat>, read: nat -> seq<u8>, size: nat, i: nat, r: nat)
    requires forall k :: 0 <= k < |c| ==> |read(c[k])| == size
    requires i < |c| && r < size
    ensures 0 <= i * size + r < |Contents(c, read)|
    ensures Contents(c, read)[i * size + r] == read(c[i])[r]
  {
    var n := |c| - 1;
    ContentsLength(c, read, size);
    ContentsLength(c[..n], read, size);
    assert (n + 1) * size == n * size + size && (i + 1) * size == i * size + size;
    MulMono(i + 1, n + 1, size);
    if i < n {
      MulMono(i + 1, n, size);
      ContentsAt(c[..n], read, size, i, r);
    }
  }
}
