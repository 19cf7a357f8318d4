/** Transfers into a 64 KiB segment, whose offsets wrap around. */
module RealMode {

  import opened Machine
  import opened ClusterChain

  /** How far offset `o` lies behind offset `start`, going round the segment. */
  function Distance(o: nat, start: nat): nat {
    (o - start) % TWO16
  }

  /** The segment after `data` was stored from offset `start` on. */
  function Store(segment: seq<u8>, start: nat, data: seq<u8>): seq<u8> {
    seq(|segment|, (o: nat) requires o < |segment| =>
      if Distance(o, start) < |data| then data[Distance(o, start)] else segment[o])
  }

  /** The offset at which the loader stores cluster number `n` of a chain. */
  function Offset(n: nat, size: nat): u16 {
    MulMono(0, n, size);
    n * size % TWO16
  }

  /** The offset behind `size` bytes. */
  function After(offset: u16, size: nat): u16 {
    (offset + size) % TWO16
  }

  /** The segment after the clusters of `c` were stored one behind the other. */
  function StoreAll(segment: seq<u8>, c: seq<nat>, read: nat -> seq<u8>, size: nat): (r: seq<u8>)
    ensures |r| == |segment|
  {
    if c == [] then segment
    else
      var n := |c| - 1;
      Store(StoreAll(segment, c[..n], read, size), Offset(n, size), read(c[n]))
  }

  lemma NothingStored(segment: seq<u8>, read: nat -> seq<u8>, size: nat)
    ensures StoreAll(segment, [], read, size) == segment && Offset(0, size) == 0
  {
  }

  lemma StoreAllStep(segment: seq<u8>, c: seq<nat>, read: nat -> seq<u8>, size: nat, n: nat)
    requires n < |c|
    ensures StoreAll(segment, c[..n + 1], read, size)
         == Store(StoreAll(segment, c[..n], read, size), Offset(n, size), read(c[n]))
    ensures After(Offset(n, size), size) == Offset(n + 1, size)
  {
    assert c[..n + 1][..n] == c[..n];
    MulMono(0, n, size);
    MulSum(n, 1, size);
    AfterMod(n * size, size);
  }

  lemma AfterMod(start: nat, size: nat)
    ensures After(start % TWO16, size) == (start + size) % TWO16
  {
  }

  /** The last position of a byte string of `length` bytes that is stored at offset `o`. */
  function LastPosition(length: nat, o: nat): nat
    requires o < length
  {
    o + (length - 1 - o) / TWO16 * TWO16
  }

  /** It is a position, it wraps to `o`, and none after it does. */
  lemma LastPositionIsLast(length: nat, o: nat, p: nat)
    requires o < length && o < TWO16
    ensures LastPosition(length, o) < length && LastPosition(length, o) % TWO16 == o
    ensures LastPosition(length, o) < p && p % TWO16 == o ==> length <= p
  {
  }

  /**
   A file of any size leaves at every offset the last of its bytes that wraps
   there; offsets the file does not reach keep what they held.
   */
  lemma {:induction false} StoreAllAt(segment: seq<u8>, c: seq<nat>, read: nat -> seq<u8>, size: nat, o: nat)
    requires |segment| == TWO16 && o < TWO16
    requires 0 < size <= TWO16
    requires forall i :: 0 <= i < |c| ==> |read(c[i])| == size
    ensures |Contents(c, read)| == |c| * size
    ensures StoreAll(segment, c, read, size)[o]
         == if o < |c| * size then Contents(c, read)[LastPosition(|c| * size, o)] else segment[o]
  {
    ContentsLength(c, read, size);
    if c != [] {
      var n := |c| - 1;
      var start := n * size;
      MulSum(n, 1, size);
      StoreAllAt(segment, c[..n], read, size, o);
      LastPositionStep(start, size, o);
    }
  }

  /** Appending `size` bytes moves the last position of `o` exactly when `o` is stored to again. */
  lemma LastPositionStep(start: nat, size: nat, o: nat)
    requires o < TWO16 && size <= TWO16
    ensures Distance(o, start % TWO16) < size ==>
              o < start + size && LastPosition(start + size, o) == start + Distance(o, start % TWO16)
    ensures Distance(o, start % TWO16) >= size ==>
              (o < start + size <==> o < start)
              && (o < start ==> LastPosition(start + size, o) == LastPosition(start, o))
  {
    var q := WholeTurns(start, o);
    var d := Distance(o, start % TWO16);
    if d < size {
      LastPositionAt(start + size, o, q);
    } else if o < start {
      LastPositionAt(start + size, o, q - 1);
      LastPositionAt(start, o, q - 1);
    }
  }

  lemma WholeTurns(start: nat, o: nat) returns (q: nat)
    requires o < TWO16
    ensures start + Distance(o, start % TWO16) == o + q * TWO16
    ensures Distance(o, start % TWO16) < TWO16
  {
    var r := start % TWO16;
    assert start == start / TWO16 * TWO16 + r;
    q := start / TWO16 + if o >= r then 0 else 1;
    DivModUnique(o - r, TWO16, if o >= r then 0 else -1, if o >= r then o - r else o - r + TWO16);
  }

  lemma LastPositionAt(length: nat, o: nat, q: nat)
    requires o + q * TWO16 < length <= o + q * TWO16 + TWO16
    ensures LastPosition(length, o) == o + q * TWO16
  {
    DivModUnique(length - 1 - o, TWO16, q, length - 1 - o - q * TWO16);
  }

  /** A file of at most 64 KiB is loaded as it is. */
  lemma StoreAllFits(segment: seq<u8>, c: seq<nat>, read: nat -> seq<u8>, size: nat)
    requires |segment| == TWO16
    requires 0 < size <= TWO16 && |c| * size <= TWO16
    requires forall i :: 0 <= i < |c| ==> |read(c[i])| == size
    ensures |Contents(c, read)| == |c| * size
    ensures StoreAll(segment, c, read, size) == Contents(c, read) + segment[|c| * size..]
  {
    ContentsLength(c, read, size);
    var total, file, stored := |c| * size, Contents(c, read), StoreAll(segment, c, read, size);
    forall o: nat | o < TWO16 ensures stored[o] == if o < total then file[o] else segment[o] {
      StoreAllAt(segment, c, read, size, o);
      LastPositionFits(total, o);
    }
  }

  lemma LastPositionFits(length: nat, o: nat)
    ensures o < length <= TWO16 ==> LastPosition(length, o) == o
  {
  }

  /** Memory in which only the segment at `base` differs, by one store that does not wrap. */
  lemma StoreInPlace(before: seq<u8>, after: seq<u8>, base: nat, start: nat, data: seq<u8>)
    requires |before| == |after| && base + TWO16 <= |before| && start + |data| <= TWO16
    requires after[base..base + TWO16] == Store(before[base..base + TWO16], start, data)
    requires forall a :: 0 <= a < |before| && !(base <= a < base + TWO16) ==> after[a] == before[a]
    ensures Written(before, after, base + start, data)
  {
    forall a: nat | a < |before|
      ensures after[a] == (before[..base + start] + data + before[base + start + |data|..])[a]
    {
      if base <= a < base + TWO16 {
        StoredByte(before[base..base + TWO16], start, data, a - base);
        assert after[a] == after[base..base + TWO16][a - base];
        assert before[a] == before[base..base + TWO16][a - base];
      }
    }
  }

  lemma StoredByte(segment: seq<u8>, start: nat, data: seq<u8>, o: nat)
    requires o < |segment| <= TWO16 && start + |data| <= TWO16
    ensures Store(segment, start, data)[o] == if start <= o < start + |data| then data[o - start] else segment[o]
  {
    assert Distance(o, start) == if o >= start then o - start else o - start + TWO16;
  }

  /** A store, if there was one, leaves what lies behind it. */
  lemma StoredBefore(before: seq<u8>, after: seq<u8>, at: nat, data: seq<u8>, far: nat, size: nat)
    requires Written(before, after, at, data) || after == before
    requires at + |data| <= far && far + size <= |before|
    ensures |after| == |before| && after[far..far + size] == before[far..far + size]
    ensures forall a :: 0 <= a < |before| && !(at <= a < at + |data|) ==> after[a] == before[a]
  {
    hide Written;
    if Written(before, after, at, data) {
      WrittenOutside(before, after, at, data, far, far + size);
      WrittenElsewhere(before, after, at, data);
    }
  }

  /** Two stores one behind the other, and a region behind both. */
  lemma TwoStores(before: seq<u8>, between: seq<u8>, after: seq<u8>,
                  low: nat, middle: nat, high: nat, first: seq<u8>, second: seq<u8>, far: nat, size: nat)
    requires low + |first| == middle && middle + |second| == high && high <= far && far + size <= |before|
    requires Written(before, between, low, first) && Written(between, after, middle, second)
    ensures |after| == |before|
    ensures after[low..middle] == first && after[middle..high] == second
    ensures after[far..far + size] == before[far..far + size]
    ensures forall a :: 0 <= a < |before| && !(low <= a < high) ==> after[a] == before[a]
  {
    hide Written;
    WrittenInside(before, between, low, first);
    WrittenInside(between, after, middle, second);
    WrittenOutside(between, after, middle, second, low, middle);
    WrittenOutside(before, between, low, first, far, far + size);
    WrittenOutside(between, after, middle, second, far, far + size);
    WrittenElsewhere(before, between, low, first);
    WrittenElsewhere(between, after, middle, second);
  }
}
