/**
 The 12-bit file allocation table: two entries in three bytes, the even entry
 in the low 12 bits of its word and the odd entry in the high 12 bits.
 */
module Fat12Table {

  import opened Machine
  import opened ClusterChain

  type Entry12 = x: int | 0 <= x < 4096

  /** The three bytes of a pair of entries. */
  function PairLow(x: Entry12): u8 {
    x % 256
  }

  function PairMiddle(x: Entry12, y: Entry12): u8 {
    x / 256 + 16 * (y % 16)
  }

  function PairHigh(y: Entry12): u8 {
    y / 16
  }

  /** The bytes of a table, as section 4.1 of the FAT specification lays it out. */
  function Pack(entries: seq<Entry12>): seq<u8> {
    if entries == [] then []
    else if |entries| == 1 then [PairLow(entries[0]), PairMiddle(entries[0], 0)]
    else [PairLow(entries[0]), PairMiddle(entries[0], entries[1]), PairHigh(entries[1])] + Pack(entries[2..])
  }

  /** The loader's decoding of a word: shifted or masked by the parity of the cluster. */
  function Decode(word: u16, k: nat): Entry12 {
    if k % 2 == 1 then word / 16 else word % 4096
  }

  /** The entry of a table is in the word at `k + k / 2`. */
  function Entry(fat: seq<u8>, k: nat): Entry12 {
    Decode(Word(fat, k + k / 2), k)
  }

  /** The table as a successor function on clusters. */
  function Next(fat: seq<u8>): nat -> nat {
    (k: nat) => Entry(fat, k)
  }

  /** The walk ends at an entry equal to the mark saved when the table was loaded. */
  function AtMark(mark: u16): nat -> bool {
    (v: nat) => v == mark
  }

  /** The link of a chain that ends at the mark, and whether it is the last. */
  lemma MarkedLink(fat: seq<u8>, c: seq<nat>, first: nat, mark: u16, n: nat)
    requires IsChain(c, first, Next(fat), AtMark(mark)) && n < |c|
    ensures Next(fat)(c[n]) == mark <==> n == |c| - 1
    ensures n + 1 < |c| ==> c[n + 1] == Next(fat)(c[n])
  {
    assert AtMark(mark)(Next(fat)(c[n])) <==> n == |c| - 1;
  }

  /** Shifting the word at offset 1 right by four decodes entry 1. */
  lemma EntryOne(fat: seq<u8>)
    requires |fat| >= 3
    ensures Entry(fat, 1) == Join(fat[1], fat[2]) / 16
  {
    assert Word(fat, 1) == Join(fat[1], fat[2]);
  }

  /** Clusters whose entry lies inside the table. */
  predicate Covers(fat: seq<u8>, k: nat) {
    k + k / 2 + 1 < |fat|
  }

  /** Where the loader puts the table in segment 0. */
  const FAT_BASE: nat := 0x500

  /** The address in segment 0 at which the loader looks up a cluster: all sums are of 16 bits. */
  function LookupAt(k: nat): u16 {
    (FAT_BASE + (k + k / 2) % TWO16) % TWO16
  }

  /** The loader's successor function, on memory as it is. */
  function Lookup(memory: seq<u8>): nat -> nat {
    (k: nat) => Decode(Join(Byte(memory, LookupAt(k)), Byte(memory, (LookupAt(k) + 1) % TWO16)), k)
  }

  /** Clusters whose lookup does not wrap around the segment. */
  predicate Addressable(k: nat) {
    k <= 42836
  }

  lemma AddressableIff(k: nat)
    ensures Addressable(k) <==> LookupAt(k) == FAT_BASE + k + k / 2 && LookupAt(k) + 1 < TWO16
  {
  }

  /** A lookup in a table that lies in memory finds its entry. */
  lemma LookupIsNext(memory: seq<u8>, fat: seq<u8>, k: nat)
    requires FAT_BASE + |fat| <= |memory| && memory[FAT_BASE..FAT_BASE + |fat|] == fat
    requires Covers(fat, k) && Addressable(k)
    ensures Lookup(memory)(k) == Next(fat)(k)
  {
    hide Decode, Join, Addressable, LookupAt;
    AddressableIff(k);
    var n, at := k + k / 2, LookupAt(k);
    PartOfPart(memory, FAT_BASE, FAT_BASE + |fat|, n, 2);
    WordOfPart(fat, n);
    assert Lookup(memory)(k) == Decode(Join(memory[at], memory[at + 1]), k);
  }

  lemma {:induction false} PackLength(entries: seq<Entry12>)
    ensures |Pack(entries)| == |entries| + (|entries| + 1) / 2
  {
    if |entries| >= 2 {
      PackLength(entries[2..]);
    }
  }

  /** Decoding skips a packed pair exactly as it skips two entries. */
  lemma EntryShift(head: seq<u8>, tail: seq<u8>, k: nat)
    requires |head| == 3
    ensures Entry(head + tail, k + 2) == Entry(tail, k)
  {
    var n := k + k / 2;
    assert k + 2 + (k + 2) / 2 == n + 3;
    assert Byte(head + tail, n + 3) == Byte(tail, n) && Byte(head + tail, n + 4) == Byte(tail, n + 1);
  }

  lemma PackedFront(entries: seq<Entry12>)
    requires entries != []
    ensures Entry(Pack(entries), 0) == entries[0]
    ensures |entries| >= 2 ==> Entry(Pack(entries), 1) == entries[1]
  {
    hide Decode, Join, PairLow, PairMiddle, PairHigh;
    var fat, x := Pack(entries), entries[0];
    var y := if |entries| >= 2 then entries[1] else 0;
    PairDecodes(x, y);
    WordOfPart(fat, 0);
    if |entries| >= 2 {
      WordOfPart(fat, 1);
    }
  }

  /** The pair's bytes decode to the pair. */
  lemma PairDecodes(x: Entry12, y: Entry12)
    ensures Decode(Join(PairLow(x), PairMiddle(x, y)), 0) == x
    ensures Decode(Join(PairMiddle(x, y), PairHigh(y)), 1) == y
  {
    hide Decode, Join;
    SplitEntry(x, y);
    DecodePair(PairLow(x), PairMiddle(x, y), PairHigh(y));
  }

  /** Unpacking inverts packing, for every table. */
  lemma {:induction false} EntryOfPack(entries: seq<Entry12>, k: nat)
    requires k < |entries|
    ensures Covers(Pack(entries), k) && Entry(Pack(entries), k) == entries[k]
  {
    PackLength(entries);
    if k < 2 {
      PackedFront(entries);
    } else {
      EntryOfPack(entries[2..], k - 2);
      EntryShift(Pack(entries)[..3], Pack(entries[2..]), k - 2);
      assert Pack(entries) == Pack(entries)[..3] + Pack(entries[2..]);
    }
  }

  /** The entries stored in a table of whole pairs. */
  function Unpack(fat: seq<u8>): (entries: seq<Entry12>)
    requires |fat| % 3 == 0
    ensures |entries| == |fat| / 3 * 2
    ensures forall k :: 0 <= k < |entries| ==> entries[k] == Entry(fat, k)
  {
    seq(|fat| / 3 * 2, (k: nat) => Entry(fat, k))
  }

  /** Packing inverts unpacking: every byte of the table is accounted for. */
  lemma {:induction false} PackOfUnpack(fat: seq<u8>)
    requires |fat| % 3 == 0
    ensures Pack(Unpack(fat)) == fat
  {
    if fat != [] {
      var head, tail := fat[..3], fat[3..];
      assert fat == head + tail;
      PackOfUnpack(tail);
      var e := Unpack(fat);
      forall k: nat | k < |e| - 2 ensures e[2..][k] == Unpack(tail)[k] {
        EntryShift(head, tail, k);
      }
      assert e[2..] == Unpack(tail);
      PairBytes(fat);
      assert [PairLow(e[0]), PairMiddle(e[0], e[1]), PairHigh(e[1])] == head;
    }
  }

  /** The first pair's entries pack to its bytes. */
  lemma PairBytes(fat: seq<u8>)
    requires |fat| >= 3
    ensures PairLow(Entry(fat, 0)) == fat[0]
    ensures PairMiddle(Entry(fat, 0), Entry(fat, 1)) == fat[1]
    ensures PairHigh(Entry(fat, 1)) == fat[2]
  {
    hide Decode, Join, PairLow, PairMiddle, PairHigh;
    WordOfPart(fat, 0);
    WordOfPart(fat, 1);
    PairPacks(fat[0], fat[1], fat[2]);
  }

  lemma PairPacks(a: u8, b: u8, c: u8)
    ensures var x, y := Decode(Join(a, b), 0), Decode(Join(b, c), 1);
            PairLow(x) == a && PairMiddle(x, y) == b && PairHigh(y) == c
  {
    hide Decode, Join;
    DecodePair(a, b, c);
    DivModUnique(a as int + 256 * (b as int % 16), 256, b % 16, a);
    DivModUnique(b / 16 + 16 * c as int, 16, c, b / 16);
  }

  /** The two entries in three bytes. */
  lemma DecodePair(a: u8, b: u8, c: u8)
    ensures Decode(Join(a, b), 0) == a as int + 256 * (b as int % 16)
    ensures Decode(Join(b, c), 1) == b / 16 + 16 * c as int
  {
    var low, high := b % 16, b / 16;
    assert b == 16 * high + low;
    DivModUnique(a as int + 256 * b as int, 4096, high, a as int + 256 * low);
    DivModUnique(b as int + 256 * c as int, 16, high + 16 * c as int, low);
  }

  lemma SplitEntry(x: Entry12, y: Entry12)
    ensures var b := x / 256 + 16 * (y % 16);
            0 <= b < 256 && b % 16 == x / 256 && b / 16 == y % 16
    ensures x % 256 + 256 * (x / 256) == x && y % 16 + 16 * (y / 16) == y && y / 16 < 256
  {
    DivModUnique(x / 256 + 16 * (y % 16), 16, y % 16, x / 256);
  }
}
