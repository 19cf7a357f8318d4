/** The buffer a caller hands from one line to the next. */
module LineBuffers {

  import opened Machine

  const CHUNK_SIZE: nat := 12

  /** A store at an index, and the capacity the buffer has then. */
  datatype Write = Write(index: nat, capacity: nat)

  predicate Inside(writes: seq<Write>) {
    forall i :: 0 <= i < |writes| ==> writes[i].index < writes[i].capacity
  }

  /** The capacity for a byte at `len`: the test is one of unsigned numbers. */
  function Grown(len: nat, capacity: nat): nat {
    if len == (capacity - 2) % TWO64 then capacity + CHUNK_SIZE else capacity
  }

  /** A capacity that is another one or has grown from it in steps of twelve bytes. */
  predicate ByTwelves(from: nat, to: nat) {
    (to - from) % 12 == 0
  }

  /** The stores of one byte, and of the NUL behind a delimiter. */
  function AppendWrites(len: nat, last: bool, capacity: nat): seq<Write> {
    [Write(len, Grown(len, capacity))] + if last then [Write(len + 1, Grown(len, capacity))] else []
  }

  lemma AppendInside(len: nat, last: bool, capacity: nat)
    ensures Inside(AppendWrites(len, last, capacity)) <==>
              len < Grown(len, capacity) && (last ==> len + 1 < Grown(len, capacity))
  {
    var writes := AppendWrites(len, last, capacity);
    assert writes[0].index == len && (last ==> writes[1].index == len + 1);
  }

  /** The caller's `*lineptr` and `*n`. */
  class LineBuffer {
    var buf: array?<u8>
    var n: nat

    constructor ()
      ensures buf == null && n == 0
    {
      buf, n := null, 0;
    }

    /** The capacity is the size of the allocation, unless the pair counts as empty. */
    predicate Valid()
      reads this
    {
      buf != null && n > 0 ==> buf.Length == n
    }

    predicate Empty()
      reads this
    {
      buf == null || n == 0
    }

    /** The part of the heap a call may change besides the pair itself. */
    function Store(): set<object>
      reads this
    {
      if buf == null then {} else {buf}
    }

    /** An empty pair gets its first allocation. */
    method Prepare()
      requires Valid()
      modifies this
      ensures Valid() && !Empty()
      ensures if old(Empty()) then fresh(buf) && n == CHUNK_SIZE else buf == old(buf) && n == old(n)
    {
      if Empty() {
        buf := new u8[CHUNK_SIZE];
        n := CHUNK_SIZE;
      }
    }

    /** realloc: a larger array with the old bytes in front. */
    method Grow(size: nat)
      requires buf != null && buf.Length <= size
      modifies this`buf
      ensures buf != null && fresh(buf) && buf.Length == size
      ensures buf[..old(buf.Length)] == old(buf[..])
    {
      var larger := new u8[size];
      forall i | 0 <= i < buf.Length {
        larger[i] := buf[i];
      }
      buf := larger;
    }

    /** Grow a buffer whose `len` bytes and their NUL leave nothing free. */
    method MakeRoom(len: nat)
      requires Valid() && !Empty() && len < n
      modifies this
      ensures Valid() && !Empty() && len + 2 <= n
      ensures n == if old(n) - len - 1 == 0 then old(n) + CHUNK_SIZE else old(n)
      ensures buf == old(buf) || fresh(buf)
      ensures old(buf[..]) <= buf[..]
    {
      if n - len - 1 == 0 {
        Grow(n + CHUNK_SIZE);
        n := n + CHUNK_SIZE;
      }
    }

    /**
     Store a byte at `len`, after growing when only two bytes would be left,
     and end the string behind a delimiter. `writes` records the stores.
     */
    method Append(len: nat, c: u8, last: bool) returns (ghost writes: seq<Write>)
      requires Valid() && !Empty() && n < TWO64 && len < TWO64 - 1
      requires Inside(AppendWrites(len, last, n))
      modifies this, Store()
      ensures Valid() && !Empty() && n == Grown(len, old(n))
      ensures buf == old(buf) || fresh(buf)
      ensures buf == old(buf) <==> n == old(n)
      ensures writes == AppendWrites(len, last, old(n))
      ensures len < n && len <= old(n) && buf[..len + 1] == old(buf[..len]) + [c]
      ensures last ==> len + 1 < n && buf[len + 1] == 0
      ensures buf == old(buf) && !last ==> buf[len + 1..] == old(buf[len + 1..])
    {
      AppendInside(len, last, n);
      if len == (n - 2) % TWO64 {
        Grow(n + CHUNK_SIZE);
        n := n + CHUNK_SIZE;
      }
      buf[len] := c;
      writes := [Write(len, buf.Length)];
      if last {
        buf[len + 1] := 0;
        writes := writes + [Write(len + 1, buf.Length)];
      }
    }
  }
}
