/** getdelim and getline of the C library: one character at a time into a growing buffer. */
module GetDelim {

  import opened Machine
  import opened TextLines
  import opened Stdio
  import opened LineBuffers

  /** The longest streams whose lines a buffer can hold while capacities fit 64 bits. */
  const STREAM_MAX: nat := TWO64 - CHUNK_SIZE - 2

  /**
   All stores of the loop, from the length `len` on. The variable that is
   compared with the delimiter starts as 0, so for the delimiter 0 there are none.
   */
  function Writes(s: seq<u8>, d: u8, len: nat, capacity: nat): seq<Write>
    requires len <= |s|
    decreases |s| - len
  {
    if d == 0 || len == |s| then []
    else if s[len] == d then AppendWrites(len, true, capacity)
    else AppendWrites(len, false, capacity) + Writes(s, d, len + 1, Grown(len, capacity))
  }

  lemma InsideSum(a: seq<Write>, b: seq<Write>)
    ensures Inside(a + b) <==> Inside(a) && Inside(b)
  {
    forall i | 0 <= i < |b| ensures (a + b)[|a| + i] == b[i] {
    }
    forall i | 0 <= i < |a| ensures (a + b)[i] == a[i] {
    }
    assert Inside(a + b) ==> forall i :: 0 <= i < |b| ==> (a + b)[|a| + i] == b[i];
  }

  /** The first stores and those after them. */
  lemma WritesStep(s: seq<u8>, d: u8, len: nat, capacity: nat)
    requires len < |s| && d != 0
    ensures Inside(Writes(s, d, len, capacity)) <==>
              && Inside(AppendWrites(len, s[len] == d, capacity))
              && (s[len] == d || Inside(Writes(s, d, len + 1, Grown(len, capacity))))
  {
    if s[len] != d {
      InsideSum(AppendWrites(len, false, capacity), Writes(s, d, len + 1, Grown(len, capacity)));
    }
  }

  /** After the stores `done` there are those from `len` on, all inside, unless the delimiter was met. */
  predicate Underway(all: seq<Write>, done: seq<Write>, met: bool, s: seq<u8>, d: u8, len: nat, capacity: nat) {
    && len <= |s|
    && all == done + (if met then [] else Writes(s, d, len, capacity))
    && (met || Inside(Writes(s, d, len, capacity)))
  }

  lemma UnderwayStart(s: seq<u8>, d: u8, capacity: nat)
    requires Inside(Writes(s, d, 0, capacity))
    ensures Underway(Writes(s, d, 0, capacity), [], false, s, d, 0, capacity)
  {
  }

  lemma UnderwayStep(all: seq<Write>, done: seq<Write>, s: seq<u8>, d: u8, len: nat, capacity: nat)
    requires Underway(all, done, false, s, d, len, capacity) && len < |s| && d != 0
    ensures Inside(AppendWrites(len, s[len] == d, capacity))
    ensures Underway(all, done + AppendWrites(len, s[len] == d, capacity), s[len] == d, s, d, len + 1, Grown(len, capacity))
  {
    WritesStep(s, d, len, capacity);
  }

  lemma UnderwayEnd(all: seq<Write>, done: seq<Write>, met: bool, s: seq<u8>, d: u8, len: nat, capacity: nat)
    requires Underway(all, done, met, s, d, len, capacity) && (met || d == 0 || len == |s|)
    ensures all == done
  {
  }

  lemma GrownBounds(len: nat, capacity: nat)
    requires 1 <= capacity < TWO64 && len < STREAM_MAX && (capacity >= 2 ==> len + 2 <= capacity)
    ensures var grown := Grown(len, capacity);
            && grown < TWO64
            && (if capacity >= 2 && len == capacity - 2 then grown == len + 14 else grown == capacity)
    ensures forall initial: nat :: ByTwelves(initial, capacity) ==> ByTwelves(initial, Grown(len, capacity))
  {
  }

  lemma {:induction false} WritesInsideFrom(s: seq<u8>, d: u8, len: nat, capacity: nat)
    requires len <= |s| <= STREAM_MAX && len + 2 <= capacity < TWO64
    ensures Inside(Writes(s, d, len, capacity))
    decreases |s| - len
  {
    if len < |s| && d != 0 {
      AppendInside(len, s[len] == d, capacity);
      WritesStep(s, d, len, capacity);
      if s[len] != d {
        WritesInsideFrom(s, d, len + 1, Grown(len, capacity));
      }
    }
  }

  /** The stores stay inside every buffer but one of a single byte, which holds a single byte that ends the stream. */
  lemma WritesInsideIff(s: seq<u8>, d: u8, capacity: nat)
    requires |s| <= STREAM_MAX && 1 <= capacity < TWO64
    ensures Inside(Writes(s, d, 0, capacity)) <==>
              d == 0 || capacity != 1 || s == [] || (|s| == 1 && s[0] != d)
  {
    if capacity >= 2 {
      WritesInsideFrom(s, d, 0, capacity);
    } else if d != 0 && s != [] {
      AppendInside(0, s[0] == d, 1);
      WritesStep(s, d, 0, 1);
      if |s| > 1 && s[0] != d {
        AppendInside(1, s[1] == d, 1);
        WritesStep(s, d, 1, 1);
      }
    }
  }

  /** One more byte of a line: it goes on, or the delimiter ends it. */
  lemma NextByte(s: seq<u8>, d: u8, len: nat)
    requires len < |s| && d !in s[..len]
    ensures s[..len + 1] == s[..len] + [s[len]]
    ensures if s[len] == d then IsFirstLine(s, d, len + 1) && EndsWith(s[..len + 1], d) else d !in s[..len + 1]
  {
    assert forall i :: 0 <= i < len ==> s[..len][i] == s[i];
  }

  /** What the buffer holds after `len` bytes, of which the last is the delimiter if it was `met`. */
  ghost predicate Reading(s: seq<u8>, d: u8, len: nat, buffer: seq<u8>, initial: seq<u8>, grown: bool, met: bool) {
    && len <= |s| && len <= |buffer| < TWO64
    && (|buffer| >= 2 ==> len + 2 <= |buffer|) && (|buffer| == 1 ==> |initial| == 1)
    && ByTwelves(|initial|, |buffer|)
    && buffer[..len] == s[..len]
    && (if met then IsFirstLine(s, d, len) && EndsWith(s[..len], d) && 0 < len < |buffer| && buffer[len] == 0
        else d !in s[..len])
    && (if grown then |buffer| <= len + 13 && len > 0
        else |buffer| == |initial| && (!met ==> buffer[len..] == initial[len..]))
  }

  lemma ReadingStart(s: seq<u8>, d: u8, initial: seq<u8>)
    requires 1 <= |initial| < TWO64
    ensures Reading(s, d, 0, initial, initial, false, false)
  {
  }

  lemma ReadingStep(s: seq<u8>, d: u8, len: nat, buffer: seq<u8>, initial: seq<u8>, grown: bool, after: seq<u8>)
    requires Reading(s, d, len, buffer, initial, grown, false) && len < |s| <= STREAM_MAX && 1 <= |buffer|
    requires |after| == Grown(len, |buffer|) && len < |after| && after[..len + 1] == buffer[..len] + [s[len]]
    requires s[len] == d ==> len + 1 < |after| && after[len + 1] == 0
    requires |after| == |buffer| && s[len] != d ==> after[len + 1..] == buffer[len + 1..]
    ensures Reading(s, d, len + 1, after, initial, grown || |after| != |buffer|, s[len] == d)
  {
    hide Grown, ByTwelves, IsFirstLine, EndsWith;
    GrownBounds(len, |buffer|);
    NextByte(s, d, len);
    if !grown {
      TailKept(buffer, initial, len);
    }
  }

  lemma TailKept(buffer: seq<u8>, initial: seq<u8>, len: nat)
    requires len < |buffer| == |initial| && buffer[len..] == initial[len..]
    ensures buffer[len + 1..] == initial[len + 1..]
  {
    assert buffer[len..][1..] == buffer[len + 1..] && initial[len..][1..] == initial[len + 1..];
  }

  /** The buffer when the loop ends: at the delimiter, or with all of the stream. */
  lemma ReadingEnd(s: seq<u8>, d: u8, len: nat, buffer: seq<u8>, initial: seq<u8>, grown: bool, met: bool)
    requires Reading(s, d, len, buffer, initial, grown, met) && s != [] && (met || len == |s|)
    ensures var line := FirstLine(s, d);
            && len == |line| <= |buffer| && buffer[..len] == line && (EndsWith(line, d) <==> met)
            && (met ==> len < |buffer| && buffer[len] == 0)
            && (!met && !grown ==> buffer[len..] == initial[len..])
  {
    hide LineLength;
    FirstLineUnique(s, d, len);
  }

  lemma ReadingSizes(s: seq<u8>, d: u8, len: nat, buffer: seq<u8>, initial: seq<u8>, grown: bool, met: bool)
    requires Reading(s, d, len, buffer, initial, grown, met)
    ensures len <= |s| && len <= |buffer| < TWO64 && (|buffer| == 1 ==> |initial| == 1)
    ensures ByTwelves(|initial|, |buffer|)
    ensures if grown then |buffer| <= len + 13 && len > 0 else |buffer| == |initial|
    ensures met ==> len > 0
  {
  }

  /** The loop as a whole: the stores and the buffer. */
  ghost predicate Looping(s: seq<u8>, d: u8, len: nat, buffer: seq<u8>, initial: seq<u8>, grown: bool, met: bool,
                          done: seq<Write>)
  {
    && Reading(s, d, len, buffer, initial, grown, met)
    && Underway(Writes(s, d, 0, |initial|), done, met, s, d, len, |buffer|)
    && (d == 0 ==> len == 0)
  }

  lemma LoopStart(s: seq<u8>, d: u8, initial: seq<u8>)
    requires 1 <= |initial| < TWO64 && Inside(Writes(s, d, 0, |initial|))
    ensures Looping(s, d, 0, initial, initial, false, false, [])
  {
    hide Reading, Underway, Writes, Inside;
    UnderwayStart(s, d, |initial|);
    ReadingStart(s, d, initial);
  }

  /** What the loop may rely on for one more byte, and what one more byte does. */
  lemma LoopReady(s: seq<u8>, d: u8, len: nat, buffer: seq<u8>, initial: seq<u8>, grown: bool, done: seq<Write>)
    requires Looping(s, d, len, buffer, initial, grown, false, done) && d != 0 && |s| <= STREAM_MAX
    ensures len <= |s| && |buffer| < TWO64
    ensures len < |s| ==> Inside(AppendWrites(len, s[len] == d, |buffer|))
  {
    hide Inside, AppendWrites, Writes;
    if len < |s| {
      UnderwayStep(Writes(s, d, 0, |initial|), done, s, d, len, |buffer|);
    }
  }

  lemma LoopStep(s: seq<u8>, d: u8, len: nat, buffer: seq<u8>, initial: seq<u8>, grown: bool, done: seq<Write>,
                 after: seq<u8>)
    requires Looping(s, d, len, buffer, initial, grown, false, done)
    requires d != 0 && len < |s| <= STREAM_MAX && 1 <= |buffer|
    requires |after| == Grown(len, |buffer|) && len < |after| && after[..len + 1] == buffer[..len] + [s[len]]
    requires s[len] == d ==> len + 1 < |after| && after[len + 1] == 0
    requires |after| == |buffer| && s[len] != d ==> after[len + 1..] == buffer[len + 1..]
    ensures Looping(s, d, len + 1, after, initial, grown || |after| != |buffer|, s[len] == d,
                    done + AppendWrites(len, s[len] == d, |buffer|))
  {
    hide Reading, Underway, Writes, Inside, AppendWrites, Grown;
    UnderwayStep(Writes(s, d, 0, |initial|), done, s, d, len, |buffer|);
    ReadingStep(s, d, len, buffer, initial, grown, after);
  }

  /** The loop has ended: at the delimiter, at the end of the stream, or before it began. */
  lemma LoopEnd(s: seq<u8>, d: u8, len: nat, buffer: seq<u8>, initial: seq<u8>, grown: bool, met: bool, done: seq<Write>)
    requires Looping(s, d, len, buffer, initial, grown, met, done) && (met || d == 0 || len == |s|)
    ensures done == Writes(s, d, 0, |initial|)
    ensures |buffer| < TWO64 && (|buffer| == 1 ==> |initial| == 1) && ByTwelves(|initial|, |buffer|)
    ensures if grown then |buffer| <= len + 13 && len > 0 else |buffer| == |initial|
    ensures met ==> len > 0
    ensures d == 0 ==> len == 0
    ensures d != 0 && s == [] ==> len == 0 && !met
    ensures d != 0 && s != [] ==>
              var line := FirstLine(s, d);
              && 0 < len == |line| <= |buffer| && buffer[..len] == line && (EndsWith(line, d) <==> met)
              && (met ==> len < |buffer| && buffer[len] == 0)
              && (!met && !grown ==> buffer[len..] == initial[len..])
  {
    hide Reading, Underway, Writes, Inside, LineLength;
    UnderwayEnd(Writes(s, d, 0, |initial|), done, met, s, d, len, |buffer|);
    ReadingSizes(s, d, len, buffer, initial, grown, met);
    if d != 0 && s != [] {
      ReadingEnd(s, d, len, buffer, initial, grown, met);
    }
  }

  /**
   getdelim, for every buffer that its stores stay inside. The line is
   terminated by a NUL only if it ends in the delimiter.
   */
  method GetDelim(lb: LineBuffer, delimiter: u8, stream: Stream) returns (r: int, ghost writes: seq<Write>)
    requires lb.Valid() && stream.Valid()
    requires lb.n < TWO64 && |stream.Rest()| <= STREAM_MAX
    requires lb.Empty() || Inside(Writes(stream.Rest(), delimiter, 0, lb.n))
    modifies lb, lb.Store(), stream
    ensures writes == Writes(old(stream.Rest()), delimiter, 0, if old(lb.Empty()) then CHUNK_SIZE else old(lb.n))
    ensures lb.Valid() && !lb.Empty() && stream.Valid() && lb.n < TWO64
    ensures lb.buf == old(lb.buf) || fresh(lb.buf)
    ensures lb.n == 1 ==> !old(lb.Empty()) && old(lb.n) == 1
    ensures delimiter == 0 ==> r == 0 && stream.pos == old(stream.pos)
    ensures delimiter != 0 && old(stream.Rest()) == [] ==> r == -1 && stream.pos == old(stream.pos) && stream.atEnd
    ensures delimiter != 0 && old(stream.Rest()) != [] ==>
              var line := FirstLine(old(stream.Rest()), delimiter);
              && r == |line| <= lb.n && lb.buf[..r] == line
              && stream.pos == old(stream.pos) + r
              && (stream.atEnd <==> old(stream.atEnd) || !EndsWith(line, delimiter))
              && (EndsWith(line, delimiter) ==> r < lb.n && lb.buf[r] == 0)
              && (!EndsWith(line, delimiter) && lb.buf == old(lb.buf) ==> lb.buf[r..] == old(lb.buf[..])[r..])
    ensures lb.buf == old(lb.buf) ==> lb.n == old(lb.n)
    ensures ByTwelves(if old(lb.Empty()) then 12 else old(lb.n), lb.n)
    ensures lb.n != old(lb.n) && lb.n > CHUNK_SIZE ==> r >= 0 && lb.n <= r + 13
  {
    hide LineLength, AppendWrites, Inside, Writes, Grown, IsFirstLine, EndsWith, Looping, FirstLine, ByTwelves;
    var c: int := 0;
    var len := 0;
    ghost var met := false;
    lb.Prepare();
    writes := [];
    ghost var rest, first, initial := stream.Rest(), lb.buf, lb.buf[..];
    WritesInsideIff(rest, delimiter, lb.n);
    LoopStart(rest, delimiter, initial);
    while c != delimiter
      invariant lb.Valid() && !lb.Empty() && stream.Valid()
      invariant lb.buf == first || fresh(lb.buf)
      invariant len <= |rest| && stream.pos == old(stream.pos) + len && stream.atEnd == old(stream.atEnd)
      invariant (met <==> c == delimiter && delimiter != 0) && (delimiter == 0 ==> c == 0)
      invariant Looping(rest, delimiter, len, lb.buf[..], initial, lb.buf != first, met, writes)
      decreases |rest| - len, if c == delimiter then 0 else 1
    {
      ghost var before, grown := lb.buf[..], lb.buf != first;
      LoopReady(rest, delimiter, len, before, initial, grown, writes);
      c := stream.Fgetc();
      if c == EOF {
        break;
      }
      ghost var stores := lb.Append(len, c, c == delimiter);
      LoopStep(rest, delimiter, len, before, initial, grown, writes, lb.buf[..]);
      len, met, writes := len + 1, c == delimiter, writes + stores;
    }
    LoopEnd(rest, delimiter, len, lb.buf[..], initial, lb.buf != first, met, writes);
    if len == 0 && c == EOF {
      return -1, writes;
    }
    return len, writes;
  }

  /**
   Repeated calls, with the buffer kept between them: the lines returned are
   exactly the lines of the rest of the stream.
   */
  method ReadLines(lb: LineBuffer, delimiter: u8, stream: Stream) returns (lines: seq<seq<u8>>)
    requires lb.Valid() && stream.Valid() && delimiter != 0
    requires lb.n < TWO64 && |stream.Rest()| <= STREAM_MAX
    requires lb.Empty() || Inside(Writes(stream.Rest(), delimiter, 0, lb.n))
    modifies lb, lb.Store(), stream
    ensures lines == Lines(old(stream.Rest()), delimiter)
    ensures IsPartition(lines, old(stream.Rest()), delimiter)
    ensures stream.Valid() && stream.Rest() == [] && stream.atEnd
  {
    hide IsPartition, IsFirstLine, EndsWith, Inside, Writes;
    lines := [];
    ghost var whole := stream.Rest();
    LinesPartition(whole, delimiter);
    while true
      invariant lb.Valid() && stream.Valid() && lb.n < TWO64 && |stream.Rest()| <= STREAM_MAX
      invariant lb.Empty() || Inside(Writes(stream.Rest(), delimiter, 0, lb.n))
      invariant lb.buf == old(lb.buf) || fresh(lb.buf)
      invariant lines + Lines(stream.Rest(), delimiter) == Lines(whole, delimiter)
      decreases |stream.Rest()|
    {
      ghost var rest := stream.Rest();
      if !lb.Empty() {
        WritesInsideIff(rest, delimiter, lb.n);
      }
      var r, writes := GetDelim(lb, delimiter, stream);
      if r == -1 {
        return;
      }
      LinesStep(lines, rest, delimiter);
      assert rest[r..] == stream.Rest();
      WritesInsideIff(stream.Rest(), delimiter, lb.n);
      lines := lines + [lb.buf[..r]];
    }
  }
}
