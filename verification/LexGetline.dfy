/** getline of lex: a line from as many fgets calls as it takes, for all streams. */
module LexGetline {

  import opened Machine
  import opened TextLines
  import opened Stdio
  import opened LineBuffers

  /** What a call leaves: the string, the bytes taken, the capacity and the indicator. */
  datatype Gathered = Gathered(text: seq<u8>, used: nat, capacity: nat, atEnd: bool)

  /** The bytes the next fgets into `size` bytes takes. */
  function Chunk(rest: seq<u8>, used: nat, size: nat): (chunk: seq<u8>)
    requires used <= |rest| && size >= 1
    ensures used + |chunk| <= |rest| && |CString(chunk)| <= |chunk| < size
  {
    rest[used..][..Taken(rest[used..], size)]
  }

  predicate MeetsEnd(chunk: seq<u8>, size: nat) {
    |chunk| < size - 1 && !EndsWith(chunk, NEWLINE)
  }

  function Room(text: seq<u8>, capacity: nat): nat {
    if capacity - |text| - 1 == 0 then capacity + CHUNK_SIZE else capacity
  }

  /**
   The loop. Each chunk lands behind the string gathered so far, and what it
   holds behind a NUL, a newline included, is not seen.
   */
  function Gather(rest: seq<u8>, text: seq<u8>, used: nat, capacity: nat, atEnd: bool): (g: Gathered)
    requires used <= |rest| && |text| < capacity
    ensures used <= g.used <= |rest| && |g.text| < g.capacity && capacity <= g.capacity
    decreases |rest| - used, if atEnd then 0 else 1
  {
    if atEnd || NEWLINE in text then Gathered(text, used, capacity, atEnd)
    else
      var room := Room(text, capacity);
      var chunk := Chunk(rest, used, room - |text|);
      Gather(rest, text + CString(chunk), used + |chunk|, room, MeetsEnd(chunk, room - |text|))
  }

  /** Capacities grow in steps of twelve bytes. */
  lemma {:induction false} GatherCapacity(rest: seq<u8>, text: seq<u8>, used: nat, capacity: nat, atEnd: bool)
    requires used <= |rest| && |text| < capacity
    ensures ByTwelves(capacity, Gather(rest, text, used, capacity, atEnd).capacity)
    decreases |rest| - used, if atEnd then 0 else 1
  {
    hide Chunk, MeetsEnd, CString;
    if !atEnd && NEWLINE !in text {
      var room := Room(text, capacity);
      var chunk := Chunk(rest, used, room - |text|);
      NoChunkEnds(rest, used, room - |text|);
      GatherCapacity(rest, text + CString(chunk), used + |chunk|, room, MeetsEnd(chunk, room - |text|));
    }
  }

  lemma LineCapacity(rest: seq<u8>, capacity: nat)
    requires rest != [] && capacity >= 1
    ensures ByTwelves(capacity, LineBy(rest, capacity).capacity)
  {
    var chunk := Chunk(rest, 0, capacity);
    GatherCapacity(rest, CString(chunk), |chunk|, capacity, MeetsEnd(chunk, capacity));
  }

  /** One call: the first fgets comes before any test. */
  function FirstGather(rest: seq<u8>, capacity: nat, atEnd: bool): (g: Gathered)
    requires capacity >= 1
    ensures g.used <= |rest| && |g.text| < g.capacity && capacity <= g.capacity
  {
    var chunk := Chunk(rest, 0, capacity);
    Gather(rest, CString(chunk), |chunk|, capacity, atEnd || MeetsEnd(chunk, capacity))
  }

  /** One call on a stream that has bytes left. */
  function LineBy(rest: seq<u8>, capacity: nat): (g: Gathered)
    requires rest != [] && capacity >= 1
    ensures 1 <= g.used <= |rest| && |g.text| < g.capacity && capacity <= g.capacity
  {
    FirstGather(rest, capacity, false)
  }

  /** Between two chunks: a string with a newline at most at its end, where the stream has one, too. */
  predicate Gathering(rest: seq<u8>, text: seq<u8>, used: nat, atEnd: bool) {
    && used <= |rest| && 0 !in text
    && (atEnd ==> used == |rest| && NEWLINE !in text)
    && (NEWLINE in text ==> EndsWith(text, NEWLINE) && used > 0 && rest[used - 1] == NEWLINE)
    && (forall i :: 0 <= i < |text| - 1 ==> text[i] != NEWLINE)
  }

  lemma ChunkShape(rest: seq<u8>, used: nat, size: nat)
    requires used <= |rest| && size >= 1
    ensures var chunk := Chunk(rest, used, size);
            && used + |chunk| <= |rest| && chunk == rest[used..used + |chunk|]
            && (chunk == [] <==> size == 1 || used == |rest|)
            && (forall i :: 0 <= i < |chunk| - 1 ==> chunk[i] != NEWLINE)
            && (MeetsEnd(chunk, size) ==> used + |chunk| == |rest|)
            && (EndsWith(chunk, NEWLINE) || |chunk| == size - 1 || MeetsEnd(chunk, size))
  {
    var tail := rest[used..];
    assert tail != [] && Taken(tail, size) > 0 ==> tail[Taken(tail, size) - 1] == rest[used + Taken(tail, size) - 1];
  }

  lemma ChunkKeeps(rest: seq<u8>, text: seq<u8>, used: nat, size: nat)
    requires Gathering(rest, text, used, false) && NEWLINE !in text && size >= 1
    ensures var chunk := Chunk(rest, used, size);
            Gathering(rest, text + CString(chunk), used + |chunk|, MeetsEnd(chunk, size))
  {
    ChunkShape(rest, used, size);
    var chunk := Chunk(rest, used, size);
    var seen := CString(chunk);
    assert forall i :: 0 <= i < |seen| ==> seen[i] == chunk[i] && seen[i] != 0;
    forall i | 0 <= i < |text + seen| - 1 ensures (text + seen)[i] != NEWLINE {
      if i >= |text| {
        assert (text + seen)[i] == chunk[i - |text|];
      }
    }
    if NEWLINE in text + seen {
      var i :| 0 <= i < |seen| && seen[i] == NEWLINE;
      assert i == |chunk| - 1;
    }
  }

  lemma {:induction false} GatherKeeps(rest: seq<u8>, text: seq<u8>, used: nat, capacity: nat, atEnd: bool)
    requires used <= |rest| && Gathering(rest, text, used, atEnd) && |text| < capacity
    ensures var g := Gather(rest, text, used, capacity, atEnd);
            Gathering(rest, g.text, g.used, g.atEnd) && (g.atEnd || NEWLINE in g.text)
    decreases |rest| - used, if atEnd then 0 else 1
  {
    hide Gathering, Chunk, MeetsEnd, CString;
    if !atEnd && NEWLINE !in text {
      var room := Room(text, capacity);
      var size := room - |text|;
      var chunk := Chunk(rest, used, size);
      ChunkKeeps(rest, text, used, size);
      ChunkShape(rest, used, size);
      NoChunkEnds(rest, used, size);
      GatherKeeps(rest, text + CString(chunk), used + |chunk|, room, MeetsEnd(chunk, size));
    }
  }

  lemma NoChunkEnds(rest: seq<u8>, used: nat, size: nat)
    requires used <= |rest| && size >= 2
    ensures Chunk(rest, used, size) == [] ==> MeetsEnd(Chunk(rest, used, size), size)
  {
    ChunkShape(rest, used, size);
  }

  /** On every stream a call takes whole lines, and returns a string that ends in a newline unless the stream has ended. */
  lemma TakesWholeLines(rest: seq<u8>, capacity: nat)
    requires rest != [] && capacity >= 1
    ensures var g := LineBy(rest, capacity);
            && 0 !in g.text
            && (g.used == |rest| || rest[g.used - 1] == NEWLINE)
            && (forall i :: 0 <= i < |g.text| - 1 ==> g.text[i] != NEWLINE)
            && (g.atEnd || EndsWith(g.text, NEWLINE)) && (g.atEnd ==> g.used == |rest|)
  {
    hide Chunk, MeetsEnd, CString, Gather;
    var chunk := Chunk(rest, 0, capacity);
    ChunkKeeps(rest, [], 0, capacity);
    assert [] + CString(chunk) == CString(chunk);
    GatherKeeps(rest, CString(chunk), |chunk|, capacity, MeetsEnd(chunk, capacity));
  }

  lemma StringWhole(chunk: seq<u8>)
    requires 0 !in chunk
    ensures CString(chunk) == chunk
  {
  }

  /** A chunk of a first line without a NUL is gathered whole. */
  lemma ChunkWhole(rest: seq<u8>, used: nat, size: nat)
    requires used <= |rest| && size >= 1 && NEWLINE !in rest[..used] && 0 !in FirstLine(rest, NEWLINE)
    ensures var chunk := Chunk(rest, used, size);
            && CString(chunk) == chunk && used + |chunk| <= |rest|
            && rest[..used] + chunk == rest[..used + |chunk|]
  {
    hide LineLength;
    LineFrom(rest, NEWLINE, used);
    ChunkShape(rest, used, size);
    var chunk := Chunk(rest, used, size);
    assert forall i :: 0 <= i < |chunk| ==> chunk[i] == FirstLine(rest, NEWLINE)[used + i];
    StringWhole(chunk);
  }

  lemma {:induction false} GatherWhole(rest: seq<u8>, used: nat, capacity: nat, atEnd: bool)
    requires used <= |rest| && Gathering(rest, rest[..used], used, atEnd) && used < capacity
    requires 0 !in FirstLine(rest, NEWLINE)
    ensures var g := Gather(rest, rest[..used], used, capacity, atEnd);
            g.text == rest[..g.used]
    decreases |rest| - used, if atEnd then 0 else 1
  {
    hide Chunk, MeetsEnd, CString, FirstLine, Gathering;
    if !atEnd && NEWLINE !in rest[..used] {
      var room := Room(rest[..used], capacity);
      var size := room - used;
      var chunk := Chunk(rest, used, size);
      ChunkKeeps(rest, rest[..used], used, size);
      ChunkWhole(rest, used, size);
      NoChunkEnds(rest, used, size);
      GatherWhole(rest, used + |chunk|, room, MeetsEnd(chunk, size));
    }
  }

  /** The first line is returned as it is exactly when it holds no NUL. */
  lemma LineWholeIff(rest: seq<u8>, capacity: nat)
    requires rest != [] && capacity >= 1
    ensures var g, line := LineBy(rest, capacity), FirstLine(rest, NEWLINE);
            && (g.text == line <==> 0 !in line)
            && (g.text == line ==> g.used == |line| && (g.atEnd <==> !EndsWith(line, NEWLINE)))
  {
    hide LineLength;
    var g, chunk := LineBy(rest, capacity), Chunk(rest, 0, capacity);
    ChunkKeeps(rest, [], 0, capacity);
    assert [] + CString(chunk) == CString(chunk);
    GatherKeeps(rest, CString(chunk), |chunk|, capacity, MeetsEnd(chunk, capacity));
    if 0 !in FirstLine(rest, NEWLINE) {
      ChunkWhole(rest, 0, capacity);
      assert rest[..0] + chunk == chunk;
      GatherWhole(rest, |chunk|, capacity, MeetsEnd(chunk, capacity));
      GatheredLine(rest, g.used, g.atEnd);
    }
  }

  lemma GatheredLine(rest: seq<u8>, used: nat, atEnd: bool)
    requires 0 < used <= |rest| && Gathering(rest, rest[..used], used, atEnd)
    requires atEnd || NEWLINE in rest[..used]
    ensures rest[..used] == FirstLine(rest, NEWLINE) && used == LineLength(rest, NEWLINE)
    ensures atEnd <==> !EndsWith(FirstLine(rest, NEWLINE), NEWLINE)
  {
    hide LineLength;
    forall i | 0 <= i < used - 1 ensures rest[i] != NEWLINE {
      assert rest[..used][i] == rest[i];
    }
    FirstLineUnique(rest, NEWLINE, used);
    assert rest[..used][used - 1] == rest[used - 1];
  }

  /** The chunk in which the first line ends, when `used` bytes of it have been taken. */
  function EndingChunk(rest: seq<u8>, text: seq<u8>, used: nat, capacity: nat): seq<u8>
    requires used < LineLength(rest, NEWLINE) && |text| < capacity
    decreases |rest| - used
  {
    var room := Room(text, capacity);
    var chunk := Chunk(rest, used, room - |text|);
    ChunkInLine(rest, used, room - |text|);
    if used + |chunk| == LineLength(rest, NEWLINE) then chunk
    else EndingChunk(rest, text + CString(chunk), used + |chunk|, room)
  }

  /** A chunk that starts inside the first line ends in it or at its end. */
  lemma ChunkInLine(rest: seq<u8>, used: nat, size: nat)
    requires used < LineLength(rest, NEWLINE) && size >= 2
    ensures var chunk, end := Chunk(rest, used, size), LineLength(rest, NEWLINE);
            && chunk != [] && used + |chunk| <= end
            && (used + |chunk| < end ==> NEWLINE !in chunk && !MeetsEnd(chunk, size))
            && (used + |chunk| == end < |rest| ==> EndsWith(chunk, NEWLINE) && !MeetsEnd(chunk, size))
            && (forall i :: 0 <= i < |chunk| - 1 ==> chunk[i] != NEWLINE)
  {
    hide LineLength;
    var chunk, end := Chunk(rest, used, size), LineLength(rest, NEWLINE);
    LineFrom(rest, NEWLINE, used);
    ChunkShape(rest, used, size);
    assert forall i :: 0 <= i < |chunk| ==> chunk[i] == rest[used + i];
  }

  /**
   A call takes the first line alone exactly when the chunk in which that
   line ends holds no NUL, or nothing follows it. Otherwise lines are joined.
   */
  lemma OneLineTakenIff(rest: seq<u8>, capacity: nat)
    requires rest != [] && capacity >= 1
    ensures LineBy(rest, capacity).used == LineLength(rest, NEWLINE) <==>
              0 !in EndingChunk(rest, [], 0, capacity) || LineLength(rest, NEWLINE) == |rest|
    ensures LineLength(rest, NEWLINE) < capacity ==> EndingChunk(rest, [], 0, capacity) == FirstLine(rest, NEWLINE)
  {
    hide LineLength;
    FirstFromNothing(rest, capacity);
    OneLineFrom(rest, [], 0, capacity);
    if LineLength(rest, NEWLINE) < capacity {
      ChunkIsLine(rest, capacity);
    }
  }

  lemma FirstFromNothing(rest: seq<u8>, capacity: nat)
    requires rest != [] && capacity >= 1
    ensures LineBy(rest, capacity) == Gather(rest, [], 0, capacity, false)
  {
    var chunk := Chunk(rest, 0, capacity);
    assert [] + CString(chunk) == CString(chunk);
    assert capacity == 1 ==> chunk == [];
  }

  lemma {:induction false} OneLineFrom(rest: seq<u8>, text: seq<u8>, used: nat, capacity: nat)
    requires used < LineLength(rest, NEWLINE) && |text| < capacity && NEWLINE !in text
    ensures Gather(rest, text, used, capacity, false).used == LineLength(rest, NEWLINE) <==>
              0 !in EndingChunk(rest, text, used, capacity) || LineLength(rest, NEWLINE) == |rest|
    decreases |rest| - used
  {
    hide LineLength, Chunk, MeetsEnd, CString, StringLength;
    var room, end := Room(text, capacity), LineLength(rest, NEWLINE);
    var size := room - |text|;
    var chunk := Chunk(rest, used, size);
    ChunkInLine(rest, used, size);
    GatherStep(rest, text, used, capacity);
    ChunkSeen(chunk);
    if used + |chunk| < end {
      OneLineFrom(rest, text + CString(chunk), used + |chunk|, room);
    } else if end < |rest| && 0 in chunk {
      GatherGoesOn(rest, text + CString(chunk), end, room);
    } else if end < |rest| {
      GatherStops(rest, text + chunk, end, room, false);
    }
  }

  /** What a chunk shows of its newline. */
  lemma ChunkSeen(chunk: seq<u8>)
    ensures 0 !in chunk ==> CString(chunk) == chunk
    ensures NEWLINE !in chunk ==> NEWLINE !in CString(chunk)
    ensures 0 in chunk && (forall i :: 0 <= i < |chunk| - 1 ==> chunk[i] != NEWLINE) ==> NEWLINE !in CString(chunk)
    ensures EndsWith(chunk, NEWLINE) ==> NEWLINE in chunk
  {
    if 0 !in chunk {
      StringWhole(chunk);
    } else if forall i :: 0 <= i < |chunk| - 1 ==> chunk[i] != NEWLINE {
      HiddenNewline(chunk);
    }
    assert forall i :: 0 <= i < |CString(chunk)| ==> CString(chunk)[i] == chunk[i];
  }

  lemma GatherGoesOn(rest: seq<u8>, text: seq<u8>, used: nat, capacity: nat)
    requires used < |rest| && |text| < capacity && NEWLINE !in text
    ensures Gather(rest, text, used, capacity, false).used > used
  {
    hide CString;
    GatherStep(rest, text, used, capacity);
    ChunkShape(rest, used, Room(text, capacity) - |text|);
  }

  lemma ChunkIsLine(rest: seq<u8>, capacity: nat)
    requires rest != [] && LineLength(rest, NEWLINE) < capacity
    ensures EndingChunk(rest, [], 0, capacity) == FirstLine(rest, NEWLINE)
  {
    assert rest[0..] == rest;
  }

  /** A newline behind a NUL is not part of the string. */
  lemma HiddenNewline(line: seq<u8>)
    requires 0 in line && forall i :: 0 <= i < |line| - 1 ==> line[i] != NEWLINE
    ensures NEWLINE !in CString(line)
  {
    var i :| 0 <= i < |line| && line[i] == 0;
    assert forall k :: 0 <= k < |CString(line)| ==> CString(line)[k] == line[k] && k < i;
  }

  /** The buffer holds a string. */
  predicate Held(buffer: seq<u8>, text: seq<u8>) {
    |text| < |buffer| && buffer[..|text|] == text && buffer[|text|] == 0 && 0 !in text
  }

  lemma HeldString(buffer: seq<u8>, text: seq<u8>)
    requires Held(buffer, text)
    ensures StringLength(buffer) == |text| < |buffer| && CString(buffer) == text
    ensures buffer[..|text|] == text && buffer[|text|] == 0
  {
    StringLengthIs(buffer, |text|);
  }

  /** A chunk and a NUL behind bytes that hold none. */
  lemma ChunkHeld(buffer: seq<u8>, text: seq<u8>, chunk: seq<u8>)
    requires 0 !in text && |text| + |chunk| < |buffer|
    requires buffer[..|text|] == text && buffer[|text|..|text| + |chunk|] == chunk && buffer[|text| + |chunk|] == 0
    ensures Held(buffer, text + CString(chunk))
  {
    var n := StringLength(chunk);
    assert buffer[..|text| + n] == buffer[..|text|] + buffer[|text|..|text| + |chunk|][..n];
    assert n < |chunk| ==> buffer[|text| + n] == chunk[n];
    assert forall i :: 0 <= i < n ==> CString(chunk)[i] == chunk[i];
  }

  /** One fgets behind the string gathered so far. */
  method ReadChunk(buffer: array<u8>, fp: Stream, at: nat, ghost text: seq<u8>) returns (ok: bool)
    requires fp.Valid() && at == |text| < buffer.Length && buffer[..at] == text && 0 !in text
    modifies buffer, fp
    ensures fp.Valid()
    ensures ok <==> buffer.Length - at == 1 || old(fp.Rest()) != []
    ensures !ok ==> buffer[..] == old(buffer[..]) && fp.atEnd
    ensures var chunk := Chunk(old(fp.Rest()), 0, buffer.Length - at);
            && fp.pos == old(fp.pos) + |chunk|
            && (ok || old(buffer[at]) == 0 ==> Held(buffer[..], text + CString(chunk)))
            && (fp.atEnd <==> old(fp.atEnd) || MeetsEnd(chunk, buffer.Length - at))
  {
    hide LineLength, StringLength, Taken;
    ghost var rest, size := fp.Rest(), buffer.Length - at;
    ghost var before, chunk := buffer[..], Chunk(rest, 0, size);
    assert rest[0..] == rest;
    ChunkShape(rest, 0, size);
    ok := fp.Fgets(buffer, at, buffer.Length - at);
    if ok || before[at] == 0 {
      assert buffer[..at] == before[..at];
      ChunkHeld(buffer[..], text, chunk);
    }
  }

  /** The loop body: make room when the string fills the buffer, and read a chunk behind it. */
  method MoreText(lb: LineBuffer, fp: Stream, len: nat, ghost rest: seq<u8>, ghost text: seq<u8>, ghost used: nat)
    returns (r: nat, ghost text': seq<u8>, ghost used': nat)
    requires lb.Valid() && !lb.Empty() && fp.Valid() && !fp.atEnd
    requires used <= |rest| && fp.Rest() == rest[used..]
    requires Held(lb.buf[..], text) && len == |text| < lb.n && NEWLINE !in text
    modifies lb, lb.Store(), fp
    ensures lb.Valid() && !lb.Empty() && fp.Valid()
    ensures lb.buf == old(lb.buf) || fresh(lb.buf)
    ensures used <= used' <= |rest| && fp.pos == old(fp.pos) + (used' - used)
    ensures used' > used || fp.atEnd
    ensures Held(lb.buf[..], text') && r == |text'| < lb.n
    ensures Gather(rest, text', used', lb.n, fp.atEnd) == Gather(rest, text, used, old(lb.n), false)
  {
    hide CString, StringLength, Chunk, MeetsEnd, Held, Gather;
    GatherStep(rest, text, used, lb.n);
    ghost var before := lb.buf[..];
    HeldString(before, text);
    lb.MakeRoom(len);
    HeldByPrefix(before, lb.buf[..], text);
    var c := StringLength(lb.buf[..]);
    ghost var chunk := Chunk(rest, used, lb.n - c);
    ChunkOfRest(rest, used, lb.n - c);
    NoChunkEnds(rest, used, lb.n - c);
    var ok := ReadChunk(lb.buf, fp, c, text);
    text', used' := text + CString(chunk), used + |chunk|;
    HeldString(lb.buf[..], text');
    r := StringLength(lb.buf[..]);
  }

  /**
   getline over fgets. With a buffer of one byte the first fgets reads
   nothing, so the end of the stream is reported as an empty line.
   */
  method GetLine(lb: LineBuffer, fp: Stream) returns (r: int)
    requires lb.Valid() && fp.Valid()
    modifies lb, lb.Store(), fp
    ensures lb.Valid() && !lb.Empty() && fp.Valid()
    ensures lb.buf == old(lb.buf) || fresh(lb.buf)
    ensures old(fp.Rest()) == [] ==> fp.pos == old(fp.pos) && fp.atEnd
                                     && r == if !old(lb.Empty()) && old(lb.n) == 1 then 0 else -1
    ensures old(fp.Rest()) != [] ==>
              var g := LineBy(old(fp.Rest()), if old(lb.Empty()) then CHUNK_SIZE else old(lb.n));
              && r == |g.text| && lb.n == g.capacity && lb.buf[..r] == g.text && lb.buf[r] == 0
              && fp.pos == old(fp.pos) + g.used && fp.atEnd == g.atEnd
              && ByTwelves(if old(lb.Empty()) then 12 else old(lb.n), lb.n)
  {
    hide LineLength, CString, StringLength, Chunk, MeetsEnd, Held, Gather, FirstGather, LineBy, ByTwelves;
    ghost var rest := fp.Rest();
    lb.Prepare();
    ghost var capacity := lb.n;
    ghost var whole := FirstGather(rest, lb.n, fp.atEnd);
    ghost var text, used := CString(Chunk(rest, 0, lb.n)), |Chunk(rest, 0, lb.n)|;
    GatherBegins(rest, lb.n, fp.atEnd);
    assert [] + text == text;
    var ok := ReadChunk(lb.buf, fp, 0, []);
    if !ok {
      return -1;
    }
    HeldString(lb.buf[..], text);
    var len := StringLength(lb.buf[..]);
    while !fp.atEnd && NEWLINE !in CString(lb.buf[..])
      invariant lb.buf != null && lb.n == lb.buf.Length && lb.n > 0 && fp.Valid()
      invariant lb.buf == old(lb.buf) || fresh(lb.buf)
      invariant used <= |rest| && fp.pos == old(fp.pos) + used
      invariant Held(lb.buf[..], text) && len == |text| < lb.n
      invariant Gather(rest, text, used, lb.n, fp.atEnd) == whole
      decreases |rest| - used, if fp.atEnd then 0 else 1
    {
      HeldString(lb.buf[..], text);
      len, text, used := MoreText(lb, fp, len, rest, text, used);
      HeldString(lb.buf[..], text);
    }
    HeldString(lb.buf[..], text);
    GatherStops(rest, text, used, lb.n, fp.atEnd);
    if rest != [] {
      LineCapacity(rest, capacity);
    }
    return len;
  }

  lemma GatherBegins(rest: seq<u8>, capacity: nat, atEnd: bool)
    requires capacity >= 1
    ensures rest != [] && !atEnd ==> FirstGather(rest, capacity, atEnd) == LineBy(rest, capacity)
    ensures var chunk := Chunk(rest, 0, capacity);
            && FirstGather(rest, capacity, atEnd) ==
               Gather(rest, CString(chunk), |chunk|, capacity, atEnd || MeetsEnd(chunk, capacity))
    ensures var g := FirstGather([], capacity, atEnd);
            g.text == [] && g.used == 0 && g.atEnd
  {
    assert Chunk([], 0, capacity) == [];
    if capacity == 1 && !atEnd {
      assert Chunk([], 0, 13) == [] && [] + CString([]) == [];
      assert Gather([], [], 0, 1, false) == Gather([], [], 0, 13, true);
    }
  }

  lemma GatherStep(rest: seq<u8>, text: seq<u8>, used: nat, capacity: nat)
    requires used <= |rest| && |text| < capacity && NEWLINE !in text
    ensures var room := Room(text, capacity);
            var chunk := Chunk(rest, used, room - |text|);
            && |text + CString(chunk)| < room
            && Gather(rest, text, used, capacity, false) ==
               Gather(rest, text + CString(chunk), used + |chunk|, room, MeetsEnd(chunk, room - |text|))
  {
  }

  lemma GatherStops(rest: seq<u8>, text: seq<u8>, used: nat, capacity: nat, atEnd: bool)
    requires used <= |rest| && |text| < capacity && (atEnd || NEWLINE in text)
    ensures Gather(rest, text, used, capacity, atEnd) == Gathered(text, used, capacity, atEnd)
  {
  }

  lemma ChunkOfRest(rest: seq<u8>, used: nat, size: nat)
    requires used <= |rest| && size >= 1
    ensures Chunk(rest[used..], 0, size) == Chunk(rest, used, size)
  {
    assert rest[used..][0..] == rest[used..];
  }

  lemma HeldByPrefix(before: seq<u8>, after: seq<u8>, text: seq<u8>)
    requires Held(before, text) && before <= after
    ensures Held(after, text)
    ensures StringLength(after) == |text| && after[..|text|] == text && after[|text|] == 0 && 0 !in text
  {
    assert after[..|text|] == before[..|text|];
    HeldString(after, text);
  }

  /** The strings a stream is read as, with the buffer kept between the calls. */
  function LexLines(s: seq<u8>, capacity: nat): seq<seq<u8>>
    requires capacity >= 1
    decreases |s|
  {
    if s == [] then []
    else var g := LineBy(s, capacity); [g.text] + LexLines(s[g.used..], g.capacity)
  }

  /** A stream without NUL bytes is read as its lines, whatever the buffer. */
  lemma {:induction false} LexLinesAreLines(s: seq<u8>, capacity: nat)
    requires capacity >= 1 && 0 !in s
    ensures LexLines(s, capacity) == Lines(s, NEWLINE)
    decreases |s|
  {
    if s != [] {
      var g := LineBy(s, capacity);
      LineWholeIff(s, capacity);
      LexLinesAreLines(s[g.used..], g.capacity);
    }
  }
}
