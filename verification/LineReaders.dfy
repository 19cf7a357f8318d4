/** The two getline implementations side by side. */
module LineReaders {

  import opened Machine
  import opened TextLines
  import opened Stdio
  import opened LineBuffers
  import GetDelim
  import LexGetline

  /**
   On equal streams they return the same bytes exactly when the first line
   holds no NUL, and then leave the streams in the same state. At the end of
   a stream they agree unless lex's buffer has one byte.
   */
  method SameLine(a: LineBuffer, s: Stream, b: LineBuffer, t: Stream) returns (i: int, j: int)
    requires a != b && s != t && a.Store() !! b.Store()
    requires a.Valid() && b.Valid() && s.Valid() && t.Valid()
    requires s.Rest() == t.Rest() && s.atEnd == t.atEnd
    requires a.n < TWO64 && |s.Rest()| <= GetDelim.STREAM_MAX
    requires a.Empty() || Inside(GetDelim.Writes(s.Rest(), NEWLINE, 0, a.n))
    modifies a, a.Store(), s, b, b.Store(), t
    ensures a.Valid() && b.Valid() && s.Valid() && t.Valid() && !a.Empty() && !b.Empty()
    ensures old(s.Rest()) == [] ==>
              && i == -1 && s.pos == old(s.pos) && t.pos == old(t.pos) && s.atEnd && t.atEnd
              && (i == j <==> old(b.Empty()) || old(b.n) != 1)
    ensures old(s.Rest()) != [] ==>
              var line := FirstLine(old(s.Rest()), 10);
              && 0 <= i <= a.n && 0 <= j <= b.n
              && (a.buf[..i] == b.buf[..j] <==> 0 !in line)
              && (0 !in line ==> i == j && s.Rest() == t.Rest() && s.atEnd == t.atEnd
                                 && s.pos - old(s.pos) == t.pos - old(t.pos))
  {
    hide LineLength, FirstLine, Inside, GetDelim.Writes, LexGetline.LineBy, EndsWith;
    ghost var rest := s.Rest();
    ghost var capacity := if b.Empty() then CHUNK_SIZE else b.n;
    ghost var writes;
    i, writes := GetDelim.GetDelim(a, NEWLINE, s);
    ghost var line := if i >= 0 then a.buf[..i] else [];
    j := LexGetline.GetLine(b, t);
    if rest != [] {
      LexGetline.LineWholeIff(rest, capacity);
      assert s.Rest() == rest[s.pos - old(s.pos)..] && t.Rest() == rest[t.pos - old(t.pos)..];
    }
  }
}
