/** The section machine of lex: definitions, rules, subroutines. */
module LexSections {

  import opened Machine
  import opened TextLines
  import opened Stdio
  import opened LineBuffers
  import opened LexGetline

  const SECTION_MAX: nat := 2
  const PERCENT: u8 := 37

  predicate IsSpace(c: u8) {
    c == 32 || 9 <= c <= 13
  }

  predicate IsSeparator(line: seq<u8>) {
    |line| >= 3 && line[0] == PERCENT && line[1] == PERCENT && IsSpace(line[2])
  }

  function Separators(lines: seq<seq<u8>>): nat {
    if lines == [] then 0
    else Separators(lines[..|lines| - 1]) + if IsSeparator(lines[|lines| - 1]) then 1 else 0
  }

  /** What is left of the lines behind the first `k` separators. */
  function AfterSeparators(lines: seq<seq<u8>>, k: nat): seq<seq<u8>> {
    if k == 0 || lines == [] then lines
    else AfterSeparators(lines[1..], if IsSeparator(lines[0]) then k - 1 else k)
  }

  lemma {:induction false} SeparatorsFirst(lines: seq<seq<u8>>)
    requires lines != []
    ensures Separators(lines) == (if IsSeparator(lines[0]) then 1 else 0) + Separators(lines[1..])
  {
    var n := |lines| - 1;
    if n > 0 {
      SeparatorsFirst(lines[..n]);
      assert lines[..n][1..] == lines[1..][..n - 1];
    }
  }

  lemma {:induction false} AfterSeparatorsAppend(lines: seq<seq<u8>>, line: seq<u8>, k: nat)
    ensures AfterSeparators(lines + [line], k)
         == if Separators(lines) >= k then AfterSeparators(lines, k) + [line] else []
  {
    if k > 0 {
      if lines == [] {
        assert lines + [line] == [line];
      } else {
        SeparatorsFirst(lines);
        assert (lines + [line])[1..] == lines[1..] + [line];
        AfterSeparatorsAppend(lines[1..], line, if IsSeparator(lines[0]) then k - 1 else k);
      }
    }
  }

  /** All strings the inputs are read as, one input after the other, each with a new buffer. */
  function AllLines(files: seq<seq<u8>>): seq<seq<u8>> {
    if files == [] then [] else AllLines(files[..|files| - 1]) + LexLines(files[|files| - 1], CHUNK_SIZE)
  }

  /** The lines of inputs that are text. */
  function TextOf(files: seq<seq<u8>>): seq<seq<u8>> {
    if files == [] then [] else TextOf(files[..|files| - 1]) + Lines(files[|files| - 1], NEWLINE)
  }

  lemma {:induction false} AllLinesAreText(files: seq<seq<u8>>)
    requires forall i :: 0 <= i < |files| ==> 0 !in files[i]
    ensures AllLines(files) == TextOf(files)
  {
    if files != [] {
      AllLinesAreText(files[..|files| - 1]);
      LexLinesAreLines(files[|files| - 1], CHUNK_SIZE);
    }
  }

  /** A run stays inside the table of section parsers: no line follows a third separator. */
  predicate Defined(lines: seq<seq<u8>>) {
    lines == [] || Separators(lines[..|lines| - 1]) <= SECTION_MAX
  }

  /** The lines handed to the subroutine parser; a third separator is none of them. */
  function Copied(lines: seq<seq<u8>>): seq<seq<u8>> {
    AfterSeparators(if Separators(lines) <= SECTION_MAX || lines == [] then lines else lines[..|lines| - 1], 2)
  }

  class Lex {
    var section: nat
    var line: nat
    var out: seq<u8>
    ghost var seen: seq<seq<u8>>

    constructor ()
      ensures Valid() && seen == []
    {
      section, line, out, seen := 0, 1, [], [];
    }

    /** Section index, line number and output follow from the lines read so far. */
    ghost predicate Valid()
      reads this
    {
      && Defined(seen)
      && section == Separators(seen)
      && line == |seen| + 1
      && out == Concat(Copied(seen))
    }

    lemma Facts()
      requires Valid()
      ensures section == Separators(seen) && out == Concat(Copied(seen))
      ensures Separators(seen) <= SECTION_MAX ==> Copied(seen) == AfterSeparators(seen, 2)
    {
    }

    /** One line: a separator opens the next section, any other line goes to the section's parser. */
    method ParseLine(buffer: array<u8>, ghost text: seq<u8>) returns (defined: bool)
      requires Valid()
      requires Held(buffer[..], text)
      modifies this
      ensures seen == old(seen) + [text]
      ensures defined <==> Defined(seen)
      ensures defined ==> Valid() && Defined(seen)
    {
      HeldString(buffer[..], text);
      seen := seen + [text];
      assert seen[..|seen| - 1] == old(seen);
      assert (|text| >= 1 ==> text[0] == buffer[0]) && (|text| >= 2 ==> text[1] == buffer[1]) && (|text| >= 3 ==> text[2] == buffer[2]);
      line := line + 1;
      if section <= SECTION_MAX && buffer[0] == PERCENT && buffer[1] == PERCENT && IsSpace(buffer[2]) {
        section := section + 1;
      } else if section > SECTION_MAX {
        return false;
      } else if section == 2 {
        out := out + CString(buffer[..]);
      }
      CopiedAppend(old(seen), text);
      return true;
    }

    /** parse: read lines until the end of the stream. */
    method Parse(fp: Stream) returns (defined: bool)
      requires Valid() && Defined(seen) && fp.Valid()
      modifies this, fp
      ensures defined ==> Valid() && Defined(seen) && seen == old(seen) + LexLines(old(fp.Rest()), CHUNK_SIZE)
      ensures defined <==> Defined(old(seen) + LexLines(old(fp.Rest()), CHUNK_SIZE))
    {
      hide LexLines, LineBy, Held, Separators, Copied, Concat, Defined, Lex.Valid;
      var lb := new LineBuffer();
      ghost var whole := old(seen) + LexLines(fp.Rest(), CHUNK_SIZE);
      ghost var capacity: nat := CHUNK_SIZE;
      while true
        invariant Valid() && Defined(seen) && fp.Valid()
        invariant lb.Valid() && fresh(lb) && (lb.buf == null || fresh(lb.buf))
        invariant capacity >= 2 && capacity == if lb.Empty() then CHUNK_SIZE else lb.n
        invariant seen + LexLines(fp.Rest(), capacity) == whole
        decreases |fp.Rest()|
      {
        ghost var rest := fp.Rest();
        var r := GetLine(lb, fp);
        if r == -1 {
          LexLinesEnd(seen, capacity);
          return true;
        }
        LexLinesStep(seen, rest, capacity, lb.buf[..]);
        ghost var g := LineBy(rest, capacity);
        assert rest[g.used..] == fp.Rest();
        capacity := g.capacity;
        defined := ParseLine(lb.buf, g.text);
        if !defined {
          UndefinedStays(seen, LexLines(fp.Rest(), capacity));
          return;
        }
      }
    }
  }

  /** Moving the first string over to those already read. */
  lemma LexLinesStep(done: seq<seq<u8>>, rest: seq<u8>, capacity: nat, buffer: seq<u8>)
    requires rest != [] && capacity >= 1
    ensures var g := LineBy(rest, capacity);
            && g.used >= 1 && g.capacity >= capacity
            && done + LexLines(rest, capacity) == (done + [g.text]) + LexLines(rest[g.used..], g.capacity)
            && (|g.text| < |buffer| && buffer[..|g.text|] == g.text && buffer[|g.text|] == 0 ==> Held(buffer, g.text))
  {
    TakesWholeLines(rest, capacity);
  }

  lemma LexLinesEnd(done: seq<seq<u8>>, capacity: nat)
    requires capacity >= 1
    ensures done + LexLines([], capacity) == done
  {
  }

  lemma CopiedAppend(lines: seq<seq<u8>>, text: seq<u8>)
    requires Defined(lines) && Separators(lines) <= SECTION_MAX
    ensures Concat(Copied(lines + [text]))
         == Concat(Copied(lines)) + if Separators(lines) == 2 && !IsSeparator(text) then text else []
    ensures Separators(lines + [text]) == Separators(lines) + if IsSeparator(text) then 1 else 0
  {
    assert (lines + [text])[..|lines|] == lines;
    AfterSeparatorsAppend(lines, text, 2);
    ConcatSum(AfterSeparators(lines, 2), [text]);
    assert Concat([text]) == text;
    AfterNone(lines);
  }

  /** Nothing is behind the second separator before there is one. */
  lemma {:induction false} AfterNone(lines: seq<seq<u8>>)
    ensures Separators(lines) < 2 ==> AfterSeparators(lines, 2) == []
  {
    if lines != [] {
      var n := |lines| - 1;
      assert lines == lines[..n] + [lines[n]];
      AfterSeparatorsAppend(lines[..n], lines[n], 2);
    }
  }

  lemma {:induction false} SeparatorsPrefix(lines: seq<seq<u8>>, more: seq<seq<u8>>)
    ensures Separators(lines) <= Separators(lines + more)
  {
    if more == [] {
      assert lines + more == lines;
    } else {
      var n := |more| - 1;
      SeparatorsPrefix(lines, more[..n]);
      assert (lines + more)[..|lines + more| - 1] == lines + more[..n];
    }
  }

  /** A run that left the table cannot come back. */
  lemma UndefinedStays(lines: seq<seq<u8>>, more: seq<seq<u8>>)
    requires !Defined(lines)
    ensures !Defined(lines + more)
  {
    var n := |lines| - 1;
    var all := lines + more;
    assert all[..|all| - 1] == lines[..n] + all[..|all| - 1][n..];
    SeparatorsPrefix(lines[..n], all[..|all| - 1][n..]);
  }

  /** A line of two percent signs, a white-space character and anything. */
  predicate SeparatorLine(p: seq<u8>) {
    && |p| >= 3 && p[0] == 37 && p[1] == 37 && p[2] in {9, 10, 11, 12, 13, 32}
    && p[|p| - 1] == 10 && 10 !in p[..|p| - 1]
  }

  predicate SeparatorAt(s: seq<u8>, i: nat) {
    && i + 2 < |s| && (i == 0 || s[i - 1] == 10)
    && s[i] == 37 && s[i + 1] == 37 && s[i + 2] in {9, 10, 11, 12, 13, 32}
  }

  /** No line of `s` starts like that. */
  predicate NoSeparators(s: seq<u8>) {
    forall i :: 0 <= i < |s| ==> !SeparatorAt(s, i)
  }

  predicate WholeLines(s: seq<u8>) {
    s != [] ==> s[|s| - 1] == 10
  }

  /** One input without NUL: definitions `a`, rules `b` and subroutines `c`, with separator lines between. */
  predicate TwoSeparators(files: seq<seq<u8>>, a: seq<u8>, p: seq<u8>, b: seq<u8>, q: seq<u8>, c: seq<u8>) {
    && files == [a + p + b + q + c] && 0 !in files[0]
    && WholeLines(a) && NoSeparators(a) && SeparatorLine(p)
    && WholeLines(b) && NoSeparators(b) && SeparatorLine(q)
    && NoSeparators(c)
  }

  /** The same with a third separator line `r` behind `c`, and then `d`. */
  predicate ThreeSeparators(files: seq<seq<u8>>, a: seq<u8>, p: seq<u8>, b: seq<u8>, q: seq<u8>, c: seq<u8>,
                            r: seq<u8>, d: seq<u8>)
  {
    && files == [a + p + b + q + c + r + d] && 0 !in files[0]
    && TwoSeparators([a + p + b + q + c], a, p, b, q, c) && WholeLines(c) && SeparatorLine(r)
  }

  lemma SeparatorLineIs(p: seq<u8>)
    requires SeparatorLine(p)
    ensures IsSeparator(p) && Lines(p, NEWLINE) == [p]
  {
    assert forall i :: 0 <= i < |p| - 1 ==> p[i] == p[..|p| - 1][i];
    OneLine(p, NEWLINE);
  }

  lemma {:induction false} NoSeparatorsCounted(s: seq<u8>)
    requires NoSeparators(s)
    ensures Separators(Lines(s, NEWLINE)) == 0
    decreases |s|
  {
    hide LineLength, Separators;
    NoneCounted();
    if s != [] {
      var n := LineLength(s, NEWLINE);
      var line, rest := s[..n], s[n..];
      assert !SeparatorAt(s, 0);
      assert |line| >= 3 ==> line[0] == s[0] && line[1] == s[1] && line[2] == s[2];
      assert !IsSeparator(line);
      NoSeparatorsBehind(s, n);
      NoSeparatorsCounted(rest);
      SeparatorsFirst(Lines(s, NEWLINE));
      assert Lines(s, NEWLINE)[1..] == Lines(rest, NEWLINE);
    }
  }

  lemma NoneCounted()
    ensures Separators([]) == 0
  {
  }

  lemma NoSeparatorsBehind(s: seq<u8>, n: nat)
    requires NoSeparators(s) && 0 < n <= |s| && (s[n - 1] == 10 || n == |s|)
    ensures NoSeparators(s[n..])
  {
    var rest := s[n..];
    forall i | 0 <= i < |rest| ensures !SeparatorAt(rest, i) {
      assert !SeparatorAt(s, n + i);
      assert i + 2 < |rest| ==> rest[i] == s[n + i] && rest[i + 1] == s[n + i + 1] && rest[i + 2] == s[n + i + 2];
      assert 0 < i < |rest| ==> rest[i - 1] == s[n + i - 1];
    }
  }

  lemma {:induction false} SeparatorsSum(a: seq<seq<u8>>, b: seq<seq<u8>>)
    ensures Separators(a + b) == Separators(a) + Separators(b)
  {
    if b == [] {
      assert a + b == a;
    } else {
      var n := |b| - 1;
      assert (a + b)[..|a + b| - 1] == a + b[..n];
      SeparatorsSum(a, b[..n]);
    }
  }

  /** What follows the k-th separator is all that is left behind `k` of them. */
  lemma {:induction false} AfterExactly(head: seq<seq<u8>>, tail: seq<seq<u8>>, k: nat)
    requires head != [] && IsSeparator(head[|head| - 1]) && Separators(head) == k
    ensures AfterSeparators(head + tail, k) == tail
  {
    hide Separators, IsSeparator;
    SeparatorsFirst(head);
    assert (head + tail)[1..] == head[1..] + tail;
    if |head| == 1 {
      NoneCounted();
      assert head[1..] == [] && [] + tail == tail;
    } else {
      LastCounts(head[1..]);
      AfterExactly(head[1..], tail, if IsSeparator(head[0]) then k - 1 else k);
    }
  }

  lemma LastCounts(lines: seq<seq<u8>>)
    requires lines != [] && IsSeparator(lines[|lines| - 1])
    ensures Separators(lines) > 0
  {
  }

  /** The lines of such an input. */
  lemma LinesOfSections(a: seq<u8>, p: seq<u8>, b: seq<u8>, q: seq<u8>, c: seq<u8>) returns (head: seq<seq<u8>>)
    requires TwoSeparators([a + p + b + q + c], a, p, b, q, c)
    ensures Lines(a + p + b + q + c, NEWLINE) == head + Lines(c, NEWLINE)
    ensures head != [] && IsSeparator(head[|head| - 1]) && Separators(head) == 2
    ensures Separators(Lines(c, NEWLINE)) == 0
  {
    hide Lines, Separators, IsSeparator, NoSeparators;
    SeparatorLineIs(p);
    SeparatorLineIs(q);
    var la, lb := Lines(a, NEWLINE), Lines(b, NEWLINE);
    assert a + p + b + q + c == a + (p + (b + (q + c)));
    LinesOfWhole(a, p + (b + (q + c)), NEWLINE);
    LinesOfWhole(p, b + (q + c), NEWLINE);
    LinesOfWhole(b, q + c, NEWLINE);
    LinesOfWhole(q, c, NEWLINE);
    head := la + [p] + lb + [q];
    assert la + ([p] + (lb + ([q] + Lines(c, NEWLINE)))) == head + Lines(c, NEWLINE);
    NoSeparatorsCounted(a);
    NoSeparatorsCounted(b);
    NoSeparatorsCounted(c);
    SeparatorsAppend(la, p);
    SeparatorsSum(la + [p], lb);
    SeparatorsAppend(la + [p] + lb, q);
  }

  lemma SeparatorsAppend(lines: seq<seq<u8>>, p: seq<u8>)
    requires IsSeparator(p)
    ensures Separators(lines + [p]) == Separators(lines) + 1
  {
    assert (lines + [p])[..|lines|] == lines;
  }

  lemma AllOfOne(s: seq<u8>)
    requires 0 !in s
    ensures AllLines([s]) == Lines(s, NEWLINE)
  {
    assert AllLines([]) == [] && [s][..0] == [];
    LexLinesAreLines(s, CHUNK_SIZE);
  }

  /** Behind the second separator everything is copied. */
  lemma CopiedSection(files: seq<seq<u8>>, a: seq<u8>, p: seq<u8>, b: seq<u8>, q: seq<u8>, c: seq<u8>)
    requires TwoSeparators(files, a, p, b, q, c)
    ensures Separators(AllLines(files)) == 2
    ensures Concat(AfterSeparators(AllLines(files), 2)) == c
  {
    hide Lines, Separators, AfterSeparators, Concat, IsSeparator, NoSeparators, SeparatorLine, AllLines;
    AllOfOne(files[0]);
    var head := LinesOfSections(a, p, b, q, c);
    SeparatorsSum(head, Lines(c, NEWLINE));
    AfterExactly(head, Lines(c, NEWLINE), 2);
    LinesPartition(c, NEWLINE);
  }

  /** A third separator may be the last line, and not another one. */
  lemma ThirdSeparatorLast(files: seq<seq<u8>>, a: seq<u8>, p: seq<u8>, b: seq<u8>, q: seq<u8>, c: seq<u8>,
                           r: seq<u8>, d: seq<u8>)
    requires ThreeSeparators(files, a, p, b, q, c, r, d)
    ensures Defined(AllLines(files)) <==> d == []
  {
    hide Lines, Separators, Concat, IsSeparator, NoSeparators, SeparatorLine, AllLines, IsPartition;
    AllOfOne(files[0]);
    var s := a + p + b + q + c;
    assert s + r + d == s + (r + d);
    var head := LinesOfSections(a, p, b, q, c);
    SeparatorsSum(head, Lines(c, NEWLINE));
    SeparatorLineIs(r);
    WholeFront(a + p + b, q, c);
    LinesOfWhole(s, r + d, NEWLINE);
    LineEnds(r);
    LinesOfWhole(r, d, NEWLINE);
    var before := Lines(s, NEWLINE);
    assert before + ([r] + Lines(d, NEWLINE)) == before + [r] + Lines(d, NEWLINE);
    SeparatorsAppend(before, r);
    ThirdLast(before, r, Lines(d, NEWLINE));
    NoLinesIff(d);
  }

  lemma WholeFront(front: seq<u8>, q: seq<u8>, c: seq<u8>)
    requires WholeLines(c) && SeparatorLine(q)
    ensures WholeLines(front + q + c)
  {
  }

  lemma LineEnds(r: seq<u8>)
    requires SeparatorLine(r)
    ensures r != [] && r[|r| - 1] == NEWLINE
  {
  }

  lemma NoLinesIff(d: seq<u8>)
    ensures Lines(d, NEWLINE) == [] <==> d == []
  {
  }

  lemma ThirdLast(before: seq<seq<u8>>, r: seq<u8>, after: seq<seq<u8>>)
    requires Separators(before) == 2 && Separators(before + [r]) == 3
    ensures Defined(before + [r] + after) <==> after == []
  {
    hide Separators;
    var all := before + [r] + after;
    if after == [] {
      assert all[..|all| - 1] == before;
    } else {
      var n := |after| - 1;
      assert all[..|all| - 1] == before + [r] + after[..n];
      SeparatorsPrefix(before + [r], after[..n]);
    }
  }

  /** The main loop over the input files. */
  method Run(files: seq<seq<u8>>) returns (defined: bool, section: nat, out: seq<u8>)
    ensures defined <==> Defined(AllLines(files))
    ensures defined ==> section == Separators(AllLines(files)) && out == Concat(Copied(AllLines(files)))
    ensures Separators(AllLines(files)) <= SECTION_MAX ==>
              defined && section <= SECTION_MAX && out == Concat(AfterSeparators(AllLines(files), 2))
    ensures (forall i :: 0 <= i < |files| ==> 0 !in files[i]) ==> AllLines(files) == TextOf(files)
    ensures forall a, p, b, q, c :: TwoSeparators(files, a, p, b, q, c) ==> defined && section == 2 && out == c
    ensures forall a, p, b, q, c, r, d :: ThreeSeparators(files, a, p, b, q, c, r, d) ==> (defined <==> d == [])
  {
    hide LexLines, Separators, Copied, Concat, Defined, Lex.Valid, TwoSeparators, ThreeSeparators;
    forall a, p, b, q, c | TwoSeparators(files, a, p, b, q, c)
      ensures Separators(AllLines(files)) == 2 && Concat(AfterSeparators(AllLines(files), 2)) == c
    {
      CopiedSection(files, a, p, b, q, c);
    }
    forall a, p, b, q, c, r, d | ThreeSeparators(files, a, p, b, q, c, r, d)
      ensures Defined(AllLines(files)) <==> d == []
    {
      ThirdSeparatorLast(files, a, p, b, q, c, r, d);
    }
    NoLines();
    if forall i :: 0 <= i < |files| ==> 0 !in files[i] {
      AllLinesAreText(files);
    }
    var lex := new Lex();
    section, out := 0, [];
    assert files[..|files|] == files;
    for i := 0 to |files|
      invariant fresh(lex) && lex.Valid() && Defined(lex.seen) && lex.seen == AllLines(files[..i])
    {
      var fp := new Stream(files[i]);
      assert fp.Rest() == files[i] && files[..i + 1][..i] == files[..i];
      defined := lex.Parse(fp);
      if !defined {
        UndefinedRun(files, i + 1);
        return;
      }
    }
    lex.Facts();
    return true, lex.section, lex.out;
  }

  lemma NoLines()
    ensures Defined([])
  {
  }

  /** A run that is undefined after some of the files is undefined, and has met three separators. */
  lemma UndefinedRun(files: seq<seq<u8>>, i: nat)
    requires i <= |files| && !Defined(AllLines(files[..i]))
    ensures !Defined(AllLines(files)) && Separators(AllLines(files)) > SECTION_MAX
  {
    hide AllLines, Defined, Separators;
    AllLinesPrefix(files, i);
    UndefinedPrefix(AllLines(files[..i]), AllLines(files));
  }

  lemma UndefinedPrefix(lines: seq<seq<u8>>, all: seq<seq<u8>>)
    requires !Defined(lines) && lines <= all
    ensures !Defined(all) && Separators(all) > SECTION_MAX
  {
    hide Separators;
    assert all == lines + all[|lines|..];
    UndefinedStays(lines, all[|lines|..]);
    SeparatorsPrefix(all[..|all| - 1], all[|all| - 1..]);
    assert all == all[..|all| - 1] + all[|all| - 1..];
  }

  lemma {:induction false} AllLinesPrefix(files: seq<seq<u8>>, i: nat)
    requires i <= |files|
    ensures AllLines(files[..i]) <= AllLines(files)
  {
    if i == |files| {
      assert files[..i] == files;
    } else {
      AllLinesPrefix(files[..|files| - 1], i);
      assert files[..|files| - 1][..i] == files[..i];
    }
  }
}
