/** What the shell's input means: logical lines, and the arguments on a line. */
module ShellText {

  import opened Machine
  import opened TextLines

  const SPACE: u8 := 32
  const TAB: u8 := 9
  const BACKSLASH: u8 := 92

  predicate Blank(c: u8) {
    c == SPACE || c == TAB
  }

  datatype Item = Text(c: u8) | End

  /** Escapes resolved two characters at a time; a lone backslash at the end is nothing. */
  function Unescape(input: seq<u8>): seq<Item> {
    if input == [] then []
    else if input[0] == BACKSLASH then
      if |input| == 1 then []
      else (if input[1] == NEWLINE then [] else [Text(input[1])]) + Unescape(input[2..])
    else [if input[0] == NEWLINE then End else Text(input[0])] + Unescape(input[1..])
  }

  /** The lines that are ended, the first of them starting with `current`. */
  function Ended(items: seq<Item>, current: seq<u8>): seq<seq<u8>> {
    if items == [] then []
    else if items[0].End? then [current] + Ended(items[1..], [])
    else Ended(items[1..], current + [items[0].c])
  }

  function LogicalLines(input: seq<u8>): seq<seq<u8>> {
    Ended(Unescape(input), [])
  }

  /** The lines still to come for a reader that may have just met a backslash. */
  function Pending(escape: bool, rest: seq<u8>, current: seq<u8>): seq<seq<u8>> {
    Ended(Unescape(if escape then [BACKSLASH] + rest else rest), current)
  }

  /** What one character does to a reader. */
  lemma PendingStep(escape: bool, rest: seq<u8>, current: seq<u8>)
    requires rest != []
    ensures var c, tail := rest[0], rest[1..];
            Pending(escape, rest, current) ==
            if escape then Pending(false, tail, if c == NEWLINE then current else current + [c])
            else if c == NEWLINE then [current] + Pending(false, tail, [])
            else if c == BACKSLASH then Pending(true, tail, current)
            else Pending(false, tail, current + [c])
  {
    var c, tail := rest[0], rest[1..];
    EndedItem(Text(c), Unescape(tail), current);
    EndedItem(End, Unescape(tail), current);
    if escape {
      assert ([BACKSLASH] + rest)[2..] == tail;
      assert [] + Unescape(tail) == Unescape(tail);
    } else {
      assert c == BACKSLASH ==> [BACKSLASH] + tail == rest;
    }
  }

  lemma EndedItem(item: Item, items: seq<Item>, current: seq<u8>)
    ensures Ended([item] + items, current)
         == if item.End? then [current] + Ended(items, []) else Ended(items, current + [item.c])
  {
    assert ([item] + items)[1..] == items;
  }

  lemma PendingEnd(escape: bool, current: seq<u8>)
    ensures Pending(escape, [], current) == []
  {
    assert [BACKSLASH] + [] == [BACKSLASH];
  }

  /** An argument starts at a non-blank that is first or follows a blank. */
  predicate IsStart(t: seq<u8>, p: nat)
    requires p < |t|
  {
    !Blank(t[p]) && (p == 0 || Blank(t[p - 1]))
  }

  /** The starts from index `i` on. */
  function Starts(t: seq<u8>, i: nat): (starts: seq<nat>)
    requires i <= |t|
    ensures forall k :: 0 <= k < |starts| ==> i <= starts[k] < |t| && IsStart(t, starts[k])
    decreases |t| - i
  {
    if i == |t| then [] else (if IsStart(t, i) then [i] else []) + Starts(t, i + 1)
  }

  lemma StartsEnd(t: seq<u8>)
    ensures Starts(t, |t|) == []
  {
  }

  /** Moving past one index moves its start, if it is one, to those already found. */
  lemma StartsStep(done: seq<int>, t: seq<u8>, i: nat)
    requires i < |t|
    ensures done + Starts(t, i) == (if IsStart(t, i) then done + [i] else done) + Starts(t, i + 1)
  {
  }

  /**
   Pointers to exactly the characters that are neither space nor tab and come
   first or behind one of these, in ascending order.
   */
  predicate PointsAtArguments(t: seq<u8>, pointers: seq<int>) {
    && (forall j :: 0 <= j < |pointers| ==> 0 <= pointers[j] < |t|)
    && Ascending(pointers)
    && (forall k :: 0 <= k < |t| ==>
          (k in pointers <==> t[k] != 32 && t[k] != 9 && (k == 0 || t[k - 1] == 32 || t[k - 1] == 9)))
  }

  lemma {:induction false} StartsFrom(t: seq<u8>, i: nat)
    requires i <= |t|
    ensures Ascending(Starts(t, i))
    ensures forall k :: i <= k < |t| ==> (k in Starts(t, i) <==> IsStart(t, k))
    decreases |t| - i
  {
    hide IsStart, Starts;
    StartsAt(t, i);
    if i < |t| {
      StartsFrom(t, i + 1);
    }
  }

  predicate Ascending(pointers: seq<int>) {
    forall j :: 0 < j < |pointers| ==> pointers[j - 1] < pointers[j]
  }

  lemma StartsAt(t: seq<u8>, i: nat)
    requires i <= |t|
    ensures i == |t| ==> Starts(t, i) == []
    ensures i < |t| && !IsStart(t, i) ==> Starts(t, i) == Starts(t, i + 1)
    ensures i < |t| && IsStart(t, i) && Ascending(Starts(t, i + 1)) ==>
              Ascending(Starts(t, i)) && forall k :: k in Starts(t, i) <==> k == i || k in Starts(t, i + 1)
    ensures forall k :: k in Starts(t, i) ==> i <= k
  {
    if i < |t| && IsStart(t, i) {
      ConsMembers(i, Starts(t, i + 1));
    }
  }

  lemma ConsMembers(i: int, later: seq<int>)
    ensures forall k :: k in [i] + later <==> k == i || k in later
    ensures Ascending(later) && (forall j :: 0 <= j < |later| ==> i < later[j]) ==> Ascending([i] + later)
  {
  }

  lemma StartsPoint(t: seq<u8>)
    ensures PointsAtArguments(t, Starts(t, 0))
  {
    StartsFrom(t, 0);
    assert forall k :: 0 <= k < |t| ==>
      (IsStart(t, k) <==> t[k] != 32 && t[k] != 9 && (k == 0 || t[k - 1] == 32 || t[k - 1] == 9));
  }

  /** The bytes up to the first blank or NUL. */
  function Run(s: seq<u8>): (w: seq<u8>)
    ensures w <= s && (forall i :: 0 <= i < |w| ==> !Blank(w[i]) && w[i] != 0)
    ensures |w| < |s| ==> Blank(s[|w|]) || s[|w|] == 0
  {
    if s == [] || Blank(s[0]) || s[0] == 0 then [] else [s[0]] + Run(s[1..])
  }

  /** The arguments of a terminated line. */
  function Arguments(t: seq<u8>): seq<seq<u8>> {
    Texts(t, Starts(t, 0))
  }

  function Texts(t: seq<u8>, starts: seq<nat>): seq<seq<u8>>
    requires forall k :: 0 <= k < |starts| ==> starts[k] < |t|
  {
    seq(|starts|, (k: nat) requires k < |starts| => Run(t[starts[k]..]))
  }

  /**
   Words of a line, by cutting off one maximal run after another. The end of
   the line counts as one more character, so a line that is empty or ends in
   a blank has an empty last word.
   */
  function Words(s: seq<u8>): seq<seq<u8>>
    decreases |s|
  {
    if s == [] then [[]]
    else if Blank(s[0]) then Words(s[1..])
    else if |Run(s)| == 0 || |Run(s)| == |s| then [Run(s)]
    else [Run(s)] + Words(s[|Run(s)|..])
  }

  lemma RunOfTerminated(s: seq<u8>)
    requires 0 !in s
    ensures Run(s + [0]) == Run(s)
    decreases |s|
  {
    if s == [] || Blank(s[0]) {
    } else {
      assert (s + [0])[1..] == s[1..] + [0];
      RunOfTerminated(s[1..]);
    }
  }

  /** No argument starts inside a run. */
  lemma {:induction false} SkipRun(t: seq<u8>, i: nat, j: nat)
    requires 0 < i <= j <= |t| && forall k :: i - 1 <= k < j - 1 ==> !Blank(t[k])
    ensures Starts(t, i) == Starts(t, j)
    decreases j - i
  {
    if i < j {
      SkipRun(t, i + 1, j);
    }
  }

  /** Behind a blank, and at the front, the arguments are the words of the rest. */
  lemma {:induction false} WordsFrom(line: seq<u8>, i: nat)
    requires 0 !in line && i <= |line| && (i == 0 || Blank(line[i - 1]))
    ensures Texts(line + [0], Starts(line + [0], i)) == Words(line[i..])
    decreases |line| - i
  {
    hide Words, Starts, Texts, Run;
    var t, s := line + [0], line[i..];
    TailOfTerminated(line, i);
    StartHere(line, i);
    if i == |line| {
    } else if Blank(s[0]) {
      WordsFromBlank(line, i);
      WordsFrom(line, i + 1);
    } else {
      var j := i + |Run(s)|;
      RunInLine(line, i);
      WordsHere(s);
      TextsCons(t, i, Starts(t, i + 1));
      SkipRun(t, i + 1, if j == |line| then |t| else j);
      if j < |line| {
        WordsFromBlank(line, j);
        WordsFrom(line, j + 1);
        assert s[|Run(s)|..] == line[j..];
      }
    }
  }

  lemma StartHere(line: seq<u8>, i: nat)
    requires 0 !in line && i <= |line| && (i == 0 || Blank(line[i - 1]))
    ensures var t := line + [0]; Starts(t, |t|) == [] && Texts(t, []) == []
    ensures var t := line + [0]; i < |line| && !Blank(line[i]) ==> Starts(t, i) == [i] + Starts(t, i + 1)
    ensures var t := line + [0]; i == |line| ==> Texts(t, Starts(t, i)) == [[]] && Words(line[i..]) == [[]]
  {
    var t := line + [0];
    assert i == |line| ==> Starts(t, i) == [i] + Starts(t, i + 1);
  }

  lemma WordsHere(s: seq<u8>)
    requires s != [] && !Blank(s[0]) && |Run(s)| > 0
    ensures Words(s) == [Run(s)] + if |Run(s)| == |s| then [] else Words(s[|Run(s)|..])
  {
  }

  /** A blank adds nothing to either side. */
  lemma WordsFromBlank(line: seq<u8>, j: nat)
    requires j < |line| && Blank(line[j])
    ensures Starts(line + [0], j) == Starts(line + [0], j + 1)
    ensures Words(line[j..]) == Words(line[j + 1..])
  {
    assert line[j..][1..] == line[j + 1..];
  }

  lemma TailOfTerminated(line: seq<u8>, i: nat)
    requires 0 !in line && i <= |line|
    ensures (line + [0])[i..] == line[i..] + [0] && Run((line + [0])[i..]) == Run(line[i..])
  {
    assert (line + [0])[i..] == line[i..] + [0];
    RunOfTerminated(line[i..]);
  }

  lemma RunInLine(line: seq<u8>, i: nat)
    requires 0 !in line && i < |line| && !Blank(line[i])
    ensures var j := i + |Run(line[i..])|;
            && i < j <= |line| && (forall k :: i <= k < j ==> !Blank(line[k])) && (j < |line| ==> Blank(line[j]))
  {
    var s, w := line[i..], Run(line[i..]);
    assert s[0] in line;
    assert forall k :: i <= k < i + |w| ==> line[k] == w[k - i];
    assert |w| < |s| ==> s[|w|] in line;
  }

  lemma TextsCons(t: seq<u8>, i: nat, starts: seq<nat>)
    requires i < |t| && forall k :: 0 <= k < |starts| ==> starts[k] < |t|
    ensures Texts(t, [i] + starts) == [Run(t[i..])] + Texts(t, starts)
  {
  }

  /** The argument vector of a NUL-free line holds its words. */
  lemma ArgumentsAreWords(line: seq<u8>)
    requires 0 !in line
    ensures Arguments(line + [0]) == Words(line)
  {
    WordsFrom(line, 0);
    assert line[0..] == line;
  }

  predicate Solid(w: seq<u8>) {
    forall i :: 0 <= i < |w| ==> !Blank(w[i])
  }

  /** Strings without space, tab or NUL. */
  predicate NoBlanks(words: seq<seq<u8>>) {
    forall i :: 0 <= i < |words| ==> 32 !in words[i] && 9 !in words[i] && 0 !in words[i]
  }

  lemma ArgumentsPlain(t: seq<u8>)
    ensures NoBlanks(Arguments(t))
  {
    hide Starts, Run;
    var starts, args := Starts(t, 0), Arguments(t);
    forall i | 0 <= i < |args| ensures 32 !in args[i] && 9 !in args[i] && 0 !in args[i] {
      RunPlain(t[starts[i]..]);
    }
  }

  lemma RunPlain(s: seq<u8>)
    ensures 32 !in Run(s) && 9 !in Run(s) && 0 !in Run(s)
  {
    assert Blank(32) && Blank(9);
  }

  /** Spaces and tabs. */
  predicate Gap(g: seq<u8>) {
    forall i :: 0 <= i < |g| ==> g[i] == 32 || g[i] == 9
  }

  /** Words with a gap before each. */
  function Spaced(gaps: seq<seq<u8>>, words: seq<seq<u8>>): seq<u8>
    requires |gaps| == |words|
  {
    if words == [] then [] else gaps[0] + words[0] + Spaced(gaps[1..], words[1..])
  }

  /**
   However a line is spaced, its arguments are its words: gaps of spaces and
   tabs, of which the first may be empty, before words that hold neither.
   */
  lemma ArgumentsOfSpaced(gaps: seq<seq<u8>>, words: seq<seq<u8>>)
    requires |gaps| == |words| >= 1 && NoBlanks(words)
    requires forall i :: 0 <= i < |words| ==> Gap(gaps[i]) && words[i] != [] && (i > 0 ==> gaps[i] != [])
    ensures Arguments(Spaced(gaps, words) + [0]) == words
  {
    SpacedPlain(gaps, words);
    ArgumentsAreWords(Spaced(gaps, words));
    WordsOfSpaced(gaps, words);
  }

  lemma {:induction false} SpacedPlain(gaps: seq<seq<u8>>, words: seq<seq<u8>>)
    requires |gaps| == |words| && NoBlanks(words) && forall i :: 0 <= i < |words| ==> Gap(gaps[i])
    ensures 0 !in Spaced(gaps, words)
  {
    if words != [] {
      SpacedPlain(gaps[1..], words[1..]);
      assert Gap(gaps[0]) && 0 !in words[0];
    }
  }

  lemma {:induction false} WordsOfSpaced(gaps: seq<seq<u8>>, words: seq<seq<u8>>)
    requires |gaps| == |words| >= 1 && NoBlanks(words)
    requires forall i :: 0 <= i < |words| ==> Gap(gaps[i]) && words[i] != [] && (i > 0 ==> gaps[i] != [])
    ensures Words(Spaced(gaps, words)) == words
  {
    hide Words;
    var w, rest := words[0], Spaced(gaps[1..], words[1..]);
    var s := w + rest;
    assert Spaced(gaps, words) == gaps[0] + s;
    WordsBehindGap(gaps[0], s);
    assert Gap(gaps[0]);
    if |words| == 1 {
      assert rest == [] && s == w;
    } else {
      WordsOfSpaced(gaps[1..], words[1..]);
      assert Gap(gaps[1]) && gaps[1] != [] && rest[0] == gaps[1][0];
    }
    PlainRun(w, rest);
    WordsHere(s);
    assert s[|w|..] == rest;
  }

  lemma {:induction false} WordsBehindGap(gap: seq<u8>, s: seq<u8>)
    requires Gap(gap)
    ensures Words(gap + s) == Words(s)
  {
    if gap == [] {
      assert gap + s == s;
    } else {
      assert (gap + s)[0] == gap[0] && (gap + s)[1..] == gap[1..] + s;
      WordsOfBlank(gap + s);
      WordsBehindGap(gap[1..], s);
    }
  }

  lemma {:induction false} PlainRun(w: seq<u8>, tail: seq<u8>)
    requires 32 !in w && 9 !in w && 0 !in w && (tail != [] ==> tail[0] == 32 || tail[0] == 9)
    ensures Run(w + tail) == w
    ensures w != [] ==> !Blank(w[0])
  {
    if w == [] {
      assert w + tail == tail;
    } else {
      assert (w + tail)[1..] == w[1..] + tail;
      PlainRun(w[1..], tail);
    }
  }

  /** Words hold no blanks, only the last can be empty, and it is exactly behind a blank or on an empty line. */
  lemma {:induction false} WordsShape(s: seq<u8>)
    requires 0 !in s
    ensures |Words(s)| >= 1
    ensures forall i :: 0 <= i < |Words(s)| ==> Solid(Words(s)[i])
    ensures forall i :: 0 <= i < |Words(s)| - 1 ==> Words(s)[i] != []
    ensures Words(s)[|Words(s)| - 1] == [] <==> s == [] || Blank(s[|s| - 1])
    decreases |s|
  {
    hide Words, Run, Solid;
    WordsOfBlank(s);
    if s == [] {
    } else if Blank(s[0]) {
      WordsShape(s[1..]);
      LastOfTail(s, 1);
    } else {
      assert s[0..] == s;
      RunInLine(s, 0);
      WordsHere(s);
      RunIsSolid(s);
      if |Run(s)| < |s| {
        WordsShape(s[|Run(s)|..]);
        LastOfTail(s, |Run(s)|);
      }
    }
  }

  lemma WordsOfBlank(s: seq<u8>)
    ensures s == [] ==> Words(s) == [[]]
    ensures s != [] && Blank(s[0]) ==> Words(s) == Words(s[1..])
    ensures Solid([])
  {
  }

  lemma RunIsSolid(s: seq<u8>)
    ensures Solid(Run(s))
  {
  }

  lemma LastOfTail(s: seq<u8>, n: nat)
    requires n <= |s|
    ensures n < |s| ==> s[n..][|s| - n - 1] == s[|s| - 1]
    ensures forall c :: c in s[n..] ==> c in s
  {
  }

  /** Words are made of the line's characters. */
  lemma {:induction false} WordsMembers(s: seq<u8>, c: u8)
    requires 0 !in s && c !in s
    ensures forall i :: 0 <= i < |Words(s)| ==> c !in Words(s)[i]
    decreases |s|
  {
    if s != [] {
      if Blank(s[0]) {
        WordsMembers(s[1..], c);
      } else {
        var w := Run(s);
        RunInLine(s, 0);
        assert s[0..] == s;
        assert c !in w by {
          assert forall i :: 0 <= i < |w| ==> w[i] == s[i];
        }
        if |w| < |s| {
          WordsMembers(s[|w|..], c);
        }
        WordsHere(s);
      }
    }
  }

  /** The first start is the least. */
  lemma {:induction false} FirstStart(t: seq<u8>, i: nat)
    requires i <= |t|
    ensures forall k :: 0 <= k < |Starts(t, i)| ==> Starts(t, i)[0] <= Starts(t, i)[k]
    decreases |t| - i
  {
    if i < |t| && !IsStart(t, i) {
      FirstStart(t, i + 1);
      assert Starts(t, i) == Starts(t, i + 1);
    }
  }

  /** Characters and line ends of some lines. */
  function Size(lines: seq<seq<u8>>): nat {
    if lines == [] then 0 else |lines[0]| + 1 + Size(lines[1..])
  }

  lemma {:induction false} EndedSize(items: seq<Item>, current: seq<u8>)
    ensures Size(Ended(items, current)) <= |items| + |current|
  {
    if items != [] {
      if items[0].End? {
        EndedSize(items[1..], []);
        var more := Ended(items[1..], []);
        assert ([current] + more)[1..] == more;
      } else {
        EndedSize(items[1..], current + [items[0].c]);
      }
    }
  }

  /** Every backslash costs a character. */
  lemma {:induction false} UnescapeSize(input: seq<u8>)
    ensures |Unescape(input)| <= |input|
    ensures BACKSLASH in input ==> |Unescape(input)| < |input|
  {
    if input != [] {
      if input[0] != BACKSLASH {
        UnescapeSize(input[1..]);
        assert BACKSLASH in input ==> BACKSLASH in input[1..];
      } else if |input| > 1 {
        UnescapeSize(input[2..]);
      }
    }
  }

  predicate TextIn(items: seq<Item>, input: seq<u8>) {
    forall i :: 0 <= i < |items| && items[i].Text? ==> items[i].c in input && items[i].c != NEWLINE
  }

  lemma {:induction false} UnescapeTexts(input: seq<u8>)
    ensures TextIn(Unescape(input), input)
  {
    if input != [] {
      if input[0] != BACKSLASH {
        UnescapeTexts(input[1..]);
      } else if |input| > 1 {
        UnescapeTexts(input[2..]);
      }
    }
  }

  predicate LineOf(line: seq<u8>, input: seq<u8>) {
    forall c :: c in line ==> c in input && c != NEWLINE
  }

  /** Lines consist of input characters, and none is a newline. */
  lemma {:induction false} EndedMembers(items: seq<Item>, current: seq<u8>, input: seq<u8>)
    requires TextIn(items, input) && LineOf(current, input)
    ensures forall i :: 0 <= i < |Ended(items, current)| ==> LineOf(Ended(items, current)[i], input)
  {
    if items != [] {
      assert TextIn(items[1..], input) by {
        assert forall i :: 0 <= i < |items| - 1 ==> items[1..][i] == items[i + 1];
      }
      assert items[0].Text? ==> items[0].c in input && items[0].c != NEWLINE;
      if items[0].End? {
        EndedMembers(items[1..], [], input);
      } else {
        EndedMembers(items[1..], current + [items[0].c], input);
      }
    }
  }

  lemma LinesMembers(input: seq<u8>)
    ensures forall i :: 0 <= i < |LogicalLines(input)| ==> LineOf(LogicalLines(input)[i], input)
  {
    UnescapeTexts(input);
    EndedMembers(Unescape(input), [], input);
  }

  lemma LinesSize(input: seq<u8>)
    ensures Size(LogicalLines(input)) <= |input|
    ensures BACKSLASH in input ==> Size(LogicalLines(input)) < |input|
  {
    UnescapeSize(input);
    EndedSize(Unescape(input), []);
  }

  /** Characters other than backslash and newline are read as they are. */
  lemma {:induction false} PlainText(s: seq<u8>, rest: seq<u8>, current: seq<u8>)
    requires 10 !in s && 92 !in s
    ensures Ended(Unescape(s + rest), current) == Ended(Unescape(rest), current + s)
  {
    if s == [] {
      assert s + rest == rest && current + s == current;
    } else {
      assert (s + rest)[0] == s[0] && (s + rest)[1..] == s[1..] + rest;
      EndedItem(Text(s[0]), Unescape(s[1..] + rest), current);
      PlainText(s[1..], rest, current + [s[0]]);
      assert current + [s[0]] + s[1..] == current + s;
    }
  }

  /**
   The reader in bytes: 10 ends a line; 92 and 10 join two; 92 and any other
   byte put that byte into the line.
   */
  lemma LogicalLinesOf(a: seq<u8>, c: u8, b: seq<u8>, rest: seq<u8>)
    requires 10 !in a && 92 !in a && 10 !in b && 92 !in b
    ensures LogicalLines(a + [10] + rest) == [a] + LogicalLines(rest)
    ensures LogicalLines(a + [92, c] + b + [10] + rest) == [if c == 10 then a + b else a + [c] + b] + LogicalLines(rest)
    ensures LogicalLines(a) == [] && LogicalLines(a + [92]) == []
  {
    hide Unescape, Ended;
    EndsLine(a, rest, []);
    assert [] + a == a;
    var tail := b + [10] + rest;
    assert a + [92, c] + b + [10] + rest == a + ([92, c] + tail);
    PlainText(a, [92, c] + tail, []);
    EscapedByte(c, tail, a);
    EndsLine(b, rest, if c == 10 then a else a + [c]);
    PlainText(a, [], []);
    PlainText(a, [92], []);
    assert a + [] == a;
    NothingEnds(a);
  }

  lemma EndsLine(s: seq<u8>, rest: seq<u8>, current: seq<u8>)
    requires 10 !in s && 92 !in s
    ensures Ended(Unescape(s + [10] + rest), current) == [current + s] + LogicalLines(rest)
  {
    assert s + [10] + rest == s + ([10] + rest);
    PlainText(s, [10] + rest, current);
    assert ([10] + rest)[1..] == rest;
    EndedItem(End, Unescape(rest), current + s);
  }

  lemma EscapedByte(c: u8, tail: seq<u8>, current: seq<u8>)
    ensures Ended(Unescape([92, c] + tail), current) == Ended(Unescape(tail), if c == 10 then current else current + [c])
  {
    assert ([92, c] + tail)[2..] == tail;
    assert [] + Unescape(tail) == Unescape(tail);
    EndedItem(Text(c), Unescape(tail), current);
  }

  lemma NothingEnds(current: seq<u8>)
    ensures Ended(Unescape([]), current) == [] && Ended(Unescape([92]), current) == []
  {
  }

  /** A backslash before every character. */
  function Quote(line: seq<u8>): seq<u8> {
    if line == [] then [] else [BACKSLASH, line[0]] + Quote(line[1..])
  }

  lemma {:induction false} QuoteReads(line: seq<u8>, current: seq<u8>)
    requires NEWLINE !in line
    ensures Ended(Unescape(Quote(line) + [NEWLINE]), current) == [current + line]
  {
    var t := Quote(line) + [NEWLINE];
    if line == [] {
      assert t == [NEWLINE] && t[1..] == [];
      EndedItem(End, [], current);
      assert current + line == current;
    } else {
      assert t[2..] == Quote(line[1..]) + [NEWLINE];
      QuoteReads(line[1..], current + [line[0]]);
      EndedItem(Text(line[0]), Unescape(t[2..]), current);
      assert current + [line[0]] + line[1..] == current + line;
    }
  }

  /** Exactly the lines without a newline can be entered. */
  lemma EnterableIff(line: seq<u8>)
    ensures (exists input :: LogicalLines(input) == [line]) <==> NEWLINE !in line
  {
    if NEWLINE !in line {
      QuoteReads(line, []);
      assert [] + line == line;
      assert LogicalLines(Quote(line) + [NEWLINE]) == [line];
    }
    if input :| LogicalLines(input) == [line] {
      LinesMembers(input);
      assert LineOf(LogicalLines(input)[0], input);
    }
  }
}
