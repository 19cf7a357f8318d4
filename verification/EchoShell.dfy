/** echo as the printer for the shell's reader and splitter. */
module EchoShell {

  import opened Machine
  import opened TextLines
  import opened ShellText
  import Shell

  /** What echo prints: words separated by spaces and ended by a newline. */
  function EchoText(words: seq<seq<u8>>): seq<u8> {
    if words == [] then []
    else words[0] + [if |words| == 1 then NEWLINE else SPACE] + EchoText(words[1..])
  }

  function Join(words: seq<seq<u8>>): seq<u8> {
    if words == [] then []
    else if |words| == 1 then words[0]
    else words[0] + [SPACE] + Join(words[1..])
  }

  /** The loop of echo over its arguments, the first of which is its name. */
  method Echo(argv: seq<seq<u8>>) returns (out: seq<u8>)
    requires argv != []
    ensures out == EchoText(argv[1..])
  {
    hide EchoText;
    var argc := |argv| - 1;
    out := [];
    assert out + EchoText(argv[1..]) == EchoText(argv[1..]);
    var i := 1;
    while i <= argc
      invariant 1 <= i <= argc + 1
      invariant out + EchoText(argv[i..]) == EchoText(argv[1..])
    {
      EchoStep(out, argv, i);
      out := out + argv[i] + [if i == argc then NEWLINE else SPACE];
      i := i + 1;
    }
    EchoEnd(out, argv);
  }

  /** One argument and the character behind it. */
  lemma EchoStep(out: seq<u8>, argv: seq<seq<u8>>, i: nat)
    requires i < |argv|
    ensures out + EchoText(argv[i..]) ==
            out + argv[i] + [if i == |argv| - 1 then NEWLINE else SPACE] + EchoText(argv[i + 1..])
  {
    var words := argv[i..];
    assert words[0] == argv[i] && words[1..] == argv[i + 1..];
    var end := [if i == |argv| - 1 then NEWLINE else SPACE];
    assert EchoText(words) == argv[i] + end + EchoText(argv[i + 1..]);
  }

  lemma EchoEnd(out: seq<u8>, argv: seq<seq<u8>>)
    ensures out + EchoText(argv[|argv|..]) == out
  {
  }

  /** echo's output in bytes: 32 between words and 10 at the end. */
  lemma EchoBytes(words: seq<seq<u8>>)
    ensures EchoText([]) == []
    ensures |words| == 1 ==> EchoText(words) == words[0] + [10]
    ensures |words| > 1 ==> EchoText(words) == words[0] + [32] + EchoText(words[1..])
  {
    assert |words| == 1 ==> EchoText(words[1..]) == [];
  }

  lemma {:induction false} EchoIsJoin(words: seq<seq<u8>>)
    requires words != []
    ensures EchoText(words) == Join(words) + [NEWLINE]
  {
    if |words| == 1 {
      assert EchoText(words[1..]) == [];
    } else {
      EchoIsJoin(words[1..]);
    }
  }

  /** Feeding echo's output to the shell gives one command with exactly these words. */
  predicate RoundTrips(words: seq<seq<u8>>) {
    var lines := LogicalLines(EchoText(words));
    |lines| == 1 && Arguments(lines[0] + [0]) == words
  }

  /** No tab, newline, space or backslash. */
  predicate PlainWord(w: seq<u8>) {
    9 !in w && 10 !in w && 32 !in w && 92 !in w
  }

  /** At least one word, no tab, newline, space or backslash in any, and none empty but perhaps the last. */
  predicate Clean(words: seq<seq<u8>>) {
    && words != []
    && (forall i :: 0 <= i < |words| ==> PlainWord(words[i]))
    && (forall i :: 0 <= i < |words| - 1 ==> words[i] != [])
  }

  /** A line without newline and backslash is read as it is. */
  lemma {:induction false} PlainLine(s: seq<u8>, current: seq<u8>)
    requires NEWLINE !in s && BACKSLASH !in s
    ensures Ended(Unescape(s + [NEWLINE]), current) == [current + s]
  {
    var t := s + [NEWLINE];
    if s == [] {
      assert t[1..] == [];
      EndedItem(End, [], current);
      assert current + s == current;
    } else {
      assert t[1..] == s[1..] + [NEWLINE];
      PlainLine(s[1..], current + [s[0]]);
      EndedItem(Text(s[0]), Unescape(t[1..]), current);
      assert current + [s[0]] + s[1..] == current + s;
    }
  }

  /** Splitting a joined line gives back the words. */
  lemma {:induction false} WordsOfJoin(words: seq<seq<u8>>)
    requires Clean(words) && forall i :: 0 <= i < |words| ==> 0 !in words[i]
    ensures Words(Join(words)) == words
  {
    var w := words[0];
    if |words| == 1 {
      PlainRun(w, []);
      assert w + [] == w;
      WordsOfBlank(w);
      if w != [] {
        WordsHere(w);
      }
    } else {
      var rest := [SPACE] + Join(words[1..]);
      var s := w + rest;
      assert s == Join(words);
      PlainRun(w, rest);
      WordsHere(s);
      assert s[|w|..] == rest && rest[1..] == Join(words[1..]);
      WordsOfBlank(rest);
      WordsOfJoin(words[1..]);
    }
  }

  lemma {:induction false} MembersOfJoin(words: seq<seq<u8>>, c: u8)
    ensures c in EchoText(words) <==> c in Separated(words) || exists i :: 0 <= i < |words| && c in words[i]
  {
    if words != [] {
      MembersOfJoin(words[1..], c);
      assert forall i :: 1 <= i < |words| ==> words[i] == words[1..][i - 1];
      assert c in EchoText(words) <==>
             c in words[0] || c == (if |words| == 1 then NEWLINE else SPACE) || c in EchoText(words[1..]);
    }
  }

  /** The characters echo adds. */
  function Separated(words: seq<seq<u8>>): set<u8> {
    (if words == [] then {} else {NEWLINE}) + (if |words| > 1 then {SPACE} else {})
  }

  /** Words of a line joined by single spaces are no longer than the line. */
  lemma {:induction false} JoinOfWords(s: seq<u8>)
    requires 0 !in s
    ensures |Join(Words(s))| <= |s|
    decreases |s|
  {
    WordsOfBlank(s);
    if s == [] {
    } else if Blank(s[0]) {
      JoinOfWords(s[1..]);
    } else {
      assert s[0..] == s;
      RunInLine(s, 0);
      WordsHere(s);
      if |Run(s)| < |s| {
        var rest := s[|Run(s)|..];
        WordsOfBlank(rest);
        JoinOfWords(rest[1..]);
        WordsShape(rest[1..]);
        assert ([Run(s)] + Words(rest))[1..] == Words(rest);
      }
    }
  }

  lemma CleanRoundTrips(words: seq<seq<u8>>)
    requires Clean(words) && forall i :: 0 <= i < |words| ==> 0 !in words[i]
    ensures RoundTrips(words)
  {
    var line := Join(words);
    EchoIsJoin(words);
    MembersOfJoin(words, NEWLINE);
    MembersOfJoin(words, BACKSLASH);
    MembersOfJoin(words, 0);
    JoinMembers(words);
    PlainLine(line, []);
    assert [] + line == line;
    ArgumentsAreWords(line);
    WordsOfJoin(words);
  }

  /** Joining adds spaces only. */
  lemma {:induction false} JoinMembers(words: seq<seq<u8>>)
    requires words != []
    ensures forall c :: c in Join(words) ==> c == SPACE || exists i :: 0 <= i < |words| && c in words[i]
  {
    if |words| > 1 {
      JoinMembers(words[1..]);
      assert forall i :: 1 <= i < |words| ==> words[i] == words[1..][i - 1];
    }
  }

  /** A list that comes back is the words of one line, which holds neither NUL nor newline. */
  lemma RoundTripLine(words: seq<seq<u8>>) returns (line: seq<u8>)
    requires forall i :: 0 <= i < |words| ==> 0 !in words[i]
    requires RoundTrips(words)
    ensures 0 !in line && NEWLINE !in line && words == Words(line) && NoBlanks(words)
    ensures LogicalLines(EchoText(words)) == [line]
  {
    hide LogicalLines, Words, EchoText, Arguments, NoBlanks;
    var input := EchoText(words);
    line := LogicalLines(input)[0];
    LinesMembers(input);
    MembersOfJoin(words, 0);
    assert LineOf(line, input);
    assert 0 !in input;
    ArgumentsAreWords(line);
    ArgumentsPlain(line + [0]);
  }

  lemma RoundTripIsClean(words: seq<seq<u8>>)
    requires forall i :: 0 <= i < |words| ==> 0 !in words[i]
    requires RoundTrips(words)
    ensures Clean(words)
  {
    hide LogicalLines, Words, EchoText, RoundTrips, Join;
    var input := EchoText(words);
    var line := RoundTripLine(words);
    WordsShape(line);
    WordsMembers(line, NEWLINE);
    LinesSize(input);
    EchoIsJoin(words);
    JoinOfWords(line);
    assert Size([line]) == |line| + 1;
    MembersOfJoin(words, BACKSLASH);
  }

  /**
   The round trip holds for exactly the clean word lists. The words are C
   strings, so they hold no NUL.
   */
  lemma RoundTripIff(words: seq<seq<u8>>)
    requires forall i :: 0 <= i < |words| ==> 0 !in words[i]
    ensures RoundTrips(words) <==> Clean(words)
  {
    if Clean(words) {
      CleanRoundTrips(words);
    }
    if RoundTrips(words) {
      RoundTripIsClean(words);
    }
  }

  lemma {:induction false} SizeBounds(lines: seq<seq<u8>>)
    ensures forall k :: 0 <= k < |lines| ==> |lines[k]| < Size(lines)
  {
    if lines != [] {
      SizeBounds(lines[1..]);
      assert forall k :: 1 <= k < |lines| ==> lines[k] == lines[1..][k - 1];
    }
  }

  /** echo run into the shell: exactly clean argument lists come back as one command. */
  method EchoIntoShell(argv: seq<seq<u8>>) returns (commands: seq<seq<seq<u8>>>)
    requires argv != [] && forall i :: 1 <= i < |argv| ==> 0 !in argv[i]
    requires |EchoText(argv[1..])| <= I32_MAX
    ensures commands == [argv[1..]] <==> Clean(argv[1..])
  {
    var out := Echo(argv);
    var lines;
    LinesSize(out);
    SizeBounds(LogicalLines(out));
    lines, commands := Shell.ReadLoop(out);
    RoundTripIff(argv[1..]);
  }
}
