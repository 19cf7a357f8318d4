/** The shell's reader and its splitter, both working in place on one buffer. */
module Shell {

  import opened Machine
  import opened TextLines
  import opened ShellText

  /** A null pointer in the argument vector; other entries are buffer indices. */
  const NULL: int := -1

  /** The argument vector: `argc` pointers, then null up to the capacity. */
  class ArgVector {
    var args: array<int>
    var argc: nat

    constructor ()
      ensures Valid() && argc == 0 && fresh(args) && args.Length == 3
    {
      args := new int[3](_ => NULL);
      argc := 0;
    }

    predicate Valid()
      reads this, args
    {
      argc < args.Length && forall j :: argc <= j < args.Length ==> args[j] == NULL
    }

    function Pointers(): seq<int>
      requires argc <= args.Length
      reads this, args
    {
      args[..argc]
    }

    /** When only the final null is free: realloc by three, with the new part set to null. */
    method Reserve()
      requires Valid()
      modifies this`args
      ensures Valid() && argc + 1 < args.Length && args.Length >= old(args.Length)
      ensures args == old(args) || fresh(args)
      ensures Pointers() == old(Pointers())
    {
      if argc == args.Length - 1 {
        var larger := new int[args.Length + 3];
        forall j | 0 <= j < larger.Length {
          larger[j] := if j < argc then args[j] else NULL;
        }
        args := larger;
      }
    }

    method Push(p: nat)
      requires Valid() && argc + 1 < args.Length
      modifies this`argc, args
      ensures Valid() && argc == old(argc) + 1
      ensures Pointers() == old(Pointers()) + [p]
    {
      args[argc] := p;
      argc := argc + 1;
    }

    /** A character of an argument behind the first: room for a pointer, and one if the argument starts here. */
    method Next(p: nat, starts: bool)
      requires Valid()
      modifies this, args
      ensures Valid() && argc == old(argc) + (if starts then 1 else 0) && args.Length >= old(args.Length)
      ensures args == old(args) || fresh(args)
      ensures Pointers() == if starts then old(Pointers()) + [p] else old(Pointers())
    {
      Reserve();
      if starts {
        Push(p);
      }
    }
  }

  /** The buffer after the splitter: blanks behind the first argument's start are NUL. */
  predicate Cut(before: seq<u8>, after: seq<u8>, com: int, n: nat)
    requires n <= |before|
  {
    && |after| == |before|
    && (forall k :: 0 <= k < n ==> after[k] == if 0 <= com <= k && Blank(before[k]) then 0 else before[k])
    && (forall k :: n <= k < |before| ==> after[k] == before[k])
  }

  /** The strings the pointers lead to. */
  function ReadBack(memory: seq<u8>, pointers: seq<int>): seq<seq<u8>> {
    seq(|pointers|, (k: nat) requires k < |pointers| =>
      if 0 <= pointers[k] < |memory| then CString(memory[pointers[k]..]) else [])
  }

  /** In a cut line, the string at a start is the run from there. */
  lemma RunReadsBack(before: seq<u8>, after: seq<u8>, com: int, p: nat)
    requires before != [] && before[|before| - 1] == 0
    requires Cut(before, after, com, |before|) && 0 <= com <= p < |before|
    ensures CString(after[p..]) == Run(before[p..])
  {
    var s, w := before[p..], Run(before[p..]);
    var n := |w|;
    assert s[|s| - 1] == 0;
    assert n < |s|;
    assert s[n] == before[p + n];
    forall k | 0 <= k < n ensures after[p..][k] == w[k] {
      assert w[k] == before[p + k];
    }
    assert after[p..][..n] == w;
    StringLengthIs(after[p..], n);
  }

  lemma ArgumentsReadBack(before: seq<u8>, after: seq<u8>, com: int)
    requires before != [] && before[|before| - 1] == 0
    requires Cut(before, after, com, |before|)
    requires com == if Starts(before, 0) == [] then NULL else Starts(before, 0)[0]
    ensures ReadBack(after, Starts(before, 0)) == Arguments(before)
  {
    var starts, args := Starts(before, 0), Arguments(before);
    FirstStart(before, 0);
    hide Starts, Run, Cut, CString;
    forall k | 0 <= k < |starts| ensures ReadBack(after, starts)[k] == args[k] {
      RunReadsBack(before, after, com, starts[k]);
      CutLength(before, after, com);
    }
  }

  lemma CutLength(before: seq<u8>, after: seq<u8>, com: int)
    requires Cut(before, after, com, |before|)
    ensures |after| == |before|
  {
  }

  /** Of a buffer only the line is cut. */
  lemma CutPart(before: seq<u8>, after: seq<u8>, com: int, n: nat)
    requires n <= |before| && Cut(before, after, com, n)
    ensures |after| == |before| && after[n..] == before[n..]
    ensures Cut(before[..n], after[..n], com, n)
  {
  }

  /** The splitter at a character it has not reached yet, and one further. */
  lemma CutStep(t: seq<u8>, now: seq<u8>, com: int, i: nat)
    requires i < |t| && Cut(t, now, com, i) && com < i
    ensures |now| == |t| && now[i] == t[i]
    ensures com == NULL || !Blank(t[i]) ==> Cut(t, now, com, i + 1)
    ensures com == NULL && !Blank(t[i]) ==> Cut(t, now, i, i + 1)
    ensures 0 <= com && Blank(t[i]) ==> Cut(t, now[i := 0], com, i + 1)
  {
  }

  /** What `com` and `newarg` say about the characters before `i`. */
  predicate Scanned(t: seq<u8>, i: nat, com: int, newarg: bool) {
    && i <= |t| && NULL <= com < i
    && (com == NULL ==> !newarg && forall k :: 0 <= k < i ==> Blank(t[k]))
    && (com != NULL ==> !Blank(t[com]) && (newarg <==> Blank(t[i - 1])))
  }

  lemma ScanStep(t: seq<u8>, i: nat, com: int, newarg: bool)
    requires i < |t| && Scanned(t, i, com, newarg)
    ensures NULL <= com < i && (com == NULL ==> !newarg)
    ensures if Blank(t[i]) then !IsStart(t, i) && Scanned(t, i + 1, com, com != NULL)
            else (IsStart(t, i) <==> com == NULL || newarg) && Scanned(t, i + 1, if com == NULL then i else com, false)
  {
  }

  /** The pass over the first `size` characters of `whole`, when it has reached index `i`. */
  predicate Passing(whole: seq<u8>, size: nat, now: seq<u8>, i: nat, com: int, newarg: bool, pointers: seq<int>) {
    && i <= size <= |whole|
    && Cut(whole, now, com, i) && Scanned(whole[..size], i, com, newarg)
    && pointers + Starts(whole[..size], i) == Starts(whole[..size], 0)
    && |pointers| <= i && com == if pointers == [] then NULL else pointers[0]
  }

  lemma PassStart(whole: seq<u8>, size: nat)
    requires size <= |whole|
    ensures Passing(whole, size, whole, 0, NULL, false, [])
  {
    assert [] + Starts(whole[..size], 0) == Starts(whole[..size], 0);
  }

  lemma PassStep(whole: seq<u8>, size: nat, now: seq<u8>, i: nat, com: int, newarg: bool, pointers: seq<int>)
    requires Passing(whole, size, now, i, com, newarg, pointers) && i < size
    ensures |now| == |whole| && NULL <= com < i && (com == NULL <==> pointers == [])
    ensures com == NULL && Blank(now[i]) ==> Passing(whole, size, now, i + 1, com, newarg, pointers)
    ensures com == NULL && !Blank(now[i]) ==> Passing(whole, size, now, i + 1, i, newarg, pointers + [i])
    ensures com != NULL && Blank(now[i]) ==> Passing(whole, size, now[i := 0], i + 1, com, true, pointers)
    ensures com != NULL && !Blank(now[i]) ==>
              Passing(whole, size, now, i + 1, com, false, if newarg then pointers + [i] else pointers)
  {
    hide Starts, Cut, IsStart, Blank, Scanned;
    var t := whole[..size];
    ScanStep(t, i, com, newarg);
    CutStep(whole, now, com, i);
    assert now[i] == t[i];
    PointersFrom(t, pointers, com, i);
    StartsStep(pointers, t, i);
  }

  lemma PointersFrom(t: seq<u8>, pointers: seq<int>, com: int, i: nat)
    requires i <= |t| && pointers + Starts(t, i) == Starts(t, 0)
    requires com == if pointers == [] then NULL else pointers[0]
    ensures com == NULL <==> pointers == []
  {
    assert pointers != [] ==> pointers[0] == Starts(t, 0)[0];
  }

  /** Spaces and tabs from index `com` on are NUL, and every other byte is as it was. */
  predicate CutAtBlanks(before: seq<u8>, after: seq<u8>, com: int) {
    && |after| == |before|
    && forall k :: 0 <= k < |before| ==>
         after[k] == if 0 <= com <= k && (before[k] == 32 || before[k] == 9) then 0 else before[k]
  }

  lemma CutIsAtBlanks(before: seq<u8>, after: seq<u8>, com: int)
    requires Cut(before, after, com, |before|)
    ensures CutAtBlanks(before, after, com)
  {
  }

  lemma PassEnd(whole: seq<u8>, size: nat, now: seq<u8>, com: int, newarg: bool, pointers: seq<int>)
    requires Passing(whole, size, now, size, com, newarg, pointers)
    ensures pointers == Starts(whole[..size], 0) && |pointers| <= size
    ensures com == if pointers == [] then NULL else pointers[0]
    ensures |now| == |whole| && Cut(whole[..size], now[..size], com, size) && now[size..] == whole[size..]
    ensures size > 0 && whole[size - 1] == 0 ==> ReadBack(now[..size], pointers) == Arguments(whole[..size])
    ensures NoBlanks(Arguments(whole[..size])) && PointsAtArguments(whole[..size], pointers)
    ensures CutAtBlanks(whole[..size], now[..size], com)
  {
    hide Starts, Scanned, Cut, Arguments, ReadBack, CutAtBlanks, PointsAtArguments, NoBlanks;
    StartsEnd(whole[..size]);
    StartsPoint(whole[..size]);
    ArgumentsPlain(whole[..size]);
    CutPart(whole, now, com, size);
    CutIsAtBlanks(whole[..size], now[..size], com);
    if size > 0 && whole[size - 1] == 0 {
      ArgumentsReadBack(whole[..size], now[..size], com);
    }
  }

  /**
   process, up to the call of the command: one pass over the line and its
   NUL. The index is a signed 32-bit number.
   */
  method Process(buf: array<u8>, size: nat) returns (vector: ArgVector, com: int)
    requires size <= buf.Length && size <= I32_MAX
    modifies buf
    ensures fresh(vector) && fresh(vector.args) && vector.Valid()
    ensures vector.Pointers() == Starts(old(buf[..size]), 0)
    ensures vector.argc <= size && vector.args[vector.argc] == NULL
    ensures com == if vector.argc == 0 then NULL else vector.args[0]
    ensures Cut(old(buf[..size]), buf[..size], com, size)
    ensures buf[size..] == old(buf[size..])
    ensures size > 0 && old(buf[size - 1]) == 0 ==>
              ReadBack(buf[..size], vector.Pointers()) == Arguments(old(buf[..size]))
              && NoBlanks(ReadBack(buf[..size], vector.Pointers()))
    ensures PointsAtArguments(old(buf[..size]), vector.Pointers())
    ensures CutAtBlanks(old(buf[..size]), buf[..size], com)
  {
    hide Starts, Cut, Blank, Passing, ReadBack, Arguments, CutAtBlanks, PointsAtArguments, NoBlanks;
    ghost var whole := buf[..];
    vector := new ArgVector();
    com := NULL;
    var newarg := false;
    var i: i32 := 0;
    PassStart(whole, size);
    while i < size
      invariant 0 <= i <= size
      invariant fresh(vector) && fresh(vector.args) && vector.Valid() && vector.args.Length >= 3
      invariant Passing(whole, size, buf[..], i, com, newarg, vector.Pointers())
    {
      ghost var now := buf[..];
      PassStep(whole, size, now, i, com, newarg, vector.Pointers());
      if com == NULL {
        if !Blank(buf[i]) {
          com := i;
          vector.Push(i);
        }
      } else if Blank(buf[i]) {
        buf[i] := 0;
        assert buf[..] == now[i := 0];
        newarg := true;
      } else {
        vector.Next(i, newarg);
        newarg := false;
      }
      i := i + 1;
    }
    PassEnd(whole, size, buf[..], com, newarg, vector.Pointers());
    assert buf[..][..size] == buf[..size] && whole[..size] == old(buf[..size]);
  }

  /** With their NUL, the lines are not too long for the splitter's index. */
  predicate LinesFit(lines: seq<seq<u8>>) {
    forall k :: 0 <= k < |lines| ==> |lines[k]| < I32_MAX
  }

  /**
   The read loop of main. Every completed line, with its NUL, goes to
   `process`; `lines` records the lines and `commands` the arguments the
   pointers lead to afterwards. The index is unsigned and passes through -1.
   */
  method ReadLoop(input: seq<u8>) returns (lines: seq<seq<u8>>, commands: seq<seq<seq<u8>>>)
    requires |input| < TWO64 && LinesFit(LogicalLines(input))
    ensures lines == LogicalLines(input)
    ensures |commands| == |lines| && forall k :: 0 <= k < |lines| ==> commands[k] == Arguments(lines[k] + [0])
    ensures forall k :: 0 <= k < |lines| ==> NoBlanks(commands[k])
  {
    hide Unescape, Ended, Pending, Arguments, Before, After, NoBlanks;
    var escape := false;
    var i: u64 := 0;
    var buf := new u8[50](_ => 0);
    var at := 0;
    lines, commands := [], [];
    ghost var current: seq<u8> := [];
    PendingStart(input);
    while at < |input|
      invariant at <= |input| && fresh(buf) && i < buf.Length && i <= at
      invariant current == buf[..i]
      invariant lines + Pending(escape, input[at..], current) == LogicalLines(input)
      invariant |commands| == |lines| && forall k :: 0 <= k < |lines| ==> commands[k] == Arguments(lines[k] + [0])
      invariant forall k :: 0 <= k < |lines| ==> NoBlanks(commands[k])
    {
      PendingStep(escape, input[at..], current);
      AfterBefore(i);
      assert input[at..][1..] == input[at + 1..];
      buf[i] := input[at];
      at := at + 1;
      if escape {
        if buf[i] == NEWLINE {
          buf[i] := 0;
          i := Before(i);
        } else {
          current := current + [buf[i]];
        }
        escape := false;
      } else if buf[i] == NEWLINE {
        buf[i] := 0;
        assert LogicalLines(input)[|lines|] == current;
        lines := lines + [buf[..i]];
        var command := RunLine(buf, i);
        commands := commands + [command];
        current := [];
        i := TWO64 - 1;
      } else if buf[i] == BACKSLASH {
        escape := true;
        buf[i] := 0;
        i := Before(i);
      } else {
        current := current + [buf[i]];
      }
      i := After(i);
      if i == buf.Length {
        buf := Enlarge(buf);
      }
    }
    assert input[at..] == [];
    PendingEnd(escape, current);
  }

  /** Stepping back below zero and forward again, on unsigned numbers. */
  function Before(i: u64): u64 {
    (i - 1) % TWO64
  }

  function After(i: u64): u64 {
    (i + 1) % TWO64
  }

  lemma AfterBefore(i: u64)
    ensures After(Before(i)) == i && After(TWO64 - 1) == 0
    ensures i < TWO64 - 1 ==> After(i) == i + 1
  {
  }

  lemma PendingStart(input: seq<u8>)
    ensures [] + Pending(false, input[0..], []) == LogicalLines(input)
  {
    assert input[0..] == input;
  }

  /** The buffer's line and its NUL go to the splitter. */
  method RunLine(buf: array<u8>, i: nat) returns (command: seq<seq<u8>>)
    requires i < buf.Length && i < I32_MAX && buf[i] == 0
    modifies buf
    ensures command == Arguments(old(buf[..i]) + [0]) && NoBlanks(command)
  {
    assert buf[..i + 1] == buf[..i] + [0];
    var vector, com := Process(buf, i + 1);
    command := ReadBack(buf[..i + 1], vector.Pointers());
  }

  /** realloc by fifty. */
  method Enlarge(buf: array<u8>) returns (larger: array<u8>)
    ensures fresh(larger) && larger.Length == buf.Length + 50 && larger[..buf.Length] == buf[..]
  {
    larger := new u8[buf.Length + 50](_ => 0);
    forall j | 0 <= j < buf.Length {
      larger[j] := buf[j];
    }
  }
}
