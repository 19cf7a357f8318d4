/** Lines of a byte string, for any delimiter, and C strings in buffers. */
module TextLines {

  import opened Machine

  const NEWLINE: u8 := 10

  /** Length of the first line with its delimiter, or of everything if there is none. */
  function LineLength(s: seq<u8>, d: u8): (n: nat)
    ensures IsFirstLine(s, d, n)
  {
    if s == [] then 0
    else if s[0] == d then 1
    else
      var n := 1 + LineLength(s[1..], d);
      assert s[..n] == [s[0]] + s[1..][..n - 1];
      n
  }

  /** `n` bytes are a first line: the delimiter can only be last, and only the end of `s` can do without. */
  predicate IsFirstLine(s: seq<u8>, d: u8, n: nat) {
    && n <= |s|
    && (forall i :: 0 <= i < n - 1 ==> s[i] != d)
    && (if n == 0 then s == [] else s[n - 1] == d || n == |s|)
  }

  lemma FirstLineUnique(s: seq<u8>, d: u8, n: nat)
    requires IsFirstLine(s, d, n)
    ensures n == LineLength(s, d)
  {
    var m := LineLength(s, d);
    var a, b := if n > 0 then s[n - 1] else d, if m > 0 then s[m - 1] else d;
    assert 0 < n <= |s| && 0 < m <= |s| ==> s[n - 1] == a && s[m - 1] == b;
  }

  /** A line starts with any bytes that hold no delimiter, and goes on behind them. */
  lemma LineFrom(s: seq<u8>, d: u8, k: nat)
    requires k <= |s| && d !in s[..k]
    ensures LineLength(s, d) == k + LineLength(s[k..], d)
  {
    var n := k + LineLength(s[k..], d);
    forall i | 0 <= i < n - 1 ensures s[i] != d {
      if i < k {
        assert s[i] == s[..k][i];
      } else {
        assert s[i] == s[k..][i - k];
      }
    }
    assert k > 0 ==> s[k - 1] == s[..k][k - 1];
    FirstLineUnique(s, d, n);
  }

  function FirstLine(s: seq<u8>, d: u8): seq<u8> {
    s[..LineLength(s, d)]
  }

  /** The lines a byte string is read as. */
  function Lines(s: seq<u8>, d: u8): seq<seq<u8>>
    decreases |s|
  {
    if s == [] then [] else [FirstLine(s, d)] + Lines(s[LineLength(s, d)..], d)
  }

  /** Moving the first line over to those already read. */
  lemma LinesStep(done: seq<seq<u8>>, rest: seq<u8>, d: u8)
    requires rest != []
    ensures done + Lines(rest, d) == (done + [FirstLine(rest, d)]) + Lines(rest[LineLength(rest, d)..], d)
    ensures FirstLine(rest, d) != [] && |FirstLine(rest, d)| == LineLength(rest, d)
  {
    hide LineLength;
    var line, more := FirstLine(rest, d), Lines(rest[LineLength(rest, d)..], d);
    assert done + ([line] + more) == (done + [line]) + more;
  }

  function Concat(parts: seq<seq<u8>>): seq<u8> {
    if parts == [] then [] else parts[0] + Concat(parts[1..])
  }

  predicate EndsWith(line: seq<u8>, d: u8) {
    line != [] && line[|line| - 1] == d
  }

  predicate IsLine(line: seq<u8>, d: u8) {
    line != [] && forall i :: 0 <= i < |line| - 1 ==> line[i] != d
  }

  /** Lines that make up `s`, of which only the last may lack the delimiter. */
  predicate IsPartition(parts: seq<seq<u8>>, s: seq<u8>, d: u8) {
    && Concat(parts) == s
    && (forall i :: 0 <= i < |parts| ==> IsLine(parts[i], d))
    && (forall i :: 0 <= i < |parts| - 1 ==> EndsWith(parts[i], d))
  }

  lemma {:induction false} LinesPartition(s: seq<u8>, d: u8)
    ensures IsPartition(Lines(s, d), s, d)
    decreases |s|
  {
    if s != [] {
      var n := LineLength(s, d);
      LinesPartition(s[n..], d);
      assert s == s[..n] + s[n..];
    }
  }

  /** Whole lines are read before and apart from what follows them. */
  lemma {:induction false} LinesOfWhole(a: seq<u8>, rest: seq<u8>, d: u8)
    requires a == [] || a[|a| - 1] == d
    ensures Lines(a + rest, d) == Lines(a, d) + Lines(rest, d)
    decreases |a|
  {
    hide LineLength;
    if a == [] {
      assert a + rest == rest;
    } else {
      FirstOfWhole(a, rest, d);
      LinesOfWhole(a[LineLength(a, d)..], rest, d);
      hide FirstLine, IsFirstLine;
      var more := Lines(a[LineLength(a, d)..], d);
      assert [FirstLine(a, d)] + (more + Lines(rest, d)) == [FirstLine(a, d)] + more + Lines(rest, d);
    }
  }

  lemma FirstOfWhole(a: seq<u8>, rest: seq<u8>, d: u8)
    requires a != [] && a[|a| - 1] == d
    ensures var n := LineLength(a, d);
            && 0 < n <= |a| && LineLength(a + rest, d) == n && FirstLine(a + rest, d) == FirstLine(a, d)
            && (a + rest)[n..] == a[n..] + rest
            && (a[n..] == [] || a[n..][|a[n..]| - 1] == d)
  {
    hide LineLength;
    var n, all := LineLength(a, d), a + rest;
    assert forall i :: 0 <= i < |a| ==> all[i] == a[i];
    FirstLineUnique(all, d, n);
  }

  lemma OneLine(line: seq<u8>, d: u8)
    requires IsLine(line, d) && EndsWith(line, d)
    ensures Lines(line, d) == [line]
  {
    hide LineLength;
    FirstLineUnique(line, d, |line|);
    assert line[..|line|] == line && line[|line|..] == [];
  }

  /** There is no other way to cut `s` into lines. */
  lemma {:induction false} PartitionUnique(parts: seq<seq<u8>>, s: seq<u8>, d: u8)
    requires IsPartition(parts, s, d)
    ensures parts == Lines(s, d)
  {
    if parts != [] {
      var line := parts[0];
      assert s[..|line|] == line && s[|line|..] == Concat(parts[1..]);
      forall i | 0 <= i < |line| ensures s[i] == line[i] {
      }
      if |parts| == 1 {
        assert Concat(parts[1..]) == [];
      }
      FirstLineUnique(s, d, |line|);
      PartitionUnique(parts[1..], s[|line|..], d);
    }
  }

  lemma {:induction false} ConcatSum(a: seq<seq<u8>>, b: seq<seq<u8>>)
    ensures Concat(a + b) == Concat(a) + Concat(b)
  {
    if a == [] {
      assert a + b == b;
    } else {
      assert (a + b)[1..] == a[1..] + b;
      ConcatSum(a[1..], b);
    }
  }

  /** Length of the C string that a buffer starts with. */
  function StringLength(buffer: seq<u8>): (n: nat)
    ensures n <= |buffer| && (forall i :: 0 <= i < n ==> buffer[i] != 0)
    ensures n < |buffer| ==> buffer[n] == 0
  {
    if buffer == [] || buffer[0] == 0 then 0 else 1 + StringLength(buffer[1..])
  }

  function CString(buffer: seq<u8>): seq<u8> {
    buffer[..StringLength(buffer)]
  }

  lemma StringLengthIs(buffer: seq<u8>, n: nat)
    requires n < |buffer| && buffer[n] == 0 && 0 !in buffer[..n]
    ensures StringLength(buffer) == n && CString(buffer) == buffer[..n]
  {
    forall i | 0 <= i < n ensures buffer[i] != 0 {
      assert buffer[i] == buffer[..n][i];
    }
  }

  /** A NUL-free line in a buffer reads back as a string exactly when a NUL follows it. */
  lemma ReadsBackIff(buffer: seq<u8>, line: seq<u8>)
    requires |line| < |buffer| && buffer[..|line|] == line && 0 !in line
    ensures CString(buffer) == line <==> buffer[|line|] == 0
  {
    var n := StringLength(buffer);
    if buffer[|line|] == 0 {
      StringLengthIs(buffer, |line|);
    }
    assert n == |line| ==> buffer[n] == 0;
  }
}
