/** Two ways to print numbers: a stack of remainders, and recursion. */
module NumberPrinters {

  import opened Machine

  class Console {
    var out: seq<char>

    constructor ()
      ensures out == []
    {
      out := [];
    }

    method Put(c: char)
      modifies this
      ensures out == old(out) + [c]
    {
      out := out + [c];
    }
  }

  predicate Base(base: nat) {
    2 <= base <= 16
  }

  function DigitChar(d: nat, upper: bool): char
    requires d < 16
  {
    if d < 10 then '0' + d as char else (if upper then 'A' else 'a') + (d - 10) as char
  }

  function DigitValue(c: char): nat {
    if '0' <= c <= '9' then (c - '0') as nat
    else if 'a' <= c <= 'f' then (c - 'a') as nat + 10
    else if 'A' <= c <= 'F' then (c - 'A') as nat + 10
    else 16
  }

  /** Digits from the most significant one on, none for 0. */
  function Positional(n: nat, base: nat, upper: bool): seq<char>
    requires Base(base)
  {
    if n == 0 then [] else Positional(n / base, base, upper) + [DigitChar(n % base, upper)]
  }

  function Numeral(n: nat, base: nat, upper: bool): seq<char>
    requires Base(base)
  {
    if n == 0 then "0" else Positional(n, base, upper)
  }

  /** The number a digit string denotes. */
  function Value(s: seq<char>, base: nat): nat {
    if s == [] then 0 else Mul(Value(s[..|s| - 1], base), base) + DigitValue(s[|s| - 1])
  }

  /** Decimal digits. */
  predicate Decimal(s: seq<char>) {
    forall i :: 0 <= i < |s| ==> '0' <= s[i] <= '9'
  }

  /** Hexadecimal digits, with letters of one case. */
  predicate Hexadecimal(s: seq<char>, upper: bool) {
    forall i :: 0 <= i < |s| ==> '0' <= s[i] <= '9' || (if upper then 'A' <= s[i] <= 'F' else 'a' <= s[i] <= 'f')
  }

  /** `s` is how `n` is written: no leading zero, and digits of that value. */
  predicate Writes(s: seq<char>, n: nat, base: nat) {
    |s| >= 1 && (s[0] == '0' ==> s == "0") && Value(s, base) == n
  }

  lemma {:induction false} PositionalChars(n: nat, base: nat, upper: bool)
    requires Base(base)
    ensures Hexadecimal(Positional(n, base, upper), upper)
    ensures base <= 10 ==> Decimal(Positional(n, base, upper))
  {
    QuotientRemainder(n, base);
    if n > 0 {
      PositionalChars(n / base, base, upper);
      var d := n % base;
      assert d < 10 ==> '0' <= DigitChar(d, upper) <= '9';
      assert d >= 10 ==> if upper then 'A' <= DigitChar(d, upper) <= 'F' else 'a' <= DigitChar(d, upper) <= 'f';
    }
  }

  /** The characters of numerals, and the numbers they are. */
  lemma NumeralChars(n: nat, base: nat, upper: bool)
    requires Base(base)
    ensures Hexadecimal(Numeral(n, base, upper), upper) && Writes(Numeral(n, base, upper), n, base)
    ensures base <= 10 ==> Decimal(Numeral(n, base, upper))
  {
    PositionalChars(n, base, upper);
    PositionalReads(n, base, upper);
    NumeralReads(n, base, upper);
  }

  /** Digits in order of their value, in both cases. */
  lemma DigitsInOrder(d: nat)
    requires d < 16
    ensures DigitValue("0123456789abcdef"[d]) == d && DigitChar(d, false) == "0123456789abcdef"[d]
    ensures DigitValue("0123456789ABCDEF"[d]) == d && DigitChar(d, true) == "0123456789ABCDEF"[d]
  {
  }

  function Power(base: nat, n: nat): nat {
    if n == 0 then 1 else Mul(Power(base, n - 1), base)
  }

  /** The digits in front count for as many powers of the base as digits follow. */
  lemma {:induction false} ValueOfConcat(a: seq<char>, b: seq<char>, base: nat)
    ensures Value(a + b, base) == Value(a, base) * Power(base, |b|) + Value(b, base)
    ensures forall c :: Value([c], base) == DigitValue(c)
  {
    OneDigit(base);
    if b == [] {
      assert a + b == a;
    } else {
      var n := |b| - 1;
      ValueOfConcat(a, b[..n], base);
      assert (a + b)[..|a + b| - 1] == a + b[..n];
      HornerStep(Value(a, base), Power(base, n), Value(b[..n], base), base);
    }
  }

  lemma HornerStep(x: nat, p: nat, y: nat, base: nat)
    ensures (x * p + y) * base == x * (p * base) + y * base
  {
    MulSum(x * p, y, base);
    MulAssoc(x, p, base);
  }

  lemma OneDigit(base: nat)
    ensures forall c :: Value([c], base) == DigitValue(c)
  {
    forall c ensures Value([c], base) == DigitValue(c) {
      assert [c][..0] == [];
      assert Value([], base) == 0;
    }
  }

  predicate IsDigit(c: char, base: nat, upper: bool)
    requires Base(base)
  {
    exists d: nat :: d < base && c == DigitChar(d, upper)
  }

  predicate IsNumeral(s: seq<char>, base: nat, upper: bool)
    requires Base(base)
  {
    && s != []
    && (forall i :: 0 <= i < |s| ==> IsDigit(s[i], base, upper))
    && (s[0] == '0' ==> |s| == 1)
  }

  lemma DigitRoundTrip(d: nat, upper: bool)
    requires d < 16
    ensures DigitValue(DigitChar(d, upper)) == d
    ensures DigitChar(d, upper) == '0' <==> d == 0
  {
  }

  /** Horner's rule, one digit further. */
  lemma ValueAppend(s: seq<char>, d: nat, base: nat, upper: bool)
    requires Base(base) && d < base
    ensures Value(s + [DigitChar(d, upper)], base) == Mul(Value(s, base), base) + d
  {
    DigitRoundTrip(d, upper);
    assert (s + [DigitChar(d, upper)])[..|s|] == s;
  }

  lemma QuotientRemainder(n: nat, base: nat)
    requires Base(base)
    ensures n == Mul(n / base, base) + n % base && n % base < base && (n > 0 ==> n / base < n)
    ensures n > 0 && n / base == 0 ==> n % base > 0
  {
    DivModParts(n, base);
    MulMono(2, base, n / base);
  }

  /** Every number reads back from its digits, which have no leading zero. */
  lemma {:induction false} PositionalReads(n: nat, base: nat, upper: bool)
    requires Base(base)
    ensures Value(Positional(n, base, upper), base) == n
    ensures n > 0 ==> IsNumeral(Positional(n, base, upper), base, upper) && Positional(n, base, upper)[0] != '0'
  {
    hide Mul, DigitChar, Value;
    QuotientRemainder(n, base);
    ValueOfNone(base);
    if n > 0 {
      var d := n % base;
      PositionalReads(n / base, base, upper);
      DigitRoundTrip(d, upper);
      ValueAppend(Positional(n / base, base, upper), d, base, upper);
      assert IsDigit(DigitChar(d, upper), base, upper);
    }
  }

  lemma ValueOfNone(base: nat)
    ensures Value([], base) == 0
  {
  }

  lemma NumeralReads(n: nat, base: nat, upper: bool)
    requires Base(base)
    ensures IsNumeral(Numeral(n, base, upper), base, upper) && Value(Numeral(n, base, upper), base) == n
  {
    PositionalReads(n, base, upper);
    DigitRoundTrip(0, upper);
    if n == 0 {
      assert Numeral(n, base, upper)[0] == DigitChar(0, upper);
      assert Value([], base) == 0;
      assert Value("0", base) == Mul(0, base) + 0;
    }
  }

  /** A digit string without leading zero is the numeral of its value. */
  lemma {:induction false} PositionalUnique(s: seq<char>, base: nat, upper: bool)
    requires Base(base) && (s != [] ==> IsNumeral(s, base, upper) && s[0] != '0')
    ensures Positional(Value(s, base), base, upper) == s
    ensures s != [] ==> Value(s, base) > 0
  {
    hide Mul, DigitChar, Value;
    ValueOfNone(base);
    if s != [] {
      var n := |s| - 1;
      var front := s[..n];
      assert IsDigit(s[n], base, upper);
      var d: nat :| d < base && s[n] == DigitChar(d, upper);
      assert s == front + [DigitChar(d, upper)];
      PositionalUnique(front, base, upper);
      ValueAppend(front, d, base, upper);
      DigitRoundTrip(d, upper);
      PositionalAppend(Value(front, base), d, base, upper);
    }
  }

  lemma PositionalAppend(v: nat, d: nat, base: nat, upper: bool)
    requires Base(base) && d < base && (v > 0 || d > 0)
    ensures Mul(v, base) + d > 0
    ensures Positional(Mul(v, base) + d, base, upper) == Positional(v, base, upper) + [DigitChar(d, upper)]
  {
    DivModUnique(Mul(v, base) + d, base, v, d);
    MulMono(1, base, v);
  }

  lemma NumeralUnique(s: seq<char>, base: nat, upper: bool)
    requires Base(base) && IsNumeral(s, base, upper)
    ensures Numeral(Value(s, base), base, upper) == s
  {
    if s[0] != '0' {
      PositionalUnique(s, base, upper);
    } else {
      assert s == "0" && s[..0] == [];
      assert Value(s, base) == Mul(0, base) + DigitValue('0');
    }
  }

  predicate Remainders(stack: seq<u16>) {
    forall i :: 0 <= i < |stack| ==> stack[i] < 16
  }

  /** Digits as they are popped: the last one pushed comes first. */
  function Popped(stack: seq<u16>, upper: bool): seq<char>
    requires Remainders(stack)
  {
    if stack == [] then []
    else [DigitChar(stack[|stack| - 1], upper)] + Popped(stack[..|stack| - 1], upper)
  }

  lemma PoppedPush(stack: seq<u16>, d: u16, upper: bool)
    requires d < 16 && Remainders(stack)
    ensures Remainders(stack + [d])
    ensures Popped(stack + [d], upper) == [DigitChar(d, upper)] + Popped(stack, upper)
  {
    assert (stack + [d])[..|stack|] == stack;
  }

  /** One division: the quotient loses a bit, and its digits lose their last. */
  lemma Divide(eax: nat, base: nat, k: nat)
    requires Base(base) && eax > 0 && eax < Pow2(k)
    ensures k > 0 && Div(eax, base) < Pow2(k - 1) && Div(eax, base) < eax && Mod(eax, base) < 16
    ensures Positional(eax, base, false) == Positional(Div(eax, base), base, false) + [DigitChar(Mod(eax, base), false)]
  {
    hide DigitChar, Pow2;
    DivModParts(eax, base);
    MulMono(2, base, Div(eax, base));
    HalfBelow(Div(eax, base), eax, k);
  }

  lemma HalfBelow(half: nat, n: nat, k: nat)
    requires 2 * half <= n < Pow2(k) && n > 0
    ensures k > 0 && half < Pow2(k - 1)
  {
  }

  lemma NoDigits(base: nat)
    requires Base(base)
    ensures Remainders([]) && Positional(0, base, false) == [] && Popped([], false) == []
  {
  }

  lemma Pow32()
    ensures Pow2(32) == TWO32
  {
    assert Pow2(8) == 256;
    assert Pow2(16) == 256 * Pow2(8);
    assert Pow2(24) == 256 * Pow2(16);
    assert Pow2(32) == 256 * Pow2(24);
  }

  /** The first loop: divide and push remainders, counting them in the byte register cl. */
  method PushRemainders(number: u32, base: nat) returns (stack: seq<u16>, cl: u8)
    requires Base(base)
    ensures cl == |stack| && Remainders(stack)
    ensures Popped(stack, false) == Positional(number, base, false)
  {
    hide DigitChar, Positional, Popped, Div, Mod, Pow2, Remainders;
    var eax: u32 := number;
    cl, stack := 0, [];
    Pow32();
    NoDigits(base);
    while eax != 0
      invariant |stack| <= 32 && cl == |stack| && eax < Pow2(32 - |stack|) && Remainders(stack)
      invariant Positional(number, base, false) == Positional(eax, base, false) + Popped(stack, false)
      decreases eax
    {
      Divide(eax, base, 32 - |stack|);
      var edx := Mod(eax, base);
      PoppedPush(stack, edx, false);
      stack := stack + [edx];
      eax := Div(eax, base);
      cl := (cl + 1) % 256;
    }
  }

  /** The second loop: pop and print as many. */
  method PopDigits(console: Console, count: u8, pushed: seq<u16>)
    requires count == |pushed| && Remainders(pushed)
    modifies console
    ensures console.out == old(console.out) + Popped(pushed, false)
  {
    var cl, stack := count, pushed;
    while cl != 0
      invariant cl == |stack| && Remainders(stack)
      invariant console.out + Popped(stack, false) == old(console.out) + Popped(pushed, false)
    {
      cl := cl - 1;
      console.Put(DigitChar(stack[cl], false));
      stack := stack[..cl];
    }
  }

  /** print_d. */
  method PrintD(console: Console, number: u32)
    modifies console
    ensures console.out == old(console.out) + Numeral(number, 10, false)
    ensures var text := console.out[|old(console.out)|..];
            Decimal(text) && Writes(text, number, 10)
  {
    hide Value, Writes, Hexadecimal, Decimal;
    NumeralChars(number, 10, false);
    if number == 0 {
      console.Put('0');
    } else {
      var stack, cl := PushRemainders(number, 10);
      PopDigits(console, cl, stack);
    }
  }

  /** print_x. */
  method PrintX(console: Console, number: u32)
    modifies console
    ensures console.out == old(console.out) + "0x" + Numeral(number, 16, false)
    ensures var text := console.out[|old(console.out)|..];
            |text| >= 2 && text[..2] == "0x" && Hexadecimal(text[2..], false) && Writes(text[2..], number, 16)
  {
    hide Value, Writes, Hexadecimal, Decimal;
    NumeralChars(number, 16, false);
    console.Put('0');
    console.Put('x');
    assert console.out == old(console.out) + "0x";
    if number == 0 {
      console.Put('0');
    } else {
      var stack, cl := PushRemainders(number, 16);
      PopDigits(console, cl, stack);
    }
  }

  /** printul: the digits before the last by a recursive call. */
  method PrintUnsigned(console: Console, ul: u32, recurse: bool)
    modifies console
    ensures console.out == old(console.out) + if recurse then Positional(ul, 10, false) else Numeral(ul, 10, false)
    ensures var text := console.out[|old(console.out)|..];
            Decimal(text) && (!recurse ==> Writes(text, ul, 10))
    decreases ul
  {
    hide Value, Writes, Hexadecimal, Decimal;
    NumeralChars(ul, 10, false);
    PositionalChars(ul, 10, false);
    if ul > 0 {
      PrintUnsigned(console, ul / 10, true);
      console.Put('0' + (ul % 10) as char);
    } else if !recurse {
      console.Put('0');
    }
  }

  /** printx, in either case of letters. */
  method PrintHex(console: Console, x: u32, recurse: bool, upper: bool)
    modifies console
    ensures console.out == old(console.out) + if recurse then Positional(x, 16, upper) else Numeral(x, 16, upper)
    ensures var text := console.out[|old(console.out)|..];
            Hexadecimal(text, upper) && (!recurse ==> Writes(text, x, 16))
    decreases x
  {
    hide Value, Writes, Hexadecimal, Decimal;
    NumeralChars(x, 16, upper);
    PositionalChars(x, 16, upper);
    if x > 0 {
      PrintHex(console, x / 16, true, upper);
      var d: nat := x % 16;
      if d < 10 {
        console.Put('0' + d as char);
      } else if upper {
        console.Put('A' + (d - 10) as char);
      } else {
        console.Put('a' + (d - 10) as char);
      }
    } else if !recurse {
      console.Put('0');
    }
  }

  function SignedNumeral(l: int): seq<char> {
    if l < 0 then ['-'] + Numeral(0 - l, 10, false) else Numeral(l, 10, false)
  }

  /** The number a signed numeral denotes. */
  function SignedValue(s: seq<char>): int {
    if s != [] && s[0] == '-' then 0 - Value(s[1..], 10) else Value(s, 10)
  }

  function SignedText(l: i32, recurse: bool): seq<char> {
    if recurse && l >= 0 then Positional(l, 10, false) else SignedNumeral(l)
  }

  /** A signed 32-bit result that wraps. */
  function Signed(x: int): i32 {
    (x - I32_MIN) % TWO32 + I32_MIN
  }

  datatype Option<T> = None | Some(value: T)

  /** What printl prints when calls may nest `fuel` deep, or nothing if that is not enough. */
  function PrintNested(l: i32, recurse: bool, fuel: nat): Option<seq<char>>
    decreases fuel
  {
    if fuel == 0 then None
    else if l < 0 then
      match PrintNested(Signed(l * -1), true, fuel - 1) {
        case None => None
        case Some(text) => Some(['-'] + text)
      }
    else if l > 0 then
      match PrintNested(l / 10, true, fuel - 1) {
        case None => None
        case Some(text) => Some(text + ['0' + (l % 10) as char])
      }
    else Some(if recurse then [] else ['0'])
  }

  /** The negation of the least number is itself, so the calls never end. */
  lemma {:induction false} LeastNeverEnds(recurse: bool, fuel: nat)
    ensures PrintNested(I32_MIN, recurse, fuel) == None
    decreases fuel
  {
    if fuel > 0 {
      LeastNeverEnds(true, fuel - 1);
    }
  }

  lemma {:induction false} PrintEnds(l: i32, recurse: bool) returns (fuel: nat)
    requires l != I32_MIN
    ensures PrintNested(l, recurse, fuel) == Some(SignedText(l, recurse))
    decreases l < 0, if l < 0 then 0 - l else l
  {
    var inner := 0;
    if l < 0 {
      inner := PrintEnds(-l, true);
    } else if l > 0 {
      inner := PrintEnds(l / 10, true);
    }
    fuel := inner + 1;
  }

  lemma {:induction false} PrintOnce(l: i32, recurse: bool, fuel: nat)
    ensures PrintNested(l, recurse, fuel) in {None, Some(SignedText(l, recurse))}
    decreases fuel
  {
    if fuel > 0 && l == I32_MIN {
      LeastNeverEnds(recurse, fuel);
    } else if fuel > 0 && l < 0 {
      PrintOnce(-l, true, fuel - 1);
    } else if fuel > 0 && l > 0 {
      PrintOnce(l / 10, true, fuel - 1);
    }
  }

  /** printl ends on exactly the numbers above the least, and then with the signed numeral. */
  lemma PrintSignedEndsIff(l: i32)
    ensures (exists fuel :: PrintNested(l, false, fuel) != None) <==> l != I32_MIN
    ensures forall fuel :: PrintNested(l, false, fuel) != None ==> PrintNested(l, false, fuel) == Some(SignedNumeral(l))
  {
    if l != I32_MIN {
      var fuel := PrintEnds(l, false);
    } else {
      forall fuel ensures PrintNested(l, false, fuel) == None {
        LeastNeverEnds(false, fuel);
      }
    }
    forall fuel ensures PrintNested(l, false, fuel) in {None, Some(SignedText(l, false))} {
      PrintOnce(l, false, fuel);
    }
  }

  lemma SignedTextStep(l: i32, recurse: bool)
    requires l != I32_MIN
    ensures l < 0 ==> Signed(l * -1) == -l && SignedText(l, recurse) == ['-'] + SignedText(-l, true)
    ensures l > 0 ==> SignedText(l, recurse) == SignedText(l / 10, true) + ['0' + (l % 10) as char]
    ensures l == 0 ==> SignedText(l, recurse) == if recurse then [] else ['0']
  {
  }

  /** printl, for the numbers it ends on (`PrintSignedEndsIff`). */
  method PrintSigned(console: Console, l: i32, recurse: bool)
    requires l != I32_MIN
    modifies console
    ensures console.out == old(console.out) + SignedText(l, recurse)
    decreases l < 0, if l < 0 then 0 - l else l
  {
    hide Positional, SignedText;
    SignedTextStep(l, recurse);
    if l < 0 {
      console.Put('-');
      PrintSigned(console, Signed(l * -1), true);
    } else if l > 0 {
      PrintSigned(console, l / 10, true);
      console.Put('0' + (l % 10) as char);
    } else if !recurse {
      console.Put('0');
    }
  }

  lemma SignedReads(l: int)
    ensures SignedValue(SignedNumeral(l)) == l
    ensures if l < 0 then SignedNumeral(l)[0] == '-' && Decimal(SignedNumeral(l)[1..]) else Decimal(SignedNumeral(l))
  {
    NumeralChars(if l < 0 then -l else l, 10, false);
    if l < 0 {
      NumeralReads(-l, 10, false);
      assert SignedNumeral(l)[1..] == Numeral(-l, 10, false);
    } else {
      NumeralReads(l, 10, false);
      var s := Numeral(l, 10, false);
      assert IsDigit(s[0], 10, false);
    }
  }

  /** The iterative and the recursive printers emit the same characters. */
  method PrintersAgree(a: Console, b: Console, number: u32)
    requires a != b && a.out == b.out
    modifies a, b
    ensures a.out == b.out
  {
    hide Numeral, Value, Writes, Hexadecimal, Decimal;
    PrintD(a, number);
    PrintUnsigned(b, number, false);
    PrintX(a, number);
    b.Put('0');
    b.Put('x');
    ghost var prefixed := b.out;
    PrintHex(b, number, false, false);
    assert a.out == prefixed + Numeral(number, 16, false);
  }
}
