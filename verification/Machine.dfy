/** Register and memory widths shared by the boot code and the C code. */
module Machine {

  type u8 = x: int | 0 <= x < 0x100
  type u16 = x: int | 0 <= x < 0x1_0000
  type u32 = x: int | 0 <= x < 0x1_0000_0000
  type u64 = x: int | 0 <= x < 0x1_0000_0000_0000_0000

  type i32 = x: int | -0x8000_0000 <= x < 0x8000_0000

  const I32_MIN: int := -0x8000_0000
  const I32_MAX: int := 0x7FFF_FFFF

  const TWO16: int := 0x1_0000
  const TWO32: int := 0x1_0000_0000
  const TWO64: int := 0x1_0000_0000_0000_0000

  /** A little-endian word read from a byte string; bytes outside it read as 0. */
  function Byte(s: seq<u8>, i: int): u8 {
    if 0 <= i < |s| then s[i] else 0
  }

  /** A word from its low and high byte. */
  function Join(low: u8, high: u8): u16 {
    low as int + 0x100 * high as int
  }

  function Word(s: seq<u8>, i: int): u16 {
    Join(Byte(s, i), Byte(s, i + 1))
  }

  function Dword(s: seq<u8>, i: int): u32 {
    Byte(s, i) + 0x100 * Byte(s, i + 1) + 0x1_0000 * Byte(s, i + 2) + 0x100_0000 * Byte(s, i + 3)
  }

  /** The four bytes of a double word, least significant first. */
  function DwordBytes(x: u32): seq<u8> {
    [x % 256, x / 256 % 256, x / 65536 % 256, x / 16777216]
  }

  lemma DwordOfBytes(s: seq<u8>, i: nat, x: u32)
    requires i + 4 <= |s| && s[i..i + 4] == DwordBytes(x)
    ensures Dword(s, i) == x
  {
    var part := s[i..i + 4];
    assert s[i] == part[0] && s[i + 1] == part[1] && s[i + 2] == part[2] && s[i + 3] == part[3];
    assert x / 65536 == x / 256 / 256 && x / 16777216 == x / 65536 / 256;
  }

  lemma WordOfBytes(s: seq<u8>, i: nat, x: u16)
    requires i + 2 <= |s| && s[i] == x % 256 && s[i + 1] == x / 256
    ensures Word(s, i) == x
  {
  }

  function LowByte(x: u16): u8 {
    x % 256
  }

  /** shl $5 on a word. */
  function ShiftLeft5(x: u16): u16 {
    x * 32 % TWO16
  }

  /** A product under a name of its own, so that proofs need not look into it. */
  function Mul(x: nat, y: nat): nat {
    MulMono(0, x, y);
    x * y
  }

  /** A quotient under a name of its own. */
  function Div(x: nat, y: nat): nat
    requires y > 0
  {
    x / y
  }

  function Mod(x: nat, y: nat): nat
    requires y > 0
  {
    x % y
  }

  lemma DivModParts(x: nat, y: nat)
    requires y > 0
    ensures x == Mul(Div(x, y), y) + Mod(x, y) && Mod(x, y) < y && Div(x, y) <= x
  {
    MulMono(1, y, Div(x, y));
  }

  function Pow2(k: nat): nat {
    if k == 0 then 1 else 2 * Pow2(k - 1)
  }

  /** Quotient and remainder are determined by the defining equation. */
  lemma DivModUnique(a: int, b: int, q: int, r: int)
    requires 0 <= r < b
    requires a == q * b + r
    ensures a / b == q && a % b == r
  {
    var q', r' := a / b, a % b;
    assert a == q' * b + r';
    assert (q' + 1) * b == q' * b + b && (q + 1) * b == q * b + b;
    if q' < q {
      MulMono(q' + 1, q, b);
    } else if q < q' {
      MulMono(q + 1, q', b);
    }
  }

  lemma MulMono(x: int, y: int, k: int)
    requires x <= y && 0 <= k
    ensures x * k <= y * k
  {
    if x < y {
      assert (y - x) * k >= 0;
    }
  }

  lemma DivBound(a: int, b: int, n: int)
    requires 0 < b && 0 <= a < n * b
    ensures 0 <= a / b < n && 0 <= a % b < b
    ensures a == a / b * b + a % b
  {
    if a / b >= n {
      MulMono(n, a / b, b);
    }
  }

  lemma DivExact(a: int, b: int)
    requires b > 0 && a % b == 0
    ensures a / b * b == a
  {
  }

  lemma NamedMono(x: nat, y: nat, k: nat)
    requires x <= y
    ensures Mul(x, k) <= Mul(y, k)
  {
    MulMono(x, y, k);
  }

  lemma NamedZero(k: nat)
    ensures Mul(0, k) == 0
  {
  }

  lemma MulLess(x: int, y: int, k: int)
    requires x < y && 0 < k
    ensures x * k < y * k
  {
    MulMono(x + 1, y, k);
    MulSum(x, 1, k);
  }

  lemma MulAssoc(x: int, y: int, k: int)
    ensures x * (y * k) == x * y * k
  {
  }

  lemma MulOne(x: nat)
    ensures Mul(1, x) == x
  {
  }

  lemma MulSum(x: int, y: int, k: int)
    ensures (x + y) * k == x * k + y * k
  {
  }

  /** A part of a part. */
  lemma PartOfPart(s: seq<u8>, low: nat, high: nat, i: nat, n: nat)
    requires low <= high <= |s| && low + i + n <= high
    ensures s[low..high][i..i + n] == s[low + i..low + i + n]
    ensures n >= 1 ==> s[low..high][i] == s[low + i]
    ensures n >= 2 ==> s[low..high][i + 1] == s[low + i + 1]
  {
    var a, b := s[low..high][i..i + n], s[low + i..low + i + n];
    forall k | 0 <= k < n ensures a[k] == b[k] {
    }
  }

  /** The word at `i` is the word of those two bytes. */
  lemma WordOfPart(s: seq<u8>, i: nat)
    requires i + 2 <= |s|
    ensures Word(s, i) == Join(s[i], s[i + 1])
  {
  }

  /** `after` is `before` with `data` written from index `at` on. */
  predicate Written(before: seq<u8>, after: seq<u8>, at: nat, data: seq<u8>) {
    at + |data| <= |before| && after == before[..at] + data + before[at + |data|..]
  }

  lemma WrittenInside(before: seq<u8>, after: seq<u8>, at: nat, data: seq<u8>)
    requires Written(before, after, at, data)
    ensures at + |data| <= |after| == |before| && after[at..at + |data|] == data
  {
  }

  lemma WrittenElsewhere(before: seq<u8>, after: seq<u8>, at: nat, data: seq<u8>)
    requires Written(before, after, at, data)
    ensures |after| == |before|
    ensures forall a :: 0 <= a < |before| && !(at <= a < at + |data|) ==> after[a] == before[a]
  {
  }

  lemma WrittenOutside(before: seq<u8>, after: seq<u8>, at: nat, data: seq<u8>, low: nat, high: nat)
    requires Written(before, after, at, data)
    requires low <= high <= |before| && (high <= at || at + |data| <= low)
    ensures |after| == |before| && after[low..high] == before[low..high]
  {
  }
}
