/** Integers as the runtime stores them (32-bit two's complement, with
    unchecked arithmetic wrapping around) and as it writes them (decimal
    digits, a leading '-' when negative). */
module Numerics {

  const MinInt32: int := -0x8000_0000
  const MaxInt32: int := 0x7FFF_FFFF
  const Modulus32: int := 0x1_0000_0000

  type Int32 = x: int | MinInt32 <= x <= MaxInt32

  /** The result of unchecked 32-bit arithmetic whose exact value is x: the
      one Int32 congruent to x modulo 2^32. */
  function Wrap32(x: int): (r: Int32)
    ensures (r - x) % Modulus32 == 0
    ensures MinInt32 <= x <= MaxInt32 ==> r == x
  {
    var r := (x - MinInt32) % Modulus32 + MinInt32;
    WrapCongruent(x, r);
    r
  }

  lemma WrapCongruent(x: int, r: int)
    requires r == (x - MinInt32) % Modulus32 + MinInt32
    ensures (r - x) % Modulus32 == 0
    ensures MinInt32 <= x <= MaxInt32 ==> r == x
  {
    var q := (x - MinInt32) / Modulus32;
    assert x - MinInt32 == q * Modulus32 + (r - MinInt32);
    assert r - x == (-q) * Modulus32;
  }

  /** Wrapping depends only on the value modulo 2^32, so wrapping a partial
      sum first does not change a wrapped total. */
  lemma {:induction false} WrapAdd(a: int, b: int)
    ensures Wrap32(Wrap32(a) + b) == Wrap32(a + b)
  {
    var x, y := Wrap32(a) + b, a + b;
    var k := (Wrap32(a) - a) / Modulus32;
    assert Wrap32(a) - a == k * Modulus32;
    assert x - MinInt32 == (y - MinInt32) + k * Modulus32;
    ModShift(y - MinInt32, k);
  }

  /** Adding a, then b, to a wrapped count is adding their wrapped sum. */
  lemma WrapAddTwice(c: int, a: int, b: int)
    ensures Wrap32(b + Wrap32(a + c)) == Wrap32(Wrap32(a + b) + c)
  {
    WrapAdd(a + c, b);
    WrapAdd(a + b, c);
    assert Wrap32(a + c) + b == b + Wrap32(a + c);
  }

  lemma ModShift(x: int, k: int)
    ensures (x + k * Modulus32) % Modulus32 == x % Modulus32
  {
    var q, r := x / Modulus32, x % Modulus32;
    assert x + k * Modulus32 == (q + k) * Modulus32 + r;
  }

  // ---------------------------------------------------------------------
  // Decimal digits
  // ---------------------------------------------------------------------

  function Pow10(n: nat): (r: nat)
    ensures r >= 1
  {
    if n == 0 then 1 else 10 * Pow10(n - 1)
  }

  predicate IsDigit(c: char) {
    '0' <= c <= '9'
  }

  predicate AllDigits(s: string) {
    forall i :: 0 <= i < |s| ==> IsDigit(s[i])
  }

  function DigitChar(d: int): (c: char)
    requires 0 <= d < 10
    ensures IsDigit(c)
  {
    ('0' as int + d) as char
  }

  function DigitValue(c: char): (d: int)
    requires IsDigit(c)
    ensures 0 <= d < 10
  {
    c as int - '0' as int
  }

  /** The decimal digits of n, most significant first, without leading
      zeros ("0" for zero). */
  function Digits(n: nat): (s: string)
    ensures |s| >= 1 && AllDigits(s)
  {
    if n < 10 then [DigitChar(n)] else Digits(n / 10) + [DigitChar(n % 10)]
  }

  /** Int32.ToString() under the invariant number format. */
  function DecimalString(v: int): (s: string)
    ensures |s| >= 1
  {
    if v < 0 then "-" + Digits(-v) else Digits(v)
  }

  /** The decimal string reads back as the value: the digits of v, after a
      '-' exactly when v is negative. */
  lemma DecimalStringReadsBack(v: int)
    ensures var s := DecimalString(v);
      && (s[0] == '-' <==> v < 0)
      && (v >= 0 ==> AllDigits(s) && ParseDigits(s) == v)
      && (v < 0 ==> AllDigits(s[1..]) && ParseDigits(s[1..]) == -v)
  {
    var s := DecimalString(v);
    if v < 0 {
      ParseDigitsOfDigits(-v);
      assert s[1..] == Digits(-v);
    } else {
      ParseDigitsOfDigits(v);
      assert IsDigit(s[0]);
    }
  }

  /** n '0' characters. */
  function Zeros(n: nat): (s: string)
    ensures |s| == n && forall i :: 0 <= i < n ==> s[i] == '0'
  {
    seq(n, _ => '0')
  }

  /** Reads a string of digits as a decimal number; leading zeros are
      allowed. */
  function ParseDigits(s: string): (n: nat)
    requires AllDigits(s)
  {
    if s == [] then 0 else ParseDigits(s[..|s| - 1]) * 10 + DigitValue(s[|s| - 1])
  }

  /** The digits of n read back as n. */
  lemma {:induction false} ParseDigitsOfDigits(n: nat)
    ensures ParseDigits(Digits(n)) == n
  {
    if n >= 10 {
      ParseDigitsOfDigits(n / 10);
      var s := Digits(n);
      assert s[..|s| - 1] == Digits(n / 10);
    }
  }

  /** Leading zeros do not change the value read. */
  lemma {:induction false} ParseDigitsLeadingZeros(k: nat, s: string)
    requires AllDigits(s)
    ensures AllDigits(Zeros(k) + s)
    ensures ParseDigits(Zeros(k) + s) == ParseDigits(s)
  {
    var t := Zeros(k) + s;
    if s == [] {
      assert t == Zeros(k);
      ParseZeros(k);
    } else {
      assert t[..|t| - 1] == Zeros(k) + s[..|s| - 1];
      ParseDigitsLeadingZeros(k, s[..|s| - 1]);
    }
  }

  lemma {:induction false} ParseZeros(k: nat)
    ensures ParseDigits(Zeros(k)) == 0
  {
    if k > 0 {
      assert Zeros(k)[..k - 1] == Zeros(k - 1);
      ParseZeros(k - 1);
    }
  }

  /** The number of digits of n is the exponent of the first power of ten
      above it; in particular the first digit is never '0' unless n is. */
  lemma {:induction false} DigitsLength(n: nat)
    ensures n < Pow10(|Digits(n)|)
    ensures n > 0 ==> Pow10(|Digits(n)| - 1) <= n
  {
    if n >= 10 {
      DigitsLength(n / 10);
    }
  }

  /** Digits(n) has exactly k digits when 10^(k-1) <= n < 10^k. */
  lemma {:induction false} DigitsLengthUnique(n: nat, k: nat)
    requires 1 <= k && Pow10(k - 1) <= n < Pow10(k)
    ensures |Digits(n)| == k
  {
    if n >= 10 {
      assert k >= 2;
      DigitsLengthUnique(n / 10, k - 1);
    }
  }

  /** n written with at least width digits, zero-padded on the left: the
      .NET custom format specifiers "dd", "MM", "yyyy" and the like. */
  function PadDigits(n: nat, width: nat): (s: string)
    ensures |s| == if |Digits(n)| < width then width else |Digits(n)|
    ensures AllDigits(s)
  {
    if |Digits(n)| < width then Zeros(width - |Digits(n)|) + Digits(n) else Digits(n)
  }

  /** A padded number reads back as itself, and has exactly width digits
      when it is below 10^width (zero is still written "0" at width 0). */
  lemma PadDigitsRoundTrip(n: nat, width: nat)
    ensures ParseDigits(PadDigits(n, width)) == n
    ensures 1 <= width && n < Pow10(width) ==> |PadDigits(n, width)| == width
  {
    var d := Digits(n);
    ParseDigitsOfDigits(n);
    if |d| < width {
      ParseDigitsLeadingZeros(width - |d|, d);
    }
    if 1 <= width && n < Pow10(width) {
      DigitsFitWidth(n, width);
    }
  }

  /** A number below 10^width has at most width digits. */
  lemma DigitsFitWidth(n: nat, width: nat)
    requires 1 <= width && n < Pow10(width)
    ensures |Digits(n)| <= width
  {
    DigitsLength(n);
    if n > 0 && |Digits(n)| > width {
      Pow10Monotonic(width, |Digits(n)| - 1);
    }
  }

  lemma {:induction false} Pow10Monotonic(a: nat, b: nat)
    requires a <= b
    ensures Pow10(a) <= Pow10(b)
  {
    if a < b {
      Pow10Monotonic(a, b - 1);
    }
  }
}
