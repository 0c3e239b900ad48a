/** Extension methods on int: the number of decimal digits, and rendering
    with a fixed number of characters, zero-padded on the left. */
module IntegerExtensions {
  import opened Wrappers
  import opened Numerics
  import opened StringExtensions

  /** IntLength: 0 for a negative value, 1 for zero, otherwise the number of
      decimal digits (the runtime computes floor(log10(value)) + 1). */
  function IntLength(value: Int32): (r: int)
    ensures value < 0 ==> r == 0
    ensures value == 0 ==> r == 1
    ensures value > 0 ==> 1 <= r && Pow10(r - 1) <= value < Pow10(r)
    ensures value >= 0 ==> r == |DecimalString(value)|
  {
    if value < 0 then 0
    else if value == 0 then 1
    else
      DigitsLength(value);
      |Digits(value)|
  }

  /** The documented example: 98413518 has 8 digits. */
  lemma IntLengthExample()
    ensures IntLength(98413518) == 8
  {
    assert Pow10(7) <= 98413518 < Pow10(8);
    DigitsLengthUnique(98413518, 8);
  }

  /** The string ConvertToLongString returns for a requested length n >= 0:
      the plain decimal string when the value has more digits than n, else
      the last n characters of n zeros followed by the decimal string. */
  function LongString(value: Int32, n: nat): string {
    if IntLength(value) > n then DecimalString(value)
    else
      var padded := Zeros(n) + DecimalString(value);
      padded[|padded| - n..]
  }

  /** ConvertToLongString: the length's sign is dropped (Math.Abs, which
      throws for int.MinValue), a StringBuilder collects that many zeros,
      the value's decimal string goes after them, and Right keeps the last
      |length| characters. */
  method ConvertToLongString(value: Int32, length: Int32) returns (r: string)
    requires length != MinInt32
    ensures r == LongString(value, Abs(length))
    ensures IntLength(value) > Abs(length) ==> r == DecimalString(value)
    ensures IntLength(value) <= Abs(length) ==> |r| == Abs(length)
  {
    var n := Abs(length);
    var intLength := IntLength(value);
    if intLength > n {
      return DecimalString(value);
    }
    var builder := "";
    for i := 0 to n
      invariant builder == Zeros(i)
    {
      builder := builder + "0";
    }
    var stringValue := builder + DecimalString(value);
    assert stringValue[|stringValue| - 1] == DecimalString(value)[|DecimalString(value)| - 1];
    DecimalStringEndsInDigit(value);
    var right := Right(Some(stringValue), n);
    r := right.value;
  }

  /** A decimal string ends in a digit, so it is never white space. */
  lemma DecimalStringEndsInDigit(v: int)
    ensures IsDigit(DecimalString(v)[|DecimalString(v)| - 1])
  {
    var d := if v < 0 then -v else v;
    assert DecimalString(v)[|DecimalString(v)| - 1] == Digits(d)[|Digits(d)| - 1];
  }

  /** For a value that fits, the result is the digits zero-padded to exactly
      the requested length, and it reads back as the value. */
  lemma LongStringNonNegative(value: Int32, n: nat)
    requires 0 <= value && IntLength(value) <= n
    ensures LongString(value, n) == Zeros(n - IntLength(value)) + Digits(value)
    ensures AllDigits(LongString(value, n)) && ParseDigits(LongString(value, n)) == value
  {
    var t := Digits(value);
    assert DecimalString(value) == t;
    SuffixAfterZeros(n, t);
    ParseDigitsOfDigits(value);
    ParseDigitsLeadingZeros(n - |t|, t);
  }

  /** A value with more digits than requested is rendered in full and reads
      back as the value. */
  lemma LongStringTooLong(value: Int32, n: nat)
    requires 0 <= value && IntLength(value) > n
    ensures LongString(value, n) == Digits(value)
    ensures ParseDigits(LongString(value, n)) == value
  {
    ParseDigitsOfDigits(value);
  }

  /** The last n characters of n zeros followed by t. */
  lemma SuffixAfterZeros(n: nat, t: string)
    ensures n >= |t| ==> (Zeros(n) + t)[|t|..] == Zeros(n - |t|) + t
    ensures n < |t| ==> (Zeros(n) + t)[|t|..] == t[|t| - n..]
  {
    if n >= |t| {
      assert (Zeros(n) + t)[|t|..] == Zeros(n)[|t|..] + t;
    } else {
      assert (Zeros(n) + t)[|t|..] == t[|t| - n..];
    }
  }

  /** For a negative value the padding always applies, and the sign survives
      only when the length leaves room for it. */
  lemma LongStringNegative(value: Int32, n: nat)
    requires value < 0
    ensures |LongString(value, n)| == n
    ensures var d := Digits(-(value as int));
      && (n > |d| ==> LongString(value, n) == Zeros(n - |d| - 1) + "-" + d)
      && (n <= |d| ==> LongString(value, n) == d[|d| - n..])
  {
    var d := Digits(-(value as int));
    if n > |d| {
      NegativePadded(value, n, d);
    } else {
      NegativeCut(value, n, d);
    }
  }

  lemma NegativePadded(value: Int32, n: nat, d: string)
    requires value < 0 && d == Digits(-(value as int)) && n > |d|
    ensures LongString(value, n) == Zeros(n - |d| - 1) + "-" + d
  {
    var t := DecimalString(value);
    assert t == "-" + d;
    assert IntLength(value) == 0;
    assert LongString(value, n) == (Zeros(n) + t)[|t|..];
    SuffixAfterZeros(n, t);
    assert Zeros(n - |t|) + t == Zeros(n - |d| - 1) + "-" + d;
  }

  lemma NegativeCut(value: Int32, n: nat, d: string)
    requires value < 0 && d == Digits(-(value as int)) && n <= |d|
    ensures LongString(value, n) == d[|d| - n..]
  {
    var t := DecimalString(value);
    assert t == "-" + d;
    assert IntLength(value) == 0;
    assert LongString(value, n) == (Zeros(n) + t)[|t|..];
    SuffixAfterZeros(n, t);
    SuffixAfterSign(d, n);
  }

  lemma SuffixAfterSign(d: string, n: nat)
    requires n <= |d|
    ensures ("-" + d)[|d| + 1 - n..] == d[|d| - n..]
  {
  }

  /** The documented examples, and the sign loss. */
  lemma LongStringExamples()
    ensures LongString(15, 5) == "00015"
    ensures LongString(1234, 2) == "1234"
    ensures LongString(-15, 2) == "15"
  {
    assert Digits(15) == "15";
    assert Digits(1234) == "1234";
    LongStringNonNegative(15, 5);
    LongStringNegative(-15, 2);
  }
}
