/**
 * Decimal text of integers as Java renders and reads it: `%d` and `%0Nd`
 * of `String.format`, and `Long.parseLong`.
 */
module Numerals {
  import opened Wrappers
  import opened JavaLong

  predicate IsDigit(c: char) {
    '0' <= c <= '9'
  }

  function DigitValue(c: char): nat
    requires IsDigit(c)
  {
    (c as int) - ('0' as int)
  }

  function DigitChar(v: nat): (c: char)
    requires v < 10
    ensures IsDigit(c) && DigitValue(c) == v
  {
    (('0' as int) + v) as char
  }

  predicate AllDigits(s: string) {
    forall i | 0 <= i < |s| :: IsDigit(s[i])
  }

  /** The number that a string of decimal digits spells, most significant digit first. */
  function DigitsValue(s: string): nat
    requires AllDigits(s)
  {
    if s == [] then 0 else DigitsValue(s[..|s| - 1]) * 10 + DigitValue(s[|s| - 1])
  }

  function Pow10(k: nat): nat {
    if k == 0 then 1 else 10 * Pow10(k - 1)
  }

  /** `%d` of a non-negative number: its digits, without leading zeros, "0" for zero. */
  function Decimal(n: nat): string {
    if n < 10 then [DigitChar(n)] else Decimal(n / 10) + [DigitChar(n % 10)]
  }

  /** `%d` gives at least one digit, no leading zero, and reads back as the number. */
  lemma {:induction false} DecimalReadBack(n: nat)
    ensures 1 <= |Decimal(n)| && AllDigits(Decimal(n))
    ensures DigitsValue(Decimal(n)) == n
    ensures 1 < |Decimal(n)| ==> Decimal(n)[0] != '0'
  {
    if n >= 10 {
      DecimalReadBack(n / 10);
      var s := Decimal(n);
      assert s[..|s| - 1] == Decimal(n / 10);
    }
  }

  /** A number below 10^k needs at most k digits. */
  lemma {:induction false} DecimalLength(n: nat, k: nat)
    requires 1 <= k && n < Pow10(k)
    ensures |Decimal(n)| <= k
  {
    if n >= 10 {
      DecimalLength(n / 10, k - 1);
    }
  }

  function Zeros(k: nat): (s: string)
    ensures |s| == k
  {
    seq(k, _ => '0')
  }

  function PadLeft(digits: string, width: nat): string {
    if |digits| >= width then digits else Zeros(width - |digits|) + digits
  }

  /**
   * `String.format("%0<width>d", n)`: zeros fill the field up to `width`
   * characters after the sign; a wider number is not truncated.
   */
  function ZeroPadded(n: int, width: nat): string {
    if n < 0 then "-" + PadLeft(Decimal(-n), if width > 0 then width - 1 else 0)
    else PadLeft(Decimal(n), width)
  }

  /** Leading zeros do not change the value of a digit string. */
  lemma {:induction false} LeadingZeros(k: nat, s: string)
    requires AllDigits(s)
    ensures AllDigits(Zeros(k) + s)
    ensures DigitsValue(Zeros(k) + s) == DigitsValue(s)
  {
    var t := Zeros(k) + s;
    if s == [] {
      assert t == Zeros(k);
      ZerosValue(k);
    } else {
      var init := s[..|s| - 1];
      LeadingZeros(k, init);
      assert t[..|t| - 1] == Zeros(k) + init;
    }
  }

  lemma {:induction false} ZerosValue(k: nat)
    ensures DigitsValue(Zeros(k)) == 0
  {
    if k > 0 {
      ZerosValue(k - 1);
      assert Zeros(k)[..k - 1] == Zeros(k - 1);
    }
  }

  /**
   * A zero-padded non-negative number reads back as that number, and fills
   * exactly `width` characters when it has at most `width` digits.
   */
  lemma ZeroPaddedReadBack(n: nat, width: nat)
    ensures AllDigits(ZeroPadded(n, width))
    ensures DigitsValue(ZeroPadded(n, width)) == n
    ensures |ZeroPadded(n, width)| == if |Decimal(n)| >= width then |Decimal(n)| else width
    ensures 1 <= width && n < Pow10(width) ==> |ZeroPadded(n, width)| == width
  {
    var d := Decimal(n);
    DecimalReadBack(n);
    if |d| < width {
      LeadingZeros(width - |d|, d);
    }
    if 1 <= width && n < Pow10(width) {
      DecimalLength(n, width);
    }
  }

  /** The text `Long.toString` gives a `long`, which `Long.parseLong` reads back. */
  function LongText(v: int): string {
    if v < 0 then "-" + Decimal(-v) else Decimal(v)
  }

  /**
   * `Long.parseLong`: an optional '-' or '+' sign, then one or more decimal
   * digits, whose value must fit in a `long`; anything else is a
   * `NumberFormatException`, here `None`.
   */
  function ParseLong(s: string): (r: Option<int>)
    ensures r.Some? <==> s != [] && Unsigned(s) != [] && AllDigits(Unsigned(s)) && IsLong(SignedDigitsValue(s))
    ensures r.Some? ==> r.value == SignedDigitsValue(s)
    ensures r.Some? ==> IsLong(r.value)
    ensures s == [] ==> r.None?
    ensures s != [] && !IsDigit(s[0]) && s[0] != '-' && s[0] != '+' ==> r.None?
    ensures (exists i | 1 <= i < |s| :: !IsDigit(s[i])) ==> r.None?
    ensures r.Some? && s[0] == '-' ==> r.value <= 0
    ensures r.Some? && s[0] != '-' ==> r.value >= 0
  {
    if s == [] then None
    else if s[0] == '-' || s[0] == '+' then SignedValue(s[0] == '-', s[1..])
    else SignedValue(false, s)
  }

  /** The text after an optional leading sign. */
  function Unsigned(s: string): string
    requires s != []
  {
    if s[0] == '-' || s[0] == '+' then s[1..] else s
  }

  /** The value of an optionally signed string of digits. */
  function SignedDigitsValue(s: string): int
    requires s != [] && AllDigits(Unsigned(s))
  {
    if s[0] == '-' then -(DigitsValue(Unsigned(s)) as int) else DigitsValue(Unsigned(s))
  }

  function SignedValue(negative: bool, digits: string): (r: Option<int>)
    ensures r.Some? ==> IsLong(r.value) && digits != [] && AllDigits(digits)
    ensures r.Some? ==> r.value == if negative then -(DigitsValue(digits) as int) else DigitsValue(digits)
  {
    if digits == [] || !AllDigits(digits) then None
    else
      var v := if negative then -(DigitsValue(digits) as int) else DigitsValue(digits);
      if IsLong(v) then Some(v) else None
  }

  /** `Long.parseLong` reads back every `long` written in decimal. */
  lemma ParseLongText(v: int)
    requires IsLong(v)
    ensures ParseLong(LongText(v)) == Some(v)
  {
    var d := if v < 0 then Decimal(-v) else Decimal(v);
    DecimalReadBack(if v < 0 then -v else v);
    if v < 0 {
      assert LongText(v)[1..] == d;
    }
  }
}
