/**
 * Decimal rendering of integers, as `std::to_string(int)` produces it:
 * the digits of the magnitude, without leading zeros, preceded by '-'
 * for a negative value. A parser is given as the inverse, so that the
 * rendering is proved to lose no information.
 */
module Decimal {
  import opened Wrappers

  predicate IsDigit(c: char) {
    '0' <= c <= '9'
  }

  function DigitChar(d: int): (c: char)
    requires 0 <= d < 10
    ensures IsDigit(c)
  {
    ('0' as int + d) as char
  }

  function DigitValue(c: char): (d: int)
    requires IsDigit(c)
    ensures 0 <= d < 10 && DigitChar(d) == c
  {
    c as int - '0' as int
  }

  /** The digits of `n`, most significant first. */
  function Digits(n: nat): (r: string)
    ensures |r| >= 1
    decreases n
  {
    if n < 10 then [DigitChar(n)] else Digits(n / 10) + [DigitChar(n % 10)]
  }

  /** `std::to_string` of an `int`. */
  function FromInt(n: int): string
  {
    if n < 0 then "-" + Digits(-n) else Digits(n)
  }

  /** The rendering of a natural number is all digits, with a leading zero only for 0. */
  lemma {:induction false} DigitsShape(n: nat)
    ensures forall i :: 0 <= i < |Digits(n)| ==> IsDigit(Digits(n)[i])
    ensures Digits(n)[0] == '0' <==> n == 0
    decreases n
  {
    if n >= 10 {
      DigitsShape(n / 10);
      assert Digits(n)[0] == Digits(n / 10)[0];
    }
  }

  /** `std::to_string`: a leading '-' exactly for negative values, digits everywhere else. */
  lemma FromIntShape(n: int)
    ensures |FromInt(n)| >= 1
    ensures (FromInt(n)[0] == '-') <==> n < 0
    ensures forall i :: 0 < i < |FromInt(n)| ==> IsDigit(FromInt(n)[i])
    ensures n >= 0 ==> IsDigit(FromInt(n)[0])
  {
    if n < 0 {
      DigitsShape(-n);
      assert forall i :: 0 < i < |FromInt(n)| ==> FromInt(n)[i] == Digits(-n)[i - 1];
    } else {
      DigitsShape(n);
    }
  }

  /** Reads a non-empty string of decimal digits. */
  function ParseDigits(s: string): Option<nat>
  {
    if |s| == 0 || !IsDigit(s[|s| - 1]) then None
    else if |s| == 1 then Some(DigitValue(s[0]))
    else match ParseDigits(s[..|s| - 1])
      case None => None
      case Some(v) => Some(10 * v + DigitValue(s[|s| - 1]))
  }

  /** Reads an optionally negative decimal integer. */
  function ParseInt(s: string): Option<int>
  {
    if |s| > 0 && s[0] == '-' then
      match ParseDigits(s[1..])
      case None => None
      case Some(v) => Some(-(v as int))
    else
      match ParseDigits(s)
      case None => None
      case Some(v) => Some(v)
  }

  lemma {:induction false} ParseDigitsRoundTrip(n: nat)
    ensures ParseDigits(Digits(n)) == Some(n)
    decreases n
  {
    if n >= 10 {
      var s := Digits(n);
      assert s[..|s| - 1] == Digits(n / 10);
      ParseDigitsRoundTrip(n / 10);
      assert DigitValue(s[|s| - 1]) == n % 10;
    }
  }

  /** The rendering of every `int` reads back as that `int`. */
  lemma {:induction false} ParseIntRoundTrip(n: int)
    ensures ParseInt(FromInt(n)) == Some(n)
  {
    var s := FromInt(n);
    if n < 0 {
      var d := Digits(-n);
      assert s == "-" + d;
      assert s[1..] == d;
      ParseDigitsRoundTrip(-n);
      assert ParseInt(s) == Some(-(-n));
    } else {
      DigitsShape(n);
      assert s[0] != '-';
      ParseDigitsRoundTrip(n);
    }
  }

  /** Distinct integers have distinct renderings. */
  lemma FromIntInjective(a: int, b: int)
    ensures FromInt(a) == FromInt(b) ==> a == b
  {
    ParseIntRoundTrip(a);
    ParseIntRoundTrip(b);
  }
}
