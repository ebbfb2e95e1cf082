/** Decimal text of integers: `String(n)` for an integer `n`, and
    `Number(s)` for the integer texts the source feeds it. */
module Decimal {
  import opened Wrappers
  import opened JsText

  function DigitChar(d: nat): (c: char)
    requires d < 10
    ensures IsDigit(c)
  {
    ('0' as int + d) as char
  }

  function DigitValue(c: char): (d: nat)
    requires IsDigit(c)
    ensures d < 10
  {
    c as int - '0' as int
  }

  /** Value of a string of decimal digits (leading zeros allowed). */
  function DigitsValue(s: string): nat
    requires AllDigits(s)
  {
    if |s| == 0 then 0 else DigitsValue(s[..|s| - 1]) * 10 + DigitValue(s[|s| - 1])
  }

  /** `String(n)` for a natural number: its shortest decimal text. */
  function NatToString(n: nat): (r: string)
    ensures |r| >= 1 && AllDigits(r)
    ensures r[0] == '0' ==> n == 0
  {
    if n < 10 then [DigitChar(n)] else NatToString(n / 10) + [DigitChar(n % 10)]
  }

  lemma {:induction false} NatToStringValue(n: nat)
    ensures DigitsValue(NatToString(n)) == n
  {
    if n >= 10 {
      NatToStringValue(n / 10);
      var r := NatToString(n);
      assert r[..|r| - 1] == NatToString(n / 10);
    }
  }

  /** `String(n)` for an integer. */
  function IntToString(n: int): (r: string)
    ensures |r| >= 1
    ensures n >= 0 ==> AllDigits(r)
    ensures n < 0 ==> r[0] == '-' && |r| >= 2 && AllDigits(r[1..])
  {
    if n < 0 then "-" + NatToString(-n) else NatToString(n)
  }

  /** `Number(s)` where it yields an integer: surrounding white space is
      ignored, the empty text is 0, an optional sign may precede the digits;
      every other text is `NaN`, written `None`. */
  function ToNumber(s: string): (r: Option<int>)
    ensures AllDigits(Trim(s)) ==> r == Some(if |Trim(s)| == 0 then 0 else DigitsValue(Trim(s)))
  {
    var t := Trim(s);
    if |t| == 0 then Some(0)
    else if AllDigits(t) then Some(DigitsValue(t))
    else if |t| >= 2 && t[0] == '-' && AllDigits(t[1..]) then Some(0 - DigitsValue(t[1..]) as int)
    else if |t| >= 2 && t[0] == '+' && AllDigits(t[1..]) then Some(DigitsValue(t[1..]))
    else None
  }

  /** `Number` looks only at the trimmed text. */
  lemma ToNumberTrim(s: string, t: string)
    requires Trim(s) == Trim(t)
    ensures ToNumber(s) == ToNumber(t)
  {
  }

  /** `Number(String(n)) == n`: the decimal text of every integer reads back
      as that integer. */
  lemma ToNumberOfIntToString(n: int)
    ensures ToNumber(IntToString(n)) == Some(n)
  {
    if n < 0 {
      ToNumberOfNegative(n);
    } else {
      ToNumberOfNatural(n);
    }
  }

  lemma ToNumberOfNatural(n: nat)
    ensures ToNumber(NatToString(n)) == Some(n)
  {
    var r := NatToString(n);
    assert IsTrimmed(r);
    TrimSpec(r);
    NatToStringValue(n);
  }

  lemma ToNumberOfNegative(n: int)
    requires n < 0
    ensures ToNumber("-" + NatToString(-n)) == Some(n)
  {
    NatToStringValue(-n);
    ToNumberMinus(NatToString(-n), -n);
  }

  /** A minus sign before digits reads as the negated value. */
  lemma ToNumberMinus(d: string, v: nat)
    requires |d| >= 1 && AllDigits(d) && DigitsValue(d) == v
    ensures ToNumber("-" + d) == Some(0 - v)
  {
    var t := "-" + d;
    assert t[1..] == d;
    assert IsTrimmed(t);
    TrimSpec(t);
    assert !AllDigits(t) by { assert !IsDigit(t[0]); }
  }

  /** A text with a letter in it is `NaN`. */
  lemma ToNumberNaN(s: string)
    requires IsTrimmed(s) && |s| >= 1 && 'a' <= s[|s| - 1] <= 'z'
    ensures ToNumber(s) == None
  {
    TrimSpec(s);
  }
}
