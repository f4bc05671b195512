/**
 * Decimal text of an integer, as Arduino's `String(long)` renders it:
 * an optional leading '-' followed by the base-10 digits of the magnitude,
 * most significant first, with no leading zeros ("0" for zero).
 * `Parse` is the reading direction, used to state the round trip.
 */
module Decimal {
  import opened Wrappers

  predicate IsDigit(c: char) { '0' <= c <= '9' }

  predicate AllDigits(s: string) { forall i :: 0 <= i < |s| ==> IsDigit(s[i]) }

  /** A digit string as `Digits` produces it: non-empty, no superfluous leading zero. */
  predicate IsCanonical(s: string) {
    |s| > 0 && AllDigits(s) && (|s| > 1 ==> s[0] != '0')
  }

  function DigitChar(d: nat): (c: char)
    requires d < 10
    ensures IsDigit(c)
  {
    ['0', '1', '2', '3', '4', '5', '6', '7', '8', '9'][d]
  }

  function DigitValue(c: char): (d: nat)
    requires IsDigit(c)
    ensures d < 10 && DigitChar(d) == c
  {
    (c as int - '0' as int) as nat
  }

  /** Base-10 digits of a natural number, most significant first. */
  function Digits(n: nat): (s: string)
    ensures IsCanonical(s)
  {
    if n < 10 then [DigitChar(n)] else Digits(n / 10) + [DigitChar(n % 10)]
  }

  /** Decimal text of any integer, with a leading '-' when it is negative. */
  function ToDecimal(n: int): (s: string)
    ensures n < 0 ==> |s| > 1 && s[0] == '-' && IsCanonical(s[1..])
    ensures n >= 0 ==> IsCanonical(s)
  {
    if n < 0 then ['-'] + Digits(-n) else Digits(n)
  }

  /** Value of a digit string, read left to right. */
  function ParseDigits(s: string): nat
    requires AllDigits(s)
  {
    if s == [] then 0 else 10 * ParseDigits(s[..|s| - 1]) + DigitValue(s[|s| - 1])
  }

  /** Reads an optionally signed decimal integer; anything else is rejected. */
  function Parse(s: string): Option<int> {
    if |s| > 1 && s[0] == '-' && AllDigits(s[1..]) then Some(-(ParseDigits(s[1..]) as int))
    else if |s| > 0 && AllDigits(s) then Some(ParseDigits(s))
    else None
  }

  /** Reading back the digits of `n` gives `n`. */
  lemma {:induction false} ParseDigitsOfDigits(n: nat)
    ensures ParseDigits(Digits(n)) == n
  {
    var s := Digits(n);
    if n < 10 {
      assert s[..0] == [];
    } else {
      var p := Digits(n / 10);
      assert s[..|s| - 1] == p;
      ParseDigitsOfDigits(n / 10);
    }
  }

  /** A canonical digit string with more than one digit stands for at least 10. */
  lemma {:induction false} ParseDigitsLeading(s: string)
    requires IsCanonical(s)
    ensures ParseDigits(s) > 0 || s == ['0']
    ensures |s| > 1 ==> ParseDigits(s) >= 10
  {
    if |s| > 1 {
      var p := s[..|s| - 1];
      assert p[0] == s[0];
      assert IsCanonical(p);
      ParseDigitsLeading(p);
      assert ParseDigits(p) > 0;
    } else {
      assert s == [s[0]];
    }
  }

  /** Rendering the value of a canonical digit string gives the string back. */
  lemma {:induction false} DigitsOfParseDigits(s: string)
    requires IsCanonical(s)
    ensures Digits(ParseDigits(s)) == s
  {
    var n := ParseDigits(s);
    var c := s[|s| - 1];
    if |s| == 1 {
      assert s[..0] == [];
      assert s == [c];
    } else {
      var p := s[..|s| - 1];
      assert p[0] == s[0];
      assert IsCanonical(p);
      ParseDigitsLeading(s);
      DigitsOfParseDigits(p);
      assert n / 10 == ParseDigits(p) && n % 10 == DigitValue(c);
      assert s == p + [c];
    }
  }

  /** Text with a minus sign reads as the negated digits. */
  lemma ParseSigned(d: string)
    requires IsCanonical(d)
    ensures Parse(['-'] + d) == Some(-(ParseDigits(d) as int))
  {
    var s := ['-'] + d;
    assert s[1..] == d;
  }

  /** Plain digits read as their value. */
  lemma ParseUnsigned(d: string)
    requires IsCanonical(d)
    ensures Parse(d) == Some(ParseDigits(d) as int)
  {
    assert IsDigit(d[0]);
  }

  /** Parsing the decimal text of any integer yields that integer. */
  lemma ParseToDecimal(n: int)
    ensures Parse(ToDecimal(n)) == Some(n)
  {
    if n < 0 {
      var d := Digits(-n);
      assert ToDecimal(n) == ['-'] + d;
      ParseSigned(d);
      ParseDigitsOfDigits(-n);
      assert ParseDigits(d) == -n;
    } else {
      var d := Digits(n);
      assert ToDecimal(n) == d;
      ParseUnsigned(d);
      ParseDigitsOfDigits(n);
      assert ParseDigits(d) == n;
    }
  }

  /** The text of a positive number is just its digits: no sign, no leading zero. */
  lemma PositiveIsCanonical(n: int)
    requires n > 0
    ensures IsCanonical(ToDecimal(n)) && ToDecimal(n)[0] != '0'
  {
  }

  /** Two integers with the same decimal text are equal. */
  lemma ToDecimalInjective(m: int, n: int)
    requires ToDecimal(m) == ToDecimal(n)
    ensures m == n
  {
    ParseToDecimal(m);
    ParseToDecimal(n);
  }
}
