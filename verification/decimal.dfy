/**
 * Decimal numerals: Python's `int(s)` on an optionally signed run of decimal
 * digits, and `str(n)` / `"%s" % n` on an integer.
 */
module Decimal {
  import opened Wrappers

  predicate IsDigit(c: char) {
    '0' <= c <= '9'
  }

  /** A non-empty run of decimal digits. */
  predicate IsDigits(s: string) {
    |s| > 0 && forall i :: 0 <= i < |s| ==> IsDigit(s[i])
  }

  function DigitValue(c: char): (d: nat)
    requires IsDigit(c)
    ensures d < 10
  {
    (c as int) - ('0' as int)
  }

  function DigitChar(d: nat): (c: char)
    requires d < 10
    ensures IsDigit(c) && DigitValue(c) == d
  {
    (('0' as int) + d) as char
  }

  /** The number a run of digits denotes, most significant digit first. */
  function DigitsValue(s: string): nat
    requires forall i :: 0 <= i < |s| ==> IsDigit(s[i])
    decreases |s|
  {
    if |s| == 0 then 0
    else 10 * DigitsValue(s[..|s| - 1]) + DigitValue(s[|s| - 1])
  }

  /**
   * `int(s)` on numerals without whitespace: the model accepts exactly an
   * optional `+` or `-` followed by decimal digits. Python 2's `int()` also
   * skips whitespace around the numeral and between the sign and its digits.
   */
  function ParseInt(s: string): (r: Option<int>)
    ensures r.Some? <==> IsDigits(s) || (|s| > 0 && (s[0] == '+' || s[0] == '-') && IsDigits(s[1..]))
    ensures r.Some? && |s| > 0 && s[0] == '-' ==> r.value <= 0
    ensures r.Some? && |s| > 0 && s[0] != '-' ==> r.value >= 0
  {
    if |s| > 0 && (s[0] == '+' || s[0] == '-') then
      if IsDigits(s[1..]) then
        var n: int := DigitsValue(s[1..]);
        Some(if s[0] == '-' then -n else n)
      else None
    else if IsDigits(s) then Some(DigitsValue(s))
    else None
  }

  /** `str(n)` for a natural number: its digits without leading zeros. */
  function NatToDecimal(n: nat): (s: string)
    ensures IsDigits(s)
    ensures s[0] == '0' ==> n == 0 && s == "0"
    decreases n
  {
    if n < 10 then [DigitChar(n)]
    else NatToDecimal(n / 10) + [DigitChar(n % 10)]
  }

  /** `str(n)` for any integer: a minus sign before the digits of a negative one. */
  function IntToDecimal(n: int): (s: string)
    ensures |s| > 0
  {
    if n < 0 then "-" + NatToDecimal(-n) else NatToDecimal(n)
  }

  /** The digits `str` writes denote the number they were written from. */
  lemma {:induction false} NatToDecimalValue(n: nat)
    ensures DigitsValue(NatToDecimal(n)) == n
    decreases n
  {
    var s := NatToDecimal(n);
    if n >= 10 {
      NatToDecimalValue(n / 10);
      assert s[..|s| - 1] == NatToDecimal(n / 10);
    }
  }

  /** `int(str(n)) == n` for every integer. */
  lemma ParseIntToDecimal(n: int)
    ensures ParseInt(IntToDecimal(n)) == Some(n)
  {
    if n < 0 {
      ParseNegative(-n);
    } else {
      ParseNatural(n);
    }
  }

  lemma ParseNatural(n: nat)
    ensures ParseInt(NatToDecimal(n)) == Some(n)
  {
    var s := NatToDecimal(n);
    NatToDecimalValue(n);
    assert IsDigit(s[0]);
    assert !(s[0] == '+' || s[0] == '-');
  }

  lemma ParseNegative(m: nat)
    requires m > 0
    ensures ParseInt("-" + NatToDecimal(m)) == Some(-(m as int))
  {
    var s := "-" + NatToDecimal(m);
    NatToDecimalValue(m);
    assert s[0] == '-';
    assert s[1..] == NatToDecimal(m);
    assert IsDigits(s[1..]);
    assert DigitsValue(s[1..]) == m;
  }

  /** A leading zero adds nothing to the number a run of digits denotes. */
  lemma {:induction false} DigitsValueLeadingZero(s: string)
    requires forall i :: 0 <= i < |s| ==> IsDigit(s[i])
    ensures DigitsValue("0" + s) == DigitsValue(s)
    decreases |s|
  {
    var z := "0" + s;
    if |s| == 0 {
      assert z[..0] == [];
    } else {
      assert z[..|z| - 1] == "0" + s[..|s| - 1];
      assert z[|z| - 1] == s[|s| - 1];
      DigitsValueLeadingZero(s[..|s| - 1]);
    }
  }

  /** `int("0" + s) == int(s)`: leading zeros are accepted and ignored. */
  lemma ParseIntLeadingZero(s: string)
    requires IsDigits(s)
    ensures ParseInt("0" + s) == ParseInt(s)
  {
    DigitsValueLeadingZero(s);
    assert ("0" + s)[0] == '0';
    assert IsDigits("0" + s);
    assert !(s[0] == '+' || s[0] == '-');
  }

  /** `int("+" + s) == int(s)`: a plus sign changes nothing. */
  lemma ParseIntPlus(s: string)
    requires IsDigits(s)
    ensures ParseInt("+" + s) == ParseInt(s)
  {
    assert ("+" + s)[0] == '+' && ("+" + s)[1..] == s;
    assert !(s[0] == '+' || s[0] == '-');
  }

  /** `int("-" + s) == -int(s)`: a minus sign negates the digits' number, and `"-0"` is 0. */
  lemma ParseIntMinus(s: string)
    requires IsDigits(s)
    ensures ParseInt(s).Some?
    ensures ParseInt("-" + s) == Some(-ParseInt(s).value)
  {
    assert ("-" + s)[0] == '-' && ("-" + s)[1..] == s;
    assert !(s[0] == '+' || s[0] == '-');
  }

  /** Distinct numbers are written differently. */
  lemma NatToDecimalInjective(a: nat, b: nat)
    requires a != b
    ensures NatToDecimal(a) != NatToDecimal(b)
  {
    NatToDecimalValue(a);
    NatToDecimalValue(b);
  }
}
