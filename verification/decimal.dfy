/** How a template literal such as `${seconds}` renders an integer: the
    shortest decimal numeral, with a leading '-' for negative values (integral
    Numbers below 1e21 in magnitude have no exponent form). `ReadInt` is the
    inverse used to show that every label the player renders can be read back. */
module Decimal {
  import opened Options

  predicate IsDigit(c: char) {
    '0' <= c <= '9'
  }

  predicate AllDigits(s: string) {
    forall i :: 0 <= i < |s| ==> IsDigit(s[i])
  }

  function DigitChar(d: nat): (c: char)
    requires d < 10
    ensures IsDigit(c)
  {
    (48 + d) as char
  }

  function DigitValue(c: char): (d: nat)
    requires IsDigit(c)
    ensures d < 10 && DigitChar(d) == c
  {
    (c as int) - 48
  }

  /** The value of a string of decimal digits. */
  function ValueOf(s: string): nat
    requires AllDigits(s)
  {
    if |s| == 0 then 0
    else ValueOf(s[..|s| - 1]) * 10 + DigitValue(s[|s| - 1])
  }

  /** The decimal numeral of a natural number. */
  function NatToString(n: nat): (s: string)
    ensures |s| >= 1 && AllDigits(s)
    ensures |s| > 1 ==> s[0] != '0'
  {
    if n < 10 then [DigitChar(n)]
    else NatToString(n / 10) + [DigitChar(n % 10)]
  }

  /** The numeral JavaScript prints for the integer `n`. */
  function IntToString(n: int): string {
    if n < 0 then "-" + NatToString(-n) else NatToString(n)
  }

  lemma {:induction false} ValueOfNatToString(n: nat)
    ensures ValueOf(NatToString(n)) == n
  {
    if n >= 10 {
      var s := NatToString(n);
      ValueOfNatToString(n / 10);
      assert s[..|s| - 1] == NatToString(n / 10);
    }
  }

  /** The length of the longest prefix of `s` made of digits. */
  function DigitRun(s: string): (k: nat)
    ensures k <= |s| && AllDigits(s[..k])
    ensures k < |s| ==> !IsDigit(s[k])
  {
    if |s| > 0 && IsDigit(s[0]) then
      var k := 1 + DigitRun(s[1..]);
      assert forall i :: 1 <= i < k ==> s[..k][i] == s[1..][..k - 1][i - 1];
      k
    else
      0
  }

  lemma {:induction false} DigitRunOfNumeral(digits: string, rest: string)
    requires AllDigits(digits)
    requires |rest| == 0 || !IsDigit(rest[0])
    ensures DigitRun(digits + rest) == |digits|
  {
    if |digits| > 0 {
      DigitRunOfNumeral(digits[1..], rest);
      assert (digits + rest)[1..] == digits[1..] + rest;
    } else {
      assert digits + rest == rest;
    }
  }

  /** Reads a non-empty run of digits at the start of `s`; returns its value
      and the text after it. */
  function ReadNat(s: string): Option<(int, string)> {
    var k := DigitRun(s);
    if k == 0 then None else Some((ValueOf(s[..k]), s[k..]))
  }

  /** Reads an optional '-' and then a non-empty run of digits at the start of
      `s`; returns the value read and the text after it. */
  function ReadInt(s: string): Option<(int, string)> {
    if |s| > 0 && s[0] == '-' then
      match ReadNat(s[1..])
      case None => None
      case Some((v, rest)) => Some((-v, rest))
    else
      ReadNat(s)
  }

  /** Reading back a rendered integer that is followed by a non-digit gives
      the integer and the text that follows. */
  lemma ReadIntToString(n: int, rest: string)
    requires |rest| == 0 || !IsDigit(rest[0])
    ensures ReadInt(IntToString(n) + rest) == Some((n, rest))
  {
    if n < 0 {
      var t := NatToString(-n) + rest;
      ReadNatNumeral(-n, rest);
      assert IntToString(n) + rest == "-" + t;
      ReadIntNegative(t);
    } else {
      var t := NatToString(n) + rest;
      ReadNatNumeral(n, rest);
      assert IntToString(n) + rest == t;
      assert IsDigit(t[0]);
    }
  }

  /** A '-' followed by a numeral reads as the negated numeral. */
  lemma ReadIntNegative(t: string)
    requires ReadNat(t).Some?
    ensures ReadInt("-" + t) == Some((-ReadNat(t).value.0, ReadNat(t).value.1))
  {
    assert ("-" + t)[1..] == t;
  }

  /** The numeral of `m` followed by a non-digit reads back as `m` and the
      text after it. */
  lemma ReadNatNumeral(m: nat, rest: string)
    requires |rest| == 0 || !IsDigit(rest[0])
    ensures ReadNat(NatToString(m) + rest) == Some((m, rest))
  {
    var digits := NatToString(m);
    ValueOfNatToString(m);
    DigitRunOfNumeral(digits, rest);
    var s := digits + rest;
    assert s[..|digits|] == digits;
    assert s[|digits|..] == rest;
  }

  /** Distinct integers render as distinct numerals. */
  lemma IntToStringInjective(m: int, n: int)
    requires IntToString(m) == IntToString(n)
    ensures m == n
  {
    ReadIntToString(m, "");
    ReadIntToString(n, "");
    assert IntToString(m) + "" == IntToString(m);
    assert IntToString(n) + "" == IntToString(n);
  }
}
