/**
 * Decimal text: Python's str() of an integer (an optional '-' and the digits
 * with no leading zeros) and int() of a string, restricted to ASCII input of
 * an optional sign followed by one or more digits.
 */
module Decimal {
  import opened Wrappers
  import Positional

  predicate IsDecDigit(c: char)
  {
    '0' <= c <= '9'
  }

  predicate IsDecString(s: string)
  {
    forall i :: 0 <= i < |s| ==> IsDecDigit(s[i])
  }

  /** Non-empty digits with no leading zero unless the number is zero. */
  predicate IsCanonicalDec(s: string)
  {
    |s| > 0 && IsDecString(s) && (s[0] == '0' ==> |s| == 1)
  }

  function DigitValue(c: char): (d: nat)
    requires IsDecDigit(c)
    ensures d < 10
  {
    c as int - '0' as int
  }

  function DigitChar(d: nat): (c: char)
    requires d < 10
    ensures IsDecDigit(c) && DigitValue(c) == d
  {
    ('0' as int + d) as char
  }

  function Values(s: string): (ds: seq<nat>)
    requires IsDecString(s)
    ensures |ds| == |s| && Positional.IsDigitSeq(ds, 10)
    ensures forall i :: 0 <= i < |s| ==> ds[i] == DigitValue(s[i])
  {
    seq(|s|, i requires 0 <= i < |s| => DigitValue(s[i]))
  }

  function Chars(ds: seq<nat>): (s: string)
    requires Positional.IsDigitSeq(ds, 10)
    ensures |s| == |ds| && IsDecString(s)
    ensures forall i :: 0 <= i < |ds| ==> s[i] == DigitChar(ds[i])
  {
    seq(|ds|, i requires 0 <= i < |ds| => DigitChar(ds[i]))
  }

  function DecVal(s: string): nat
    requires IsDecString(s)
  {
    Positional.Eval(Values(s), 10)
  }

  /** str(n) for n >= 0. */
  function NatToDecimal(n: nat): (r: string)
    ensures IsCanonicalDec(r)
  {
    var ds := Positional.Digits(n, 10);
    var r := Chars(ds);
    assert r[0] == '0' ==> ds[0] == DigitValue(r[0]) == 0;
    r
  }

  /** Python's str() of an integer. */
  function IntToDecimal(n: int): (r: string)
  {
    if n < 0 then "-" + NatToDecimal(-n) else NatToDecimal(n)
  }

  /** Python's int() of a string: an optional '+' or '-' and at least one digit, else ValueError. */
  function ParseInt(s: string): (r: Option<int>)
    ensures r.Some? <==>
      (|s| > 0 && IsDecString(s)) || (|s| > 1 && (s[0] == '-' || s[0] == '+') && IsDecString(s[1..]))
  {
    if |s| > 1 && (s[0] == '-' || s[0] == '+') && IsDecString(s[1..]) then
      var v: int := if s[0] == '-' then 0 - DecVal(s[1..]) else DecVal(s[1..]);
      Some(v)
    else if |s| > 0 && IsDecString(s) then
      Some(DecVal(s))
    else
      None
  }

  lemma DecValSnoc(s: string, c: char)
    requires IsDecString(s) && IsDecDigit(c)
    ensures IsDecString(s + [c])
    ensures DecVal(s + [c]) == 10 * DecVal(s) + DigitValue(c)
  {
    assert Values(s + [c]) == Values(s) + [DigitValue(c)];
    Positional.EvalSnoc(Values(s), DigitValue(c), 10);
  }

  lemma NatToDecimalRoundTrip(n: nat)
    ensures DecVal(NatToDecimal(n)) == n
  {
    var ds := Positional.Digits(n, 10);
    assert Values(Chars(ds)) == ds;
    Positional.EvalDigits(n, 10);
  }

  /** A canonical decimal string is exactly str() of its value. */
  lemma NatToDecimalOfDecVal(s: string)
    requires IsCanonicalDec(s)
    ensures NatToDecimal(DecVal(s)) == s
  {
    var ds := Values(s);
    assert ds[0] == 0 ==> s[0] == '0';
    assert Positional.IsCanonical(ds, 10);
    Positional.DigitsEval(ds, 10);
    assert Chars(ds) == s;
  }

  /** str() of a number below ten is its one digit. */
  lemma NatToDecimalDigit(c: char)
    requires IsDecDigit(c)
    ensures NatToDecimal(DigitValue(c)) == [c]
  {
    assert [c] == "" + [c];
    DecValSnoc("", c);
    NatToDecimalOfDecVal([c]);
  }

  /** str(10 * n + d) for n > 0 is str(n) followed by the digit d. */
  lemma NatToDecimalAppend(n: nat, c: char)
    requires n > 0 && IsDecDigit(c)
    ensures NatToDecimal(10 * n + DigitValue(c)) == NatToDecimal(n) + [c]
  {
    var s := NatToDecimal(n);
    NatToDecimalRoundTrip(n);
    DecValSnoc(s, c);
    NatToDecimalOfDecVal(s + [c]);
  }

  /** int(str(n)) == n for every integer n. */
  lemma ParseIntRoundTrip(n: int)
    ensures ParseInt(IntToDecimal(n)) == Some(n)
  {
    if n < 0 {
      var m: nat := -n;
      assert IntToDecimal(n) == "-" + NatToDecimal(m);
      ParseNegativeRoundTrip(m);
    } else {
      assert IntToDecimal(n) == NatToDecimal(n);
      ParseNaturalRoundTrip(n);
    }
  }

  lemma ParseNaturalRoundTrip(n: nat)
    ensures ParseInt(NatToDecimal(n)) == Some(n)
  {
    var t := NatToDecimal(n);
    assert IsDecDigit(t[0]);
    assert !(t[0] == '-' || t[0] == '+');
    NatToDecimalRoundTrip(n);
  }

  lemma ParseNegativeRoundTrip(n: nat)
    requires n > 0
    ensures ParseInt("-" + NatToDecimal(n)) == Some(0 - n)
  {
    var t := NatToDecimal(n);
    var s := "-" + t;
    assert s[0] == '-' && s[1..] == t;
    NatToDecimalRoundTrip(n);
  }
}
