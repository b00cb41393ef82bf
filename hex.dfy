/**
 * Hexadecimal text: the ASCII digits 0-9, a-f and A-F, their values, reading
 * a digit string as a number (Python's int(s, 16) on plain digit strings),
 * and printing a number as lower-case digits with no leading zeros (the
 * digits of Python's hex() and of Go's %x verb).
 */
module Hex {
  import opened Wrappers
  import Positional

  predicate IsHexDigit(c: char)
  {
    '0' <= c <= '9' || 'a' <= c <= 'f' || 'A' <= c <= 'F'
  }

  predicate IsHexString(s: string)
  {
    forall i :: 0 <= i < |s| ==> IsHexDigit(s[i])
  }

  predicate IsLowerHexDigit(c: char)
  {
    '0' <= c <= '9' || 'a' <= c <= 'f'
  }

  /** What a formatter prints: non-empty, lower-case, no leading zero unless the number is zero. */
  predicate IsLowerCanonical(s: string)
  {
    && |s| > 0
    && (forall i :: 0 <= i < |s| ==> IsLowerHexDigit(s[i]))
    && (s[0] == '0' ==> |s| == 1)
  }

  function DigitValue(c: char): (d: nat)
    requires IsHexDigit(c)
    ensures d < 16
    ensures d < 10 <==> '0' <= c <= '9'
  {
    if '0' <= c <= '9' then c as int - '0' as int
    else if 'a' <= c <= 'f' then c as int - 'a' as int + 10
    else c as int - 'A' as int + 10
  }

  /** The lower-case digit of a value below sixteen. */
  function DigitChar(d: nat): (c: char)
    requires d < 16
    ensures IsLowerHexDigit(c) && IsHexDigit(c) && DigitValue(c) == d
  {
    if d < 10 then ('0' as int + d) as char else ('a' as int + d - 10) as char
  }

  lemma DigitCharOfValue(c: char)
    requires IsLowerHexDigit(c)
    ensures DigitChar(DigitValue(c)) == c
  {
  }

  function Values(s: string): (ds: seq<nat>)
    requires IsHexString(s)
    ensures |ds| == |s| && Positional.IsDigitSeq(ds, 16)
    ensures forall i :: 0 <= i < |s| ==> ds[i] == DigitValue(s[i])
  {
    seq(|s|, i requires 0 <= i < |s| => DigitValue(s[i]))
  }

  function Chars(ds: seq<nat>): (s: string)
    requires Positional.IsDigitSeq(ds, 16)
    ensures |s| == |ds| && IsHexString(s)
    ensures forall i :: 0 <= i < |ds| ==> s[i] == DigitChar(ds[i])
  {
    seq(|ds|, i requires 0 <= i < |ds| => DigitChar(ds[i]))
  }

  /** The value of a string of hex digits, most significant first. */
  function HexVal(s: string): nat
    requires IsHexString(s)
  {
    Positional.Eval(Values(s), 16)
  }

  /** int(s, 16) restricted to ASCII: defined exactly on non-empty digit strings. */
  function Parse(s: string): (r: Option<nat>)
    ensures r.Some? <==> |s| > 0 && IsHexString(s)
    ensures r.Some? ==> r.value == Positional.WeightedSum(Values(s), 16)
  {
    if |s| > 0 && IsHexString(s) then
      Positional.EvalIsWeightedSum(Values(s), 16);
      Some(HexVal(s))
    else
      None
  }

  /** The lower-case base-16 digits of n, with no prefix and no leading zeros. */
  function ToHex(n: nat): (r: string)
    ensures IsLowerCanonical(r)
  {
    var ds := Positional.Digits(n, 16);
    var r := Chars(ds);
    assert r[0] == '0' ==> ds[0] == DigitValue(r[0]) == 0;
    r
  }

  lemma HexValSnoc(s: string, c: char)
    requires IsHexString(s) && IsHexDigit(c)
    ensures IsHexString(s + [c])
    ensures HexVal(s + [c]) == 16 * HexVal(s) + DigitValue(c)
  {
    assert Values(s + [c]) == Values(s) + [DigitValue(c)];
    Positional.EvalSnoc(Values(s), DigitValue(c), 16);
  }

  /** Reading ToHex(n) back in base 16 gives n. */
  lemma ToHexRoundTrip(n: nat)
    ensures IsHexString(ToHex(n)) && HexVal(ToHex(n)) == n
    ensures Parse(ToHex(n)) == Some(n)
  {
    var ds := Positional.Digits(n, 16);
    assert Values(Chars(ds)) == ds;
    Positional.EvalDigits(n, 16);
  }

  /** ToHex is the only canonical spelling: any canonical digit string is ToHex of its value. */
  lemma ToHexOfHexVal(s: string)
    requires IsLowerCanonical(s)
    ensures IsHexString(s) && ToHex(HexVal(s)) == s
  {
    var ds := Values(s);
    assert ds[0] == 0 ==> s[0] == '0';
    assert Positional.IsCanonical(ds, 16);
    Positional.DigitsEval(ds, 16);
    forall i | 0 <= i < |s|
      ensures Chars(ds)[i] == s[i]
    {
      DigitCharOfValue(s[i]);
    }
  }

  /** One digit below sixteen, two digits from sixteen up to 255. */
  lemma ToHexWidth(n: nat)
    ensures |ToHex(n)| == 1 <==> n < 16
    ensures 16 <= n < 256 ==> |ToHex(n)| == 2
  {
    if n >= 16 {
      Positional.DivBasics(n, 16);
      assert |Positional.Digits(n, 16)| >= 2;
    }
  }

  /** The docstring's worked example: BEEF is 15*16^3 + 14*16^2 + 14*16 + 15 = 48879. */
  lemma BeefIs48879()
    ensures IsHexString("BEEF") && HexVal("BEEF") == 48879
  {
    assert "BEEF" == "BEE" + ['F'] && "BEE" == "BE" + ['E'] && "BE" == "B" + ['E'] && "B" == "" + ['B'];
    assert HexVal("") == 0;
    HexValSnoc("", 'B');
    HexValSnoc("B", 'E');
    HexValSnoc("BE", 'E');
    HexValSnoc("BEE", 'F');
  }
}
