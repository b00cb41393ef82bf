/**
 * itoh.py: decimal text to Python's hex() text, and the message its console
 * loop prints for each line.
 */
module Itoh {
  import opened Wrappers
  import Hex
  import Decimal

  function Abs(n: int): nat
  {
    if n < 0 then -n else n
  }

  /** What hex() writes before the digits: the sign, if any, and "0x". */
  function HexPrefix(n: int): string
  {
    if n < 0 then "-0x" else "0x"
  }

  /** Python's hex(): the prefix, then the lower-case base-16 digits of |n| with no leading zeros. */
  function PyHex(n: int): (r: string)
    ensures |r| > |HexPrefix(n)| && r[..|HexPrefix(n)|] == HexPrefix(n)
    ensures Hex.IsLowerCanonical(r[|HexPrefix(n)|..]) && Hex.IsHexString(r[|HexPrefix(n)|..])
    ensures Hex.HexVal(r[|HexPrefix(n)|..]) == Abs(n)
  {
    var digits := Hex.ToHex(Abs(n));
    Hex.ToHexRoundTrip(Abs(n));
    assert (HexPrefix(n) + digits)[|HexPrefix(n)|..] == digits;
    HexPrefix(n) + digits
  }

  /** Reading hex() text back: an optional '-', "0x", then one or more hex digits. */
  function ParsePyHex(s: string): (r: Option<int>)
  {
    if |s| >= 3 && s[..3] == "-0x" then
      match Hex.Parse(s[3..])
      case Some(v) => Some(0 - v)
      case None => None
    else if |s| >= 2 && s[..2] == "0x" then
      match Hex.Parse(s[2..])
      case Some(v) => Some(v)
      case None => None
    else None
  }

  /** hex() loses nothing: its text reads back as the same integer. */
  lemma PyHexRoundTrip(n: int)
    ensures ParsePyHex(PyHex(n)) == Some(n)
  {
    var h := Hex.ToHex(Abs(n));
    Hex.ToHexRoundTrip(Abs(n));
    var r := HexPrefix(n) + h;
    assert PyHex(n) == r;
    if n < 0 {
      assert r[..3] == "-0x" && r[3..] == h;
      assert ParsePyHex(r) == Some(0 - Abs(n));
    } else {
      assert r[0] == '0' && r[1] == 'x';
      assert !(r[..3] == "-0x");
      assert r[..2] == "0x" && r[2..] == h;
      assert ParsePyHex(r) == Some(Abs(n));
    }
  }

  /** int() raises ValueError on text that is not an integer. */
  datatype Error = NotInteger

  /** dec_to_hex: hex(int(input_value)). */
  function DecToHex(input: string): (r: Result<string, Error>)
    ensures r.Failure? <==> Decimal.ParseInt(input).None?
    ensures r.Success? ==> ParsePyHex(r.value) == Decimal.ParseInt(input)
  {
    match Decimal.ParseInt(input)
    case None => Failure(NotInteger)
    case Some(n) =>
      PyHexRoundTrip(n);
      Success(PyHex(n))
  }

  /** Digits alone (leading zeros allowed) give "0x" and the canonical hex digits of their value. */
  lemma DecToHexOfDigits(s: string)
    requires |s| > 0 && Decimal.IsDecString(s)
    ensures var r := DecToHex(s);
      && r.Success? && |r.value| > 2 && r.value[..2] == "0x"
      && Hex.IsLowerCanonical(r.value[2..]) && Hex.IsHexString(r.value[2..])
      && Hex.HexVal(r.value[2..]) == Decimal.DecVal(s)
  {
    assert Decimal.IsDecDigit(s[0]);
    assert Decimal.ParseInt(s) == Some(Decimal.DecVal(s) as int);
  }

  /** A negative number gives "-0x" and the digits of its magnitude. */
  lemma DecToHexOfNegative(n: int)
    requires n < 0
    ensures var r := DecToHex(Decimal.IntToDecimal(n));
      && r.Success? && |r.value| > 3 && r.value[..3] == "-0x"
      && Hex.IsHexString(r.value[3..]) && Hex.HexVal(r.value[3..]) == -n
  {
    Decimal.ParseIntRoundTrip(n);
  }

  /** Every integer written by str() converts. */
  lemma DecToHexOfDecimal(n: int)
    ensures DecToHex(Decimal.IntToDecimal(n)) == Success(PyHex(n))
  {
    Decimal.ParseIntRoundTrip(n);
  }

  const NotIntegerMessage := "input not integer"

  /** What the console loop does with one line read by input(): stop, or print a line. */
  datatype LineResult = Exit | Printed(text: string)

  /**
   * One iteration of the console loop: an empty line exits; any other line
   * prints hex(int(line)), or the ValueError message when int() fails.
   */
  function Report(input: string): (r: LineResult)
    ensures r == Exit <==> input == ""
    ensures r.Printed? ==> (r.text == NotIntegerMessage <==> Decimal.ParseInt(input).None?)
    ensures Decimal.ParseInt(input).Some? ==> r == Printed(PyHex(Decimal.ParseInt(input).value))
  {
    if input == "" then Exit
    else
      match DecToHex(input)
      case Success(h) =>
        assert h[0] == '0' || h[0] == '-';
        Printed(h)
      case Failure(_) => Printed(NotIntegerMessage)
  }

  /** The lines the console loop prints for a stream of input lines, up to the first empty one. */
  function Transcript(lines: seq<string>): (out: seq<string>)
    ensures |out| <= |lines|
    ensures forall k :: 0 <= k < |out| ==> Report(lines[k]) == Printed(out[k])
  {
    if lines == [] then []
    else
      match Report(lines[0])
      case Exit => []
      case Printed(text) => [text] + Transcript(lines[1..])
  }

  /** The loop prints one line per input line before the first empty one, and stops there. */
  lemma {:induction false} TranscriptStopsAtEmptyLine(lines: seq<string>, k: nat)
    requires k <= |lines| && (k == |lines| || lines[k] == "")
    requires forall j :: 0 <= j < k ==> lines[j] != ""
    ensures |Transcript(lines)| == k
    decreases k
  {
    if k > 0 {
      assert Report(lines[0]).Printed?;
      TranscriptStopsAtEmptyLine(lines[1..], k - 1);
    }
  }

  /** Empty text, a lone sign and text with a non-digit are not integers. */
  lemma NotIntegers()
    ensures DecToHex("") == Failure(NotInteger)
    ensures DecToHex("-") == Failure(NotInteger)
    ensures DecToHex("1f") == Failure(NotInteger)
  {
    var s := "1f";
    assert !Decimal.IsDecDigit(s[1]);
    assert s[1..][0] == s[1];
  }
}
