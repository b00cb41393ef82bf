/**
 * util/hex.go: debugging dumps built on Go's %x verb. %x of an integer
 * writes the lower-case base-16 digits of its mathematical value, with a
 * '-' in front of a negative one, whatever the integer's width.
 */
module HexUtil {
  import opened Wrappers
  import Positional
  import Hex

  newtype byte = x: int | 0 <= x < 256

  /** Itoh: fmt.Sprintf("%x", i). */
  function Itoh(i: int): (r: string)
    ensures |r| > 0
  {
    if i < 0 then "-" + Hex.ToHex(-i) else Hex.ToHex(i)
  }

  /** For i >= 0 the canonical lower-case digits of i; for i < 0 a '-' and the digits of -i. */
  lemma ItohDigits(i: int)
    ensures i >= 0 ==> Hex.IsLowerCanonical(Itoh(i)) && Hex.IsHexString(Itoh(i)) && Hex.HexVal(Itoh(i)) == i
    ensures i < 0 ==>
      var r := Itoh(i);
      && |r| > 1 && r[0] == '-' && Hex.IsLowerCanonical(r[1..]) && Hex.IsHexString(r[1..])
      && Hex.HexVal(r[1..]) == -i
  {
    if i < 0 {
      Hex.ToHexRoundTrip(-i);
      assert Itoh(i)[1..] == Hex.ToHex(-i);
    } else {
      Hex.ToHexRoundTrip(i);
    }
  }

  /** Reading a signed hex field back: an optional '-' and one or more hex digits. */
  function ParseSigned(s: string): Option<int>
  {
    if |s| > 0 && s[0] == '-' then
      match Hex.Parse(s[1..])
      case Some(v) => Some(0 - v)
      case None => None
    else
      match Hex.Parse(s)
      case Some(v) => Some(v)
      case None => None
  }

  lemma ItohRoundTrip(i: int)
    ensures ParseSigned(Itoh(i)) == Some(i)
  {
    if i < 0 {
      SignedFieldRoundTrip(-i);
    } else {
      UnsignedFieldRoundTrip(i);
    }
  }

  lemma UnsignedFieldRoundTrip(n: nat)
    ensures ParseSigned(Hex.ToHex(n)) == Some(n)
  {
    var h := Hex.ToHex(n);
    Hex.ToHexRoundTrip(n);
    assert Hex.IsLowerHexDigit(h[0]);
  }

  lemma SignedFieldRoundTrip(n: nat)
    ensures ParseSigned("-" + Hex.ToHex(n)) == Some(0 - n)
  {
    var h := Hex.ToHex(n);
    Hex.ToHexRoundTrip(n);
    var r := "-" + h;
    assert r[0] == '-' && r[1..] == h;
  }

  /** %x is the only way to write a value: a canonical lower-case field is Itoh of its value. */
  lemma ItohOfHexVal(s: string)
    requires Hex.IsLowerCanonical(s)
    ensures Hex.IsHexString(s) && Itoh(Hex.HexVal(s)) == s
  {
    Hex.ToHexOfHexVal(s);
  }

  predicate HasNoSpace(s: string)
  {
    forall k :: 0 <= k < |s| ==> s[k] != ' '
  }

  lemma ItohHasNoSpace(i: int)
    ensures |Itoh(i)| > 0 && HasNoSpace(Itoh(i))
  {
    var r := Itoh(i);
    forall k | 0 <= k < |r|
      ensures r[k] != ' '
    {
      if i < 0 && k > 0 {
        assert r[k] == r[1..][k - 1];
      }
    }
  }

  /**
   * The text a "for _, x := range xs { s += fmt(x) + sep }" loop builds:
   * each element's text followed by the separator, in order.
   */
  function Join<T>(fmt: T -> string, sep: string, xs: seq<T>): string
    decreases |xs|
  {
    if xs == [] then "" else Join(fmt, sep, xs[..|xs| - 1]) + fmt(xs[|xs| - 1]) + sep
  }

  /** Joining a slice joins its parts. */
  lemma {:induction false} JoinAppend<T>(fmt: T -> string, sep: string, xs: seq<T>, ys: seq<T>)
    ensures Join(fmt, sep, xs + ys) == Join(fmt, sep, xs) + Join(fmt, sep, ys)
    decreases |ys|
  {
    if ys == [] {
      assert xs + ys == xs;
    } else {
      var init, last := ys[..|ys| - 1], ys[|ys| - 1];
      var zs := xs + ys;
      assert zs[..|zs| - 1] == xs + init;
      assert zs[|zs| - 1] == last;
      var tail := fmt(last) + sep;
      calc {
        Join(fmt, sep, zs);
        Join(fmt, sep, xs + init) + tail;
        { JoinAppend(fmt, sep, xs, init); }
        (Join(fmt, sep, xs) + Join(fmt, sep, init)) + tail;
        Join(fmt, sep, xs) + (Join(fmt, sep, init) + tail);
        Join(fmt, sep, xs) + Join(fmt, sep, ys);
      }
    }
  }

  /** The same text, read from the front. */
  lemma JoinFront<T>(fmt: T -> string, sep: string, xs: seq<T>)
    requires xs != []
    ensures Join(fmt, sep, xs) == fmt(xs[0]) + sep + Join(fmt, sep, xs[1..])
  {
    var x, rest := xs[0], xs[1..];
    assert [x][..0] == [];
    assert Join(fmt, sep, [x]) == fmt(x) + sep;
    JoinAppend(fmt, sep, [x], rest);
    assert [x] + rest == xs;
  }

  /** ItohN: Itoh(i) + " " for each element. */
  method ItohN(iN: seq<int>) returns (s: string)
    ensures s == Join(Itoh, " ", iN)
  {
    s := "";
    for k := 0 to |iN|
      invariant s == Join(Itoh, " ", iN[..k])
    {
      assert iN[..k + 1][..k] == iN[..k];
      s := s + Itoh(iN[k]) + " ";
    }
    assert iN[..|iN|] == iN;
  }

  /** "" for an empty slice; otherwise the output ends in exactly one space. */
  lemma ItohNEnding(xs: seq<int>)
    ensures Join(Itoh, " ", xs) == "" <==> xs == []
    ensures xs != [] ==> var r := Join(Itoh, " ", xs);
      |r| >= 2 && r[|r| - 1] == ' ' && r[|r| - 2] != ' '
  {
    if xs != [] {
      var last := Itoh(xs[|xs| - 1]);
      ItohHasNoSpace(xs[|xs| - 1]);
      var r := Join(Itoh, " ", xs);
      assert r == Join(Itoh, " ", xs[..|xs| - 1]) + last + " ";
      assert r[|r| - 2] == last[|last| - 1];
    }
  }

  /** The length of the field that starts s: everything before the first space. */
  function FieldEnd(s: string): (k: nat)
    ensures k <= |s| && HasNoSpace(s[..k]) && (k < |s| ==> s[k] == ' ')
  {
    if s == [] || s[0] == ' ' then 0
    else
      var k := 1 + FieldEnd(s[1..]);
      assert forall j :: 1 <= j < k ==> s[..k][j] == s[1..][..k - 1][j - 1];
      k
  }

  lemma FieldEndOf(a: string, rest: string)
    requires HasNoSpace(a)
    ensures FieldEnd(a + " " + rest) == |a|
    decreases |a|
  {
    if a != [] {
      assert (a + " " + rest)[1..] == a[1..] + " " + rest;
      FieldEndOf(a[1..], rest);
    }
  }

  /** Reading ItohN's output back: space-terminated signed hex fields. */
  function ParseItohN(s: string): Option<seq<int>>
    decreases |s|
  {
    if s == "" then Some([])
    else
      var k := FieldEnd(s);
      if k == |s| then None
      else
        match ParseSigned(s[..k])
        case None => None
        case Some(v) =>
          match ParseItohN(s[k + 1..])
          case None => None
          case Some(vs) => Some([v] + vs)
  }

  /** A field, a space and readable rest read as the field's value followed by the rest's. */
  lemma ParseItohNField(field: string, rest: string, v: int, vs: seq<int>)
    requires HasNoSpace(field) && ParseSigned(field) == Some(v) && ParseItohN(rest) == Some(vs)
    ensures ParseItohN(field + " " + rest) == Some([v] + vs)
  {
    var s := field + " " + rest;
    FieldEndOf(field, rest);
    assert s[..|field|] == field;
    assert s[|field| + 1..] == rest;
  }

  /** ItohN loses nothing: its output reads back as the same slice. */
  lemma {:induction false} ItohNRoundTrip(xs: seq<int>)
    ensures ParseItohN(Join(Itoh, " ", xs)) == Some(xs)
    decreases |xs|
  {
    if xs != [] {
      JoinFront(Itoh, " ", xs);
      ItohHasNoSpace(xs[0]);
      ItohRoundTrip(xs[0]);
      ItohNRoundTrip(xs[1..]);
      ParseItohNField(Itoh(xs[0]), Join(Itoh, " ", xs[1..]), xs[0], xs[1..]);
      assert [xs[0]] + xs[1..] == xs;
    }
  }

  /** %x of a byte: one or two digits, never padded. */
  function ByteHex(b: byte): string
  {
    Hex.ToHex(b as nat)
  }

  /** Btoh: each byte's %x with no separator. */
  method Btoh(b: seq<byte>) returns (s: string)
    ensures s == Join(ByteHex, "", b)
  {
    s := "";
    for k := 0 to |b|
      invariant s == Join(ByteHex, "", b[..k])
    {
      assert b[..k + 1][..k] == b[..k];
      s := s + ByteHex(b[k]);
    }
    assert b[..|b|] == b;
  }

  /** How many bytes take two digits. */
  function WideBytes(b: seq<byte>): (n: nat)
    ensures n <= |b|
    decreases |b|
  {
    if b == [] then 0 else WideBytes(b[..|b| - 1]) + (if b[|b| - 1] >= 16 then 1 else 0)
  }

  /** A byte below 16 adds one character and any other byte two, so the length lies in [|b|, 2|b|]. */
  lemma {:induction false} BtohLength(b: seq<byte>)
    ensures |Join(ByteHex, "", b)| == |b| + WideBytes(b)
    ensures |b| <= |Join(ByteHex, "", b)| <= 2 * |b|
    ensures Join(ByteHex, "", b) == "" <==> b == []
    decreases |b|
  {
    if b != [] {
      var init, last := b[..|b| - 1], b[|b| - 1];
      BtohLength(init);
      Hex.ToHexWidth(last as nat);
      assert Join(ByteHex, "", b) == Join(ByteHex, "", init) + ByteHex(last) + "";
    }
  }

  /** With no separator and no padding, different slices can dump the same: [0x1, 0x23] and [0x12, 0x3]. */
  lemma BtohAmbiguous()
    ensures Join(ByteHex, "", [1, 0x23]) == Join(ByteHex, "", [0x12, 3]) == "123"
  {
    Positional.DivBasics(0x23, 16);
    Positional.DivBasics(0x12, 16);
    assert Positional.Digits(1, 16) == [1];
    assert Positional.Digits(3, 16) == [3];
    assert Positional.Digits(2, 16) == [2];
    assert Positional.Digits(0x23, 16) == Positional.Digits(2, 16) + [3];
    assert Positional.Digits(0x12, 16) == Positional.Digits(1, 16) + [2];
    assert ByteHex(1) == "1" && ByteHex(3) == "3";
    assert ByteHex(0x23) == "23" && ByteHex(0x12) == "12";
    JoinFront(ByteHex, "", [1, 0x23]);
    JoinFront(ByteHex, "", [0x12, 3]);
    assert [1, 0x23][1..] == [0x23];
    assert [0x12, 3][1..] == [3];
    JoinFront(ByteHex, "", [0x23]);
    JoinFront(ByteHex, "", [3]);
    assert [0x23][1..] == [] && [3 as byte][1..] == [];
  }

  /** Reading two digits per byte. */
  function DecodePairs(s: string): Option<seq<byte>>
    decreases |s|
  {
    if s == "" then Some([])
    else if |s| < 2 || !Hex.IsHexString(s[..2]) then None
    else
      var v := Hex.HexVal(s[..2]);
      Positional.EvalUpperBound(Hex.Values(s[..2]), 16);
      assert Positional.Pow(16, 2) == 256;
      match DecodePairs(s[2..])
      case None => None
      case Some(bs) => Some([v as byte] + bs)
  }

  /** When every byte is at least 0x10, each takes exactly two digits and the dump reads back. */
  lemma {:induction false} BtohWideRoundTrip(b: seq<byte>)
    requires forall k :: 0 <= k < |b| ==> b[k] >= 16
    ensures DecodePairs(Join(ByteHex, "", b)) == Some(b)
    decreases |b|
  {
    if b != [] {
      var h := ByteHex(b[0]);
      Hex.ToHexWidth(b[0] as nat);
      Hex.ToHexRoundTrip(b[0] as nat);
      JoinFront(ByteHex, "", b);
      var rest := Join(ByteHex, "", b[1..]);
      var s := h + "" + rest;
      assert s[..2] == h && s[2..] == rest;
      BtohWideRoundTrip(b[1..]);
      assert [b[0]] + b[1..] == b;
    }
  }
}
