/** Python's str.strip() with no argument, as the submit branches use it. */
module PyText {

  /** The characters for which Python's str.isspace() holds. */
  predicate IsSpace(c: char)
  {
    var k := c as int;
    || 0x09 <= k <= 0x0D || 0x1C <= k <= 0x20 || k == 0x85 || k == 0xA0 || k == 0x1680
    || 0x2000 <= k <= 0x200A || k == 0x2028 || k == 0x2029 || k == 0x202F || k == 0x205F || k == 0x3000
  }

  function StripLeading(s: string): (r: string)
    ensures |r| <= |s| && r == s[|s| - |r|..]
    ensures forall i :: 0 <= i < |s| - |r| ==> IsSpace(s[i])
    ensures r == [] || !IsSpace(r[0])
    decreases |s|
  {
    if |s| > 0 && IsSpace(s[0]) then StripLeading(s[1..]) else s
  }

  function StripTrailing(s: string): (r: string)
    ensures |r| <= |s| && r == s[..|r|]
    ensures forall i :: |r| <= i < |s| ==> IsSpace(s[i])
    ensures r == [] || !IsSpace(r[|r| - 1])
    decreases |s|
  {
    if |s| > 0 && IsSpace(s[|s| - 1]) then StripTrailing(s[..|s| - 1]) else s
  }

  function Strip(s: string): string
  {
    StripTrailing(StripLeading(s))
  }

  /** strip() leaves a string without whitespace exactly as it is. */
  lemma StripWithoutSpace(s: string)
    requires forall i :: 0 <= i < |s| ==> !IsSpace(s[i])
    ensures Strip(s) == s
  {
  }

  /** strip() gives "" exactly when every character is whitespace. */
  lemma StripEmptyIff(s: string)
    ensures Strip(s) == "" <==> forall i :: 0 <= i < |s| ==> IsSpace(s[i])
  {
    var l := StripLeading(s);
    if Strip(s) == "" {
      forall i | |s| - |l| <= i < |s|
        ensures IsSpace(s[i])
      {
        assert s[i] == l[i - (|s| - |l|)];
      }
    }
    if forall i :: 0 <= i < |s| ==> IsSpace(s[i]) {
      if l != [] {
        assert l[0] == s[|s| - |l|];
      }
    }
  }
}
