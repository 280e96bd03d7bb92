/** Python's `str.strip()` with no argument, on strings as sequences of characters. */
module Strings {

  /** The characters `str.isspace` accepts, which `str.strip()` removes: the ASCII controls
      U+0009 to U+000D and U+001C to U+001F, the space, and the Unicode spaces and separators. */
  predicate IsSpace(c: char) {
    var n := c as int;
    || 0x09 <= n <= 0x0D || 0x1C <= n <= 0x20
    || n == 0x85 || n == 0xA0 || n == 0x1680
    || 0x2000 <= n <= 0x200A
    || n == 0x2028 || n == 0x2029 || n == 0x202F || n == 0x205F || n == 0x3000
  }

  predicate AllSpace(s: string) {
    forall i :: 0 <= i < |s| ==> IsSpace(s[i])
  }

  /** Neither the first nor the last character is whitespace. */
  predicate NoEdgeSpace(s: string) {
    s == [] || (!IsSpace(s[0]) && !IsSpace(s[|s| - 1]))
  }

  /** `str.lstrip()`: drops the whitespace prefix and keeps the rest. */
  function StripLeading(s: string): (r: string)
    ensures |r| <= |s| && r == s[|s| - |r|..]
    ensures AllSpace(s[..|s| - |r|])
    ensures r != [] ==> !IsSpace(r[0])
  {
    if s != [] && IsSpace(s[0]) then
      var r := StripLeading(s[1..]);
      assert s[..|s| - |r|] == [s[0]] + s[1..][..|s| - 1 - |r|];
      r
    else s
  }

  /** `str.rstrip()`: drops the whitespace suffix and keeps the rest. */
  function StripTrailing(s: string): (r: string)
    ensures |r| <= |s| && r == s[..|r|]
    ensures AllSpace(s[|r|..])
    ensures r != [] ==> !IsSpace(r[|r| - 1])
  {
    if s != [] && IsSpace(s[|s| - 1]) then
      var p := s[..|s| - 1];
      var r := StripTrailing(p);
      assert s[|r|..] == p[|r|..] + [s[|s| - 1]];
      r
    else s
  }

  /** `str.strip()`: the middle of `s` once the whitespace at both ends is gone. */
  function Strip(s: string): (r: string)
    ensures NoEdgeSpace(r)
  {
    var l := StripLeading(s);
    var r := StripTrailing(l);
    StripParts(s, l, r, |s| - |l|);
    r
  }

  /** Where the result of `strip` starts in its argument: after the leading whitespace. */
  function StripStart(s: string): nat {
    |s| - |StripLeading(s)|
  }

  /** What `strip` removes is whitespace at the two ends, and nothing else: the result is the
      piece of `s` starting at `StripStart(s)`, with only whitespace before and after it. */
  lemma StripIsInfix(s: string)
    ensures var i, r := StripStart(s), Strip(s);
      i + |r| <= |s| && r == s[i..i + |r|] && AllSpace(s[..i]) && AllSpace(s[i + |r|..])
  {
    var l := StripLeading(s);
    StripParts(s, l, Strip(s), |s| - |l|);
  }

  /** Stripping the front and then the back leaves the middle of `s`, with whitespace around it. */
  lemma StripParts(s: string, l: string, r: string, i: nat)
    requires i <= |s| && l == s[i..] && AllSpace(s[..i]) && (l != [] ==> !IsSpace(l[0]))
    requires |r| <= |l| && r == l[..|r|] && AllSpace(l[|r|..]) && (r != [] ==> !IsSpace(r[|r| - 1]))
    ensures NoEdgeSpace(r)
    ensures i <= |s| - |r| && r == s[i..i + |r|] && AllSpace(s[..i]) && AllSpace(s[i + |r|..])
  {
    assert s[i + |r|..] == l[|r|..];
  }

  lemma {:induction false} StripLeadingOfSpacePrefix(p: string, x: string)
    requires AllSpace(p)
    requires x == [] || !IsSpace(x[0])
    ensures StripLeading(p + x) == x
  {
    if p != [] {
      assert (p + x)[1..] == p[1..] + x;
      StripLeadingOfSpacePrefix(p[1..], x);
    }
  }

  lemma {:induction false} StripTrailingOfSpaceSuffix(x: string, q: string)
    requires AllSpace(q)
    requires x == [] || !IsSpace(x[|x| - 1])
    ensures StripTrailing(x + q) == x
  {
    if q != [] {
      assert (x + q)[..|x + q| - 1] == x + q[..|q| - 1];
      StripTrailingOfSpaceSuffix(x, q[..|q| - 1]);
    } else {
      assert x + q == x;
    }
  }

  /** `strip` is fully determined by its two promises: whatever splits `s` into a whitespace
      prefix, a middle without edge whitespace and a whitespace suffix, the middle is `Strip(s)`. */
  lemma StripUnique(s: string, p: string, m: string, q: string)
    requires s == p + m + q
    requires AllSpace(p) && AllSpace(q) && NoEdgeSpace(m)
    ensures Strip(s) == m
  {
    assert s == p + (m + q);
    if m == [] {
      assert m + q == q;
      StripLeadingOfSpacePrefix(p + q, []);
      assert p + q + [] == s;
    } else {
      StripLeadingOfSpacePrefix(p, m + q);
      StripTrailingOfSpaceSuffix(m, q);
    }
  }

  /** A string already free of edge whitespace is left as it is. */
  lemma StripKeepsStripped(s: string)
    requires NoEdgeSpace(s)
    ensures Strip(s) == s
  {
    StripUnique(s, [], s, []);
    assert [] + s + [] == s;
  }

  lemma StripIdempotent(s: string)
    ensures Strip(Strip(s)) == Strip(s)
  {
    StripKeepsStripped(Strip(s));
  }
}
