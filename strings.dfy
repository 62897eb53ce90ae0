/** Python's whitespace test, `strip`, `startswith` and the `in` substring
    test on `str`. */
module Strings {

  /** `c.isspace()` in Python 3: the characters whose bidirectional class is
      WS, B or S, or whose general category is Zs. */
  predicate IsSpace(c: char) {
    || ('\t' <= c <= '\r')
    || ('\U{1c}' <= c <= '\U{1f}')
    || c == ' '
    || c == '\U{85}'
    || c == '\U{a0}'
    || c == '\U{1680}'
    || ('\U{2000}' <= c <= '\U{200a}')
    || c == '\U{2028}'
    || c == '\U{2029}'
    || c == '\U{202f}'
    || c == '\U{205f}'
    || c == '\U{3000}'
  }

  /** The string is empty or made of whitespace only. */
  ghost predicate Blank(s: string) {
    forall i :: 0 <= i < |s| ==> IsSpace(s[i])
  }

  /** `needle` occurs in `hay` as a contiguous substring (Python's `needle in hay`). */
  predicate IsInfix(needle: string, hay: string) {
    exists k :: 0 <= k <= |hay| - |needle| && OccursAt(needle, hay, k)
  }

  /** `needle` occurs in `hay` starting at index `k`. */
  predicate OccursAt(needle: string, hay: string, k: int) {
    0 <= k <= |hay| - |needle| && hay[k..k + |needle|] == needle
  }

  /** `s.startswith(prefix)` */
  predicate StartsWith(prefix: string, s: string) {
    |prefix| <= |s| && s[..|prefix|] == prefix
  }

  /** A string occurs in any string built around it. */
  lemma InfixOfConcat(a: string, needle: string, b: string)
    ensures IsInfix(needle, a + needle + b)
  {
    assert (a + needle + b)[|a|..|a| + |needle|] == needle;
    assert OccursAt(needle, a + needle + b, |a|);
  }

  /** A substring of `x` is a substring of anything built around `x`. */
  lemma InfixExtend(needle: string, x: string, y: string)
    requires IsInfix(needle, x)
    ensures IsInfix(needle, x + y) && IsInfix(needle, y + x)
  {
    var k :| 0 <= k <= |x| - |needle| && OccursAt(needle, x, k);
    assert (x + y)[k..k + |needle|] == x[k..k + |needle|];
    assert OccursAt(needle, x + y, k);
    assert (y + x)[|y| + k..|y| + k + |needle|] == x[k..k + |needle|];
    assert OccursAt(needle, y + x, |y| + k);
  }

  /** `s.lstrip()` */
  function TrimStart(s: string): (r: string)
    ensures |r| <= |s| && r == s[|s| - |r|..]
    ensures forall i :: 0 <= i < |s| - |r| ==> IsSpace(s[i])
    ensures r == [] || !IsSpace(r[0])
  {
    if s != [] && IsSpace(s[0]) then TrimStart(s[1..]) else s
  }

  /** `s.rstrip()` */
  function TrimEnd(s: string): (r: string)
    ensures |r| <= |s| && r == s[..|r|]
    ensures forall i :: |r| <= i < |s| ==> IsSpace(s[i])
    ensures r == [] || !IsSpace(r[|r| - 1])
  {
    if s != [] && IsSpace(s[|s| - 1]) then TrimEnd(s[..|s| - 1]) else s
  }

  /** `s.strip()`: the result is the part of `s` between its leading and its
      trailing whitespace, and it is empty exactly when `s` is blank. */
  function Strip(s: string): (r: string)
    ensures IsInfix(r, s)
    ensures exists k :: OccursAt(r, s, k) && Blank(s[..k]) && Blank(s[k + |r|..])
    ensures r == [] <==> Blank(s)
    ensures r == [] || (!IsSpace(r[0]) && !IsSpace(r[|r| - 1]))
  {
    var t := TrimStart(s);
    var r := TrimEnd(t);
    TrimmedSpan(s, t, r);
    assert OccursAt(r, s, |s| - |t|);
    r
  }

  /** What is left once a whitespace prefix (leaving `t`) and then a
      whitespace suffix (leaving `r`) are cut off lies between a blank
      prefix and a blank suffix of `s`, and is empty exactly when `s` is
      blank. */
  lemma TrimmedSpan(s: string, t: string, r: string)
    requires |t| <= |s| && t == s[|s| - |t|..]
    requires forall i :: 0 <= i < |s| - |t| ==> IsSpace(s[i])
    requires t == [] || !IsSpace(t[0])
    requires |r| <= |t| && r == t[..|r|]
    requires forall i :: |r| <= i < |t| ==> IsSpace(t[i])
    ensures var k := |s| - |t|;
            && OccursAt(r, s, k) && Blank(s[..k]) && Blank(s[k + |r|..])
    ensures r == [] <==> Blank(s)
    ensures r == [] || !IsSpace(r[0])
  {
    var k := |s| - |t|;
    assert s[k..k + |r|] == r by {
      assert s[k..k + |r|] == t[..|r|];
    }
    BlankPrefix(s, k);
    BlankSuffix(t, |r|);
    assert s[k + |r|..] == t[|r|..];
    if r == [] {
      assert s[..k] == s;
    } else {
      assert r[0] == t[0] == s[k];
    }
  }

  /** A prefix of whitespace characters is blank. */
  lemma BlankPrefix(s: string, k: nat)
    requires k <= |s| && forall n :: 0 <= n < k ==> IsSpace(s[n])
    ensures Blank(s[..k])
  {
    var part := s[..k];
    forall n | 0 <= n < |part| ensures IsSpace(part[n]) {
      assert part[n] == s[n];
    }
  }

  /** A suffix of whitespace characters is blank. */
  lemma BlankSuffix(s: string, k: nat)
    requires k <= |s| && forall n :: k <= n < |s| ==> IsSpace(s[n])
    ensures Blank(s[k..])
  {
    var part := s[k..];
    forall n | 0 <= n < |part| ensures IsSpace(part[n]) {
      assert part[n] == s[k + n];
    }
  }

  /** Stripping twice changes nothing more than stripping once. */
  lemma StripIdempotent(s: string)
    ensures Strip(Strip(s)) == Strip(s)
  {
    var r := Strip(s);
    if r != [] {
      assert TrimStart(r) == r;
      assert TrimEnd(r) == r;
    }
  }

  /** A string that neither starts nor ends with whitespace is left as it is. */
  lemma StripKeepsTrimmed(s: string)
    requires s != [] && !IsSpace(s[0]) && !IsSpace(s[|s| - 1])
    ensures Strip(s) == s
  {
  }

  /** A blank string has no non-blank substring. */
  lemma InfixOfBlank(needle: string, hay: string)
    requires IsInfix(needle, hay) && Blank(hay)
    ensures Blank(needle)
  {
    var k :| 0 <= k <= |hay| - |needle| && OccursAt(needle, hay, k);
    forall i | 0 <= i < |needle| ensures IsSpace(needle[i]) {
      assert needle[i] == hay[k + i];
    }
  }
}
