/** Python's `str.lower`, as far as the file-type check needs it. */
module CaseFold {

  /** `s.lower()` on the letters A-Z. */
  function LowerChar(c: char): (d: char)
    ensures !('A' <= d <= 'Z')
    ensures !('A' <= c <= 'Z') ==> d == c
    ensures 'A' <= c <= 'Z' ==> 'a' <= d <= 'z'
  {
    if 'A' <= c <= 'Z' then (c as int - 'A' as int + 'a' as int) as char else c
  }

  /** `s.lower()`, folding the ASCII letters (see README for why that is
      enough here). */
  function Lower(s: string): (r: string)
    ensures |r| == |s|
    ensures forall i :: 0 <= i < |s| ==> r[i] == LowerChar(s[i])
  {
    if s == [] then [] else [LowerChar(s[0])] + Lower(s[1..])
  }

  /** Lower-casing leaves every character other than a letter where it was. */
  lemma LowerKeeps(s: string, c: char)
    requires !('A' <= c <= 'Z') && !('a' <= c <= 'z')
    ensures c in Lower(s) <==> c in s
  {
    var r := Lower(s);
    if c in r {
      var i :| 0 <= i < |r| && r[i] == c;
      assert s[i] in s;
    }
    if c in s {
      var i :| 0 <= i < |s| && s[i] == c;
      assert r[i] in r;
    }
  }
}
