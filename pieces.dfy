/** Python's `str.split`, `str.join`, indexing the last piece of a split, and
    the filtering list comprehension. */
module Pieces {
  import opened Strings

  /** Python's `s.split(sep)` for a one-character separator: always at least
      one piece, one more than the number of separators. */
  function Split(s: string, sep: char): (parts: seq<string>)
    ensures |parts| >= 1
    ensures forall k :: 0 <= k < |parts| ==> sep !in parts[k]
  {
    if s == [] then [[]]
    else
      var p := Split(s[..|s| - 1], sep);
      var c := s[|s| - 1];
      if c == sep then p + [[]]
      else p[..|p| - 1] + [p[|p| - 1] + [c]]
  }

  /** `s.split(sep)[-1]`: the text after the last `sep`, or all of `s` when
      `sep` does not occur. */
  function LastSegment(s: string, sep: char): (r: string)
    ensures |r| <= |s| && r == s[|s| - |r|..]
    ensures sep !in r
    ensures |r| < |s| ==> s[|s| - |r| - 1] == sep
  {
    if s == [] || s[|s| - 1] == sep then []
    else LastSegment(s[..|s| - 1], sep) + [s[|s| - 1]]
  }

  /** `sep.join(parts)`. */
  function Join(sep: string, parts: seq<string>): (r: string)
    ensures |parts| == 1 ==> r == parts[0]
    ensures |parts| == 0 ==> r == []
  {
    if |parts| == 0 then []
    else if |parts| == 1 then parts[0]
    else Join(sep, parts[..|parts| - 1]) + sep + parts[|parts| - 1]
  }

  /** Every piece occurs, verbatim, in the joined string. */
  lemma {:induction false} JoinContains(sep: string, parts: seq<string>, k: nat)
    requires k < |parts|
    ensures IsInfix(parts[k], Join(sep, parts))
    decreases |parts|
  {
    if |parts| == 1 {
      assert OccursAt(parts[0], parts[0], 0);
    } else {
      var init := parts[..|parts| - 1];
      var j := Join(sep, parts);
      if k == |parts| - 1 {
        assert OccursAt(parts[k], j, |j| - |parts[k]|);
      } else {
        JoinContains(sep, init, k);
        var i :| 0 <= i <= |Join(sep, init)| - |parts[k]| && OccursAt(parts[k], Join(sep, init), i);
        assert j[i..i + |parts[k]|] == Join(sep, init)[i..i + |parts[k]|];
        assert OccursAt(parts[k], j, i);
      }
    }
  }

  /** `[x for x in xs if keep(x)]` */
  function Filter(keep: string -> bool, xs: seq<string>): (r: seq<string>)
    ensures |r| <= |xs|
    ensures forall x :: x in r <==> x in xs && keep(x)
  {
    if xs == [] then []
    else Filter(keep, xs[..|xs| - 1]) + (if keep(xs[|xs| - 1]) then [xs[|xs| - 1]] else [])
  }

  /** Filtering keeps the original order: it distributes over concatenation. */
  lemma {:induction false} FilterAppend(keep: string -> bool, a: seq<string>, b: seq<string>)
    ensures Filter(keep, a + b) == Filter(keep, a) + Filter(keep, b)
    decreases |b|
  {
    if b == [] {
      assert a + b == a;
    } else {
      var b' := b[..|b| - 1];
      assert (a + b)[..|a + b| - 1] == a + b';
      FilterAppend(keep, a, b');
    }
  }

  /** Joining two non-empty lists of pieces puts one separator between them. */
  lemma {:induction false} JoinAppend(sep: string, a: seq<string>, b: seq<string>)
    requires a != [] && b != []
    ensures Join(sep, a + b) == Join(sep, a) + sep + Join(sep, b)
    decreases |b|
  {
    if |b| == 1 {
      assert (a + b)[..|a + b| - 1] == a;
    } else {
      var b' := b[..|b| - 1];
      assert (a + b)[..|a + b| - 1] == a + b';
      JoinAppend(sep, a, b');
    }
  }

  /** `sep.join(s.split(sep)) == s`: splitting loses nothing. */
  lemma {:induction false} JoinSplit(s: string, sep: char)
    ensures Join([sep], Split(s, sep)) == s
  {
    if s != [] {
      var s', c := s[..|s| - 1], s[|s| - 1];
      assert s == s' + [c];
      var p := Split(s', sep);
      JoinSplit(s', sep);
      if c == sep {
        var q := p + [[]];
        assert q[..|q| - 1] == p;
        assert Join([sep], q) == Join([sep], p) + [sep] + [];
      } else {
        var last := p[|p| - 1] + [c];
        var q := p[..|p| - 1] + [last];
        if |p| == 1 {
          assert Join([sep], q) == last;
        } else {
          var init := Join([sep], p[..|p| - 1]);
          assert q[..|q| - 1] == p[..|p| - 1];
          assert Join([sep], q) == init + [sep] + last;
          assert Join([sep], p) == init + [sep] + p[|p| - 1];
          assert init + [sep] + last == init + [sep] + p[|p| - 1] + [c];
        }
      }
    }
  }

  /** The last piece of `s.split(sep)` is exactly the text after the last `sep`. */
  lemma {:induction false} LastOfSplit(s: string, sep: char)
    ensures Split(s, sep)[|Split(s, sep)| - 1] == LastSegment(s, sep)
  {
    if s != [] {
      var s', c := s[..|s| - 1], s[|s| - 1];
      var p := Split(s', sep);
      LastOfSplit(s', sep);
      if c == sep {
        assert Split(s, sep) == p + [[]];
      } else {
        var q := p[..|p| - 1] + [p[|p| - 1] + [c]];
        assert Split(s, sep) == q;
        assert LastSegment(s, sep) == LastSegment(s', sep) + [c];
      }
    }
  }

  /** When `s[k]` is the last `sep`, the last segment is what follows it. */
  lemma {:induction false} LastSegmentAfter(s: string, sep: char, k: nat)
    requires k < |s| && s[k] == sep && sep !in s[k + 1..]
    ensures LastSegment(s, sep) == s[k + 1..]
  {
    if k < |s| - 1 {
      var s' := s[..|s| - 1];
      assert s[|s| - 1] == s[k + 1..][|s| - k - 2];
      assert s'[k + 1..] == s[k + 1..][..|s| - k - 2];
      LastSegmentAfter(s', sep, k);
      assert s[k + 1..] == s'[k + 1..] + [s[|s| - 1]];
    }
  }

  /** Without any `sep`, the last segment is the whole string. */
  lemma {:induction false} LastSegmentWhole(s: string, sep: char)
    requires sep !in s
    ensures LastSegment(s, sep) == s
  {
    if s != [] {
      var s' := s[..|s| - 1];
      assert s[|s| - 1] in s;
      assert forall c :: c in s' ==> c in s;
      LastSegmentWhole(s', sep);
      assert s == s' + [s[|s| - 1]];
    }
  }
}
