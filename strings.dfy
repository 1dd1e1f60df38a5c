/** Cutting a string at a separator, as JavaScript's `split` does for its first two elements. */
module Strings {

  /** Element 0 of `s.split(sep)`: the text before the first `sep`, or all of `s`. */
  function FirstSegment(s: string, sep: char): (r: string)
    ensures r <= s
    ensures sep !in r
    ensures |r| < |s| ==> s[|r|] == sep
  {
    if s == [] || s[0] == sep then [] else [s[0]] + FirstSegment(s[1..], sep)
  }

  /** The first segment of `p + sep + q` is `p` when `p` holds no separator. */
  lemma {:induction false} SegmentEndsAtSeparator(p: string, sep: char, q: string)
    requires sep !in p
    ensures FirstSegment(p + [sep] + q, sep) == p
  {
    if p != [] {
      assert (p + [sep] + q)[1..] == p[1..] + [sep] + q;
      SegmentEndsAtSeparator(p[1..], sep, q);
    }
  }

  /**
   * `field` is element 1 of `s.split(sep)`: it follows the first separator
   * and runs up to the next separator or the end.
   */
  ghost predicate SecondSegment(s: string, sep: char, field: string)
  {
    exists head, rest :: sep !in head && sep !in field && s == head + [sep] + field + rest && (rest == [] || [sep] <= rest)
  }

  /** The pieces of a cut at the first two separators witness the second segment. */
  lemma SecondSegmentOf(s: string, sep: char, head: string, field: string, rest: string)
    requires sep !in head && sep !in field
    requires s == head + [sep] + field + rest && (rest == [] || rest[0] == sep)
    ensures SecondSegment(s, sep, field)
  {
    assert rest == [] || [sep] <= rest;
  }

  /** A string is its part before index i, the element at i, the part up to j, and the rest. */
  lemma {:induction false} JoinAround(s: string, i: int, j: int)
    requires 0 <= i < j <= |s|
    ensures s == s[..i] + [s[i]] + s[i + 1..j] + s[j..]
  {
    assert s[..i] + [s[i]] + s[i + 1..j] + s[j..] == (s[..i] + [s[i]]) + (s[i + 1..j] + s[j..]);
    assert s[i + 1..j] + s[j..] == s[i + 1..];
    assert s[..i] + [s[i]] == s[..i + 1];
  }

  /**
   * A string holding the separator is its first segment, the separator, the
   * next segment, and a rest that is empty or starts at the next separator.
   */
  lemma {:induction false} CutAtSegments(s: string, sep: char, head: string, field: string, rest: string)
    requires head == FirstSegment(s, sep) && |head| < |s|
    requires field == FirstSegment(s[|head| + 1..], sep)
    requires rest == s[|head| + 1 + |field|..]
    ensures s == head + [sep] + field + rest
    ensures rest == [] || rest[0] == sep
  {
    var i := |head|;
    var j := |head| + 1 + |field|;
    JoinAround(s, i, j);
    assert head == s[..i];
    assert field == s[i + 1..j];
  }

  /** A string without the separator is its own first segment. */
  lemma {:induction false} SegmentOfSeparatorFree(q: string, sep: char)
    requires sep !in q
    ensures FirstSegment(q, sep) == q
  {
    if q != [] {
      SegmentOfSeparatorFree(q[1..], sep);
    }
  }

  /** Joining two pieces with a separator the first piece lacks can be undone. */
  lemma SplitJoined(x: string, y: string, u: string, v: string, sep: char)
    requires sep !in x && sep !in u
    requires x + [sep] + y == u + [sep] + v
    ensures x == u && y == v
  {
    SegmentEndsAtSeparator(x, sep, y);
    SegmentEndsAtSeparator(u, sep, v);
    var s := x + [sep] + y;
    assert y == s[|x| + 1..];
    assert v == (u + [sep] + v)[|u| + 1..];
  }
}
