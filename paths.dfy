/** Slash-separated path strings: splitting a string into its segments the way
    Python's `str.split('/')` does, joining them back, and the last segment. */
module Paths {

  /** The path separator used by repository URLs and by POSIX paths. */
  const Separator: char := '/'

  predicate EndsWith(s: string, suffix: string) {
    |suffix| <= |s| && s[|s| - |suffix|..] == suffix
  }

  /** `part` occurs as a contiguous piece of `s`. */
  predicate IsInfix(part: string, s: string) {
    exists i, j :: 0 <= i <= j <= |s| && s[i..j] == part
  }

  /** A string with no separator in it: a single path segment. */
  predicate IsSegment(s: string) {
    Separator !in s
  }

  /** `p` can be followed directly by a final segment: it is empty or ends in a separator. */
  predicate AtSegmentBoundary(p: string) {
    p == [] || p[|p| - 1] == Separator
  }

  /** `s.split('/')`: the pieces of `s` between separators, from left to right.
      There is always at least one piece, and empty pieces are kept. */
  function Segments(s: string): (parts: seq<string>)
    ensures |parts| >= 1
    decreases |s|
  {
    if s == [] then [[]]
    else
      var init := Segments(s[..|s| - 1]);
      var c := s[|s| - 1];
      if c == Separator then init + [[]]
      else init[..|init| - 1] + [init[|init| - 1] + [c]]
  }

  /** `'/'.join(parts)`. */
  function JoinSegments(parts: seq<string>): string
    requires |parts| >= 1
    decreases |parts|
  {
    if |parts| == 1 then parts[0]
    else JoinSegments(parts[..|parts| - 1]) + [Separator] + parts[|parts| - 1]
  }

  /** `s.split('/')[-1]`: everything after the last separator of `s`. */
  function LastSegment(s: string): (r: string)
    ensures IsSegment(r)
    ensures EndsWith(s, r)
    ensures AtSegmentBoundary(s[..|s| - |r|])
  {
    var parts := Segments(s);
    SegmentsHaveNoSeparator(s);
    JoinSegmentsOfSegments(s);
    JoinSegmentsEndsWithLast(parts);
    parts[|parts| - 1]
  }

  /** No piece of a split contains the separator. */
  lemma {:induction false} SegmentsHaveNoSeparator(s: string)
    ensures forall i :: 0 <= i < |Segments(s)| ==> IsSegment(Segments(s)[i])
    decreases |s|
  {
    if s != [] {
      var s', c := s[..|s| - 1], s[|s| - 1];
      assert s == s' + [c];
      SegmentsHaveNoSeparator(s');
      if c == Separator {
        SegmentsAppendSeparator(s');
      } else {
        SegmentsExtendLast(s', c);
      }
    }
  }

  /** Joining the pieces of a split gives back the original string. */
  lemma {:induction false} JoinSegmentsOfSegments(s: string)
    ensures JoinSegments(Segments(s)) == s
    decreases |s|
  {
    if s != [] {
      var s', c := s[..|s| - 1], s[|s| - 1];
      assert s == s' + [c];
      assert JoinSegments(Segments(s')) == s' by {
        JoinSegmentsOfSegments(s');
      }
      var init := Segments(s');
      if c == Separator {
        assert Segments(s) == init + [[]] by {
          SegmentsAppendSeparator(s');
        }
        assert JoinSegments(init + [[]]) == s' + [Separator] by {
          JoinSegmentsAppendEmpty(init);
        }
      } else {
        var extended := init[..|init| - 1] + [init[|init| - 1] + [c]];
        assert Segments(s) == extended by {
          SegmentsExtendLast(s', c);
        }
        assert JoinSegments(extended) == s' + [c] by {
          JoinSegmentsExtendLast(init, c);
        }
      }
    }
  }

  /** Joining with an extra empty piece at the end adds a trailing separator. */
  lemma JoinSegmentsAppendEmpty(parts: seq<string>)
    requires |parts| >= 1
    ensures JoinSegments(parts + [[]]) == JoinSegments(parts) + [Separator]
  {
    assert (parts + [[]])[..|parts|] == parts;
  }

  /** Extending the last piece by a character extends the join by it. */
  lemma JoinSegmentsExtendLast(parts: seq<string>, c: char)
    requires |parts| >= 1
    ensures JoinSegments(parts[..|parts| - 1] + [parts[|parts| - 1] + [c]]) == JoinSegments(parts) + [c]
  {
    var k := |parts|;
    var extended := parts[..k - 1] + [parts[k - 1] + [c]];
    if k > 1 {
      assert extended[..k - 1] == parts[..k - 1];
    }
  }

  /** Splitting a join of separator-free pieces gives back the pieces. */
  lemma {:induction false} SegmentsOfJoinSegments(parts: seq<string>)
    requires |parts| >= 1
    requires forall i :: 0 <= i < |parts| ==> IsSegment(parts[i])
    ensures Segments(JoinSegments(parts)) == parts
    decreases |parts|
  {
    if |parts| == 1 {
      SegmentsOfSegment(parts[0]);
    } else {
      var init := parts[..|parts| - 1];
      SegmentsOfJoinSegments(init);
      SegmentsThenSegment(JoinSegments(init), parts[|parts| - 1]);
      SegmentsOfSegment(parts[|parts| - 1]);
      assert init + [parts[|parts| - 1]] == parts;
    }
  }

  /** A string without separators splits into itself alone. */
  lemma {:induction false} SegmentsOfSegment(s: string)
    requires IsSegment(s)
    ensures Segments(s) == [s]
    decreases |s|
  {
    if s != [] {
      SegmentsOfSegment(s[..|s| - 1]);
      assert s[..|s| - 1] + [s[|s| - 1]] == s;
    }
  }

  /** Splitting `a + "/" + r`, where `r` has no separator, splits `a` and then
      yields `r` as the final piece. */
  lemma {:induction false} SegmentsThenSegment(a: string, r: string)
    requires IsSegment(r)
    ensures Segments(a + [Separator] + r) == Segments(a) + [r]
    decreases |r|
  {
    if r == [] {
      assert a + [Separator] + r == a + [Separator];
      SegmentsAppendSeparator(a);
    } else {
      var r', c := r[..|r| - 1], r[|r| - 1];
      var x := a + [Separator] + r';
      assert r == r' + [c];
      assert a + [Separator] + r == x + [c];
      assert Segments(x) == Segments(a) + [r'] by {
        SegmentsThenSegment(a, r');
      }
      SegmentsExtendLast(x, c);
      assert (Segments(a) + [r'])[..|Segments(a)|] == Segments(a);
    }
  }

  /** One step of the split: appending a separator opens a new, empty segment. */
  lemma SegmentsAppendSeparator(s: string)
    ensures Segments(s + [Separator]) == Segments(s) + [[]]
  {
    assert (s + [Separator])[..|s|] == s;
  }

  /** One step of the split: appending any other character extends the last segment. */
  lemma SegmentsExtendLast(s: string, c: char)
    requires c != Separator
    ensures var parts := Segments(s);
            Segments(s + [c]) == parts[..|parts| - 1] + [parts[|parts| - 1] + [c]]
  {
    assert (s + [c])[..|s|] == s;
  }

  /** A join ends with its last piece, right after a separator (or at the start). */
  lemma {:induction false} JoinSegmentsEndsWithLast(parts: seq<string>)
    requires |parts| >= 1
    ensures EndsWith(JoinSegments(parts), parts[|parts| - 1])
    ensures AtSegmentBoundary(JoinSegments(parts)[..|JoinSegments(parts)| - |parts[|parts| - 1]|])
  {
    var s, last := JoinSegments(parts), parts[|parts| - 1];
    if |parts| > 1 {
      var front := JoinSegments(parts[..|parts| - 1]) + [Separator];
      assert s == front + last;
      assert s[..|s| - |last|] == front;
      assert s[|s| - |last|..] == last;
    }
  }

  /** The last segment is determined by any way of writing `s` as a prefix that
      ends at a separator followed by a separator-free remainder. */
  lemma {:induction false} LastSegmentUnique(p: string, r: string)
    requires AtSegmentBoundary(p)
    requires IsSegment(r)
    ensures LastSegment(p + r) == r
  {
    SegmentsOfSegment(r);
    if p != [] {
      var p' := p[..|p| - 1];
      assert p == p' + [Separator];
      SegmentsThenSegment(p', r);
    }
  }
}
