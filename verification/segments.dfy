/**
  Splitting a country key into its '.'-separated segments.

  Swift's `key.split(separator: ".")` runs with `omittingEmptySubsequences`
  left at its default `true`: it yields the maximal runs of non-'.'
  characters, in order, and never an empty piece. `getCountry` then keeps
  only the `last` of them.
 */
module Segments {
  import opened Options

  const Separator: char := '.'

  predicate DotFree(s: string) {
    forall i :: 0 <= i < |s| ==> s[i] != Separator
  }

  predicate AllDots(s: string) {
    forall i :: 0 <= i < |s| ==> s[i] == Separator
  }

  /** A piece `split` can yield: non-empty and free of the separator. */
  predicate IsPiece(p: string) {
    p != [] && DotFree(p)
  }

  /** Length of the leading run of non-separator characters. */
  function RunLength(s: string): (n: nat)
    ensures n <= |s|
    ensures DotFree(s[..n])
    ensures n < |s| ==> s[n] == Separator
  {
    if s == [] || s[0] == Separator then 0 else 1 + RunLength(s[1..])
  }

  /** `split(separator: ".")` with empty pieces omitted. */
  function Split(s: string): (r: seq<string>)
    ensures forall k :: 0 <= k < |r| ==> IsPiece(r[k])
    ensures r == [] <==> AllDots(s)
    decreases |s|
  {
    if s == [] then []
    else if s[0] == Separator then Split(s[1..])
    else
      var n := RunLength(s);
      [s[..n]] + Split(s[n..])
  }

  /** The pieces glued back together with one separator between neighbours. */
  function Join(parts: seq<string>): (s: string)
  {
    if parts == [] then []
    else if |parts| == 1 then parts[0]
    else parts[0] + [Separator] + Join(parts[1..])
  }

  /** `split(separator: ".").last`: the final piece, if there is one. */
  function LastSegment(s: string): (r: Option<string>)
    ensures r.None? <==> AllDots(s)
    ensures r.Some? ==> IsPiece(r.value)
  {
    var parts := Split(s);
    if parts == [] then None else Some(parts[|parts| - 1])
  }

  /**
    Reference definition of the last segment, independent of Split:
    s[i..j] is a non-empty run of non-separators that starts the string or
    follows a separator, and only separators come after it.
   */
  predicate LastRunAt(s: string, i: int, j: int) {
    && 0 <= i < j <= |s|
    && DotFree(s[i..j])
    && (i == 0 || s[i - 1] == Separator)
    && AllDots(s[j..])
  }

  lemma {:induction false} RunLengthOfPiece(p: string, rest: string)
    requires DotFree(p)
    ensures RunLength(p + rest) == |p| + RunLength(rest)
    decreases |p|
  {
    if p == [] {
      assert p + rest == rest;
    } else {
      assert (p + rest)[0] == p[0];
      assert (p + rest)[1..] == p[1..] + rest;
      RunLengthOfPiece(p[1..], rest);
    }
  }

  lemma {:induction false} RunLengthBeforeDot(a: string, b: string)
    requires RunLength(a) < |a|
    ensures RunLength(a + b) == RunLength(a)
    decreases |a|
  {
    if a[0] != Separator {
      assert (a + b)[1..] == a[1..] + b;
      RunLengthBeforeDot(a[1..], b);
    }
  }

  /** A separator cuts the key in two independent halves. */
  lemma {:induction false} SplitAtSeparator(a: string, b: string)
    ensures Split(a + [Separator] + b) == Split(a) + Split(b)
    decreases |a|
  {
    var s := a + [Separator] + b;
    if a == [] {
      assert s[1..] == b;
    } else if a[0] == Separator {
      assert s[1..] == a[1..] + [Separator] + b;
      SplitAtSeparator(a[1..], b);
    } else {
      var n := RunLength(a);
      if n == |a| {
        assert a[..n] == a;
        RunLengthOfPiece(a, [Separator] + b);
        assert s == a + ([Separator] + b);
        assert RunLength([Separator] + b) == 0;
        assert s[..n] == a;
        assert s[n..] == [Separator] + b;
        assert ([Separator] + b)[1..] == b;
        assert Split(a[n..]) == [];
      } else {
        RunLengthBeforeDot(a, [Separator] + b);
        assert s == a + ([Separator] + b);
        assert s[..n] == a[..n];
        assert s[n..] == a[n..] + [Separator] + b;
        SplitAtSeparator(a[n..], b);
      }
    }
  }

  /** A single piece splits to itself. */
  lemma SplitOfPiece(p: string)
    requires IsPiece(p)
    ensures Split(p) == [p]
  {
    RunLengthOfPiece(p, []);
    assert p + [] == p;
    assert p[..|p|] == p;
  }

  /** Round trip: splitting the joined pieces gives the pieces back. */
  lemma {:induction false} SplitJoin(parts: seq<string>)
    requires forall k :: 0 <= k < |parts| ==> IsPiece(parts[k])
    ensures Split(Join(parts)) == parts
  {
    if parts == [] {
    } else if |parts| == 1 {
      SplitOfPiece(parts[0]);
    } else {
      SplitAtSeparator(parts[0], Join(parts[1..]));
      SplitOfPiece(parts[0]);
      SplitJoin(parts[1..]);
    }
  }

  /** Trailing separators are ignored: "europe.fr." resolves like "europe.fr". */
  lemma TrailingSeparatorIgnored(s: string)
    ensures LastSegment(s + [Separator]) == LastSegment(s)
  {
    SplitAtSeparator(s, []);
    assert s + [Separator] + [] == s + [Separator];
  }

  /** A run of separators only splits to nothing. */
  lemma SplitOfDots(d: string)
    requires AllDots(d)
    ensures Split(d) == []
  {
  }

  /** Completeness: the run the reference definition picks is the last piece. */
  lemma LastSegmentOfRun(s: string, i: int, j: int)
    requires LastRunAt(s, i, j)
    ensures LastSegment(s) == Some(s[i..j])
  {
    var seg := s[i..j];
    var tail := s[j..];
    assert s[i..] == seg + tail;
    if tail == [] {
      SplitOfPiece(seg);
      assert Split(s[i..]) == [seg];
    } else {
      assert tail == [Separator] + tail[1..];
      assert s[i..] == seg + [Separator] + tail[1..];
      SplitAtSeparator(seg, tail[1..]);
      SplitOfPiece(seg);
      SplitOfDots(tail[1..]);
      assert Split(s[i..]) == [seg];
    }
    if i > 0 {
      assert s == s[..i - 1] + [Separator] + s[i..];
      SplitAtSeparator(s[..i - 1], s[i..]);
    } else {
      assert s == s[i..];
    }
  }

  /** A run located in a suffix of `s` is located in `s` itself. */
  lemma RunInSuffix(s: string, n: nat, i: int, j: int)
    requires n <= |s|
    requires LastRunAt(s[n..], i, j)
    requires n > 0 ==> i > 0 || s[n - 1] == Separator
    ensures LastRunAt(s, n + i, n + j)
    ensures s[n + i..n + j] == s[n..][i..j]
  {
    assert s[n + i..n + j] == s[n..][i..j];
    assert s[n + j..] == s[n..][j..];
    if n + i > 0 {
      if i > 0 {
        assert s[n + i - 1] == s[n..][i - 1];
      }
    }
  }

  /** Soundness: whatever the last piece is, the reference definition locates it. */
  lemma {:induction false} LastSegmentIsRun(s: string)
    requires LastSegment(s).Some?
    ensures exists i, j :: LastRunAt(s, i, j) && s[i..j] == LastSegment(s).value
    decreases |s|
  {
    if s[0] == Separator {
      assert Split(s) == Split(s[1..]);
      LastSegmentIsRun(s[1..]);
      var i, j :| LastRunAt(s[1..], i, j) && s[1..][i..j] == LastSegment(s[1..]).value;
      RunInSuffix(s, 1, i, j);
    } else {
      var n := RunLength(s);
      if AllDots(s[n..]) {
        assert LastRunAt(s, 0, n);
        LastSegmentOfRun(s, 0, n);
      } else {
        LastSegmentIsRun(s[n..]);
        var i, j :| LastRunAt(s[n..], i, j) && s[n..][i..j] == LastSegment(s[n..]).value;
        assert s[n..][i..j][0] == s[n..][i] != Separator;
        RunInSuffix(s, n, i, j);
        LastSegmentOfRun(s, n + i, n + j);
      }
    }
  }

  /** The reference definition names at most one segment. */
  lemma LastRunUnique(s: string, i: int, j: int, i': int, j': int)
    requires LastRunAt(s, i, j) && LastRunAt(s, i', j')
    ensures s[i..j] == s[i'..j']
  {
    LastSegmentOfRun(s, i, j);
    LastSegmentOfRun(s, i', j');
  }

  /** A key with no separator is its own single segment. */
  lemma LastSegmentOfPlainKey(s: string)
    requires IsPiece(s)
    ensures LastSegment(s) == Some(s)
  {
    SplitOfPiece(s);
  }

  /**
    An alternative algorithm for `split(separator: ".").last`, proved equal to
    LastSegment: scan from the right past the trailing separators, then back
    to the separator (or start) before the run, without building the pieces.
   */
  method FindLastSegment(s: string) returns (found: bool, seg: string)
    ensures found <==> !AllDots(s)
    ensures found ==> LastSegment(s) == Some(seg)
    ensures !found ==> LastSegment(s) == None
  {
    var j := |s|;
    while j > 0 && s[j - 1] == Separator
      invariant 0 <= j <= |s|
      invariant AllDots(s[j..])
    {
      j := j - 1;
    }
    if j == 0 {
      return false, [];
    }
    var i := j - 1;
    while i > 0 && s[i - 1] != Separator
      invariant 0 <= i < j
      invariant DotFree(s[i..j])
    {
      i := i - 1;
    }
    assert LastRunAt(s, i, j);
    LastSegmentOfRun(s, i, j);
    return true, s[i..j];
  }
}
