/**
  Dot-separated metric paths. Go's `strings.Split` / `bytes.Split` with a
  one-element separator, `strings.Join` / `bytes.Join`, and the segment
  reversal that both render/data.go (`reversePath`) and finder/reverse.go
  (`ReverseString`, `ReverseBytes`) build from them. Everything is generic in
  the element type, so one theory serves strings and byte slices alike.
*/
module Paths {

  /** Index of the first `sep` in `s` at or after `j`, or |s| when there is none. */
  function FirstIndexFrom<T(==)>(s: seq<T>, sep: T, j: nat): (i: nat)
    requires j <= |s|
    ensures j <= i <= |s|
    ensures i < |s| ==> s[i] == sep
    decreases |s| - j
  {
    if j == |s| then j
    else if s[j] == sep then j
    else FirstIndexFrom(s, sep, j + 1)
  }

  /** Index of the first `sep` in `s`, or |s| when `s` has none (Go's `strings.IndexByte`, with |s| for -1). */
  function FirstIndex<T(==)>(s: seq<T>, sep: T): (i: nat)
    ensures i <= |s|
    ensures i < |s| ==> s[i] == sep
  {
    FirstIndexFrom(s, sep, 0)
  }

  /** No separator comes between `j` and `FirstIndexFrom`. */
  lemma {:induction false} FirstIndexFromBefore<T>(s: seq<T>, sep: T, j: nat)
    requires j <= |s|
    ensures forall k :: j <= k < FirstIndexFrom(s, sep, j) ==> s[k] != sep
    decreases |s| - j
  {
    if j < |s| && s[j] != sep {
      FirstIndexFromBefore(s, sep, j + 1);
    }
  }

  /** No separator comes before `FirstIndex`. */
  lemma FirstIndexBefore<T>(s: seq<T>, sep: T)
    ensures forall k :: 0 <= k < FirstIndex(s, sep) ==> s[k] != sep
  {
    FirstIndexFromBefore(s, sep, 0);
  }

  /** Index of the last `sep` in `s` below `j`, or -1 when there is none. */
  function LastIndexBelow<T(==)>(s: seq<T>, sep: T, j: nat): (p: int)
    requires j <= |s|
    ensures -1 <= p < j
    ensures p >= 0 ==> s[p] == sep
  {
    if j == 0 then -1
    else if s[j - 1] == sep then j - 1
    else LastIndexBelow(s, sep, j - 1)
  }

  /** Index of the last `sep` in `s`, or -1 when `s` has none (Go's `strings.LastIndexByte`). */
  function LastIndex<T(==)>(s: seq<T>, sep: T): (p: int)
    ensures -1 <= p < |s|
    ensures p >= 0 ==> s[p] == sep
  {
    LastIndexBelow(s, sep, |s|)
  }

  /** No separator lies between `LastIndexBelow` and `j`. */
  lemma {:induction false} LastIndexBelowAfter<T>(s: seq<T>, sep: T, j: nat)
    requires j <= |s|
    ensures forall k :: LastIndexBelow(s, sep, j) < k < j ==> s[k] != sep
  {
    if j > 0 && s[j - 1] != sep {
      LastIndexBelowAfter(s, sep, j - 1);
    }
  }

  /** No separator comes after `LastIndex`. */
  lemma LastIndexAfter<T>(s: seq<T>, sep: T)
    ensures forall k :: LastIndex(s, sep) < k < |s| ==> s[k] != sep
  {
    LastIndexBelowAfter(s, sep, |s|);
  }

  /**
    The pieces of `s` between separators. Leading, trailing and consecutive
    separators give empty pieces; a sequence without a separator is one piece.
  */
  function Split<T(==)>(s: seq<T>, sep: T): (parts: seq<seq<T>>)
    ensures |parts| >= 1
    ensures NoSep(parts, sep)
    decreases |s|
  {
    var i := FirstIndex(s, sep);
    FirstIndexBefore(s, sep);
    assert sep !in s[..i];
    if i == |s| then [s] else [s[..i]] + Split(s[i + 1..], sep)
  }

  /** The pieces glued together with one separator between neighbours. */
  function Join<T>(parts: seq<seq<T>>, sep: T): (r: seq<T>)
    ensures |parts| >= 1 ==> |r| == Total(parts) + |parts| - 1
  {
    if |parts| == 0 then []
    else if |parts| == 1 then parts[0]
    else parts[0] + [sep] + Join(parts[1..], sep)
  }

  function Reverse<T>(s: seq<T>): (r: seq<T>)
    ensures |r| == |s|
    ensures forall k :: 0 <= k < |s| ==> r[k] == s[|s| - 1 - k]
  {
    seq(|s|, k requires 0 <= k < |s| => s[|s| - 1 - k])
  }

  /**
    Split on `sep`, reverse the order of the segments, join again. The
    length is kept, and a sequence without a separator is its own reversal.
  */
  function ReversePath<T(==)>(s: seq<T>, sep: T): (r: seq<T>)
    ensures |r| == |s|
    ensures sep !in s ==> r == s
  {
    var parts := Split(s, sep);
    JoinSplit(s, sep);
    TotalReverse(parts);
    if sep !in s then
      assert FirstIndex(s, sep) == |s|;
      assert parts == [s];
      assert Reverse(parts) == parts;
      Join(Reverse(parts), sep)
    else
      Join(Reverse(parts), sep)
  }

  function MapSeq<T, U>(f: T -> U, s: seq<T>): (r: seq<U>)
    ensures |r| == |s|
    ensures forall k :: 0 <= k < |s| ==> r[k] == f(s[k])
  {
    seq(|s|, k requires 0 <= k < |s| => f(s[k]))
  }

  function MapParts<T, U>(f: T -> U, parts: seq<seq<T>>): (r: seq<seq<U>>)
    ensures |r| == |parts|
    ensures forall k :: 0 <= k < |parts| ==> r[k] == MapSeq(f, parts[k])
  {
    seq(|parts|, k requires 0 <= k < |parts| => MapSeq(f, parts[k]))
  }

  /** Total number of elements in all parts. */
  function Total<T>(parts: seq<seq<T>>): nat
  {
    if |parts| == 0 then 0 else |parts[0]| + Total(parts[1..])
  }

  ghost predicate NoSep<T>(parts: seq<seq<T>>, sep: T)
  {
    forall k :: 0 <= k < |parts| ==> sep !in parts[k]
  }

  /**
    The reversal of the segment order, done in place on the slice as the Go
    code does it: exchange a[i] and a[l-i-1] for i < l/2.
  */
  method ReverseSegments<T>(a: array<T>)
    modifies a
    ensures a[..] == Reverse(old(a[..]))
  {
    var l := a.Length;
    var i := 0;
    while i < l / 2
      invariant 0 <= i <= l / 2
      invariant forall k :: 0 <= k < i ==> a[k] == old(a[l - k - 1]) && a[l - k - 1] == old(a[k])
      invariant forall k :: i <= k < l - i ==> a[k] == old(a[k])
    {
      a[i], a[l - i - 1] := a[l - i - 1], a[i];
      i := i + 1;
    }
  }

  /**
    Split into a fresh slice of segments, reverse that slice in place, join:
    the steps of Go's `reversePath`, `ReverseString` and `ReverseBytes`.
  */
  method SplitReverseJoin<T(==)>(s: seq<T>, sep: T) returns (r: seq<T>)
    ensures r == ReversePath(s, sep)
  {
    var parts := Split(s, sep);
    var a := new seq<T>[|parts|](k requires 0 <= k < |parts| => parts[k]);
    assert a[..] == parts;
    ReverseSegments(a);
    r := Join(a[..], sep);
  }

  /** Joining the pieces of a split gives back the original sequence. */
  lemma {:induction false} JoinSplit<T>(s: seq<T>, sep: T)
    ensures Join(Split(s, sep), sep) == s
    decreases |s|
  {
    var i := FirstIndex(s, sep);
    if i < |s| {
      var rest := Split(s[i + 1..], sep);
      JoinSplit(s[i + 1..], sep);
      assert ([s[..i]] + rest)[1..] == rest;
      assert s == s[..i] + [sep] + s[i + 1..];
    }
  }

  /** Splitting a join of separator-free pieces gives back the pieces. */
  lemma {:induction false} SplitJoin<T>(parts: seq<seq<T>>, sep: T)
    requires |parts| >= 1
    requires NoSep(parts, sep)
    ensures Split(Join(parts, sep), sep) == parts
  {
    var p := parts[0];
    if |parts| == 1 {
      assert sep !in p;
      assert FirstIndex(p, sep) == |p|;
    } else {
      var tail := Join(parts[1..], sep);
      var s := p + [sep] + tail;
      assert sep !in p;
      var i := FirstIndex(s, sep);
      FirstIndexBefore(s, sep);
      assert s[|p|] == sep;
      assert i == |p|;
      assert s[..i] == p;
      assert s[i + 1..] == tail;
      SplitJoin(parts[1..], sep);
      assert parts == [p] + parts[1..];
    }
  }

  lemma ReverseReverse<T>(s: seq<T>)
    ensures Reverse(Reverse(s)) == s
  {
  }

  /** Reversing the pieces keeps every piece free of the separator. */
  lemma ReverseNoSep<T>(parts: seq<seq<T>>, sep: T)
    requires NoSep(parts, sep)
    ensures NoSep(Reverse(parts), sep)
  {
    forall k | 0 <= k < |parts|
      ensures sep !in Reverse(parts)[k]
    {
      assert Reverse(parts)[k] == parts[|parts| - 1 - k];
    }
  }

  /**
    The segments of a reversed path are the original segments in reverse
    order; in particular their number is unchanged and every segment,
    empty ones included, is kept verbatim.
  */
  lemma {:induction false} ReversePathSegments<T>(s: seq<T>, sep: T)
    ensures Split(ReversePath(s, sep), sep) == Reverse(Split(s, sep))
  {
    var parts := Split(s, sep);
    ReverseNoSep(parts, sep);
    SplitJoin(Reverse(parts), sep);
  }

  /** Reversing a path twice gives back the path. */
  lemma ReversePathInvolution<T>(s: seq<T>, sep: T)
    ensures ReversePath(ReversePath(s, sep), sep) == s
  {
    var parts := Split(s, sep);
    ReversePathSegments(s, sep);
    ReverseReverse(parts);
    JoinSplit(s, sep);
  }

  lemma {:induction false} TotalAppend<T>(a: seq<seq<T>>, b: seq<seq<T>>)
    ensures Total(a + b) == Total(a) + Total(b)
  {
    if |a| > 0 {
      assert (a + b)[0] == a[0];
      assert (a + b)[1..] == a[1..] + b;
      TotalAppend(a[1..], b);
    } else {
      assert a + b == b;
    }
  }

  lemma {:induction false} TotalReverse<T>(parts: seq<seq<T>>)
    ensures Total(Reverse(parts)) == Total(parts)
  {
    if |parts| > 0 {
      assert Reverse(parts) == Reverse(parts[1..]) + [parts[0]];
      TotalReverse(parts[1..]);
      TotalAppend(Reverse(parts[1..]), [parts[0]]);
      assert Total([parts[0]]) == |parts[0]|;
    }
  }

  /** A sequence characterised by its last separator has that LastIndex. */
  lemma LastIndexAt<T>(s: seq<T>, sep: T, p: int)
    requires -1 <= p < |s|
    requires p >= 0 ==> s[p] == sep
    requires forall k :: p < k < |s| ==> s[k] != sep
    ensures LastIndex(s, sep) == p
  {
    LastIndexAfter(s, sep);
  }

  /** Past a separator at `i`, the last separator is found in the tail. */
  lemma LastIndexTail<T>(s: seq<T>, sep: T, i: nat)
    requires i < |s| && s[i] == sep
    ensures LastIndex(s, sep) == i + 1 + LastIndex(s[i + 1..], sep)
  {
    var t := s[i + 1..];
    var q := LastIndex(t, sep);
    LastIndexAfter(t, sep);
    if q >= 0 {
      assert s[i + 1 + q] == t[q];
    }
    forall k | i + 1 + q < k < |s|
      ensures s[k] != sep
    {
      assert s[k] == t[k - i - 1];
    }
    LastIndexAt(s, sep, i + 1 + q);
  }

  /** `LastIndex` is -1 exactly when there is no separator at all. */
  lemma LastIndexNone<T>(s: seq<T>, sep: T)
    ensures LastIndex(s, sep) == -1 <==> sep !in s
  {
    LastIndexAfter(s, sep);
    if sep in s {
      var k :| 0 <= k < |s| && s[k] == sep;
      assert LastIndex(s, sep) >= k;
    }
  }

  /** The last segment of a split starts right after the last separator. */
  lemma {:induction false} LastSegment<T>(s: seq<T>, sep: T)
    ensures var parts := Split(s, sep);
      parts[|parts| - 1] == s[LastIndex(s, sep) + 1..]
    ensures LastIndex(s, sep) == -1 <==> sep !in s
    decreases |s|
  {
    LastIndexNone(s, sep);
    var i := FirstIndex(s, sep);
    if i == |s| {
      FirstIndexBefore(s, sep);
      assert Split(s, sep) == [s] && s[0..] == s;
    } else {
      LastSegmentStep(s, sep, i);
    }
  }

  /** One step of `LastSegment`: past the first separator, at `i`. */
  lemma {:induction false} LastSegmentStep<T>(s: seq<T>, sep: T, i: nat)
    requires i < |s| && i == FirstIndex(s, sep)
    ensures var parts := Split(s, sep);
      parts[|parts| - 1] == s[LastIndex(s, sep) + 1..]
    decreases |s|, 0
  {
    var t := s[i + 1..];
    LastSegment(t, sep);
    LastIndexTail(s, sep, i);
    SplitCons(s, sep, i);
    LastOfCons(s[..i], Split(t, sep));
    SliceOfSlice(s, i + 1, LastIndex(t, sep) + 1);
  }

  /** Unfolding `Split` once at its first separator. */
  lemma {:induction false} SplitCons<T>(s: seq<T>, sep: T, i: nat)
    requires i < |s| && i == FirstIndex(s, sep)
    ensures Split(s, sep) == [s[..i]] + Split(s[i + 1..], sep)
  {
  }

  lemma LastOfCons<T>(x: T, rest: seq<T>)
    requires |rest| > 0
    ensures var r := [x] + rest; r[|r| - 1] == rest[|rest| - 1]
  {
  }

  lemma SliceOfSlice<T>(s: seq<T>, i: nat, j: nat)
    requires i <= |s| && j <= |s| - i
    ensures s[i..][j..] == s[i + j..]
  {
  }

  lemma {:induction false} JoinMap<T, U>(f: T -> U, parts: seq<seq<T>>, sep: T, sep': U)
    requires f(sep) == sep'
    ensures Join(MapParts(f, parts), sep') == MapSeq(f, Join(parts, sep))
  {
    if |parts| > 1 {
      JoinMap(f, parts[1..], sep, sep');
      assert MapParts(f, parts)[1..] == MapParts(f, parts[1..]);
      assert MapSeq(f, parts[0] + [sep] + Join(parts[1..], sep))
        == MapSeq(f, parts[0]) + [sep'] + MapSeq(f, Join(parts[1..], sep));
    }
  }

  /**
    Reversal commutes with any element-wise re-encoding that maps the
    separator, and only the separator, to the new separator.
  */
  lemma ReversePathMap<T, U>(f: T -> U, s: seq<T>, sep: T, sep': U)
    requires forall x :: f(x) == sep' <==> x == sep
    ensures ReversePath(MapSeq(f, s), sep') == MapSeq(f, ReversePath(s, sep))
  {
    var parts := Split(s, sep);
    var mapped := MapParts(f, parts);
    forall k | 0 <= k < |mapped|
      ensures sep' !in mapped[k]
    {
      assert sep !in parts[k];
    }
    JoinSplit(s, sep);
    JoinMap(f, parts, sep, sep');
    SplitJoin(mapped, sep');
    assert Split(MapSeq(f, s), sep') == mapped;
    assert Reverse(mapped) == MapParts(f, Reverse(parts));
    JoinMap(f, Reverse(parts), sep, sep');
  }
}
