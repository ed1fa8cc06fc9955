/**
  finder/reverse.go: a finder that sends a metric query either to the
  finder it wraps, unchanged, or to a finder over the reverse-tree table,
  with the path segments reversed, and that reverses the names it gets back
  when it chose the reverse table. The finders it talks to are stand-ins
  that record the queries they receive and hand out fixed answers.
*/
module FinderReverse {
  import opened Wrappers
  import opened Bytes
  import Paths

  /** The byte `'.'`. */
  const DOT: byte := 0x2E

  /** `ReverseString`: split on '.', swap the segments end for end, join on '.'. */
  method ReverseString(target: string) returns (r: string)
    ensures r == Paths.ReversePath(target, '.')
    ensures |r| == |target|
    ensures Paths.Split(r, '.') == Paths.Reverse(Paths.Split(target, '.'))
    ensures '.' !in target ==> r == target
  {
    r := Paths.SplitReverseJoin(target, '.');
    Paths.ReversePathSegments(target, '.');
  }

  /** `ReverseBytes`: the same on a byte slice, with the byte '.' as separator. */
  method ReverseBytes(target: seq<byte>) returns (r: seq<byte>)
    ensures r == Paths.ReversePath(target, DOT)
    ensures ToString(r) == Paths.ReversePath(ToString(target), '.')
    ensures |r| == |target|
  {
    r := Paths.SplitReverseJoin(target, DOT);
    ReverseBytesAsString(target);
  }

  /** Reversing the bytes of a path and reversing the string of those bytes agree. */
  lemma ReverseBytesAsString(bs: seq<byte>)
    ensures ToString(Paths.ReversePath(bs, DOT)) == Paths.ReversePath(ToString(bs), '.')
  {
    forall x: byte
      ensures ToChar(x) == '.' <==> x == DOT
    {
    }
    Paths.ReversePathMap(ToChar, bs, DOT, '.');
    assert ToString(bs) == Paths.MapSeq(ToChar, bs);
    assert ToString(Paths.ReversePath(bs, DOT)) == Paths.MapSeq(ToChar, Paths.ReversePath(bs, DOT));
  }

  /** Where `Execute` sends a query. */
  datatype Route = Wrapped | Reversed

  /**
    `Execute`'s decision. A query without '.', or whose last '.' is its last
    character, goes to the wrapped finder; so does one whose last segment
    has a wildcard. Every other query goes to the reverse table. Stated
    through the segments: a query is reversed exactly when it has at least
    two segments and its last one is non-empty and free of wildcards.
  */
  function Classify(query: string, hasWildcard: string -> bool): (r: Route)
    ensures var parts := Paths.Split(query, '.'); var last := parts[|parts| - 1];
      r == Reversed <==> |parts| >= 2 && last != [] && !hasWildcard(last)
  {
    Paths.LastSegment(query, '.');
    SplitCount(query);
    var p := Paths.LastIndex(query, '.');
    if p < 0 || p >= |query| - 1 then Wrapped
    else if hasWildcard(query[p + 1..]) then Wrapped
    else Reversed
  }

  /** A path splits into one segment exactly when it has no '.'. */
  lemma {:induction false} SplitCount(s: string)
    ensures |Paths.Split(s, '.')| == 1 <==> '.' !in s
  {
    Paths.FirstIndexBefore(s, '.');
  }

  /** Three '.'-free segments joined by '.', as in "a.b.c". */
  function Path3(x: string, y: string, z: string): string
  {
    x + ['.'] + y + ['.'] + z
  }

  lemma JoinThree(x: string, y: string, z: string)
    ensures Paths.Join([x, y, z], '.') == Path3(x, y, z)
  {
    var parts := [x, y, z];
    assert parts[1..] == [y, z] && parts[1..][1..] == [z];
    assert Paths.Join([y, z], '.') == y + ['.'] + z;
  }

  /**
    A three-segment query with a non-empty, wildcard-free last segment goes
    to the reverse table with its segments in the opposite order: "a.b.c"
    becomes "c.b.a".
  */
  lemma ReverseThree(x: string, y: string, z: string, hasWildcard: string -> bool)
    requires '.' !in x && '.' !in y && '.' !in z
    requires z != [] && !hasWildcard(z)
    ensures Paths.Split(Path3(x, y, z), '.') == [x, y, z]
    ensures Classify(Path3(x, y, z), hasWildcard) == Reversed
    ensures Paths.ReversePath(Path3(x, y, z), '.') == Path3(z, y, x)
  {
    JoinThree(x, y, z);
    assert Paths.NoSep([x, y, z], '.');
    Paths.SplitJoin([x, y, z], '.');
    assert Paths.Reverse([x, y, z]) == [z, y, x];
    JoinThree(z, y, x);
  }

  /** A query without '.', or ending in '.', is forced to the wrapped finder whatever the wildcard test says. */
  lemma ForcedForward(query: string, hasWildcard: string -> bool)
    requires '.' !in query || query[|query| - 1] == '.'
    ensures Classify(query, hasWildcard) == Wrapped
  {
    Paths.LastSegment(query, '.');
    SplitCount(query);
  }

  /** The element-wise reversal `List` and `Series` apply to what the reverse table returns. */
  function ReverseAll(names: seq<seq<byte>>): (r: seq<seq<byte>>)
    ensures |r| == |names|
  {
    seq(|names|, i requires 0 <= i < |names| => Paths.ReversePath(names[i], DOT))
  }

  /** Names stored reversed come back as they were: `ReverseAll` undoes itself. */
  lemma ReverseAllInvolution(names: seq<seq<byte>>)
    ensures ReverseAll(ReverseAll(names)) == names
  {
    forall i | 0 <= i < |names|
      ensures ReverseAll(ReverseAll(names))[i] == names[i]
    {
      Paths.ReversePathInvolution(names[i], DOT);
    }
  }

  /** What a finder's `Execute` was asked: the query and the time range. */
  datatype Query = Query(query: string, from: int, until: int)

  /** An error a finder returns. */
  datatype FindError = FindError(message: string)

  /**
    A finder the reverse finder talks to, as an oracle: it records every
    query it is asked, answers each with a fixed outcome, and hands out its
    lists of names, the same slices each time.
  */
  class Oracle {
    var received: seq<Query>
    const outcome: Option<FindError>
    const listed: array<seq<byte>>
    const series: array<seq<byte>>

    constructor (outcome: Option<FindError>, listed: array<seq<byte>>, series: array<seq<byte>>)
      ensures received == [] && this.outcome == outcome && this.listed == listed && this.series == series
    {
      received := [];
      this.outcome := outcome;
      this.listed := listed;
      this.series := series;
    }

    method Execute(q: Query) returns (err: Option<FindError>)
      modifies `received
      ensures received == old(received) + [q] && err == outcome
    {
      received := received + [q];
      err := outcome;
    }
  }

  /** `ReverseFinder`. Only `isUsed` changes; the finders are fixed when it is made. */
  class ReverseFinder {
    const wrapped: Oracle
    const base: Oracle
    const hasWildcard: string -> bool
    var isUsed: bool

    /** The wrapped finder and the reverse-table finder are different finders. */
    ghost predicate Valid()
    {
      wrapped != base
    }

    /** `WrapReverse`, given the reverse-table finder it would make. */
    constructor (wrapped: Oracle, base: Oracle, hasWildcard: string -> bool)
      requires wrapped != base
      ensures Valid() && !isUsed
      ensures this.wrapped == wrapped && this.base == base && this.hasWildcard == hasWildcard
    {
      this.wrapped := wrapped;
      this.base := base;
      this.hasWildcard := hasWildcard;
      isUsed := false;
    }

    /**
      `Execute`: the query goes where `Classify` says, unchanged to the
      wrapped finder or reversed to the reverse table, and that finder's
      error is returned as it is. Choosing the reverse table sets `isUsed`;
      nothing clears it.
    */
    method Execute(query: string, from: int, until: int) returns (err: Option<FindError>)
      requires Valid()
      modifies `isUsed, wrapped`received, base`received
      ensures Classify(query, hasWildcard) == Wrapped ==>
        wrapped.received == old(wrapped.received) + [Query(query, from, until)]
        && base.received == old(base.received) && isUsed == old(isUsed) && err == wrapped.outcome
      ensures Classify(query, hasWildcard) == Reversed ==>
        base.received == old(base.received) + [Query(Paths.ReversePath(query, '.'), from, until)]
        && wrapped.received == old(wrapped.received) && isUsed && err == base.outcome
    {
      var p := Paths.LastIndex(query, '.');
      if p < 0 || p >= |query| - 1 {
        err := wrapped.Execute(Query(query, from, until));
        return;
      }
      if hasWildcard(query[p + 1..]) {
        err := wrapped.Execute(Query(query, from, until));
        return;
      }
      err := ExecuteReversed(query, from, until);
    }

    /** The reverse route of `Execute`: record that the reverse table is used and send it the reversed query. */
    method ExecuteReversed(query: string, from: int, until: int) returns (err: Option<FindError>)
      modifies `isUsed, base`received
      ensures base.received == old(base.received) + [Query(Paths.ReversePath(query, '.'), from, until)]
      ensures isUsed && err == base.outcome
    {
      isUsed := true;
      var reversed := ReverseString(query);
      err := base.Execute(Query(reversed, from, until));
    }

    /**
      `List`: the wrapped finder's list as it is, or, once the reverse table
      was used, the reverse table's list with every name reversed back, in
      place in the slice that finder handed out.
    */
    method List() returns (list: array<seq<byte>>)
      modifies base.listed
      ensures !isUsed ==> list == wrapped.listed && base.listed[..] == old(base.listed[..])
      ensures isUsed ==> list == base.listed && list[..] == ReverseAll(old(base.listed[..]))
    {
      if !isUsed {
        return wrapped.listed;
      }
      list := base.listed;
      ReverseInPlace(list);
    }

    /** `Series`: as `List`, over the series names. */
    method Series() returns (list: array<seq<byte>>)
      modifies base.series
      ensures !isUsed ==> list == wrapped.series && base.series[..] == old(base.series[..])
      ensures isUsed ==> list == base.series && list[..] == ReverseAll(old(base.series[..]))
    {
      if !isUsed {
        return wrapped.series;
      }
      list := base.series;
      ReverseInPlace(list);
    }

    /** `Abs`: names are already absolute and come back unchanged. */
    method Abs(v: seq<byte>) returns (r: seq<byte>)
      ensures r == v
    {
      r := v;
    }
  }

  /** The loop of `List` and `Series`: `list[i] = ReverseBytes(list[i])` for every `i`. */
  method ReverseInPlace(list: array<seq<byte>>)
    modifies list
    ensures list[..] == ReverseAll(old(list[..]))
  {
    var i := 0;
    while i < list.Length
      invariant 0 <= i <= list.Length
      invariant forall k :: 0 <= k < i ==> list[k] == Paths.ReversePath(old(list[k]), DOT)
      invariant forall k :: i <= k < list.Length ==> list[k] == old(list[k])
    {
      list[i] := ReverseBytes(list[i]);
      i := i + 1;
    }
  }
}
