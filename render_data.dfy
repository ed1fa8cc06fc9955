/**
  The decoding half of render/data.go: the point collection `Data` with its
  name-interning table, `DataParse` filling the pre-sized point slice, and
  `Len` / `Less` / `Swap`, the order the points are sorted in afterwards.
*/
module RenderData {
  import opened Wrappers
  import opened Bytes
  import Paths
  import opened RenderWire

  /**
    One decoded sample (the fields of `point.Point` this code touches).
    `time` and `timestamp` are Go `int32`s; `value` is the raw 64 bits of
    the IEEE-754 double.
  */
  datatype Point = Point(metricID: int, metric: string, time: int, value: nat, timestamp: int)

  const ZeroPoint := Point(0, "", 0, 0, 0)

  // ---------------------------------------------------------------------
  // The interning table

  /** The `nameToID` map and the `maxID` counter of a `Data`. */
  datatype Table = Table(ids: map<string, int>, maxID: int)

  const EmptyTable := Table(map[], 0)

  /** Go's map index: the stored ID, or the zero value when the name is absent. */
  function Lookup(t: Table, name: string): (id: int)
    ensures id != 0 ==> name in t.ids && t.ids[name] == id
  {
    if name in t.ids then t.ids[name] else 0
  }

  /**
    `NameToID` on a table value: a stored non-zero ID is returned as it is;
    otherwise `maxID` is advanced and the new value is stored for the name.
  */
  function Intern(t: Table, name: string): (r: (Table, int))
    ensures r.0.ids.Keys == t.ids.Keys + {name}
    ensures name in r.0.ids && r.0.ids[name] == r.1
    ensures forall n :: n in t.ids && n != name ==> r.0.ids[n] == t.ids[n]
    ensures Lookup(t, name) != 0 ==> r == (t, Lookup(t, name))
    ensures Lookup(t, name) == 0 ==> r.1 == r.0.maxID == t.maxID + 1
  {
    var id := Lookup(t, name);
    if id == 0 then
      (Table(t.ids[name := t.maxID + 1], t.maxID + 1), t.maxID + 1)
    else
      (t, id)
  }

  /**
    What interning keeps true from the empty table on: the stored IDs are
    exactly 1..maxID, each used by exactly one name.
  */
  ghost predicate TableValid(t: Table)
  {
    && t.maxID >= 0
    && (forall n :: n in t.ids ==> 1 <= t.ids[n] <= t.maxID)
    && (forall a, b :: a in t.ids && b in t.ids && t.ids[a] == t.ids[b] ==> a == b)
    && (forall k :: 1 <= k <= t.maxID ==> IdUsed(t, k))
  }

  ghost predicate IdUsed(t: Table, k: int)
  {
    exists n :: n in t.ids && t.ids[n] == k
  }

  /** `u` keeps every entry of `t`. */
  ghost predicate Extends(t: Table, u: Table)
  {
    forall n :: n in t.ids ==> n in u.ids && u.ids[n] == t.ids[n]
  }

  /**
    In a valid table a zero lookup means exactly that the name is absent,
    which is what `NameToID`'s `id == 0` test relies on.
  */
  lemma LookupAbsent(t: Table, name: string)
    requires TableValid(t)
    ensures Lookup(t, name) == 0 <==> name !in t.ids
  {
  }

  lemma EmptyTableValid()
    ensures TableValid(EmptyTable)
  {
  }

  /**
    Interning keeps the table a bijection between its names and 1..maxID,
    never hands out 0, and keeps every existing entry.
  */
  lemma InternValid(t: Table, name: string)
    requires TableValid(t)
    ensures TableValid(Intern(t, name).0)
    ensures Intern(t, name).1 >= 1
    ensures Extends(t, Intern(t, name).0)
    ensures name in t.ids ==> Intern(t, name) == (t, t.ids[name])
    ensures name !in t.ids ==> Intern(t, name).1 == t.maxID + 1
  {
    var (u, id) := Intern(t, name);
    if name !in t.ids {
      forall k | 1 <= k <= u.maxID
        ensures IdUsed(u, k)
      {
        if k == u.maxID {
          assert u.ids[name] == k;
        } else {
          assert IdUsed(t, k);
          var n :| n in t.ids && t.ids[n] == k;
          assert u.ids[n] == k;
        }
      }
    }
  }

  /** Interning the same name again changes nothing and gives the same ID. */
  lemma InternIdempotent(t: Table, name: string)
    requires TableValid(t)
    ensures var (u, id) := Intern(t, name); Intern(u, name) == (u, id)
  {
    InternValid(t, name);
  }

  // ---------------------------------------------------------------------
  // DataParse on values

  /**
    The metric name of a raw record name: the bytes as a string, reversed
    with `reversePath` when asked. It has one character per byte, and a name
    without '.' is its own metric either way.
  */
  function FinalName(name: seq<byte>, isReverse: bool): (metric: string)
    ensures |metric| == |name|
    ensures '.' !in ToString(name) ==> metric == ToString(name)
  {
    if isReverse then Paths.ReversePath(ToString(name), '.') else ToString(name)
  }

  /** The raw name of the record last looked up, with the metric and ID decoded for it. */
  datatype Prev = Prev(name: seq<byte>, metric: string, id: int)

  datatype Parsed = Parsed(points: seq<Point>, table: Table)

  /** The extra points, in order, each with its ID replaced by the interned ID of its metric. */
  function AddExtras(extras: seq<Point>, i: nat, t: Table, acc: seq<Point>): (r: (seq<Point>, Table))
    requires i <= |extras|
    ensures |r.0| == |acc| + |extras| - i && r.0[..|acc|] == acc
    decreases |extras| - i
  {
    if i == |extras| then (acc, t)
    else
      var (u, id) := Intern(t, extras[i].metric);
      AddExtras(extras, i + 1, u, acc + [extras[i].(metricID := id)])
  }

  /**
    The record loop of `DataParse` from `offset` on, with `t` the table so
    far, `prev` the last name looked up and `acc` the points filled so far.
    A record whose raw name equals `prev`'s reuses its metric and ID;
    otherwise the name is converted and interned.
  */
  function ParseFrom(body: seq<byte>, offset: nat, t: Table, prev: Option<Prev>, isReverse: bool,
                     acc: seq<Point>): (r: Result<Parsed, Error>)
    ensures r.Err? ==> r.error == ErrClickHouseResponse
    decreases |body| - offset
  {
    if offset >= |body| then
      if offset == |body| then Ok(Parsed(acc, t)) else Err(ErrClickHouseResponse)
    else
      match ReadRecord(body, offset, t, prev, isReverse, acc)
      case Err(e) => Err(e)
      case Ok(s) => ParseFrom(body, s.next, s.table, Some(s.cur), isReverse, s.points)
  }

  /** The state of the record loop after one record. */
  datatype Step = Step(next: nat, table: Table, cur: Prev, points: seq<Point>)

  /**
    One pass of the record loop at `offset`: the name length, the name and
    the 16 fixed bytes must all be there.
  */
  function ReadRecord(body: seq<byte>, offset: nat, t: Table, prev: Option<Prev>, isReverse: bool,
                      acc: seq<Point>): (r: Result<Step, Error>)
    requires offset < |body|
    ensures r.Err? ==> r.error == ErrClickHouseResponse
    ensures r.Ok? ==>
      offset < r.value.next <= |body| && |r.value.points| == |acc| + 1 && r.value.points[..|acc|] == acc
  {
    match UvarintFrom(body, offset)
    case Failed(_, _) => Err(ErrClickHouseResponse)
    case Decoded(namelen, readBytes) =>
      var o := offset + readBytes;
      if |body| - o < namelen + 16 then Err(ErrClickHouseResponse)
      else
        var f := o + namelen;
        var (u, cur) := NextPrev(t, prev, body[o..f], isReverse);
        assert (acc + [RecordPoint(body, f, cur)])[..|acc|] == acc;
        Ok(Step(f + 16, u, cur, acc + [RecordPoint(body, f, cur)]))
  }

  /**
    The table and the current name after reading the raw name `newName`:
    unchanged when it equals the previous raw name, else converted and interned.
  */
  function NextPrev(t: Table, prev: Option<Prev>, newName: seq<byte>, isReverse: bool): (r: (Table, Prev))
    ensures r.1.name == newName
    ensures prev.Some? && newName == prev.value.name ==> r == (t, prev.value)
    ensures !(prev.Some? && newName == prev.value.name) ==>
      r.1.metric == FinalName(newName, isReverse) && Lookup(r.0, r.1.metric) == r.1.id
  {
    if prev.Some? && newName == prev.value.name then (t, prev.value)
    else
      var metric := FinalName(newName, isReverse);
      var (u, id) := Intern(t, metric);
      (u, Prev(newName, metric, id))
  }

  /** The point of the record whose fixed 16 bytes start at `f`, named by `cur`. */
  function RecordPoint(body: seq<byte>, f: nat, cur: Prev): (p: Point)
    requires f + 16 <= |body|
    ensures p.metricID == cur.id && p.metric == cur.metric
    ensures -0x8000_0000 <= p.time < 0x8000_0000 && -0x8000_0000 <= p.timestamp < 0x8000_0000
    ensures p.value < TWO_64
  {
    Point(cur.id, cur.metric, Int32(Uint32(body[f..f + 4])),
          Uint64(body[f + 4..f + 12]), Int32(Uint32(body[f + 12..f + 16])))
  }

  /** `ReadRecord` for a record whose name of `namelen` bytes starts at `o`, all of it inside `body`. */
  lemma ReadRecordOk(body: seq<byte>, offset: nat, t: Table, prev: Option<Prev>, isReverse: bool, acc: seq<Point>,
                     namelen: nat, o: nat, t': Table, cur: Prev)
    requires offset <= o && o + namelen + 16 <= |body|
    requires UvarintFrom(body, offset) == Decoded(namelen, o - offset)
    requires (t', cur) == NextPrev(t, prev, body[o..o + namelen], isReverse)
    ensures ReadRecord(body, offset, t, prev, isReverse, acc)
      == Ok(Step(o + namelen + 16, t', cur, acc + [RecordPoint(body, o + namelen, cur)]))
  {
    assert !(|body| - o < namelen + 16);
  }

  /**
    Conversely, a record `ReadRecord` accepts has its name and 16 fixed
    bytes inside `body`: the step is what looking up its raw name gives.
  */
  lemma ReadRecordShape(body: seq<byte>, offset: nat, t: Table, prev: Option<Prev>, isReverse: bool, acc: seq<Point>,
                        s: Step)
    requires offset < |body| && ReadRecord(body, offset, t, prev, isReverse, acc) == Ok(s)
    ensures offset + 17 <= s.next <= |body|
    ensures (s.table, s.cur) == NextPrev(t, prev, s.cur.name, isReverse)
    ensures s.points == acc + [RecordPoint(body, s.next - 16, s.cur)]
  {
  }

  /** After a record `ReadRecord` accepts, the loop goes on from the step it gives. */
  lemma {:induction false} ParseFromStep(body: seq<byte>, offset: nat, t: Table, prev: Option<Prev>, isReverse: bool, acc: seq<Point>,
                      s: Step)
    requires offset < |body| && ReadRecord(body, offset, t, prev, isReverse, acc) == Ok(s)
    ensures ParseFrom(body, offset, t, prev, isReverse, acc) == ParseFrom(body, s.next, s.table, Some(s.cur), isReverse, s.points)
  {
  }

  /** The points filled so far stay the first points of the result. */
  lemma {:induction false} ParseFromPrefix(body: seq<byte>, offset: nat, t: Table, prev: Option<Prev>, isReverse: bool,
                                           acc: seq<Point>)
    requires ParseFrom(body, offset, t, prev, isReverse, acc).Ok?
    ensures var p := ParseFrom(body, offset, t, prev, isReverse, acc).value;
      |acc| <= |p.points| && p.points[..|acc|] == acc
    ensures offset < |body| ==> |acc| < |ParseFrom(body, offset, t, prev, isReverse, acc).value.points|
    decreases |body| - offset
  {
    if offset < |body| {
      var s := ReadRecord(body, offset, t, prev, isReverse, acc).value;
      ParseFromPrefix(body, s.next, s.table, Some(s.cur), isReverse, s.points);
    }
  }

  /** A record `DataCount` counts is one `ReadRecord` reads, and the two move on to the same offset. */
  lemma CountReadRecord(body: seq<byte>, offset: nat, t: Table, prev: Option<Prev>, isReverse: bool,
                        acc: seq<Point>, count: nat) returns (next: nat)
    requires offset < |body| && CountFrom(body, offset, count).Ok?
    ensures ReadRecord(body, offset, t, prev, isReverse, acc).Ok?
    ensures ReadRecord(body, offset, t, prev, isReverse, acc).value.next == next
    ensures CountFrom(body, offset, count) == CountFrom(body, next, count + 1)
  {
    next := CountNext(body, offset, count);
    var u := UvarintFrom(body, offset);
    ReadRecordNext(body, offset, t, prev, isReverse, acc, u.value, offset + u.readBytes);
  }

  /** A record whose name and fixed bytes fit is read up to the end of its fixed bytes. */
  lemma ReadRecordNext(body: seq<byte>, offset: nat, t: Table, prev: Option<Prev>, isReverse: bool, acc: seq<Point>,
                       namelen: nat, o: nat)
    requires offset <= o && o + namelen + 16 <= |body|
    requires UvarintFrom(body, offset) == Decoded(namelen, o - offset)
    ensures ReadRecord(body, offset, t, prev, isReverse, acc).Ok?
    ensures ReadRecord(body, offset, t, prev, isReverse, acc).value.next == o + namelen + 16
  {
    assert !(|body| - o < namelen + 16);
  }

  /** Past the last record, counting and parsing both stop: with nothing left, nothing more is stored. */
  lemma {:induction false} ParseFromCountEnd(body: seq<byte>, offset: nat, t: Table, prev: Option<Prev>, isReverse: bool,
                          acc: seq<Point>, count: nat)
    requires offset >= |body| && CountFrom(body, offset, count).Ok?
    ensures CountFrom(body, offset, count) == Ok(count)
    ensures ParseFrom(body, offset, t, prev, isReverse, acc) == Ok(Parsed(acc, t))
  {
  }

  /** A body `DataCount` accepts gets through the record loop, one point per counted record. */
  lemma {:induction false} ParseFromCountFrom(body: seq<byte>, offset: nat, t: Table, prev: Option<Prev>, isReverse: bool,
                                              acc: seq<Point>, count: nat, n: nat)
    requires CountFrom(body, offset, count) == Ok(n)
    ensures var r := ParseFrom(body, offset, t, prev, isReverse, acc);
      r.Ok? && |r.value.points| == |acc| + n - count
    decreases |body| - offset, 1
  {
    if offset < |body| {
      ParseFromCountStep(body, offset, t, prev, isReverse, acc, count, n);
    } else {
      ParseFromCountEnd(body, offset, t, prev, isReverse, acc, count);
    }
  }

  /** `ParseFromCountFrom` when a record is left: one point for it, then the rest of the body. */
  lemma {:induction false} ParseFromCountStep(body: seq<byte>, offset: nat, t: Table, prev: Option<Prev>, isReverse: bool,
                                              acc: seq<Point>, count: nat, n: nat)
    requires offset < |body| && CountFrom(body, offset, count) == Ok(n)
    ensures var r := ParseFrom(body, offset, t, prev, isReverse, acc);
      r.Ok? && |r.value.points| == |acc| + n - count
    decreases |body| - offset, 0
  {
    var s := CountParseStep(body, offset, t, prev, isReverse, acc, count);
    ParseFromCountFrom(body, s.next, s.table, Some(s.cur), isReverse, s.points, count + 1, n);
  }

  /** Counting and parsing take the same first record `s` and go on from the same offset. */
  lemma CountParseStep(body: seq<byte>, offset: nat, t: Table, prev: Option<Prev>, isReverse: bool,
                       acc: seq<Point>, count: nat) returns (s: Step)
    requires offset < |body| && CountFrom(body, offset, count).Ok?
    ensures offset < s.next && |s.points| == |acc| + 1
    ensures CountFrom(body, offset, count) == CountFrom(body, s.next, count + 1)
    ensures ParseFrom(body, offset, t, prev, isReverse, acc) == ParseFrom(body, s.next, s.table, Some(s.cur), isReverse, s.points)
  {
    var next := CountReadRecord(body, offset, t, prev, isReverse, acc, count);
    s := ReadRecord(body, offset, t, prev, isReverse, acc).value;
    ParseFromStep(body, offset, t, prev, isReverse, acc, s);
  }

  /**
    `DataParse` with a choice of the state before the first record: the
    `DataCount` error verbatim, or the extras followed by the records. The
    only error is `DataCount`'s: a body `DataCount` accepts always parses,
    to the extras and one point per counted record.
  */
  function ParseWith(body: seq<byte>, extras: seq<Point>, isReverse: bool, first: Option<Prev>): (r: Result<Parsed, Error>)
    ensures Count(body).Err? ==> r == Err(Count(body).error)
    ensures Count(body).Ok? ==> r.Ok? && |r.value.points| == |extras| + Count(body).value
  {
    match Count(body)
    case Err(e) => Err(e)
    case Ok(n) =>
      var (acc, t) := AddExtras(extras, 0, EmptyTable, []);
      ParseFromCountFrom(body, 0, t, first, isReverse, acc, 0, n);
      ParseFrom(body, 0, t, first, isReverse, acc)
  }

  /** Go's "previous name" before the first record: the empty name, with metric "" and ID 0. */
  const AsWrittenFirst: Option<Prev> := Some(Prev([], "", 0))

  /** `DataParse` as written. */
  function Parse(body: seq<byte>, extras: seq<Point>, isReverse: bool): (r: Result<Parsed, Error>)
    ensures Count(body).Err? ==> r == Err(Count(body).error)
    ensures Count(body).Ok? ==> r.Ok? && |r.value.points| == |extras| + Count(body).value
  {
    ParseWith(body, extras, isReverse, AsWrittenFirst)
  }

  /** `DataParse` with no previous name before the first record, so every first name is interned. */
  function ParseCorrected(body: seq<byte>, extras: seq<Point>, isReverse: bool): (r: Result<Parsed, Error>)
    ensures Count(body).Err? ==> r == Err(Count(body).error)
    ensures Count(body).Ok? ==> r.Ok? && |r.value.points| == |extras| + Count(body).value
  {
    ParseWith(body, extras, isReverse, None)
  }

  // ---------------------------------------------------------------------
  // The point collection

  /** The order `Less` sorts by: ascending MetricID, then ascending Time. */
  predicate PointLess(p: Point, q: Point): (r: bool)
    ensures p.metricID < q.metricID ==> r
    ensures r ==> p.metricID <= q.metricID
    ensures p.metricID == q.metricID ==> (r <==> p.time < q.time)
  {
    p.metricID < q.metricID || (p.metricID == q.metricID && p.time < q.time)
  }

  /**
    `Less` is a strict weak order, as `sort.Sort` requires: irreflexive by
    asymmetry, transitive, and two points are unordered exactly when they
    share both MetricID and Time.
  */
  lemma PointLessOrder(p: Point, q: Point, o: Point)
    ensures PointLess(p, q) ==> !PointLess(q, p)
    ensures PointLess(p, q) && PointLess(q, o) ==> PointLess(p, o)
    ensures !PointLess(p, q) && !PointLess(q, p) <==> p.metricID == q.metricID && p.time == q.time
  {
  }

  /** What a sort by `Less` leaves: no point is `Less` than the one before it. */
  ghost predicate SortedByLess(ps: seq<Point>)
  {
    forall i :: 0 < i < |ps| ==> !PointLess(ps[i], ps[i - 1])
  }

  /** In a sorted collection IDs never decrease, and within one ID times never decrease. */
  lemma {:induction false} SortedMonotone(ps: seq<Point>, i: nat, j: nat)
    requires SortedByLess(ps) && i <= j < |ps|
    ensures ps[i].metricID <= ps[j].metricID
    ensures ps[i].metricID == ps[j].metricID ==> ps[i].time <= ps[j].time
    decreases j - i
  {
    if i < j {
      SortedMonotone(ps, i, j - 1);
      assert !PointLess(ps[j], ps[j - 1]);
    }
  }

  /** A sorted collection keeps the points of one metric ID together. */
  lemma SortedContiguous(ps: seq<Point>, i: nat, j: nat, k: nat)
    requires SortedByLess(ps) && i <= j <= k < |ps| && ps[i].metricID == ps[k].metricID
    ensures ps[j].metricID == ps[i].metricID
  {
    SortedMonotone(ps, i, j);
    SortedMonotone(ps, j, k);
  }

  class Data {
    var points: array<Point>
    var nameToID: map<string, int>
    var maxID: int

    function Names(): Table
      reads this
    {
      Table(nameToID, maxID)
    }

    /** `&Data{Points: make([]point.Point, n), nameToID: make(map[string]int)}`. */
    constructor (n: nat)
      ensures fresh(points) && points.Length == n
      ensures forall k :: 0 <= k < n ==> points[k] == ZeroPoint
      ensures Names() == EmptyTable
    {
      points := new Point[n](_ => ZeroPoint);
      nameToID := map[];
      maxID := 0;
    }

    /** `NameToID`: the interned ID of `name`, storing a fresh one when there is none. */
    method NameToID(name: string) returns (id: int)
      modifies `nameToID, `maxID
      ensures (Names(), id) == Intern(old(Names()), name)
    {
      id := if name in nameToID then nameToID[name] else 0;
      if id == 0 {
        maxID := maxID + 1;
        id := maxID;
        nameToID := nameToID[name := id];
      }
    }

    /**
      The rest of one iteration of `DataParse`'s record loop, once the name
      length is read: the record's name of `namelen` bytes starts at `o` and
      its 16 fixed bytes follow. A name equal to the previous raw name keeps
      the previous metric and ID, any other is converted and interned; the
      record's point is stored at `index`.
    */
    method StoreRecord(body: seq<byte>, o: nat, namelen: nat, index: nat, prev: Option<Prev>, isReverse: bool)
      returns (cur: Prev)
      requires o + namelen + 16 <= |body| && index < points.Length
      modifies `nameToID, `maxID, points
      ensures (Names(), cur) == NextPrev(old(Names()), prev, body[o..o + namelen], isReverse)
      ensures points[..] == old(points[..])[index := RecordPoint(body, o + namelen, cur)]
    {
      var newName := body[o..o + namelen];
      var f := o + namelen;
      if prev.Some? && newName == prev.value.name {
        cur := prev.value;
      } else {
        var metric;
        if isReverse {
          metric := ReversePath(ToString(newName));
        } else {
          metric := ToString(newName);
        }
        var id := NameToID(metric);
        cur := Prev(newName, metric, id);
      }
      var time := Uint32(body[f..f + 4]);
      var value := Uint64(body[f + 4..f + 12]);
      var timestamp := Uint32(body[f + 12..f + 16]);
      assert Point(cur.id, cur.metric, Int32(time), value, Int32(timestamp)) == RecordPoint(body, f, cur);
      points[index] := Point(cur.id, cur.metric, Int32(time), value, Int32(timestamp));
    }

    /**
      One iteration of `DataParse`'s record loop at `offset`, storing the
      record's point at `index`: the error `ReadRecord` gives, with nothing
      changed, or the next offset and current name, with the table and the
      points advanced as `ReadRecord` says.
    */
    method ParseRecord(body: seq<byte>, offset: nat, index: nat, prev: Option<Prev>, isReverse: bool)
      returns (next: nat, cur: Prev, err: Option<Error>)
      requires offset < |body| && index < points.Length
      modifies `nameToID, `maxID, points
      ensures match ReadRecord(body, offset, old(Names()), prev, isReverse, old(points[..index]))
        case Err(e) =>
          err == Some(e) && Names() == old(Names()) && points[..] == old(points[..])
        case Ok(s) =>
          err == None && next == s.next && cur == s.cur && Names() == s.table
          && points[..index + 1] == s.points && points[index + 1..] == old(points[index + 1..])
    {
      var u := ReadUvarint(body[offset..]);
      UvarintSlice(body, offset);
      if u.Failed? {
        return 0, Prev([], "", 0), Some(ErrClickHouseResponse);
      }
      var namelen, readBytes := u.value, u.readBytes;
      var o := offset + readBytes;
      if |body| - o < namelen + 16 {
        return 0, Prev([], "", 0), Some(ErrClickHouseResponse);
      }
      ghost var before, t := points[..], Names();
      cur := StoreRecord(body, o, namelen, index, prev, isReverse);
      UpdateSlices(before, index, RecordPoint(body, o + namelen, cur));
      ReadRecordOk(body, offset, t, prev, isReverse, before[..index], namelen, o, Names(), cur);
      next, err := o + namelen + 16, None;
    }

    /**
      `DataParse`'s first loop: the extras are stored from index 0 on, each
      with the ID its metric is interned under.
    */
    method FillExtras(extras: seq<Point>)
      requires |extras| <= points.Length && Names() == EmptyTable
      modifies `nameToID, `maxID, points
      ensures (points[..|extras|], Names()) == AddExtras(extras, 0, EmptyTable, [])
      ensures points[|extras|..] == old(points[|extras|..])
    {
      var index := 0;
      while index < |extras|
        invariant 0 <= index <= |extras|
        invariant AddExtras(extras, index, Names(), points[..index]) == AddExtras(extras, 0, EmptyTable, [])
        invariant points[|extras|..] == old(points[|extras|..])
      {
        points[index] := extras[index];
        var id := NameToID(points[index].metric);
        points[index] := points[index].(metricID := id);
        assert points[..index + 1] == points[..index] + [extras[index].(metricID := id)];
        index := index + 1;
      }
    }

    /**
      `DataParse`'s record loop: from `start` on, one point per record, the
      points and the table ending as `ParseFrom` says, with `first` the
      previous name the loop starts from. The error returns of the loop are
      unreachable once the body has been counted.
    */
    method FillRecords(body: seq<byte>, start: nat, isReverse: bool, first: Option<Prev>)
      requires start <= points.Length
      requires ParseFrom(body, 0, Names(), first, isReverse, points[..start]).Ok?
      requires |ParseFrom(body, 0, Names(), first, isReverse, points[..start]).value.points| == points.Length
      modifies `nameToID, `maxID, points
      ensures ParseFrom(body, 0, old(Names()), first, isReverse, old(points[..start])) == Ok(Parsed(points[..], Names()))
    {
      ghost var S := ParseFrom(body, 0, Names(), first, isReverse, points[..start]);
      var index: nat := start;
      var prev: Option<Prev> := first;
      var offset: nat := 0;
      while offset < |body|
        invariant index <= points.Length && S.Ok? && |S.value.points| == points.Length
        invariant ParseFrom(body, offset, Names(), prev, isReverse, points[..index]) == S
        decreases |body| - offset
      {
        ParseFromPrefix(body, offset, Names(), prev, isReverse, points[..index]);
        var cur, e;
        offset, cur, e := ParseRecord(body, offset, index, prev, isReverse);
        if e.Some? {
          assert false;
        }
        prev := Some(cur);
        index := index + 1;
      }
      assert S == Ok(Parsed(points[..index], Names()));
      assert points[..index] == points[..];
    }

    function Len(): (n: int)
      reads this
      ensures n == points.Length
    {
      points.Length
    }

    function Less(i: int, j: int): (b: bool)
      reads this, points
      requires 0 <= i < points.Length && 0 <= j < points.Length
      ensures b <==> PointLess(points[i], points[j])
    {
      if points[i].metricID == points[j].metricID then points[i].time < points[j].time
      else points[i].metricID < points[j].metricID
    }

    method Swap(i: int, j: int)
      requires 0 <= i < points.Length && 0 <= j < points.Length
      modifies points
      ensures points[..] == old(points[..])[i := old(points[j])][j := old(points[i])]
      ensures multiset(points[..]) == multiset(old(points[..]))
    {
      points[i], points[j] := points[j], points[i];
    }
  }

  /** Storing `x` at `i` extends the prefix before `i` by `x` and keeps everything after `i`. */
  lemma UpdateSlices<T>(a: seq<T>, i: nat, x: T)
    requires i < |a|
    ensures a[i := x][..i + 1] == a[..i] + [x] && a[i := x][i + 1..] == a[i + 1..]
  {
  }

  /** `reversePath`. */
  method ReversePath(path: string) returns (r: string)
    ensures r == Paths.ReversePath(path, '.')
  {
    r := Paths.SplitReverseJoin(path, '.');
  }

  /**
    `DataParse` from the state `first` before the first record. The body is
    counted first; a body `DataCount` rejects gives its error and no
    collection. Otherwise the points are filled in place: the extras, then
    one point per record.
  */
  method DataParseWith(body: seq<byte>, extras: seq<Point>, isReverse: bool, first: Option<Prev>)
    returns (d: Data?, err: Option<Error>)
    ensures match ParseWith(body, extras, isReverse, first)
      case Err(e) => d == null && err == Some(e)
      case Ok(p) =>
        d != null && fresh(d) && fresh(d.points) && err == None && d.points[..] == p.points && d.Names() == p.table
  {
    var c := DataCount(body);
    if c.Err? {
      return null, Some(c.error);
    }
    var count := c.value;
    var (acc, t) := AddExtras(extras, 0, EmptyTable, []);
    assert ParseWith(body, extras, isReverse, first) == ParseFrom(body, 0, t, first, isReverse, acc);
    d := new Data(count + |extras|);
    d.FillExtras(extras);
    d.FillRecords(body, |extras|, isReverse, first);
    err := None;
  }

  /** `DataParse` as written: the loop starts from the empty name with metric "" and ID 0. */
  method DataParse(body: seq<byte>, extras: seq<Point>, isReverse: bool) returns (d: Data?, err: Option<Error>)
    ensures match Parse(body, extras, isReverse)
      case Err(e) => d == null && err == Some(e)
      case Ok(p) =>
        d != null && fresh(d) && fresh(d.points) && err == None && d.points[..] == p.points && d.Names() == p.table
  {
    d, err := DataParseWith(body, extras, isReverse, AsWrittenFirst);
  }

  /** `DataParse` corrected: the loop starts with no previous name, so the first record's name is interned. */
  method DataParseCorrected(body: seq<byte>, extras: seq<Point>, isReverse: bool) returns (d: Data?, err: Option<Error>)
    ensures match ParseCorrected(body, extras, isReverse)
      case Err(e) => d == null && err == Some(e)
      case Ok(p) =>
        d != null && fresh(d) && fresh(d.points) && err == None && d.points[..] == p.points && d.Names() == p.table
  {
    d, err := DataParseWith(body, extras, isReverse, None);
  }
}
