/**
  What `DataParse` promises about metric IDs: every point carries the ID
  its metric is interned under, so two points share an ID exactly when
  they share a metric. The loop as written starts from an empty "previous
  name" with ID 0, which breaks this for an empty first record name.
*/
module RenderDataIds {
  import opened Wrappers
  import opened Bytes
  import opened RenderWire
  import opened RenderData

  /** `p` carries the ID its metric is interned under in `t`. */
  ghost predicate Named(p: Point, t: Table)
  {
    p.metric in t.ids && p.metricID == t.ids[p.metric]
  }

  /** `Named`, or, when `loose`, the empty metric with ID 0 that the as-written start gives. */
  ghost predicate PointNamed(p: Point, t: Table, loose: bool)
  {
    Named(p, t) || (loose && p.metricID == 0 && p.metric == "")
  }

  ghost predicate PrevNamed(prev: Option<Prev>, t: Table, loose: bool)
  {
    prev.None?
    || (prev.value.metric in t.ids && prev.value.id == t.ids[prev.value.metric])
    || (loose && prev.value.id == 0 && prev.value.metric == "")
  }

  /** What the record loop keeps true from one record to the next. */
  ghost predicate LoopState(t: Table, prev: Option<Prev>, acc: seq<Point>, loose: bool)
  {
    TableValid(t) && PrevNamed(prev, t, loose) && forall q :: q in acc ==> PointNamed(q, t, loose)
  }

  /** Looking up one raw name keeps the table valid and the current name named, and only grows the table. */
  lemma NextPrevKeeps(t: Table, prev: Option<Prev>, newName: seq<byte>, isReverse: bool, loose: bool)
    requires TableValid(t) && PrevNamed(prev, t, loose)
    ensures var (u, cur) := NextPrev(t, prev, newName, isReverse);
      TableValid(u) && Extends(t, u) && PrevNamed(Some(cur), u, loose)
  {
    if !(prev.Some? && newName == prev.value.name) {
      InternValid(t, FinalName(newName, isReverse));
    }
  }

  /** Storing one record's point keeps the loop state, and the table only grows. */
  lemma AppendKeeps(t: Table, prev: Option<Prev>, acc: seq<Point>, newName: seq<byte>, isReverse: bool, loose: bool,
                    body: seq<byte>, f: nat, u: Table, cur: Prev, acc': seq<Point>)
    requires LoopState(t, prev, acc, loose) && f + 16 <= |body|
    requires (u, cur) == NextPrev(t, prev, newName, isReverse)
    requires acc' == acc + [RecordPoint(body, f, cur)]
    ensures LoopState(u, Some(cur), acc', loose) && Extends(t, u)
  {
    NextPrevKeeps(t, prev, newName, isReverse, loose);
    forall q | q in acc'
      ensures PointNamed(q, u, loose)
    {
      if q in acc {
        assert PointNamed(q, t, loose);
      }
    }
  }

  /** One record read by `ReadRecord` keeps the loop state and moves the parse on to the next record. */
  lemma {:induction false} KeepsStep(body: seq<byte>, offset: nat, t: Table, prev: Option<Prev>, isReverse: bool, acc: seq<Point>,
                  loose: bool, s: Step)
    requires LoopState(t, prev, acc, loose)
    requires offset < |body| && ReadRecord(body, offset, t, prev, isReverse, acc) == Ok(s)
    ensures LoopState(s.table, Some(s.cur), s.points, loose) && offset < s.next
    ensures ParseFrom(body, offset, t, prev, isReverse, acc) == ParseFrom(body, s.next, s.table, Some(s.cur), isReverse, s.points)
  {
    ReadRecordShape(body, offset, t, prev, isReverse, acc, s);
    ParseFromStep(body, offset, t, prev, isReverse, acc, s);
    AppendKeeps(t, prev, acc, s.cur.name, isReverse, loose, body, s.next - 16, s.table, s.cur, s.points);
  }

  /** The whole record loop keeps the loop state. */
  lemma {:induction false} ParseFromKeeps(body: seq<byte>, offset: nat, t: Table, prev: Option<Prev>, isReverse: bool,
                                          acc: seq<Point>, loose: bool)
    requires LoopState(t, prev, acc, loose)
    requires ParseFrom(body, offset, t, prev, isReverse, acc).Ok?
    ensures var p := ParseFrom(body, offset, t, prev, isReverse, acc).value;
      TableValid(p.table) && forall q :: q in p.points ==> PointNamed(q, p.table, loose)
    decreases |body| - offset
  {
    if offset < |body| {
      var s := ReadRecord(body, offset, t, prev, isReverse, acc).value;
      KeepsStep(body, offset, t, prev, isReverse, acc, loose, s);
      ParseFromKeeps(body, s.next, s.table, Some(s.cur), isReverse, s.points, loose);
    }
  }

  /** Interning one extra keeps the table valid and every point so far named. */
  lemma ExtraKeeps(t: Table, p: Point, acc: seq<Point>)
    requires TableValid(t) && forall q :: q in acc ==> Named(q, t)
    ensures var (u, id) := Intern(t, p.metric);
      TableValid(u) && forall q :: q in acc + [p.(metricID := id)] ==> Named(q, u)
  {
    InternValid(t, p.metric);
    var (u, id) := Intern(t, p.metric);
    forall q | q in acc + [p.(metricID := id)]
      ensures Named(q, u)
    {
      if q in acc {
        assert Named(q, t);
      }
    }
  }

  /**
    The extras come first, in order, each with everything but its ID
    copied and its ID replaced by the one its metric is interned under.
  */
  lemma {:induction false} AddExtrasNamed(extras: seq<Point>, i: nat, t: Table, acc: seq<Point>)
    requires i <= |extras| && |acc| == i
    requires TableValid(t) && forall q :: q in acc ==> Named(q, t)
    ensures var (ps, u) := AddExtras(extras, i, t, acc);
      TableValid(u) && (forall q :: q in ps ==> Named(q, u))
      && forall k :: i <= k < |extras| ==> ps[k] == extras[k].(metricID := ps[k].metricID)
  {
    AddExtrasValid(extras, i, t, acc);
    AddExtrasCopies(extras, i, t, acc);
  }

  /** The extras' loop keeps the table valid and every point named. */
  lemma {:induction false} AddExtrasValid(extras: seq<Point>, i: nat, t: Table, acc: seq<Point>)
    requires i <= |extras|
    requires TableValid(t) && forall q :: q in acc ==> Named(q, t)
    ensures var (ps, u) := AddExtras(extras, i, t, acc);
      TableValid(u) && forall q :: q in ps ==> Named(q, u)
    decreases |extras| - i
  {
    if i < |extras| {
      var (u, id) := Intern(t, extras[i].metric);
      ExtraKeeps(t, extras[i], acc);
      AddExtrasValid(extras, i + 1, u, acc + [extras[i].(metricID := id)]);
    }
  }

  /** The extras' loop copies each extra but its ID into the slot of its index. */
  lemma {:induction false} AddExtrasCopies(extras: seq<Point>, i: nat, t: Table, acc: seq<Point>)
    requires i <= |extras| && |acc| == i
    ensures var ps := AddExtras(extras, i, t, acc).0;
      forall k :: i <= k < |extras| ==> ps[k] == extras[k].(metricID := ps[k].metricID)
    decreases |extras| - i
  {
    if i < |extras| {
      var (u, id) := Intern(t, extras[i].metric);
      var acc' := acc + [extras[i].(metricID := id)];
      AddExtrasCopies(extras, i + 1, u, acc');
      var ps := AddExtras(extras, i + 1, u, acc').0;
      assert AddExtras(extras, i, t, acc).0 == ps;
      assert ps[i] == acc'[i] by {
        assert ps[..|acc'|] == acc';
      }
    }
  }

  /**
    A parsed response starts with the extras, in order, each with
    everything but its ID kept as the caller gave it.
  */
  lemma ParseExtrasFirst(body: seq<byte>, extras: seq<Point>, isReverse: bool, first: Option<Prev>)
    requires ParseWith(body, extras, isReverse, first).Ok?
    ensures var ps := ParseWith(body, extras, isReverse, first).value.points;
      |extras| <= |ps| && forall k :: 0 <= k < |extras| ==> ps[k] == extras[k].(metricID := ps[k].metricID)
  {
    var (acc, t) := AddExtras(extras, 0, EmptyTable, []);
    EmptyTableValid();
    AddExtrasNamed(extras, 0, EmptyTable, []);
    ParseFromPrefix(body, 0, t, first, isReverse, acc);
    var ps := ParseWith(body, extras, isReverse, first).value.points;
    forall k | 0 <= k < |extras|
      ensures ps[k] == extras[k].(metricID := ps[k].metricID)
    {
      assert ps[k] == ps[..|acc|][k] == acc[k];
    }
  }

  /** The state before the first record, right after the extras. */
  lemma {:induction false} StartState(extras: seq<Point>, first: Option<Prev>, loose: bool)
    requires PrevNamed(first, EmptyTable, loose)
    ensures var (acc, t) := AddExtras(extras, 0, EmptyTable, []); LoopState(t, first, acc, loose)
  {
    EmptyTableValid();
    AddExtrasNamed(extras, 0, EmptyTable, []);
    var (acc, t) := AddExtras(extras, 0, EmptyTable, []);
    assert PrevNamed(first, t, loose);
  }

  /**
    With no previous name before the first record, every point of a parsed
    response carries its metric's non-zero interned ID.
  */
  lemma ParseCorrectedNamed(body: seq<byte>, extras: seq<Point>, isReverse: bool)
    requires ParseCorrected(body, extras, isReverse).Ok?
    ensures var p := ParseCorrected(body, extras, isReverse).value;
      TableValid(p.table) && forall q :: q in p.points ==> Named(q, p.table) && q.metricID >= 1
  {
    StartState(extras, None, false);
    var (acc, t) := AddExtras(extras, 0, EmptyTable, []);
    ParseFromKeeps(body, 0, t, None, isReverse, acc, false);
  }

  /** Two points of a parsed response share an ID exactly when they share a metric. */
  lemma ParseCorrectedSameId(body: seq<byte>, extras: seq<Point>, isReverse: bool, i: nat, j: nat)
    requires ParseCorrected(body, extras, isReverse).Ok?
    requires i < |ParseCorrected(body, extras, isReverse).value.points|
    requires j < |ParseCorrected(body, extras, isReverse).value.points|
    ensures var ps := ParseCorrected(body, extras, isReverse).value.points;
      ps[i].metric == ps[j].metric <==> ps[i].metricID == ps[j].metricID
  {
    ParseCorrectedNamed(body, extras, isReverse);
    var p := ParseCorrected(body, extras, isReverse).value;
    assert p.points[i] in p.points && p.points[j] in p.points;
  }

  /** As written, a point either carries its metric's interned ID or is the empty metric with ID 0. */
  lemma ParseNamedOrEmpty(body: seq<byte>, extras: seq<Point>, isReverse: bool)
    requires Parse(body, extras, isReverse).Ok?
    ensures var p := Parse(body, extras, isReverse).value;
      TableValid(p.table) && forall q :: q in p.points ==> Named(q, p.table) || (q.metricID == 0 && q.metric == "")
  {
    StartState(extras, AsWrittenFirst, true);
    var (acc, t) := AddExtras(extras, 0, EmptyTable, []);
    ParseFromKeeps(body, 0, t, AsWrittenFirst, isReverse, acc, true);
  }

  /** A response of one record with an empty name and zero fixed bytes: 17 zero bytes. */
  ghost predicate EmptyNameBody(body: seq<byte>)
  {
    |body| == 17 && forall k :: 0 <= k < 17 ==> body[k] == 0
  }

  /** The table after the one extra point `ZeroPoint`: the empty metric with ID 1. */
  const ONE_NAME: Table := Table(map["" := 1], 1)

  lemma {:induction false} LittleEndianZeros(bs: seq<byte>)
    requires forall k :: 0 <= k < |bs| ==> bs[k] == 0
    ensures LittleEndian(bs) == 0
  {
    if |bs| > 0 {
      LittleEndianZeros(bs[1..]);
    }
  }

  /** The record of an `EmptyNameBody`: an empty name, then zero time, value and timestamp. */
  lemma EmptyNameRecord(body: seq<byte>, first: Option<Prev>, acc: seq<Point>)
    requires EmptyNameBody(body)
    ensures var (u, cur) := NextPrev(ONE_NAME, first, [], false);
      ReadRecord(body, 0, ONE_NAME, first, false, acc)
      == Ok(Step(17, u, cur, acc + [Point(cur.id, cur.metric, 0, 0, 0)]))
  {
    TerminatorFromAt(body, 0, 0);
    assert UvarintFrom(body, 0) == Decoded(0, 1);
    var (u, cur) := NextPrev(ONE_NAME, first, [], false);
    assert body[1..1] == [];
    ReadRecordOk(body, 0, ONE_NAME, first, false, acc, 0, 1, u, cur);
    LittleEndianZeros(body[5..13]);
    Uint32Bytes(body[1..5]);
    Uint32Bytes(body[13..17]);
    assert RecordPoint(body, 1, cur) == Point(cur.id, cur.metric, 0, 0, 0);
  }

  /**
    An `EmptyNameBody` after the extra `ZeroPoint`, from any previous name:
    the extra's point, then the record's point with all fixed fields 0,
    named as `NextPrev` names the empty raw name.
  */
  lemma EmptyNameParse(body: seq<byte>, first: Option<Prev>)
    requires EmptyNameBody(body)
    ensures var (u, cur) := NextPrev(ONE_NAME, first, [], false);
      ParseWith(body, [ZeroPoint], false, first)
      == Ok(Parsed([Point(1, "", 0, 0, 0), Point(cur.id, cur.metric, 0, 0, 0)], u))
  {
    TerminatorFromAt(body, 0, 0);
    CountStep(body, 0, 0);
    assert Count(body) == Ok(1);
    var acc := [Point(1, "", 0, 0, 0)];
    assert AddExtras([ZeroPoint], 0, EmptyTable, []) == (acc, ONE_NAME);
    var (u, cur) := NextPrev(ONE_NAME, first, [], false);
    EmptyNameRecord(body, first, acc);
    var ps := acc + [Point(cur.id, cur.metric, 0, 0, 0)];
    ParseFromStep(body, 0, ONE_NAME, first, false, acc, Step(17, u, cur, ps));
    assert ParseFrom(body, 17, u, Some(cur), false, ps) == Ok(Parsed(ps, u));
    assert ParseWith(body, [ZeroPoint], false, first) == ParseFrom(body, 0, ONE_NAME, first, false, acc);
    assert ps == [Point(1, "", 0, 0, 0), Point(cur.id, cur.metric, 0, 0, 0)];
  }

  /**
    As written, an extra point with the empty metric and a record with the
    empty name get different IDs, 1 and 0, though their metric is the same.
  */
  lemma EmptyFirstNameAsWritten(body: seq<byte>)
    requires EmptyNameBody(body)
    ensures Parse(body, [ZeroPoint], false)
      == Ok(Parsed([Point(1, "", 0, 0, 0), Point(0, "", 0, 0, 0)], ONE_NAME))
  {
    EmptyNameParse(body, AsWrittenFirst);
  }

  /** Corrected, both points get the ID 1 of the empty metric. */
  lemma EmptyFirstNameCorrected(body: seq<byte>)
    requires EmptyNameBody(body)
    ensures ParseCorrected(body, [ZeroPoint], false)
      == Ok(Parsed([Point(1, "", 0, 0, 0), Point(1, "", 0, 0, 0)], ONE_NAME))
  {
    EmptyNameParse(body, None);
    assert FinalName([], false) == "";
  }
}
