/**
  What `DataParse` reads back from a response made of well-formed records:
  one point per record, in order, with the record's name as its metric
  (reversed when asked), its time and timestamp as `int32`s and its value's
  64 bits as sent.
*/
module RenderDataRoundTrip {
  import opened Wrappers
  import opened Bytes
  import Paths
  import opened RenderWire
  import opened RenderData

  /** The point `p` is what the record `r` holds. */
  ghost predicate Decodes(p: Point, r: Record, isReverse: bool)
  {
    && WellFormed(r)
    && p.metric == FinalName(r.name, isReverse)
    && p.time == Int32(r.time)
    && p.value == r.value
    && p.timestamp == Int32(r.timestamp)
  }

  /** From index `from` on, `ps` holds exactly the points of the records `rs`, in order. */
  ghost predicate DecodesRecords(ps: seq<Point>, from: nat, rs: seq<Record>, isReverse: bool)
  {
    |ps| == from + |rs| && forall k :: 0 <= k < |rs| ==> Decodes(ps[from + k], rs[k], isReverse)
  }

  /** `ps` keeps the points `acc` first, then holds exactly the points of the records `rs`. */
  ghost predicate DecodesAfter(ps: seq<Point>, acc: seq<Point>, rs: seq<Record>, isReverse: bool)
  {
    DecodesRecords(ps, |acc|, rs, isReverse) && ps[..|acc|] == acc
  }

  /** The metric remembered for the previous raw name is that name's metric. */
  ghost predicate PrevMetric(prev: Option<Prev>, isReverse: bool)
  {
    prev.Some? ==> prev.value.metric == FinalName(prev.value.name, isReverse)
  }

  /** Go's starting state, the empty name with metric "", names its metric. */
  lemma AsWrittenFirstMetric(isReverse: bool)
    ensures PrevMetric(AsWrittenFirst, isReverse)
  {
    var empty: seq<byte> := [];
    assert ToString(empty) == "";
    assert Paths.ReversePath("", '.') == "";
  }

  /**
    The parts of the record `r` lie in `body` as a record read from `offset`
    finds them: its name length there, its name from `o` to `f`, and its
    time, value and timestamp in the 16 bytes after it.
  */
  ghost predicate LaidOut(body: seq<byte>, offset: nat, r: Record, o: nat, f: nat)
  {
    NameLaidOut(body, offset, r, o, f) && FieldsLaidOut(body, r, f)
  }

  /** The name length of `r` at `offset` and its name from `o` to `f`, with 16 bytes after it. */
  ghost predicate NameLaidOut(body: seq<byte>, offset: nat, r: Record, o: nat, f: nat)
  {
    && offset <= o && f == o + |r.name| && f + 16 <= |body|
    && UvarintFrom(body, offset) == Decoded(|r.name|, o - offset)
    && body[o..f] == r.name
  }

  /** The time, value and timestamp of `r` in the 16 bytes from `f`. */
  ghost predicate FieldsLaidOut(body: seq<byte>, r: Record, f: nat)
  {
    && f + 16 <= |body|
    && body[f..f + 4] == EncodeLittleEndian(r.time, 4)
    && body[f + 4..f + 12] == EncodeLittleEndian(r.value, 8)
    && body[f + 12..f + 16] == EncodeLittleEndian(r.timestamp, 4)
  }

  /** Where the parts of an encoded record at `offset` lie in the body. */
  lemma RecordLayout(body: seq<byte>, offset: nat, r: Record)
    requires WellFormed(r) && offset + |EncodeRecord(r)| <= |body|
    requires body[offset..offset + |EncodeRecord(r)|] == EncodeRecord(r)
    ensures var o := offset + |Encode(|r.name|)|; var f := o + |r.name|;
      f + 16 == offset + |EncodeRecord(r)| && LaidOut(body, offset, r, o, f)
  {
    UvarintRecordAt(body, offset, r);
    var n := |r.name|;
    var lt, lv, ls := EncodeLittleEndian(r.time, 4), EncodeLittleEndian(r.value, 8), EncodeLittleEndian(r.timestamp, 4);
    assert EncodeRecord(r) == Encode(n) + r.name + lt + lv + ls;
    PartsAt(body, offset, Encode(n), r.name, lt, lv, ls);
  }

  /** Where the five parts of a concatenation found at `offset` lie in the body. */
  lemma PartsAt(body: seq<byte>, offset: nat, p: seq<byte>, q: seq<byte>, r: seq<byte>, s: seq<byte>, t: seq<byte>)
    requires offset + |p + q + r + s + t| <= |body| && body[offset..offset + |p + q + r + s + t|] == p + q + r + s + t
    ensures var a := offset + |p|; var b := a + |q|; var c := b + |r|; var d := c + |s|;
      && body[a..b] == q && body[b..c] == r && body[c..d] == s && body[d..d + |t|] == t
  {
    var len := |p + q + r + s + t|;
    var a, b, c, d := |p|, |p| + |q|, |p| + |q| + |r|, |p| + |q| + |r| + |s|;
    FiveParts(body[offset..offset + len], p, q, r, s, t);
    SliceWithin(body, offset, len, a, b);
    SliceWithin(body, offset, len, b, c);
    SliceWithin(body, offset, len, c, d);
    SliceWithin(body, offset, len, d, d + |t|);
  }

  /** A slice of a slice is a slice of the whole. */
  lemma SliceWithin(body: seq<byte>, offset: nat, len: nat, i: nat, j: nat)
    requires offset + len <= |body| && i <= j <= len
    ensures body[offset + i..offset + j] == body[offset..offset + len][i..j]
  {
    var x, w := body[offset + i..offset + j], body[offset..offset + len];
    forall k | 0 <= k < |x|
      ensures x[k] == w[i..j][k]
    {
      assert w[i + k] == body[offset + i + k];
    }
  }

  /** Where the five parts of a concatenation lie in it. */
  lemma FiveParts(w: seq<byte>, p: seq<byte>, q: seq<byte>, r: seq<byte>, s: seq<byte>, t: seq<byte>)
    requires w == p + q + r + s + t
    ensures var a := |p|; var b := a + |q|; var c := b + |r|; var d := c + |s|;
      && w[a..b] == q && w[b..c] == r && w[c..d] == s && w[d..d + |t|] == t
  {
    var a, b, c, d := |p|, |p| + |q|, |p| + |q| + |r|, |p| + |q| + |r| + |s|;
    var p2, p3, p4 := p + q, p + q + r, p + q + r + s;
    BackPart(p4, t);
    FrontPart(p4, t, c, d);
    BackPart(p3, s);
    FrontPart(p4, t, b, c);
    FrontPart(p3, s, b, c);
    BackPart(p2, r);
    FrontPart(p4, t, a, b);
    FrontPart(p3, s, a, b);
    FrontPart(p2, r, a, b);
    BackPart(p, q);
  }

  /** A slice of a concatenation that ends inside its front part is a slice of that part. */
  lemma FrontPart(x: seq<byte>, y: seq<byte>, i: nat, j: nat)
    requires i <= j <= |x|
    ensures (x + y)[i..j] == x[i..j]
  {
    forall k | 0 <= k < j - i
      ensures (x + y)[i..j][k] == x[i..j][k]
    {
      assert (x + y)[i + k] == x[i + k];
    }
  }

  /** The back part of a concatenation is where it is. */
  lemma BackPart(x: seq<byte>, y: seq<byte>)
    ensures (x + y)[|x|..|x| + |y|] == y
  {
    forall k | 0 <= k < |y|
      ensures (x + y)[|x|..|x| + |y|][k] == y[k]
    {
      assert (x + y)[|x| + k] == y[k];
    }
  }

  /** The point read from the fixed bytes of an encoded record holds its time, value and timestamp. */
  lemma RecordFields(body: seq<byte>, f: nat, cur: Prev, r: Record)
    requires WellFormed(r) && f + 16 <= |body|
    requires body[f..f + 4] == EncodeLittleEndian(r.time, 4)
    requires body[f + 4..f + 12] == EncodeLittleEndian(r.value, 8)
    requires body[f + 12..f + 16] == EncodeLittleEndian(r.timestamp, 4)
    ensures RecordPoint(body, f, cur) == Point(cur.id, cur.metric, Int32(r.time), r.value, Int32(r.timestamp))
  {
    FixedFields(r);
  }

  /** The fixed fields of a well-formed record read back as written. */
  lemma FixedFields(r: Record)
    requires WellFormed(r)
    ensures Uint32(EncodeLittleEndian(r.time, 4)) == r.time
    ensures Uint64(EncodeLittleEndian(r.value, 8)) == r.value
    ensures Uint32(EncodeLittleEndian(r.timestamp, 4)) == r.timestamp
  {
    Pow2Values();
    LittleEndianRoundTrip(r.time, 4);
    LittleEndianRoundTrip(r.value, 8);
    LittleEndianRoundTrip(r.timestamp, 4);
  }

  /**
    One encoded record at `offset`, whatever precedes and follows it, is read
    by the record loop to its end; its point carries its time, value and
    timestamp.
  */
  lemma RecordEncoded(body: seq<byte>, offset: nat, r: Record, t: Table, prev: Option<Prev>, isReverse: bool,
                      acc: seq<Point>) returns (s: Step)
    requires WellFormed(r) && offset + |EncodeRecord(r)| <= |body|
    requires body[offset..offset + |EncodeRecord(r)|] == EncodeRecord(r)
    ensures offset < |body| && ReadRecord(body, offset, t, prev, isReverse, acc) == Ok(s)
    ensures s.next == offset + |EncodeRecord(r)|
    ensures (s.table, s.cur) == NextPrev(t, prev, r.name, isReverse)
    ensures s.points == acc + [Point(s.cur.id, s.cur.metric, Int32(r.time), r.value, Int32(r.timestamp))]
  {
    RecordLayout(body, offset, r);
    var o := offset + |Encode(|r.name|)|;
    s := RecordRead(body, offset, r, t, prev, isReverse, acc, o, o + |r.name|);
  }

  /** A record whose name length, name and fixed fields lie where the layout puts them is read by the record loop. */
  lemma RecordRead(body: seq<byte>, offset: nat, r: Record, t: Table, prev: Option<Prev>, isReverse: bool,
                   acc: seq<Point>, o: nat, f: nat) returns (s: Step)
    requires WellFormed(r) && LaidOut(body, offset, r, o, f)
    ensures ReadRecord(body, offset, t, prev, isReverse, acc) == Ok(s)
    ensures s.next == f + 16
    ensures (s.table, s.cur) == NextPrev(t, prev, r.name, isReverse)
    ensures s.points == acc + [Point(s.cur.id, s.cur.metric, Int32(r.time), r.value, Int32(r.timestamp))]
  {
    var next := NextPrev(t, prev, r.name, isReverse);
    var u, cur := next.0, next.1;
    LaidOutRead(body, offset, r, o, f, t, prev, isReverse, acc, u, cur);
    LaidOutPoint(body, offset, r, o, f, cur);
    s := Step(f + 16, u, cur, acc + [RecordPoint(body, f, cur)]);
  }

  /** The record loop reads a laid-out record to its end, naming it as `NextPrev` names its raw name. */
  lemma {:induction false} LaidOutRead(body: seq<byte>, offset: nat, r: Record, o: nat, f: nat, t: Table,
                                       prev: Option<Prev>, isReverse: bool, acc: seq<Point>, u: Table, cur: Prev)
    requires NameLaidOut(body, offset, r, o, f)
    requires (u, cur) == NextPrev(t, prev, r.name, isReverse)
    ensures ReadRecord(body, offset, t, prev, isReverse, acc) == Ok(Step(f + 16, u, cur, acc + [RecordPoint(body, f, cur)]))
  {
    var name := body[o..o + |r.name|];
    assert name == r.name;
    assert (u, cur) == NextPrev(t, prev, name, isReverse);
    ReadRecordOk(body, offset, t, prev, isReverse, acc, |r.name|, o, u, cur);
  }

  /** The point of a laid-out record holds its time, value and timestamp. */
  lemma {:induction false} LaidOutPoint(body: seq<byte>, offset: nat, r: Record, o: nat, f: nat, cur: Prev)
    requires WellFormed(r) && LaidOut(body, offset, r, o, f)
    ensures RecordPoint(body, f, cur) == Point(cur.id, cur.metric, Int32(r.time), r.value, Int32(r.timestamp))
  {
    RecordFields(body, f, cur, r);
  }

  /** The step of one encoded record names its point after the record and keeps `PrevMetric`. */
  lemma RecordDecodes(r: Record, t: Table, prev: Option<Prev>, isReverse: bool, acc: seq<Point>, s: Step)
    requires WellFormed(r) && PrevMetric(prev, isReverse)
    requires (s.table, s.cur) == NextPrev(t, prev, r.name, isReverse)
    requires s.points == acc + [Point(s.cur.id, s.cur.metric, Int32(r.time), r.value, Int32(r.timestamp))]
    ensures PrevMetric(Some(s.cur), isReverse)
    ensures |s.points| == |acc| + 1 && s.points[..|acc|] == acc && Decodes(s.points[|acc|], r, isReverse)
  {
    assert s.points[..|acc|] == acc;
  }

  /**
    The record loop over a concatenation of well-formed records, from
    `offset` to the end of the body, keeps the points it has and adds one
    point per record, in order, each holding what its record holds.
  */
  lemma {:induction false} ParseEncoded(body: seq<byte>, offset: nat, rs: seq<Record>, t: Table, prev: Option<Prev>,
                                       isReverse: bool, acc: seq<Point>)
    requires AllWellFormed(rs) && PrevMetric(prev, isReverse)
    requires offset <= |body| && body[offset..] == EncodeRecords(rs)
    ensures var r := ParseFrom(body, offset, t, prev, isReverse, acc);
      r.Ok? && DecodesAfter(r.value.points, acc, rs, isReverse)
    decreases |rs|, 1
  {
    if |rs| > 0 {
      ParseEncodedStep(body, offset, rs, t, prev, isReverse, acc);
    } else {
      assert |body[offset..]| == 0;
      assert acc[..|acc|] == acc;
    }
  }

  /** `ParseEncoded` for at least one record: the first record's point, then the rest. */
  lemma {:induction false} ParseEncodedStep(body: seq<byte>, offset: nat, rs: seq<Record>, t: Table,
                                           prev: Option<Prev>, isReverse: bool, acc: seq<Point>)
    requires |rs| > 0 && AllWellFormed(rs) && PrevMetric(prev, isReverse)
    requires offset <= |body| && body[offset..] == EncodeRecords(rs)
    ensures var r := ParseFrom(body, offset, t, prev, isReverse, acc);
      r.Ok? && DecodesAfter(r.value.points, acc, rs, isReverse)
    decreases |rs|, 0
  {
    var e := EncodeRecord(rs[0]);
    var next := offset + |e|;
    SplitFirst(body, offset, rs);
    var s := RecordEncoded(body, offset, rs[0], t, prev, isReverse, acc);
    RecordDecodes(rs[0], t, prev, isReverse, acc, s);
    ParseFromStep(body, offset, t, prev, isReverse, acc, s);
    AllWellFormedTail(rs);
    ParseEncoded(body, next, rs[1..], s.table, Some(s.cur), isReverse, s.points);
    var r := ParseFrom(body, next, s.table, Some(s.cur), isReverse, s.points);
    DecodesCons(r.value.points, acc, s.points, rs, isReverse);
    assert s.next == next;
    assert ParseFrom(body, offset, t, prev, isReverse, acc) == r;
    assert r.Ok? && DecodesAfter(r.value.points, acc, rs, isReverse);
  }

  /** The bytes from `offset` on hold the first record, then the rest of the records. */
  lemma {:induction false} SplitFirst(body: seq<byte>, offset: nat, rs: seq<Record>)
    requires |rs| > 0 && offset <= |body| && body[offset..] == EncodeRecords(rs)
    ensures offset + |EncodeRecord(rs[0])| <= |body|
    ensures body[offset..offset + |EncodeRecord(rs[0])|] == EncodeRecord(rs[0])
    ensures body[offset + |EncodeRecord(rs[0])|..] == EncodeRecords(rs[1..])
  {
    var e := EncodeRecord(rs[0]);
    assert body[offset..] == e + EncodeRecords(rs[1..]);
    assert body[offset..offset + |e|] == body[offset..][..|e|];
    assert body[offset + |e|..] == body[offset..][|e|..];
  }

  /** The first record's point after the points before it, then the rest of the records. */
  lemma DecodesCons(ps: seq<Point>, acc: seq<Point>, sp: seq<Point>, rs: seq<Record>, isReverse: bool)
    requires |rs| > 0 && |sp| == |acc| + 1 && sp[..|acc|] == acc && Decodes(sp[|acc|], rs[0], isReverse)
    requires DecodesAfter(ps, sp, rs[1..], isReverse)
    ensures DecodesAfter(ps, acc, rs, isReverse)
  {
    assert ps[..|acc|] == ps[..|sp|][..|acc|];
    forall k | 0 <= k < |rs|
      ensures Decodes(ps[|acc| + k], rs[k], isReverse)
    {
      if k == 0 {
        assert ps[|acc|] == ps[..|sp|][|acc|];
      } else {
        assert ps[|acc| + k] == ps[|sp| + (k - 1)];
        assert rs[k] == rs[1..][k - 1];
      }
    }
  }

  /**
    A response made of well-formed records is accepted, as written and
    corrected alike: after the extra points come the records' points, one
    per record, in order, each holding its record's metric, time, value and
    timestamp.
  */
  lemma {:induction false} ParseEncodedResponse(rs: seq<Record>, extras: seq<Point>, isReverse: bool)
    requires AllWellFormed(rs)
    ensures Count(EncodeRecords(rs)) == Ok(|rs|)
    ensures var r := Parse(EncodeRecords(rs), extras, isReverse);
      r.Ok? && DecodesAfter(r.value.points, AddExtras(extras, 0, EmptyTable, []).0, rs, isReverse)
    ensures var r := ParseCorrected(EncodeRecords(rs), extras, isReverse);
      r.Ok? && DecodesAfter(r.value.points, AddExtras(extras, 0, EmptyTable, []).0, rs, isReverse)
  {
    var body := EncodeRecords(rs);
    CountEncodedResponse(rs);
    var (acc, t) := AddExtras(extras, 0, EmptyTable, []);
    assert |acc| == |extras|;
    assert Parse(body, extras, isReverse) == ParseFrom(body, 0, t, AsWrittenFirst, isReverse, acc);
    assert ParseCorrected(body, extras, isReverse) == ParseFrom(body, 0, t, None, isReverse, acc);
    assert body[0..] == body;
    AsWrittenFirstMetric(isReverse);
    ParseEncoded(body, 0, rs, t, AsWrittenFirst, isReverse, acc);
    ParseEncoded(body, 0, rs, t, None, isReverse, acc);
  }
}
