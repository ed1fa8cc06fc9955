/**
  A worked response: one record named "a" with time and timestamp 0. Its
  bytes are the name length 1, the name, and the 16 fixed bytes, 18 in all;
  one byte fewer and the response is malformed.
*/
module RenderDataExample {
  import opened Wrappers
  import opened Bytes
  import opened RenderWire
  import opened RenderData

  /** One record: length 1, name "a", time 0, any 8 value bytes, timestamp 0. */
  ghost predicate OneRecordBody(body: seq<byte>)
  {
    && |body| == 18 && body[0] == 1 && body[1] == 0x61
    && (forall k :: 2 <= k < 6 ==> body[k] == 0)
    && (forall k :: 14 <= k < 18 ==> body[k] == 0)
  }

  /** The table after interning "a" into the empty table. */
  const A_NAME: Table := Table(map["a" := 1], 1)

  /** The length prefix of the record is the single byte 1. */
  lemma OneRecordLength(body: seq<byte>)
    requires |body| >= 1 && body[0] == 1
    ensures UvarintFrom(body, 0) == Decoded(1, 1)
  {
    TerminatorFromAt(body, 0, 0);
    assert VarintValue(body, 0, 0) == 1;
  }

  /** The record loop reads the one record into one point and stops at the end. */
  lemma {:induction false} OneRecordLoop(body: seq<byte>, first: Option<Prev>)
    requires OneRecordBody(body)
    requires first.None? || first.value.name != [0x61]
    ensures ParseFrom(body, 0, EmptyTable, first, false, [])
      == Ok(Parsed([Point(1, "a", 0, Uint64(body[6..14]), 0)], A_NAME))
  {
    OneRecordLength(body);
    assert body[1..2] == [0x61];
    assert ToString([0x61]) == "a";
    var (u, cur) := NextPrev(EmptyTable, first, [0x61], false);
    assert u == A_NAME && cur == Prev([0x61], "a", 1);
    ReadRecordOk(body, 0, EmptyTable, first, false, [], 1, 1, u, cur);
    Uint32Bytes(body[2..6]);
    Uint32Bytes(body[14..18]);
    var p := Point(1, "a", 0, Uint64(body[6..14]), 0);
    assert RecordPoint(body, 2, cur) == p;
    ParseFromStep(body, 0, EmptyTable, first, false, [], Step(18, u, cur, [p]));
  }

  /**
    The one-record response decodes, as written and corrected alike, to one
    point: metric "a" with ID 1, time and timestamp 0, the value's 64 bits
    as sent.
  */
  lemma OneRecordParse(body: seq<byte>)
    requires OneRecordBody(body)
    ensures Count(body) == Ok(1)
    ensures Parse(body, [], false) == Ok(Parsed([Point(1, "a", 0, Uint64(body[6..14]), 0)], A_NAME))
    ensures ParseCorrected(body, [], false) == Ok(Parsed([Point(1, "a", 0, Uint64(body[6..14]), 0)], A_NAME))
  {
    OneRecordLength(body);
    CountStep(body, 0, 0);
    assert Count(body) == Ok(1);
    assert AddExtras([], 0, EmptyTable, []) == ([], EmptyTable);
    OneRecordLoop(body, AsWrittenFirst);
    OneRecordLoop(body, None);
  }

  /** Cut by its last byte, the same response is malformed and decodes to nothing. */
  lemma OneRecordTruncated(body: seq<byte>)
    requires OneRecordBody(body)
    ensures Count(body[..17]) == Err(ErrClickHouseResponse)
    ensures Parse(body[..17], [], false) == Err(ErrClickHouseResponse)
  {
    var cut := body[..17];
    OneRecordLength(cut);
    CountStep(cut, 0, 0);
    assert CountFrom(cut, 18, 1) == Err(ErrClickHouseResponse);
  }
}
