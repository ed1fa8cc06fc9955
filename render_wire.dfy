/**
  The RowBinary framing of a points response from render/data.go: the
  unsigned base-128 varint reader (`ReadUvarint`) and the counting pre-pass
  over records `uvarint(len) name[len] time(4) value(8) timestamp(4)`
  (`DataCount`).
*/
module RenderWire {

  import opened Wrappers
  import opened Bytes

  /** The three error values of render/data.go. */
  datatype Error =
    | ErrUvarintRead         // "ReadUvarint: Malformed array"
    | ErrUvarintOverflow     // "ReadUvarint: varint overflows a 64-bit integer"
    | ErrClickHouseResponse  // "Malformed response from clickhouse"

  /**
    What `ReadUvarint` returns: the value and the byte count, or an error
    together with the count it reports.
  */
  datatype UvarintResult =
    | Decoded(value: nat, readBytes: nat)
    | Failed(err: Error, readBytes: nat)

  // ---------------------------------------------------------------------
  // Specification of ReadUvarint

  /** Index of the first byte at or after `j` without the continuation bit, or |a| when there is none. */
  function TerminatorFrom(a: seq<byte>, j: nat): (i: nat)
    requires j <= |a|
    ensures j <= i <= |a|
    decreases |a| - j
  {
    if j == |a| then j
    else if a[j] < 0x80 then j
    else TerminatorFrom(a, j + 1)
  }

  /** Index of the first byte without the continuation bit, or |a| when there is none. */
  function Terminator(a: seq<byte>): (i: nat)
    ensures i <= |a|
  {
    TerminatorFrom(a, 0)
  }

  lemma {:induction false} TerminatorFromAt(a: seq<byte>, j: nat, i: nat)
    requires j <= i <= |a|
    requires i < |a| ==> a[i] < 0x80
    requires forall k :: j <= k < i ==> a[k] >= 0x80
    ensures TerminatorFrom(a, j) == i
    decreases i - j
  {
    if j < i {
      TerminatorFromAt(a, j + 1, i);
    }
  }

  /** `Terminator` is the first index of a byte below 0x80. */
  lemma TerminatorAt(a: seq<byte>, i: nat)
    requires i <= |a|
    requires i < |a| ==> a[i] < 0x80
    requires forall k :: 0 <= k < i ==> a[k] >= 0x80
    ensures Terminator(a) == i
  {
    TerminatorFromAt(a, 0, i);
  }

  lemma {:induction false} TerminatorFromIsFirst(a: seq<byte>, j: nat)
    requires j <= |a|
    ensures var i := TerminatorFrom(a, j);
      (i < |a| ==> a[i] < 0x80) && forall k :: j <= k < i ==> a[k] >= 0x80
    decreases |a| - j
  {
    if j < |a| && a[j] >= 0x80 {
      TerminatorFromIsFirst(a, j + 1);
    }
  }

  lemma TerminatorIsFirst(a: seq<byte>)
    ensures var i := Terminator(a);
      (i < |a| ==> a[i] < 0x80) && forall k :: 0 <= k < i ==> a[k] >= 0x80
  {
    TerminatorFromIsFirst(a, 0);
  }

  /** Go's `uint64(c) << s` for a `c` whose shifted bits all stay below bit 64. */
  function ShiftLeft(c: nat, s: nat): nat
  {
    c * Pow2(s)
  }

  /** The data bits of the `n` bytes of `a` from `start` on, seven per byte, least significant group first. */
  function Groups(a: seq<byte>, start: nat, n: nat): nat
    requires start + n <= |a|
  {
    if n == 0 then 0
    else Groups(a, start, n - 1) + ShiftLeft(a[start + n - 1] % 0x80, 7 * (n - 1))
  }

  /**
    The number a varint starting at `start`, with its terminating byte `i`
    bytes further on, stands for: the low seven bits of each byte before the
    terminating one, then all of the terminating byte on top.
  */
  function VarintValue(a: seq<byte>, start: nat, i: nat): nat
    requires start + i < |a|
  {
    Groups(a, start, i) + ShiftLeft(a[start + i], 7 * i)
  }

  /** The result `ReadUvarint` gives for the bytes of `a` from `start` on. */
  function UvarintFrom(a: seq<byte>, start: nat): (r: UvarintResult)
    requires start <= |a|
    ensures r.readBytes >= 1
    ensures r.Decoded? ==> r.value < TWO_64 && r.readBytes <= 10 && start + r.readBytes <= |a|
    ensures r.Failed? ==> r.err != ErrClickHouseResponse
  {
    var t := TerminatorFrom(a, start);
    var i := t - start;
    if t == |a| then Failed(ErrUvarintRead, |a| - start + 1)
    else if i > 9 || (i == 9 && a[t] > 1) then Failed(ErrUvarintOverflow, i + 1)
    else
      TerminatorFromIsFirst(a, start);
      GroupsBound(a, start, i);
      ValueBound(Groups(a, start, i), a[t], i);
      Decoded(VarintValue(a, start, i), i + 1)
  }

  /** The result `ReadUvarint` gives for `a`. */
  function Uvarint(a: seq<byte>): (r: UvarintResult)
    ensures r.readBytes >= 1
    ensures r.Decoded? ==> r.value < TWO_64 && r.readBytes <= 10 && r.readBytes <= |a|
    ensures r.Failed? ==> r.err != ErrClickHouseResponse
  {
    UvarintFrom(a, 0)
  }

  /**
    `ReadUvarint`. Go combines the groups with `|` and `<<`; the groups occupy
    disjoint bits, so the model adds them, and no addition here ever leaves
    the range of uint64 (UvarintAt).
  */
  method ReadUvarint(buf: seq<byte>) returns (r: UvarintResult)
    ensures r == Uvarint(buf)
  {
    var x: nat := 0;
    var s: nat := 0;
    var l := |buf| - 1;
    var i := 0;
    while true
      invariant 0 <= i <= |buf|
      invariant s == 7 * i
      invariant forall k :: 0 <= k < i ==> buf[k] >= 0x80
      invariant x == Groups(buf, 0, i)
      decreases |buf| - i
    {
      if i > l {
        TerminatorAt(buf, i);
        return Failed(ErrUvarintRead, i + 1);
      }
      if buf[i] < 0x80 {
        TerminatorAt(buf, i);
        if i > 9 || (i == 9 && buf[i] > 1) {
          return Failed(ErrUvarintOverflow, i + 1);
        }
        return Decoded(x + ShiftLeft(buf[i], s), i + 1);
      }
      x := x + ShiftLeft(buf[i] % 0x80, s);
      s := s + 7;
      i := i + 1;
    }
  }

  // ---------------------------------------------------------------------
  // Properties of ReadUvarint

  lemma {:induction false} GroupsBound(a: seq<byte>, start: nat, n: nat)
    requires start + n <= |a|
    ensures Groups(a, start, n) < Pow2(7 * n)
  {
    if n > 0 {
      GroupsBound(a, start, n - 1);
      var p := Pow2(7 * (n - 1));
      Pow2Step7(7 * (n - 1));
      assert Pow2(7 * n) == 0x80 * p;
      var c := a[start + n - 1] % 0x80;
      MulLeft(c, 0x7f, p);
    }
  }

  lemma MulLeft(c: nat, d: nat, p: nat)
    requires c <= d
    ensures c * p <= d * p
  {
  }

  /** Truncation: no terminating byte at all, however many continuation bytes precede the end. */
  lemma UvarintTruncated(a: seq<byte>)
    ensures Uvarint(a) == Failed(ErrUvarintRead, |a| + 1)
      <==> forall k :: 0 <= k < |a| ==> a[k] >= 0x80
  {
    TerminatorIsFirst(a);
    if forall k :: 0 <= k < |a| ==> a[k] >= 0x80 {
      TerminatorAt(a, |a|);
    }
  }

  /**
    The outcome once the terminating byte sits at index i: an overflow when
    it comes after nine continuation bytes with more than one data bit, or
    later; otherwise the sum of the groups, which fits in 64 bits.
  */
  lemma {:induction false} UvarintAt(a: seq<byte>, i: nat)
    requires i < |a| && a[i] < 0x80
    requires forall k :: 0 <= k < i ==> a[k] >= 0x80
    ensures i > 9 || (i == 9 && a[i] > 1) ==> Uvarint(a) == Failed(ErrUvarintOverflow, i + 1)
    ensures !(i > 9 || (i == 9 && a[i] > 1)) ==>
      Uvarint(a) == Decoded(Groups(a, 0, i) + a[i] * Pow2(7 * i), i + 1)
      && Uvarint(a).value < TWO_64
  {
    TerminatorAt(a, i);
    if !(i > 9 || (i == 9 && a[i] > 1)) {
      GroupsBound(a, 0, i);
      ValueBound(Groups(a, 0, i), a[i], i);
    }
  }

  /** A terminating group at index i <= 9 (at most one data bit at index 9) completes a uint64. */
  lemma {:induction false} ValueBound(g: nat, b: nat, i: nat)
    requires g < Pow2(7 * i) && b < 0x80
    requires i < 9 || (i == 9 && b <= 1)
    ensures g + b * Pow2(7 * i) < TWO_64
  {
    var p := Pow2(7 * i);
    if i < 9 {
      MulLeft(b, 0x7f, p);
      Pow2Step7(7 * i);
      Pow2UpTo63(7 * i + 7);
    } else {
      Pow2Of63(7 * i);
      MulLeft(b, 1, p);
    }
  }

  /** Bytes after the terminating byte are never looked at. */
  lemma UvarintIgnoresSuffix(a: seq<byte>, b: seq<byte>)
    requires Uvarint(a).readBytes <= |a|
    requires Uvarint(a).readBytes <= |b|
    requires a[..Uvarint(a).readBytes] == b[..Uvarint(a).readBytes]
    ensures Uvarint(b) == Uvarint(a)
  {
    var i := Terminator(a);
    TerminatorIsFirst(a);
    assert a[i] == b[i];
    // `k - 0 + 0` is the index term of GroupsAgree's requires with sa = sb = 0, so the two match
    forall k | 0 <= k < i
      ensures b[k] >= 0x80 && a[k] == b[k - 0 + 0]
    {
      assert a[k] == a[..i + 1][k];
    }
    TerminatorAt(b, i);
    GroupsAgree(a, 0, b, 0, i);
  }

  /** The groups depend only on the bytes they are read from. */
  lemma {:induction false} GroupsAgree(a: seq<byte>, sa: nat, b: seq<byte>, sb: nat, n: nat)
    requires sa + n <= |a| && sb + n <= |b|
    requires forall k :: sa <= k < sa + n ==> a[k] == b[k - sa + sb]
    ensures Groups(a, sa, n) == Groups(b, sb, n)
  {
    if n > 0 {
      GroupsAgree(a, sa, b, sb, n - 1);
      assert a[sa + n - 1] == b[sb + n - 1];
    }
  }

  /** Two byte sequences that end alike from `sa` and `sb` on have their terminators at the same distance. */
  lemma {:induction false} TerminatorAgree(a: seq<byte>, sa: nat, b: seq<byte>, sb: nat)
    requires sa <= |a| && sb <= |b| && |a| - sa == |b| - sb
    requires forall k :: sa <= k < |a| ==> a[k] == b[k - sa + sb]
    ensures TerminatorFrom(a, sa) - sa == TerminatorFrom(b, sb) - sb
    decreases |a| - sa
  {
    if sa < |a| {
      assert a[sa] == b[sb];
      if a[sa] >= 0x80 {
        TerminatorAgree(a, sa + 1, b, sb + 1);
      }
    }
  }

  /** The reader's result depends only on the bytes from where it starts. */
  lemma UvarintAgree(a: seq<byte>, sa: nat, b: seq<byte>, sb: nat)
    requires sa <= |a| && sb <= |b| && |a| - sa == |b| - sb
    requires forall k :: sa <= k < |a| ==> a[k] == b[k - sa + sb]
    ensures UvarintFrom(a, sa) == UvarintFrom(b, sb)
  {
    TerminatorAgree(a, sa, b, sb);
    var i := TerminatorFrom(a, sa) - sa;
    if sa + i < |a| {
      assert a[sa + i] == b[sb + i];
      GroupsAgree(a, sa, b, sb, i);
    }
  }

  /** Reading from `start` is reading the slice that begins there, as `ReadUvarint(body[offset:])` does. */
  lemma UvarintSlice(a: seq<byte>, start: nat)
    requires start <= |a|
    ensures Uvarint(a[start..]) == UvarintFrom(a, start)
  {
    // `k - 0 + start` is the index term of UvarintAgree's requires with sa = 0, so the two match
    forall k | 0 <= k < |a| - start
      ensures a[start..][k] == a[k - 0 + start]
    {
    }
    UvarintAgree(a[start..], 0, a, start);
  }

  // ---------------------------------------------------------------------
  // The encoder the reader inverts

  /** The shortest unsigned base-128 varint encoding of `x` (Go's `binary.PutUvarint`). */
  function Encode(x: nat): (e: seq<byte>)
    ensures |e| >= 1
  {
    if x < 0x80 then [x] else [x % 0x80 + 0x80] + Encode(x / 0x80)
  }

  lemma {:induction false} EncodeShape(x: nat)
    ensures var e := Encode(x);
      e[|e| - 1] < 0x80 && forall k :: 0 <= k < |e| - 1 ==> e[k] >= 0x80
  {
    if x >= 0x80 {
      EncodeShape(x / 0x80);
    }
  }

  lemma {:induction false} EncodeFits(x: nat, k: nat)
    requires x < 2 * Pow2(7 * k)
    ensures |Encode(x)| <= k + 1
    ensures |Encode(x)| == k + 1 ==> Encode(x)[k] <= 1
  {
    if x >= 0x80 {
      assert k != 0;
      Pow2Step7(7 * (k - 1));
      assert 7 * k == 7 * (k - 1) + 7;
      assert x / 0x80 < 2 * Pow2(7 * (k - 1));
      EncodeFits(x / 0x80, k - 1);
      assert Encode(x)[1..] == Encode(x / 0x80);
    }
  }

  /** The encoding of a uint64 takes at most ten bytes, the tenth with one data bit at most. */
  lemma {:induction false} EncodeUint64(x: nat)
    requires x < TWO_64
    ensures |Encode(x)| <= 10
    ensures |Encode(x)| == 10 ==> Encode(x)[9] <= 1
  {
    Pow2Of63(7 * 9);
    EncodeFits(x, 9);
  }

  /** Reading from the front: the first group, then the groups of the following bytes seven bits up. */
  lemma {:induction false} GroupsStep(a: seq<byte>, start: nat, n: nat)
    requires start + n + 1 <= |a|
    ensures Groups(a, start, n + 1) == a[start] % 0x80 + 0x80 * Groups(a, start + 1, n)
  {
    if n == 0 {
      assert Pow2(0) == 1;
    } else {
      GroupsStep(a, start, n - 1);
      Pow2Step7(7 * (n - 1));
      assert 7 * n == 7 * (n - 1) + 7;
      assert a[start + n] == a[start + 1 + (n - 1)];
      MulShift7(a[start + n] % 0x80, Pow2(7 * (n - 1)));
    }
  }

  lemma MulShift7(c: int, p: int)
    ensures c * (0x80 * p) == 0x80 * (c * p)
  {
  }

  /** A varint read from the front: the first group, then the value of the rest seven bits up. */
  lemma VarintValueStep(a: seq<byte>, start: nat, i: nat)
    requires start + i + 1 < |a|
    ensures VarintValue(a, start, i + 1) == a[start] % 0x80 + 0x80 * VarintValue(a, start + 1, i)
  {
    GroupsStep(a, start, i);
    Pow2Step7(7 * i);
    assert 7 * (i + 1) == 7 * i + 7;
    assert a[start + (i + 1)] == a[start + 1 + i];
    MulShift7(a[start + 1 + i], Pow2(7 * i));
  }

  lemma {:induction false} VarintValueEncode(x: nat, pre: seq<byte>, rest: seq<byte>)
    ensures VarintValue(pre + Encode(x) + rest, |pre|, |Encode(x)| - 1) == x
    decreases x, 1
  {
    if x >= 0x80 {
      VarintValueEncodeStep(x, pre, rest);
    } else {
      var s := pre + Encode(x) + rest;
      assert s[|pre| + 0] == x;
      assert Pow2(0) == 1;
    }
  }

  /** The step of `VarintValueEncode`: the first group, then the encoding of the rest of the value. */
  lemma {:induction false} VarintValueEncodeStep(x: nat, pre: seq<byte>, rest: seq<byte>)
    requires x >= 0x80
    ensures VarintValue(pre + Encode(x) + rest, |pre|, |Encode(x)| - 1) == x
    decreases x, 0
  {
    var s := pre + Encode(x) + rest;
    var b := x % 0x80 + 0x80;
    var pre' := pre + [b];
    var m := |Encode(x / 0x80)| - 1;
    assert s == pre' + Encode(x / 0x80) + rest;
    assert |Encode(x)| - 1 == m + 1;
    VarintValueEncode(x / 0x80, pre', rest);
    VarintValueStep(s, |pre|, m);
    assert s[|pre|] == b;
    assert b % 0x80 == x % 0x80;
  }

  /** Round trip: decoding the encoding of any uint64, whatever precedes and follows it, gives it back. */
  lemma {:induction false} UvarintEncode(x: nat, pre: seq<byte>, rest: seq<byte>)
    requires x < TWO_64
    ensures |Encode(x)| <= 10
    ensures UvarintFrom(pre + Encode(x) + rest, |pre|) == Decoded(x, |Encode(x)|)
  {
    var e := Encode(x);
    var n := |e| - 1;
    EncodeUint64(x);
    EncodeShape(x);
    var a := pre + e + rest;
    assert a[|pre| + n] == e[n];
    forall k | |pre| <= k < |pre| + n
      ensures a[k] >= 0x80
    {
      assert a[k] == e[k - |pre|];
    }
    TerminatorFromAt(a, |pre|, |pre| + n);
    VarintValueEncode(x, pre, rest);
  }

  /** Every proper prefix of an encoding, the empty one included, is a truncated varint. */
  lemma {:induction false} UvarintTruncatedEncoding(x: nat, k: nat)
    requires k < |Encode(x)|
    ensures Uvarint(Encode(x)[..k]) == Failed(ErrUvarintRead, k + 1)
  {
    EncodeShape(x);
    UvarintTruncated(Encode(x)[..k]);
  }

  // ---------------------------------------------------------------------
  // DataCount

  /**
    What the counting loop of `DataCount` returns once it has counted `count`
    records and reached `offset`: the final count when the last record ends
    exactly at the end of `body`.
  */
  function CountFrom(body: seq<byte>, offset: nat, count: nat): (r: Result<nat, Error>)
    decreases |body| - offset
  {
    if offset >= |body| then
      if offset == |body| then Ok(count) else Err(ErrClickHouseResponse)
    else
      match UvarintFrom(body, offset)
      case Failed(e, _) => Err(e)
      case Decoded(namelen, readBytes) => CountFrom(body, offset + readBytes + namelen + 16, count + 1)
  }

  /** `DataCount`. */
  method DataCount(body: seq<byte>) returns (r: Result<nat, Error>)
    ensures r == Count(body)
  {
    var bodyLen := |body|;
    var count := 0;
    var offset := 0;
    while true
      invariant CountFrom(body, offset, count) == CountFrom(body, 0, 0)
      decreases bodyLen - offset
    {
      if offset >= bodyLen {
        if offset == bodyLen {
          return Ok(count);
        }
        return Err(ErrClickHouseResponse);
      }
      var u := ReadUvarint(body[offset..]);
      UvarintSlice(body, offset);
      if u.Failed? {
        return Err(u.err);
      }
      offset := offset + u.readBytes + u.value + 16;
      count := count + 1;
    }
  }

  /** What `DataCount` returns for a whole response. */
  function Count(body: seq<byte>): (r: Result<nat, Error>)
    ensures r.Ok? ==> 17 * r.value <= |body|
  {
    var r := CountFrom(body, 0, 0);
    if r.Ok? then CountBound(body, 0, 0); r else r
  }

  /** Counting never lowers the count, and each record it counts takes at least 17 bytes of the body. */
  lemma {:induction false} CountBound(body: seq<byte>, offset: nat, count: nat)
    requires CountFrom(body, offset, count).Ok?
    ensures var c := CountFrom(body, offset, count).value;
      c >= count && offset + 17 * (c - count) <= |body|
    decreases |body| - offset
  {
    if offset < |body| {
      var u := UvarintFrom(body, offset);
      CountBound(body, offset + u.readBytes + u.value + 16, count + 1);
    }
  }

  /** A record with a readable name length is counted and the counter moves past its name and 16 fixed bytes. */
  lemma CountStep(body: seq<byte>, offset: nat, count: nat)
    requires offset < |body| && UvarintFrom(body, offset).Decoded?
    ensures var u := UvarintFrom(body, offset);
      CountFrom(body, offset, count) == CountFrom(body, offset + u.readBytes + u.value + 16, count + 1)
  {
  }

  /** A record the counter accepts has its name and 16 fixed bytes in the body, and counting goes on past them. */
  lemma {:induction false} CountNext(body: seq<byte>, offset: nat, count: nat) returns (next: nat)
    requires offset < |body| && CountFrom(body, offset, count).Ok?
    ensures UvarintFrom(body, offset).Decoded?
    ensures next == offset + UvarintFrom(body, offset).readBytes + UvarintFrom(body, offset).value + 16 <= |body|
    ensures CountFrom(body, offset, count) == CountFrom(body, next, count + 1)
  {
    var u := UvarintFrom(body, offset);
    next := offset + u.readBytes + u.value + 16;
    CountBound(body, next, count + 1);
  }

  // ---------------------------------------------------------------------
  // Well-formed responses

  /** One record of a response, with its integer fields as raw unsigned bits. */
  datatype Record = Record(name: seq<byte>, time: nat, value: nat, timestamp: nat)

  ghost predicate WellFormed(r: Record)
  {
    |r.name| < TWO_64 && r.time < TWO_32 && r.value < TWO_64 && r.timestamp < TWO_32
  }

  function EncodeRecord(r: Record): (e: seq<byte>)
    ensures |e| == |Encode(|r.name|)| + |r.name| + 16
  {
    Encode(|r.name|) + r.name
      + EncodeLittleEndian(r.time, 4) + EncodeLittleEndian(r.value, 8) + EncodeLittleEndian(r.timestamp, 4)
  }

  function EncodeRecords(rs: seq<Record>): seq<byte>
  {
    if |rs| == 0 then [] else EncodeRecord(rs[0]) + EncodeRecords(rs[1..])
  }

  /** The reader finds each well-formed record's name length and the size of that length. */
  lemma UvarintRecord(pre: seq<byte>, r: Record, rest: seq<byte>)
    requires WellFormed(r)
    ensures UvarintFrom(pre + EncodeRecord(r) + rest, |pre|) == Decoded(|r.name|, |Encode(|r.name|)|)
  {
    var tail := r.name + EncodeLittleEndian(r.time, 4) + EncodeLittleEndian(r.value, 8)
      + EncodeLittleEndian(r.timestamp, 4) + rest;
    assert pre + EncodeRecord(r) + rest == pre + Encode(|r.name|) + tail;
    UvarintEncode(|r.name|, pre, tail);
  }

  /** The reader finds the name length of a well-formed record found at `offset`. */
  lemma {:induction false} UvarintRecordAt(body: seq<byte>, offset: nat, r: Record)
    requires WellFormed(r) && offset + |EncodeRecord(r)| <= |body|
    requires body[offset..offset + |EncodeRecord(r)|] == EncodeRecord(r)
    ensures UvarintFrom(body, offset) == Decoded(|r.name|, |Encode(|r.name|)|)
  {
    var e := EncodeRecord(r);
    var pre, rest := body[..offset], body[offset + |e|..];
    assert body == pre + e + rest;
    UvarintRecord(pre, r, rest);
  }

  /** The counter reads one well-formed record and moves to its end. */
  lemma {:induction false} CountRecord(pre: seq<byte>, r: Record, rest: seq<byte>, count: nat)
    requires WellFormed(r)
    ensures var body := pre + EncodeRecord(r) + rest;
      CountFrom(body, |pre|, count) == CountFrom(body, |pre + EncodeRecord(r)|, count + 1)
  {
    UvarintRecord(pre, r, rest);
  }

  /** Every record of `rs` is well formed. */
  ghost predicate AllWellFormed(rs: seq<Record>)
  {
    forall k :: 0 <= k < |rs| ==> WellFormed(rs[k])
  }

  /** The counter accepts every concatenation of well-formed records, whatever it has read before, and counts them. */
  lemma {:induction false} CountEncoded(pre: seq<byte>, rs: seq<Record>, count: nat)
    requires AllWellFormed(rs)
    ensures CountFrom(pre + EncodeRecords(rs), |pre|, count) == Ok(count + |rs|)
    decreases |rs|, 1
  {
    if |rs| > 0 {
      CountEncodedStep(pre, rs, count);
    } else {
      assert pre + EncodeRecords(rs) == pre;
      CountEnd(pre, count);
    }
  }

  /** A response made of well-formed records counts one per record. */
  lemma {:induction false} CountEncodedResponse(rs: seq<Record>)
    requires AllWellFormed(rs)
    ensures Count(EncodeRecords(rs)) == Ok(|rs|)
  {
    if |rs| > 0 {
      AllWellFormedTail(rs);
      assert EncodeRecords(rs) == EncodeRecord(rs[0]) + EncodeRecords(rs[1..]);
      CountResponseCons(rs[0], rs[1..]);
    } else {
      assert EncodeRecords(rs) == [];
    }
  }

  /** A response that starts with a well-formed record, then holds well-formed records, counts them all. */
  lemma {:induction false} CountResponseCons(r: Record, rs: seq<Record>)
    requires WellFormed(r) && AllWellFormed(rs)
    ensures Count(EncodeRecord(r) + EncodeRecords(rs)) == Ok(1 + |rs|)
  {
    CountEncoded(EncodeRecord(r), rs, 1);
    CountFirstAlone(r, EncodeRecords(rs), 1 + |rs|);
  }

  /** A response that starts with a well-formed record counts it, then goes on from its end. */
  lemma {:induction false} CountFirstAlone(r: Record, rest: seq<byte>, n: nat)
    requires WellFormed(r) && CountFrom(EncodeRecord(r) + rest, |EncodeRecord(r)|, 1) == Ok(n)
    ensures Count(EncodeRecord(r) + rest) == Ok(n)
  {
    var empty: seq<byte> := [];
    assert empty + EncodeRecord(r) + rest == EncodeRecord(r) + rest;
    UvarintRecord(empty, r, rest);
    CountStep(EncodeRecord(r) + rest, 0, 0);
  }

  /** `CountEncoded` for at least one record: it is counted, then the rest are. */
  lemma {:induction false} CountEncodedStep(pre: seq<byte>, rs: seq<Record>, count: nat)
    requires |rs| > 0 && AllWellFormed(rs)
    ensures CountFrom(pre + EncodeRecords(rs), |pre|, count) == Ok(count + |rs|)
    decreases |rs|, 0
  {
    var pre', rest := pre + EncodeRecord(rs[0]), rs[1..];
    AllWellFormedTail(rs);
    CountEncoded(pre', rest, count + 1);
    assert count + 1 + |rest| == count + |rs|;
    CountFirstRecord(pre, rs, count, count + |rs|);
  }

  /** The records after the first of a well-formed sequence are well formed. */
  lemma {:induction false} AllWellFormedTail(rs: seq<Record>)
    requires |rs| > 0 && AllWellFormed(rs)
    ensures WellFormed(rs[0]) && AllWellFormed(rs[1..])
  {
    forall k | 0 <= k < |rs| - 1
      ensures WellFormed(rs[1..][k])
    {
      assert rs[1..][k] == rs[k + 1];
    }
  }

  /** At the end of the body the counter stops with what it has counted. */
  lemma {:induction false} CountEnd(body: seq<byte>, count: nat)
    ensures CountFrom(body, |body|, count) == Ok(count)
  {
  }

  /** The first record of a concatenation is counted, and the count goes on from its end. */
  lemma CountFirstRecord(pre: seq<byte>, rs: seq<Record>, count: nat, n: nat)
    requires |rs| > 0 && WellFormed(rs[0])
    requires CountFrom(pre + EncodeRecord(rs[0]) + EncodeRecords(rs[1..]), |pre + EncodeRecord(rs[0])|, count + 1) == Ok(n)
    ensures CountFrom(pre + EncodeRecords(rs), |pre|, count) == Ok(n)
  {
    var rest := EncodeRecords(rs[1..]);
    ConcatFirst(pre, rs);
    CountRecord(pre, rs[0], rest, count);
  }

  /** Splitting the first record off an encoding, both ways of bracketing. */
  lemma {:induction false} ConcatFirst(pre: seq<byte>, rs: seq<Record>)
    requires |rs| > 0
    ensures pre + EncodeRecords(rs) == pre + EncodeRecord(rs[0]) + EncodeRecords(rs[1..])
  {
  }

  // ---------------------------------------------------------------------
  // Go's int conversion of the name length, as written
  //
  // The lemmas about particular lengths below take the length as a parameter
  // that their requires fixes to its constant: on a literal argument Dafny
  // unfolds `Encode` and `Pow2` all the way, which is far more costly.

  /** Go's `int(u)` of a uint64 on a 64-bit platform: the same bits as two's complement. */
  function GoInt(u: nat): (r: int)
    requires u < TWO_64
    ensures r == u || r == u - TWO_64
    ensures -(TWO_63 as int) <= r < TWO_63
  {
    if u < TWO_63 then u else u - TWO_64
  }

  /** Go's 64-bit `int` arithmetic: the exact result brought back into the int64 range, modulo 2^64. */
  function GoWrap(v: int): (r: int)
    ensures -(TWO_63 as int) <= r < TWO_63
    ensures (v - r) % TWO_64 == 0
    ensures -(TWO_63 as int) <= v < TWO_63 ==> r == v
  {
    (v + TWO_63) % TWO_64 - TWO_63
  }

  /**
    The offset `DataCount` moves to after a record, as Go computes
    `offset += readBytes + int(namelen) + 16`: `int(namelen)` is a
    reinterpretation and the sum wraps in 64-bit `int`.
  */
  function NextOffsetAsWritten(offset: int, readBytes: nat, namelen: nat): (r: int)
    requires -(TWO_63 as int) <= offset < TWO_63 && readBytes < TWO_63 && namelen < TWO_64
    ensures -(TWO_63 as int) <= r < TWO_63
    ensures r == offset + readBytes + namelen + 16 <==> offset + readBytes + namelen + 16 < TWO_63
    ensures 0 <= offset && namelen >= TWO_63 ==> r < offset + readBytes + 16
  {
    var sum := offset + readBytes + namelen + 16;
    var v := offset + readBytes + GoInt(namelen) + 16;
    assert v == sum || v == sum - TWO_64;
    GoWrap(v)
  }

  /** The name length of the stalling record, 2^64 - 26. */
  const STALL_LEN: nat := 0xFFFF_FFFF_FFFF_FFE6

  /** A number of at least 2^(7k) needs more than k groups. */
  lemma {:induction false} EncodeLong(x: nat, k: nat)
    requires x >= Pow2(7 * k)
    ensures |Encode(x)| >= k + 1
  {
    if k > 0 {
      var p := Pow2(7 * (k - 1));
      Pow2Step7(7 * (k - 1));
      assert 7 * k == 7 * (k - 1) + 7;
      assert x / 0x80 >= p;
      EncodeLong(x / 0x80, k - 1);
    }
  }

  /**
    As written, the record length STALL_LEN, read from its own ten-byte
    encoding at the start of a response, becomes -26 in
    `offset += readBytes + int(namelen) + 16`: the offset stays at 0, so Go's
    `DataCount` loop never leaves its first record.
  */
  lemma {:induction false} AsWrittenCountStalls(x: nat)
    requires x == STALL_LEN
    ensures x < TWO_64 && |Encode(x)| == 10
    ensures Uvarint(Encode(x)) == Decoded(x, 10)
    ensures NextOffsetAsWritten(0, 10, x) == 0
  {
    EncodeUint64(x);
    Pow2Of63(7 * 9);
    EncodeLong(x, 9);
    UvarintEncode(x, [], []);
    assert [] + Encode(x) + [] == Encode(x);
  }

  /** With the length taken as the unsigned number it is, the same body is a malformed response. */
  lemma {:induction false} CountRejectsStallBody(x: nat)
    requires x == STALL_LEN
    ensures Count(Encode(x)) == Err(ErrClickHouseResponse)
  {
    AsWrittenCountStalls(x);
    var body := Encode(x);
    assert CountFrom(body, 0, 0) == CountFrom(body, 10 + x + 16, 1);
  }

  /** The name length of the miscounted record, 2^64 - 47. */
  const MISCOUNT_LEN: nat := 0xFFFF_FFFF_FFFF_FFD1

  /**
    A 35-byte response: a record of length 5 whose name and fixed bytes are
    all zero, then the ten-byte encoding of MISCOUNT_LEN and three more zeros.
  */
  const MISCOUNT_BODY: seq<byte> :=
    [0x05] + seq(21, k => 0)
    + [0xD1, 0xFF, 0xFF, 0xFF, 0xFF, 0xFF, 0xFF, 0xFF, 0xFF, 0x01]
    + [0x00, 0x00, 0x00]

  /** The ten bytes at offset 22 of MISCOUNT_BODY encode MISCOUNT_LEN. */
  lemma {:induction false} MiscountEncoding(x: nat)
    requires x == MISCOUNT_LEN
    ensures Encode(x) == MISCOUNT_BODY[22..32]
  {
    // x is 0x80 * (2^57 - 1) + 0x51: a first byte 0xD1, then 2^57 - 1
    var y: nat := 0x1FF_FFFF_FFFF_FFFF;
    AllOnesEncoding(y);
    assert Encode(x) == [0xD1] + Encode(y);
  }

  /** 2^57 - 1 is eight full groups, then a final 1. */
  lemma {:induction false} AllOnesEncoding(y: nat)
    requires y == 0x1FF_FFFF_FFFF_FFFF
    ensures Encode(y) == [0xFF, 0xFF, 0xFF, 0xFF, 0xFF, 0xFF, 0xFF, 0xFF, 0x01]
  {
    var z: nat := 0x7FF_FFFF_FFFF;
    LowOnesEncoding(z);
    assert Encode(y) == [0xFF] + Encode(0x3_FFFF_FFFF_FFFF);
    assert Encode(0x3_FFFF_FFFF_FFFF) == [0xFF] + Encode(z);
  }

  /** 2^43 - 1 is six full groups, then a final 1. */
  lemma {:induction false} LowOnesEncoding(z: nat)
    requires z == 0x7FF_FFFF_FFFF
    ensures Encode(z) == [0xFF, 0xFF, 0xFF, 0xFF, 0xFF, 0xFF, 0x01]
  {
    var w: nat := 0x3F_FFFF;
    assert Encode(w) == [0xFF, 0xFF, 0xFF, 0x01] by {
      assert Encode(1) == [0x01];
      assert Encode(0xFF) == [0xFF] + Encode(1);
      assert Encode(0x7FFF) == [0xFF] + Encode(0xFF);
      assert Encode(w) == [0xFF] + Encode(0x7FFF);
    }
    assert Encode(z) == [0xFF] + Encode(0xF_FFFF_FFFF);
    assert Encode(0xF_FFFF_FFFF) == [0xFF] + Encode(0x1FFF_FFFF);
    assert Encode(0x1FFF_FFFF) == [0xFF] + Encode(w);
  }

  /**
    As written, `int(namelen)` turns MISCOUNT_LEN into -47, so `DataCount`
    steps from offset 0 to 22, back to 1, then to 18 and exactly to the end
    at 35: it accepts the response with four records. `DataParse` then reads
    the second record at offset 22: after its ten length bytes the offset is
    32, the size check `bodyLen-offset < int(namelen)+16` (3 < -31) passes,
    and the name slice `body[32:32+int(namelen)]` ends below its start.
  */
  lemma {:induction false} AsWrittenCountMiscounts(x: nat)
    requires x == MISCOUNT_LEN
    ensures x < TWO_64 && Encode(x) == MISCOUNT_BODY[22..32] && |MISCOUNT_BODY| == 35
    ensures UvarintFrom(MISCOUNT_BODY, 0) == Decoded(5, 1) && NextOffsetAsWritten(0, 1, 5) == 22
    ensures UvarintFrom(MISCOUNT_BODY, 22) == Decoded(x, 10) && NextOffsetAsWritten(22, 10, x) == 1
    ensures UvarintFrom(MISCOUNT_BODY, 1) == Decoded(0, 1) && NextOffsetAsWritten(1, 1, 0) == 18
    ensures UvarintFrom(MISCOUNT_BODY, 18) == Decoded(0, 1) && NextOffsetAsWritten(18, 1, 0) == 35
    ensures !(35 - 32 < GoInt(x) + 16) && 32 + GoInt(x) < 32
  {
    var body := MISCOUNT_BODY;
    MiscountEncoding(x);
    MiscountRead(body, x);
    ShortRead(body, 0);
    ShortRead(body, 1);
    ShortRead(body, 18);
  }

  /** The encoding at offset 22 reads back. */
  lemma {:induction false} MiscountRead(body: seq<byte>, x: nat)
    requires x == MISCOUNT_LEN && body == MISCOUNT_BODY && Encode(x) == body[22..32]
    ensures UvarintFrom(body, 22) == Decoded(x, 10)
  {
    var pre, rest := body[..22], body[32..];
    assert body == pre + Encode(x) + rest;
    UvarintEncode(x, pre, rest);
  }

  /** A byte below 0x80 is a one-byte varint. */
  lemma ShortRead(body: seq<byte>, offset: nat)
    requires offset < |body| && body[offset] < 0x80
    ensures UvarintFrom(body, offset) == Decoded(body[offset], 1)
  {
    TerminatorFromAt(body, offset, offset);
    assert Pow2(0) == 1;
  }

  /** With the length taken as the unsigned number it is, the same response is a malformed response. */
  lemma CountRejectsMiscountBody(x: nat)
    requires x == MISCOUNT_LEN
    ensures Count(MISCOUNT_BODY) == Err(ErrClickHouseResponse)
  {
    AsWrittenCountMiscounts(x);
    var body := MISCOUNT_BODY;
    assert CountFrom(body, 0, 0) == CountFrom(body, 22, 1);
    assert CountFrom(body, 22, 1) == CountFrom(body, 32 + x + 16, 2);
  }

  /** The name length of the wrapping record, 2^63 - 1: the largest `int(namelen)` keeps. */
  const WRAP_LEN: nat := 0x7FFF_FFFF_FFFF_FFFF

  /**
    The nine bytes of WRAP_LEN's encoding: 63 one bits make nine groups of
    seven. The parameter stands for the constant so that `Encode` is not
    unfolded on a literal.
  */
  lemma {:induction false} WrapEncoding(x: nat)
    requires x == WRAP_LEN
    ensures Encode(x) == [0xFF, 0xFF, 0xFF, 0xFF, 0xFF, 0xFF, 0xFF, 0xFF, 0x7F]
  {
    var w: nat := 0xFFF_FFFF;
    SevenOnesEncoding(w);
    assert Encode(x) == [0xFF] + Encode(0xFF_FFFF_FFFF_FFFF);
    assert Encode(0xFF_FFFF_FFFF_FFFF) == [0xFF] + Encode(0x1_FFFF_FFFF_FFFF);
    assert Encode(0x1_FFFF_FFFF_FFFF) == [0xFF] + Encode(0x3FF_FFFF_FFFF);
    assert Encode(0x3FF_FFFF_FFFF) == [0xFF] + Encode(0x7_FFFF_FFFF);
    assert Encode(0x7_FFFF_FFFF) == [0xFF] + Encode(w);
  }

  /** 2^28 - 1 is three full groups, then a last group of seven ones. */
  lemma {:induction false} SevenOnesEncoding(w: nat)
    requires w == 0xFFF_FFFF
    ensures Encode(w) == [0xFF, 0xFF, 0xFF, 0x7F]
  {
    assert Encode(0x7F) == [0x7F];
    assert Encode(0x3FFF) == [0xFF] + Encode(0x7F);
    assert Encode(0x1F_FFFF) == [0xFF] + Encode(0x3FFF);
    assert Encode(w) == [0xFF] + Encode(0x1F_FFFF);
  }

  /**
    As written, the nine-byte response FF FF FF FF FF FF FF FF 7F reads as
    the length WRAP_LEN, which `int(namelen)` keeps, but the sum
    9 + WRAP_LEN + 16 = 2^63 + 24 wraps in Go's `int` to -2^63 + 24. Go's
    loop test `offset >= bodyLen` is then false, and `body[offset:]` on the
    next iteration is a slice with a negative start: Go panics.
  */
  lemma {:induction false} AsWrittenCountWraps(x: nat)
    requires x == WRAP_LEN
    ensures x < TWO_64 && Encode(x) == [0xFF, 0xFF, 0xFF, 0xFF, 0xFF, 0xFF, 0xFF, 0xFF, 0x7F]
    ensures Uvarint(Encode(x)) == Decoded(x, 9)
    ensures NextOffsetAsWritten(0, 9, x) == -(TWO_63 as int) + 24
    ensures var o := NextOffsetAsWritten(0, 9, x); !(o >= |Encode(x)|) && o < 0
  {
    WrapEncoding(x);
    WrapRead(x);
    WrapOffset(x);
  }

  /** The encoding of WRAP_LEN reads back as WRAP_LEN, from nine bytes. */
  lemma {:induction false} WrapRead(x: nat)
    requires x == WRAP_LEN && |Encode(x)| == 9
    ensures Uvarint(Encode(x)) == Decoded(x, 9)
  {
    UvarintEncode(x, [], []);
    assert [] + Encode(x) + [] == Encode(x);
  }

  /** Go's sum 9 + WRAP_LEN + 16 is 2^63 + 24, one past the int64 range by 25: it wraps to -2^63 + 24. */
  lemma {:induction false} WrapOffset(x: nat)
    requires x == WRAP_LEN
    ensures NextOffsetAsWritten(0, 9, x) == -(TWO_63 as int) + 24
  {
    assert GoInt(x) == x;
    assert GoWrap(9 + x + 16) == -(TWO_63 as int) + 24;
  }

  /** With the sum taken as the unsigned number it is, the same response is a malformed response. */
  lemma {:induction false} CountRejectsWrapBody(x: nat)
    requires x == WRAP_LEN
    ensures Count(Encode(x)) == Err(ErrClickHouseResponse)
  {
    AsWrittenCountWraps(x);
    var body := Encode(x);
    assert CountFrom(body, 0, 0) == CountFrom(body, 9 + x + 16, 1);
  }
}
