# graphite-clickhouse: response decoding and reverse-path routing, in Dafny

This project models two pieces of graphite-clickhouse, a Graphite front end
over ClickHouse.

**The RowBinary response decoder (`render/data.go`).**
- `ReadUvarint` reads one unsigned base-128 varint, with separate truncation and overflow errors.
- `DataCount` is a pre-pass. It counts the records `uvarint(len) name time(4) value(8) timestamp(4)` and accepts only a body whose last record ends exactly at the end.
- `DataParse` fills a point array of exactly that size. The caller's extra points come first, each re-identified through the `NameToID` interning table. Then comes one point per record. A record whose raw name equals the previous record's name reuses that record's metric and ID. Any other name is optionally path-reversed and then interned.
- `Len`, `Less` and `Swap` give the (MetricID, Time) order the points are sorted by.

**The reverse-table router (`finder/reverse.go`).**
- `ReverseFinder.Execute` looks at the last segment of a metric query. It sends the query either unchanged to the finder it wraps, or with its segments reversed to a finder over the reverse tree. Choosing the reverse tree sets `isUsed`.
- `List` and `Series` reverse the returned names back, in place, once `isUsed` is set.
- `ReverseString` and `ReverseBytes` do the segment reversal.

Files:

| file | module | what it holds |
|---|---|---|
| `wrappers.dfy` | `Wrappers` | `Option`, `Result` |
| `bytes.dfy` | `Bytes` | bytes, the string view of a byte slice, `encoding/binary` little-endian reads, `int32` conversion, powers of two |
| `paths.dfy` | `Paths` | `strings.Split` / `Join`, `LastIndexByte`, segment reversal (the in-place swap loop and its specification), generic over the element type so that strings and byte slices share it |
| `render_wire.dfy` | `RenderWire` | `ReadUvarint`, `DataCount`, the varint encoding and the record encoding used to state round trips, Go's `int(namelen)` |
| `render_data.dfy` | `RenderData` | `Point`, the interning table, `DataParse` on values (`ParseFrom`), the class `Data` with `NameToID`, the two fill loops, `Len` / `Less` / `Swap`, `DataParse` itself |
| `render_data_ids.dfy` | `RenderDataIds` | what `DataParse` promises about metric IDs, and the empty-first-name case |
| `render_data_example.dfy` | `RenderDataExample` | one worked 18-byte response and its truncation |
| `render_data_roundtrip.dfy` | `RenderDataRoundTrip` | what `DataParse` reads back from any response made of well-formed records |
| `finder_reverse.dfy` | `FinderReverse` | `ReverseString`, `ReverseBytes`, the routing decision, `ReverseFinder` over two recording stand-in finders |

Modelling choices:
- A Go string is a `seq<char>` with one character per byte. `string(b)` is `Bytes.ToString`.
- `uint64` values are naturals below 2^64. `ReadUvarint` adds the groups where Go ORs shifted groups. The groups occupy disjoint bits, so the two agree. The sum is proved to stay below 2^64.
- The two finders `ReverseFinder` talks to are `Oracle` objects. Each records every query it receives and hands out fixed answers and fixed name arrays.
- `HasWildcard` is a function-valued parameter.

What the code does at three points where a reader might expect otherwise:
- **`isUsed`:** the code never clears `isUsed`. A forwarded query leaves it unchanged (`ReverseFinder.Execute`).
- **Decode errors:** `DataParse` returns `DataCount`'s error verbatim, which may be a varint truncation or overflow error (render/data.go:95-98). The record loop's own conversion to `errClickHouseResponse` cannot be reached after a successful count (`ParseWith`).
- **Record size:** a one-record response with a one-byte name is 18 bytes: the length prefix, the name and the 16 fixed bytes. The same response cut to 17 bytes is malformed (`OneRecordParse`, `OneRecordTruncated`).

## Model

| member | source | states |
|---|---|---|
| RenderWire.ReadUvarint | render/data.go:33-50 | the loop returns exactly what `Uvarint` specifies, for every input, empty included |
| RenderWire.UvarintFrom | render/data.go:33-50 | what `ReadUvarint(body[offset:])` returns: a decoded value is below 2^64 and takes between 1 and 10 bytes that lie in the input; an error is one of the two varint errors, never the malformed-response one |
| RenderWire.Uvarint | render/data.go:33-50 | the same for a whole input: a value below 2^64 from at most 10 bytes of the input, or one of the two varint errors |
| RenderWire.UvarintAt | render/data.go:41-45 | with the first byte below 0x80 at index i: overflow with count i+1 when i > 9, or i = 9 and that byte > 1; otherwise the value Σ_{k<i}(b_k & 0x7f)·2^(7k) + b_i·2^(7i), which is below 2^64, with count i+1 |
| RenderWire.UvarintTruncated | render/data.go:36-40 | the result is the truncation error with count len+1 if and only if no byte is below 0x80; never the overflow error then |
| RenderWire.UvarintIgnoresSuffix | render/data.go:37-46 | two inputs that agree up to and including the terminating byte give the same result: later bytes are never read |
| RenderWire.ValueBound | render/data.go:42-45 | a terminating group at index below 9, or at 9 with at most one data bit, completes a value below 2^64 |
| RenderWire.UvarintEncode | render/data.go:33-50 | round trip: for every x < 2^64, reading its shortest encoding, whatever bytes precede or follow it, gives x and the encoding's length, at most 10 |
| RenderWire.VarintValueEncode | render/data.go:47-48 | the groups of an encoding, shifted and summed as the loop does, give back the encoded value |
| RenderWire.VarintValueEncodeStep | render/data.go:47-48 | the step of `VarintValueEncode`: the first group, then the rest seven bits up |
| RenderWire.UvarintTruncatedEncoding | render/data.go:36-40 | every proper prefix of an encoding, the empty one included, is a truncation error with count prefix length + 1 |
| RenderWire.EncodeUint64 | render/data.go:42 | every uint64 encodes in at most ten bytes, and a tenth byte carries at most one data bit |
| RenderWire.UvarintSlice | render/data.go:83 | `ReadUvarint(body[offset:])` is reading `body` from `offset` |
| RenderWire.UvarintAgree | render/data.go:83 | the result depends only on the bytes from where reading starts |
| RenderWire.TerminatorIsFirst | render/data.go:37-41 | the loop stops at the first byte below 0x80, or at the end of the input |
| RenderWire.CountBound | render/data.go:76-91 | the counting loop from a given offset and count: success means the count never decreased and each record counted took at least 17 bytes of the body |
| RenderWire.CountNext | render/data.go:83-88 | a record the counter accepts has a readable length, its name and 16 fixed bytes lie in the body, and counting goes on past them |
| RenderWire.Count | render/data.go:70-92 | what `DataCount` returns: an accepted body holds at least 17 bytes per counted record |
| RenderWire.DataCount | render/data.go:70-92 | the loop returns exactly what `Count` specifies |
| RenderWire.CountStep | render/data.go:83-88 | step of `CountFrom`: a record whose length reads is counted, and counting resumes past its length, name and 16 fixed bytes |
| RenderWire.CountEnd | render/data.go:77-79 | step of `CountFrom`: an offset at the end of the body ends the count successfully |
| RenderWire.CountRecord | render/data.go:83-88 | a well-formed record is read by the counter, which moves to its end |
| RenderWire.CountEncoded | render/data.go:76-89 | every concatenation of well-formed records is accepted and counted, one per record, whatever was read before it |
| RenderWire.CountEncodedStep | render/data.go:83-88 | the step of `CountEncoded`: the first record is counted, then the rest |
| RenderWire.CountEncodedResponse | render/data.go:70-92 | a response made of n well-formed records counts exactly n |
| RenderWire.CountResponseCons | render/data.go:76-89 | a response of a well-formed record followed by n well-formed records counts n + 1 |
| RenderWire.CountFirstAlone | render/data.go:83-88 | a well-formed record at the start of the response is counted, and the count goes on from its end |
| RenderWire.UvarintRecordAt | render/data.go:83 | the length prefix of a well-formed record found at any offset reads back as the name's length and the prefix's size |
| RenderWire.GoInt | render/data.go:87 | Go's `int(u)` on a 64-bit platform: `u` or `u - 2^64`, within the int64 range |
| RenderWire.GoWrap | render/data.go:87 | Go's 64-bit `int` addition: the result lies in the int64 range, differs from the exact sum by a multiple of 2^64, and is the exact sum when that fits |
| RenderWire.NextOffsetAsWritten | render/data.go:87 | `offset += readBytes + int(namelen) + 16` as Go computes it, with `int(namelen)` reinterpreted and the sum wrapped in 64-bit `int`: the result is the unsigned sum exactly when that sum is below 2^63; from a non-negative offset, a length of 2^63 or more gives an offset below `offset + readBytes + 16`, that is, a step backwards or a step of fewer than the 16 fixed bytes |
| RenderWire.AsWrittenCountStalls | render/data.go:87 | as written: the response made of the ten-byte encoding of 2^64-26 reads back as length 2^64-26, and the offset after it is 0 again |
| RenderWire.CountRejectsStallBody | render/data.go:76-88 | with the length taken as unsigned, that same response is a malformed-response error |
| RenderWire.AsWrittenCountMiscounts | render/data.go:83-87 | as written: in the 35-byte response 05, 21 zero bytes, D1 FF FF FF FF FF FF FF FF 01, 00 00 00, the length at offset 22 reads as 2^64-47 from the ten bytes that encode it; the offsets go 0, 22, 1, 18 and then exactly 35, the end, so Go's `DataCount` accepts four records; Go's `DataParse` then passes its size check at render/data.go:136 with that length (3 < -31 is false), and the name slice at render/data.go:140 ends below its start |
| RenderWire.CountRejectsMiscountBody | render/data.go:76-88 | with the length taken as unsigned, that response is a malformed-response error |
| RenderWire.AsWrittenCountWraps | render/data.go:77-87 | as written: the nine-byte response FF FF FF FF FF FF FF FF 7F reads as length 2^63-1 from nine bytes; the sum 9 + (2^63-1) + 16 wraps to -2^63+24, so the loop test `offset >= bodyLen` at render/data.go:77 is false and the offset `body[offset:]` uses at render/data.go:83 is negative |
| RenderWire.WrapOffset | render/data.go:87 | as written: 9 + (2^63-1) + 16 in Go's 64-bit `int` is -2^63+24 |
| RenderWire.CountRejectsWrapBody | render/data.go:76-88 | with the sum taken as unsigned, that response is a malformed-response error |
| RenderData.Lookup | render/data.go:61 | Go's map index `d.nameToID[name]`: a non-zero result is the ID stored for the name |
| RenderData.LookupAbsent | render/data.go:61-62 | in a valid table, a zero lookup means exactly that the name is absent, so `NameToID`'s `id == 0` test finds new names |
| RenderData.Intern | render/data.go:60-68 | a stored non-zero ID is returned unchanged; otherwise maxID+1 is stored for the name and returned; the keys grow by the name and no other entry changes |
| RenderData.InternValid | render/data.go:60-68 | interning keeps the IDs a bijection between the names and 1..maxID, never returns 0, and keeps every existing entry |
| RenderData.InternIdempotent | render/data.go:60-68 | interning a name a second time changes nothing and returns the same ID |
| RenderData.Data.NameToID | render/data.go:60-68 | the method's new map, maxID and result are what `Intern` gives from the old ones |
| RenderData.FinalName | render/data.go:143-149 | the metric of a raw name, `unsafeString(name)` reversed by `reversePath` when asked: one character per byte, and a name without '.' is its own metric either way |
| RenderData.NextPrev | render/data.go:140-152 | after reading the raw name: a name equal to the previous one keeps the table and the previous metric and ID; any other name becomes the current name with its final name as metric, stored in the new table under the current ID |
| RenderData.RecordPoint | render/data.go:154-167 | the point stored for a record carries the current metric and ID, time and timestamp in the int32 range, and a value of 64 bits |
| RenderData.ParseFrom | render/data.go:122-169 | the record loop from a given offset, table, previous name and points: it fails only with the malformed-response error |
| RenderData.ReadRecord | render/data.go:129-168 | one pass of the record loop fails only with the malformed-response error; on success it moves forward within the body and appends exactly one point |
| RenderData.ReadRecordOk | render/data.go:130-168 | a record whose length, name and 16 fixed bytes are all in the body is read to the step that names it as `NextPrev` does |
| RenderData.ReadRecordShape | render/data.go:136-168 | conversely, an accepted record takes at least 17 bytes and ends inside the body, and its point is the last one appended |
| RenderData.ParseFromStep | render/data.go:122-169 | step of `ParseFrom`: after an accepted record the loop goes on from the offset, table and name it leaves |
| RenderData.ParseFromPrefix | render/data.go:122-169 | the points filled before the record loop stay the first points; a body with records left adds at least one more |
| RenderData.CountReadRecord | render/data.go:130-141 | a record `DataCount` counts is a record the parse loop reads, and both continue at the same offset |
| RenderData.ReadRecordNext | render/data.go:130-161 | a record whose length reads and whose name and 16 fixed bytes fit is read up to the end of those bytes |
| RenderData.CountParseStep | render/data.go:130-168 | counting and parsing take the same first record and continue at the same offset |
| RenderData.ParseFromCountEnd | render/data.go:122-127 | step of `ParseFromCountFrom`: at the end of the body counting and parsing both stop, parsing with the points it has |
| RenderData.ParseFromCountFrom | render/data.go:122-169 | from any offset the counter accepts, the record loop succeeds and adds exactly one point per counted record |
| RenderData.ParseFromCountStep | render/data.go:130-168 | the step of `ParseFromCountFrom` |
| RenderData.ParseWith | render/data.go:94-172 | `DataParse` from a given previous name: a body `DataCount` rejects gives its error verbatim; a body it accepts parses, to exactly count + len(extraPoints) points |
| RenderData.Parse | render/data.go:94-172 | the same for `DataParse` as written, starting from the empty name with metric "" and ID 0 |
| RenderData.ParseCorrected | render/data.go:94-172 | the same with no previous name at the start |
| RenderData.AddExtras | render/data.go:111-116 | the extras' loop appends one point per extra after the ones already there |
| RenderData.Data.constructor | render/data.go:100-103 | a fresh array of the given size, all zero points, and an empty table |
| RenderData.Data.FillExtras | render/data.go:111-116 | the loop leaves the extras, re-identified, at the front and the table as `AddExtras` says; the rest of the array is untouched |
| RenderData.Data.StoreRecord | render/data.go:140-168 | the table and current name are what `NextPrev` gives; only slot `index` changes, to the record's point |
| RenderData.Data.ParseRecord | render/data.go:130-168 | one loop iteration: on error nothing changes; otherwise the offset, name, table and points advance as `ReadRecord` says and later slots are untouched |
| RenderData.Data.FillRecords | render/data.go:118-169 | from a given previous name, the record loop fills the array and the table to exactly what `ParseFrom` specifies |
| RenderData.DataParseWith | render/data.go:94-172 | a rejected count gives no collection and the count's error; otherwise a fresh collection whose points and table are `ParseWith` from the given previous name |
| RenderData.DataParse | render/data.go:94-172 | as written, starting from the empty name with metric "" and ID 0: a rejected count gives no collection and the count's error; otherwise a fresh collection whose points and table are `Parse` |
| RenderData.DataParseCorrected | render/data.go:94-172 | the same with no previous name at the start, so that every record's metric is interned: the collection is `ParseCorrected` |
| RenderData.ReversePath | render/data.go:18-27 | `reversePath` is split on '.', segments reversed, joined on '.' |
| RenderData.Data.Len | render/data.go:174-176 | the number of points |
| RenderData.Data.Less | render/data.go:178-184 | true exactly when point i comes before point j by MetricID, then Time |
| RenderData.Data.Swap | render/data.go:186-188 | entries i and j are exchanged and nothing else changes; the points are a permutation of the old ones |
| RenderData.PointLess | render/data.go:178-184 | the order of `Less` on two points: a smaller MetricID comes first, a point comes first only if its MetricID is not larger, and with equal MetricIDs exactly the smaller Time comes first |
| RenderData.PointLessOrder | render/data.go:178-184 | that order is a strict weak order, as `sort.Sort` needs: asymmetric, transitive, and two points are unordered exactly when they share MetricID and Time |
| RenderData.SortedMonotone | render/data.go:178-184 | in a collection sorted by `Less`, IDs never decrease, and within one ID times never decrease |
| RenderData.SortedContiguous | render/data.go:178-184 | in a sorted collection the points of one ID are contiguous |
| RenderDataIds.AddExtrasNamed | render/data.go:111-116 | each extra keeps every field but its ID, which becomes its metric's interned ID; the table stays valid |
| RenderDataIds.AddExtrasValid | render/data.go:111-116 | the extras' loop keeps the table valid and every point carrying its metric's ID |
| RenderDataIds.AddExtrasCopies | render/data.go:111-116 | the extras' loop copies extra k, all but its ID, into slot k |
| RenderDataIds.ParseExtrasFirst | render/data.go:111-116 | a parsed response begins with the extras in order, every field but the ID kept |
| RenderDataIds.NextPrevKeeps | render/data.go:143-152 | looking up one raw name keeps the table valid and only grows it, and the current name carries its interned ID |
| RenderDataIds.KeepsStep | render/data.go:129-168 | one record keeps the loop invariant: table valid, every point carrying its metric's ID |
| RenderDataIds.ParseFromKeeps | render/data.go:122-169 | the whole record loop keeps that invariant |
| RenderDataIds.ParseCorrectedNamed | render/data.go:143-150 | with no previous name at the start, every point carries its metric's interned ID, which is at least 1 |
| RenderDataIds.ParseCorrectedSameId | render/data.go:143-150 | with no previous name at the start, two points share an ID if and only if they share a metric |
| RenderDataIds.ParseNamedOrEmpty | render/data.go:118-150 | as written, the table stays a bijection between the names and 1..maxID, and every point carries its metric's ID or is the empty metric with ID 0 |
| RenderDataIds.EmptyNameRecord | render/data.go:130-167 | the 17 zero bytes read as one record with an empty name and zero time, value and timestamp |
| RenderDataIds.EmptyNameParse | render/data.go:94-169 | the extra point with the empty metric followed by that record parses to two points, the second named as `NextPrev` names the empty raw name |
| RenderDataIds.EmptyFirstNameAsWritten | render/data.go:118-150 | as written, the extra and the record share the metric "" but get IDs 1 and 0 |
| RenderDataIds.EmptyFirstNameCorrected | render/data.go:118-150 | corrected, both get ID 1 |
| RenderDataExample.OneRecordParse | render/data.go:94-169 | the 18-byte response "length 1, 'a', time 0, value bits, timestamp 0" counts one record and decodes to the single point (1, "a", 0, value, 0) |
| RenderDataRoundTrip.AsWrittenFirstMetric | render/data.go:118-120 | Go's starting name, the empty slice with metric "", carries the metric its raw name gives |
| RenderDataRoundTrip.RecordLayout | render/data.go:130-160 | in an encoded record at any offset, the length prefix reads back, the name follows it, and time, value and timestamp occupy the next 4, 8 and 4 bytes |
| RenderDataRoundTrip.FixedFields | render/data.go:154-160 | the little-endian time, value and timestamp of a well-formed record read back as written |
| RenderDataRoundTrip.RecordFields | render/data.go:154-167 | the point read from those 16 bytes carries the record's time and timestamp as int32 and its value's 64 bits |
| RenderDataRoundTrip.RecordRead | render/data.go:130-168 | a record laid out that way is read by the record loop to its end, named as `NextPrev` names its raw name |
| RenderDataRoundTrip.LaidOutRead | render/data.go:130-152 | the record loop reads a laid-out record to the end of its fixed bytes, naming it as `NextPrev` names its raw name |
| RenderDataRoundTrip.LaidOutPoint | render/data.go:154-167 | the point of a laid-out record holds its time and timestamp as int32 and its value's 64 bits |
| RenderDataRoundTrip.RecordEncoded | render/data.go:130-168 | one encoded record at any offset is read by the record loop to its end and appends one point with its time, value and timestamp |
| RenderDataRoundTrip.RecordDecodes | render/data.go:143-167 | that point decodes the record: its metric is the record's name, reversed when asked |
| RenderDataRoundTrip.ParseEncoded | render/data.go:122-169 | from any offset where well-formed records run to the end of the body, the record loop succeeds and decodes each of them, in order, after the points before |
| RenderDataRoundTrip.ParseEncodedStep | render/data.go:129-168 | the step of `ParseEncoded`: the first record's point, then the rest |
| RenderDataRoundTrip.DecodesCons | render/data.go:129-168 | the first record's point followed by the rest's points decodes all the records |
| RenderDataRoundTrip.ParseEncodedResponse | render/data.go:94-172 | round trip: the encoding of any well-formed records counts one per record, and both the as-written and the corrected parse succeed with the extras first, re-identified as `AddExtras` gives them, and then, for record k, the point whose metric is its name (reversed when asked), whose time and timestamp are its fields as int32 and whose value is its 64 bits |
| RenderDataExample.OneRecordTruncated | render/data.go:76-82 | the same response cut by one byte is a malformed-response error for `DataCount` and for `DataParse` |
| Bytes.ToString | render/data.go:146-148 | `unsafeString(name)`: one character per byte, each with that byte's code |
| Bytes.LittleEndian | render/data.go:154-160 | the value `encoding/binary` reads from little-endian bytes: the first byte is its lowest |
| Bytes.Uint32Bytes | render/data.go:154 | `binary.LittleEndian.Uint32` weighs byte k by 256^k |
| Bytes.Uint32 | render/data.go:154 | four bytes read little-endian give a value below 2^32 |
| Bytes.Uint64 | render/data.go:157 | eight bytes read little-endian give a value below 2^64 |
| Bytes.LittleEndianRoundTrip | render/data.go:154-160 | reading the little-endian encoding of any n below 2^(8w) gives n back |
| Bytes.Int32 | render/data.go:165-167 | `int32(u)` lies in the int32 range and is non-negative exactly when u < 2^31 |
| Bytes.Int32Bits | render/data.go:165-167 | `int32(u)` keeps the 32 bits: it is congruent to u modulo 2^32 |
| Bytes.ToStringInjective | render/data.go:143-148 | two byte slices with the same string are equal, so comparing raw names and comparing their strings agree |
| Paths.Split | render/data.go:19 | `strings.Split` / `bytes.Split` on one separator: at least one segment, and no segment holds the separator |
| Paths.Join | render/data.go:26 | `strings.Join` / `bytes.Join`: the segments' lengths plus one separator between each two neighbours |
| Paths.ReversePath | render/data.go:18-27 | split, reversed and joined: the length is kept, and a path without a separator is its own reversal |
| Paths.SplitReverseJoin | render/data.go:18-27 | the split, in-place reversal and join compute `ReversePath` |
| Paths.ReverseSegments | render/data.go:22-24 | the swap loop leaves the slice reversed |
| Paths.JoinSplit | render/data.go:19-26 | joining a split gives the path back |
| Paths.SplitJoin | render/data.go:19-26 | splitting a join of separator-free segments gives the segments back |
| Paths.ReversePathSegments | render/data.go:18-27 | the segments of the reversed path are the path's segments in reverse order, so their number is kept |
| Paths.ReversePathInvolution | render/data.go:18-27 | reversing twice gives the path back, empty segments included |
| Paths.ReversePathMap | finder/reverse.go:19-39 | reversing and then mapping bytes to characters equals mapping and then reversing |
| Paths.LastIndex | finder/reverse.go:52 | `strings.LastIndexByte`: -1, or an index holding the separator |
| Paths.LastIndexAfter | finder/reverse.go:52 | no separator comes after `LastIndex` |
| Paths.LastIndexNone | finder/reverse.go:52-53 | `LastIndex` is -1 exactly when there is no separator |
| Paths.LastSegment | finder/reverse.go:52-57 | the last segment of a split is what follows the last separator, or the whole path without one |
| FinderReverse.ReverseString | finder/reverse.go:19-27 | the result is the reversed path; it keeps the length, its segments are the input's in reverse order, and a path without '.' comes back unchanged |
| FinderReverse.ReverseBytes | finder/reverse.go:29-39 | the result is the reversed byte path, keeps the length, and as a string equals `ReverseString` of the input's string |
| FinderReverse.ReverseBytesAsString | finder/reverse.go:29-39 | reversing bytes and reversing their string agree |
| FinderReverse.Classify | finder/reverse.go:52-59 | a query goes to the reverse table if and only if it has at least two segments and its last segment is non-empty and has no wildcard |
| FinderReverse.SplitCount | finder/reverse.go:52-53 | a query is one segment if and only if it has no '.' |
| FinderReverse.ForcedForward | finder/reverse.go:52-55 | a query without '.', the empty query included, or ending in '.', goes to the wrapped finder whatever the wildcard test says |
| FinderReverse.ReverseThree | finder/reverse.go:57-62 | "x.y.z" with a literal last segment goes to the reverse table as "z.y.x" |
| FinderReverse.ReverseFinder.constructor | finder/reverse.go:41-49 | the new finder holds the two finders and starts with `isUsed` false |
| FinderReverse.ReverseFinder.Execute | finder/reverse.go:51-63 | on the forward route only the wrapped finder receives the query, unchanged, and `isUsed` is kept; on the reverse route only the reverse-table finder receives the reversed query and `isUsed` becomes true; either way that finder's error is returned verbatim |
| FinderReverse.ReverseFinder.ExecuteReversed | finder/reverse.go:61-62 | the reverse route: `isUsed` becomes true, and only the reverse-table finder receives the query, with its segments reversed; its error is returned verbatim |
| FinderReverse.Oracle.Execute | finder/reverse.go:54 | the stand-in finder records the query it receives and returns its fixed outcome |
| FinderReverse.ReverseFinder.List | finder/reverse.go:65-76 | without `isUsed`, the wrapped finder's list, untouched; with it, the reverse-table finder's own array, each name reversed back in place |
| FinderReverse.ReverseFinder.Series | finder/reverse.go:78-89 | as `List`, over the series names |
| FinderReverse.ReverseFinder.Abs | finder/reverse.go:91-93 | the name comes back unchanged |
| FinderReverse.ReverseInPlace | finder/reverse.go:71-73 | the loop replaces every element by its reversal and changes nothing else |
| FinderReverse.ReverseAll | finder/reverse.go:71-73 | the element-wise reversal keeps the number of names |
| FinderReverse.ReverseAllInvolution | finder/reverse.go:71-73 | reversing every name twice gives the names back, so `List` undoes the reversal the reverse table stores |

## Left out

- `unsafeString` (render/data.go:14-16) shares the bytes of the slice. The model makes an ordinary copy (`Bytes.ToString`); aliasing has no observable effect here because the body is never written.
- The IEEE-754 meaning of `Value` (render/data.go:157) is left out. The point keeps the raw 64 bits that `math.Float64frombits` would reinterpret.
- The `body` and `Aliases` fields of `Data` (render/data.go:53, 57) are left out, because this code never reads or writes them.
- The error messages are left out. The three errors are the three values of `RenderWire.Error`.
- RenderWire.ReadUvarint: on an error the model returns no value. Go also returns the partial `x`, which every caller discards.
- RenderWire.DataCount: the model takes `int(namelen)` and the offset sum as the unsigned values they are, not Go's 64-bit wrap-around. The as-written arithmetic (`NextOffsetAsWritten`) and the bodies it goes wrong on are under Findings: one where Go's loop never ends, and one (FF FF FF FF FF FF FF FF 7F) where Go panics at render/data.go:83 while the model returns the malformed-response error.
- RenderData.DataParse: the lengths are taken as unsigned, so the model does not reproduce Go's `int(namelen)` wrap in the size check at render/data.go:136. As written, Go's `DataCount` accepts the 35-byte response of `RenderWire.AsWrittenCountMiscounts` as four records. `DataParse` then passes the check at line 136 with a negative length and panics at line 140, slicing `body[32:-15]`. The model rejects that response as malformed (`RenderWire.CountRejectsMiscountBody`).
- `sort.Sort` is left out, because it is not part of this file. The model states what a sort by `Less` leaves (`SortedByLess`) and proves its consequences.
- `WrapReverse`'s construction of the reverse-table finder (`NewBase` with DSN, table and timeout, finder/reverse.go:41-49) is not modelled, because it is configuration and network access. The constructor takes that finder as an argument.
- The `context` argument of `Execute` is not modelled.
- The finders `ReverseFinder` talks to, and `HasWildcard`, are not part of this model. The finders are recording stand-ins, and `HasWildcard` is a function parameter.
- Concurrent use of one `ReverseFinder` is left out; the model assumes a single sequential caller.
- `bytes.Split` and `strings.Split` allocate fresh slices. The model splits into a fresh array, reverses it in place and joins. Sharing between the segments and the input is not modelled.

## Findings

| source | as written | input that shows it | evidently intended | confidence | as-written member | corrected member |
|---|---|---|---|---|---|---|
| render/data.go:87 | `offset += readBytes + int(namelen) + 16` converts the uint64 length to a signed int | a 10-byte body that is the varint 2^64-26 (E6 FF FF FF FF FF FF FF FF 01): `int(namelen)` is -26, so the offset goes from 0 back to 0 and `DataCount` never returns | a length that does not fit in the body is a malformed response | not executed; high | RenderWire.AsWrittenCountStalls | RenderWire.CountRejectsStallBody |
| render/data.go:87 | the same conversion lets a wrapping length jump the offset back to an earlier record | the 35-byte body 05, 21 zero bytes, D1 FF FF FF FF FF FF FF FF 01, 00 00 00: the offsets go 0, 22, 1, 18, 35, so `DataCount` returns 4, and `DataParse` passes its size check at render/data.go:136 and panics slicing `body[32:-15]` at render/data.go:140 | a length that does not fit in the body is a malformed response | not executed; high | RenderWire.AsWrittenCountMiscounts | RenderWire.CountRejectsMiscountBody |
| render/data.go:87 | the sum itself is a 64-bit `int` and wraps | the 9-byte body FF FF FF FF FF FF FF FF 7F, the varint 2^63-1: `offset` becomes 9 + (2^63-1) + 16, which wraps to -2^63+24; the test `offset >= bodyLen` at render/data.go:77 is false, and `body[offset:]` at render/data.go:83 panics on the negative offset | a length that does not fit in the body is a malformed response | not executed; high | RenderWire.AsWrittenCountWraps | RenderWire.CountRejectsWrapBody |
| render/data.go:118-150 | the previous raw name starts as the empty slice, with metric "" and ID 0 | the extra point with metric "" followed by a 17-byte record with an empty name: the two points share the metric "" but get IDs 1 and 0, and ID 0 is never assigned by `NameToID` | every record's metric is interned, so equal metrics have equal non-zero IDs | not executed; medium | RenderDataIds.EmptyFirstNameAsWritten | RenderDataIds.EmptyFirstNameCorrected |
