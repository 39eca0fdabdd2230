/** The HEARTBEAT, ACKNACK and GAP submessages (sections 9.4.5.7, 9.4.5.3 and 9.4.5.6 of
    DDSI-RTPS 2.5). */
module Reliability {
  import opened Types
  import opened Seqs
  import opened Cdr
  import opened Message
  import opened SequenceSet
  import opened Submessages

  datatype Heartbeat = Heartbeat(reader: EntityId, writer: EntityId, first: Int64, last: Int64,
                                 count: Int32, final: bool, liveliness: bool)
  {
    predicate Encodable() {
      0 < first <= last && count > 0
    }
  }

  datatype AckNack = AckNack(reader: EntityId, writer: EntityId, state: SequenceNumberSet, count: Int32, final: bool) {
    predicate Encodable() {
      state.Validated() && count > 0
    }
  }

  datatype Gap = Gap(reader: EntityId, writer: EntityId, start: Int64, list: SequenceNumberSet) {
    predicate Encodable() {
      0 < start <= list.base && list.Validated()
    }
  }

  const FLAG_FINAL: Byte := 0x02
  const FLAG_LIVELINESS: Byte := 0x04

  const ID_SHAPES: seq<Shape> := [AsRaw(4), AsRaw(4)]
  const HEARTBEAT_TAIL: seq<Shape> := [AsI32, AsU32, AsI32, AsU32, AsI32]

  function IdFields(reader: EntityId, writer: EntityId): seq<Field> {
    [Raw(reader), Raw(writer)]
  }

  function HeartbeatTail(h: Heartbeat): seq<Field> {
    SequenceFields(h.first) + SequenceFields(h.last) + [I32(h.count)]
  }

  // ---- Encoders ----

  /** Each flag is OR-ed in; distinct flags add up. */
  function HeartbeatFlags(h: Heartbeat, e: Endianness): Byte {
    (if e.Little? then 1 else 0) + (if h.final then 2 else 0) + (if h.liveliness then 4 else 0)
  }

  function AckNackFlags(a: AckNack, e: Endianness): Byte {
    (if e.Little? then 1 else 0) + (if a.final then 2 else 0)
  }

  function GapFlags(e: Endianness): Byte {
    if e.Little? then 1 else 0
  }

  function HeartbeatFields(h: Heartbeat): seq<Field> {
    IdFields(h.reader, h.writer) + HeartbeatTail(h)
  }

  function AckNackFields(a: AckNack): seq<Field> {
    IdFields(a.reader, a.writer) + SetFields(a.state) + [I32(a.count)]
  }

  function GapFields(g: Gap): seq<Field> {
    IdFields(g.reader, g.writer) + SequenceFields(g.start) + SetFields(g.list)
  }

  function EncodeHeartbeat(h: Heartbeat, e: Endianness): Option<Bytes> {
    if h.first <= 0 || h.last < h.first || h.count <= 0 then None
    else Some(Frame(KIND_HEARTBEAT, HeartbeatFlags(h, e), Encoded(e, 0, HeartbeatFields(h))))
  }

  function EncodeAckNack(a: AckNack, e: Endianness): Option<Bytes> {
    if !a.state.Validated() || a.count <= 0 then None
    else Some(Frame(KIND_ACKNACK, AckNackFlags(a, e), Encoded(e, 0, AckNackFields(a))))
  }

  function EncodeGap(g: Gap, e: Endianness): Option<Bytes> {
    if g.start <= 0 || g.list.base < g.start || !g.list.Validated() then None
    else Some(Frame(KIND_GAP, GapFlags(e), Encoded(e, 0, GapFields(g))))
  }

  // ---- Decoders ----

  /** Reader id, writer id and the offset behind them. */
  function ReadIds(e: Endianness, content: Bytes): (r: Option<(EntityId, EntityId, nat)>)
    ensures r.Some? ==> r.value.2 <= |content|
  {
    var (ids, o) :- ReadSome(e, content, 0, ID_SHAPES);
    Some((ids[0].raw, ids[1].raw, o))
  }

  function HeartbeatContent(h: SubmessageHeader, content: Bytes): Option<Heartbeat> {
    var (reader, writer, o) :- ReadIds(h.Endianness(), content);
    var (fields, _) :- ReadSome(h.Endianness(), content, o, HEARTBEAT_TAIL);
    var r := Heartbeat(reader, writer, SequenceAt(fields, 0), SequenceAt(fields, 2), fields[4].i32,
                       Test(h.flags, FLAG_FINAL), Test(h.flags, FLAG_LIVELINESS));
    if r.first <= 0 || r.last < r.first || r.count <= 0 then None else Some(r)
  }

  function AckNackContent(h: SubmessageHeader, content: Bytes): Option<AckNack> {
    var (reader, writer, o) :- ReadIds(h.Endianness(), content);
    var (state, o') :- ReadSet(h.Endianness(), content, o);
    var (count, _) :- ReadSome(h.Endianness(), content, o', [AsI32]);
    if count[0].i32 <= 0 then None
    else Some(AckNack(reader, writer, state, count[0].i32, Test(h.flags, FLAG_FINAL)))
  }

  function GapContent(h: SubmessageHeader, content: Bytes): Option<Gap> {
    var (reader, writer, o) :- ReadIds(h.Endianness(), content);
    var (start, o') :- ReadSome(h.Endianness(), content, o, [AsI32, AsU32]);
    var (list, _) :- ReadSet(h.Endianness(), content, o');
    var g := Gap(reader, writer, SequenceAt(start, 0), list);
    if g.start <= 0 || g.list.base < g.start then None else Some(g)
  }

  /** The header checks of a decoder: kind, flags outside the supported ones, size. */
  function Open(bytes: Bytes, kind: Byte, unsupported: Byte, minimum: nat): Option<(SubmessageHeader, Bytes)> {
    var h :- DecodeSubmessageHeader(bytes);
    if h.kind != kind || Test(h.flags, unsupported) then None
    else
      var content :- Content(bytes, h, minimum);
      Some((h, content))
  }

  function DecodeHeartbeat(bytes: Bytes): Option<Heartbeat> {
    var (h, content) :- Open(bytes, KIND_HEARTBEAT, 0xF8, 28);
    HeartbeatContent(h, content)
  }

  function DecodeAckNack(bytes: Bytes): Option<AckNack> {
    var (h, content) :- Open(bytes, KIND_ACKNACK, 0xFC, 24);
    AckNackContent(h, content)
  }

  function DecodeGap(bytes: Bytes): Option<Gap> {
    var (h, content) :- Open(bytes, KIND_GAP, 0xFE, 28);
    GapContent(h, content)
  }

  // ---- Round trips ----

  lemma OpenFrame(kind: Byte, flags: Byte, content: Bytes, tail: Bytes, unsupported: Byte, minimum: nat)
    requires minimum <= |content| && 0 < |content| < 0x1_0000 && !Test(flags, unsupported)
    ensures Open(Frame(kind, flags, content) + tail, kind, unsupported, minimum) ==
            Some((SubmessageHeader(kind, flags, |content|), content))
  {
    hide Test;
    hide Frame;
    hide Content;
    FrameRoundTrip(kind, flags, content, tail, minimum);
  }

  lemma IdsRoundTrip(e: Endianness, reader: EntityId, writer: EntityId, rest: seq<Field>)
    ensures var content := Encoded(e, 0, IdFields(reader, writer) + rest);
            && |content| == 8 + |Encoded(e, 8, rest)|
            && ReadIds(e, content) == Some((reader, writer, 8))
            && content[8..] == Encoded(e, 8, rest)
  {
    hide ReadFields;
    hide Encoded;
    var ids := IdFields(reader, writer);
    EncodedAppend(e, 0, ids, rest);
    WordsLength(e, 0, ids);
    var content := Encoded(e, 0, ids + rest);
    assert content[0..8] == Encoded(e, 0, ids);
    FieldsRoundTrip(e, content, 0, ids, 8);
    assert Shapes(ids) == ID_SHAPES;
  }

  lemma FlagsRead(little: bool, final: bool, liveliness: bool, flags: Byte, kind: Byte)
    requires flags == (if little then 1 else 0) + (if final then 2 else 0) + (if liveliness then 4 else 0)
    ensures SubmessageHeader(kind, flags, 0).Endianness() == if little then Little else Big
    ensures Test(flags, FLAG_FINAL) == final && Test(flags, FLAG_LIVELINESS) == liveliness
    ensures !Test(flags, 0xF8)
    ensures !liveliness ==> !Test(flags, 0xFC)
    ensures !liveliness && !final ==> !Test(flags, 0xFE)
  {
    FlagBits(flags);
    HighFlags(flags);
  }

  /** A HEARTBEAT is encodable exactly when its range and count are valid; then it takes
      28 bytes of content and survives the wire in either byte order. */
  lemma HeartbeatRoundTrip(h: Heartbeat, e: Endianness, tail: Bytes)
    ensures EncodeHeartbeat(h, e).Some? <==> h.Encodable()
    ensures h.Encodable() ==> |EncodeHeartbeat(h, e).value| == 32
    ensures h.Encodable() ==> DecodeHeartbeat(EncodeHeartbeat(h, e).value + tail) == Some(h)
  {
    hide Open;
    hide Test;
    hide ReadIds;
    hide ReadFields;
    hide Encoded;
    if h.Encodable() {
      var content := Encoded(e, 0, HeartbeatFields(h));
      var flags := HeartbeatFlags(h, e);
      WordsLength(e, 8, HeartbeatTail(h));
      IdsRoundTrip(e, h.reader, h.writer, HeartbeatTail(h));
      FlagsRead(e.Little?, h.final, h.liveliness, flags, KIND_HEARTBEAT);
      OpenFrame(KIND_HEARTBEAT, flags, content, tail, 0xF8, 28);
      assert content[8..28] == content[8..];
      FieldsRoundTrip(e, content, 8, HeartbeatTail(h), 28);
      assert Shapes(HeartbeatTail(h)) == HEARTBEAT_TAIL;
      SplitJoin(h.first, 0, 0);
      SplitJoin(h.last, 0, 0);
    }
  }

  lemma SetLength(e: Endianness, offset: nat, s: SequenceNumberSet)
    requires offset % 4 == 0
    ensures |Encoded(e, offset, SetFields(s))| == 12 + 4 * |s.bitmap|
  {
    WordsLength(e, offset, SetFields(s));
  }

  lemma AckNackRoundTrip(a: AckNack, e: Endianness, tail: Bytes)
    ensures EncodeAckNack(a, e).Some? <==> a.Encodable()
    ensures a.Encodable() ==> |EncodeAckNack(a, e).value| == 28 + 4 * |a.state.bitmap|
    ensures a.Encodable() ==> DecodeAckNack(EncodeAckNack(a, e).value + tail) == Some(a)
  {
    hide Open;
    hide Test;
    hide ReadIds;
    hide ReadSet;
    hide ReadFields;
    hide Encoded;
    hide SequenceNumberSet.Validated;
    if a.Encodable() {
      var rest := SetFields(a.state) + [I32(a.count)];
      assert AckNackFields(a) == IdFields(a.reader, a.writer) + rest;
      var content := Encoded(e, 0, AckNackFields(a));
      var flags := AckNackFlags(a, e);
      SetLength(e, 8, a.state);
      var o := 20 + 4 * |a.state.bitmap|;
      EncodedAppend(e, 8, SetFields(a.state), [I32(a.count)]);
      WordsLength(e, o, [I32(a.count)]);
      IdsRoundTrip(e, a.reader, a.writer, rest);
      BitmapSize(a.state);
      FlagsRead(e.Little?, a.final, false, flags, KIND_ACKNACK);
      OpenFrame(KIND_ACKNACK, flags, content, tail, 0xFC, 24);
      assert content[8..o + 4] == content[8..];
      SplitSlice(content, 8, o + 4, Encoded(e, 8, SetFields(a.state)), Encoded(e, o, [I32(a.count)]));
      SetRoundTrip(e, content, 8, a.state, o);
      FieldsRoundTrip(e, content, o, [I32(a.count)], o + 4);
      assert Shapes([I32(a.count)]) == [AsI32];
    }
  }

  lemma BitmapSize(s: SequenceNumberSet)
    requires s.Validated()
    ensures |s.bitmap| <= 8
  {
  }

  lemma GapRoundTrip(g: Gap, e: Endianness, tail: Bytes)
    ensures EncodeGap(g, e).Some? <==> g.Encodable()
    ensures g.Encodable() ==> |EncodeGap(g, e).value| == 32 + 4 * |g.list.bitmap|
    ensures g.Encodable() ==> DecodeGap(EncodeGap(g, e).value + tail) == Some(g)
  {
    hide Open;
    hide Test;
    hide ReadIds;
    hide ReadSet;
    hide ReadFields;
    hide Encoded;
    hide SequenceNumberSet.Validated;
    if g.Encodable() {
      var rest := SequenceFields(g.start) + SetFields(g.list);
      assert GapFields(g) == IdFields(g.reader, g.writer) + rest;
      var content := Encoded(e, 0, GapFields(g));
      var end := |content|;
      WordsLength(e, 8, SequenceFields(g.start));
      SetLength(e, 16, g.list);
      EncodedAppend(e, 8, SequenceFields(g.start), SetFields(g.list));
      IdsRoundTrip(e, g.reader, g.writer, rest);
      BitmapSize(g.list);
      FlagsRead(e.Little?, false, false, GapFlags(e), KIND_GAP);
      OpenFrame(KIND_GAP, GapFlags(e), content, tail, 0xFE, 28);
      assert content[8..end] == content[8..];
      SplitSlice(content, 8, end, Encoded(e, 8, SequenceFields(g.start)), Encoded(e, 16, SetFields(g.list)));
      FieldsRoundTrip(e, content, 8, SequenceFields(g.start), 16);
      assert Shapes(SequenceFields(g.start)) == [AsI32, AsU32];
      SetRoundTrip(e, content, 16, g.list, end);
      SplitJoin(g.start, 0, 0);
    }
  }

  /** Whatever a decoder accepts, from any bytes, can be sent on and is understood the
      same way. */
  lemma DecodedSurvives(bytes: Bytes, e: Endianness, tail: Bytes)
    ensures var h := DecodeHeartbeat(bytes);
            h.Some? ==>
              EncodeHeartbeat(h.value, e).Some? && DecodeHeartbeat(EncodeHeartbeat(h.value, e).value + tail) == h
    ensures var a := DecodeAckNack(bytes);
            a.Some? ==>
              EncodeAckNack(a.value, e).Some? && DecodeAckNack(EncodeAckNack(a.value, e).value + tail) == a
    ensures var g := DecodeGap(bytes);
            g.Some? ==>
              EncodeGap(g.value, e).Some? && DecodeGap(EncodeGap(g.value, e).value + tail) == g
  {
    AcceptedHeartbeat(bytes);
    AcceptedAckNack(bytes);
    AcceptedGap(bytes);
    hide *;
    if DecodeHeartbeat(bytes).Some? { HeartbeatRoundTrip(DecodeHeartbeat(bytes).value, e, tail); }
    if DecodeAckNack(bytes).Some? { AckNackRoundTrip(DecodeAckNack(bytes).value, e, tail); }
    if DecodeGap(bytes).Some? { GapRoundTrip(DecodeGap(bytes).value, e, tail); }
  }

  lemma AcceptedHeartbeat(bytes: Bytes)
    ensures DecodeHeartbeat(bytes).Some? ==> DecodeHeartbeat(bytes).value.Encodable()
  {
    hide ReadIds;
    hide Open;
  }

  lemma AcceptedAckNack(bytes: Bytes)
    ensures DecodeAckNack(bytes).Some? ==> DecodeAckNack(bytes).value.Encodable()
  {
    hide ReadIds;
    hide ReadSet;
    hide Open;
  }

  lemma AcceptedGap(bytes: Bytes)
    ensures DecodeGap(bytes).Some? ==> DecodeGap(bytes).value.Encodable()
  {
    hide ReadIds;
    hide ReadSet;
    hide Open;
  }
}
