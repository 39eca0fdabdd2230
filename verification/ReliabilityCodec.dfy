/** The HEARTBEAT, ACKNACK and GAP codecs as the code runs them, on a CdrWriter and a
    CdrReader, proved equal to the functions of Reliability. */
module ReliabilityCodec {
  import opened Types
  import opened Cdr
  import opened Message
  import opened CdrStreams
  import opened Submessages
  import opened Reliability

  method Emit(kind: Byte, flags: Byte, content: CdrWriter) returns (bytes: Bytes)
    requires content.Valid()
    ensures bytes == Frame(kind, flags, Encoded(content.endianness, 0, content.fields))
  {
    // the cast to a 16-bit length
    bytes := EncodeSubmessageHeader(SubmessageHeader(kind, flags, |content.data| % 0x1_0000)) + content.data;
  }

  method WriteIds(content: CdrWriter, reader: EntityId, writer: EntityId)
    requires content.Valid() && content.fields == []
    modifies content
    ensures content.Valid() && content.fields == IdFields(reader, writer)
  {
    content.WriteBytes(reader);
    content.WriteBytes(writer);
  }

  method EncodeHeartbeatSubmessage(h: Heartbeat, e: Endianness) returns (ok: bool, bytes: Bytes)
    ensures ok == EncodeHeartbeat(h, e).Some?
    ensures bytes == if ok then EncodeHeartbeat(h, e).value else []
  {
    hide Encoded;
    hide Frame;
    if h.first <= 0 || h.last < h.first || h.count <= 0 {
      return false, [];
    }
    var content := new CdrWriter(e);
    WriteIds(content, h.reader, h.writer);
    WriteSequence(content, h.first);
    WriteSequence(content, h.last);
    content.WriteInt32(h.count);
    assert content.fields == HeartbeatFields(h);
    bytes := Emit(KIND_HEARTBEAT, HeartbeatFlags(h, e), content);
    ok := true;
  }

  method EncodeAckNackSubmessage(a: AckNack, e: Endianness) returns (ok: bool, bytes: Bytes)
    ensures ok == EncodeAckNack(a, e).Some?
    ensures bytes == if ok then EncodeAckNack(a, e).value else []
  {
    hide Encoded;
    hide Frame;
    if !a.state.Validated() || a.count <= 0 {
      return false, [];
    }
    var content := new CdrWriter(e);
    WriteIds(content, a.reader, a.writer);
    WriteSet(content, a.state);
    content.WriteInt32(a.count);
    bytes := Emit(KIND_ACKNACK, AckNackFlags(a, e), content);
    ok := true;
  }

  method EncodeGapSubmessage(g: Gap, e: Endianness) returns (ok: bool, bytes: Bytes)
    ensures ok == EncodeGap(g, e).Some?
    ensures bytes == if ok then EncodeGap(g, e).value else []
  {
    hide Encoded;
    hide Frame;
    if g.start <= 0 || g.list.base < g.start || !g.list.Validated() {
      return false, [];
    }
    var content := new CdrWriter(e);
    WriteIds(content, g.reader, g.writer);
    WriteSequence(content, g.start);
    WriteSet(content, g.list);
    bytes := Emit(KIND_GAP, GapFlags(e), content);
    ok := true;
  }

  /** Entity ids at the start of a content; the reader stands behind them afterwards. */
  method ReadIdsFrom(input: CdrReader) returns (ok: bool, reader: EntityId, writer: EntityId)
    requires input.Valid() && input.valid && input.offset == input.start == 0 && input.taken == []
    modifies input
    ensures input.Valid() && ok == input.valid
    ensures ReadIds(input.endianness, input.data) == if ok then Some((reader, writer, input.offset)) else None
  {
    hide ReadFields;
    writer := UNKNOWN_ENTITY;
    ok, reader := input.ReadBytes(4);
    if !ok { ReadStuck(input.endianness, input.data, 0, input.stuck, ID_SHAPES); return; }
    assert Shapes(input.taken) == [AsRaw(4)];
    ok, writer := input.ReadBytes(4);
    if !ok { ReadStuck(input.endianness, input.data, 0, input.stuck, ID_SHAPES); return; }
    assert Shapes(input.taken) == ID_SHAPES;
  }

  method DecodeHeartbeatSubmessage(bytes: Bytes) returns (r: Option<Heartbeat>)
    ensures r == DecodeHeartbeat(bytes)
  {
    hide ReadFields;
    hide ReadIds;
    var frame := Open(bytes, KIND_HEARTBEAT, 0xF8, 28);
    if frame.None? { return None; }
    var (h, content) := frame.value;
    var e := h.Endianness();
    var input := new CdrReader(content, e);
    var ok, reader, writer, first, last, count;
    ok, reader, writer := ReadIdsFrom(input);
    if !ok { return None; }
    ok, first, last, count := ReadHeartbeatTail(input);
    if !ok || first <= 0 || last < first || count <= 0 { return None; }
    var final, liveliness := Test(h.flags, FLAG_FINAL), Test(h.flags, FLAG_LIVELINESS);
    return Some(Heartbeat(reader, writer, first, last, count, final, liveliness));
  }

  method ReadHeartbeatTail(input: CdrReader) returns (ok: bool, first: Int64, last: Int64, count: Int32)
    requires input.Valid() && input.valid
    modifies input
    ensures input.Valid()
    ensures ok == ReadSome(input.endianness, input.data, old(input.offset), HEARTBEAT_TAIL).Some?
    ensures ok ==> var fields := ReadSome(input.endianness, input.data, old(input.offset), HEARTBEAT_TAIL).value.0;
                   first == SequenceAt(fields, 0) && last == SequenceAt(fields, 2) && count == fields[4].i32
  {
    hide ReadFields;
    last, count := 0, 0;
    input.Mark();
    ok, first := ReadSequence(input);
    if !ok { ReadStuck(input.endianness, input.data, input.start, input.stuck, HEARTBEAT_TAIL); return; }
    assert Shapes(input.taken) == [AsI32, AsU32];
    ok, last := ReadSequence(input);
    if !ok { ReadStuck(input.endianness, input.data, input.start, input.stuck, HEARTBEAT_TAIL); return; }
    assert Shapes(input.taken) == [AsI32, AsU32, AsI32, AsU32];
    ok, count := input.ReadInt32();
    if !ok { ReadStuck(input.endianness, input.data, input.start, input.stuck, HEARTBEAT_TAIL); return; }
    assert Shapes(input.taken) == HEARTBEAT_TAIL;
  }

  method DecodeAckNackSubmessage(bytes: Bytes) returns (r: Option<AckNack>)
    ensures r == DecodeAckNack(bytes)
  {
    hide ReadFields;
    hide ReadIds;
    hide ReadSet;
    var frame := Open(bytes, KIND_ACKNACK, 0xFC, 24);
    if frame.None? { return None; }
    var (h, content) := frame.value;
    var e := h.Endianness();
    var input := new CdrReader(content, e);
    var ok, reader, writer, state, count;
    ok, reader, writer := ReadIdsFrom(input);
    if !ok { return None; }
    ok, state := ReadSetFrom(input);
    if !ok { return None; }
    input.Mark();
    ok, count := input.ReadInt32();
    if !ok {
      ReadStuck(e, content, input.start, input.stuck, [AsI32]);
      return None;
    }
    assert Shapes(input.taken) == [AsI32];
    if count <= 0 { return None; }
    return Some(AckNack(reader, writer, state, count, Test(h.flags, FLAG_FINAL)));
  }

  method DecodeGapSubmessage(bytes: Bytes) returns (r: Option<Gap>)
    ensures r == DecodeGap(bytes)
  {
    hide ReadFields;
    hide ReadIds;
    hide ReadSet;
    var frame := Open(bytes, KIND_GAP, 0xFE, 28);
    if frame.None? { return None; }
    var (h, content) := frame.value;
    var e := h.Endianness();
    var input := new CdrReader(content, e);
    var ok, reader, writer, start, list;
    ok, reader, writer := ReadIdsFrom(input);
    if !ok { return None; }
    input.Mark();
    ok, start := ReadSequence(input);
    if !ok {
      ReadStuck(e, content, input.start, input.stuck, [AsI32, AsU32]);
      return None;
    }
    assert Shapes(input.taken) == [AsI32, AsU32];
    ok, list := ReadSetFrom(input);
    if !ok || start <= 0 || list.base < start { return None; }
    return Some(Gap(reader, writer, start, list));
  }
}
