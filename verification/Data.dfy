/** The DATA submessage (section 9.4.5.4 of DDSI-RTPS 2.5) without inline QoS. */
module Data {
  import opened Types
  import opened Bits
  import opened Cdr
  import opened Message
  import opened SequenceSet
  import opened CdrStreams
  import opened Submessages

  const FLAG_INLINE_QOS: Byte := 0x02
  const FLAG_DATA: Byte := 0x04
  const FLAG_KEY: Byte := 0x08
  const FLAG_NON_STANDARD_PAYLOAD: Byte := 0x10
  const OCTETS_TO_INLINE_QOS: UInt16 := 16
  const FIXED_CONTENT_SIZE: nat := 20

  datatype DataSubmessage = DataSubmessage(reader: EntityId, writer: EntityId, sequence: Int64, payload: Bytes)

  const HEAD_SHAPES: seq<Shape> := [AsU16, AsU16, AsRaw(4), AsRaw(4), AsI32, AsU32]

  function HeadFields(d: DataSubmessage): seq<Field> {
    [U16(0), U16(OCTETS_TO_INLINE_QOS), Raw(d.reader), Raw(d.writer)] + SequenceFields(d.sequence)
  }

  lemma HeadLength(e: Endianness, d: DataSubmessage)
    ensures |Encoded(e, 0, HeadFields(d))| == FIXED_CONTENT_SIZE
  {
    hide Chunk;
    hide Encoded;
    var words := [Raw(d.reader), Raw(d.writer)] + SequenceFields(d.sequence);
    assert HeadFields(d) == [U16(0)] + ([U16(OCTETS_TO_INLINE_QOS)] + words);
    EncodedCons(e, 0, U16(0), [U16(OCTETS_TO_INLINE_QOS)] + words);
    ChunkU16(e, 0);
    ChunkU16(e, OCTETS_TO_INLINE_QOS);
    EncodedCons(e, 2, U16(OCTETS_TO_INLINE_QOS), words);
    WordsLength(e, 4, words);
  }

  lemma ChunkU16(e: Endianness, v: UInt16)
    ensures |Chunk(e, 0, U16(v))| == 2 && |Chunk(e, 2, U16(v))| == 2
  {
  }

  function FlagsOf(e: Endianness): Byte {
    if e.Little? then 0x05 else 0x04
  }

  predicate Encodable(d: DataSubmessage) {
    d.sequence > 0 && FIXED_CONTENT_SIZE + |d.payload| <= 0xFFFF
  }

  function Encode(d: DataSubmessage, e: Endianness): Option<Bytes> {
    var content := Encoded(e, 0, HeadFields(d)) + d.payload;
    if d.sequence <= 0 || |content| > 0xFFFF then None
    else Some(Frame(KIND_DATA, FlagsOf(e), content))
  }

  predicate Supported(h: SubmessageHeader) {
    && h.kind == KIND_DATA
    && Test(h.flags, FLAG_DATA) && !Test(h.flags, FLAG_KEY)
    && !Test(h.flags, FLAG_INLINE_QOS + FLAG_NON_STANDARD_PAYLOAD)
  }

  predicate IsHead(fields: seq<Field>) {
    && |fields| == 6
    && fields[0].U16? && fields[1].U16?
    && fields[2].Raw? && |fields[2].raw| == 4
    && fields[3].Raw? && |fields[3].raw| == 4
    && fields[4].I32? && fields[5].U32?
  }

  lemma HeadShapes(fields: seq<Field>)
    requires |fields| == 6 && forall i | 0 <= i < 6 :: ShapeOf(fields[i]) == HEAD_SHAPES[i]
    ensures IsHead(fields)
  {
    assert ShapeOf(fields[0]) == AsU16 && ShapeOf(fields[1]) == AsU16;
    assert ShapeOf(fields[2]) == AsRaw(4) && ShapeOf(fields[3]) == AsRaw(4);
    assert ShapeOf(fields[4]) == AsI32 && ShapeOf(fields[5]) == AsU32;
  }

  function HeadOf(e: Endianness, content: Bytes): (r: Option<seq<Field>>)
    ensures r.Some? ==> IsHead(r.value)
  {
    hide ReadFields;
    hide ReadSome;
    hide ShapeOf;
    hide IsHead;
    var (fields, _) :- ReadSome(e, content, 0, HEAD_SHAPES);
    HeadShapes(fields);
    Some(fields)
  }

  function DecodeContent(e: Endianness, content: Bytes): Option<DataSubmessage> {
    var fields :- HeadOf(e, content);
    var payloadOffset := 4 + fields[1].v16;
    var sequence := SequenceAt(fields, 4);
    if fields[0].v16 != 0 || fields[1].v16 < OCTETS_TO_INLINE_QOS then None
    else if payloadOffset > |content| || sequence <= 0 then None
    else Some(DataSubmessage(fields[2].raw, fields[3].raw, sequence, content[payloadOffset..]))
  }

  function Decode(bytes: Bytes): Option<DataSubmessage> {
    var h :- DecodeSubmessageHeader(bytes);
    if !Supported(h) then None
    else
      var content :- Content(bytes, h, FIXED_CONTENT_SIZE);
      DecodeContent(h.Endianness(), content)
  }

  lemma FlagTests(e: Endianness)
    ensures var h := SubmessageHeader(KIND_DATA, FlagsOf(e), 0);
            h.Endianness() == e && Supported(h)
  {
    FlagBits(FlagsOf(e));
    assert And(5, 0x12) == 0 && And(4, 0x12) == 0;
  }

  /** A DATA submessage is encodable exactly when its number is positive and it fits a
      16-bit length, and then it survives the wire in either byte order whatever follows
      it in the datagram. */
  lemma RoundTrip(d: DataSubmessage, e: Endianness, tail: Bytes)
    ensures Encode(d, e).Some? <==> Encodable(d)
    ensures Encodable(d) ==> Decode(Encode(d, e).value + tail) == Some(d)
  {
    hide Frame;
    hide Encoded;
    hide ReadFields;
    hide Content;
    HeadLength(e, d);
    if Encodable(d) {
      var head := Encoded(e, 0, HeadFields(d));
      var content := head + d.payload;
      FrameRoundTrip(KIND_DATA, FlagsOf(e), content, tail, FIXED_CONTENT_SIZE);
      FlagTests(e);
      assert content[0..20] == head;
      FieldsRoundTrip(e, content, 0, HeadFields(d), 20);
      assert Shapes(HeadFields(d)) == HEAD_SHAPES;
      SplitJoin(d.sequence, 0, 0);
      assert content[20..] == d.payload;
    }
  }

  /** Whatever the decoder accepts can be sent on unchanged, unless the payload reached
      the decoder in a zero-length frame longer than a 16-bit length can announce. */
  lemma DecodedIsEncodable(bytes: Bytes, e: Endianness, tail: Bytes)
    requires Decode(bytes).Some?
    ensures var d := Decode(bytes).value;
            && d.sequence > 0
            && (|d.payload| <= 0xFFFF - FIXED_CONTENT_SIZE <==> Encode(d, e).Some?)
            && (Encode(d, e).Some? ==> Decode(Encode(d, e).value + tail) == Some(d))
  {
    RoundTrip(Decode(bytes).value, e, tail);
  }

  // ---- The codec as the code runs it ----

  method EncodeSubmessage(d: DataSubmessage, e: Endianness) returns (ok: bool, bytes: Bytes)
    ensures ok == Encode(d, e).Some?
    ensures bytes == if ok then Encode(d, e).value else []
  {
    hide Encoded;
    hide Frame;
    if d.sequence <= 0 {
      return false, [];
    }
    var content := new CdrWriter(e);
    content.WriteUint16(0);
    content.WriteUint16(OCTETS_TO_INLINE_QOS);
    content.WriteBytes(d.reader);
    content.WriteBytes(d.writer);
    WriteSequence(content, d.sequence);
    assert content.fields == HeadFields(d);
    content.WriteBytes(d.payload);
    EncodedSnoc(e, HeadFields(d), Raw(d.payload));
    if |content.data| > 0xFFFF {
      return false, [];
    }
    var header := SubmessageHeader(KIND_DATA, FlagsOf(e), |content.data|);
    ok, bytes := true, EncodeSubmessageHeader(header) + content.data;
    FrameOf(content.data, e);
  }

  lemma FrameOf(content: Bytes, e: Endianness)
    requires |content| <= 0xFFFF
    ensures Frame(KIND_DATA, FlagsOf(e), content) ==
            EncodeSubmessageHeader(SubmessageHeader(KIND_DATA, FlagsOf(e), |content|)) + content
  {
  }

  method DecodeSubmessage(bytes: Bytes) returns (r: Option<DataSubmessage>)
    ensures r == Decode(bytes)
  {
    hide ReadFields;
    var decoded := DecodeSubmessageHeader(bytes);
    if decoded.None? {
      return None;
    }
    var h := decoded.value;
    if !Supported(h) {
      return None;
    }
    var framed := Content(bytes, h, FIXED_CONTENT_SIZE);
    if framed.None? {
      return None;
    }
    var head := ReadHead(h.Endianness(), framed.value);
    if head.None? {
      return None;
    }
    var (extra, octets, d) := head.value;
    if extra != 0 || octets < OCTETS_TO_INLINE_QOS || 4 + octets > |framed.value| || d.sequence <= 0 {
      return None;
    }
    return Some(d.(payload := framed.value[4 + octets..]));
  }

  /** Reads the fixed fields one after the other and stops at the first that is missing. */
  method ReadHead(e: Endianness, content: Bytes) returns (r: Option<(UInt16, UInt16, DataSubmessage)>)
    ensures r.None? ==> HeadOf(e, content).None?
    ensures r.Some? ==> HeadOf(e, content).Some? &&
                        var fields := HeadOf(e, content).value;
                        r.value == (fields[0].v16, fields[1].v16,
                                    DataSubmessage(fields[2].raw, fields[3].raw, SequenceAt(fields, 4), []))
  {
    hide ReadFields;
    var input := new CdrReader(content, e);
    var ok, extra, octets, reader, writer, sequence;
    ok, extra := input.ReadUint16();
    if !ok { ReadStuck(e, content, 0, input.stuck, HEAD_SHAPES); return None; }
    assert Shapes(input.taken) == [AsU16];
    ok, octets := input.ReadUint16();
    if !ok { ReadStuck(e, content, 0, input.stuck, HEAD_SHAPES); return None; }
    assert Shapes(input.taken) == [AsU16, AsU16];
    ok, reader := input.ReadBytes(4);
    if !ok { ReadStuck(e, content, 0, input.stuck, HEAD_SHAPES); return None; }
    assert Shapes(input.taken) == [AsU16, AsU16, AsRaw(4)];
    ok, writer := input.ReadBytes(4);
    if !ok { ReadStuck(e, content, 0, input.stuck, HEAD_SHAPES); return None; }
    assert Shapes(input.taken) == [AsU16, AsU16, AsRaw(4), AsRaw(4)];
    ok, sequence := ReadSequence(input);
    if !ok { ReadStuck(e, content, 0, input.stuck, HEAD_SHAPES); return None; }
    assert Shapes(input.taken) == HEAD_SHAPES;
    return Some((extra, octets, DataSubmessage(reader, writer, sequence, [])));
  }
}
