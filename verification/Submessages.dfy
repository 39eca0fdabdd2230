/** What the four submessage codecs share: entity ids and sequence numbers as CDR
    fields, and the frame of header and content. */
module Submessages {
  import opened Types
  import opened Seqs
  import opened Cdr
  import opened Message
  import opened SequenceSet
  import opened CdrStreams

  /** A 4-byte field: one that keeps a stream aligned to 4 aligned. */
  predicate Word(f: Field) {
    f.U32? || f.I32? || (f.Raw? && |f.raw| == 4)
  }

  lemma {:induction false} WordsLength(e: Endianness, offset: nat, fields: seq<Field>)
    requires offset % 4 == 0 && forall f | f in fields :: Word(f)
    ensures |Encoded(e, offset, fields)| == 4 * |fields|
    decreases |fields|
  {
    if fields != [] {
      assert fields[0] in fields;
      WordsLength(e, offset + 4, fields[1..]);
    }
  }

  function SequenceFields(n: Int64): seq<Field> {
    [I32(SequenceHigh(n)), U32(SequenceLow(n))]
  }

  /** Reads a fixed list of fields at `offset`. */
  function ReadSome(e: Endianness, d: Bytes, offset: nat, shapes: seq<Shape>): (r: Option<(seq<Field>, nat)>)
    requires offset <= |d|
    ensures r.Some? ==> |r.value.0| == |shapes| && offset <= r.value.1 <= |d|
    ensures r.Some? ==> forall i | 0 <= i < |shapes| :: ShapeOf(r.value.0[i]) == shapes[i]
  {
    var (fields, end) :- ReadFields(e, d, offset, shapes);
    ShapeAt(fields, shapes);
    Some((fields, end))
  }

  lemma ShapeAt(fields: seq<Field>, shapes: seq<Shape>)
    requires Shapes(fields) == shapes
    ensures |fields| == |shapes| && forall i | 0 <= i < |fields| :: ShapeOf(fields[i]) == shapes[i]
  {
    forall i | 0 <= i < |fields| ensures ShapeOf(fields[i]) == shapes[i] {
      assert Shapes(fields)[i] == ShapeOf(fields[i]);
    }
  }

  function SequenceAt(fields: seq<Field>, i: nat): Int64
    requires i + 1 < |fields| && fields[i].I32? && fields[i + 1].U32?
  {
    MakeSequence(fields[i].i32, fields[i + 1].v32)
  }

  function Frame(kind: Byte, flags: Byte, content: Bytes): Bytes {
    EncodeSubmessageHeader(SubmessageHeader(kind, flags, |content| % 0x1_0000)) + content
  }

  /** A length of zero means "to the end of the message". */
  function Content(bytes: Bytes, h: SubmessageHeader, minimum: nat): Option<Bytes>
    requires |bytes| >= SUBMESSAGE_HEADER_SIZE
  {
    var size := if h.length == 0 then |bytes| - SUBMESSAGE_HEADER_SIZE else h.length;
    if size < minimum || |bytes| < SUBMESSAGE_HEADER_SIZE + size then None
    else Some(bytes[SUBMESSAGE_HEADER_SIZE..SUBMESSAGE_HEADER_SIZE + size])
  }

  lemma FrameRoundTrip(kind: Byte, flags: Byte, content: Bytes, tail: Bytes, minimum: nat)
    requires minimum <= |content| && 0 < |content| < 0x1_0000
    ensures var bytes := Frame(kind, flags, content) + tail;
            var h := SubmessageHeader(kind, flags, |content|);
            DecodeSubmessageHeader(bytes) == Some(h) && Content(bytes, h, minimum) == Some(content)
  {
    hide EncodeSubmessageHeader;
    hide DecodeSubmessageHeader;
    var h := SubmessageHeader(kind, flags, |content|);
    var bytes := Frame(kind, flags, content) + tail;
    assert bytes == EncodeSubmessageHeader(h) + (content + tail);
    SubmessageHeaderRoundTrip(h, content + tail);
    assert bytes[4..4 + |content|] == content;
  }

  // ---- A SequenceNumberSet as fields ----

  function WordFields(bitmap: seq<UInt32>): seq<Field> {
    seq(|bitmap|, i requires 0 <= i < |bitmap| => U32(bitmap[i]))
  }

  function SetFields(s: SequenceNumberSet): seq<Field> {
    SequenceFields(s.base) + [U32(s.numBits)] + WordFields(s.bitmap)
  }

  const SET_HEAD: seq<Shape> := [AsI32, AsU32, AsU32]

  function WordShapes(n: nat): seq<Shape> {
    seq(n, _ => AsU32)
  }

  /** Reads a set at `offset`. How many words it has is known only after its head. */
  function ReadSet(e: Endianness, d: Bytes, offset: nat): (r: Option<(SequenceNumberSet, nat)>)
    requires offset <= |d|
    ensures r.Some? ==> r.value.0.Validated() && offset <= r.value.1 <= |d|
  {
    var (head, o) :- ReadSome(e, d, offset, SET_HEAD);
    var base, numBits := SequenceAt(head, 0), head[2].v32;
    if base <= 0 || numBits > MAX_BITS then None
    else
      var (words, end) :- ReadSome(e, d, o, WordShapes(RequiredWords(numBits)));
      var s := SequenceNumberSet(base, numBits, Words(words));
      if s.Validated() then Some((s, end)) else None
  }

  function Words(fields: seq<Field>): (r: seq<UInt32>)
    requires forall i | 0 <= i < |fields| :: fields[i].U32?
    ensures |r| == |fields|
  {
    seq(|fields|, i requires 0 <= i < |fields| => fields[i].v32)
  }

  lemma WordsOfFields(bitmap: seq<UInt32>)
    ensures Shapes(WordFields(bitmap)) == WordShapes(|bitmap|)
    ensures Words(WordFields(bitmap)) == bitmap
  {
    assert forall i | 0 <= i < |bitmap| :: WordFields(bitmap)[i] == U32(bitmap[i]);
  }

  /** A validated set that stands at `offset` is read back. */
  lemma SetRoundTrip(e: Endianness, d: Bytes, offset: nat, s: SequenceNumberSet, end: nat)
    requires s.Validated()
    requires end == offset + |Encoded(e, offset, SetFields(s))| <= |d|
    requires d[offset..end] == Encoded(e, offset, SetFields(s))
    ensures ReadSet(e, d, offset) == Some((s, end))
  {
    hide ReadFields;
    hide Encoded;
    var head := SequenceFields(s.base) + [U32(s.numBits)];
    var o := offset + |Encoded(e, offset, head)|;
    EncodedAppend(e, offset, head, WordFields(s.bitmap));
    SplitSlice(d, offset, end, Encoded(e, offset, head), Encoded(e, o, WordFields(s.bitmap)));
    FieldsRoundTrip(e, d, offset, head, o);
    assert Shapes(head) == SET_HEAD;
    FieldsRoundTrip(e, d, o, WordFields(s.bitmap), end);
    WordsOfFields(s.bitmap);
    SplitJoin(s.base, 0, 0);
  }

  // ---- The same pieces through the streams ----

  method WriteSequence(writer: CdrWriter, n: Int64)
    requires writer.Valid()
    modifies writer
    ensures writer.Valid() && writer.fields == old(writer.fields) + SequenceFields(n)
  {
    writer.WriteInt32(SequenceHigh(n));
    writer.WriteUint32(SequenceLow(n));
  }

  /** Fails when either half cannot be read. */
  method ReadSequence(reader: CdrReader) returns (ok: bool, n: Int64)
    requires reader.Valid() && reader.valid
    modifies reader
    ensures reader.Valid() && ok == reader.valid && reader.start == old(reader.start)
    ensures ok ==> exists high, low :: n == MakeSequence(high, low) &&
                                       reader.taken == old(reader.taken) + [I32(high), U32(low)]
    ensures !ok ==> reader.stuck <= Shapes(old(reader.taken)) + [AsI32, AsU32]
  {
    n := 0;
    var high, low;
    ok, high := reader.ReadInt32();
    if !ok { return; }
    assert Shapes(reader.taken) == Shapes(old(reader.taken)) + [AsI32];
    ok, low := reader.ReadUint32();
    if !ok { return; }
    n := MakeSequence(high, low);
    assert reader.taken == old(reader.taken) + [I32(high), U32(low)];
  }

  method WriteSet(writer: CdrWriter, s: SequenceNumberSet)
    requires writer.Valid()
    modifies writer
    ensures writer.Valid() && writer.fields == old(writer.fields) + SetFields(s)
  {
    WriteSequence(writer, s.base);
    writer.WriteUint32(s.numBits);
    for i := 0 to |s.bitmap|
      invariant writer.Valid()
      invariant writer.fields == old(writer.fields) + SequenceFields(s.base) + [U32(s.numBits)] +
                  WordFields(s.bitmap)[..i]
    {
      writer.WriteUint32(s.bitmap[i]);
    }
  }

  /** Reads a set where the reader stands. */
  method ReadSetFrom(reader: CdrReader) returns (ok: bool, s: SequenceNumberSet)
    requires reader.Valid() && reader.valid
    modifies reader
    ensures reader.Valid() && s.Validated() && (ok ==> reader.valid)
    ensures ReadSet(reader.endianness, reader.data, old(reader.offset)) ==
            if ok then Some((s, reader.offset)) else None
  {
    hide ReadFields;
    s := SequenceNumberSet(1, 0, []);
    var base, numBits;
    reader.Mark();
    ok, base := ReadSequence(reader);
    if !ok {
      ReadStuck(reader.endianness, reader.data, reader.start, reader.stuck, SET_HEAD);
      return;
    }
    assert Shapes(reader.taken) == [AsI32, AsU32];
    ok, numBits := reader.ReadUint32();
    if !ok {
      ReadStuck(reader.endianness, reader.data, reader.start, reader.stuck, SET_HEAD);
      return;
    }
    assert Shapes(reader.taken) == SET_HEAD;
    if base <= 0 || numBits > MAX_BITS {
      ok := false;
      return;
    }
    var bitmap: seq<UInt32>;
    ok, bitmap := ReadWords(reader, RequiredWords(numBits));
    if ok {
      WordsOfFields(bitmap);
      var candidate := SequenceNumberSet(base, numBits, bitmap);
      ok := candidate.Validated();
      if ok {
        s := candidate;
      }
    }
  }

  method ReadWords(reader: CdrReader, count: nat) returns (ok: bool, bitmap: seq<UInt32>)
    requires reader.Valid() && reader.valid
    modifies reader
    ensures reader.Valid() && ok == reader.valid && (ok ==> |bitmap| == count)
    ensures ReadFields(reader.endianness, reader.data, old(reader.offset), WordShapes(count)) ==
            if ok then Some((WordFields(bitmap), reader.offset)) else None
  {
    hide ReadFields;
    reader.Mark();
    bitmap := [];
    for index := 0 to count
      invariant reader.Valid() && reader.valid && reader.start == old(reader.offset)
      invariant |bitmap| == index && reader.taken == WordFields(bitmap)
    {
      var word;
      ok, word := reader.ReadUint32();
      if !ok {
        assert Shapes(WordFields(bitmap)) + [AsU32] == WordShapes(index + 1) <= WordShapes(count);
        ReadStuck(reader.endianness, reader.data, reader.start, reader.stuck, WordShapes(count));
        return;
      }
      bitmap := bitmap + [word];
    }
    WordsOfFields(bitmap);
    ok := true;
  }
}
