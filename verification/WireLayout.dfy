/** Where everything stands on the wire: the four submessages, and the parameters and values
    of discovery, byte by byte (sections 9.4.5 and 9.6.2 of DDSI-RTPS 2.5). */
module WireLayout {
  import opened Types
  import opened Cdr
  import opened Message
  import opened SequenceSet
  import opened Submessages
  import opened Reliability
  import Data
  import SerializedPayload

  // ---- A field and its bytes ----

  /** Field f stands at offset `at` of d, its padding behind it. */
  predicate Stands(e: Endianness, d: Bytes, at: nat, f: Field) {
    match f
    case U8(v) => at < |d| && d[at] == v
    case U16(v) => Holds(e, d, at, 2, v)
    case U32(v) => Holds(e, d, at, 4, v)
    case U64(v) => Holds(e, d, at, 8, v)
    case I32(v) => Holds(e, d, at, 4, UnsignedOf32(v))
    case Raw(b) => at + |b| <= |d| && d[at..at + |b|] == b
    case Str(t) =>
      && at + 5 + |t| <= |d| && Holds(e, d, at, 4, |t| + 1)
      && d[at + 4..at + 4 + |t|] == t && d[at + 4 + |t|] == 0
  }

  /** What the alignment of a field puts before it. */
  function Before(offset: nat, f: Field): nat {
    match f
    case U16(_) => Pad(offset, 2)
    case U32(_) => Pad(offset, 4)
    case U64(_) => Pad(offset, 8)
    case I32(_) => Pad(offset, 4)
    case Str(_) => Pad(offset, 4)
    case _ => 0
  }

  lemma AlignedStands(e: Endianness, offset: nat, v: nat, n: nat)
    requires Width(n)
    ensures var c, p := PutAligned(e, offset, v, n), Pad(offset, n);
            c[..p] == Zeros(p) && Holds(e, c, p, n, v)
  {
    hide Digit;
    hide Put;
    PutDigits(e, v, n);
    var c, p := PutAligned(e, offset, v, n), Pad(offset, n);
    assert c[p..p + n] == Put(e, v, n);
  }

  /** A field begins at the next multiple of its size behind zeros, and its bytes are its
      digits in the byte order of the stream. */
  lemma ChunkStands(e: Endianness, offset: nat, f: Field)
    ensures var c, p := Chunk(e, offset, f), Before(offset, f);
            p <= |c| && c[..p] == Zeros(p) && Stands(e, c, p, f)
  {
    hide Put;
    hide IsDigits;
    match f
    case U8(_) =>
    case U16(v) => AlignedStands(e, offset, v, 2);
    case U32(v) => AlignedStands(e, offset, v, 4);
    case U64(v) => AlignedStands(e, offset, v, 8);
    case I32(v) => AlignedStands(e, offset, UnsignedOf32(v), 4);
    case Raw(_) =>
    case Str(t) => StringStands(e, offset, t);
  }

  lemma StringStands(e: Endianness, offset: nat, t: Bytes)
    ensures var c, p := Chunk(e, offset, Str(t)), Pad(offset, 4);
            p <= |c| && c[..p] == Zeros(p) && Stands(e, c, p, Str(t))
  {
    hide IsDigits;
    AlignedStands(e, offset, |t| + 1, 4);
    var c, p := Chunk(e, offset, Str(t)), Pad(offset, 4);
    var head := PutAligned(e, offset, |t| + 1, 4);
    hide PutAligned;
    assert c == head + (t + [0]);
    assert c[..p] == head[..p] && c[p..p + 4] == head[p..p + 4];
    assert c[p + 4..p + 4 + |t|] == t;
  }

  /** What stands in a part of a buffer stands in the buffer. */
  lemma StandsWithin(e: Endianness, d: Bytes, from: nat, part: Bytes, at: nat, f: Field)
    requires from + |part| <= |d| && d[from..from + |part|] == part && Stands(e, part, at, f)
    ensures Stands(e, d, from + at, f)
  {
    hide IsDigits;
    match f
    case U8(_) => assert d[from..from + |part|][at] == d[from + at];
    case U16(_) => SliceWithin(d, from, part, at, 2);
    case U32(_) => SliceWithin(d, from, part, at, 4);
    case U64(_) => SliceWithin(d, from, part, at, 8);
    case I32(_) => SliceWithin(d, from, part, at, 4);
    case Raw(b) => SliceWithin(d, from, part, at, |b|);
    case Str(t) =>
      SliceWithin(d, from, part, at, 4);
      SliceWithin(d, from, part, at + 4, |t|);
      assert d[from..from + |part|][at + 4 + |t|] == d[from + at + 4 + |t|];
  }

  lemma SliceWithin(d: Bytes, from: nat, part: Bytes, at: nat, n: nat)
    requires from + |part| <= |d| && d[from..from + |part|] == part && at + n <= |part|
    ensures d[from + at..from + at + n] == part[at..at + n]
  {
    var whole, slice := d[from..from + |part|], d[from + at..from + at + n];
    forall i | 0 <= i < n ensures slice[i] == part[at..at + n][i] {
      assert whole[at + i] == d[from + at + i];
    }
  }

  /** Field k of a list of 4-byte fields stands 4k bytes behind the first. */
  lemma {:induction false} WordStands(e: Endianness, offset: nat, fields: seq<Field>, k: nat)
    requires offset % 4 == 0 && (forall f | f in fields :: Word(f)) && k < |fields|
    ensures Stands(e, Encoded(e, offset, fields), 4 * k, fields[k])
    decreases |fields|
  {
    hide Stands;
    hide Chunk;
    var c, rest := Chunk(e, offset, fields[0]), Encoded(e, offset + 4, fields[1..]);
    assert fields[0] in fields;
    WordChunk(e, offset, fields[0]);
    var d := Encoded(e, offset, fields);
    assert d == c + rest;
    if k == 0 {
      ChunkStands(e, offset, fields[0]);
      StandsWithin(e, d, 0, c, 0, fields[0]);
    } else {
      WordStands(e, offset + 4, fields[1..], k - 1);
      StandsWithin(e, d, 4, rest, 4 * (k - 1), fields[k]);
    }
  }

  lemma WordChunk(e: Endianness, offset: nat, f: Field)
    requires offset % 4 == 0 && Word(f)
    ensures |Chunk(e, offset, f)| == 4 && Before(offset, f) == 0
  {
  }

  // ---- The frame ----

  /** Kind, flags and length of a submessage; bit 0 of the flags says in which byte order
      everything behind the first two bytes is. */
  lemma FrameLayout(kind: Byte, flags: Byte, content: Bytes, e: Endianness)
    requires |content| < 0x1_0000 && (e.Little? <==> flags as nat % 2 == 1)
    ensures var b := Frame(kind, flags, content);
            && |b| == 4 + |content| && b[0] == kind && b[1] == flags
            && Holds(e, b, 2, 2, |content|) && b[4..] == content
  {
    hide IsDigits;
    FlagBits(flags);
    PutDigits(e, |content|, 2);
    var b := Frame(kind, flags, content);
    assert b[2..4] == Put(e, |content|, 2);
  }

  /** Word k of the content of a frame. */
  lemma FramedWord(kind: Byte, flags: Byte, fields: seq<Field>, e: Endianness, more: Bytes, k: nat)
    requires (forall f | f in fields :: Word(f)) && k < |fields| && (e.Little? <==> flags as nat % 2 == 1)
    requires |Encoded(e, 0, fields) + more| < 0x1_0000
    ensures Stands(e, Frame(kind, flags, Encoded(e, 0, fields) + more), 4 + 4 * k, fields[k])
  {
    hide Stands;
    hide Frame;
    hide Encoded;
    var words := Encoded(e, 0, fields);
    var b := Frame(kind, flags, words + more);
    FrameLayout(kind, flags, words + more, e);
    WordsLength(e, 0, fields);
    WordStands(e, 0, fields, k);
    assert b[4..4 + |words|] == words;
    StandsWithin(e, b, 4, words, 4 * k, fields[k]);
  }

  /** A 64-bit sequence number: the upper half first, each half in the byte order of the
      stream. */
  predicate SequenceStands(e: Endianness, d: Bytes, at: nat, n: int) {
    n > 0 && Holds(e, d, at, 4, n / TWO_32) && Holds(e, d, at + 4, 4, n % TWO_32)
  }

  lemma SequenceHalves(e: Endianness, d: Bytes, at: nat, n: Int64)
    requires n > 0 && Stands(e, d, at, I32(SequenceHigh(n))) && Stands(e, d, at + 4, U32(SequenceLow(n)))
    ensures SequenceStands(e, d, at, n)
  {
    hide Holds;
  }

  // ---- The submessages ----

  lemma HeartbeatLayout(h: Heartbeat, e: Endianness)
    requires h.Encodable() && EncodeHeartbeat(h, e).Some?
    ensures var b := EncodeHeartbeat(h, e).value;
            && |b| == 32 && b[0] == 0x07
            && b[1] as nat ==
               (if e.Little? then 1 else 0) + (if h.final then 2 else 0) + (if h.liveliness then 4 else 0)
            && Holds(e, b, 2, 2, 28)
            && b[4..8] == h.reader && b[8..12] == h.writer
            && SequenceStands(e, b, 12, h.first) && SequenceStands(e, b, 20, h.last) && Holds(e, b, 28, 4, h.count)
  {
    hide Holds;
    hide Frame;
    hide Encoded;
    hide SequenceHigh;
    hide SequenceLow;
    var fields, flags := HeartbeatFields(h), HeartbeatFlags(h, e);
    var content := Encoded(e, 0, fields);
    WordsLength(e, 0, fields);
    FrameLayout(KIND_HEARTBEAT, flags, content, e);
    assert content + [] == content;
    forall k | 0 <= k < 7 ensures Stands(e, Frame(KIND_HEARTBEAT, flags, content), 4 + 4 * k, fields[k]) {
      FramedWord(KIND_HEARTBEAT, flags, fields, e, [], k);
    }
    var b := Frame(KIND_HEARTBEAT, flags, content);
    assert Stands(e, b, 4, fields[0]) && Stands(e, b, 8, fields[1]);
    assert Stands(e, b, 12, fields[2]) && Stands(e, b, 16, fields[3]);
    assert Stands(e, b, 20, fields[4]) && Stands(e, b, 24, fields[5]) && Stands(e, b, 28, fields[6]);
    SequenceHalves(e, b, 12, h.first);
    SequenceHalves(e, b, 20, h.last);
  }

  /** A set at offset `at`: base, number of bits, and the words of the bitmap. */
  predicate SetStands(e: Endianness, d: Bytes, at: nat, s: SequenceNumberSet) {
    && SequenceStands(e, d, at, s.base) && Holds(e, d, at + 8, 4, s.numBits)
    && forall w | 0 <= w < |s.bitmap| :: Holds(e, d, at + 12 + 4 * w, 4, s.bitmap[w])
  }

  lemma SetWords(e: Endianness, d: Bytes, at: nat, s: SequenceNumberSet)
    requires s.base > 0
    requires forall k | 0 <= k < 3 + |s.bitmap| :: Stands(e, d, at + 4 * k, SetFields(s)[k])
    ensures SetStands(e, d, at, s)
  {
    hide Holds;
    hide SequenceHigh;
    hide SequenceLow;
    var fields := SetFields(s);
    assert Stands(e, d, at + 4 * 0, fields[0]) && Stands(e, d, at + 4 * 1, fields[1]);
    assert Stands(e, d, at + 4 * 2, fields[2]);
    SequenceHalves(e, d, at, s.base);
    forall w | 0 <= w < |s.bitmap| ensures Holds(e, d, at + 12 + 4 * w, 4, s.bitmap[w]) {
      assert fields[3 + w] == U32(s.bitmap[w]);
      assert Stands(e, d, at + 4 * (3 + w), fields[3 + w]);
    }
  }

  lemma AckNackLayout(a: AckNack, e: Endianness)
    requires a.Encodable() && EncodeAckNack(a, e).Some?
    ensures var b, w := EncodeAckNack(a, e).value, |a.state.bitmap|;
            && |b| == 28 + 4 * w && b[0] == 0x06
            && b[1] as nat == (if e.Little? then 1 else 0) + (if a.final then 2 else 0)
            && Holds(e, b, 2, 2, 24 + 4 * w)
            && b[4..8] == a.reader && b[8..12] == a.writer
            && SetStands(e, b, 12, a.state) && Holds(e, b, 24 + 4 * w, 4, a.count)
  {
    hide Holds;
    hide Frame;
    hide Encoded;
    hide SetStands;
    hide SequenceNumberSet.Validated;
    BitmapSize(a.state);
    var fields, flags := AckNackFields(a), AckNackFlags(a, e);
    var content, w := Encoded(e, 0, fields), |a.state.bitmap|;
    WordsLength(e, 0, fields);
    FrameLayout(KIND_ACKNACK, flags, content, e);
    assert content + [] == content;
    var b := Frame(KIND_ACKNACK, flags, content);
    forall k | 0 <= k < 6 + w ensures Stands(e, b, 4 + 4 * k, fields[k]) {
      FramedWord(KIND_ACKNACK, flags, fields, e, [], k);
    }
    assert Stands(e, b, 4, fields[0]) && Stands(e, b, 8, fields[1]);
    assert Stands(e, b, 4 + 4 * (5 + w), fields[5 + w]);
    forall k | 0 <= k < 3 + w ensures Stands(e, b, 12 + 4 * k, SetFields(a.state)[k]) {
      assert Stands(e, b, 4 + 4 * (2 + k), fields[2 + k]);
    }
    ValidBase(a.state);
    SetWords(e, b, 12, a.state);
  }

  lemma ValidBase(s: SequenceNumberSet)
    requires s.Validated()
    ensures s.base > 0
  {
  }

  lemma GapLayout(g: Gap, e: Endianness)
    requires g.Encodable() && EncodeGap(g, e).Some?
    ensures var b, w := EncodeGap(g, e).value, |g.list.bitmap|;
            && |b| == 32 + 4 * w && b[0] == 0x08 && b[1] as nat == (if e.Little? then 1 else 0)
            && Holds(e, b, 2, 2, 28 + 4 * w)
            && b[4..8] == g.reader && b[8..12] == g.writer
            && SequenceStands(e, b, 12, g.start) && SetStands(e, b, 20, g.list)
  {
    hide Holds;
    hide Frame;
    hide Encoded;
    hide SetStands;
    hide SequenceHigh;
    hide SequenceLow;
    hide SequenceNumberSet.Validated;
    BitmapSize(g.list);
    var fields, flags := GapFields(g), GapFlags(e);
    var content, w := Encoded(e, 0, fields), |g.list.bitmap|;
    WordsLength(e, 0, fields);
    FrameLayout(KIND_GAP, flags, content, e);
    assert content + [] == content;
    var b := Frame(KIND_GAP, flags, content);
    forall k | 0 <= k < 7 + w ensures Stands(e, b, 4 + 4 * k, fields[k]) {
      FramedWord(KIND_GAP, flags, fields, e, [], k);
    }
    assert Stands(e, b, 4, fields[0]) && Stands(e, b, 8, fields[1]);
    assert Stands(e, b, 12, fields[2]) && Stands(e, b, 16, fields[3]);
    SequenceHalves(e, b, 12, g.start);
    forall k | 0 <= k < 3 + w ensures Stands(e, b, 20 + 4 * k, SetFields(g.list)[k]) {
      assert Stands(e, b, 4 + 4 * (4 + k), fields[4 + k]);
    }
    ValidBase(g.list);
    SetWords(e, b, 20, g.list);
  }

  lemma DataLayout(d: Data.DataSubmessage, e: Endianness)
    requires Data.Encodable(d) && Data.Encode(d, e).Some?
    ensures var b, n := Data.Encode(d, e).value, |d.payload|;
            && |b| == 24 + n && b[0] == 0x15 && b[1] as nat == (if e.Little? then 5 else 4)
            && Holds(e, b, 2, 2, 20 + n)
            && Holds(e, b, 4, 2, 0) && Holds(e, b, 6, 2, 16)
            && b[8..12] == d.reader && b[12..16] == d.writer
            && SequenceStands(e, b, 16, d.sequence) && b[24..] == d.payload
  {
    hide Holds;
    hide Frame;
    hide Encoded;
    hide SequenceHigh;
    hide SequenceLow;
    var fields := Data.HeadFields(d);
    var head := Encoded(e, 0, fields);
    Data.HeadLength(e, d);
    FrameLayout(KIND_DATA, Data.FlagsOf(e), head + d.payload, e);
    var b := Frame(KIND_DATA, Data.FlagsOf(e), head + d.payload);
    DataHead(d, e);
    assert b[4..4 + |head|] == head && b[24..] == d.payload;
    StandsWithin(e, b, 4, head, 0, fields[0]);
    StandsWithin(e, b, 4, head, 2, fields[1]);
    StandsWithin(e, b, 4, head, 4, fields[2]);
    StandsWithin(e, b, 4, head, 8, fields[3]);
    StandsWithin(e, b, 4, head, 12, fields[4]);
    StandsWithin(e, b, 4, head, 16, fields[5]);
    SequenceHalves(e, b, 16, d.sequence);
  }

  lemma DataHead(d: Data.DataSubmessage, e: Endianness)
    ensures var fields := Data.HeadFields(d);
            var head := Encoded(e, 0, fields);
            && Stands(e, head, 0, fields[0]) && Stands(e, head, 2, fields[1]) && Stands(e, head, 4, fields[2])
            && Stands(e, head, 8, fields[3]) && Stands(e, head, 12, fields[4]) && Stands(e, head, 16, fields[5])
  {
    hide Stands;
    hide Chunk;
    hide Encoded;
    hide SequenceFields;
    var words := [Raw(d.reader), Raw(d.writer)] + SequenceFields(d.sequence);
    var fields := Data.HeadFields(d);
    DataWords(d);
    var head := Encoded(e, 0, fields);
    var one, two := U16(0), U16(Data.OCTETS_TO_INLINE_QOS);
    EncodedCons(e, 0, one, [two] + words);
    Data.ChunkU16(e, 0);
    Data.ChunkU16(e, Data.OCTETS_TO_INLINE_QOS);
    EncodedCons(e, 2, two, words);
    WordsLength(e, 4, words);
    var rest := Encoded(e, 4, words);
    assert head == Chunk(e, 0, one) + (Chunk(e, 2, two) + rest);
    ChunkStands(e, 0, one);
    ChunkStands(e, 2, two);
    StandsWithin(e, head, 0, Chunk(e, 0, one), 0, one);
    assert head[2..4] == Chunk(e, 2, two) && head[4..20] == rest;
    StandsWithin(e, head, 2, Chunk(e, 2, two), 0, two);
    WordStands(e, 4, words, 0);
    WordStands(e, 4, words, 1);
    WordStands(e, 4, words, 2);
    WordStands(e, 4, words, 3);
    StandsWithin(e, head, 4, rest, 0, words[0]);
    StandsWithin(e, head, 4, rest, 4, words[1]);
    StandsWithin(e, head, 4, rest, 8, words[2]);
    StandsWithin(e, head, 4, rest, 12, words[3]);
  }

  lemma DataWords(d: Data.DataSubmessage)
    ensures var words := [Raw(d.reader), Raw(d.writer)] + SequenceFields(d.sequence);
            && (forall f | f in words :: Word(f)) && |words| == 4
            && Data.HeadFields(d) == [U16(0)] + ([U16(Data.OCTETS_TO_INLINE_QOS)] + words)
  {
  }

  /** The header of a message: the letters RTPS, version, vendor and prefix. */
  lemma MessageHeaderLayout(h: MessageHeader)
    ensures var b := EncodeMessageHeader(h);
            && b[0] == 0x52 && b[1] == 0x54 && b[2] == 0x50 && b[3] == 0x53
            && b[4] == h.major && b[5] == h.minor && b[6..8] == h.vendor && b[8..20] == h.prefix
  {
    var b := EncodeMessageHeader(h);
    assert b[..4] == PROTOCOL_MAGIC && b[4..6] == [h.major, h.minor];
  }

  /** A string payload: encapsulation, the length with the terminating zero, the text. */
  lemma PayloadLayout(value: Bytes, e: Endianness)
    requires SerializedPayload.Serialize(value, e).Some?
    ensures var b, n := SerializedPayload.Serialize(value, e).value, |value|;
            && |b| == 9 + n && b[..4] == [0, if e.Little? then 1 else 0, 0, 0]
            && Holds(e, b, 4, 4, n + 1) && b[8..8 + n] == value && b[8 + n] == 0
  {
    hide Holds;
    hide PutAligned;
    var c := Chunk(e, 0, Str(value));
    SerializedPayload.EncodedOne(e, Str(value));
    var b := SerializedPayload.Serialize(value, e).value;
    StringStands(e, 0, value);
    assert b[4..4 + |c|] == c;
    StandsWithin(e, b, 4, c, 0, Str(value));
  }
}
