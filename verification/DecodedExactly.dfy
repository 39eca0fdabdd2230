/** What the decoders of the four submessages accept: exactly the bytes that stand for a
    submessage, and nothing else. */
module DecodedExactly {
  import opened Types
  import opened Bits
  import opened Cdr
  import opened Message
  import opened SequenceSet
  import opened Submessages
  import opened Reliability
  import opened Reception
  import opened Incoming
  import opened AckMatching
  import opened WireLayout
  import Data

  // ---- Flags ----

  lemma {:induction false} AndMask(x: nat, m: nat)
    requires x < Pow2(m)
    ensures And(x, Pow2(m) - 1) == x
  {
    if m > 0 {
      assert (Pow2(m) - 1) / 2 == Pow2(m - 1) - 1 && (Pow2(m) - 1) % 2 == 1;
      AndMask(x / 2, m - 1);
    }
  }

  lemma AndTwice(x: nat, b: nat)
    ensures And(x, 2 * b) == 2 * And(x / 2, b)
  {
    assert 2 * b / 2 == b && 2 * b % 2 == 0;
  }

  /** None of the flags above 1, 2 or 4. */
  lemma FlagsBelow(flags: Byte)
    ensures Test(flags, 0xF8) <==> flags >= 8
    ensures Test(flags, 0xFC) <==> flags >= 4
    ensures Test(flags, 0xFE) <==> flags >= 2
  {
    hide And;
    var w := flags as nat;
    assert Pow2(5) == 32 && Pow2(6) == 64 && Pow2(7) == 128;
    AndTwice(w, 0x7F);
    AndMask(w / 2, 7);
    AndTwice(w, 0x7E);
    AndTwice(w / 2, 0x3F);
    AndMask(w / 2 / 2, 6);
    AndTwice(w, 0x7C);
    AndTwice(w / 2, 0x3E);
    AndTwice(w / 2 / 2, 0x1F);
    AndMask(w / 2 / 2 / 2, 5);
  }

  // ---- One value only ----

  lemma HoldsOne(e: Endianness, d: Bytes, at: nat, n: nat, v: nat, w: nat)
    requires Holds(e, d, at, n, v) && Holds(e, d, at, n, w) && v < Pow256(n) && w < Pow256(n)
    ensures v == w
  {
    DigitsPut(e, d[at..at + n], v);
    DigitsPut(e, d[at..at + n], w);
    IntegerRoundTrip(e, v, n);
    IntegerRoundTrip(e, w, n);
  }

  predicate WordShape(s: Shape) {
    s.AsU32? || s.AsI32? || s == AsRaw(4)
  }

  /** A run of 4-byte fields can be read exactly when there is room for it. */
  lemma {:induction false} ReadWords(e: Endianness, d: Bytes, offset: nat, shapes: seq<Shape>)
    requires offset % 4 == 0 && offset <= |d| && forall s | s in shapes :: WordShape(s)
    ensures ReadFields(e, d, offset, shapes).Some? <==> offset + 4 * |shapes| <= |d|
    ensures ReadFields(e, d, offset, shapes).Some? ==>
              var (fields, end) := ReadFields(e, d, offset, shapes).value;
              && end == offset + 4 * |shapes|
              && forall k | 0 <= k < |fields| :: Stands(e, d, offset + 4 * k, fields[k])
    decreases |shapes|
  {
    hide Stands;
    hide ReadField;
    hide WordShape;
    if shapes != [] {
      assert shapes[0] in shapes;
      ReadWord(e, d, offset, shapes[0]);
      if offset + 4 <= |d| {
        ReadWords(e, d, offset + 4, shapes[1..]);
        var first := ReadField(e, d, offset, shapes[0]).value.0;
        if ReadFields(e, d, offset, shapes).Some? {
          var (fields, end) := ReadFields(e, d, offset, shapes).value;
          var (rest, _) := ReadFields(e, d, offset + 4, shapes[1..]).value;
          assert fields == [first] + rest;
          forall k | 0 <= k < |fields| ensures Stands(e, d, offset + 4 * k, fields[k]) {
            if k > 0 {
              assert fields[k] == rest[k - 1];
              assert Stands(e, d, offset + 4 + 4 * (k - 1), rest[k - 1]);
            }
          }
        }
      }
    }
  }

  lemma ReadWord(e: Endianness, d: Bytes, offset: nat, s: Shape)
    requires offset % 4 == 0 && offset <= |d| && WordShape(s)
    ensures ReadField(e, d, offset, s).Some? <==> offset + 4 <= |d|
    ensures offset + 4 <= |d| ==>
              var (f, o) := ReadField(e, d, offset, s).value;
              o == offset + 4 && Stands(e, d, offset, f)
  {
    hide Digit;
    Pow256Values();
    if offset + 4 <= |d| {
      GetDigits(e, d[offset..offset + 4]);
    }
  }

  // ---- The frame ----

  /** The byte order that bit 0 of the flags announces. */
  function OrderOf(bytes: Bytes): Endianness
    requires |bytes| >= 2
  {
    if bytes[1] as nat % 2 == 1 then Little else Big
  }

  /** A submessage of this kind whose content is `size` bytes long: the announced length, or
      what is left of the message if that is zero. */
  predicate Sized(bytes: Bytes, kind: Byte, size: nat) {
    && |bytes| >= 4 && bytes[0] == kind && 4 + size <= |bytes|
    && exists length: UInt16 ::
         Holds(OrderOf(bytes), bytes, 2, 2, length) && size == if length == 0 then |bytes| - 4 else length
  }

  /** ... without flags from `bound` on. */
  predicate Framed(bytes: Bytes, kind: Byte, bound: Byte, size: nat) {
    Sized(bytes, kind, size) && bytes[1] < bound
  }

  lemma HeaderDecoded(bytes: Bytes)
    requires |bytes| >= 4
    ensures var h := DecodeSubmessageHeader(bytes);
            && h.Some? && h.value.kind == bytes[0] && h.value.flags == bytes[1]
            && h.value.Endianness() == OrderOf(bytes)
            && Holds(OrderOf(bytes), bytes, 2, 2, h.value.length)
            && forall length: UInt16 | Holds(OrderOf(bytes), bytes, 2, 2, length) :: length == h.value.length
  {
    hide IsDigits;
    FlagBits(bytes[1]);
    Pow256Values();
    GetDigits(OrderOf(bytes), bytes[2..4]);
    var h := DecodeSubmessageHeader(bytes).value;
    forall length: UInt16 | Holds(OrderOf(bytes), bytes, 2, 2, length) ensures length == h.length {
      HoldsOne(OrderOf(bytes), bytes, 2, 2, length, h.length);
    }
  }

  /** The header checks let through exactly the framed submessages. */
  lemma OpenedExactly(bytes: Bytes, kind: Byte, unsupported: Byte, bound: Byte, minimum: nat)
    requires (bound == 8 && unsupported == 0xF8) || (bound == 4 && unsupported == 0xFC) ||
             (bound == 2 && unsupported == 0xFE)
    ensures forall size: nat | size >= minimum && Framed(bytes, kind, bound, size) ::
              Open(bytes, kind, unsupported, minimum).Some? &&
              |Open(bytes, kind, unsupported, minimum).value.1| == size
    ensures Open(bytes, kind, unsupported, minimum).Some? ==>
              var (h, content) := Open(bytes, kind, unsupported, minimum).value;
              && h.flags == bytes[1] && h.Endianness() == OrderOf(bytes)
              && |content| >= minimum && Framed(bytes, kind, bound, |content|) && |bytes| >= 4 + |content|
              && content == bytes[4..4 + |content|]
  {
    hide Test;
    hide Holds;
    hide SubmessageHeader.Endianness;
    hide DecodeSubmessageHeader;
    if |bytes| >= 4 {
      HeaderDecoded(bytes);
      FlagsBelow(bytes[1]);
      var h := DecodeSubmessageHeader(bytes).value;
      forall size: nat | size >= minimum && Framed(bytes, kind, bound, size)
        ensures size == if h.length == 0 then |bytes| - 4 else h.length
      {
        var length: UInt16 :| Holds(OrderOf(bytes), bytes, 2, 2, length) &&
                              size == if length == 0 then |bytes| - 4 else length;
      }
    } else {
      TooShort(bytes);
    }
  }

  lemma TooShort(bytes: Bytes)
    requires |bytes| < 4
    ensures DecodeSubmessageHeader(bytes).None?
  {
  }

  // ---- The contents ----

  lemma IdsExactly(e: Endianness, content: Bytes)
    requires |content| >= 8
    ensures ReadIds(e, content) == Some((content[0..4], content[4..8], 8))
  {
    hide ReadFields;
    ReadWords(e, content, 0, ID_SHAPES);
    var fields := ReadSome(e, content, 0, ID_SHAPES).value.0;
    assert Stands(e, content, 0 + 4 * 0, fields[0]) && Stands(e, content, 0 + 4 * 1, fields[1]);
    assert ShapeOf(fields[0]) == ID_SHAPES[0] && ShapeOf(fields[1]) == ID_SHAPES[1];
  }

  /** Two words are read as one sequence number. */
  lemma SequenceRead(e: Endianness, d: Bytes, at: nat, fields: seq<Field>, i: nat)
    requires i + 1 < |fields| && fields[i].I32? && fields[i + 1].U32?
    requires Stands(e, d, at, fields[i]) && Stands(e, d, at + 4, fields[i + 1])
    ensures SequenceAt(fields, i) > 0 ==> SequenceStands(e, d, at, SequenceAt(fields, i))
    ensures forall n: Int64 | SequenceStands(e, d, at, n) :: n == SequenceAt(fields, i)
  {
    hide Holds;
    var high, low := fields[i].i32, fields[i + 1].v32;
    var m := SequenceAt(fields, i);
    SplitJoin(0, high, low);
    if m > 0 { SequenceHalves(e, d, at, m); }
    forall n: Int64 | SequenceStands(e, d, at, n) ensures n == m {
      Pow256Values();
      HoldsOne(e, d, at, 4, n / TWO_32, UnsignedOf32(high));
      HoldsOne(e, d, at + 4, 4, n % TWO_32, low);
    }
  }

  /** The bytes are a HEARTBEAT submessage that says h. */
  predicate HeartbeatStands(bytes: Bytes, size: nat, h: Heartbeat) {
    && size >= 28 && Framed(bytes, 0x07, 8, size) && h.Encodable()
    && bytes[4..8] == h.reader && bytes[8..12] == h.writer
    && SequenceStands(OrderOf(bytes), bytes, 12, h.first) && SequenceStands(OrderOf(bytes), bytes, 20, h.last)
    && Holds(OrderOf(bytes), bytes, 28, 4, h.count)
    && (h.final <==> bytes[1] as nat / 2 % 2 == 1) && (h.liveliness <==> bytes[1] as nat / 4 % 2 == 1)
  }

  /** The decoder returns h exactly from the bytes that stand for it. */
  lemma HeartbeatExactly(bytes: Bytes, h: Heartbeat)
    ensures DecodeHeartbeat(bytes) == Some(h) <==> exists size: nat :: HeartbeatStands(bytes, size, h)
  {
    hide Framed;
    hide Open;
    hide HeartbeatContent;
    hide Holds;
    OpenedExactly(bytes, KIND_HEARTBEAT, 0xF8, 8, 28);
    var frame := Open(bytes, KIND_HEARTBEAT, 0xF8, 28);
    if frame.Some? {
      var (header, content) := frame.value;
      HeartbeatContentExactly(bytes, header, content, h);
      assert DecodeHeartbeat(bytes) == Some(h) ==> HeartbeatStands(bytes, |content|, h);
    }
  }

  lemma HeartbeatContentExactly(bytes: Bytes, header: SubmessageHeader, content: Bytes, h: Heartbeat)
    requires |content| >= 28 && |bytes| >= 4 + |content| && content == bytes[4..4 + |content|]
    requires header.flags == bytes[1] && header.Endianness() == OrderOf(bytes)
    ensures HeartbeatContent(header, content) == Some(h) <==>
            && h.Encodable()
            && bytes[4..8] == h.reader && bytes[8..12] == h.writer
            && SequenceStands(OrderOf(bytes), bytes, 12, h.first) && SequenceStands(OrderOf(bytes), bytes, 20, h.last)
            && Holds(OrderOf(bytes), bytes, 28, 4, h.count)
            && (h.final <==> bytes[1] as nat / 2 % 2 == 1) && (h.liveliness <==> bytes[1] as nat / 4 % 2 == 1)
  {
    hide Holds;
    hide ReadFields;
    hide ReadIds;
    hide Test;
    hide SequenceStands;
    hide SubmessageHeader.Endianness;
    var e := OrderOf(bytes);
    FlagBits(bytes[1]);
    IdsExactly(e, content);
    ReadWords(e, content, 8, HEARTBEAT_TAIL);
    var fields := ReadSome(e, content, 8, HEARTBEAT_TAIL).value.0;
    forall k | 0 <= k < 5 ensures Stands(e, bytes, 12 + 4 * k, fields[k]) && ShapeOf(fields[k]) == HEARTBEAT_TAIL[k] {
      assert Stands(e, content, 8 + 4 * k, fields[k]);
      StandsWithin(e, bytes, 4, content, 8 + 4 * k, fields[k]);
    }
    assert Stands(e, bytes, 12 + 4 * 0, fields[0]) && Stands(e, bytes, 12 + 4 * 1, fields[1]);
    assert Stands(e, bytes, 12 + 4 * 2, fields[2]) && Stands(e, bytes, 12 + 4 * 3, fields[3]);
    assert Stands(e, bytes, 12 + 4 * 4, fields[4]);
    SequenceRead(e, bytes, 12, fields, 0);
    SequenceRead(e, bytes, 20, fields, 2);
    CountRead(e, bytes, 28, fields[4]);
    SliceWithin(bytes, 4, content, 0, 4);
    SliceWithin(bytes, 4, content, 4, 4);
  }

  lemma CountRead(e: Endianness, d: Bytes, at: nat, f: Field)
    requires f.I32? && Stands(e, d, at, f)
    ensures f.i32 > 0 ==> Holds(e, d, at, 4, f.i32)
    ensures forall n: Int32 | n > 0 && Holds(e, d, at, 4, n) :: n == f.i32
  {
    hide Holds;
    Pow256Values();
    forall n: Int32 | n > 0 && Holds(e, d, at, 4, n) ensures n == f.i32 {
      HoldsOne(e, d, at, 4, n, UnsignedOf32(f.i32));
    }
  }

  // ---- ACKNACK and GAP ----

  /** A set is read exactly where one stands that is valid. */
  lemma SetExactly(e: Endianness, d: Bytes, offset: nat, s: SequenceNumberSet)
    requires offset % 4 == 0 && offset <= |d|
    ensures ReadSet(e, d, offset) == Some((s, offset + 12 + 4 * |s.bitmap|)) <==>
            offset + 12 + 4 * |s.bitmap| <= |d| && s.Validated() && SetStands(e, d, offset, s)
    ensures ReadSet(e, d, offset).Some? ==>
              ReadSet(e, d, offset).value.1 == offset + 12 + 4 * |ReadSet(e, d, offset).value.0.bitmap|
  {
    hide SetStands;
    hide ReadSet;
    if ReadSet(e, d, offset).Some? {
      SetReadStands(e, d, offset);
    }
    if offset + 12 + 4 * |s.bitmap| <= |d| && s.Validated() && SetStands(e, d, offset, s) {
      SetStandsRead(e, d, offset, s);
    }
  }

  lemma HeadRead(e: Endianness, d: Bytes, offset: nat)
    requires offset % 4 == 0 && offset <= |d|
    ensures var head := ReadSome(e, d, offset, SET_HEAD);
            && (head.Some? <==> offset + 12 <= |d|)
            && (head.Some? ==>
                  var (fields, o) := head.value;
                  && o == offset + 12 && fields[0].I32? && fields[1].U32? && fields[2].U32?
                  && Stands(e, d, offset, fields[0]) && Stands(e, d, offset + 4, fields[1])
                  && Stands(e, d, offset + 8, fields[2]))
  {
    hide ReadFields;
    hide Stands;
    ReadWords(e, d, offset, SET_HEAD);
    if offset + 12 <= |d| {
      var fields := ReadSome(e, d, offset, SET_HEAD).value.0;
      assert ShapeOf(fields[0]) == SET_HEAD[0] && ShapeOf(fields[1]) == SET_HEAD[1];
      assert ShapeOf(fields[2]) == SET_HEAD[2];
      assert Stands(e, d, offset + 4 * 0, fields[0]) && Stands(e, d, offset + 4 * 1, fields[1]);
      assert Stands(e, d, offset + 4 * 2, fields[2]);
    }
  }

  lemma BitmapRead(e: Endianness, d: Bytes, o: nat, n: nat)
    requires o % 4 == 0 && o <= |d|
    ensures var words := ReadSome(e, d, o, WordShapes(n));
            && (words.Some? <==> o + 4 * n <= |d|)
            && (words.Some? ==>
                  var (fields, end) := words.value;
                  && end == o + 4 * n && |fields| == n
                  && forall w | 0 <= w < n :: fields[w].U32? && Holds(e, d, o + 4 * w, 4, fields[w].v32))
  {
    hide ReadFields;
    hide Holds;
    ReadWords(e, d, o, WordShapes(n));
    if o + 4 * n <= |d| {
      var fields := ReadSome(e, d, o, WordShapes(n)).value.0;
      forall w | 0 <= w < n ensures fields[w].U32? && Holds(e, d, o + 4 * w, 4, fields[w].v32) {
        assert ShapeOf(fields[w]) == WordShapes(n)[w];
        assert Stands(e, d, o + 4 * w, fields[w]);
      }
    }
  }

  lemma SetReadStands(e: Endianness, d: Bytes, offset: nat)
    requires offset % 4 == 0 && offset <= |d| && ReadSet(e, d, offset).Some?
    ensures var (s, end) := ReadSet(e, d, offset).value;
            s.Validated() && end == offset + 12 + 4 * |s.bitmap| <= |d| && SetStands(e, d, offset, s)
  {
    hide ReadSome;
    hide Holds;
    hide SequenceStands;
    hide SequenceNumberSet.Validated;
    var s := ReadSet(e, d, offset).value.0;
    HeadRead(e, d, offset);
    BitmapRead(e, d, offset + 12, RequiredWords(s.numBits));
    var head := ReadSome(e, d, offset, SET_HEAD).value.0;
    SequenceRead(e, d, offset, head, 0);
    assert Holds(e, d, offset + 8, 4, s.numBits);
    var words := ReadSome(e, d, offset + 12, WordShapes(RequiredWords(s.numBits))).value.0;
    assert forall w | 0 <= w < |s.bitmap| :: s.bitmap[w] == words[w].v32;
  }

  lemma SetStandsRead(e: Endianness, d: Bytes, offset: nat, s: SequenceNumberSet)
    requires offset % 4 == 0 && offset + 12 + 4 * |s.bitmap| <= |d| && s.Validated() && SetStands(e, d, offset, s)
    ensures ReadSet(e, d, offset) == Some((s, offset + 12 + 4 * |s.bitmap|))
  {
    hide ReadSome;
    hide Holds;
    hide SequenceStands;
    HeadRead(e, d, offset);
    var head := ReadSome(e, d, offset, SET_HEAD).value.0;
    SequenceRead(e, d, offset, head, 0);
    assert SequenceAt(head, 0) == s.base;
    Pow256Values();
    assert Holds(e, d, offset + 8, 4, head[2].v32);
    HoldsOne(e, d, offset + 8, 4, head[2].v32, s.numBits);
    BitmapRead(e, d, offset + 12, RequiredWords(s.numBits));
    var words := ReadSome(e, d, offset + 12, WordShapes(RequiredWords(s.numBits))).value.0;
    forall w | 0 <= w < |s.bitmap| ensures words[w].v32 == s.bitmap[w] {
      HoldsOne(e, d, offset + 12 + 4 * w, 4, words[w].v32, s.bitmap[w]);
    }
    assert Words(words) == s.bitmap;
  }

  /** The bytes are an ACKNACK submessage that says a. */
  predicate AckNackStands(bytes: Bytes, size: nat, a: AckNack) {
    var w := |a.state.bitmap|;
    && size >= 24 + 4 * w && Framed(bytes, 0x06, 4, size) && a.Encodable()
    && bytes[4..8] == a.reader && bytes[8..12] == a.writer
    && SetStands(OrderOf(bytes), bytes, 12, a.state) && Holds(OrderOf(bytes), bytes, 24 + 4 * w, 4, a.count)
    && (a.final <==> bytes[1] as nat / 2 % 2 == 1)
  }

  lemma AckNackExactly(bytes: Bytes, a: AckNack)
    ensures DecodeAckNack(bytes) == Some(a) <==> exists size: nat :: AckNackStands(bytes, size, a)
  {
    hide Framed;
    hide Open;
    hide AckNackContent;
    hide Holds;
    hide SetStands;
    hide SequenceNumberSet.Validated;
    OpenedExactly(bytes, KIND_ACKNACK, 0xFC, 4, 24);
    var frame := Open(bytes, KIND_ACKNACK, 0xFC, 24);
    if frame.Some? {
      var (header, content) := frame.value;
      AckNackContentExactly(bytes, header, content, a);
      assert DecodeAckNack(bytes) == Some(a) ==> AckNackStands(bytes, |content|, a);
    }
  }

  /** A set stands in a buffer where it stands in a part of it. */
  lemma SetWithin(e: Endianness, d: Bytes, part: Bytes, at: nat, s: SequenceNumberSet)
    requires 4 + |part| <= |d| && part == d[4..4 + |part|] && at + 12 + 4 * |s.bitmap| <= |part|
    ensures SetStands(e, part, at, s) <==> SetStands(e, d, 4 + at, s)
  {
    hide IsDigits;
    SliceWithin(d, 4, part, at, 4);
    SliceWithin(d, 4, part, at + 4, 4);
    SliceWithin(d, 4, part, at + 8, 4);
    forall w | 0 <= w < |s.bitmap|
      ensures Holds(e, part, at + 12 + 4 * w, 4, s.bitmap[w]) <==> Holds(e, d, 4 + at + 12 + 4 * w, 4, s.bitmap[w])
    {
      SliceWithin(d, 4, part, at + 12 + 4 * w, 4);
    }
  }

  lemma AckNackContentExactly(bytes: Bytes, header: SubmessageHeader, content: Bytes, a: AckNack)
    requires |content| >= 24 && |bytes| >= 4 + |content| && content == bytes[4..4 + |content|]
    requires header.flags == bytes[1] && header.Endianness() == OrderOf(bytes)
    ensures AckNackContent(header, content) == Some(a) <==>
            var w := |a.state.bitmap|;
            && |content| >= 24 + 4 * w && a.Encodable()
            && bytes[4..8] == a.reader && bytes[8..12] == a.writer
            && SetStands(OrderOf(bytes), bytes, 12, a.state) && Holds(OrderOf(bytes), bytes, 24 + 4 * w, 4, a.count)
            && (a.final <==> bytes[1] as nat / 2 % 2 == 1)
  {
    hide Holds;
    hide ReadSome;
    hide ReadIds;
    hide ReadSet;
    hide SetStands;
    hide Test;
    hide SubmessageHeader.Endianness;
    hide SequenceNumberSet.Validated;
    var e, w := OrderOf(bytes), |a.state.bitmap|;
    FlagBits(bytes[1]);
    IdsExactly(e, content);
    SliceWithin(bytes, 4, content, 0, 4);
    SliceWithin(bytes, 4, content, 4, 4);
    SetExactly(e, content, 8, a.state);
    if |content| >= 20 + 4 * w {
      SetWithin(e, bytes, content, 8, a.state);
      CountAt(e, bytes, content, 20 + 4 * w, a.count);
    }
  }

  lemma CountAt(e: Endianness, bytes: Bytes, content: Bytes, at: nat, n: Int32)
    requires at % 4 == 0 && at <= |content| && |bytes| >= 4 + |content| && content == bytes[4..4 + |content|]
    ensures var read := ReadSome(e, content, at, [AsI32]);
            && (read.Some? <==> at + 4 <= |content|)
            && (read.Some? && n > 0 ==>
                  var f := read.value.0[0];
                  f.I32? && (f.i32 == n <==> Holds(e, bytes, 4 + at, 4, n)))
  {
    hide ReadFields;
    hide Holds;
    ReadWords(e, content, at, [AsI32]);
    if at + 4 <= |content| {
      var fields := ReadSome(e, content, at, [AsI32]).value.0;
      assert ShapeOf(fields[0]) == [AsI32][0];
      assert Stands(e, content, at + 4 * 0, fields[0]);
      StandsWithin(e, bytes, 4, content, at, fields[0]);
      CountRead(e, bytes, 4 + at, fields[0]);
    }
  }

  /** The bytes are a GAP submessage that says g. */
  predicate GapStands(bytes: Bytes, size: nat, g: Gap) {
    && size >= 28 + 4 * |g.list.bitmap| && Framed(bytes, 0x08, 2, size) && g.Encodable()
    && bytes[4..8] == g.reader && bytes[8..12] == g.writer
    && SequenceStands(OrderOf(bytes), bytes, 12, g.start) && SetStands(OrderOf(bytes), bytes, 20, g.list)
  }

  lemma GapExactly(bytes: Bytes, g: Gap)
    ensures DecodeGap(bytes) == Some(g) <==> exists size: nat :: GapStands(bytes, size, g)
  {
    hide Framed;
    hide Open;
    hide GapContent;
    hide Holds;
    hide SetStands;
    hide SequenceNumberSet.Validated;
    OpenedExactly(bytes, KIND_GAP, 0xFE, 2, 28);
    var frame := Open(bytes, KIND_GAP, 0xFE, 28);
    if frame.Some? {
      var (header, content) := frame.value;
      GapContentExactly(bytes, header, content, g);
      assert DecodeGap(bytes) == Some(g) ==> GapStands(bytes, |content|, g);
    }
  }

  lemma GapContentExactly(bytes: Bytes, header: SubmessageHeader, content: Bytes, g: Gap)
    requires |content| >= 28 && |bytes| >= 4 + |content| && content == bytes[4..4 + |content|]
    requires header.Endianness() == OrderOf(bytes)
    ensures GapContent(header, content) == Some(g) <==>
            && |content| >= 28 + 4 * |g.list.bitmap| && g.Encodable()
            && bytes[4..8] == g.reader && bytes[8..12] == g.writer
            && SequenceStands(OrderOf(bytes), bytes, 12, g.start) && SetStands(OrderOf(bytes), bytes, 20, g.list)
  {
    hide Holds;
    hide ReadSome;
    hide ReadIds;
    hide ReadSet;
    hide SetStands;
    hide SequenceStands;
    hide SubmessageHeader.Endianness;
    hide SequenceNumberSet.Validated;
    var e := OrderOf(bytes);
    IdsExactly(e, content);
    SliceWithin(bytes, 4, content, 0, 4);
    SliceWithin(bytes, 4, content, 4, 4);
    StartAt(e, bytes, content);
    SetExactly(e, content, 16, g.list);
    if |content| >= 28 + 4 * |g.list.bitmap| {
      SetWithin(e, bytes, content, 16, g.list);
    }
  }

  lemma StartAt(e: Endianness, bytes: Bytes, content: Bytes)
    requires |content| >= 16 && |bytes| >= 4 + |content| && content == bytes[4..4 + |content|]
    ensures var read := ReadSome(e, content, 8, [AsI32, AsU32]);
            && read.Some? && read.value.1 == 16
            && var fields := read.value.0;
               && fields[0].I32? && fields[1].U32?
               && (SequenceAt(fields, 0) > 0 ==> SequenceStands(e, bytes, 12, SequenceAt(fields, 0)))
               && forall n: Int64 | SequenceStands(e, bytes, 12, n) :: n == SequenceAt(fields, 0)
  {
    hide ReadFields;
    hide Holds;
    hide SequenceStands;
    var shapes := [AsI32, AsU32];
    ReadWords(e, content, 8, shapes);
    var fields := ReadSome(e, content, 8, shapes).value.0;
    assert ShapeOf(fields[0]) == shapes[0] && ShapeOf(fields[1]) == shapes[1];
    assert Stands(e, content, 8 + 4 * 0, fields[0]) && Stands(e, content, 8 + 4 * 1, fields[1]);
    StandsWithin(e, bytes, 4, content, 8, fields[0]);
    StandsWithin(e, bytes, 4, content, 12, fields[1]);
    SequenceRead(e, bytes, 12, fields, 0);
  }

  // ---- DATA ----

  /** The flags a DATA may carry: the one for data, not those for a key, inline QoS or a
      payload of another form; the others are not looked at. */
  predicate DataFlags(flags: Byte) {
    var w := flags as nat;
    w / 4 % 2 == 1 && w / 8 % 2 == 0 && w / 2 % 2 == 0 && w / 16 % 2 == 0
  }

  lemma DataFlagsExactly(flags: Byte)
    ensures Test(flags, 0x04) && !Test(flags, 0x08) && !Test(flags, 0x12) <==> DataFlags(flags)
  {
    FlagBits(flags);
    hide And;
    var w := flags as nat;
    AndTwice(w, 9);
    AndOdd(w / 2, 4);
    AndTwice(w / 2 / 2, 2);
    AndTwice(w / 2 / 2 / 2, 1);
    AndOdd(w / 2 / 2 / 2 / 2, 0);
    AndNothing(w / 2 / 2 / 2 / 2 / 2);
  }

  lemma AndOdd(x: nat, b: nat)
    ensures And(x, 2 * b + 1) == 2 * And(x / 2, b) + x % 2
  {
    assert (2 * b + 1) / 2 == b && (2 * b + 1) % 2 == 1;
  }

  lemma AndNothing(x: nat)
    ensures And(x, 0) == 0
  {
  }

  /** What stands behind the header of a DATA submessage of `size` bytes that says d; its
      payload begins where the octets to the inline QoS end. */
  predicate DataContent(bytes: Bytes, size: nat, octets: UInt16, d: Data.DataSubmessage)
    requires 20 <= size <= |bytes| - 4
  {
    && Holds(OrderOf(bytes), bytes, 4, 2, 0)
    && Holds(OrderOf(bytes), bytes, 6, 2, octets) && 16 <= octets && 4 + octets <= size
    && bytes[8..12] == d.reader && bytes[12..16] == d.writer
    && SequenceStands(OrderOf(bytes), bytes, 16, d.sequence) && bytes[8 + octets..4 + size] == d.payload
  }

  /** The bytes are a DATA submessage that says d. */
  predicate DataStands(bytes: Bytes, size: nat, octets: UInt16, d: Data.DataSubmessage) {
    size >= 20 && Sized(bytes, 0x15, size) && DataFlags(bytes[1]) && DataContent(bytes, size, octets, d)
  }

  lemma DataExactly(bytes: Bytes, d: Data.DataSubmessage)
    ensures Data.Decode(bytes) == Some(d) <==> exists size: nat, octets: UInt16 :: DataStands(bytes, size, octets, d)
  {
    hide Data.DecodeContent;
    hide DataContent;
    hide Holds;
    hide Test;
    hide DataFlags;
    hide DecodeSubmessageHeader;
    hide SubmessageHeader.Endianness;
    if |bytes| >= 4 {
      HeaderDecoded(bytes);
      DataFlagsExactly(bytes[1]);
      var h := DecodeSubmessageHeader(bytes).value;
      var size := if h.length == 0 then |bytes| - 4 else h.length;
      forall m: nat | Sized(bytes, 0x15, m) ensures m == size {
        var length: UInt16 :| Holds(OrderOf(bytes), bytes, 2, 2, length) &&
                              m == if length == 0 then |bytes| - 4 else length;
      }
      if h.kind == 0x15 && size >= 20 && 4 + size <= |bytes| {
        assert Sized(bytes, 0x15, size);
        var octets := DataContentExactly(bytes, size, d);
        assert DataFlags(bytes[1]) && DataContent(bytes, size, octets, d) ==> DataStands(bytes, size, octets, d);
      }
    } else {
      TooShort(bytes);
    }
  }

  lemma DataContentExactly(bytes: Bytes, size: nat, d: Data.DataSubmessage) returns (octets: UInt16)
    requires 20 <= size <= |bytes| - 4
    ensures Data.DecodeContent(OrderOf(bytes), bytes[4..4 + size]) == Some(d) <==> DataContent(bytes, size, octets, d)
    ensures forall n: UInt16 | DataContent(bytes, size, n, d) :: n == octets
  {
    hide Holds;
    hide Data.HeadOf;
    var e, content := OrderOf(bytes), bytes[4..4 + size];
    HeadExactly(e, bytes, content);
    var fields := Data.HeadOf(e, content).value;
    octets := fields[1].v16;
    Pow256Values();
    forall n: UInt16 | Holds(e, bytes, 6, 2, n) ensures n == octets {
      HoldsOne(e, bytes, 6, 2, n, octets);
    }
    if Holds(e, bytes, 4, 2, 0) {
      HoldsOne(e, bytes, 4, 2, 0, fields[0].v16);
    }
    if 4 + octets <= size {
      SliceWithin(bytes, 4, content, 4 + octets, size - 4 - octets);
      assert content[4 + octets..size] == content[4 + octets..];
    }
  }

  lemma HeadExactly(e: Endianness, bytes: Bytes, content: Bytes)
    requires |content| >= 20 && |bytes| >= 4 + |content| && content == bytes[4..4 + |content|]
    ensures var head := Data.HeadOf(e, content);
            && head.Some?
            && var fields := head.value;
               && Holds(e, bytes, 4, 2, fields[0].v16) && Holds(e, bytes, 6, 2, fields[1].v16)
               && bytes[8..12] == fields[2].raw && bytes[12..16] == fields[3].raw
               && (SequenceAt(fields, 4) > 0 ==> SequenceStands(e, bytes, 16, SequenceAt(fields, 4)))
               && forall n: Int64 | SequenceStands(e, bytes, 16, n) :: n == SequenceAt(fields, 4)
  {
    hide Holds;
    hide SequenceStands;
    hide Data.HeadOf;
    HeadParts(e, content);
    var fields := Data.HeadOf(e, content).value;
    StandsWithin(e, bytes, 4, content, 0, fields[0]);
    StandsWithin(e, bytes, 4, content, 2, fields[1]);
    StandsWithin(e, bytes, 4, content, 4, fields[2]);
    StandsWithin(e, bytes, 4, content, 8, fields[3]);
    StandsWithin(e, bytes, 4, content, 12, fields[4]);
    StandsWithin(e, bytes, 4, content, 16, fields[5]);
    SequenceRead(e, bytes, 16, fields, 4);
  }

  lemma HeadParts(e: Endianness, content: Bytes)
    requires |content| >= 20
    ensures var head := Data.HeadOf(e, content);
            && head.Some?
            && var fields := head.value;
               && Stands(e, content, 0, fields[0]) && Stands(e, content, 2, fields[1])
               && Stands(e, content, 4, fields[2]) && Stands(e, content, 8, fields[3])
               && Stands(e, content, 12, fields[4]) && Stands(e, content, 16, fields[5])
  {
    hide ReadField;
    hide ReadFields;
    hide Stands;
    var words := [AsRaw(4), AsRaw(4), AsI32, AsU32];
    assert Data.HEAD_SHAPES == [AsU16] + ([AsU16] + words);
    ReadCons(e, content, 0, AsU16, [AsU16] + words);
    ReadCons(e, content, 2, AsU16, words);
    ReadHalf(e, content, 0);
    ReadHalf(e, content, 2);
    ReadWords(e, content, 4, words);
    var rest := ReadFields(e, content, 4, words).value.0;
    var one, two := ReadField(e, content, 0, AsU16).value.0, ReadField(e, content, 2, AsU16).value.0;
    assert Data.HeadOf(e, content).value == [one] + ([two] + rest);
    assert Stands(e, content, 4 + 4 * 0, rest[0]) && Stands(e, content, 4 + 4 * 1, rest[1]);
    assert Stands(e, content, 4 + 4 * 2, rest[2]) && Stands(e, content, 4 + 4 * 3, rest[3]);
  }

  lemma ReadHalf(e: Endianness, d: Bytes, offset: nat)
    requires offset % 2 == 0 && offset + 2 <= |d|
    ensures var r := ReadField(e, d, offset, AsU16);
            r.Some? && r.value.1 == offset + 2 && Stands(e, d, offset, r.value.0)
  {
    Pow256Values();
    GetDigits(e, d[offset..offset + 2]);
  }

  // ---- Whole datagrams ----

  /** A message of major version 2 with something behind its header. */
  predicate MessageStands(bytes: Bytes) {
    |bytes| > 20 && bytes[..4] == [0x52, 0x54, 0x50, 0x53] && bytes[4] == 2
  }

  /** The kinds tell the decoders apart. */
  lemma KindsApart(body: Bytes)
    ensures Data.Decode(body).Some? ==> |body| >= 4 && body[0] == 0x15
    ensures DecodeHeartbeat(body).Some? ==> |body| >= 4 && body[0] == 0x07
    ensures DecodeGap(body).Some? ==> |body| >= 4 && body[0] == 0x08
    ensures DecodeAckNack(body).Some? ==> |body| >= 4 && body[0] == 0x06
  {
    hide Holds;
    hide SetStands;
    hide SequenceStands;
    hide DataFlags;
    hide DataContent;
    hide SequenceNumberSet.Validated;
    if d: Data.DataSubmessage :| Data.Decode(body) == Some(d) { DataExactly(body, d); }
    if h: Heartbeat :| DecodeHeartbeat(body) == Some(h) { HeartbeatExactly(body, h); }
    if g: Gap :| DecodeGap(body) == Some(g) { GapExactly(body, g); }
    if a: AckNack :| DecodeAckNack(body) == Some(a) { AckNackExactly(body, a); }
  }

  /** The bytes behind the header tell a reader with this id event e of writer w. */
  ghost predicate Tells(id: EntityId, bytes: Bytes, w: Guid, e: Event)
    requires |bytes| >= 20
  {
    w.prefix == bytes[8..20] &&
    match e
    case DataEvent(c) =>
      exists d: Data.DataSubmessage, size: nat, octets: UInt16 ::
        DataStands(bytes[20..], size, octets, d) && TargetsEntity(d.reader, id) && w.entity == d.writer &&
        c == CacheChange(w, d.sequence, d.payload)
    case HeartbeatEvent(first, last) =>
      exists h: Heartbeat, size: nat ::
        HeartbeatStands(bytes[20..], size, h) && TargetsEntity(h.reader, id) && w.entity == h.writer &&
        first == h.first && last == h.last
    case GapEvent(g) =>
      exists size: nat ::
        GapStands(bytes[20..], size, g) && TargetsEntity(g.reader, id) && w.entity == g.writer
  }

  lemma DataTold(id: EntityId, bytes: Bytes, w: Guid, c: CacheChange)
    requires |bytes| >= 20
    ensures Tells(id, bytes, w, DataEvent(c)) <==>
            ParseData(id, bytes[8..20], Data.Decode(bytes[20..])) == Accepted(w, DataEvent(c))
  {
    hide Data.Decode;
    hide DataStands;
    var body := bytes[20..];
    if Tells(id, bytes, w, DataEvent(c)) {
      var d: Data.DataSubmessage, size: nat, octets: UInt16 :|
        DataStands(body, size, octets, d) && TargetsEntity(d.reader, id) && w.entity == d.writer &&
        c == CacheChange(w, d.sequence, d.payload);
      DataExactly(body, d);
    }
    if ParseData(id, bytes[8..20], Data.Decode(body)) == Accepted(w, DataEvent(c)) {
      var d := Data.Decode(body).value;
      DataExactly(body, d);
      var size: nat, octets: UInt16 :| DataStands(body, size, octets, d);
      assert c == CacheChange(w, d.sequence, d.payload) && w.entity == d.writer;
    }
  }

  lemma HeartbeatTold(id: EntityId, bytes: Bytes, w: Guid, first: int, last: int)
    requires |bytes| >= 20
    ensures Tells(id, bytes, w, HeartbeatEvent(first, last)) <==>
            ParseHeartbeat(id, bytes[8..20], DecodeHeartbeat(bytes[20..])) == Accepted(w, HeartbeatEvent(first, last))
  {
    hide DecodeHeartbeat;
    hide HeartbeatStands;
    var body := bytes[20..];
    if Tells(id, bytes, w, HeartbeatEvent(first, last)) {
      var h: Heartbeat, size: nat :|
        HeartbeatStands(body, size, h) && TargetsEntity(h.reader, id) && w.entity == h.writer &&
        first == h.first && last == h.last;
      HeartbeatExactly(body, h);
    }
    if ParseHeartbeat(id, bytes[8..20], DecodeHeartbeat(body)) == Accepted(w, HeartbeatEvent(first, last)) {
      var h := DecodeHeartbeat(body).value;
      HeartbeatExactly(body, h);
      var size: nat :| HeartbeatStands(body, size, h);
      assert w.entity == h.writer && first == h.first && last == h.last;
    }
  }

  /** A reader accepts an event exactly from the datagrams that tell it, byte for byte. */
  lemma AcceptedExactly(id: EntityId, bytes: Bytes, w: Guid, e: Event)
    ensures Parse(id, bytes) == Accepted(w, e) <==> MessageStands(bytes) && Tells(id, bytes, w, e)
  {
    hide Data.Decode;
    hide DecodeHeartbeat;
    hide DecodeGap;
    hide DataStands;
    hide HeartbeatStands;
    hide GapStands;
    hide DecodeSubmessageHeader;
    if MessageStands(bytes) {
      var body := bytes[20..];
      KindsApart(body);
      BodyKind(body);
      match e
      case DataEvent(c) => DataTold(id, bytes, w, c);
      case HeartbeatEvent(first, last) => HeartbeatTold(id, bytes, w, first, last);
      case GapEvent(g) => GapExactly(body, g);
    }
  }

  lemma BodyKind(body: Bytes)
    ensures var h := DecodeSubmessageHeader(body);
            if |body| < 4 then h.None? else h.Some? && h.value.kind == body[0]
  {
    if |body| >= 4 { HeaderDecoded(body); }
  }

  /** A writer takes an ACKNACK exactly from the datagrams that carry it and name this writer
      and a reader. */
  lemma TakenExactly(bytes: Bytes, writer: EntityId, a: AckNack)
    ensures AckNackIn(bytes, writer) == Some(a) <==>
            && MessageStands(bytes) && a.writer == writer && a.reader != UNKNOWN_ENTITY
            && exists size: nat :: AckNackStands(bytes[20..], size, a)
  {
    hide DecodeAckNack;
    hide AckNackStands;
    hide DecodeSubmessageHeader;
    if MessageStands(bytes) {
      var body := bytes[20..];
      KindsApart(body);
      BodyKind(body);
      AckNackExactly(body, a);
    }
  }
}
