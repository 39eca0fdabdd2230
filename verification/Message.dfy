/** The RTPS message header (section 9.4.4 of DDSI-RTPS 2.5) and the header of a
    submessage (section 9.4.5.1). */
module Message {
  import opened Types
  import opened Bits
  import opened Cdr

  const PROTOCOL_MAGIC: Bytes := [0x52, 0x54, 0x50, 0x53]
  const MESSAGE_HEADER_SIZE: nat := 20
  const SUBMESSAGE_HEADER_SIZE: nat := 4

  const KIND_ACKNACK: Byte := 0x06
  const KIND_HEARTBEAT: Byte := 0x07
  const KIND_GAP: Byte := 0x08
  const KIND_DATA: Byte := 0x15

  const ENDIANNESS_FLAG: Byte := 0x01

  type VendorId = s: Bytes | |s| == 2 witness [0, 0]

  datatype MessageHeader = MessageHeader(major: Byte, minor: Byte, vendor: VendorId, prefix: GuidPrefix)

  datatype SubmessageHeader = SubmessageHeader(kind: Byte, flags: Byte, length: UInt16) {
    function Endianness(): Endianness {
      if Test(flags, ENDIANNESS_FLAG) then Little else Big
    }
  }

  /** (flags & mask) != 0 */
  predicate Test(flags: Byte, mask: Byte) {
    And(flags as nat, mask as nat) != 0
  }

  /** The single-flag tests by arithmetic. */
  lemma FlagBits(flags: Byte)
    ensures Test(flags, 1) <==> flags as nat % 2 == 1
    ensures Test(flags, 2) <==> flags as nat / 2 % 2 == 1
    ensures Test(flags, 4) <==> flags as nat / 4 % 2 == 1
    ensures Test(flags, 8) <==> flags as nat / 8 % 2 == 1
  {
    hide And;
    var w := flags as nat;
    assert Pow2(1) == 2 && Pow2(2) == 4 && Pow2(3) == 8;
    TestBit(w, 0);
    TestBit(w, 1);
    TestBit(w, 2);
    TestBit(w, 3);
    assert Bit(w, 1) == Bit(w / 2, 0);
    assert Bit(w, 2) == Bit(w / 2, 1) == Bit(w / 4, 0);
    assert Bit(w, 3) == Bit(w / 2, 2) == Bit(w / 4, 1) == Bit(w / 8, 0);
  }

  /** Flags below a power of two have none of the higher bits. */
  lemma HighFlags(flags: Byte)
    ensures flags < 2 ==> !Test(flags, 0xFE)
    ensures flags < 4 ==> !Test(flags, 0xFC)
    ensures flags < 8 ==> !Test(flags, 0xF8)
  {
    hide And;
    var w := flags as nat;
    assert Pow2(1) == 2 && Pow2(2) == 4 && Pow2(3) == 8;
    if w < 2 { AndApart(w, 0x7F, 1); }
    if w < 4 { AndApart(w, 0x3F, 2); }
    if w < 8 { AndApart(w, 0x1F, 3); }
  }

  function EncodeMessageHeader(h: MessageHeader): (r: Bytes)
    ensures |r| == MESSAGE_HEADER_SIZE
  {
    PROTOCOL_MAGIC + [h.major, h.minor] + h.vendor + h.prefix
  }

  function DecodeMessageHeader(bytes: Bytes): Option<MessageHeader> {
    if |bytes| < MESSAGE_HEADER_SIZE || bytes[..4] != PROTOCOL_MAGIC then None
    else Some(MessageHeader(bytes[4], bytes[5], bytes[6..8], bytes[8..20]))
  }

  function EncodeSubmessageHeader(h: SubmessageHeader): (r: Bytes)
    ensures |r| == SUBMESSAGE_HEADER_SIZE
  {
    [h.kind, h.flags] + Put(h.Endianness(), h.length, 2)
  }

  function DecodeSubmessageHeader(bytes: Bytes): (r: Option<SubmessageHeader>)
    ensures r.Some? <==> |bytes| >= SUBMESSAGE_HEADER_SIZE
  {
    if |bytes| < SUBMESSAGE_HEADER_SIZE then None
    else
      Pow256Values();
      var h := SubmessageHeader(bytes[0], bytes[1], 0);
      Some(h.(length := Unsigned(h.Endianness(), bytes[2..4], 0x1_0000)))
  }

  /** A header survives the wire whatever follows it. */
  lemma MessageHeaderRoundTrip(h: MessageHeader, tail: Bytes)
    ensures DecodeMessageHeader(EncodeMessageHeader(h) + tail) == Some(h)
  {
    var bytes := EncodeMessageHeader(h) + tail;
    assert bytes[..4] == PROTOCOL_MAGIC;
    assert bytes[6..8] == h.vendor;
    assert bytes[8..20] == h.prefix;
  }

  lemma SubmessageHeaderRoundTrip(h: SubmessageHeader, tail: Bytes)
    ensures DecodeSubmessageHeader(EncodeSubmessageHeader(h) + tail) == Some(h)
  {
    var bytes := EncodeSubmessageHeader(h) + tail;
    assert bytes[2..4] == Put(h.Endianness(), h.length, 2);
    Pow256Values();
    IntegerRoundTrip(h.Endianness(), h.length, 2);
  }

  /** Conversely, whatever decodes is the encoding of what it decodes to. */
  lemma MessageHeaderInverse(bytes: Bytes)
    requires DecodeMessageHeader(bytes).Some?
    ensures EncodeMessageHeader(DecodeMessageHeader(bytes).value) == bytes[..MESSAGE_HEADER_SIZE]
  {
    var h := DecodeMessageHeader(bytes).value;
    assert bytes[..20] == bytes[..4] + [bytes[4], bytes[5]] + bytes[6..8] + bytes[8..20];
  }

  /** Writes the header into a local array of bytes, field by field. */
  method WriteMessageHeader(h: MessageHeader) returns (bytes: array<Byte>)
    ensures bytes[..] == EncodeMessageHeader(h)
  {
    bytes := new Byte[20](_ => 0);
    for i := 0 to 4
      invariant bytes[..i] == PROTOCOL_MAGIC[..i]
    {
      bytes[i] := PROTOCOL_MAGIC[i];
    }
    bytes[4], bytes[5] := h.major, h.minor;
    bytes[6], bytes[7] := h.vendor[0], h.vendor[1];
    for i := 0 to 12
      invariant bytes[..8 + i] == PROTOCOL_MAGIC + [h.major, h.minor] + h.vendor + h.prefix[..i]
    {
      bytes[8 + i] := h.prefix[i];
    }
  }

  /** Writes kind, flags and the length in the byte order the flags announce. */
  method WriteSubmessageHeader(h: SubmessageHeader) returns (bytes: array<Byte>)
    ensures bytes[..] == EncodeSubmessageHeader(h)
    ensures bytes.Length == 4 && bytes[0] == h.kind && bytes[1] == h.flags
    ensures h.flags as nat % 2 == 1 ==> bytes[2] as nat == h.length % 256 && bytes[3] as nat == h.length / 256
    ensures h.flags as nat % 2 == 0 ==> bytes[2] as nat == h.length / 256 && bytes[3] as nat == h.length % 256
  {
    FlagBits(h.flags);
    bytes := new Byte[4](_ => 0);
    bytes[0], bytes[1] := h.kind, h.flags;
    var low, high := (h.length % 256) as Byte, (h.length / 256) as Byte;
    if h.Endianness().Little? {
      bytes[2], bytes[3] := low, high;
    } else {
      bytes[2], bytes[3] := high, low;
    }
    assert LittleBytes(h.length, 2) == [low] + (LittleBytes(h.length / 256, 1));
    assert LittleBytes(h.length / 256, 1) == [high] + LittleBytes(h.length / 256 / 256, 0);
    assert BigBytes(h.length, 2) == BigBytes(h.length / 256, 1) + [low];
    assert BigBytes(h.length / 256, 1) == BigBytes(h.length / 256 / 256, 0) + [high];
  }
}
