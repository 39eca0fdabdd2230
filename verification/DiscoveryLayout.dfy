/** Where everything stands in the records of discovery: the parameters in their order with
    their ids, and the bytes of each value (sections 9.3.2 and 9.6.2.2 of DDSI-RTPS 2.5). */
module DiscoveryLayout {
  import opened Types
  import opened Cdr
  import opened Message
  import opened SerializedPayload
  import opened ParameterList
  import opened DiscoveryValues
  import opened Discovery
  import opened Submessages
  import opened WireLayout

  // ---- The list ----

  /** A parameter: id, length, value, and zeros up to the next multiple of four. */
  predicate ParameterStands(e: Endianness, d: Bytes, at: nat, id: nat, value: Bytes) {
    var size := AlignedSize(|value|);
    && at + 4 + size <= |d| && Holds(e, d, at, 2, id) && Holds(e, d, at + 2, 2, size)
    && d[at + 4..at + 4 + size] == value + Zeros(size - |value|)
  }

  /** Where parameter k begins behind the encapsulation header. */
  function OffsetOf(ps: seq<Parameter>, k: nat): nat
    requires k <= |ps|
  {
    if k == 0 then 0 else OffsetOf(ps, k - 1) + 4 + AlignedSize(|ps[k - 1].value|)
  }

  lemma EntryStands(e: Endianness, p: Parameter)
    requires Carried(p)
    ensures |Entry(e, p)| == 4 + AlignedSize(|p.value|) && ParameterStands(e, Entry(e, p), 0, p.id, p.value)
  {
    hide IsDigits;
    hide AlignedSize;
    var size := AlignedSize(|p.value|);
    PutDigits(e, p.id, 2);
    PutDigits(e, size, 2);
    hide Put;
    var b := Entry(e, p);
    assert b[0..2] == Put(e, p.id, 2) && b[2..4] == Put(e, size, 2) && b[4..] == Padded(p.value);
  }

  lemma ParameterWithin(e: Endianness, d: Bytes, from: nat, part: Bytes, at: nat, id: nat, value: Bytes)
    requires from + |part| <= |d| && d[from..from + |part|] == part && ParameterStands(e, part, at, id, value)
    ensures ParameterStands(e, d, from + at, id, value)
  {
    hide IsDigits;
    hide AlignedSize;
    SliceWithin(d, from, part, at, 2);
    SliceWithin(d, from, part, at + 2, 2);
    SliceWithin(d, from, part, at + 4, AlignedSize(|value|));
  }

  lemma {:induction false} EntriesFirst(e: Endianness, ps: seq<Parameter>, k: nat)
    requires (forall p | p in ps :: Carried(p)) && k <= |ps|
    ensures (forall p | p in ps[..k] :: Carried(p)) && (forall p | p in ps[k..] :: Carried(p))
    ensures |Entries(e, ps[..k])| == OffsetOf(ps, k)
    ensures Entries(e, ps) == Entries(e, ps[..k]) + Entries(e, ps[k..])
    decreases k
  {
    hide Entry;
    hide Carried;
    if k > 0 {
      EntriesFirst(e, ps, k - 1);
      var p := ps[k - 1];
      assert p in ps && ps[..k] == ps[..k - 1] + [p] && ps[k - 1..] == [p] + ps[k..];
      EntriesSnoc(e, ps[..k - 1], p);
      EntryStands(e, p);
      assert ps[k - 1..][1..] == ps[k..];
      assert Entries(e, ps[k - 1..]) == Entry(e, p) + Entries(e, ps[k..]);
    } else {
      assert ps[..0] == [] && ps[0..] == ps;
    }
  }

  /** The encapsulation header announces the byte order; then come the parameters in order;
      then the sentinel. */
  lemma ListLayout(e: Endianness, ps: seq<Parameter>)
    requires ParameterList.Encode(ps, e).Some?
    ensures var b, end := ParameterList.Encode(ps, e).value, 4 + OffsetOf(ps, |ps|);
            && |b| == end + 4 && b[..4] == [0, if e.Little? then 3 else 2, 0, 0]
            && Holds(e, b, end, 2, 1) && Holds(e, b, end + 2, 2, 0)
            && forall k | 0 <= k < |ps| :: ParameterStands(e, b, 4 + OffsetOf(ps, k), ps[k].id, ps[k].value)
  {
    hide IsDigits;
    hide Carried;
    hide OffsetOf;
    hide ParameterStands;
    hide Entries;
    PutDigits(e, 1, 2);
    PutDigits(e, 0, 2);
    hide Put;
    var b, entries := ParameterList.Encode(ps, e).value, Entries(e, ps);
    EntriesFirst(e, ps, |ps|);
    assert ps[..|ps|] == ps;
    var end := 4 + |entries|;
    assert b[4..end] == entries;
    assert b[end..end + 2] == Put(e, 1, 2) && b[end + 2..end + 4] == Put(e, 0, 2);
    forall k | 0 <= k < |ps| ensures ParameterStands(e, b, 4 + OffsetOf(ps, k), ps[k].id, ps[k].value) {
      ParameterAt(e, ps, k);
      ParameterWithin(e, b, 4, entries, OffsetOf(ps, k), ps[k].id, ps[k].value);
    }
  }

  lemma ParameterAt(e: Endianness, ps: seq<Parameter>, k: nat)
    requires (forall p | p in ps :: Carried(p)) && k < |ps|
    ensures ParameterStands(e, Entries(e, ps), OffsetOf(ps, k), ps[k].id, ps[k].value)
  {
    hide ParameterStands;
    hide OffsetOf;
    hide Entry;
    hide Carried;
    EntriesFirst(e, ps, k);
    var rest, p := Entries(e, ps[k..]), ps[k];
    assert p in ps && ps[k..] == [p] + ps[k + 1..] && ps[k..][1..] == ps[k + 1..];
    EntryStands(e, p);
    var entry := Entry(e, p);
    assert rest == entry + Entries(e, ps[k..][1..]);
    assert rest[0..|entry|] == entry;
    ParameterWithin(e, rest, 0, entry, 0, p.id, p.value);
    var all, o := Entries(e, ps), OffsetOf(ps, k);
    assert all[o..o + |rest|] == rest;
    ParameterWithin(e, all, o, rest, 0, p.id, p.value);
  }

  // ---- The values ----

  lemma WordsStand(e: Endianness, fields: seq<Field>)
    requires forall f | f in fields :: Word(f)
    ensures |Encoded(e, 0, fields)| == 4 * |fields|
    ensures forall k | 0 <= k < |fields| :: Stands(e, Encoded(e, 0, fields), 4 * k, fields[k])
  {
    hide Stands;
    hide Encoded;
    WordsLength(e, 0, fields);
    forall k | 0 <= k < |fields| ensures Stands(e, Encoded(e, 0, fields), 4 * k, fields[k]) {
      WordStands(e, 0, fields, k);
    }
  }

  /** UDPv4 is kind 1; the address is the last four of its sixteen bytes. */
  lemma LocatorLayout(locator: Endpoint, e: Endianness)
    requires EncodeLocator(locator, e).Some?
    ensures var b := EncodeLocator(locator, e).value;
            && |b| == 24 && Holds(e, b, 0, 4, 1) && Holds(e, b, 4, 4, locator.port)
            && b[8..20] == Zeros(12) && ParseIpv4(locator.address) == Some(b[20..24])
  {
    hide Holds;
    hide Stands;
    hide Encoded;
    hide ParseIpv4;
    var octets := ParseIpv4(locator.address).value;
    var head := [I32(LOCATOR_KIND_UDP_V4), U32(locator.port)];
    WordsStand(e, head);
    var address := Zeros(12) + octets;
    LocatorBytes(e, locator.port, octets);
    EncodedAppend(e, 0, head, [Raw(address)]);
    RawAlone(e, 8, address);
    assert head + [Raw(address)] == [I32(LOCATOR_KIND_UDP_V4), U32(locator.port), Raw(address)];
    var b := EncodeLocator(locator, e).value;
    assert b == Encoded(e, 0, head) + address;
    assert b[0..8] == Encoded(e, 0, head);
    assert Stands(e, Encoded(e, 0, head), 4 * 0, head[0]) && Stands(e, Encoded(e, 0, head), 4 * 1, head[1]);
    StandsWithin(e, b, 0, Encoded(e, 0, head), 0, head[0]);
    StandsWithin(e, b, 0, Encoded(e, 0, head), 4, head[1]);
    NumberStands(e, b, 0, 1);
    NumberStands(e, b, 4, locator.port);
    assert b[8..20] == Zeros(12) && b[20..24] == octets;
  }

  lemma RawAlone(e: Endianness, offset: nat, b: Bytes)
    ensures Encoded(e, offset, [Raw(b)]) == b
  {
    EncodedCons(e, offset, Raw(b), []);
    assert [Raw(b)] + [] == [Raw(b)];
  }

  lemma NumberStands(e: Endianness, d: Bytes, at: nat, n: nat)
    requires n < 0x8000_0000 && (Stands(e, d, at, I32(n)) || Stands(e, d, at, U32(n)))
    ensures Holds(e, d, at, 4, n)
  {
    hide Holds;
  }

  /** Seconds, and the rest as a binary fraction of a second. */
  lemma DurationLayout(ms: int, e: Endianness)
    requires EncodeDuration(ms, e).Some?
    ensures var b := EncodeDuration(ms, e).value;
            |b| == 8 && Holds(e, b, 0, 4, ms / 1000) && Holds(e, b, 4, 4, ms % 1000 * TWO_32 / 1000)
  {
    hide Holds;
    hide Encoded;
    var fields := [I32(ms / 1000), U32(ms % 1000 * TWO_32 / 1000)];
    WordsStand(e, fields);
    assert Stands(e, Encoded(e, 0, fields), 4 * 0, fields[0]) && Stands(e, Encoded(e, 0, fields), 4 * 1, fields[1]);
  }

  lemma Uint32Layout(n: UInt32, e: Endianness)
    ensures |EncodeUint32(n, e)| == 4 && Holds(e, EncodeUint32(n, e), 0, 4, n)
  {
    hide Holds;
    hide Encoded;
    var fields := [U32(n)];
    WordsStand(e, fields);
    assert Stands(e, Encoded(e, 0, fields), 4 * 0, fields[0]);
  }

  /** Best effort is 1, reliable is 2; the maximum blocking time behind it is zero. */
  lemma ReliabilityLayout(reliable: bool, e: Endianness)
    ensures var b := EncodeReliability(reliable, e);
            |b| == 12 && Holds(e, b, 0, 4, if reliable then 2 else 1) && Holds(e, b, 4, 4, 0) && Holds(e, b, 8, 4, 0)
  {
    hide Holds;
    hide Encoded;
    var fields := [I32(if reliable then 2 else 1), I32(0), U32(0)];
    WordsStand(e, fields);
    var b := Encoded(e, 0, fields);
    assert Stands(e, b, 4 * 0, fields[0]) && Stands(e, b, 4 * 1, fields[1]) && Stands(e, b, 4 * 2, fields[2]);
  }

  /** The length counts the terminating zero. */
  lemma StringLayout(text: Bytes, e: Endianness)
    ensures var b := EncodeString(text, e);
            && |b| == 5 + |text| && Holds(e, b, 0, 4, |text| + 1)
            && b[4..4 + |text|] == text && b[4 + |text|] == 0
  {
    hide Holds;
    hide Chunk;
    StringLength(text, e);
    EncodedOne(e, Str(text));
    ChunkStands(e, 0, Str(text));
  }

  // ---- Participants ----

  /** A participant record: where its parameters stand, under which ids. */
  predicate ParticipantStands(e: Endianness, b: Bytes, d: Participant,
                              metatraffic: Bytes, unicast: Bytes, lease: Bytes)
  {
    var name := EncodeString(d.name, e);
    var end := 116 + if d.name == [] then 0 else 4 + AlignedSize(|name|);
    && |b| == end + 4 && b[..4] == [0, if e.Little? then 3 else 2, 0, 0]
    && ParameterStands(e, b, 4, 0x15, [d.version.major, d.version.minor])
    && ParameterStands(e, b, 12, 0x16, d.vendor)
    && ParameterStands(e, b, 20, 0x50, d.guid.prefix + d.guid.entity)
    && ParameterStands(e, b, 40, 0x58, EncodeUint32(d.endpoints, e))
    && ParameterStands(e, b, 48, 0x32, metatraffic)
    && ParameterStands(e, b, 76, 0x31, unicast)
    && ParameterStands(e, b, 104, 0x02, lease)
    && (d.name != [] ==> ParameterStands(e, b, 116, 0x62, name))
    && Holds(e, b, end, 2, 1) && Holds(e, b, end + 2, 2, 0)
  }

  lemma ParticipantLayout(d: Participant, e: Endianness)
    requires EncodableParticipant(d) && EncodeParticipant(d, e).Some?
    ensures var m, u, l := EncodeLocator(d.metatraffic, e), EncodeLocator(d.unicast, e), EncodeDuration(d.lease, e);
            && m.Some? && u.Some? && l.Some?
            && ParticipantStands(e, EncodeParticipant(d, e).value, d, m.value, u.value, l.value)
  {
    hide ParticipantStands;
    hide ParseIpv4;
    hide EncodeParticipant;
    hide ParticipantParameters;
    hide EncodeLocator;
    hide EncodeDuration;
    hide EncodableLocator;
    hide ParameterList.Encode;
    ParticipantEncodable(d, e);
    LocatorRoundTrip(d.metatraffic, e);
    LocatorRoundTrip(d.unicast, e);
    DurationLayout(d.lease, e);
    ParametersStand(d, e, EncodeLocator(d.metatraffic, e).value, EncodeLocator(d.unicast, e).value,
                    EncodeDuration(d.lease, e).value);
  }

  lemma ParametersStand(d: Participant, e: Endianness, m: Bytes, u: Bytes, l: Bytes)
    requires |m| == |u| == 24 && |l| == 8
    requires ParameterList.Encode(ParticipantParameters(d, e, m, u, l), e).Some?
    ensures ParticipantStands(e, ParameterList.Encode(ParticipantParameters(d, e, m, u, l), e).value, d, m, u, l)
  {
    hide ParameterStands;
    hide Holds;
    hide EncodeString;
    hide EncodeUint32;
    hide ParameterList.Encode;
    hide ParticipantParameters;
    hide OffsetOf;
    hide AlignedSize;
    var ps := ParticipantParameters(d, e, m, u, l);
    ListLayout(e, ps);
    ParticipantEntries(d, e, m, u, l);
    Uint32Layout(d.endpoints, e);
    ParticipantOffsets(ps);
  }

  lemma ParticipantEntries(d: Participant, e: Endianness, m: Bytes, u: Bytes, l: Bytes)
    ensures var ps := ParticipantParameters(d, e, m, u, l);
            && |ps| == (if d.name == [] then 7 else 8)
            && ps[0] == Parameter(0x15, [d.version.major, d.version.minor])
            && ps[1] == Parameter(0x16, d.vendor)
            && ps[2] == Parameter(0x50, d.guid.prefix + d.guid.entity)
            && ps[3] == Parameter(0x58, EncodeUint32(d.endpoints, e))
            && ps[4] == Parameter(0x32, m) && ps[5] == Parameter(0x31, u) && ps[6] == Parameter(0x02, l)
            && (d.name != [] ==> ps[7] == Parameter(0x62, EncodeString(d.name, e)))
  {
    hide EncodeUint32;
    hide EncodeString;
  }

  lemma ParticipantOffsets(ps: seq<Parameter>)
    requires |ps| >= 7 && |ps[0].value| == |ps[1].value| == 2 && |ps[2].value| == 16 && |ps[3].value| == 4
    requires |ps[4].value| == |ps[5].value| == 24 && |ps[6].value| == 8
    ensures OffsetOf(ps, 0) == 0 && OffsetOf(ps, 1) == 8 && OffsetOf(ps, 2) == 16 && OffsetOf(ps, 3) == 36
    ensures OffsetOf(ps, 4) == 44 && OffsetOf(ps, 5) == 72 && OffsetOf(ps, 6) == 100 && OffsetOf(ps, 7) == 112
    ensures |ps| >= 8 ==> OffsetOf(ps, 8) == 116 + AlignedSize(|ps[7].value|)
  {
    assert AlignedSize(2) == 4 && AlignedSize(4) == 4 && AlignedSize(8) == 8 && AlignedSize(16) == 16;
    assert AlignedSize(24) == 24;
    hide AlignedSize;
    assert OffsetOf(ps, 1) == OffsetOf(ps, 0) + 4 + AlignedSize(2);
    assert OffsetOf(ps, 2) == OffsetOf(ps, 1) + 4 + AlignedSize(2);
    assert OffsetOf(ps, 3) == OffsetOf(ps, 2) + 4 + AlignedSize(16);
    assert OffsetOf(ps, 4) == OffsetOf(ps, 3) + 4 + AlignedSize(4);
    assert OffsetOf(ps, 5) == OffsetOf(ps, 4) + 4 + AlignedSize(24);
    assert OffsetOf(ps, 6) == OffsetOf(ps, 5) + 4 + AlignedSize(24);
    assert OffsetOf(ps, 7) == OffsetOf(ps, 6) + 4 + AlignedSize(8);
  }

  // ---- Endpoints ----

  /** An endpoint record; the strings move what follows them. */
  lemma EndpointLayout(d: EndpointRecord, e: Endianness)
    requires EncodableEndpoint(d) && EncodeEndpoint(d, e).Some?
    ensures var locator := EncodeLocator(d.locator, e);
            locator.Some? && |locator.value| == 24 &&
            var b, topic, typeName := EncodeEndpoint(d, e).value, EncodeString(d.topic, e), EncodeString(d.typeName, e);
            var second := 48 + AlignedSize(|topic|);
            var third := second + 4 + AlignedSize(|typeName|);
            && |b| == third + 48 && b[..4] == [0, if e.Little? then 3 else 2, 0, 0]
            && ParameterStands(e, b, 4, 0x5A, d.guid.prefix + d.guid.entity)
            && ParameterStands(e, b, 24, 0x50, d.participant.prefix + d.participant.entity)
            && ParameterStands(e, b, 44, 0x05, topic)
            && ParameterStands(e, b, second, 0x07, typeName)
            && ParameterStands(e, b, third, 0x2F, locator.value)
            && ParameterStands(e, b, third + 28, 0x1A, EncodeReliability(d.reliable, e))
            && Holds(e, b, third + 44, 2, 1) && Holds(e, b, third + 46, 2, 0)
  {
    hide ParameterStands;
    hide Holds;
    hide ParseIpv4;
    hide EncodeString;
    hide EncodeReliability;
    hide EncodeEndpoint;
    hide EncodableLocator;
    hide ParameterList.Encode;
    EndpointEncodable(d, e);
    LocatorRoundTrip(d.locator, e);
    hide EncodeLocator;
    var locator := EncodeLocator(d.locator, e).value;
    var ps := EndpointParameters(d, e, locator);
    ListLayout(e, ps);
    EndpointOffsets(d, e, locator);
  }

  lemma EndpointOffsets(d: EndpointRecord, e: Endianness, locator: Bytes)
    requires |locator| == 24
    ensures var ps := EndpointParameters(d, e, locator);
            var topic, typeName := AlignedSize(|EncodeString(d.topic, e)|), AlignedSize(|EncodeString(d.typeName, e)|);
            && |ps| == 6
            && OffsetOf(ps, 0) == 0 && OffsetOf(ps, 1) == 20 && OffsetOf(ps, 2) == 40
            && OffsetOf(ps, 3) == 44 + topic && OffsetOf(ps, 4) == 48 + topic + typeName
            && OffsetOf(ps, 5) == 76 + topic + typeName && OffsetOf(ps, 6) == 92 + topic + typeName
  {
    hide EncodeString;
    ReliabilityLayout(d.reliable, e);
    hide EncodeReliability;
    var ps := EndpointParameters(d, e, locator);
    assert AlignedSize(12) == 12 && AlignedSize(16) == 16 && AlignedSize(24) == 24;
    hide AlignedSize;
    assert OffsetOf(ps, 1) == OffsetOf(ps, 0) + 4 + AlignedSize(16);
    assert OffsetOf(ps, 2) == OffsetOf(ps, 1) + 4 + AlignedSize(16);
    assert OffsetOf(ps, 3) == OffsetOf(ps, 2) + 4 + AlignedSize(|EncodeString(d.topic, e)|);
    assert OffsetOf(ps, 4) == OffsetOf(ps, 3) + 4 + AlignedSize(|EncodeString(d.typeName, e)|);
    assert OffsetOf(ps, 5) == OffsetOf(ps, 4) + 4 + AlignedSize(24);
    assert OffsetOf(ps, 6) == OffsetOf(ps, 5) + 4 + AlignedSize(12);
  }
}
