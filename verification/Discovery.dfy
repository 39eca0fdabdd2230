/** The participant and endpoint records of discovery and their codecs (sections 8.5.3 and
    8.5.4 of DDSI-RTPS 2.5). */
module Discovery {
  import opened Types
  import opened Cdr
  import opened Message
  import opened SerializedPayload
  import opened ParameterList
  import opened DiscoveryValues

  const PID_PARTICIPANT_LEASE_DURATION: UInt16 := 0x0002
  const PID_TOPIC_NAME: UInt16 := 0x0005
  const PID_TYPE_NAME: UInt16 := 0x0007
  const PID_PROTOCOL_VERSION: UInt16 := 0x0015
  const PID_VENDOR_ID: UInt16 := 0x0016
  const PID_RELIABILITY: UInt16 := 0x001A
  const PID_UNICAST_LOCATOR: UInt16 := 0x002F
  const PID_DEFAULT_UNICAST_LOCATOR: UInt16 := 0x0031
  const PID_METATRAFFIC_UNICAST_LOCATOR: UInt16 := 0x0032
  const PID_PARTICIPANT_GUID: UInt16 := 0x0050
  const PID_BUILTIN_ENDPOINT_SET: UInt16 := 0x0058
  const PID_ENDPOINT_GUID: UInt16 := 0x005A
  const PID_ENTITY_NAME: UInt16 := 0x0062

  const ENTITY_PARTICIPANT: EntityId := [0x00, 0x00, 0x01, 0xC1]

  datatype Version = Version(major: Byte, minor: Byte)

  datatype Participant = Participant(guid: Guid, version: Version, vendor: VendorId,
                                     metatraffic: Endpoint, unicast: Endpoint,
                                     endpoints: UInt32, lease: int, name: Bytes)

  datatype EndpointKind = Writer | Reader

  datatype EndpointRecord = EndpointRecord(kind: EndpointKind, guid: Guid, participant: Guid,
                                           topic: Bytes, typeName: Bytes, locator: Endpoint, reliable: bool)

  // ---- Participants ----

  function ParticipantParameters(d: Participant, e: Endianness, metatraffic: Bytes, unicast: Bytes,
                                 lease: Bytes): seq<Parameter> {
    [Parameter(PID_PROTOCOL_VERSION, [d.version.major, d.version.minor]),
     Parameter(PID_VENDOR_ID, d.vendor),
     Parameter(PID_PARTICIPANT_GUID, EncodeGuid(d.guid)),
     Parameter(PID_BUILTIN_ENDPOINT_SET, EncodeUint32(d.endpoints, e)),
     Parameter(PID_METATRAFFIC_UNICAST_LOCATOR, metatraffic),
     Parameter(PID_DEFAULT_UNICAST_LOCATOR, unicast),
     Parameter(PID_PARTICIPANT_LEASE_DURATION, lease)] +
    if d.name == [] then [] else [Parameter(PID_ENTITY_NAME, EncodeString(d.name, e))]
  }

  /** A name that is too long for a CDR string throws before the list refuses it. */
  function EncodeParticipant(d: Participant, e: Endianness): Option<Bytes> {
    var metatraffic :- EncodeLocator(d.metatraffic, e);
    var unicast :- EncodeLocator(d.unicast, e);
    var lease :- EncodeDuration(d.lease, e);
    if !StringFits(d.name) then None
    else ParameterList.Encode(ParticipantParameters(d, e, metatraffic, unicast, lease), e)
  }

  function DecodeVersion(value: Bytes): Option<Version> {
    if |value| < 2 then None else Some(Version(value[0], value[1]))
  }

  function DecodeVendor(value: Bytes): Option<VendorId> {
    if |value| < 2 then None else Some(value[..2])
  }

  /** The decoder fills `initial`; what an optional parameter would set stays as it was
      when the parameter is absent. */
  function DecodeParticipant(payload: Bytes, initial: Participant): Option<Participant> {
    var (ps, e) :- ParameterList.Decode(payload);
    var guid :- Find(ps, PID_PARTICIPANT_GUID);
    var metatraffic :- Find(ps, PID_METATRAFFIC_UNICAST_LOCATOR);
    var unicast :- Find(ps, PID_DEFAULT_UNICAST_LOCATOR);
    var guid' :- DecodeGuid(guid);
    var metatraffic' :- DecodeLocator(metatraffic, e);
    var unicast' :- DecodeLocator(unicast, e);
    var version :- OptionalVersion(Find(ps, PID_PROTOCOL_VERSION), initial.version);
    var vendor :- OptionalVendor(Find(ps, PID_VENDOR_ID), initial.vendor);
    var endpoints :- OptionalUint32(Find(ps, PID_BUILTIN_ENDPOINT_SET), e, initial.endpoints);
    var lease :- OptionalDuration(Find(ps, PID_PARTICIPANT_LEASE_DURATION), e, initial.lease);
    var name :- OptionalString(Find(ps, PID_ENTITY_NAME), e, initial.name);
    Some(Participant(guid', version, vendor, metatraffic', unicast', endpoints, lease, name))
  }

  function OptionalVersion(value: Option<Bytes>, before: Version): Option<Version> {
    if value.None? then Some(before) else DecodeVersion(value.value)
  }

  function OptionalVendor(value: Option<Bytes>, before: VendorId): Option<VendorId> {
    if value.None? then Some(before) else DecodeVendor(value.value)
  }

  function OptionalUint32(value: Option<Bytes>, e: Endianness, before: UInt32): Option<UInt32> {
    if value.None? then Some(before) else DecodeUint32(value.value, e)
  }

  function OptionalDuration(value: Option<Bytes>, e: Endianness, before: int): Option<int> {
    if value.None? then Some(before) else DecodeDuration(value.value, e)
  }

  function OptionalString(value: Option<Bytes>, e: Endianness, before: Bytes): Option<Bytes> {
    if value.None? then Some(before) else PaddedString(e, value.value)
  }

  // ---- Finding what was put in ----

  lemma {:induction false} FindAt(ps: seq<Parameter>, k: nat, id: UInt16)
    requires k < |ps| && ps[k].id == id && forall j | 0 <= j < k :: ps[j].id != id
    ensures Find(ps, id) == Some(ps[k].value)
    decreases k
  {
    if k > 0 { FindAt(ps[1..], k - 1, id); }
  }

  lemma {:induction false} FindAbsent(ps: seq<Parameter>, id: UInt16)
    requires forall j | 0 <= j < |ps| :: ps[j].id != id
    ensures Find(ps, id) == None
  {
    if ps != [] { FindAbsent(ps[1..], id); }
  }

  /** Parameter k of a list with distinct ids, after the way through the codec. */
  lemma Arrives(ps: seq<Parameter>, k: nat)
    requires k < |ps| && ps[k].id != PID_PAD && forall j | 0 <= j < k :: ps[j].id != ps[k].id
    ensures Find(Normal(ps), ps[k].id) == Some(Padded(ps[k].value))
  {
    hide Find;
    hide Normal;
    FindNormal(ps, ps[k].id);
    FindAt(ps, k, ps[k].id);
  }

  lemma TwoBytes(a: Byte, b: Byte)
    ensures DecodeVersion(Padded([a, b])) == Some(Version(a, b)) && DecodeVendor(Padded([a, b])) == Some([a, b])
  {
  }

  // ---- The participant round trip ----

  predicate EncodableLocator(locator: Endpoint) {
    locator.port != 0 && ParseIpv4(locator.address).Some?
  }

  /** Longer names do not fit the 16-bit length of a parameter. */
  const MAX_NAME: nat := 0xFFFC - 5

  predicate EncodableParticipant(d: Participant) {
    && EncodableLocator(d.metatraffic) && EncodableLocator(d.unicast)
    && 0 < d.lease < (INT32_MAX + 1) * 1000
    && |d.name| <= MAX_NAME
  }

  function LeaseBack(ms: int): int {
    if Exact(ms) then ms else ms - 1
  }

  /** A participant record as it comes back. */
  function Returned(d: Participant, initial: Participant): Participant
    requires EncodableParticipant(d)
  {
    d.(metatraffic := Readdressed(d.metatraffic), unicast := Readdressed(d.unicast),
       lease := LeaseBack(d.lease), name := if d.name == [] then initial.name else d.name)
  }

  lemma ParticipantEncodable(d: Participant, e: Endianness)
    ensures EncodeParticipant(d, e).Some? <==> EncodableParticipant(d)
    ensures EncodableParticipant(d) ==>
              var m, u, l := EncodeLocator(d.metatraffic, e), EncodeLocator(d.unicast, e), EncodeDuration(d.lease, e);
              && m.Some? && u.Some? && l.Some?
              && EncodeParticipant(d, e) ==
                 ParameterList.Encode(ParticipantParameters(d, e, m.value, u.value, l.value), e)
  {
    hide ParseIpv4;
    hide Entries;
    hide EncodeDuration;
    LocatorRoundTrip(d.metatraffic, e);
    LocatorRoundTrip(d.unicast, e);
    DurationRoundTrip(d.lease, e);
    hide EncodeLocator;
    var m, u, l := EncodeLocator(d.metatraffic, e), EncodeLocator(d.unicast, e), EncodeDuration(d.lease, e);
    if m.Some? && u.Some? && l.Some? {
      ParametersCarried(d, e, m.value, u.value, l.value);
      ParameterList.RoundTrip(ParticipantParameters(d, e, m.value, u.value, l.value), e, []);
    }
  }

  lemma ParametersCarried(d: Participant, e: Endianness, m: Bytes, u: Bytes, l: Bytes)
    requires |m| == 24 && |u| == 24 && |l| == 8
    ensures (forall p | p in ParticipantParameters(d, e, m, u, l) :: p.id != PID_SENTINEL && |p.value| <= 0xFFFC) <==>
              |d.name| <= MAX_NAME
  {
    hide EncodeString;
    hide EncodeUint32;
    var ps := ParticipantParameters(d, e, m, u, l);
    StringLength(d.name, e);
    Uint32Length(d.endpoints, e);
    if d.name != [] {
      assert ps[7] in ps;
    }
  }

  lemma Uint32Length(n: UInt32, e: Endianness)
    ensures |EncodeUint32(n, e)| == 4
  {
    hide Put;
    EncodedOne(e, U32(n));
  }

  /** A participant record is encodable exactly when both locators are, the lease is in
      range and the name fits. The record decodes unless its lease is one millisecond, and
      comes back with canonical addresses and a lease that is exact or a millisecond
      short; an empty name is not sent, so the decoder's old name stays. */
  lemma ParticipantRoundTrip(d: Participant, initial: Participant, e: Endianness, tail: Bytes)
    ensures EncodeParticipant(d, e).Some? <==> EncodableParticipant(d)
    ensures EncodableParticipant(d) ==>
              DecodeParticipant(EncodeParticipant(d, e).value + tail, initial) ==
              if d.lease == 1 then None else Some(Returned(d, initial))
  {
    hide EncodeParticipant;
    hide ParseIpv4;
    hide EncodableLocator;
    hide ParticipantParameters;
    hide DecodeGuid;
    hide DecodeLocator;
    hide DecodeVersion;
    hide DecodeVendor;
    hide DecodeUint32;
    hide DecodeDuration;
    hide PaddedString;
    hide ParameterList.Decode;
    hide ParameterList.Encode;
    hide Find;
    hide Normal;
    hide EncodeLocator;
    hide EncodeDuration;
    ParticipantEncodable(d, e);
    if EncodableParticipant(d) {
      var m, u := EncodeLocator(d.metatraffic, e).value, EncodeLocator(d.unicast, e).value;
      var l := EncodeDuration(d.lease, e).value;
      var ps := ParticipantParameters(d, e, m, u, l);
      ParameterList.RoundTrip(ps, e, tail);
      ParticipantFound(d, e, m, u, l);
      ParticipantValues(d, e, m, u, l);
    }
  }

  lemma ParticipantFound(d: Participant, e: Endianness, m: Bytes, u: Bytes, l: Bytes)
    ensures var ps := Normal(ParticipantParameters(d, e, m, u, l));
            && Find(ps, PID_PROTOCOL_VERSION) == Some(Padded([d.version.major, d.version.minor]))
            && Find(ps, PID_VENDOR_ID) == Some(Padded(d.vendor))
            && Find(ps, PID_PARTICIPANT_GUID) == Some(Padded(EncodeGuid(d.guid)))
            && Find(ps, PID_BUILTIN_ENDPOINT_SET) == Some(Padded(EncodeUint32(d.endpoints, e)))
            && Find(ps, PID_METATRAFFIC_UNICAST_LOCATOR) == Some(Padded(m))
            && Find(ps, PID_DEFAULT_UNICAST_LOCATOR) == Some(Padded(u))
            && Find(ps, PID_PARTICIPANT_LEASE_DURATION) == Some(Padded(l))
            && Find(ps, PID_ENTITY_NAME) == if d.name == [] then None else Some(Padded(EncodeString(d.name, e)))
  {
    hide Find;
    hide Normal;
    hide Padded;
    hide EncodeGuid;
    hide EncodeUint32;
    hide EncodeString;
    var ps := ParticipantParameters(d, e, m, u, l);
    Arrives(ps, 0);
    Arrives(ps, 1);
    Arrives(ps, 2);
    Arrives(ps, 3);
    Arrives(ps, 4);
    Arrives(ps, 5);
    Arrives(ps, 6);
    if d.name == [] {
      FindNormal(ps, PID_ENTITY_NAME);
      FindAbsent(ps, PID_ENTITY_NAME);
    } else {
      Arrives(ps, 7);
    }
  }

  lemma ParticipantValues(d: Participant, e: Endianness, m: Bytes, u: Bytes, l: Bytes)
    requires EncodableParticipant(d)
    requires EncodeLocator(d.metatraffic, e) == Some(m) && EncodeLocator(d.unicast, e) == Some(u)
    requires EncodeDuration(d.lease, e) == Some(l)
    ensures DecodeGuid(Padded(EncodeGuid(d.guid))) == Some(d.guid)
    ensures DecodeLocator(Padded(m), e) == Some(Readdressed(d.metatraffic))
    ensures DecodeLocator(Padded(u), e) == Some(Readdressed(d.unicast))
    ensures DecodeVersion(Padded([d.version.major, d.version.minor])) == Some(d.version)
    ensures DecodeVendor(Padded(d.vendor)) == Some(d.vendor)
    ensures DecodeUint32(Padded(EncodeUint32(d.endpoints, e)), e) == Some(d.endpoints)
    ensures DecodeDuration(Padded(l), e) == if d.lease == 1 then None else Some(LeaseBack(d.lease))
    ensures PaddedString(e, Padded(EncodeString(d.name, e))) == Some(d.name)
  {
    hide DecodeGuid;
    hide DecodeLocator;
    hide DecodeVersion;
    hide DecodeVendor;
    hide DecodeUint32;
    hide DecodeDuration;
    hide EncodeLocator;
    hide EncodeDuration;
    hide EncodeGuid;
    hide EncodeUint32;
    hide EncodeString;
    hide PaddedString;
    hide Padded;
    hide ParseIpv4;
    GuidRoundTrip(d.guid);
    LocatorRoundTrip(d.metatraffic, e);
    LocatorRoundTrip(d.unicast, e);
    TwoBytes(d.version.major, d.version.minor);
    TwoBytes(d.vendor[0], d.vendor[1]);
    assert d.vendor == [d.vendor[0], d.vendor[1]];
    Uint32RoundTrip(d.endpoints, e);
    DurationRoundTrip(d.lease, e);
    NameRoundTrip(d.name, e);
  }

  /** For canonical addresses, a lease that is a multiple of 125 milliseconds and a name
      or a fresh record, the round trip is exact. */
  lemma ParticipantExact(d: Participant, initial: Participant, e: Endianness)
    requires EncodableParticipant(d) && CanonicalAddress(d.metatraffic.address) && CanonicalAddress(d.unicast.address)
    requires d.name != [] || initial.name == []
    ensures DecodeParticipant(EncodeParticipant(d, e).GetOr([]), initial) == Some(d) <==> Exact(d.lease)
  {
    hide EncodeParticipant;
    hide DecodeParticipant;
    hide ParseIpv4;
    hide EncodableLocator;
    ParticipantRoundTrip(d, initial, e, []);
    var bytes := EncodeParticipant(d, e).value;
    assert bytes + [] == bytes;
    LocatorRoundTrip(d.metatraffic, e);
    LocatorRoundTrip(d.unicast, e);
  }

  // ---- Endpoints ----

  function EndpointParameters(d: EndpointRecord, e: Endianness, locator: Bytes): seq<Parameter> {
    [Parameter(PID_ENDPOINT_GUID, EncodeGuid(d.guid)),
     Parameter(PID_PARTICIPANT_GUID, EncodeGuid(d.participant)),
     Parameter(PID_TOPIC_NAME, EncodeString(d.topic, e)),
     Parameter(PID_TYPE_NAME, EncodeString(d.typeName, e)),
     Parameter(PID_UNICAST_LOCATOR, locator),
     Parameter(PID_RELIABILITY, EncodeReliability(d.reliable, e))]
  }

  function EncodeEndpoint(d: EndpointRecord, e: Endianness): Option<Bytes> {
    if d.topic == [] || d.typeName == [] then None
    else
      var locator :- EncodeLocator(d.locator, e);
      if !StringFits(d.topic) || !StringFits(d.typeName) then None
      else ParameterList.Encode(EndpointParameters(d, e, locator), e)
  }

  function OptionalGuid(value: Option<Bytes>, otherwise: Guid): Option<Guid> {
    if value.None? then Some(otherwise) else DecodeGuid(value.value)
  }

  function OptionalReliability(value: Option<Bytes>, e: Endianness): Option<bool> {
    if value.None? then Some(false) else DecodeReliability(value.value, e)
  }

  function DecodeEndpoint(payload: Bytes, kind: EndpointKind): Option<EndpointRecord> {
    var (ps, e) :- ParameterList.Decode(payload);
    var guid :- Find(ps, PID_ENDPOINT_GUID);
    var topic :- Find(ps, PID_TOPIC_NAME);
    var typeName :- Find(ps, PID_TYPE_NAME);
    var locator :- Find(ps, PID_UNICAST_LOCATOR);
    var guid' :- DecodeGuid(guid);
    var topic' :- PaddedString(e, topic);
    var typeName' :- PaddedString(e, typeName);
    var locator' :- DecodeLocator(locator, e);
    var participant :- OptionalGuid(Find(ps, PID_PARTICIPANT_GUID), Guid(guid'.prefix, ENTITY_PARTICIPANT));
    var reliable :- OptionalReliability(Find(ps, PID_RELIABILITY), e);
    Some(EndpointRecord(kind, guid', participant, topic', typeName', locator', reliable))
  }

  predicate EncodableEndpoint(d: EndpointRecord) {
    && 0 < |d.topic| <= MAX_NAME && 0 < |d.typeName| <= MAX_NAME
    && EncodableLocator(d.locator)
  }

  lemma EndpointEncodable(d: EndpointRecord, e: Endianness)
    ensures EncodeEndpoint(d, e).Some? <==> EncodableEndpoint(d)
    ensures EncodableEndpoint(d) ==>
              && EncodeLocator(d.locator, e).Some?
              && EncodeEndpoint(d, e) ==
                 ParameterList.Encode(EndpointParameters(d, e, EncodeLocator(d.locator, e).value), e)
  {
    hide EncodableLocator;
    hide ParameterList.Encode;
    hide EndpointParameters;
    hide EncodeLocator;
    hide StringFits;
    LongNames(d);
    LocatorRoundTrip(d.locator, e);
    if EncodeLocator(d.locator, e).Some? {
      var locator := EncodeLocator(d.locator, e).value;
      EndpointCarried(d, e, locator);
      ParameterList.RoundTrip(EndpointParameters(d, e, locator), e, []);
    }
  }

  lemma LongNames(d: EndpointRecord)
    ensures |d.topic| <= MAX_NAME ==> StringFits(d.topic)
    ensures |d.typeName| <= MAX_NAME ==> StringFits(d.typeName)
    ensures EncodableLocator(d.locator) <==> d.locator.port != 0 && ParseIpv4(d.locator.address).Some?
  {
    hide ParseIpv4;
  }

  lemma EndpointCarried(d: EndpointRecord, e: Endianness, locator: Bytes)
    requires |locator| == 24
    ensures (forall p | p in EndpointParameters(d, e, locator) :: p.id != PID_SENTINEL && |p.value| <= 0xFFFC) <==>
            |d.topic| <= MAX_NAME && |d.typeName| <= MAX_NAME
  {
    hide EncodeString;
    hide EncodeReliability;
    var ps := EndpointParameters(d, e, locator);
    StringLength(d.topic, e);
    StringLength(d.typeName, e);
    ReliabilityRoundTrip(d.reliable, e);
    assert ps[2] in ps && ps[3] in ps;
  }

  /** An endpoint record is encodable exactly when its names are neither empty nor too
      long and its locator is encodable; it comes back, under the kind the decoder is
      told, with its address in canonical form. */
  lemma EndpointRoundTrip(d: EndpointRecord, e: Endianness, tail: Bytes)
    ensures EncodeEndpoint(d, e).Some? <==> EncodableEndpoint(d)
    ensures EncodableEndpoint(d) ==>
              DecodeEndpoint(EncodeEndpoint(d, e).value + tail, d.kind) == Some(d.(locator := Readdressed(d.locator)))
    ensures CanonicalAddress(d.locator.address) ==> Readdressed(d.locator) == d.locator
  {
    hide EncodeEndpoint;
    hide ParseIpv4;
    hide EndpointParameters;
    hide DecodeGuid;
    hide DecodeLocator;
    hide DecodeReliability;
    hide PaddedString;
    hide ParameterList.Decode;
    hide ParameterList.Encode;
    hide Find;
    hide Normal;
    hide EncodeLocator;
    hide Padded;
    EndpointEncodable(d, e);
    LocatorRoundTrip(d.locator, e);
    if EncodableEndpoint(d) {
      var locator := EncodeLocator(d.locator, e).value;
      ParameterList.RoundTrip(EndpointParameters(d, e, locator), e, tail);
      EndpointFound(d, e, locator);
      GuidRoundTrip(d.guid);
      GuidRoundTrip(d.participant);
      NameRoundTrip(d.topic, e);
      NameRoundTrip(d.typeName, e);
      ReliabilityRoundTrip(d.reliable, e);
    }
  }

  lemma EndpointFound(d: EndpointRecord, e: Endianness, locator: Bytes)
    ensures var ps := Normal(EndpointParameters(d, e, locator));
            && Find(ps, PID_ENDPOINT_GUID) == Some(Padded(EncodeGuid(d.guid)))
            && Find(ps, PID_PARTICIPANT_GUID) == Some(Padded(EncodeGuid(d.participant)))
            && Find(ps, PID_TOPIC_NAME) == Some(Padded(EncodeString(d.topic, e)))
            && Find(ps, PID_TYPE_NAME) == Some(Padded(EncodeString(d.typeName, e)))
            && Find(ps, PID_UNICAST_LOCATOR) == Some(Padded(locator))
            && Find(ps, PID_RELIABILITY) == Some(Padded(EncodeReliability(d.reliable, e)))
  {
    hide Find;
    hide Normal;
    hide Padded;
    hide EncodeGuid;
    hide EncodeReliability;
    hide EncodeString;
    var ps := EndpointParameters(d, e, locator);
    Arrives(ps, 0);
    Arrives(ps, 1);
    Arrives(ps, 2);
    Arrives(ps, 3);
    Arrives(ps, 4);
    Arrives(ps, 5);
  }
}
