/** The discovery codecs as the code runs them: values through a CdrWriter and a CdrReader,
    records field by field, proved equal to the functions of Discovery. */
module DiscoveryCodec {
  import opened Types
  import opened Cdr
  import opened CdrStreams
  import opened SerializedPayload
  import opened ParameterList
  import opened DiscoveryValues
  import opened Discovery

  // ---- Values ----

  /** read_int32 and read_uint32 one after the other. */
  method ReadTwoWords(input: CdrReader) returns (ok: bool, first: Int32, second: UInt32)
    requires input.Valid() && input.valid && input.offset == input.start == 0 && input.taken == []
    modifies input
    ensures input.Valid() && input.start == 0
    ensures ok ==> input.valid && input.taken == [I32(first), U32(second)] && Shapes(input.taken) == [AsI32, AsU32]
    ensures !ok ==> ReadFields(input.endianness, input.data, 0, [AsI32, AsU32]).None?
  {
    hide ReadFields;
    second := 0;
    ok, first := input.ReadInt32();
    if !ok {
      ReadStuck(input.endianness, input.data, 0, input.stuck, [AsI32, AsU32]);
      return;
    }
    assert Shapes(input.taken) == [AsI32];
    ok, second := input.ReadUint32();
    if !ok {
      ReadStuck(input.endianness, input.data, 0, input.stuck, [AsI32, AsU32]);
    }
  }

  method EncodeLocatorValue(locator: Endpoint, e: Endianness) returns (r: Option<Bytes>)
    ensures r == EncodeLocator(locator, e)
  {
    hide Encoded;
    hide ParseIpv4;
    if locator.port == 0 {
      return None;
    }
    var octets := ParseIpv4(locator.address);
    if octets.None? {
      return None;
    }
    var writer := new CdrWriter(e);
    writer.WriteInt32(LOCATOR_KIND_UDP_V4);
    writer.WriteUint32(locator.port);
    writer.WriteBytes(Zeros(12));
    writer.WriteBytes(octets.value);
    assert writer.fields == LocatorFields(locator.port, octets.value);
    return Some(writer.data);
  }

  method DecodeLocatorValue(value: Bytes, e: Endianness) returns (r: Option<Endpoint>)
    ensures r == DecodeLocator(value, e)
  {
    hide ReadFields;
    hide Dotted;
    var input := new CdrReader(value, e);
    var ok, kind, port := ReadTwoWords(input);
    if !ok {
      ReadStuck(e, value, 0, [AsI32, AsU32], LOCATOR_SHAPES);
      return None;
    }
    var address;
    ok, address := input.ReadBytes(16);
    if !ok {
      ReadStuck(e, value, 0, input.stuck, LOCATOR_SHAPES);
      return None;
    }
    assert Shapes(input.taken) == LOCATOR_SHAPES;
    if kind != LOCATOR_KIND_UDP_V4 || port == 0 || port > 0xFFFF {
      return None;
    }
    for i := 0 to 12
      invariant address[..i] == Zeros(12)[..i]
    {
      if address[i] != 0 {
        assert address[..12][i] != Zeros(12)[i];
        return None;
      }
    }
    assert address[..12] == Zeros(12);
    return Some(Endpoint(Dotted(address[12..]), port));
  }

  method EncodeDurationValue(ms: int, e: Endianness) returns (r: Option<Bytes>)
    ensures r == EncodeDuration(ms, e)
  {
    hide Encoded;
    if ms <= 0 {
      return None;
    }
    var seconds, remainder := ms / 1000, ms % 1000;
    if seconds > INT32_MAX {
      return None;
    }
    FractionLoss(remainder);
    var writer := new CdrWriter(e);
    writer.WriteInt32(seconds);
    writer.WriteUint32(remainder * TWO_32 / 1000);
    assert writer.fields == [I32(seconds), U32(remainder * TWO_32 / 1000)];
    return Some(writer.data);
  }

  method DecodeDurationValue(value: Bytes, e: Endianness) returns (r: Option<int>)
    ensures r == DecodeDuration(value, e)
  {
    hide ReadFields;
    var input := new CdrReader(value, e);
    var ok, seconds, fraction := ReadTwoWords(input);
    if !ok || seconds < 0 {
      return None;
    }
    var ms := seconds * 1000 + fraction * 1000 / TWO_32;
    return if ms > 0 then Some(ms) else None;
  }

  // ---- Participants ----

  /** The record got as far as the parameter list. */
  predicate ParticipantListed(d: Participant, e: Endianness) {
    && EncodeLocator(d.metatraffic, e).Some? && EncodeLocator(d.unicast, e).Some?
    && EncodeDuration(d.lease, e).Some? && StringFits(d.name)
  }

  /** `before` is what the caller's payload holds: it is cleared only by the parameter
      list, and a record that does not get that far leaves it alone. */
  method EncodeParticipantData(d: Participant, e: Endianness, before: Bytes) returns (ok: bool, payload: Bytes)
    ensures ok == EncodeParticipant(d, e).Some?
    ensures payload == if ok then EncodeParticipant(d, e).value else if ParticipantListed(d, e) then [] else before
  {
    hide EncodeLocator;
    hide EncodeDuration;
    hide ParameterList.Encode;
    hide EncodeUint32;
    hide EncodeString;
    var metatraffic := EncodeLocatorValue(d.metatraffic, e);
    if metatraffic.None? { return false, before; }
    var unicast := EncodeLocatorValue(d.unicast, e);
    if unicast.None? { return false, before; }
    var lease := EncodeDurationValue(d.lease, e);
    if lease.None? { return false, before; }
    var parameters := [
      Parameter(PID_PROTOCOL_VERSION, [d.version.major, d.version.minor]),
      Parameter(PID_VENDOR_ID, d.vendor),
      Parameter(PID_PARTICIPANT_GUID, EncodeGuid(d.guid)),
      Parameter(PID_BUILTIN_ENDPOINT_SET, EncodeUint32(d.endpoints, e)),
      Parameter(PID_METATRAFFIC_UNICAST_LOCATOR, metatraffic.value),
      Parameter(PID_DEFAULT_UNICAST_LOCATOR, unicast.value),
      Parameter(PID_PARTICIPANT_LEASE_DURATION, lease.value)];
    if d.name != [] {
      if !StringFits(d.name) { return false, before; }
      parameters := parameters + [Parameter(PID_ENTITY_NAME, EncodeString(d.name, e))];
    }
    assert parameters == ParticipantParameters(d, e, metatraffic.value, unicast.value, lease.value);
    ok, payload := EncodeParameterList(parameters, e);
  }

  /** Fills the record field by field and stops at the first parameter that is missing or
      malformed; what it had filled by then is not described. */
  method DecodeParticipantData(payload: Bytes, initial: Participant) returns (ok: bool, data: Participant)
    ensures ok == DecodeParticipant(payload, initial).Some?
    ensures ok ==> data == DecodeParticipant(payload, initial).value
  {
    hide DecodeLocator;
    hide DecodeDuration;
    hide DecodeUint32;
    hide PaddedString;
    hide ParameterList.Decode;
    hide Find;
    data := initial;
    var list := DecodeParameterList(payload);
    if list.None? { return false, data; }
    var (parameters, e) := list.value;
    var guid := FindParameter(parameters, PID_PARTICIPANT_GUID);
    var metatraffic := FindParameter(parameters, PID_METATRAFFIC_UNICAST_LOCATOR);
    var unicast := FindParameter(parameters, PID_DEFAULT_UNICAST_LOCATOR);
    if guid.None? || metatraffic.None? || unicast.None? { return false, data; }
    var guid' := DecodeGuid(guid.value);
    var metatraffic' := DecodeLocatorValue(metatraffic.value, e);
    var unicast' := DecodeLocatorValue(unicast.value, e);
    if guid'.None? || metatraffic'.None? || unicast'.None? { return false, data; }
    data := data.(guid := guid'.value, metatraffic := metatraffic'.value, unicast := unicast'.value);
    var version := FindParameter(parameters, PID_PROTOCOL_VERSION);
    if version.Some? {
      if |version.value| < 2 { return false, data; }
      data := data.(version := Version(version.value[0], version.value[1]));
    }
    var vendor := FindParameter(parameters, PID_VENDOR_ID);
    if vendor.Some? {
      if |vendor.value| < 2 { return false, data; }
      data := data.(vendor := vendor.value[..2]);
    }
    var endpoints := FindParameter(parameters, PID_BUILTIN_ENDPOINT_SET);
    if endpoints.Some? {
      var decoded := DecodeUint32(endpoints.value, e);
      if decoded.None? { return false, data; }
      data := data.(endpoints := decoded.value);
    }
    var lease := FindParameter(parameters, PID_PARTICIPANT_LEASE_DURATION);
    if lease.Some? {
      var decoded := DecodeDurationValue(lease.value, e);
      if decoded.None? { return false, data; }
      data := data.(lease := decoded.value);
    }
    var name := FindParameter(parameters, PID_ENTITY_NAME);
    if name.Some? {
      var decoded := DecodePaddedString(name.value, e);
      if decoded.None? { return false, data; }
      data := data.(name := decoded.value);
    }
    return true, data;
  }

  // ---- Endpoints ----

  predicate EndpointListed(d: EndpointRecord, e: Endianness) {
    && d.topic != [] && d.typeName != [] && EncodeLocator(d.locator, e).Some?
    && StringFits(d.topic) && StringFits(d.typeName)
  }

  method EncodeEndpointData(d: EndpointRecord, e: Endianness, before: Bytes) returns (ok: bool, payload: Bytes)
    ensures ok == EncodeEndpoint(d, e).Some?
    ensures payload == if ok then EncodeEndpoint(d, e).value else if EndpointListed(d, e) then [] else before
  {
    hide EncodeLocator;
    hide ParameterList.Encode;
    hide EncodeString;
    hide EncodeReliability;
    if d.topic == [] || d.typeName == [] { return false, before; }
    var locator := EncodeLocatorValue(d.locator, e);
    if locator.None? || !StringFits(d.topic) || !StringFits(d.typeName) { return false, before; }
    ok, payload := EncodeParameterList([
      Parameter(PID_ENDPOINT_GUID, EncodeGuid(d.guid)),
      Parameter(PID_PARTICIPANT_GUID, EncodeGuid(d.participant)),
      Parameter(PID_TOPIC_NAME, EncodeString(d.topic, e)),
      Parameter(PID_TYPE_NAME, EncodeString(d.typeName, e)),
      Parameter(PID_UNICAST_LOCATOR, locator.value),
      Parameter(PID_RELIABILITY, EncodeReliability(d.reliable, e))], e);
  }

  method DecodeEndpointData(payload: Bytes, kind: EndpointKind, initial: EndpointRecord)
    returns (ok: bool, data: EndpointRecord)
    ensures ok == DecodeEndpoint(payload, kind).Some?
    ensures ok ==> data == DecodeEndpoint(payload, kind).value
  {
    hide DecodeLocator;
    hide DecodeReliability;
    hide PaddedString;
    hide ParameterList.Decode;
    hide Find;
    data := initial;
    var list := DecodeParameterList(payload);
    if list.None? { return false, data; }
    var (parameters, e) := list.value;
    var guid := FindParameter(parameters, PID_ENDPOINT_GUID);
    var topic := FindParameter(parameters, PID_TOPIC_NAME);
    var typeName := FindParameter(parameters, PID_TYPE_NAME);
    var locator := FindParameter(parameters, PID_UNICAST_LOCATOR);
    if guid.None? || topic.None? || typeName.None? || locator.None? { return false, data; }
    data := data.(kind := kind);
    var guid' := DecodeGuid(guid.value);
    var topic' := DecodePaddedString(topic.value, e);
    var typeName' := DecodePaddedString(typeName.value, e);
    var locator' := DecodeLocatorValue(locator.value, e);
    if guid'.None? || topic'.None? || typeName'.None? || locator'.None? { return false, data; }
    data := data.(guid := guid'.value, topic := topic'.value, typeName := typeName'.value, locator := locator'.value);
    data := data.(participant := Guid(data.guid.prefix, ENTITY_PARTICIPANT));
    var participant := FindParameter(parameters, PID_PARTICIPANT_GUID);
    if participant.Some? {
      var decoded := DecodeGuid(participant.value);
      if decoded.None? { return false, data; }
      data := data.(participant := decoded.value);
    }
    data := data.(reliable := false);
    var reliability := FindParameter(parameters, PID_RELIABILITY);
    if reliability.Some? {
      var decoded := DecodeReliability(reliability.value, e);
      if decoded.None? { return false, data; }
      data := data.(reliable := decoded.value);
    }
    return true, data;
  }
}
