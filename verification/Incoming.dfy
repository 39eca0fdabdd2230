/** What a datagram means to a reader: the checks of receive_once up to the point where a
    writer's record is touched. */
module Incoming {
  import opened Types
  import opened Cdr
  import opened Message
  import opened Reliability
  import opened Reception
  import Data

  datatype Incoming = Malformed | NotForMe | Ignorable | Accepted(writer: Guid, event: Event)

  function Parse(id: EntityId, bytes: Bytes): Incoming {
    var header := DecodeMessageHeader(bytes);
    if header.None? || header.value.major != 2 || |bytes| <= MESSAGE_HEADER_SIZE then Malformed
    else
      var prefix, submessage := header.value.prefix, bytes[MESSAGE_HEADER_SIZE..];
      var h := DecodeSubmessageHeader(submessage);
      if h.None? then Malformed
      else if h.value.kind == KIND_DATA then ParseData(id, prefix, Data.Decode(submessage))
      else if h.value.kind == KIND_HEARTBEAT then ParseHeartbeat(id, prefix, DecodeHeartbeat(submessage))
      else if h.value.kind == KIND_GAP then ParseGap(id, prefix, DecodeGap(submessage))
      else Ignorable
  }

  function ParseData(id: EntityId, prefix: GuidPrefix, d: Option<Data.DataSubmessage>): Incoming {
    if d.None? then Malformed
    else if !TargetsEntity(d.value.reader, id) then NotForMe
    else
      var writer := Guid(prefix, d.value.writer);
      Accepted(writer, DataEvent(CacheChange(writer, d.value.sequence, d.value.payload)))
  }

  function ParseHeartbeat(id: EntityId, prefix: GuidPrefix, h: Option<Heartbeat>): Incoming {
    if h.None? then Malformed
    else if !TargetsEntity(h.value.reader, id) then NotForMe
    else Accepted(Guid(prefix, h.value.writer), HeartbeatEvent(h.value.first, h.value.last))
  }

  function ParseGap(id: EntityId, prefix: GuidPrefix, g: Option<Gap>): Incoming {
    if g.None? then Malformed
    else if !TargetsEntity(g.value.reader, id) then NotForMe
    else Accepted(Guid(prefix, g.value.writer), GapEvent(g.value))
  }

  /** An event of writer w whose change, if any, is w's. */
  predicate Genuine(w: Guid, e: Event) {
    e.Decoded() && (e.DataEvent? ==> e.change.writer == w)
  }

  /** What the reader accepts went through the decoders' checks. */
  lemma ParsedIsGenuine(id: EntityId, bytes: Bytes)
    ensures Parse(id, bytes).Accepted? ==> Genuine(Parse(id, bytes).writer, Parse(id, bytes).event)
  {
    hide Data.Decode;
    hide DecodeHeartbeat;
    hide DecodeGap;
    hide DecodeMessageHeader;
    hide DecodeSubmessageHeader;
    if |bytes| >= MESSAGE_HEADER_SIZE {
      var submessage := bytes[MESSAGE_HEADER_SIZE..];
      AcceptedHeartbeat(submessage);
      AcceptedGap(submessage);
      if Data.Decode(submessage).Some? {
        Data.DecodedIsEncodable(submessage, Little, []);
      }
    }
  }
}
