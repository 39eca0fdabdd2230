/** route_target, and its agreement with the checks of the endpoints behind it. */
module Routing {
  import opened Types
  import opened Message
  import opened Reliability
  import opened Incoming
  import opened AckMatching
  import Data

  datatype Kind = Reader | Writer

  datatype Target = Target(kind: Kind, id: EntityId)

  // ---- route_target ----

  function RouteTarget(bytes: Bytes): Option<Target> {
    var header := DecodeMessageHeader(bytes);
    if header.None? || header.value.major != 2 || |bytes| <= MESSAGE_HEADER_SIZE then None
    else
      var submessage := bytes[MESSAGE_HEADER_SIZE..];
      var h :- DecodeSubmessageHeader(submessage);
      if h.kind == KIND_DATA then
        var d :- Data.Decode(submessage);
        Some(Target(Reader, d.reader))
      else if h.kind == KIND_HEARTBEAT then
        var b :- DecodeHeartbeat(submessage);
        Some(Target(Reader, b.reader))
      else if h.kind == KIND_GAP then
        var g :- DecodeGap(submessage);
        Some(Target(Reader, g.reader))
      else if h.kind == KIND_ACKNACK then
        var a :- DecodeAckNack(submessage);
        Some(Target(Writer, a.writer))
      else None
  }

  predicate Concerns(target: Option<Target>, kind: Kind, id: EntityId) {
    target.Some? && kind == target.value.kind && (target.value.id == UNKNOWN_ENTITY || id == target.value.id)
  }

  predicate Addressed(kind: Kind, id: EntityId, d: Datagram) {
    Concerns(RouteTarget(d.payload), kind, id)
  }

  /** The demultiplexer agrees with the reader: a datagram is routed to a reader exactly
      when the reader's own header, decode and target checks accept it. */
  lemma ReaderAgrees(id: EntityId, d: Datagram)
    ensures Addressed(Reader, id, d) <==> Parse(id, d.payload).Accepted?
  {
    hide DecodeMessageHeader;
    hide DecodeSubmessageHeader;
    hide Data.Decode;
    hide DecodeHeartbeat;
    hide DecodeGap;
    hide DecodeAckNack;
  }

  /** ... and with the writer, except that an ACKNACK of an unknown reader, or to an
      unknown writer, is routed but not taken. */
  lemma WriterAgrees(id: EntityId, d: Datagram)
    ensures AckNackIn(d.payload, id).Some? ==> Addressed(Writer, id, d)
    ensures Addressed(Writer, id, d) && AckNackIn(d.payload, id).None? ==>
              var ack := DecodeAckNack(d.payload[MESSAGE_HEADER_SIZE..]);
              && ack.Some?
              && (|| ack.value.reader == UNKNOWN_ENTITY
                  || (ack.value.writer == UNKNOWN_ENTITY && id != UNKNOWN_ENTITY))
  {
    hide DecodeMessageHeader;
    hide DecodeSubmessageHeader;
    hide Data.Decode;
    hide DecodeHeartbeat;
    hide DecodeGap;
    hide DecodeAckNack;
  }
}
