/** How the writer recognises an ACKNACK that settles one of its readers. */
module AckMatching {
  import opened Types
  import opened Message
  import opened Reliability
  import opened Acks

  datatype ReaderProxy = ReaderProxy(endpoint: Endpoint, id: EntityId)

  /** A proxy with an unknown id accepts any reader at its endpoint. */
  predicate Matches(ack: AckNack, source: Endpoint, proxy: ReaderProxy) {
    source == proxy.endpoint && (proxy.id == UNKNOWN_ENTITY || TargetsEntity(ack.reader, proxy.id))
  }

  /** The ACKNACK a datagram carries for this writer, if it carries one at all. */
  function AckNackIn(bytes: Bytes, writer: EntityId): (r: Option<AckNack>)
    ensures r.Some? ==> r.value.writer == writer && r.value.reader != UNKNOWN_ENTITY
  {
    var header :- DecodeMessageHeader(bytes);
    if header.major != 2 || |bytes| <= MESSAGE_HEADER_SIZE then None
    else
      var submessage := bytes[MESSAGE_HEADER_SIZE..];
      var h :- DecodeSubmessageHeader(submessage);
      if h.kind != KIND_ACKNACK then None
      else
        var ack :- DecodeAckNack(submessage);
        if ack.writer != writer || ack.reader == UNKNOWN_ENTITY then None else Some(ack)
  }

  /** The datagram settles `proxy` for change n. */
  predicate Settles(d: Datagram, writer: EntityId, proxy: ReaderProxy, n: int) {
    var ack := AckNackIn(d.payload, writer);
    ack.Some? && Matches(ack.value, d.source, proxy) && Accepts(ack.value, n)
  }

  /** The proxy stands for reader q: alone if its id is known, and for every reader at the
      endpoint if it is not. */
  predicate StandsFor(proxy: ReaderProxy, q: ReaderProxy) {
    q.endpoint == proxy.endpoint && TargetsEntity(proxy.id, q.id)
  }

  /** The ACKNACKs that match a proxy are those of the readers it stands for. */
  lemma MatchIdentifies(ack: AckNack, q: ReaderProxy, proxy: ReaderProxy)
    requires ack.reader == q.id && q.id != UNKNOWN_ENTITY
    ensures Matches(ack, q.endpoint, proxy) <==> StandsFor(proxy, q)
    ensures proxy.id != UNKNOWN_ENTITY ==> (StandsFor(proxy, q) <==> proxy == q)
  {
  }
}
