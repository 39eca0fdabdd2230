/** The reliable protocol end to end: one writer, any number of readers, and a network
    that may lose, duplicate, delay and reorder datagrams but neither forges nor corrupts
    them. Everything that crosses the network crosses it as bytes. */
module Protocol {
  import opened Types
  import opened Cdr
  import opened Message
  import opened SequenceSet
  import opened Reliability
  import opened Reception
  import opened ReaderRuns
  import opened Incoming
  import opened Acks
  import opened AckMatching
  import Data

  /** A datagram that was handed to the network. Numbers stand for the writer's changes. */
  datatype Packet =
    | DataPacket(to: ReaderProxy, n: int)
    | HeartbeatPacket(to: ReaderProxy, n: int, count: Int32)
    | AckPacket(from: ReaderProxy, prefix: GuidPrefix, ack: AckNack)

  /** `writes` holds the payloads whose delivery has begun, in order (the asynchronous
      queue hands them over in write order too); `delivering` the reader snapshot of the
      last of them while deliver_change works on it; `confirmed` the snapshots of the writes
      for which it returned true; `heard` what each reader accepted from the writer; and
      `sent` every packet ever sent, which the network may hand over any number of times
      or never. */
  datatype World = World(guid: Guid, endpoint: Endpoint,
                         writes: seq<Bytes>, delivering: Option<seq<ReaderProxy>>,
                         confirmed: map<int, seq<ReaderProxy>>,
                         heard: map<ReaderProxy, seq<Event>>, sent: set<Packet>)
  {
    function Change(n: int): CacheChange {
      CacheChange(guid, n, if 1 <= n <= |writes| then writes[n - 1] else [])
    }

    function Submessage(n: int, id: EntityId): Data.DataSubmessage {
      Data.DataSubmessage(id, guid.entity, if 1 <= n <= INT64_MAX then n else 0, Change(n).payload)
    }

    /** The bytes of a packet. */
    function Wire(p: Packet): Bytes {
      var header := MessageHeader(2, 3, [0, 0], if p.AckPacket? then p.prefix else guid.prefix);
      EncodeMessageHeader(header) + Body(p)
    }

    function Body(p: Packet): Bytes {
      match p
      case DataPacket(to, n) =>
        Data.Encode(Submessage(n, to.id), Little).GetOr([])
      case HeartbeatPacket(to, n, count) =>
        if 1 <= n <= INT64_MAX then
          EncodeHeartbeat(Heartbeat(to.id, guid.entity, n, n, count, false, false), Little).GetOr([])
        else []
      case AckPacket(_, _, ack) => EncodeAckNack(ack, Little).GetOr([])
    }

    function Source(p: Packet): Endpoint {
      if p.AckPacket? then p.from.endpoint else endpoint
    }

    /** What the reader committed, in order. */
    ghost function Log(r: ReaderProxy): seq<CacheChange>
      requires r in heard
    {
      Run(heard[r]).1
    }
  }

  datatype Step =
    | Write(payload: Bytes, snapshot: seq<ReaderProxy>)
    | SendData(to: ReaderProxy)
    | SendHeartbeat(to: ReaderProxy, count: Int32)
    | Receive(reader: ReaderProxy, p: Packet, prefix: GuidPrefix, count: Int32)
    | Confirm
    | GiveUp

  ghost predicate Initial(w: World) {
    && w.writes == [] && w.delivering == None && w.confirmed == map[] && w.sent == {}
    && (forall r | r in w.heard :: w.heard[r] == [] && r.id != UNKNOWN_ENTITY)
  }

  /** When a step can happen. Deliveries do not overlap; the datagrams of deliver_change go
      to readers of the snapshot; it returns true only when for every one of them a
      settling ACKNACK came in, and may return false at any moment. */
  ghost predicate Enabled(w: World, s: Step) {
    match s
    case Write(_, _) => w.delivering.None? && |w.writes| < INT64_MAX - 1
    case SendData(to) =>
      w.delivering.Some? && to in w.delivering.value && Data.Encodable(w.Submessage(|w.writes|, to.id))
    case SendHeartbeat(to, count) => w.delivering.Some? && to in w.delivering.value && count > 0
    case Receive(r, p, _, count) =>
      r in w.heard && p in w.sent && (p.AckPacket? || p.to.endpoint == r.endpoint) && count > 0
    case Confirm =>
      w.delivering.Some? &&
      forall r | r in w.delivering.value ::
        exists p | p in w.sent :: Settles(Datagram(w.Wire(p), w.Source(p)), w.guid.entity, r, |w.writes|)
    case GiveUp => w.delivering.Some?
  }

  /** The reader decodes the bytes of the packet; if it accepts them its record of the
      writer moves on and an ACKNACK with that record's state goes out. */
  ghost function Arrive(w: World, r: ReaderProxy, p: Packet, prefix: GuidPrefix, count: Int32): World
    requires r in w.heard
  {
    match Parse(r.id, w.Wire(p))
    case Accepted(g, e) =>
      var heard := w.heard[r] + [e];
      var state := Run(heard).0;
      if g != w.guid || !(0 <= state.highest <= INT64_MAX) then w
      else w.(heard := w.heard[r := heard],
              sent := w.sent + {AckPacket(r, prefix, MakeAck(r.id, g.entity, state, count))})
    case _ => w
  }

  ghost function Next(w: World, s: Step): World
    requires Enabled(w, s)
  {
    match s
    case Write(payload, snapshot) => w.(writes := w.writes + [payload], delivering := Some(snapshot))
    case SendData(to) => w.(sent := w.sent + {DataPacket(to, |w.writes|)})
    case SendHeartbeat(to, count) => w.(sent := w.sent + {HeartbeatPacket(to, |w.writes|, count)})
    case Receive(r, p, prefix, count) => Arrive(w, r, p, prefix, count)
    case Confirm => w.(confirmed := w.confirmed[|w.writes| := w.delivering.value], delivering := None)
    case GiveUp => w.(delivering := None)
  }

  ghost predicate Execution(worlds: seq<World>, steps: seq<Step>) {
    && |worlds| == |steps| + 1 && Initial(worlds[0])
    && forall i | 0 <= i < |steps| :: Enabled(worlds[i], steps[i]) && worlds[i + 1] == Next(worlds[i], steps[i])
  }

  // ---- The invariant ----

  /** What the writer's packets make a reader hear. */
  ghost predicate Told(w: World, e: Event) {
    match e
    case DataEvent(c) => 1 <= c.sequence <= |w.writes| && c == w.Change(c.sequence)
    case HeartbeatEvent(first, last) => 1 <= first == last <= |w.writes|
    case GapEvent(_) => false
  }

  ghost predicate SentByWriter(w: World, p: Packet)
    requires !p.AckPacket?
  {
    && 1 <= p.n <= |w.writes|
    && (p.DataPacket? ==> Data.Encodable(w.Submessage(p.n, p.to.id)))
    && (p.HeartbeatPacket? ==> p.count > 0)
  }

  /** An ACKNACK in the network tells what its reader knew at some earlier moment. */
  ghost predicate SentByReader(w: World, p: Packet)
    requires p.AckPacket?
  {
    && p.from in w.heard
    && exists k :: 0 < k <= |w.heard[p.from]| &&
         var s := Run(w.heard[p.from][..k]).0;
         0 <= s.highest <= INT64_MAX && p.ack.count > 0 && p.ack == MakeAck(p.from.id, w.guid.entity, s, p.ack.count)
  }

  ghost predicate HasCommitted(w: World, r: ReaderProxy, n: int) {
    r in w.heard && w.Change(n) in w.Log(r)
  }

  /** Some reader the proxy stands for has committed change n. */
  ghost predicate Served(w: World, proxy: ReaderProxy, n: int) {
    exists q | q in w.heard :: StandsFor(proxy, q) && HasCommitted(w, q, n)
  }

  ghost predicate Invariant(w: World) {
    && |w.writes| < INT64_MAX
    && (forall r | r in w.heard :: r.id != UNKNOWN_ENTITY && forall e | e in w.heard[r] :: Told(w, e))
    && (forall p | p in w.sent :: if p.AckPacket? then SentByReader(w, p) else SentByWriter(w, p))
    && (forall n | n in w.confirmed :: 1 <= n <= |w.writes|)
    && (forall n, r | n in w.confirmed && r in w.confirmed[n] :: Served(w, r, n))
    && (w.delivering.Some? ==> w.writes != [])
  }

  // ---- What the bytes of a packet mean ----

  lemma Kinds(body: Bytes)
    ensures Data.Decode(body).Some? ==> KindIs(body, KIND_DATA)
    ensures DecodeHeartbeat(body).Some? ==> KindIs(body, KIND_HEARTBEAT)
    ensures DecodeAckNack(body).Some? ==> KindIs(body, KIND_ACKNACK)
  {
    hide DecodeSubmessageHeader;
    hide HeartbeatContent;
    hide AckNackContent;
    hide Data.DecodeContent;
    hide Test;
  }

  predicate KindIs(body: Bytes, kind: Byte) {
    DecodeSubmessageHeader(body).Some? && DecodeSubmessageHeader(body).value.kind == kind
  }

  lemma WireParts(header: MessageHeader, body: Bytes)
    requires body != []
    ensures var bytes := EncodeMessageHeader(header) + body;
            && DecodeMessageHeader(bytes) == Some(header)
            && |bytes| > MESSAGE_HEADER_SIZE && bytes[MESSAGE_HEADER_SIZE..] == body
  {
    hide DecodeMessageHeader;
    MessageHeaderRoundTrip(header, body);
  }

  /** A DATA packet is understood by the readers it addresses as the change it carries. */
  lemma DataUnderstood(w: World, p: Packet, id: EntityId)
    requires p.DataPacket? && SentByWriter(w, p) && |w.writes| <= INT64_MAX
    ensures Parse(id, w.Wire(p)) ==
            if TargetsEntity(p.to.id, id) then Accepted(w.guid, DataEvent(w.Change(p.n))) else NotForMe
    ensures AckNackIn(w.Wire(p), w.guid.entity).None?
  {
    hide DecodeMessageHeader;
    hide EncodeMessageHeader;
    hide DecodeSubmessageHeader;
    hide Data.Decode;
    hide Data.Encode;
    var d := w.Submessage(p.n, p.to.id);
    Data.RoundTrip(d, Little, []);
    var body := Data.Encode(d, Little).value;
    assert body + [] == body;
    Kinds(body);
    if body == [] { NothingDecodes(); }
    WireParts(MessageHeader(2, 3, [0, 0], w.guid.prefix), body);
  }

  lemma NothingDecodes()
    ensures Data.Decode([]).None? && DecodeHeartbeat([]).None? && DecodeAckNack([]).None?
  {
  }

  lemma HeartbeatUnderstood(w: World, p: Packet, id: EntityId)
    requires p.HeartbeatPacket? && SentByWriter(w, p) && |w.writes| <= INT64_MAX
    ensures Parse(id, w.Wire(p)) ==
            if TargetsEntity(p.to.id, id) then Accepted(w.guid, HeartbeatEvent(p.n, p.n)) else NotForMe
    ensures AckNackIn(w.Wire(p), w.guid.entity).None?
  {
    hide DecodeMessageHeader;
    hide EncodeMessageHeader;
    hide DecodeSubmessageHeader;
    hide DecodeHeartbeat;
    hide EncodeHeartbeat;
    var h := Heartbeat(p.to.id, w.guid.entity, p.n, p.n, p.count, false, false);
    HeartbeatRoundTrip(h, Little, []);
    var body := EncodeHeartbeat(h, Little).value;
    assert body + [] == body;
    Kinds(body);
    WireParts(MessageHeader(2, 3, [0, 0], w.guid.prefix), body);
  }

  lemma AckUnderstood(w: World, p: Packet, id: EntityId)
    requires p.AckPacket? && p.ack.Encodable()
    ensures Parse(id, w.Wire(p)) == Ignorable
    ensures AckNackIn(w.Wire(p), w.guid.entity) ==
            if p.ack.writer != w.guid.entity || p.ack.reader == UNKNOWN_ENTITY then None else Some(p.ack)
  {
    hide DecodeMessageHeader;
    hide EncodeMessageHeader;
    hide DecodeSubmessageHeader;
    hide DecodeAckNack;
    hide EncodeAckNack;
    hide AckNack.Encodable;
    AckNackRoundTrip(p.ack, Little, []);
    var body := EncodeAckNack(p.ack, Little).value;
    assert body + [] == body;
    Kinds(body);
    WireParts(MessageHeader(2, 3, [0, 0], p.prefix), body);
  }

  // ---- What a settling ACKNACK proves ----

  lemma ToldIsDecoded(w: World, events: seq<Event>)
    requires |w.writes| <= INT64_MAX && forall e | e in events :: Told(w, e)
    ensures NoGap(events) && forall e | e in events :: e.Decoded()
  {
  }

  lemma {:induction false} LogGrows(events: seq<Event>, k: nat)
    requires k <= |events|
    ensures Run(events[..k]).1 <= Run(events).1
    decreases |events|
  {
    hide Reception.Step;
    if k < |events| {
      var before := events[..|events| - 1];
      LogGrows(before, k);
      assert before[..k] == events[..k];
    } else {
      assert events[..k] == events;
    }
  }

  lemma SentAckEncodable(w: World, p: Packet)
    requires p.AckPacket? && SentByReader(w, p)
    ensures p.ack.Encodable() && p.ack.reader == p.from.id
  {
    hide FillBits;
    hide SequenceNumberSet.Contains;
    hide SequenceNumberSet.Validated;
    var k :| 0 < k <= |w.heard[p.from]| &&
             var s := Run(w.heard[p.from][..k]).0;
             0 <= s.highest <= INT64_MAX && p.ack.count > 0 &&
             p.ack == MakeAck(p.from.id, w.guid.entity, s, p.ack.count);
    AckMembers(Run(w.heard[p.from][..k]).0);
  }

  /** If a reader that heard only what the writer sent so far acknowledges the latest
      change, it has committed exactly that change. */
  lemma AckMeansCommitted(w: World, events: seq<Event>, reader: EntityId, count: Int32)
    requires 0 < |w.writes| < INT64_MAX && events != [] && forall e | e in events :: Told(w, e)
    ensures 0 <= Run(events).0.highest <= INT64_MAX
    ensures Accepts(MakeAck(reader, w.guid.entity, Run(events).0, count), |w.writes|) ==>
              w.Change(|w.writes|) in Run(events).1
  {
    hide Run;
    hide Accepts;
    hide FillBits;
    hide MakeAck;
    hide Explained;
    hide Faithful;
    hide Announced;
    hide First;
    var n := |w.writes|;
    var (s, log) := Run(events);
    ToldIsDecoded(w, events);
    RunInvariant(events);
    NoGapRun(events);
    AnnouncedSoFar(w, events, s.announced);
    if !s.ranged {
      UnrangedAsks(reader, w.guid.entity, s, count, n);
    } else {
      VerdictExact(reader, w.guid.entity, s, count, n);
      if n <= s.highest {
        NoSilentLoss(events, n);
        NothingSkipped(w, events, n);
        var i :| 0 <= i < |log| && log[i].sequence == n;
        CommitsInOrder(events);
        assert log[i] in log;
        ToldFirst(w, events, log[i]);
      }
    }
  }

  lemma AnnouncedSoFar(w: World, events: seq<Event>, n: int)
    requires forall e | e in events :: Told(w, e)
    ensures n >= 1 && Announced(events, n) ==> n <= |w.writes|
  {
    if Announced(events, n) {
      var i :| 0 <= i < |events| && match events[i]
                                    case DataEvent(c) => n <= c.sequence
                                    case HeartbeatEvent(_, last) => n <= last
                                    case GapEvent(_) => false;
      assert Told(w, events[i]);
    }
  }

  lemma NothingSkipped(w: World, events: seq<Event>, n: int)
    requires n == |w.writes| && forall e | e in events :: Told(w, e)
    ensures !Declared(events, n) && !BelowRange(events, n)
  {
    forall i | 0 <= i < |events| ensures !events[i].GapEvent? && !(events[i].HeartbeatEvent? && n < events[i].first) {
      assert Told(w, events[i]);
    }
  }

  lemma ToldFirst(w: World, events: seq<Event>, c: CacheChange)
    requires First(events, c) && forall e | e in events :: Told(w, e)
    ensures 1 <= c.sequence <= |w.writes| && c == w.Change(c.sequence)
  {
    assert DataEvent(c) in events;
    assert Told(w, DataEvent(c));
  }

  /** A settling datagram for the latest change, from whatever the network holds, is an
      ACKNACK of a reader that the proxy stands for and that has committed the change. */
  lemma SettledMeansCommitted(w: World, p: Packet, r: ReaderProxy)
    requires Invariant(w) && w.writes != [] && p in w.sent
    requires Settles(Datagram(w.Wire(p), w.Source(p)), w.guid.entity, r, |w.writes|)
    ensures p.AckPacket? && StandsFor(r, p.from) && HasCommitted(w, p.from, |w.writes|)
  {
    hide World.Wire;
    hide MakeAck;
    hide AckNackIn;
    hide Accepts;
    hide AckNack.Encodable;
    hide Run;
    match p
    case DataPacket(_, _) => DataUnderstood(w, p, r.id);
    case HeartbeatPacket(_, _, _) => HeartbeatUnderstood(w, p, r.id);
    case AckPacket(from, _, ack) =>
      SentAckEncodable(w, p);
      AckUnderstood(w, p, r.id);
      MatchIdentifies(ack, from, r);
      var k :| 0 < k <= |w.heard[from]| &&
               var s := Run(w.heard[from][..k]).0;
               0 <= s.highest <= INT64_MAX && ack.count > 0 && ack == MakeAck(from.id, w.guid.entity, s, ack.count);
      var events := w.heard[from][..k];
      AckMeansCommitted(w, events, from.id, ack.count);
      LogGrows(w.heard[from], k);
  }

  // ---- Each step keeps the invariant ----

  /** Nothing takes a committed change away again. */
  lemma ServedStays(w: World, v: World, r: ReaderProxy, n: int)
    requires Served(w, r, n) && 1 <= n <= |w.writes|
    requires v.guid == w.guid && w.writes <= v.writes
    requires forall q | q in w.heard :: q in v.heard && w.Log(q) <= v.Log(q)
    ensures Served(v, r, n)
  {
    hide Run;
    var q :| q in w.heard && StandsFor(r, q) && HasCommitted(w, q, n);
    assert v.Change(n) == w.Change(n);
    assert w.Change(n) in v.Log(q);
  }

  lemma WriteKeeps(w: World, s: Step)
    requires Invariant(w) && Enabled(w, s) && s.Write?
    ensures Invariant(Next(w, s))
  {
    hide Run;
    hide MakeAck;
    var v := Next(w, s);
    assert forall n | 1 <= n <= |w.writes| :: v.Change(n) == w.Change(n);
    forall r, e | r in w.heard && e in w.heard[r] ensures Told(v, e) {
      assert Told(w, e);
    }
    forall p | p in w.sent ensures if p.AckPacket? then SentByReader(v, p) else SentByWriter(v, p) {
      if !p.AckPacket? {
        assert SentByWriter(w, p);
        assert v.Submessage(p.n, p.to.id) == w.Submessage(p.n, p.to.id);
      } else {
        assert SentByReader(w, p);
      }
    }
    forall n, r | n in w.confirmed && r in w.confirmed[n] ensures Served(v, r, n) {
      ServedStays(w, v, r, n);
    }
  }

  lemma SendKeeps(w: World, s: Step)
    requires Invariant(w) && Enabled(w, s) && (s.SendData? || s.SendHeartbeat?)
    ensures Invariant(Next(w, s))
  {
    hide Run;
    hide MakeAck;
    var v := Next(w, s);
    forall p | p in w.sent ensures if p.AckPacket? then SentByReader(v, p) else SentByWriter(v, p) {
      if p.AckPacket? {
        assert SentByReader(w, p);
      } else {
        assert SentByWriter(w, p);
      }
    }
    forall n, r | n in w.confirmed && r in w.confirmed[n] ensures Served(v, r, n) {
      ServedStays(w, v, r, n);
    }
    forall r, e | r in w.heard && e in w.heard[r] ensures Told(v, e) {
      assert Told(w, e);
    }
  }

  /** What a reader accepts from the network is what the writer sent. */
  lemma AcceptedIsTold(w: World, r: ReaderProxy, p: Packet)
    requires Invariant(w) && p in w.sent
    ensures var incoming := Parse(r.id, w.Wire(p));
            incoming.Accepted? ==> incoming.writer == w.guid && Told(w, incoming.event)
  {
    hide Parse;
    hide World.Wire;
    hide AckNack.Encodable;
    hide MakeAck;
    match p
    case DataPacket(_, _) => DataUnderstood(w, p, r.id);
    case HeartbeatPacket(_, _, _) => HeartbeatUnderstood(w, p, r.id);
    case AckPacket(_, _, _) =>
      SentAckEncodable(w, p);
      AckUnderstood(w, p, r.id);
  }

  lemma ReceiveKeeps(w: World, r: ReaderProxy, p: Packet, prefix: GuidPrefix, count: Int32)
    requires Invariant(w) && Enabled(w, Receive(r, p, prefix, count))
    ensures Invariant(Arrive(w, r, p, prefix, count))
  {
    hide Parse;
    hide World.Wire;
    hide Run;
    hide MakeAck;
    AcceptedIsTold(w, r, p);
    var v := Arrive(w, r, p, prefix, count);
    if v != w {
      var e := Parse(r.id, w.Wire(p)).event;
      HearKeeps(w, v, r, e, prefix, count);
    }
  }

  lemma HearKeeps(w: World, v: World, r: ReaderProxy, e: Event, prefix: GuidPrefix, count: Int32)
    requires Invariant(w) && r in w.heard && Told(w, e) && count > 0
    requires var state := Run(w.heard[r] + [e]).0;
             && 0 <= state.highest <= INT64_MAX
             && v == w.(heard := w.heard[r := w.heard[r] + [e]],
                        sent := w.sent + {AckPacket(r, prefix, MakeAck(r.id, w.guid.entity, state, count))})
    ensures Invariant(v)
  {
    hide Run;
    hide MakeAck;
    var events := w.heard[r] + [e];
    assert forall q, f :: q in v.heard && f in v.heard[q] ==> f == e || (q in w.heard && f in w.heard[q]);
    forall q, f | q in v.heard && f in v.heard[q] ensures Told(v, f) {
      assert Told(w, f);
    }
    forall p | p in v.sent ensures if p.AckPacket? then SentByReader(v, p) else SentByWriter(v, p) {
      if p !in w.sent {
        AckOfNow(v, p, count);
      } else if p.AckPacket? {
        assert SentByReader(w, p);
        OlderAck(w, v, p, r, e);
      } else {
        assert SentByWriter(w, p);
      }
    }
    LogGrows(events, |w.heard[r]|);
    assert events[..|w.heard[r]|] == w.heard[r];
    forall n, q | n in w.confirmed && q in w.confirmed[n] ensures Served(v, q, n) {
      ServedStays(w, v, q, n);
    }
  }

  lemma AckOfNow(v: World, p: Packet, count: Int32)
    requires p.AckPacket? && p.from in v.heard && v.heard[p.from] != [] && count > 0
    requires var state := Run(v.heard[p.from]).0;
             0 <= state.highest <= INT64_MAX && p.ack == MakeAck(p.from.id, v.guid.entity, state, count)
    ensures SentByReader(v, p)
  {
    var events := v.heard[p.from];
    assert events[..|events|] == events;
  }

  lemma OlderAck(w: World, v: World, p: Packet, r: ReaderProxy, e: Event)
    requires p.AckPacket? && SentByReader(w, p) && r in w.heard
    requires v.heard == w.heard[r := w.heard[r] + [e]] && v.guid == w.guid
    ensures SentByReader(v, p)
  {
    hide Run;
    hide MakeAck;
    var k :| 0 < k <= |w.heard[p.from]| &&
             var s := Run(w.heard[p.from][..k]).0;
             0 <= s.highest <= INT64_MAX && p.ack.count > 0 &&
             p.ack == MakeAck(p.from.id, w.guid.entity, s, p.ack.count);
    assert v.heard[p.from][..k] == w.heard[p.from][..k];
  }

  lemma ConfirmKeeps(w: World)
    requires Invariant(w) && Enabled(w, Confirm)
    ensures Invariant(Next(w, Confirm))
  {
    hide Run;
    hide MakeAck;
    hide World.Wire;
    hide Settles;
    var v, n := Next(w, Confirm), |w.writes|;
    forall m, r | m in v.confirmed && r in v.confirmed[m] ensures Served(v, r, m) {
      if m == n {
        var p :| p in w.sent && Settles(Datagram(w.Wire(p), w.Source(p)), w.guid.entity, r, n);
        SettledMeansCommitted(w, p, r);
        assert StandsFor(r, p.from) && HasCommitted(w, p.from, m);
      }
      ServedStays(w, v, r, m);
    }
    SameButVerdict(w, v);
  }

  /** Changing only what is being delivered or confirmed keeps the rest. */
  lemma SameButVerdict(w: World, v: World)
    requires Invariant(w) && v == w.(delivering := v.delivering, confirmed := v.confirmed)
    ensures forall r | r in v.heard :: r.id != UNKNOWN_ENTITY && forall e | e in v.heard[r] :: Told(v, e)
    ensures forall p | p in v.sent :: if p.AckPacket? then SentByReader(v, p) else SentByWriter(v, p)
    ensures forall n, r :: HasCommitted(w, r, n) <==> HasCommitted(v, r, n)
  {
    hide Run;
    hide MakeAck;
    forall r, e | r in v.heard && e in v.heard[r] ensures Told(v, e) {
      assert Told(w, e);
    }
    forall p | p in v.sent ensures if p.AckPacket? then SentByReader(v, p) else SentByWriter(v, p) {
      assert if p.AckPacket? then SentByReader(w, p) else SentByWriter(w, p);
      if !p.AckPacket? {
        assert v.Submessage(p.n, p.to.id) == w.Submessage(p.n, p.to.id);
      }
    }
  }

  lemma StepKeeps(w: World, s: Step)
    requires Invariant(w) && Enabled(w, s)
    ensures Invariant(Next(w, s))
  {
    match s
    case Write(_, _) => WriteKeeps(w, s);
    case SendData(_) => SendKeeps(w, s);
    case SendHeartbeat(_, _) => SendKeeps(w, s);
    case Receive(r, p, prefix, count) => ReceiveKeeps(w, r, p, prefix, count);
    case Confirm => ConfirmKeeps(w);
    case GiveUp => SameButVerdict(w, Next(w, s));
  }

  lemma {:induction false} ExecutionInvariant(worlds: seq<World>, steps: seq<Step>, i: nat)
    requires Execution(worlds, steps) && i < |worlds|
    ensures Invariant(worlds[i])
  {
    hide Next;
    hide Enabled;
    if i > 0 {
      ExecutionInvariant(worlds, steps, i - 1);
      StepKeeps(worlds[i - 1], steps[i - 1]);
    } else {
      InitialInvariant(worlds[0]);
    }
  }

  lemma InitialInvariant(w: World)
    requires Initial(w)
    ensures Invariant(w)
  {
  }

  // ---- The theorems ----

  /** If deliver_change returned true for change n, then for every proxy of its snapshot
      some reader it stands for has committed exactly that number and payload, and if the
      id of the proxy is known, it is the reader itself: in every execution, whatever the
      network lost, repeated, delayed or reordered. */
  lemma ConfirmedMeansCommitted(worlds: seq<World>, steps: seq<Step>, n: int, r: ReaderProxy) returns (q: ReaderProxy)
    requires Execution(worlds, steps)
    requires var w := worlds[|steps|];
             n in w.confirmed && r in w.confirmed[n]
    ensures var w := worlds[|steps|];
            && 1 <= n <= |w.writes|
            && q in w.heard && StandsFor(r, q) && (r.id != UNKNOWN_ENTITY ==> q == r)
            && CacheChange(w.guid, n, w.writes[n - 1]) in w.Log(q)
  {
    hide Run;
    hide Next;
    hide Enabled;
    ExecutionInvariant(worlds, steps, |steps|);
    var w := worlds[|steps|];
    assert Served(w, r, n);
    q :| q in w.heard && StandsFor(r, q) && HasCommitted(w, q, n);
  }

  /** In every execution each reader's committed log is a strictly increasing selection of
      the writer's writes, with the payloads that were written. */
  lemma LogsFollowWrites(worlds: seq<World>, steps: seq<Step>, r: ReaderProxy)
    requires Execution(worlds, steps) && r in worlds[|steps|].heard
    ensures var w := worlds[|steps|];
            && Increasing(w.Log(r))
            && forall c | c in w.Log(r) ::
                 1 <= c.sequence <= |w.writes| && c == CacheChange(w.guid, c.sequence, w.writes[c.sequence - 1])
  {
    hide Run;
    hide Next;
    hide Enabled;
    hide First;
    ExecutionInvariant(worlds, steps, |steps|);
    var w := worlds[|steps|];
    var events := w.heard[r];
    ToldIsDecoded(w, events);
    CommitsInOrder(events);
    forall c | c in w.Log(r) ensures 1 <= c.sequence <= |w.writes| && c == w.Change(c.sequence) {
      ToldFirst(w, events, c);
    }
  }
}
