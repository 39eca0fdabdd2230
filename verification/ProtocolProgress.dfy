/** The protocol gets on: whoever got the latest change and its HEARTBEAT has answered with
    an ACKNACK that settles it, and once all have, the delivery can be confirmed. */
module ProtocolProgress {
  import opened Types
  import opened Reliability
  import opened Reception
  import opened ReaderRuns
  import opened ReaderProgress
  import opened Incoming
  import opened Acks
  import opened AckMatching
  import opened Protocol

  // ---- Every reader's latest ACKNACK is out ----

  /** The ACKNACK of what reader r knows now was sent. */
  ghost predicate Replied(w: World, r: ReaderProxy)
    requires r in w.heard
  {
    exists p | p in w.sent :: IsLatest(w, r, p)
  }

  ghost predicate IsLatest(w: World, r: ReaderProxy, p: Packet)
    requires r in w.heard
  {
    var s := Run(w.heard[r]).0;
    && p.AckPacket? && p.from == r && 0 <= s.highest <= INT64_MAX && p.ack.count > 0
    && p.ack == MakeAck(r.id, w.guid.entity, s, p.ack.count)
  }

  ghost predicate UpToDate(w: World) {
    forall r | r in w.heard && w.heard[r] != [] :: Replied(w, r)
  }

  lemma RepliedStays(w: World, v: World, r: ReaderProxy)
    requires r in w.heard && Replied(w, r) && v.guid == w.guid && w.sent <= v.sent
    requires r in v.heard && v.heard[r] == w.heard[r]
    ensures Replied(v, r)
  {
    hide Run;
    hide MakeAck;
    var p :| p in w.sent && IsLatest(w, r, p);
    assert IsLatest(v, r, p);
  }

  lemma ReceiveReplies(w: World, r: ReaderProxy, p: Packet, prefix: GuidPrefix, count: Int32)
    requires Protocol.Invariant(w) && UpToDate(w) && Enabled(w, Receive(r, p, prefix, count))
    ensures UpToDate(Arrive(w, r, p, prefix, count))
  {
    hide Run;
    hide MakeAck;
    hide Parse;
    hide World.Wire;
    hide Replied;
    var v := Arrive(w, r, p, prefix, count);
    if v != w {
      var state := Run(v.heard[r]).0;
      assert IsLatest(v, r, AckPacket(r, prefix, MakeAck(r.id, w.guid.entity, state, count))) by {
        AcceptedIsTold(w, r, p);
        AckFields(r.id, w.guid.entity, state, count);
      }
      ItReplied(v, r, AckPacket(r, prefix, MakeAck(r.id, w.guid.entity, state, count)));
      forall q | q in v.heard && q != r && v.heard[q] != [] ensures Replied(v, q) {
        RepliedStays(w, v, q);
      }
    }
  }

  lemma AckFields(reader: EntityId, writer: EntityId, s: State, count: Int32)
    requires 0 <= s.highest <= INT64_MAX
    ensures MakeAck(reader, writer, s, count).count == count
  {
  }

  lemma ItReplied(w: World, r: ReaderProxy, p: Packet)
    requires r in w.heard && p in w.sent && IsLatest(w, r, p)
    ensures Replied(w, r)
  {
  }

  lemma StepReplies(w: World, s: Protocol.Step)
    requires Protocol.Invariant(w) && UpToDate(w) && Enabled(w, s)
    ensures UpToDate(Protocol.Next(w, s))
  {
    hide Run;
    hide MakeAck;
    hide Replied;
    hide Protocol.Invariant;
    hide Arrive;
    if s.Receive? {
      ReceiveReplies(w, s.reader, s.p, s.prefix, s.count);
    } else {
      var v := Protocol.Next(w, s);
      forall r | r in v.heard && v.heard[r] != [] ensures Replied(v, r) {
        RepliedStays(w, v, r);
      }
    }
  }

  lemma {:induction false} ExecutionReplies(worlds: seq<World>, steps: seq<Protocol.Step>, i: nat)
    requires Execution(worlds, steps) && i < |worlds|
    ensures UpToDate(worlds[i])
  {
    hide Protocol.Next;
    hide Enabled;
    hide Replied;
    if i > 0 {
      ExecutionReplies(worlds, steps, i - 1);
      ExecutionInvariant(worlds, steps, i - 1);
      StepReplies(worlds[i - 1], steps[i - 1]);
    }
  }

  // ---- What the latest ACKNACK says ----

  /** Reader r got the latest change and its HEARTBEAT, in whatever order. */
  ghost predicate GotLatest(w: World, r: ReaderProxy)
    requires r in w.heard
  {
    var n := |w.writes|;
    DataEvent(w.Change(n)) in w.heard[r] && HeartbeatEvent(n, n) in w.heard[r]
  }

  /** Its run has then reached the change, and nothing was announced beyond. */
  lemma LatestReached(w: World, r: ReaderProxy)
    requires Protocol.Invariant(w) && r in w.heard && w.writes != [] && GotLatest(w, r)
    ensures var s, n := Run(w.heard[r]).0, |w.writes|;
            Sound(s) && Settled(s) && s.ranged && s.highest == s.announced == n
  {
    hide Run;
    hide Explained;
    hide Faithful;
    hide Announced;
    hide Seen;
    var events, n := w.heard[r], |w.writes|;
    var s := Run(events).0;
    ToldIsDecoded(w, events);
    RunInvariant(events);
    NoGapRun(events);
    AnnouncedSoFar(w, events, s.announced);
    HeardReaches(events, n, n);
    SeenIn(events, w.Change(n));
    ReachesSeen(events, n);
  }

  lemma SeenIn(events: seq<Event>, c: CacheChange)
    requires DataEvent(c) in events
    ensures Seen(events, c.sequence)
  {
    var i :| 0 <= i < |events| && events[i] == DataEvent(c);
    assert events[i].DataEvent? && events[i].change.sequence == c.sequence;
  }

  /** Whoever got the latest change and its HEARTBEAT has sent an ACKNACK that settles every
      proxy that stands for it. */
  lemma LatestSettles(w: World, r: ReaderProxy, proxy: ReaderProxy) returns (p: Packet)
    requires Protocol.Invariant(w) && UpToDate(w) && w.writes != []
    requires r in w.heard && GotLatest(w, r) && StandsFor(proxy, r)
    ensures p in w.sent && p.AckPacket? && p.from == r
    ensures Settles(Datagram(w.Wire(p), w.Source(p)), w.guid.entity, proxy, |w.writes|)
  {
    hide Run;
    hide MakeAck;
    hide Accepts;
    hide World.Wire;
    hide AckNackIn;
    hide AckNack.Encodable;
    hide Told;
    LatestReached(w, r);
    assert Replied(w, r);
    p :| p in w.sent && IsLatest(w, r, p);
    assert SentByReader(w, p);
    SentAckEncodable(w, p);
    AckUnderstood(w, p, proxy.id);
    AckNames(r.id, w.guid.entity, Run(w.heard[r]).0, p.ack.count);
    MatchIdentifies(p.ack, r, proxy);
    VerdictExact(r.id, w.guid.entity, Run(w.heard[r]).0, p.ack.count, |w.writes|);
  }

  lemma AckNames(reader: EntityId, writer: EntityId, s: State, count: Int32)
    requires 0 <= s.highest <= INT64_MAX
    ensures var ack := MakeAck(reader, writer, s, count);
            ack.reader == reader && ack.writer == writer
  {
  }

  /** Once every proxy of the snapshot stands for a reader that got both, the delivery can
      end with success: in every execution. */
  lemma AllGotConfirms(worlds: seq<World>, steps: seq<Protocol.Step>)
    requires Execution(worlds, steps)
    requires var w := worlds[|steps|];
             && w.delivering.Some?
             && forall proxy | proxy in w.delivering.value ::
                  exists r | r in w.heard :: StandsFor(proxy, r) && GotLatest(w, r)
    ensures Enabled(worlds[|steps|], Confirm)
  {
    hide GotLatest;
    hide UpToDate;
    hide Settles;
    hide World.Wire;
    hide StandsFor;
    var w := worlds[|steps|];
    ExecutionInvariant(worlds, steps, |steps|);
    ExecutionReplies(worlds, steps, |steps|);
    forall proxy | proxy in w.delivering.value
      ensures exists p | p in w.sent ::
                Settles(Datagram(w.Wire(p), w.Source(p)), w.guid.entity, proxy, |w.writes|)
    {
      var r :| r in w.heard && StandsFor(proxy, r) && GotLatest(w, r);
      var p := LatestSettles(w, r, proxy);
    }
  }

  // ---- How a reader gets it ----

  /** The packet carries the latest change, or its HEARTBEAT, and addresses reader r. */
  ghost predicate Latest(w: World, p: Packet, r: ReaderProxy) {
    !p.AckPacket? && p in w.sent && p.n == |w.writes| && p.to.endpoint == r.endpoint && TargetsEntity(p.to.id, r.id)
  }

  /** A reader that is handed such a packet hears it. */
  lemma HandedIsHeard(w: World, r: ReaderProxy, p: Packet, prefix: GuidPrefix, count: Int32)
    requires Protocol.Invariant(w) && UpToDate(w) && r in w.heard && Latest(w, p, r) && count > 0
    ensures var v := Arrive(w, r, p, prefix, count);
            && Enabled(w, Receive(r, p, prefix, count))
            && Protocol.Invariant(v) && UpToDate(v)
            && v.writes == w.writes && w.sent <= v.sent && v.guid == w.guid
            && v.heard == w.heard[r := w.heard[r] +
                          [if p.DataPacket? then DataEvent(w.Change(p.n)) else HeartbeatEvent(p.n, p.n)]]
  {
    hide Run;
    hide MakeAck;
    hide Parse;
    hide World.Wire;
    hide Replied;
    hide SentByReader;
    hide Served;
    assert SentByWriter(w, p);
    ReceiveKeeps(w, r, p, prefix, count);
    ReceiveReplies(w, r, p, prefix, count);
    if p.DataPacket? { DataUnderstood(w, p, r.id); } else { HeartbeatUnderstood(w, p, r.id); }
    var e := if p.DataPacket? then DataEvent(w.Change(p.n)) else HeartbeatEvent(p.n, p.n);
    HeardIsSound(w, w.heard[r] + [e]);
  }

  lemma HeardIsSound(w: World, events: seq<Event>)
    requires |w.writes| <= INT64_MAX && forall e | e in events :: Told(w, e)
    ensures 0 <= Run(events).0.highest <= INT64_MAX
  {
    ToldIsDecoded(w, events);
    RunInvariant(events);
  }

  /** The two packets of one offer, in either order, are enough: once the network has handed
      both to the reader, an ACKNACK that settles it is on its way. */
  lemma OfferSettles(w: World, r: ReaderProxy, proxy: ReaderProxy, p: Packet, q: Packet,
                     prefix: GuidPrefix, c: Int32, d: Int32) returns (ack: Packet)
    requires Protocol.Invariant(w) && UpToDate(w) && r in w.heard && w.writes != [] && StandsFor(proxy, r)
    requires Latest(w, p, r) && Latest(w, q, r) && p.DataPacket? != q.DataPacket? && c > 0 && d > 0
    ensures var v := Arrive(Arrive(w, r, p, prefix, c), r, q, prefix, d);
            && ack in v.sent && ack.AckPacket? && ack.from == r
            && Settles(Datagram(v.Wire(ack), v.Source(ack)), v.guid.entity, proxy, |v.writes|)
  {
    hide Run;
    hide Arrive;
    hide Protocol.Invariant;
    hide UpToDate;
    hide Enabled;
    hide Settles;
    hide World.Wire;
    HandedIsHeard(w, r, p, prefix, c);
    var u := Arrive(w, r, p, prefix, c);
    HandedIsHeard(u, r, q, prefix, d);
    var v := Arrive(u, r, q, prefix, d);
    ack := LatestSettles(v, r, proxy);
  }
}
