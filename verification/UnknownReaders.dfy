/** Proxies with an unknown reader id: what a true deliver_change means for them, and
    exactly when it means what it means for the others. */
module UnknownReaders {
  import opened Types
  import opened SequenceSet
  import opened Reception
  import opened ReaderRuns
  import opened Incoming
  import opened Acks
  import opened AckMatching
  import opened Protocol

  /** The writer and its endpoint, the prefix the readers put in front of their ACKNACKs,
      and the readers there are. */
  datatype Setting = Setting(guid: Guid, endpoint: Endpoint, prefix: GuidPrefix, readers: set<ReaderProxy>)

  ghost predicate KnownIds(readers: set<ReaderProxy>) {
    forall r | r in readers :: r.id != UNKNOWN_ENTITY
  }

  // ---- An execution in which one of two readers is missed ----

  function Untouched(readers: set<ReaderProxy>): map<ReaderProxy, seq<Event>> {
    map r | r in readers :: []
  }

  function Start(x: Setting): World {
    World(x.guid, x.endpoint, [], None, map[], Untouched(x.readers), {})
  }

  /** The world when everybody waits for the delivery of change 1 to proxy p. */
  function Delivering(x: Setting, p: ReaderProxy): World {
    Start(x).(writes := [[]], delivering := Some([p]))
  }

  function Offered(x: Setting, p: ReaderProxy): World {
    Delivering(x, p).(sent := {DataPacket(p, 1)})
  }

  function FirstChange(x: Setting): CacheChange {
    CacheChange(x.guid, 1, [])
  }

  const AFTER_ONE: State := State(1, 1, true, {}, {}, map[])

  /** Reader a has committed change 1 and acknowledged it. */
  ghost function Answered(x: Setting, p: ReaderProxy, a: ReaderProxy): World {
    var w := Offered(x, p);
    w.(heard := w.heard[a := [DataEvent(FirstChange(x))]],
       sent := w.sent + {AckPacket(a, x.prefix, MakeAck(a.id, x.guid.entity, AFTER_ONE, 1))})
  }

  ghost function Confirmed(x: Setting, p: ReaderProxy, a: ReaderProxy): World {
    Answered(x, p, a).(confirmed := map[1 := [p]], delivering := None)
  }

  lemma RunOfOne(c: CacheChange)
    requires c.sequence == 1
    ensures Run([DataEvent(c)]) == (AFTER_ONE, [c])
  {
    var d := DataEvent(c);
    var a := State(0, 1, true, {1}, {}, map[1 := c]);
    var none: seq<CacheChange> := [];
    assert none + [c] == [c] == [c] + none;
    assert [d][..0] == [];
    assert Run([]) == (INITIAL, []);
    assert Absorb(INITIAL, d) == a;
    assert Deliver(a) == AFTER_ONE && Commit(AFTER_ONE) == (AFTER_ONE, []);
    assert Commit(a) == (AFTER_ONE, [c]);
  }

  lemma Offers(x: Setting, p: ReaderProxy)
    ensures Enabled(Start(x), Write([], [p])) && Next(Start(x), Write([], [p])) == Delivering(x, p)
    ensures Enabled(Delivering(x, p), SendData(p)) && Next(Delivering(x, p), SendData(p)) == Offered(x, p)
  {
  }

  lemma Answers(x: Setting, p: ReaderProxy, a: ReaderProxy)
    requires p.id == UNKNOWN_ENTITY && a in x.readers && a.endpoint == p.endpoint
    ensures var w, s := Offered(x, p), Receive(a, DataPacket(p, 1), x.prefix, 1);
            Enabled(w, s) && Next(w, s) == Answered(x, p, a)
  {
    hide Parse;
    hide World.Wire;
    hide MakeAck;
    hide Run;
    var w, packet := Offered(x, p), DataPacket(p, 1);
    assert w.Change(1) == FirstChange(x);
    DataUnderstood(w, packet, a.id);
    RunOfOne(FirstChange(x));
    assert [] + [DataEvent(FirstChange(x))] == [DataEvent(FirstChange(x))];
  }

  lemma AnswerSettles(x: Setting, p: ReaderProxy, a: ReaderProxy)
    requires p.id == UNKNOWN_ENTITY && a.id != UNKNOWN_ENTITY && a.endpoint == p.endpoint
    ensures var w, packet := Answered(x, p, a), AckPacket(a, x.prefix, MakeAck(a.id, x.guid.entity, AFTER_ONE, 1));
            packet in w.sent && Settles(Datagram(w.Wire(packet), w.Source(packet)), x.guid.entity, p, 1)
  {
    hide World.Wire;
    hide Parse;
    hide FillBits;
    hide SequenceNumberSet.Contains;
    hide SequenceNumberSet.Validated;
    hide Accepts;
    var w, ack := Answered(x, p, a), MakeAck(a.id, x.guid.entity, AFTER_ONE, 1);
    AckMembers(AFTER_ONE);
    AckUnderstood(w, AckPacket(a, x.prefix, ack), a.id);
    VerdictExact(a.id, x.guid.entity, AFTER_ONE, 1, 1);
    MatchIdentifies(ack, a, p);
  }

  lemma Confirms(x: Setting, p: ReaderProxy, a: ReaderProxy)
    requires p.id == UNKNOWN_ENTITY && a in x.readers && a.id != UNKNOWN_ENTITY && a.endpoint == p.endpoint
    ensures Enabled(Answered(x, p, a), Confirm) && Next(Answered(x, p, a), Confirm) == Confirmed(x, p, a)
  {
    hide World.Wire;
    hide Settles;
    hide MakeAck;
    AnswerSettles(x, p, a);
  }

  /** With an unknown id, two readers behind one endpoint are enough: the write is confirmed
      as soon as one of them acknowledges, and the other has committed nothing. */
  lemma OneIsMissed(x: Setting, p: ReaderProxy, a: ReaderProxy, b: ReaderProxy)
    returns (worlds: seq<World>, steps: seq<Step>)
    requires KnownIds(x.readers) && {a, b} <= x.readers && a != b
    requires p.id == UNKNOWN_ENTITY && p.endpoint == a.endpoint == b.endpoint
    ensures Execution(worlds, steps) && worlds[0].heard.Keys == x.readers
    ensures var w := worlds[|steps|];
            && 1 in w.confirmed && w.confirmed[1] == [p]
            && a in w.heard && w.Log(a) == [CacheChange(x.guid, 1, [])]
            && b in w.heard && w.Log(b) == []
  {
    hide World.Wire;
    hide MakeAck;
    hide Next;
    hide Enabled;
    hide Run;
    worlds := [Start(x), Delivering(x, p), Offered(x, p), Answered(x, p, a), Confirmed(x, p, a)];
    steps := [Write([], [p]), SendData(p), Receive(a, DataPacket(p, 1), x.prefix, 1), Confirm];
    Offers(x, p);
    Answers(x, p, a);
    Confirms(x, p, a);
    RunOfOne(FirstChange(x));
    NothingRun();
  }

  lemma NothingRun()
    ensures Run([]) == (INITIAL, [])
  {
  }

  // ---- The exact condition ----

  /** What the documentation promises for proxy p among these readers: whenever a write is
      confirmed with p in its snapshot, every reader p stands for has committed it. */
  ghost predicate Promise(readers: set<ReaderProxy>, p: ReaderProxy) {
    forall worlds: seq<World>, steps: seq<Step>, n: int, q: ReaderProxy |
      && Execution(worlds, steps) && worlds[0].heard.Keys == readers
      && n in worlds[|steps|].confirmed && p in worlds[|steps|].confirmed[n]
      && q in readers && StandsFor(p, q) ::
      HasCommitted(worlds[|steps|], q, n)
  }

  /** The id is known, or the endpoint carries at most one reader. */
  ghost predicate Unambiguous(readers: set<ReaderProxy>, p: ReaderProxy) {
    || p.id != UNKNOWN_ENTITY
    || forall a, b | a in readers && b in readers && a.endpoint == p.endpoint == b.endpoint :: a == b
  }

  lemma {:induction false} SameReaders(worlds: seq<World>, steps: seq<Step>, i: nat)
    requires Execution(worlds, steps) && i < |worlds|
    ensures worlds[i].heard.Keys == worlds[0].heard.Keys
  {
    hide Parse;
    hide World.Wire;
    hide MakeAck;
    hide Run;
    if i > 0 {
      SameReaders(worlds, steps, i - 1);
      assert Enabled(worlds[i - 1], steps[i - 1]) && worlds[i] == Next(worlds[i - 1], steps[i - 1]);
    }
  }

  lemma PromiseKept(readers: set<ReaderProxy>, p: ReaderProxy, worlds: seq<World>, steps: seq<Step>, n: int,
                    q: ReaderProxy)
    requires Execution(worlds, steps) && worlds[0].heard.Keys == readers
    requires n in worlds[|steps|].confirmed && p in worlds[|steps|].confirmed[n]
    requires q in readers && StandsFor(p, q) && Unambiguous(readers, p)
    ensures HasCommitted(worlds[|steps|], q, n)
  {
    hide Run;
    hide Next;
    hide Enabled;
    var served := ConfirmedMeansCommitted(worlds, steps, n, p);
    SameReaders(worlds, steps, |steps|);
    assert served in readers && served == q;
  }

  /** The promise holds in every execution if and only if the id of the proxy is known or
      its endpoint carries at most one reader. */
  lemma PromiseExact(readers: set<ReaderProxy>, p: ReaderProxy)
    requires KnownIds(readers)
    ensures Promise(readers, p) <==> Unambiguous(readers, p)
  {
    hide Next;
    hide Enabled;
    hide HasCommitted;
    if Unambiguous(readers, p) {
      forall worlds: seq<World>, steps: seq<Step>, n: int, q: ReaderProxy |
        && Execution(worlds, steps) && worlds[0].heard.Keys == readers
        && n in worlds[|steps|].confirmed && p in worlds[|steps|].confirmed[n]
        && q in readers && StandsFor(p, q)
        ensures HasCommitted(worlds[|steps|], q, n)
      {
        PromiseKept(readers, p, worlds, steps, n, q);
      }
    } else {
      PromiseBroken(readers, p);
    }
  }

  lemma PromiseBroken(readers: set<ReaderProxy>, p: ReaderProxy)
    requires KnownIds(readers) && !Unambiguous(readers, p)
    ensures !Promise(readers, p)
  {
    hide Next;
    hide Enabled;
    hide Run;
    var a, b :| a in readers && b in readers && a.endpoint == p.endpoint == b.endpoint && a != b;
    var zeros: GuidPrefix := [0, 0, 0, 0, 0, 0, 0, 0, 0, 0, 0, 0];
    var x := Setting(Guid(zeros, UNKNOWN_ENTITY), p.endpoint, zeros, readers);
    var worlds, steps := OneIsMissed(x, p, a, b);
    assert !HasCommitted(worlds[|steps|], b, 1);
    assert StandsFor(p, b);
  }
}
