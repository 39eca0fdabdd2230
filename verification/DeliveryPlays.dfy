/** What the writer class promises about deliver_change, played in the protocol. */
module DeliveryPlays {
  import opened Types
  import opened AckMatching
  import opened Delivery
  import opened Protocol
  import opened WriterInProtocol
  import W = ReliableWriter

  /** The world behind an action: what it hands to the transport is in the network. */
  function Moved(w: World, call: Call, a: Action): World
    requires Changeable(call.change)
  {
    if a.Settle? || a.index >= |call.snapshot| || Handed(call.change, call.snapshot, a) == [] then w
    else w.(sent := w.sent + {PacketOf(call, a)})
  }

  /** The world moves on with a moment. All that is asked of the network is that it did not
      forge the datagram the writer settled a reader on. */
  ghost predicate Follows(w: World, v: World, call: Call, m: Moment)
    requires Changeable(call.change)
  {
    match m
    case Did(a) => v == Moved(w, call, a) && (a.Settle? ==> FromNetwork(w, a.datagram))
    case Heard(s) => s.Receive? && Enabled(w, s) && v == Next(w, s)
  }

  ghost predicate AllFollow(worlds: seq<World>, call: Call, moments: seq<Moment>)
    requires Changeable(call.change)
  {
    && |worlds| == |moments| + 1
    && forall i | 0 <= i < |moments| :: Follows(worlds[i], worlds[i + 1], call, moments[i])
  }

  /** What the contract of deliver_change says of each of its actions. */
  ghost predicate Lawful(call: Call, a: Action) {
    && a.index < |call.snapshot|
    && (a.SendHeartbeat? ==> a.count > 0)
    && (a.Settle? ==> Settles(a.datagram, call.change.writer.entity, call.snapshot[a.index], call.change.sequence))
  }

  /** Every action of a grounded trace is possible in a world whose network holds the
      datagrams the writer received. */
  lemma GroundedPossible(w: World, call: Call, trace: seq<Action>, sent: seq<(Bytes, Endpoint)>,
                         received: seq<Datagram>, k: nat)
    requires Grounded(call, trace, sent, received) && k < |trace|
    requires trace[k].index < |call.snapshot| && (trace[k].SendHeartbeat? ==> trace[k].count > 0)
    requires forall d | d in received[call.heard..] :: FromNetwork(w, d)
    ensures Possible(w, call, Did(trace[k])) && Lawful(call, trace[k])
  {
    hide FromNetwork;
    hide Settles;
  }

  /** One moment: it is possible, and the step behind it leads to the next world. */
  lemma OneMoment(w: World, v: World, call: Call, m: Moment)
    requires InProgress(w, call) && Changeable(call.change) && Follows(w, v, call, m)
    requires m.Did? ==> Lawful(call, m.action)
    ensures Possible(w, call, m)
    ensures var next := StepsOf(w, call, m);
            if next == [] then v == w else |next| == 1 && Enabled(w, next[0]) && v == Next(w, next[0])
  {
    hide World.Wire;
    hide Handed;
    hide Settles;
    hide FromNetwork;
    if m.Did? && !m.action.Settle? {
      HandedIsStep(w, call, m.action);
    }
  }

  lemma {:induction false} ActionsInclude(moments: seq<Moment>, i: nat)
    requires i < |moments| && moments[i].Did?
    ensures moments[i].action in Actions(moments)
  {
    var last := |moments| - 1;
    if i < last {
      ActionsInclude(moments[..last], i);
    }
  }

  /** A call whose actions are lawful, with whatever the readers hear meanwhile, plays as a
      stretch of the protocol and ends in the world it led to. */
  lemma {:induction false} LawfulPlays(ws: seq<World>, call: Call, moments: seq<Moment>)
    returns (worlds: seq<World>, steps: seq<Step>)
    requires Changeable(call.change) && AllFollow(ws, call, moments) && InProgress(ws[0], call)
    requires forall a | a in Actions(moments) :: Lawful(call, a)
    ensures Plays(worlds, steps, call, moments) && worlds[0] == ws[0] && worlds[|steps|] == ws[|moments|]
    decreases |moments|
  {
    hide Enabled;
    hide Next;
    hide Lawful;
    hide Follows;
    hide Possible;
    hide StepsOf;
    hide InProgress;
    if moments == [] {
      worlds, steps := [ws[0]], [];
    } else {
      var last := |moments| - 1;
      var m, before := moments[last], moments[..last];
      assert ws[..last + 1][last] == ws[last];
      worlds, steps := LawfulPlays(ws[..last + 1], call, before);
      if m.Did? { ActionsInclude(moments, last); }
      PlaysPath(worlds, steps, call, before);
      OneMoment(ws[last], ws[last + 1], call, m);
      hide Plays;
      var first := worlds[0];
      worlds, steps := PlayOn(worlds, steps, call, before, m);
      assert worlds[0] == first;
      assert before + [m] == moments;
    }
  }

  /** What the class guarantees after deliver_change makes the whole call, interleaved with
      anything the readers hear, a stretch of the protocol: it can end by giving up, and if
      the call returned true, by confirming the write. */
  lemma ResultPlays(writer: W.ReliableWriter, call: Call, ws: seq<World>, moments: seq<Moment>)
    returns (worlds: seq<World>, steps: seq<Step>)
    requires writer.Result(call) && Actions(moments) == writer.trace
    requires AllFollow(ws, call, moments) && InProgress(ws[0], call)
    ensures Path(worlds, steps) && worlds[0] == ws[0] && worlds[|steps|] == ws[|moments|]
    ensures Enabled(ws[|moments|], GiveUp)
    ensures writer.AllSettled(call, writer.env.received) ==> Enabled(ws[|moments|], Confirm)
  {
    hide Enabled;
    hide Next;
    hide InProgress;
    hide AllFollow;
    hide Settles;
    hide SettledIn;
    var trace := writer.trace;
    forall a | a in Actions(moments) ensures Lawful(call, a) {
      var k :| 0 <= k < |trace| && trace[k] == a;
    }
    worlds, steps := LawfulPlays(ws, call, moments);
    CallEnds(worlds, steps, call, moments);
  }
}
