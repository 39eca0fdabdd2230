/** deliver_change as steps of the protocol: what its contract says is what the step
    system of Protocol asks of the writer. */
module WriterInProtocol {
  import opened Types
  import opened Cdr
  import opened Message
  import opened Reliability
  import opened AckMatching
  import opened Delivery
  import opened Protocol
  import Acks
  import Data
  import Incoming
  import ReaderRuns

  /** The world while `call` is in progress: its change is the last write. */
  ghost predicate InProgress(w: World, call: Call) {
    && w.delivering == Some(call.snapshot)
    && 1 <= |w.writes| < INT64_MAX
    && call.change == w.Change(|w.writes|)
  }

  /** The step and the packet behind an action that sends. */
  function StepOf(call: Call, a: Action): Step
    requires !a.Settle? && a.index < |call.snapshot|
  {
    var to := call.snapshot[a.index];
    if a.SendData? then Protocol.SendData(to) else Protocol.SendHeartbeat(to, a.count)
  }

  function PacketOf(call: Call, a: Action): Packet
    requires !a.Settle? && a.index < |call.snapshot|
  {
    var to := call.snapshot[a.index];
    if a.SendData? then DataPacket(to, call.change.sequence) else HeartbeatPacket(to, call.change.sequence, a.count)
  }

  /** Whatever deliver_change hands to the transport is a step the protocol allows, and the
      bytes are those of the packet that step puts into the network; it hands over nothing
      exactly when the payload is too long to encode. */
  lemma HandedIsStep(w: World, call: Call, a: Action)
    requires InProgress(w, call) && !a.Settle? && a.index < |call.snapshot|
    requires a.SendHeartbeat? ==> a.count > 0
    ensures Enabled(w, StepOf(call, a)) <==> Handed(call.change, call.snapshot, a) != []
    ensures Enabled(w, StepOf(call, a)) ==>
              && Next(w, StepOf(call, a)) == w.(sent := w.sent + {PacketOf(call, a)})
              && Handed(call.change, call.snapshot, a) == [(w.Wire(PacketOf(call, a)), call.snapshot[a.index].endpoint)]
  {
    hide Data.Encode;
    hide Data.Encodable;
    hide EncodeHeartbeat;
    hide EncodeMessageHeader;
    var to := call.snapshot[a.index];
    assert DataFor(call.change, to) == w.Submessage(|w.writes|, to.id);
    Data.RoundTrip(DataFor(call.change, to), Little, []);
    if a.SendHeartbeat? {
      HeartbeatRoundTrip(HeartbeatFor(call.change, to, a.count), Little, []);
    }
  }

  /** A true result confirms the write in the protocol, provided the network did not forge
      what the writer received during the call. */
  lemma DeliveredConfirms(w: World, call: Call, received: seq<Datagram>)
    requires InProgress(w, call) && call.heard <= |received|
    requires forall d | d in received[call.heard..] :: exists p | p in w.sent :: d == Datagram(w.Wire(p), w.Source(p))
    requires forall r | r in call.snapshot ::
               exists d | d in received[call.heard..] :: Settles(d, call.change.writer.entity, r, call.change.sequence)
    ensures Enabled(w, Confirm)
    ensures Next(w, Confirm).confirmed == w.confirmed[call.change.sequence := call.snapshot]
  {
    hide Settles;
    hide World.Wire;
    forall r | r in call.snapshot
      ensures exists p | p in w.sent :: Settles(Datagram(w.Wire(p), w.Source(p)), w.guid.entity, r, |w.writes|)
    {
      var d :| d in received[call.heard..] && Settles(d, call.change.writer.entity, r, call.change.sequence);
      var p :| p in w.sent && d == Datagram(w.Wire(p), w.Source(p));
      assert Settles(Datagram(w.Wire(p), w.Source(p)), w.guid.entity, r, |w.writes|);
    }
  }

  // ---- A whole call ----

  /** A stretch of the protocol: worlds linked by enabled steps. */
  ghost predicate Path(worlds: seq<World>, steps: seq<Step>) {
    && |worlds| == |steps| + 1
    && forall i | 0 <= i < |steps| :: Enabled(worlds[i], steps[i]) && worlds[i + 1] == Next(worlds[i], steps[i])
  }

  /** What happens while a call is in progress: an action of the writer, or a reader that
      is handed a packet. */
  datatype Moment = Did(action: Action) | Heard(step: Step)

  ghost predicate FromNetwork(w: World, d: Datagram) {
    exists p | p in w.sent :: d == Datagram(w.Wire(p), w.Source(p))
  }

  /** The writer's actions are those its contract allows, and it settles a reader only on
      a datagram the network holds. */
  ghost predicate Possible(w: World, call: Call, m: Moment) {
    match m
    case Did(a) =>
      && a.index < |call.snapshot|
      && (a.SendHeartbeat? ==> a.count > 0)
      && (a.Settle? ==>
            FromNetwork(w, a.datagram) &&
            Settles(a.datagram, call.change.writer.entity, call.snapshot[a.index], call.change.sequence))
    case Heard(s) => s.Receive? && Enabled(w, s)
  }

  /** The protocol steps behind a moment: one, or none if nothing goes to the transport. */
  ghost function StepsOf(w: World, call: Call, m: Moment): seq<Step>
    requires InProgress(w, call) && Possible(w, call, m)
  {
    match m
    case Did(a) => if a.Settle? || Handed(call.change, call.snapshot, a) == [] then [] else [StepOf(call, a)]
    case Heard(s) => [s]
  }

  /** The actions of a call, in order. */
  function Actions(moments: seq<Moment>): seq<Action> {
    if moments == [] then []
    else
      var m := moments[|moments| - 1];
      Actions(moments[..|moments| - 1]) + if m.Did? then [m.action] else []
  }

  /** A path that plays the moments one after the other, each of them possible. */
  ghost predicate Plays(worlds: seq<World>, steps: seq<Step>, call: Call, moments: seq<Moment>)
    decreases |moments|
  {
    && Path(worlds, steps) && InProgress(worlds[|steps|], call)
    && if moments == [] then steps == []
       else
         exists k: nat | k <= |steps| ::
           && Plays(worlds[..k + 1], steps[..k], call, moments[..|moments| - 1])
           && Possible(worlds[k], call, moments[|moments| - 1])
           && steps[k..] == StepsOf(worlds[k], call, moments[|moments| - 1])
  }

  /** The network holds more, the writer is as before. */
  ghost predicate SameWriter(w: World, v: World) {
    w.sent <= v.sent && v.guid == w.guid && v.endpoint == w.endpoint && v.writes == w.writes
  }

  lemma StepKeepsCall(w: World, call: Call, m: Moment) returns (v: World)
    requires InProgress(w, call) && Possible(w, call, m)
    ensures InProgress(v, call) && SameWriter(w, v)
    ensures StepsOf(w, call, m) == [] ==> v == w
    ensures StepsOf(w, call, m) != [] ==>
              |StepsOf(w, call, m)| == 1 && Enabled(w, StepsOf(w, call, m)[0]) && v == Next(w, StepsOf(w, call, m)[0])
  {
    hide World.Wire;
    hide Handed;
    hide Settles;
    v := w;
    match m
    case Did(a) =>
      if !a.Settle? {
        HandedIsStep(w, call, a);
        if Handed(call.change, call.snapshot, a) != [] {
          v := Next(w, StepOf(call, a));
        }
      }
    case Heard(s) =>
      v := Next(w, s);
      ReceiveKeepsCall(w, call, s);
  }

  lemma ReceiveKeepsCall(w: World, call: Call, s: Step)
    requires InProgress(w, call) && s.Receive? && Enabled(w, s)
    ensures var v := Next(w, s);
            InProgress(v, call) && SameWriter(w, v)
  {
    hide World.Wire;
    hide Incoming.Parse;
    hide ReaderRuns.Run;
    hide Acks.MakeAck;
  }

  lemma PlaysPath(worlds: seq<World>, steps: seq<Step>, call: Call, moments: seq<Moment>)
    requires Plays(worlds, steps, call, moments)
    ensures Path(worlds, steps) && InProgress(worlds[|steps|], call)
  {
  }

  lemma PlaysNext(worlds: seq<World>, steps: seq<Step>, call: Call, moments: seq<Moment>, m: Moment, k: nat)
    requires Path(worlds, steps) && InProgress(worlds[|steps|], call) && k <= |steps|
    requires Plays(worlds[..k + 1], steps[..k], call, moments)
    requires InProgress(worlds[k], call) && Possible(worlds[k], call, m) && steps[k..] == StepsOf(worlds[k], call, m)
    ensures Plays(worlds, steps, call, moments + [m])
  {
    hide InProgress;
    hide Possible;
    hide StepsOf;
    hide Path;
    assert (moments + [m])[..|moments|] == moments;
  }

  lemma PathNext(worlds: seq<World>, steps: seq<Step>, step: Step)
    requires Path(worlds, steps) && Enabled(worlds[|steps|], step)
    ensures Path(worlds + [Next(worlds[|steps|], step)], steps + [step])
  {
    hide Enabled;
    hide Next;
    var more, done := worlds + [Next(worlds[|steps|], step)], steps + [step];
    assert forall i | 0 <= i < |worlds| :: more[i] == worlds[i];
    assert forall i | 0 <= i < |steps| :: done[i] == steps[i];
  }

  /** Any possible next moment extends the path. */
  lemma PlayOn(worlds: seq<World>, steps: seq<Step>, call: Call, moments: seq<Moment>, m: Moment)
    returns (more: seq<World>, done: seq<Step>)
    requires Plays(worlds, steps, call, moments) && Possible(worlds[|steps|], call, m)
    ensures Plays(more, done, call, moments + [m]) && worlds <= more && steps <= done
    ensures var w, next := worlds[|steps|], StepsOf(worlds[|steps|], call, m);
            if next == [] then more[|done|] == w
            else Enabled(w, next[0]) && more[|done|] == Next(w, next[0])
  {
    hide Plays;
    hide Path;
    hide InProgress;
    hide Possible;
    hide StepsOf;
    hide Enabled;
    hide Next;
    PlaysPath(worlds, steps, call, moments);
    var w, k := worlds[|steps|], |steps|;
    var v := StepKeepsCall(w, call, m);
    var extra := StepsOf(w, call, m);
    if extra == [] {
      more, done := worlds, steps;
    } else {
      more, done := worlds + [v], steps + [extra[0]];
      PathNext(worlds, steps, extra[0]);
      assert extra == [extra[0]];
    }
    assert more[..k + 1] == worlds && done[..k] == steps && done[k..] == extra;
    PlaysNext(more, done, call, moments, m, k);
  }

  lemma StaysInNetwork(w: World, v: World, d: Datagram)
    requires SameWriter(w, v) && FromNetwork(w, d)
    ensures FromNetwork(v, d)
  {
    var p :| p in w.sent && d == Datagram(w.Wire(p), w.Source(p));
    assert v.Wire(p) == w.Wire(p) by { SameWire(w, v, p); }
  }

  lemma SameWire(w: World, v: World, p: Packet)
    requires v.guid == w.guid && v.writes == w.writes
    ensures v.Wire(p) == w.Wire(p)
  {
    hide EncodeMessageHeader;
    hide EncodeHeartbeat;
    hide EncodeAckNack;
    if p.DataPacket? {
      assert v.Submessage(p.n, p.to.id) == w.Submessage(p.n, p.to.id);
    }
  }

  /** Every reader that settled did so on a datagram the network still holds. */
  ghost predicate SettledFromNetwork(w: World, call: Call, trace: seq<Action>) {
    forall i | 0 <= i < |call.snapshot| && SettledIn(trace, i) ::
      exists d :: FromNetwork(w, d) && Settles(d, call.change.writer.entity, call.snapshot[i], call.change.sequence)
  }

  lemma {:induction false} PlayedFromNetwork(worlds: seq<World>, steps: seq<Step>, call: Call, moments: seq<Moment>)
    requires Plays(worlds, steps, call, moments)
    ensures SettledFromNetwork(worlds[|steps|], call, Actions(moments))
    decreases |moments|
  {
    hide InProgress;
    hide FromNetwork;
    hide Settles;
    hide Enabled;
    hide Next;
    hide StepsOf;
    if moments != [] {
      var last := |moments| - 1;
      var m, before := moments[last], moments[..last];
      var k: nat :| k <= |steps| && Plays(worlds[..k + 1], steps[..k], call, before) &&
                    Possible(worlds[k], call, m) && steps[k..] == StepsOf(worlds[k], call, m);
      PlayedFromNetwork(worlds[..k + 1], steps[..k], call, before);
      var w, v := worlds[k], worlds[|steps|];
      var u := StepKeepsCall(w, call, m);
      assert u == v by {
        if StepsOf(w, call, m) != [] { assert steps[k] == steps[k..][0]; }
      }
      Carried(w, v, call, Actions(before), m);
    }
  }

  lemma Carried(w: World, v: World, call: Call, trace: seq<Action>, m: Moment)
    requires SameWriter(w, v) && SettledFromNetwork(w, call, trace) && Possible(w, call, m)
    ensures SettledFromNetwork(v, call, trace + if m.Did? then [m.action] else [])
  {
    hide FromNetwork;
    hide Settles;
    hide Enabled;
    var all := trace + if m.Did? then [m.action] else [];
    forall i | 0 <= i < |call.snapshot| && SettledIn(all, i)
      ensures exists d ::
                FromNetwork(v, d) && Settles(d, call.change.writer.entity, call.snapshot[i], call.change.sequence)
    {
      var k :| 0 <= k < |all| && all[k].Settle? && all[k].index == i;
      if k < |trace| {
        assert trace[k].Settle? && trace[k].index == i;
        assert SettledIn(trace, i);
        var d :| FromNetwork(w, d) && Settles(d, call.change.writer.entity, call.snapshot[i], call.change.sequence);
        StaysInNetwork(w, v, d);
      } else {
        StaysInNetwork(w, v, all[k].datagram);
      }
    }
  }

  /** A whole call, with whatever the readers hear meanwhile, is a stretch of the protocol
      behind the write: it can always end by giving up, and when every reader has settled,
      by confirming the write. */
  lemma CallEnds(worlds: seq<World>, steps: seq<Step>, call: Call, moments: seq<Moment>)
    requires Plays(worlds, steps, call, moments)
    ensures Path(worlds, steps) && Enabled(worlds[|steps|], GiveUp)
    ensures (forall i | 0 <= i < |call.snapshot| :: SettledIn(Actions(moments), i)) ==>
              Enabled(worlds[|steps|], Confirm)
  {
    hide World.Wire;
    hide Settles;
    hide SettledIn;
    var w := worlds[|steps|];
    PlayedFromNetwork(worlds, steps, call, moments);
    if forall i | 0 <= i < |call.snapshot| :: SettledIn(Actions(moments), i) {
      forall r | r in call.snapshot
        ensures exists p | p in w.sent :: Settles(Datagram(w.Wire(p), w.Source(p)), w.guid.entity, r, |w.writes|)
      {
        var i :| 0 <= i < |call.snapshot| && call.snapshot[i] == r;
        var d :| FromNetwork(w, d) && Settles(d, call.change.writer.entity, call.snapshot[i], call.change.sequence);
        var p :| p in w.sent && d == Datagram(w.Wire(p), w.Source(p));
      }
    }
  }

  /** Behind an execution that has just begun the delivery, the call is an execution. */
  lemma CallIsExecution(before: seq<World>, begun: seq<Step>, worlds: seq<World>, steps: seq<Step>)
    requires Execution(before, begun) && Path(worlds, steps) && worlds[0] == before[|begun|]
    ensures Execution(before + worlds[1..], begun + steps)
  {
    hide Enabled;
    hide Next;
    hide Initial;
    var all, done := before + worlds[1..], begun + steps;
    forall i | 0 <= i < |done| ensures Enabled(all[i], done[i]) && all[i + 1] == Next(all[i], done[i]) {
      if i < |begun| {
        assert all[i] == before[i] && all[i + 1] == before[i + 1];
      } else {
        var k := i - |begun|;
        assert all[i] == worlds[k] && all[i + 1] == worlds[k + 1] && done[i] == steps[k];
      }
    }
  }
}
