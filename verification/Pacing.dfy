/** The timing of one deliver_change call: nothing is sent again before it is due unless a
    reader asks for it, and no scan leaves anything overdue. */
module Pacing {
  import opened Types
  import opened AckMatching
  import opened Delivery

  predicate IsSend(a: Action, i: nat, data: bool) {
    a.index == i && if data then a.SendData? else a.SendHeartbeat?
  }

  /** When reader i was last sent DATA, or a HEARTBEAT. */
  function Last(trace: seq<Action>, times: seq<int>, i: nat, data: bool): Option<int>
    requires |times| == |trace|
  {
    if trace == [] then None
    else
      var n := |trace| - 1;
      if IsSend(trace[n], i, data) then Some(times[n]) else Last(trace[..n], times[..n], i, data)
  }

  lemma LastSnoc(trace: seq<Action>, times: seq<int>, a: Action, t: int)
    requires |times| == |trace|
    ensures forall i: nat, data :: Last(trace + [a], times + [t], i, data) ==
                                   if IsSend(a, i, data) then Some(t) else Last(trace, times, i, data)
  {
    assert (trace + [a])[..|trace|] == trace && (times + [t])[..|times|] == times;
  }

  /** At least `gap` ticks have passed since. */
  predicate Since(last: Option<int>, gap: int, now: int) {
    last.Some? && now >= last.value + gap
  }

  /** Action k was done for a datagram that asks for the change. */
  ghost predicate Requested(call: Call, received: seq<Datagram>, handledAt: seq<nat>, k: nat) {
    exists j :: 0 <= j < |handledAt| && handledAt[j] == k && call.heard + j < |received| &&
      Asks(call, received[call.heard + j])
  }

  predicate Asks(call: Call, d: Datagram) {
    var ack := AckNackIn(d.payload, call.change.writer.entity);
    ack.Some? && ack.value.state.Contains(call.change.sequence)
  }

  /** DATA is the first one, or the acknowledgment timeout has passed since the last, or it
      was asked for; a HEARTBEAT comes right behind DATA, or the heartbeat period has
      passed since the last. */
  ghost predicate Due(call: Call, trace: seq<Action>, times: seq<int>, a: Action, now: int, requested: bool)
    requires |times| == |trace|
  {
    match a
    case SendData(i) =>
      requested || Last(trace, times, i, true).None? || Since(Last(trace, times, i, true), call.config.timeout, now)
    case SendHeartbeat(i, _) =>
      AfterData(trace) || Since(Last(trace, times, i, false), call.config.period, now)
    case Settle(_, _) => true
  }

  ghost predicate Patient(call: Call, trace: seq<Action>, times: seq<int>, received: seq<Datagram>,
                          handledAt: seq<nat>) {
    && |times| <= |trace|
    && forall k | 0 <= k < |times| ::
         Due(call, trace[..k], times[..k], trace[k], times[k], Requested(call, received, handledAt, k))
  }

  /** A scan: when its pass began, and the length of the trace when it was done. */
  datatype Scanning = Scanning(time: int, done: nat)

  /** Reader i settled, or DATA and a HEARTBEAT went to it so recently that nothing is due. */
  ghost predicate Served(call: Call, trace: seq<Action>, times: seq<int>, i: nat, now: int)
    requires |times| == |trace|
  {
    || SettledIn(trace, i)
    || (&& Last(trace, times, i, true).Some? && !Since(Last(trace, times, i, true), call.config.timeout, now)
        && Last(trace, times, i, false).Some? && !Since(Last(trace, times, i, false), call.config.period, now))
  }

  ghost predicate Punctual(call: Call, trace: seq<Action>, times: seq<int>, scans: seq<Scanning>) {
    && |times| <= |trace|
    && (forall m | 0 <= m < |scans| :: scans[m].done <= |times|)
    && (forall m, i | 0 <= m < |scans| && 0 <= i < |call.snapshot| ::
          Served(call, trace[..scans[m].done], times[..scans[m].done], i, scans[m].time))
    && (forall l, m | 0 <= l < m < |scans| :: scans[l].time < scans[m].time && scans[l].done <= scans[m].done)
  }

  /** The deadlines in the records of the pending readers are counted from what was sent. */
  ghost predicate Paced(c: Config, states: seq<ReaderState>, trace: seq<Action>, times: seq<int>) {
    |times| == |trace| && forall i | 0 <= i < |states| :: PacedReader(c, states[i], trace, times, i)
  }

  ghost predicate PacedReader(c: Config, s: ReaderState, trace: seq<Action>, times: seq<int>, i: nat)
    requires |times| == |trace|
  {
    s.acknowledged ||
    (&& Last(trace, times, i, true) == Some(s.retryDeadline - c.timeout)
     && Last(trace, times, i, false) == Some(s.heartbeatDeadline - c.period))
  }

  function Stamps(n: nat, now: int): seq<int> {
    seq(n, _ => now)
  }

  // ---- One more action ----

  lemma PatientSnoc(call: Call, trace: seq<Action>, times: seq<int>, received: seq<Datagram>, handledAt: seq<nat>,
                    a: Action, t: int)
    requires Patient(call, trace, times, received, handledAt) && |times| == |trace|
    requires Due(call, trace, times, a, t, Requested(call, received, handledAt, |trace|))
    ensures Patient(call, trace + [a], times + [t], received, handledAt)
  {
    hide Due;
    hide Requested;
    var longer, later := trace + [a], times + [t];
    forall k | 0 <= k < |later|
      ensures Due(call, longer[..k], later[..k], longer[k], later[k], Requested(call, received, handledAt, k))
    {
      if k < |trace| {
        assert longer[..k] == trace[..k] && later[..k] == times[..k];
      } else {
        assert longer[..k] == trace && later[..k] == times;
      }
    }
  }

  /** DATA and HEARTBEAT at once. */
  lemma OfferPaced(call: Call, trace: seq<Action>, times: seq<int>, received: seq<Datagram>, handledAt: seq<nat>,
                   i: nat, count: Int32, t: int)
    requires Patient(call, trace, times, received, handledAt) && |times| == |trace| && count >= 0
    requires Due(call, trace, times, SendData(i), t, Requested(call, received, handledAt, |trace|))
    ensures var longer, later := trace + Offer(i, count), times + Stamps(2, t);
            && Patient(call, longer, later, received, handledAt)
            && forall j: nat, data :: Last(longer, later, j, data) ==
                                      if j == i then Some(t) else Last(trace, times, j, data)
  {
    hide Last;
    hide Patient;
    hide Requested;
    hide NextCount;
    var data, heartbeat := SendData(i), SendHeartbeat(i, NextCount(count));
    PatientSnoc(call, trace, times, received, handledAt, data, t);
    LastSnoc(trace, times, data, t);
    PatientSnoc(call, trace + [data], times + [t], received, handledAt, heartbeat, t);
    LastSnoc(trace + [data], times + [t], heartbeat, t);
    assert trace + Offer(i, count) == (trace + [data]) + [heartbeat];
    assert times + Stamps(2, t) == (times + [t]) + [t];
  }

  // ---- The first round ----

  /** The first n readers were sent to at time t. */
  ghost predicate RoundAt(call: Call, trace: seq<Action>, times: seq<int>, received: seq<Datagram>, n: nat, t: int) {
    && |times| == |trace| && Patient(call, trace, times, received, [])
    && forall i: nat, data :: Last(trace, times, i, data) == if i < n then Some(t) else None
  }

  lemma RoundStarts(call: Call, t: int, received: seq<Datagram>)
    ensures RoundAt(call, [], [], received, 0, t)
  {
  }

  lemma RoundGoesOn(call: Call, trace: seq<Action>, times: seq<int>, received: seq<Datagram>, n: nat,
                    count: Int32, t: int)
    requires RoundAt(call, trace, times, received, n, t) && count >= 0
    ensures RoundAt(call, trace + Offer(n, count), times + Stamps(2, t), received, n + 1, t)
  {
    hide Last;
    hide Patient;
    OfferPaced(call, trace, times, received, [], n, count, t);
  }

  lemma {:induction false} RoundPaced(call: Call, n: nat, count: Int32, t: int, received: seq<Datagram>)
    requires count >= 0
    ensures var trace := Offers(n, count).0;
            RoundAt(call, trace, Stamps(|trace|, t), received, n, t)
  {
    hide RoundAt;
    if n > 0 {
      RoundPaced(call, n - 1, count, t, received);
      var (done, c) := Offers(n - 1, count);
      RoundGoesOn(call, done, Stamps(|done|, t), received, n - 1, c, t);
      assert Stamps(|done|, t) + Stamps(2, t) == Stamps(|done| + 2, t);
    } else {
      assert Stamps(0, t) == [];
      RoundStarts(call, t, received);
    }
  }

  // ---- The scan ----

  lemma ScanOnePaced(call: Call, s: ReaderState, trace: seq<Action>, times: seq<int>, received: seq<Datagram>,
                     handledAt: seq<nat>, i: nat, now: int, count: Int32)
    requires Patient(call, trace, times, received, handledAt) && |times| == |trace| && count >= 0
    requires PacedReader(call.config, s, trace, times, i)
    ensures var more := ScanAction(s, i, now, count);
            var longer, later := trace + more, times + Stamps(|more|, now);
            && Patient(call, longer, later, received, handledAt)
            && PacedReader(call.config, Scanned(call.config, s, now), longer, later, i)
            && forall j: nat, data | j != i :: Last(longer, later, j, data) == Last(trace, times, j, data)
  {
    hide Last;
    hide Patient;
    hide Requested;
    hide NextCount;
    var more := ScanAction(s, i, now, count);
    if more == [] {
      assert trace + more == trace && times + Stamps(|more|, now) == times;
    } else if now >= s.retryDeadline {
      OfferPaced(call, trace, times, received, handledAt, i, count, now);
    } else {
      var a := SendHeartbeat(i, NextCount(count));
      PatientSnoc(call, trace, times, received, handledAt, a, now);
      LastSnoc(trace, times, a, now);
      assert times + Stamps(1, now) == times + [now];
    }
  }

  lemma {:induction false} ScanPaced(call: Call, states: seq<ReaderState>, trace: seq<Action>, times: seq<int>,
                                     received: seq<Datagram>, handledAt: seq<nat>, n: nat, now: int, count: Int32)
    requires Patient(call, trace, times, received, handledAt) && |times| == |trace| && count >= 0 && n <= |states|
    requires forall i | 0 <= i < |states| :: PacedReader(call.config, states[i], trace, times, i)
    ensures var (more, _) := ScanActions(states[..n], now, count);
            var longer, later := trace + more, times + Stamps(|more|, now);
            && Patient(call, longer, later, received, handledAt)
            && (forall i | 0 <= i < n ::
                  PacedReader(call.config, Scanned(call.config, states[i], now), longer, later, i))
            && (forall i | n <= i < |states| :: PacedReader(call.config, states[i], longer, later, i))
  {
    hide Last;
    hide Patient;
    hide Scanned;
    hide ScanAction;
    if n > 0 {
      var m := n - 1;
      ScanPaced(call, states, trace, times, received, handledAt, m, now, count);
      ScanActionsNext(states, m, now, count);
      var (done, c) := ScanActions(states[..m], now, count);
      hide ScanActions;
      var more := ScanAction(states[m], m, now, c);
      ScanOnePaced(call, states[m], trace + done, times + Stamps(|done|, now), received, handledAt, m, now, c);
      assert trace + (done + more) == (trace + done) + more;
      assert times + Stamps(|done + more|, now) == (times + Stamps(|done|, now)) + Stamps(|more|, now);
    } else {
      assert states[..0] == [];
      assert trace + [] == trace && times + Stamps(0, now) == times;
    }
  }

  /** The state of the schedule at the end of a pass. */
  ghost predicate OnSchedule(call: Call, states: seq<ReaderState>, trace: seq<Action>, times: seq<int>,
                             scans: seq<Scanning>, received: seq<Datagram>, handledAt: seq<nat>, last: int) {
    && |states| == |call.snapshot| && Paced(call.config, states, trace, times)
    && ScheduleKept(call, trace, times, scans, received, handledAt)
    && forall m | 0 <= m < |scans| :: scans[m].time <= last
  }

  ghost predicate ScheduleKept(call: Call, trace: seq<Action>, times: seq<int>, scans: seq<Scanning>,
                               received: seq<Datagram>, handledAt: seq<nat>) {
    Patient(call, trace, times, received, handledAt) && Punctual(call, trace, times, scans)
  }

  lemma ScheduleStarts(call: Call, states: seq<ReaderState>, count: Int32, t: int, received: seq<Datagram>)
    requires count >= 0 && |states| == |call.snapshot|
    requires forall i | 0 <= i < |states| ::
               && states[i].retryDeadline == t + call.config.timeout
               && states[i].heartbeatDeadline == t + call.config.period
    ensures var trace := Offers(|states|, count).0;
            OnSchedule(call, states, trace, Stamps(|trace|, t), [], received, [], t)
  {
    RoundPaced(call, |states|, count, t, received);
    hide Last;
    hide Patient;
  }

  lemma ScheduleGoesOn(call: Call, trace: seq<Action>, longer: seq<Action>, times: seq<int>, later: seq<int>,
                       scans: seq<Scanning>)
    requires Punctual(call, trace, times, scans) && trace <= longer && times <= later && |later| <= |longer|
    ensures Punctual(call, longer, later, scans)
  {
    hide Served;
    forall m, i | 0 <= m < |scans| && 0 <= i < |call.snapshot|
      ensures Served(call, longer[..scans[m].done], later[..scans[m].done], i, scans[m].time)
    {
      assert later[..scans[m].done] == times[..scans[m].done];
      assert longer[..scans[m].done] == trace[..scans[m].done];
    }
  }

  /** More actions, not yet timed, leave the schedule kept. */
  lemma ScheduleLonger(call: Call, trace: seq<Action>, longer: seq<Action>, times: seq<int>, scans: seq<Scanning>,
                       received: seq<Datagram>, handledAt: seq<nat>)
    requires ScheduleKept(call, trace, times, scans, received, handledAt) && trace <= longer
    ensures ScheduleKept(call, longer, times, scans, received, handledAt)
  {
    hide Due;
    hide Requested;
    hide Served;
    ScheduleGoesOn(call, trace, longer, times, times, scans);
    forall k | 0 <= k < |times| ensures longer[..k] == trace[..k] && longer[k] == trace[k] {
    }
  }

  /** A scan leaves nothing overdue. */
  lemma ScheduleScanned(call: Call, before: seq<ReaderState>, after: seq<ReaderState>, trace: seq<Action>,
                        times: seq<int>, scans: seq<Scanning>, received: seq<Datagram>, handledAt: seq<nat>,
                        last: int, now: int, count: Int32)
    requires OnSchedule(call, before, trace, times, scans, received, handledAt, last) && last < now && count >= 0
    requires call.config.timeout >= 1 && call.config.period >= 1
    requires |after| == |before| && forall i | 0 <= i < |before| :: after[i] == Scanned(call.config, before[i], now)
    requires var longer := trace + ScanActions(before, now, count).0;
             forall i | 0 <= i < |after| && after[i].acknowledged :: SettledIn(longer, i)
    ensures var more := ScanActions(before, now, count).0;
            OnSchedule(call, after, trace + more, times + Stamps(|more|, now),
                       scans + [Scanning(now, |trace + more|)], received, handledAt, now)
  {
    assert before[..|before|] == before;
    ScanPaced(call, before, trace, times, received, handledAt, |before|, now, count);
    var more := ScanActions(before, now, count).0;
    var longer, later := trace + more, times + Stamps(|more|, now);
    ScheduleLonger(call, trace, longer, times, scans, received, handledAt);
    hide Patient;
    hide SettledIn;
    hide ScanActions;
    forall i | 0 <= i < |after| ensures Served(call, longer, later, i, now) {
      assert after[i] == Scanned(call.config, before[i], now);
      assert PacedReader(call.config, after[i], longer, later, i);
    }
    hide Last;
    PunctualMore(call, longer, times, later, scans, now);
  }

  lemma PunctualMore(call: Call, trace: seq<Action>, times: seq<int>, later: seq<int>, scans: seq<Scanning>, now: int)
    requires Punctual(call, trace, times, scans) && times <= later && |later| == |trace|
    requires forall i | 0 <= i < |call.snapshot| :: Served(call, trace, later, i, now)
    requires forall m | 0 <= m < |scans| :: scans[m].time < now
    ensures Punctual(call, trace, later, scans + [Scanning(now, |trace|)])
  {
    hide Served;
    var all := scans + [Scanning(now, |trace|)];
    forall m, i | 0 <= m < |all| && 0 <= i < |call.snapshot|
      ensures all[m].done <= |later|
      ensures Served(call, trace[..all[m].done], later[..all[m].done], i, all[m].time)
    {
      if m < |scans| {
        assert later[..all[m].done] == times[..all[m].done];
      } else {
        assert trace[..|trace|] == trace && later[..|trace|] == later;
      }
    }
    assert forall m | 0 <= m < |all| :: all[m].done <= |later|;
  }

  /** What was asked for stays asked for. */
  lemma PatientHeard(call: Call, trace: seq<Action>, times: seq<int>, received: seq<Datagram>, handledAt: seq<nat>,
                     d: Datagram, p: nat)
    requires Patient(call, trace, times, received, handledAt) && |received| == call.heard + |handledAt|
    ensures Patient(call, trace, times, received + [d], handledAt + [p])
    ensures Asks(call, d) ==> Requested(call, received + [d], handledAt + [p], p)
  {
    hide Asks;
    hide Last;
    var heard, at := received + [d], handledAt + [p];
    assert heard[call.heard + |handledAt|] == d && at[|handledAt|] == p;
    forall k | Requested(call, received, handledAt, k) ensures Requested(call, heard, at, k) {
      var j :| 0 <= j < |handledAt| && handledAt[j] == k && call.heard + j < |received| &&
               Asks(call, received[call.heard + j]);
      assert at[j] == k && heard[call.heard + j] == received[call.heard + j];
    }
  }

  /** A datagram that was handled at time `at` keeps the schedule. */
  lemma ScheduleReplied(call: Call, before: seq<ReaderState>, trace: seq<Action>, times: seq<int>,
                        scans: seq<Scanning>, received: seq<Datagram>, handledAt: seq<nat>, last: int,
                        d: Datagram, at: int, count: Int32)
    requires OnSchedule(call, before, trace, times, scans, received, handledAt, last) && count >= 0
    requires |received| == call.heard + |handledAt|
    ensures var reply, n := AckNackIn(d.payload, call.change.writer.entity), call.change.sequence;
            var more := ReplyActions(before, reply, d, n, count);
            OnSchedule(call, Replied(call.config, before, reply, d.source, n, at), trace + more,
                       times + Stamps(|more|, at), scans, received + [d], handledAt + [|trace|], last)
  {
    hide AckNackIn;
    hide Last;
    hide Patient;
    hide Punctual;
    hide NextCount;
    hide Requested;
    PatientHeard(call, trace, times, received, handledAt, d, |trace|);
    var reply, n := AckNackIn(d.payload, call.change.writer.entity), call.change.sequence;
    var more := ReplyActions(before, reply, d, n, count);
    if more == [] {
      assert trace + more == trace && times + Stamps(0, at) == times;
    } else {
      var k := FirstMatch(before, reply.value, d.source, 0);
      if |more| == 1 {
        PatientSnoc(call, trace, times, received + [d], handledAt + [|trace|], more[0], at);
        LastSnoc(trace, times, more[0], at);
        assert times + Stamps(1, at) == times + [at];
      } else {
        OfferPaced(call, trace, times, received + [d], handledAt + [|trace|], k, count, at);
      }
      ScheduleGoesOn(call, trace, trace + more, times, times + Stamps(|more|, at), scans);
    }
  }

  /** A datagram whose handling failed leaves it kept too. */
  lemma ScheduleCut(call: Call, trace: seq<Action>, longer: seq<Action>, times: seq<int>, scans: seq<Scanning>,
                    received: seq<Datagram>, handledAt: seq<nat>, d: Datagram, p: nat)
    requires ScheduleKept(call, trace, times, scans, received, handledAt) && trace <= longer
    requires |received| == call.heard + |handledAt|
    ensures ScheduleKept(call, longer, times, scans, received + [d], handledAt + [p])
  {
    hide Patient;
    hide Punctual;
    PatientHeard(call, trace, times, received, handledAt, d, p);
    ScheduleLonger(call, trace, longer, times, scans, received + [d], handledAt + [p]);
  }

  // ---- The record of a call ----

  /** The trace with its times, scans and handled datagrams; the datagrams received; when
      the passes began; and how often the writer waited for a datagram. */
  datatype Record = Record(trace: seq<Action>, handledAt: seq<nat>, times: seq<int>, scans: seq<Scanning>,
                           received: seq<Datagram>, passes: seq<int>, waits: nat)

  ghost predicate ScansInPasses(r: Record) {
    |r.scans| <= |r.passes| && forall m | 0 <= m < |r.scans| :: r.scans[m].time == r.passes[m]
  }

  /** Every datagram that came in is heeded and everything is on schedule; each pass scanned
      once, and waited once but for the last `open` of them. */
  ghost predicate InHand(call: Call, states: seq<ReaderState>, r: Record, last: int, open: nat) {
    && Heeds(call, r.trace, r.received, r.handledAt, false)
    && OnSchedule(call, states, r.trace, r.times, r.scans, r.received, r.handledAt, last)
    && ScansInPasses(r) && r.waits + open == |r.scans| == |r.passes|
  }

  /** What is left of this when the call ends, perhaps in the middle of a pass. */
  ghost predicate Attentive(call: Call, r: Record, ended: bool) {
    && Heeds(call, r.trace, r.received, r.handledAt, ended)
    && ScheduleKept(call, r.trace, r.times, r.scans, r.received, r.handledAt)
    && ScansInPasses(r) && r.waits <= |r.scans|
    && if ended then |r.passes| <= r.waits + 1 else r.waits == |r.passes| && |r.times| == |r.trace|
  }

  lemma InHandIsAttentive(call: Call, states: seq<ReaderState>, r: Record, last: int, open: nat, ended: bool)
    requires InHand(call, states, r, last, open) && open <= 1 && (open == 0 || ended)
    ensures Attentive(call, r, ended)
  {
    hide Answered;
    hide Demands;
    hide Patient;
    hide Punctual;
    HeedsLonger(call, r.trace, r.trace, r.received, r.handledAt, ended);
  }

  lemma NothingHeardYet(call: Call, r: Record)
    requires |r.received| == call.heard && r.handledAt == [] && r.times == [] && r.scans == []
    requires r.passes == [] && r.waits == 0
    ensures Attentive(call, r, true)
  {
  }

  /** The first round is over and noted. */
  lemma RoundInHand(call: Call, states: seq<ReaderState>, r: Record, counted: Int32, count: Int32, now: int)
    requires count >= 0 && |states| == |call.snapshot| && Round(r.trace, counted, |states|, count)
    requires forall i | 0 <= i < |states| ::
               && states[i].retryDeadline == now + call.config.timeout
               && states[i].heartbeatDeadline == now + call.config.period
    requires |r.received| == call.heard && r.handledAt == [] && r.times == Stamps(|r.trace|, now)
    requires r.scans == [] && r.passes == [] && r.waits == 0
    ensures InHand(call, states, r, now, 0)
  {
    hide OnSchedule;
    ScheduleStarts(call, states, count, now, r.received);
    NothingHeard(call, r.trace, r.received, false);
  }

  /** The scan of a pass that began at `now` is done and noted. */
  lemma ScanInHand(call: Call, before: seq<ReaderState>, after: seq<ReaderState>, r: Record, q: Record,
                   last: int, now: int, count: Int32)
    requires InHand(call, before, r, last, 0) && Tracks(call, after, q.trace, |after|) && count >= 0 && last < now
    requires call.config.timeout >= 1 && call.config.period >= 1
    requires |after| == |before| && forall i | 0 <= i < |before| :: after[i] == Scanned(call.config, before[i], now)
    requires q.trace == r.trace + ScanActions(before, now, count).0
    requires q == r.(trace := q.trace, times := r.times + Stamps(|q.trace| - |r.trace|, now),
                     scans := r.scans + [Scanning(now, |q.trace|)], passes := r.passes + [now])
    ensures InHand(call, after, q, now, 1)
  {
    hide Scanned;
    hide ScanActions;
    hide OnSchedule;
    hide Heeds;
    hide Orderly;
    hide SettledIn;
    hide DataCount;
    HeedsLonger(call, r.trace, q.trace, r.received, r.handledAt, false);
    ScheduleScanned(call, before, after, r.trace, r.times, r.scans, r.received, r.handledAt, last, now, count);
  }

  /** The scan failed on the way. */
  lemma ScanFailed(call: Call, before: seq<ReaderState>, r: Record, q: Record, last: int, now: int)
    requires InHand(call, before, r, last, 0) && r.trace <= q.trace
    requires q == r.(trace := q.trace, passes := r.passes + [now])
    ensures Attentive(call, q, true)
  {
    hide Heeds;
    hide ScheduleKept;
    hide Paced;
    HeedsLonger(call, r.trace, q.trace, r.received, r.handledAt, true);
    ScheduleLonger(call, r.trace, q.trace, r.times, r.scans, r.received, r.handledAt);
  }

  lemma NothingCame(call: Call, states: seq<ReaderState>, r: Record, last: int)
    requires InHand(call, states, r, last, 1)
    ensures InHand(call, states, r.(waits := r.waits + 1), last, 0)
  {
    hide Heeds;
    hide OnSchedule;
  }

  /** A datagram was handled at `at` and noted. */
  lemma ReplyInHand(call: Call, before: seq<ReaderState>, r: Record, q: Record, last: int,
                    d: Datagram, at: int, count: Int32)
    requires InHand(call, before, r, last, 1) && count >= 0 && Answered(call, q.trace, |r.trace|, d, false)
    requires var reply, n := AckNackIn(d.payload, call.change.writer.entity), call.change.sequence;
             q.trace == r.trace + ReplyActions(before, reply, d, n, count)
    requires q == r.(trace := q.trace, times := r.times + Stamps(|q.trace| - |r.trace|, at),
                     received := r.received + [d], handledAt := r.handledAt + [|r.trace|], waits := r.waits + 1)
    ensures var reply, n := AckNackIn(d.payload, call.change.writer.entity), call.change.sequence;
            InHand(call, Replied(call.config, before, reply, d.source, n, at), q, last, 0)
  {
    hide Heeds;
    hide Answered;
    hide OnSchedule;
    hide AckNackIn;
    hide ReplyActions;
    hide Replied;
    HeedsMore(call, r.trace, q.trace, r.received, r.handledAt, d, false);
    HeedsCounts(call, r.trace, r.received, r.handledAt);
    ScheduleReplied(call, before, r.trace, r.times, r.scans, r.received, r.handledAt, last, d, at, count);
  }

  lemma HeedsCounts(call: Call, trace: seq<Action>, received: seq<Datagram>, handledAt: seq<nat>)
    requires Heeds(call, trace, received, handledAt, false)
    ensures |received| == call.heard + |handledAt|
  {
  }

  /** Handling it failed. */
  lemma ReplyFailed(call: Call, before: seq<ReaderState>, r: Record, q: Record, last: int, d: Datagram)
    requires InHand(call, before, r, last, 1) && r.trace <= q.trace && Answered(call, q.trace, |r.trace|, d, true)
    requires q == r.(trace := q.trace, received := r.received + [d], handledAt := r.handledAt + [|r.trace|],
                     waits := r.waits + 1)
    ensures Attentive(call, q, true)
  {
    hide Heeds;
    hide Answered;
    hide ScheduleKept;
    hide Paced;
    HeedsMore(call, r.trace, q.trace, r.received, r.handledAt, d, true);
    HeedsCounts(call, r.trace, r.received, r.handledAt);
    ScheduleCut(call, r.trace, q.trace, r.times, r.scans, r.received, r.handledAt, d, |r.trace|);
  }
}
