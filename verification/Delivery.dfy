/** The bookkeeping of one deliver_change call: the per-reader records of the source, a
    trace of what was done for each reader, and the sums its termination rests on. */
module Delivery {
  import opened Types
  import opened Seqs
  import opened Cdr
  import opened Message
  import opened Reliability
  import opened Acks
  import opened AckMatching
  import Data

  /** Times are in ticks of the clock, MILLISECOND of them to a millisecond. */
  const MILLISECOND: int := 1_000_000

  datatype Config = Config(timeout: int, period: int, maxRetries: nat)

  datatype ReaderState = ReaderState(reader: ReaderProxy, acknowledged: bool, retries: nat,
                                     retryDeadline: int, heartbeatDeadline: int)

  /** What deliver_change does for the reader at an index of its snapshot. */
  datatype Action =
    | SendData(index: nat)
    | SendHeartbeat(index: nat, count: Int32)
    | Settle(index: nat, datagram: Datagram)

  // ---- Traces ----

  function DataCount(trace: seq<Action>, i: nat): nat {
    if trace == [] then 0
    else DataCount(trace[..|trace| - 1], i) + (if trace[|trace| - 1] == SendData(i) then 1 else 0)
  }

  lemma DataCountSnoc(trace: seq<Action>, a: Action, i: nat)
    ensures DataCount(trace + [a], i) == DataCount(trace, i) + (if a == SendData(i) then 1 else 0)
  {
    assert (trace + [a])[..|trace|] == trace;
  }

  ghost predicate SettledIn(trace: seq<Action>, i: nat) {
    exists k :: 0 <= k < |trace| && trace[k].Settle? && trace[k].index == i
  }

  /** Nothing is done for a reader once it has settled, and each DATA is followed at once
      by a HEARTBEAT to the same reader. */
  ghost predicate Orderly(trace: seq<Action>) {
    && (forall j, k | 0 <= j < k < |trace| && trace[j].Settle? :: trace[k].index != trace[j].index)
    && (forall k | 0 <= k < |trace| - 1 && trace[k].SendData? ::
          trace[k + 1].SendHeartbeat? && trace[k + 1].index == trace[k].index)
  }

  ghost predicate AfterData(trace: seq<Action>) {
    trace != [] && trace[|trace| - 1].SendData?
  }

  // ---- What goes to the transport ----

  function Header(change: CacheChange): MessageHeader {
    MessageHeader(2, 3, [0, 0], change.writer.prefix)
  }

  predicate Changeable(change: CacheChange) {
    0 < change.sequence <= INT64_MAX
  }

  function DataFor(change: CacheChange, reader: ReaderProxy): Data.DataSubmessage
    requires Changeable(change)
  {
    Data.DataSubmessage(reader.id, change.writer.entity, change.sequence, change.payload)
  }

  function HeartbeatFor(change: CacheChange, reader: ReaderProxy, count: Int32): Heartbeat
    requires Changeable(change)
  {
    Heartbeat(reader.id, change.writer.entity, change.sequence, change.sequence, count, false, false)
  }

  /** The datagrams an action hands to the transport: none if the payload cannot be
      encoded. */
  function Handed(change: CacheChange, snapshot: seq<ReaderProxy>, a: Action): seq<(Bytes, Endpoint)>
    requires Changeable(change)
  {
    if a.index >= |snapshot| then []
    else
      var reader := snapshot[a.index];
      var body :=
        if a.SendData? then Data.Encode(DataFor(change, reader), Little)
        else if a.SendHeartbeat? then EncodeHeartbeat(HeartbeatFor(change, reader, a.count), Little)
        else None;
      if body.None? then [] else [(EncodeMessageHeader(Header(change)) + body.value, reader.endpoint)]
  }

  function AllHanded(change: CacheChange, snapshot: seq<ReaderProxy>, trace: seq<Action>): seq<(Bytes, Endpoint)>
    requires Changeable(change)
  {
    if trace == [] then []
    else AllHanded(change, snapshot, trace[..|trace| - 1]) + Handed(change, snapshot, trace[|trace| - 1])
  }

  lemma AllHandedSnoc(change: CacheChange, snapshot: seq<ReaderProxy>, trace: seq<Action>, a: Action)
    requires Changeable(change)
    ensures AllHanded(change, snapshot, trace + [a]) == AllHanded(change, snapshot, trace) + Handed(change, snapshot, a)
  {
    assert (trace + [a])[..|trace|] == trace;
  }

  // ---- Sums over the readers ----

  function Total(xs: seq<nat>): nat {
    if xs == [] then 0 else Total(xs[..|xs| - 1]) + xs[|xs| - 1]
  }

  lemma {:induction false} TotalUpdate(xs: seq<nat>, i: nat, x: nat)
    requires i < |xs|
    ensures Total(xs[i := x]) == Total(xs) - xs[i] + x
  {
    var n := |xs| - 1;
    if i < n {
      TotalUpdate(xs[..n], i, x);
      assert xs[i := x][..n] == xs[..n][i := x];
    } else {
      assert xs[i := x][..n] == xs[..n];
    }
  }

  lemma {:induction false} TotalLess(xs: seq<nat>, ys: seq<nat>)
    requires |xs| == |ys| && forall i | 0 <= i < |xs| :: xs[i] <= ys[i]
    ensures Total(xs) <= Total(ys)
    ensures (exists i :: 0 <= i < |xs| && xs[i] < ys[i]) ==> Total(xs) < Total(ys)
  {
    if xs != [] {
      var n := |xs| - 1;
      TotalLess(xs[..n], ys[..n]);
      if i :| 0 <= i < |xs| && xs[i] < ys[i] {
        assert i < n ==> xs[..n][i] < ys[..n][i];
      }
    }
  }

  function Retries(states: seq<ReaderState>): seq<nat> {
    seq(|states|, i requires 0 <= i < |states| => states[i].retries)
  }

  /** How many more times a record can change: until it is acknowledged or out of retries. */
  function Budget(c: Config, s: ReaderState): nat {
    if s.acknowledged then 0 else 1 + (if s.retries < c.maxRetries then c.maxRetries - s.retries else 0)
  }

  function Budgets(c: Config, states: seq<ReaderState>): seq<nat> {
    seq(|states|, i requires 0 <= i < |states| => Budget(c, states[i]))
  }

  /** The time from now to the retry deadline. */
  function Wait(s: ReaderState, now: int): nat {
    if s.acknowledged || s.retryDeadline <= now then 0 else s.retryDeadline - now
  }

  function Waits(states: seq<ReaderState>, now: int): seq<nat> {
    seq(|states|, i requires 0 <= i < |states| => Wait(states[i], now))
  }

  lemma RetriesUpdate(states: seq<ReaderState>, i: nat, s: ReaderState)
    requires i < |states|
    ensures Total(Retries(states[i := s])) == Total(Retries(states)) - states[i].retries + s.retries
  {
    TotalUpdate(Retries(states), i, s.retries);
    assert Retries(states[i := s]) == Retries(states)[i := s.retries];
  }

  lemma BudgetsUpdate(c: Config, states: seq<ReaderState>, i: nat, s: ReaderState)
    requires i < |states|
    ensures Total(Budgets(c, states[i := s])) == Total(Budgets(c, states)) - Budget(c, states[i]) + Budget(c, s)
  {
    TotalUpdate(Budgets(c, states), i, Budget(c, s));
    assert Budgets(c, states[i := s]) == Budgets(c, states)[i := Budget(c, s)];
  }

  // ---- The scan at the start of a pass ----

  predicate Exhausted(c: Config, s: ReaderState, now: int) {
    !s.acknowledged && now >= s.retryDeadline && s.retries == c.maxRetries
  }

  function Armed(c: Config, s: ReaderState, now: int): ReaderState {
    s.(retryDeadline := now + c.timeout, heartbeatDeadline := now + c.period)
  }

  function Rearmed(c: Config, s: ReaderState, now: int): ReaderState {
    Armed(c, s.(retries := s.retries + 1), now)
  }

  /** What the scan makes of a record at time `now`. */
  function Scanned(c: Config, s: ReaderState, now: int): ReaderState {
    if s.acknowledged then s
    else if now >= s.retryDeadline then Rearmed(c, s, now)
    else if now >= s.heartbeatDeadline then s.(heartbeatDeadline := now + c.period)
    else s
  }

  /** The HEARTBEAT count after c: it wraps from its maximum to 1. */
  function NextCount(c: Int32): (r: Int32)
    requires c >= 0
    ensures r >= 1
  {
    (if c == INT32_MAX then 0 else c) + 1
  }

  /** DATA, and the HEARTBEAT behind it. */
  function Offer(i: nat, count: Int32): seq<Action>
    requires count >= 0
  {
    [SendData(i), SendHeartbeat(i, NextCount(count))]
  }

  /** The first round: an offer to each of n readers in order, and the HEARTBEAT count
      afterwards. */
  function Offers(n: nat, count: Int32): (r: (seq<Action>, Int32))
    requires count >= 0
    ensures r.1 >= 0
  {
    if n == 0 then ([], count)
    else
      var (done, c) := Offers(n - 1, count);
      (done + Offer(n - 1, c), NextCount(c))
  }

  /** The first round ended at reader i, with its DATA or with its HEARTBEAT. */
  predicate StoppedAt(trace: seq<Action>, i: nat, count: Int32)
    requires count >= 0
  {
    var (done, c) := Offers(i, count);
    trace == done + [SendData(i)] || trace == done + Offer(i, c)
  }

  /** The trace and the count are those of the first round up to reader i. */
  predicate Round(trace: seq<Action>, now: Int32, i: nat, count: Int32)
    requires count >= 0
  {
    trace == Offers(i, count).0 && now == Offers(i, count).1
  }

  lemma RoundBegins(count: Int32)
    requires count >= 0
    ensures Round([], count, 0, count)
  {
  }

  lemma RoundNext(before: seq<Action>, c: Int32, trace: seq<Action>, i: nat, count: Int32)
    requires c >= 0 && count >= 0 && Round(before, c, i, count)
    ensures trace == before + Offer(i, c) ==> Round(trace, NextCount(c), i + 1, count)
    ensures trace == before + [SendData(i)] || trace == before + Offer(i, c) ==> StoppedAt(trace, i, count)
  {
  }

  /** What the scan does for reader i. */
  function ScanAction(s: ReaderState, i: nat, now: int, count: Int32): seq<Action>
    requires count >= 0
  {
    if s.acknowledged then []
    else if now >= s.retryDeadline then Offer(i, count)
    else if now >= s.heartbeatDeadline then [SendHeartbeat(i, NextCount(count))]
    else []
  }

  /** What it does for all of them in order, and the HEARTBEAT count afterwards. */
  function ScanActions(states: seq<ReaderState>, now: int, count: Int32): (r: (seq<Action>, Int32))
    requires count >= 0
    ensures r.1 >= 0
  {
    if states == [] then ([], count)
    else
      var n := |states| - 1;
      var (done, c) := ScanActions(states[..n], now, count);
      var more := ScanAction(states[n], n, now, c);
      (done + more, if more == [] then c else NextCount(c))
  }

  lemma ScanActionsNext(states: seq<ReaderState>, i: nat, now: int, count: Int32)
    requires i < |states| && count >= 0
    ensures var (done, c) := ScanActions(states[..i], now, count);
            var more := ScanAction(states[i], i, now, c);
            ScanActions(states[..i + 1], now, count) == (done + more, if more == [] then c else NextCount(c))
  {
    hide ScanAction;
    assert states[..i + 1][..i] == states[..i];
  }

  /** Every scan at a later time than the last makes progress: it uses up retries, or some
      pending reader comes closer to its retry deadline and none gets farther from it. */
  lemma ScanProgress(c: Config, before: seq<ReaderState>, after: seq<ReaderState>, last: int, now: int)
    requires |after| == |before| && last < now
    requires forall i | 0 <= i < |before| :: after[i] == Scanned(c, before[i], now) && !Exhausted(c, before[i], now)
    requires forall i | 0 <= i < |before| :: before[i].retries <= c.maxRetries
    requires forall i | 0 <= i < |before| && !before[i].acknowledged :: last < before[i].retryDeadline
    requires exists i :: 0 <= i < |before| && !before[i].acknowledged
    ensures Total(Budgets(c, after)) < Total(Budgets(c, before)) ||
            (Total(Budgets(c, after)) == Total(Budgets(c, before)) &&
             Total(Waits(after, now)) < Total(Waits(before, last)))
  {
    TotalLess(Budgets(c, after), Budgets(c, before));
    if i :| 0 <= i < |before| && !before[i].acknowledged && now >= before[i].retryDeadline {
      assert Budgets(c, after)[i] < Budgets(c, before)[i];
    } else {
      assert Budgets(c, after) == Budgets(c, before);
      TotalLess(Waits(after, now), Waits(before, last));
      var i :| 0 <= i < |before| && !before[i].acknowledged;
      assert Waits(after, now)[i] < Waits(before, last)[i];
    }
  }

  // ---- Time ----

  /** The latest retry deadline of a reader that was retried r times, when a pass takes
      at most `pass`. */
  function Limit(c: Config, start: int, pass: int, r: nat): int {
    start + c.timeout + r * (c.timeout + pass)
  }

  lemma LimitGrows(c: Config, start: int, pass: int, r: nat, q: nat)
    requires r <= q && c.timeout >= 0 && pass >= 0
    ensures Limit(c, start, pass, r + 1) == Limit(c, start, pass, r) + c.timeout + pass
    ensures Limit(c, start, pass, r) <= Limit(c, start, pass, q)
  {
    var d := c.timeout + pass;
    assert (r + 1) * d == r * d + d;
    assert q * d == r * d + (q - r) * d;
    assert (q - r) * d >= 0;
  }

  /** At the end of a pass that began at `now`, every pending reader waits for a deadline
      that lies ahead but not too far. */
  ghost predicate Timely(c: Config, states: seq<ReaderState>, start: int, pass: int, now: int) {
    forall i | 0 <= i < |states| && !states[i].acknowledged ::
      now < states[i].retryDeadline <= Limit(c, start, pass, states[i].retries)
  }

  /** The end of the last pass that can begin with a pending reader. */
  function GiveUpTime(c: Config, start: int, pass: int): int {
    start + (c.maxRetries + 1) * (c.timeout + pass)
  }

  lemma PassBegins(c: Config, s: ReaderState, start: int, pass: int, last: int, now: int)
    requires c.timeout >= 0 && pass >= 0 && s.retries <= c.maxRetries
    requires last < s.retryDeadline <= Limit(c, start, pass, s.retries) && now <= last + pass
    ensures now < GiveUpTime(c, start, pass)
  {
    LimitGrows(c, start, pass, s.retries, c.maxRetries);
    var d := c.timeout + pass;
    assert (c.maxRetries + 1) * d == c.maxRetries * d + d;
  }

  lemma RearmedTimely(c: Config, s: ReaderState, start: int, pass: int, last: int, now: int)
    requires c.timeout >= 1 && pass >= 0
    requires last < s.retryDeadline <= Limit(c, start, pass, s.retries) && last <= now <= last + pass
    ensures now < Rearmed(c, s, now).retryDeadline <= Limit(c, start, pass, s.retries + 1)
  {
    LimitGrows(c, start, pass, s.retries, s.retries);
  }

  lemma ScannedTimely(c: Config, before: seq<ReaderState>, after: seq<ReaderState>,
                      start: int, pass: int, last: int, now: int)
    requires |after| == |before| && c.timeout >= 1 && pass >= 0 && last <= now <= last + pass
    requires forall i | 0 <= i < |before| :: after[i] == Scanned(c, before[i], now)
    requires Timely(c, before, start, pass, last)
    ensures Timely(c, after, start, pass, now)
  {
    hide Limit;
    forall i | 0 <= i < |after| && !after[i].acknowledged
      ensures now < after[i].retryDeadline <= Limit(c, start, pass, after[i].retries)
    {
      RearmedTimely(c, before[i], start, pass, last, now);
    }
  }

  // ---- The account ----

  /** What does not change during a call. */
  datatype Call = Call(change: CacheChange, snapshot: seq<ReaderProxy>, config: Config,
                       sent: seq<(Bytes, Endpoint)>, heard: nat, retransmissions: nat)

  /** The records against the trace; the first `offered` readers have been sent to. */
  ghost predicate Tracks(call: Call, states: seq<ReaderState>, trace: seq<Action>, offered: nat) {
    && |states| == |call.snapshot|
    && (forall i | 0 <= i < |states| ::
          && states[i].reader == call.snapshot[i]
          && states[i].retries <= call.config.maxRetries
          && DataCount(trace, i) == (if i < offered then 1 + states[i].retries else 0)
          && (i >= offered ==> states[i].retries == 0)
          && (states[i].acknowledged <==> SettledIn(trace, i)))
    && (forall k | 0 <= k < |trace| ::
          trace[k].index < |call.snapshot| && (trace[k].SendHeartbeat? ==> trace[k].count > 0))
    && Orderly(trace)
  }

  /** The trace against the world outside. */
  ghost predicate Grounded(call: Call, trace: seq<Action>, sent: seq<(Bytes, Endpoint)>, received: seq<Datagram>) {
    && Changeable(call.change)
    && sent == call.sent + AllHanded(call.change, call.snapshot, trace)
    && call.heard <= |received|
    && (forall k | 0 <= k < |trace| && trace[k].Settle? ::
          && trace[k].index < |call.snapshot|
          && trace[k].datagram in received[call.heard..]
          && Settles(trace[k].datagram, call.change.writer.entity, call.snapshot[trace[k].index], call.change.sequence))
  }

  lemma TracksOffer(call: Call, states: seq<ReaderState>, trace: seq<Action>, i: nat)
    requires Tracks(call, states, trace, i) && i < |states| && !states[i].acknowledged && !AfterData(trace)
    ensures Tracks(call, states, trace + [SendData(i)], i + 1)
  {
    NewAction(call, states, trace, SendData(i));
  }

  lemma TracksHeartbeat(call: Call, states: seq<ReaderState>, trace: seq<Action>, offered: nat, a: Action)
    requires Tracks(call, states, trace, offered) && a.SendHeartbeat?
    requires a.index < |states| && !states[a.index].acknowledged
    requires a.count > 0 && (AfterData(trace) ==> trace[|trace| - 1].index == a.index)
    ensures Tracks(call, states, trace + [a], offered) && !AfterData(trace + [a])
  {
    NewAction(call, states, trace, a);
  }

  lemma TracksRetry(call: Call, states: seq<ReaderState>, trace: seq<Action>, i: nat, s: ReaderState)
    requires Tracks(call, states, trace, |states|) && i < |states| && !states[i].acknowledged && !AfterData(trace)
    requires s == states[i].(retries := s.retries) && s.retries == states[i].retries + 1 <= call.config.maxRetries
    ensures Tracks(call, states[i := s], trace + [SendData(i)], |states|)
    ensures Total(Retries(states[i := s])) == Total(Retries(states)) + 1
  {
    NewAction(call, states, trace, SendData(i));
    RetriesUpdate(states, i, s);
  }

  lemma TracksSettle(call: Call, states: seq<ReaderState>, trace: seq<Action>, i: nat, d: Datagram)
    requires Tracks(call, states, trace, |states|) && i < |states| && !states[i].acknowledged && !AfterData(trace)
    ensures Tracks(call, states[i := states[i].(acknowledged := true)], trace + [Settle(i, d)], |states|)
    ensures Retries(states[i := states[i].(acknowledged := true)]) == Retries(states)
  {
    NewAction(call, states, trace, Settle(i, d));
  }

  /** Appending an action for a reader that has not settled. */
  lemma NewAction(call: Call, states: seq<ReaderState>, trace: seq<Action>, a: Action)
    requires Orderly(trace) && a.index < |states| && !SettledIn(trace, a.index)
    requires AfterData(trace) ==> a.SendHeartbeat? && a.index == trace[|trace| - 1].index
    ensures Orderly(trace + [a])
    ensures forall i: nat :: DataCount(trace + [a], i) == DataCount(trace, i) + (if a == SendData(i) then 1 else 0)
    ensures forall i: nat :: SettledIn(trace + [a], i) <==> SettledIn(trace, i) || (a.Settle? && a.index == i)
  {
    var all := trace + [a];
    assert forall k | 0 <= k < |trace| :: all[k] == trace[k];
    assert all[|trace|] == a;
    forall i: nat ensures DataCount(all, i) == DataCount(trace, i) + (if a == SendData(i) then 1 else 0) {
      DataCountSnoc(trace, a, i);
    }
  }

  /** Changing deadlines alone keeps the account. */
  lemma TracksDeadlines(call: Call, states: seq<ReaderState>, trace: seq<Action>, offered: nat,
                        i: nat, retry: int, heartbeat: int)
    requires Tracks(call, states, trace, offered) && i < |states|
    ensures var s := states[i].(retryDeadline := retry, heartbeatDeadline := heartbeat);
            && Tracks(call, states[i := s], trace, offered)
            && Retries(states[i := s]) == Retries(states)
  {
  }

  lemma GroundedAction(call: Call, trace: seq<Action>, sent: seq<(Bytes, Endpoint)>, received: seq<Datagram>, a: Action)
    requires Grounded(call, trace, sent, received) && !a.Settle?
    ensures Grounded(call, trace + [a], sent + Handed(call.change, call.snapshot, a), received)
  {
    hide Settles;
    hide Handed;
    AllHandedSnoc(call.change, call.snapshot, trace, a);
  }

  lemma GroundedSettle(call: Call, trace: seq<Action>, sent: seq<(Bytes, Endpoint)>, received: seq<Datagram>,
                       i: nat, d: Datagram)
    requires Grounded(call, trace, sent, received) && i < |call.snapshot|
    requires d in received[call.heard..]
    requires Settles(d, call.change.writer.entity, call.snapshot[i], call.change.sequence)
    ensures Grounded(call, trace + [Settle(i, d)], sent, received)
  {
    hide Settles;
    AllHandedSnoc(call.change, call.snapshot, trace, Settle(i, d));
  }

  lemma GroundedMore(call: Call, trace: seq<Action>, sent: seq<(Bytes, Endpoint)>, received: seq<Datagram>, d: Datagram)
    requires Grounded(call, trace, sent, received)
    ensures Grounded(call, trace, sent, received + [d])
    ensures d in (received + [d])[call.heard..]
  {
    hide Settles;
    var all := received + [d];
    assert all[call.heard..] == received[call.heard..] + [d];
  }

  // ---- The reply of a reader ----

  /** std::find_if: the first pending reader the ACKNACK matches. */
  function FirstMatch(states: seq<ReaderState>, ack: AckNack, source: Endpoint, i: nat): (r: nat)
    requires i <= |states|
    ensures i <= r <= |states|
    ensures r < |states| ==> !states[r].acknowledged && Matches(ack, source, states[r].reader)
    ensures forall j | i <= j < r :: states[j].acknowledged || !Matches(ack, source, states[j].reader)
    decreases |states| - i
  {
    if i == |states| || (!states[i].acknowledged && Matches(ack, source, states[i].reader)) then i
    else FirstMatch(states, ack, source, i + 1)
  }

  /** What a datagram received at time `now` makes of the records. */
  function Replied(c: Config, states: seq<ReaderState>, reply: Option<AckNack>, source: Endpoint,
                   n: int, now: int): (r: seq<ReaderState>)
    ensures |r| == |states|
  {
    if reply.None? then states
    else
      var ack := reply.value;
      var k := FirstMatch(states, ack, source, 0);
      if k == |states| then states
      else if Accepts(ack, n) then states[k := states[k].(acknowledged := true)]
      else if ack.state.Contains(n) then states[k := Rearmed(c, states[k], now)]
      else states
  }

  /** What it makes the writer do. */
  function ReplyActions(states: seq<ReaderState>, reply: Option<AckNack>, d: Datagram,
                        n: int, count: Int32): seq<Action>
    requires count >= 0
  {
    if reply.None? then []
    else
      var k := FirstMatch(states, reply.value, d.source, 0);
      if k == |states| then []
      else if Accepts(reply.value, n) then [Settle(k, d)]
      else if reply.value.state.Contains(n) then Offer(k, count)
      else []
  }

  /** The reply comes from a reader that has no retries left and still misses change n. */
  predicate Refused(c: Config, states: seq<ReaderState>, reply: Option<AckNack>, source: Endpoint, n: int) {
    && reply.Some?
    && var k := FirstMatch(states, reply.value, source, 0);
       k < |states| && !Accepts(reply.value, n) && reply.value.state.Contains(n) && states[k].retries == c.maxRetries
  }

  /** A reply either changes nothing or brings the call closer to its end. */
  lemma ReplyProgress(c: Config, states: seq<ReaderState>, reply: Option<AckNack>, source: Endpoint, n: int, now: int)
    requires forall i | 0 <= i < |states| :: states[i].retries <= c.maxRetries
    requires !Refused(c, states, reply, source, n)
    ensures var after := Replied(c, states, reply, source, n, now);
            after == states || Total(Budgets(c, after)) < Total(Budgets(c, states))
  {
    hide Accepts;
    hide AckNack.Encodable;
    if reply.Some? {
      var k := FirstMatch(states, reply.value, source, 0);
      if k < |states| {
        BudgetsUpdate(c, states, k, states[k].(acknowledged := true));
        BudgetsUpdate(c, states, k, Rearmed(c, states[k], now));
      }
    }
  }

  lemma ReplyTimely(c: Config, states: seq<ReaderState>, reply: Option<AckNack>, source: Endpoint, n: int,
                    start: int, pass: int, last: int, now: int)
    requires c.timeout >= 1 && pass >= 0 && last <= now <= last + pass
    requires Timely(c, states, start, pass, last)
    ensures Timely(c, Replied(c, states, reply, source, n, now), start, pass, last)
  {
    hide Accepts;
    hide Limit;
    if reply.Some? {
      var k := FirstMatch(states, reply.value, source, 0);
      if k < |states| {
        RearmedTimely(c, states[k], start, pass, last, now);
      }
    }
  }

  // ---- What became of every datagram ----

  /** Reader i is the first of the snapshot that the ACKNACK matches and that has not
      settled. */
  ghost predicate FirstPending(call: Call, trace: seq<Action>, ack: AckNack, source: Endpoint, i: nat) {
    && i < |call.snapshot| && !SettledIn(trace, i) && Matches(ack, source, call.snapshot[i])
    && forall j | 0 <= j < i :: SettledIn(trace, j) || !Matches(ack, source, call.snapshot[j])
  }

  /** The ACKNACK counts as delivery, or asks for the change. */
  predicate Concerns(ack: AckNack, n: int) {
    Accepts(ack, n) || ack.state.Contains(n)
  }

  /** A datagram handled after `trace` concerns a reader that has not settled. */
  ghost predicate Demands(call: Call, trace: seq<Action>, d: Datagram) {
    var ack := AckNackIn(d.payload, call.change.writer.entity);
    && ack.Some? && Concerns(ack.value, call.change.sequence)
    && exists i: nat :: FirstPending(call, trace, ack.value, d.source, i)
  }

  /** From p on, DATA and HEARTBEAT go to reader i, unless a failure cut the call short. */
  predicate OfferedAt(trace: seq<Action>, p: nat, i: nat, ended: bool) {
    && p < |trace| && trace[p] == SendData(i)
    && if p + 1 < |trace| then trace[p + 1].SendHeartbeat? && trace[p + 1].index == i else ended
  }

  /** What the first p actions left of the datagram's demand was met at once: the reader
      was settled; or it was sent the change again; or it had used up its retries, and the
      call ended there. */
  ghost predicate Answered(call: Call, trace: seq<Action>, p: nat, d: Datagram, ended: bool) {
    p <= |trace| &&
    var ack, n := AckNackIn(d.payload, call.change.writer.entity), call.change.sequence;
    ack.Some? && Concerns(ack.value, n) ==>
      forall i: nat | FirstPending(call, trace[..p], ack.value, d.source, i) ::
        if Accepts(ack.value, n) then p < |trace| && trace[p] == Settle(i, d)
        else if DataCount(trace[..p], i) <= call.config.maxRetries then OfferedAt(trace, p, i, ended)
        else ended && p == |trace|
  }

  /** Every datagram that came in during the call was handled, in order, each when the
      trace had the length noted for it; only the last may have cut the call short. */
  ghost predicate Heeds(call: Call, trace: seq<Action>, received: seq<Datagram>, handledAt: seq<nat>, ended: bool) {
    && |received| == call.heard + |handledAt|
    && (forall j | 0 <= j < |handledAt| ::
          Answered(call, trace, handledAt[j], received[call.heard + j], ended && j == |handledAt| - 1))
    && (forall j, k | 0 <= j < k < |handledAt| ::
          && handledAt[j] <= handledAt[k]
          && (Demands(call, trace[..handledAt[j]], received[call.heard + j]) ==> handledAt[j] < handledAt[k]))
  }

  lemma NothingHeard(call: Call, trace: seq<Action>, received: seq<Datagram>, ended: bool)
    requires |received| == call.heard
    ensures Heeds(call, trace, received, [], ended)
  {
  }

  lemma AnsweredLonger(call: Call, trace: seq<Action>, longer: seq<Action>, p: nat, d: Datagram, ended: bool)
    requires Answered(call, trace, p, d, false) && trace <= longer
    ensures Answered(call, longer, p, d, ended)
  {
    hide FirstPending;
    hide Accepts;
    hide Concerns;
    hide AckNackIn;
    hide DataCount;
    assert longer[..p] == trace[..p];
  }

  /** More actions leave everything heeded. */
  lemma HeedsLonger(call: Call, trace: seq<Action>, longer: seq<Action>, received: seq<Datagram>,
                    handledAt: seq<nat>, ended: bool)
    requires Heeds(call, trace, received, handledAt, false) && trace <= longer
    ensures Heeds(call, longer, received, handledAt, ended)
  {
    hide Answered;
    hide Demands;
    forall j | 0 <= j < |handledAt|
      ensures Answered(call, longer, handledAt[j], received[call.heard + j], ended && j == |handledAt| - 1)
      ensures handledAt[j] <= |trace|
      ensures longer[..handledAt[j]] == trace[..handledAt[j]]
    {
      AnsweredLonger(call, trace, longer, handledAt[j], received[call.heard + j], ended && j == |handledAt| - 1);
      AnsweredWithin(call, trace, handledAt[j], received[call.heard + j]);
    }
  }

  lemma AnsweredWithin(call: Call, trace: seq<Action>, p: nat, d: Datagram)
    requires Answered(call, trace, p, d, false)
    ensures p <= |trace| && (Demands(call, trace[..p], d) ==> p < |trace|)
  {
    hide FirstPending;
    hide Accepts;
    hide Concerns;
    hide AckNackIn;
    hide DataCount;
  }

  /** One more datagram, handled after `trace`. */
  lemma HeedsMore(call: Call, trace: seq<Action>, longer: seq<Action>, received: seq<Datagram>,
                  handledAt: seq<nat>, d: Datagram, ended: bool)
    requires Heeds(call, trace, received, handledAt, false) && trace <= longer
    requires Answered(call, longer, |trace|, d, ended)
    ensures Heeds(call, longer, received + [d], handledAt + [|trace|], ended)
  {
    hide Answered;
    hide Demands;
    HeedsLonger(call, trace, longer, received, handledAt, false);
    forall j | 0 <= j < |handledAt|
      ensures handledAt[j] <= |trace|
      ensures longer[..handledAt[j]] == trace[..handledAt[j]]
      ensures Demands(call, trace[..handledAt[j]], received[call.heard + j]) ==> handledAt[j] < |trace|
    {
      AnsweredWithin(call, trace, handledAt[j], received[call.heard + j]);
    }
  }

  /** The reader that FindPending looks for is the first one that has not settled. */
  lemma PendingIsFirst(call: Call, states: seq<ReaderState>, trace: seq<Action>, offered: nat,
                       ack: AckNack, source: Endpoint)
    requires Tracks(call, states, trace, offered)
    ensures var k := FirstMatch(states, ack, source, 0);
            && (k < |states| ==> DataCount(trace, k) <= 1 + states[k].retries)
            && forall i: nat | FirstPending(call, trace, ack, source, i) :: i == k < |states|
  {
    hide Matches;
    hide Orderly;
    var k := FirstMatch(states, ack, source, 0);
    forall i: nat | FirstPending(call, trace, ack, source, i) ensures i == k < |states| {
      assert !states[i].acknowledged && Matches(ack, source, states[i].reader);
    }
  }

  /** What handling a datagram did meets its demand. */
  lemma ReplyAnswers(call: Call, states: seq<ReaderState>, trace: seq<Action>, longer: seq<Action>,
                     d: Datagram, count: Int32, ended: bool)
    requires Tracks(call, states, trace, |states|) && count >= 0
    requires var reply, n := AckNackIn(d.payload, call.change.writer.entity), call.change.sequence;
             if Refused(call.config, states, reply, d.source, n) then longer == trace && ended
             else
               var actions := ReplyActions(states, reply, d, n, count);
               longer == trace + actions || (ended && |actions| == 2 && longer == trace + actions[..1])
    ensures Answered(call, longer, |trace|, d, ended)
  {
    hide FirstPending;
    hide Accepts;
    hide AckNackIn;
    var reply := AckNackIn(d.payload, call.change.writer.entity);
    if reply.Some? {
      PendingIsFirst(call, states, trace, |states|, reply.value, d.source);
      assert longer[..|trace|] == trace;
    }
  }

  /** Readers with known ids, each once. */
  predicate Known(snapshot: seq<ReaderProxy>) {
    Distinct(snapshot) && forall r | r in snapshot :: r.id != UNKNOWN_ENTITY
  }

  /** No settling datagram is lost: if the ids are known, each one that came in for a
      reader found it settled or settled it. */
  lemma SettlingSettles(call: Call, trace: seq<Action>, received: seq<Datagram>, handledAt: seq<nat>, ended: bool,
                        i: nat, d: Datagram)
    requires Heeds(call, trace, received, handledAt, ended) && Known(call.snapshot) && i < |call.snapshot|
    requires d in received[call.heard..]
    requires Settles(d, call.change.writer.entity, call.snapshot[i], call.change.sequence)
    ensures SettledIn(trace, i)
  {
    hide Accepts;
    hide AckNackIn;
    hide DataCount;
    hide Demands;
    var j :| 0 <= j < |received[call.heard..]| && received[call.heard..][j] == d;
    var p := handledAt[j];
    assert Answered(call, trace, p, received[call.heard + j], ended && j == |handledAt| - 1);
    var ack := AckNackIn(d.payload, call.change.writer.entity).value;
    OneMatch(call, trace[..p], ack, d.source, i);
  }

  lemma OneMatch(call: Call, trace: seq<Action>, ack: AckNack, source: Endpoint, i: nat)
    requires Known(call.snapshot) && i < |call.snapshot| && Matches(ack, source, call.snapshot[i])
    requires ack.reader != UNKNOWN_ENTITY
    ensures SettledIn(trace, i) || FirstPending(call, trace, ack, source, i)
  {
    assert call.snapshot[i] in call.snapshot;
    forall j | 0 <= j < i ensures !Matches(ack, source, call.snapshot[j]) {
      assert call.snapshot[j] in call.snapshot;
      assert call.snapshot[j] != call.snapshot[i];
    }
  }

  // ---- What the account says at the end ----

  /** DATA sent to reader i beyond the first one. */
  function Repeats(trace: seq<Action>, n: nat): seq<nat> {
    seq(n, i requires 0 <= i < n => if DataCount(trace, i) == 0 then 0 else DataCount(trace, i) - 1)
  }

  lemma {:induction false} RetriesAreRepeats(call: Call, states: seq<ReaderState>, trace: seq<Action>, offered: nat)
    requires Tracks(call, states, trace, offered)
    ensures Retries(states) == Repeats(trace, |call.snapshot|)
  {
    assert |Retries(states)| == |Repeats(trace, |call.snapshot|)|;
  }
}
