/** The reliable writer as the code has it: the loops of deliver_change over the records
    of the readers, against an environment that stands for the clock, the transport and
    the thread that may stop the writer. */
module ReliableWriter {
  import opened Types
  import opened Seqs
  import opened Cdr
  import opened Message
  import opened Reliability
  import opened Acks
  import opened AckMatching
  import opened History
  import opened Delivery
  import opened Pacing
  import Data
  import ReliabilityCodec

  /** Everything outside the writer. The clock never goes back, it advances from one pass
      of the delivery loop to the next, and a pass takes at most `pass` ticks; sends and
      receives may fail, and anything may be received. */
  class Environment {
    const pass: int
    var clock: int
    ghost var start: int
    var passStart: int
    var sent: seq<(Bytes, Endpoint)>
    var received: seq<Datagram>
    /** What each of the sends returned. */
    ghost var outcomes: seq<bool>
    ghost var failed: bool
    ghost var stopped: bool
    /** When the passes of the delivery began, and how often it waited for a datagram. */
    ghost var passes: seq<int>
    ghost var waits: nat

    ghost predicate Valid()
      reads this
    {
      pass >= 1 && start <= passStart <= clock <= passStart + pass
    }

    constructor (longest: int)
      requires longest >= 1
      ensures Valid() && pass == longest && !stopped
    {
      var t: int := *;
      pass, clock, start, passStart := longest, t, t, t;
      sent, received, outcomes, failed, stopped := [], [], [], false, false;
      passes, waits := [], 0;
    }

    /** The first reading of the clock in a delivery. */
    method Start() returns (now: int)
      requires Valid()
      modifies this
      ensures Valid() && now == start == passStart == clock >= old(clock) && !failed && passes == [] && waits == 0
      ensures sent == old(sent) && received == old(received) && outcomes == old(outcomes) && stopped == old(stopped)
    {
      now :| now >= clock;
      clock, start, passStart, failed, passes, waits := now, now, now, false, [], 0;
    }

    /** The reading at the start of a pass. */
    method NextPass() returns (now: int)
      requires Valid()
      modifies this`clock, this`passStart, this`passes
      ensures Valid() && now == passStart == clock && passes == old(passes) + [now]
      ensures old(passStart) < passStart <= old(passStart) + pass
    {
      now :| clock <= now && passStart < now <= passStart + pass;
      clock, passStart, passes := now, now, passes + [now];
    }

    /** Any other reading. */
    method Now() returns (now: int)
      requires Valid()
      modifies this`clock
      ensures Valid() && now == clock
    {
      now :| clock <= now <= passStart + pass;
      clock := now;
    }

    method Stopping() returns (yes: bool)
      modifies this`stopped
      ensures yes ==> stopped
      ensures !yes ==> stopped == old(stopped)
    {
      yes := *;
      stopped := stopped || yes;
    }

    method Send(bytes: Bytes, to: Endpoint) returns (ok: bool)
      requires Valid()
      modifies this`clock, this`sent, this`outcomes, this`failed
      ensures Valid() && sent == old(sent) + [(bytes, to)] && outcomes == old(outcomes) + [ok]
      ensures failed == (old(failed) || !ok)
    {
      var later := Now();
      ok := *;
      sent, outcomes, failed := sent + [(bytes, to)], outcomes + [ok], failed || !ok;
    }

    method Receive(milliseconds: int) returns (r: Received)
      requires Valid() && milliseconds >= 1
      modifies this`clock, this`received, this`failed, this`waits
      ensures Valid() && failed == (old(failed) || r.Failed?) && waits == old(waits) + 1
      ensures received == if r.Got? then old(received) + [r.datagram] else old(received)
    {
      var later := Now();
      r := *;
      received, failed := if r.Got? then received + [r.datagram] else received, failed || r.Failed?;
      waits := waits + 1;
    }
  }

  // ---- The snapshot ----

  /** a occurs before any b. */
  ghost predicate Precedes(readers: seq<ReaderProxy>, a: ReaderProxy, b: ReaderProxy) {
    exists k :: 0 <= k < |readers| && readers[k] == a && b !in readers[..k + 1]
  }

  lemma PrecedesLonger(readers: seq<ReaderProxy>, x: ReaderProxy)
    ensures forall a, b | Precedes(readers, a, b) :: Precedes(readers + [x], a, b)
    ensures x !in readers ==> forall a | a in readers :: Precedes(readers + [x], a, x)
  {
    var all := readers + [x];
    forall a, b | Precedes(readers, a, b) ensures Precedes(all, a, b) {
      var k :| 0 <= k < |readers| && readers[k] == a && b !in readers[..k + 1];
      assert all[k] == a && all[..k + 1] == readers[..k + 1];
    }
    forall a | a in readers && x !in readers ensures Precedes(all, a, x) {
      var k :| 0 <= k < |readers| && readers[k] == a;
      assert all[k] == a && all[..k + 1] == readers[..k + 1];
    }
  }

  /** Keeps the first of equal proxies, in order of first occurrence. */
  method UniqueReaders(readers: seq<ReaderProxy>) returns (result: seq<ReaderProxy>)
    ensures Distinct(result) && forall r :: r in result <==> r in readers
    ensures forall i, j | 0 <= i < j < |result| :: Precedes(readers, result[i], result[j])
  {
    result := [];
    for k := 0 to |readers|
      invariant Distinct(result) && forall r :: r in result <==> r in readers[..k]
      invariant forall i, j | 0 <= i < j < |result| :: Precedes(readers[..k], result[i], result[j])
    {
      PrecedesLonger(readers[..k], readers[k]);
      assert readers[..k + 1] == readers[..k] + [readers[k]];
      if readers[k] !in result {
        result := result + [readers[k]];
      }
    }
    assert readers[..|readers|] == readers;
  }

  // ---- The writer ----

  class ReliableWriter {
    const guid: Guid
    const config: Config
    const env: Environment
    const history: WriterHistory
    var readers: seq<ReaderProxy>
    var heartbeatCount: Int32
    var retransmissions: nat
    /** What the delivery in progress, or the last one, did. */
    ghost var trace: seq<Action>
    /** The length of the trace when each datagram it received was handled. */
    ghost var handledAt: seq<nat>
    /** The readings of the clock that the actions count from, and the scans. */
    ghost var times: seq<int>
    ghost var scans: seq<Scanning>

    ghost predicate Valid()
      reads this, env, history
    {
      && config.timeout >= MILLISECOND && config.period >= MILLISECOND
      && heartbeatCount >= 0 && Distinct(readers)
      && env.Valid() && history.Valid() && history.guid == guid
    }

    /** Periods that are not positive become one millisecond. */
    constructor (environment: Environment, writer: Guid, matched: seq<ReaderProxy>, timeoutMs: int, periodMs: int,
                 retries: nat, depth: nat)
      requires environment.Valid()
      ensures Valid() && fresh(history) && history.log == [] && env == environment && guid == writer
      ensures config == Config(Max(timeoutMs, 1) * MILLISECOND, Max(periodMs, 1) * MILLISECOND, retries)
      ensures forall r :: r in readers <==> r in matched
    {
      var unique := UniqueReaders(matched);
      var log := new WriterHistory(writer, depth);
      env, guid, history, readers := environment, writer, log, unique;
      config := Config(Max(timeoutMs, 1) * MILLISECOND, Max(periodMs, 1) * MILLISECOND, retries);
      heartbeatCount, retransmissions, trace, handledAt, times, scans := 0, 0, [], [], [], [];
    }

    method SetReaders(matched: seq<ReaderProxy>)
      requires Valid()
      modifies this`readers
      ensures Valid() && forall r :: r in readers <==> r in matched
    {
      readers := UniqueReaders(matched);
    }

    // ---- send_change and send_heartbeat ----

    method SendChange(change: CacheChange, snapshot: seq<ReaderProxy>, i: nat) returns (ok: bool)
      requires env.Valid() && Changeable(change) && i < |snapshot|
      modifies this`trace, env`clock, env`sent, env`outcomes, env`failed
      ensures env.Valid() && trace == old(trace) + [SendData(i)]
      ensures env.sent == old(env.sent) + Handed(change, snapshot, SendData(i))
      ensures env.outcomes == old(env.outcomes) + if Data.Encodable(DataFor(change, snapshot[i])) then [ok] else []
      ensures ok ==> env.failed == old(env.failed) && Data.Encodable(DataFor(change, snapshot[i]))
      ensures !ok ==> env.failed || !Data.Encodable(DataFor(change, snapshot[i]))
    {
      hide Data.Encode;
      trace := trace + [SendData(i)];
      var reader := snapshot[i];
      Data.RoundTrip(DataFor(change, reader), Little, []);
      var encoded, body := Data.EncodeSubmessage(DataFor(change, reader), Little);
      if !encoded {
        return false;
      }
      ok := env.Send(EncodeMessageHeader(Header(change)) + body, reader.endpoint);
    }

    method SendHeartbeatTo(change: CacheChange, snapshot: seq<ReaderProxy>, i: nat) returns (ok: bool)
      requires env.Valid() && Changeable(change) && i < |snapshot| && heartbeatCount >= 0
      modifies this`trace, this`heartbeatCount, env`clock, env`sent, env`outcomes, env`failed
      ensures env.Valid() && heartbeatCount == NextCount(old(heartbeatCount))
      ensures trace == old(trace) + [SendHeartbeat(i, heartbeatCount)]
      ensures env.sent == old(env.sent) + Handed(change, snapshot, SendHeartbeat(i, heartbeatCount))
      ensures |Handed(change, snapshot, SendHeartbeat(i, heartbeatCount))| == 1
      ensures env.failed == (old(env.failed) || !ok) && env.outcomes == old(env.outcomes) + [ok]
    {
      hide EncodeHeartbeat;
      if heartbeatCount == INT32_MAX {
        heartbeatCount := 0;
      }
      heartbeatCount := heartbeatCount + 1;
      trace := trace + [SendHeartbeat(i, heartbeatCount)];
      var reader := snapshot[i];
      HeartbeatRoundTrip(HeartbeatFor(change, reader, heartbeatCount), Little, []);
      var heartbeat := HeartbeatFor(change, reader, heartbeatCount);
      var encoded, body := ReliabilityCodec.EncodeHeartbeatSubmessage(heartbeat, Little);
      ok := env.Send(EncodeMessageHeader(Header(change)) + body, reader.endpoint);
    }

    // ---- deliver_change ----

    ghost predicate Books(call: Call, states: seq<ReaderState>, offered: nat)
      reads this`trace, this`heartbeatCount, this`retransmissions, env
    {
      && call.config == config && Changeable(call.change)
      && env.Valid() && heartbeatCount >= 0
      && Tracks(call, states, trace, offered)
      && Grounded(call, trace, env.sent, env.received)
      && retransmissions == call.retransmissions + Total(Retries(states))
    }

    /** Why a delivery may fail. */
    ghost predicate Excuse(call: Call)
      requires Changeable(call.change)
      reads this`trace, env`failed, env`stopped
    {
      || env.failed || env.stopped
      || (exists r :: r in call.snapshot && !Data.Encodable(DataFor(call.change, r)))
      || (exists i :: 0 <= i < |call.snapshot| &&
            DataCount(trace, i) == 1 + call.config.maxRetries && !SettledIn(trace, i))
    }

    /** The DATA to reader i could not be encoded or sent, and nothing followed it. */
    twostate predicate DataFailed(change: CacheChange, snapshot: seq<ReaderProxy>, i: nat)
      requires Changeable(change) && i < |snapshot|
      reads this, env
    {
      && trace == old(trace) + [SendData(i)] && heartbeatCount == old(heartbeatCount)
      && env.outcomes == old(env.outcomes) + if Data.Encodable(DataFor(change, snapshot[i])) then [false] else []
    }

    /** The DATA to reader i was sent, the HEARTBEAT behind it failed. */
    twostate predicate HeartbeatFailed(i: nat)
      requires old(heartbeatCount) >= 0
      reads this, env
    {
      && trace == old(trace) + Offer(i, old(heartbeatCount)) && heartbeatCount == NextCount(old(heartbeatCount))
      && env.outcomes == old(env.outcomes) + [true, false]
    }

    /** DATA and HEARTBEAT to one reader. The caller has already noted the DATA in the
        records. */
    method Transmit(call: Call, ghost states: seq<ReaderState>, ghost offered: nat, i: nat) returns (ok: bool)
      requires call.config == config && Changeable(call.change) && env.Valid() && heartbeatCount >= 0
      requires Tracks(call, states, trace + [SendData(i)], offered) && i < |states| && !states[i].acknowledged
      requires Grounded(call, trace, env.sent, env.received)
      requires retransmissions == call.retransmissions + Total(Retries(states))
      modifies this`trace, this`heartbeatCount, env`clock, env`sent, env`outcomes, env`failed
      ensures Books(call, states, offered)
      ensures ok ==> !AfterData(trace) && env.failed == old(env.failed)
      ensures ok ==> trace == old(trace) + Offer(i, old(heartbeatCount))
      ensures ok ==> heartbeatCount == NextCount(old(heartbeatCount))
      ensures ok ==> env.outcomes == old(env.outcomes) + [true, true]
      ensures !ok ==> Excuse(call) && (DataFailed(call.change, call.snapshot, i) || HeartbeatFailed(i))
    {
      hide Tracks;
      hide Grounded;
      hide Handed;
      hide DataCount;
      hide SettledIn;
      hide Orderly;
      hide Data.Encodable;
      GroundedAction(call, trace, env.sent, env.received, SendData(i));
      SnapshotSize(call, states, trace + [SendData(i)], offered);
      ok := SendChange(call.change, call.snapshot, i);
      if !ok {
        assert call.snapshot[i] in call.snapshot;
        return;
      }
      ghost var t, sent := trace, env.sent;
      ok := SendHeartbeatTo(call.change, call.snapshot, i);
      TracksHeartbeat(call, states, t, offered, SendHeartbeat(i, heartbeatCount));
      GroundedAction(call, t, sent, env.received, SendHeartbeat(i, heartbeatCount));
    }

    lemma SnapshotSize(call: Call, states: seq<ReaderState>, t: seq<Action>, offered: nat)
      requires Tracks(call, states, t, offered)
      ensures |states| == |call.snapshot|
    {
    }

    method InitialTransmission(call: Call, states: array<ReaderState>, now: int) returns (ok: bool)
      requires Books(call, states[..], 0) && trace == [] && states.Length == |call.snapshot|
      requires forall i | 0 <= i < states.Length :: states[i] == ReaderState(call.snapshot[i], false, 0, 0, 0)
      modifies states, this`trace, this`heartbeatCount, env`clock, env`sent, env`outcomes, env`failed
      ensures ok ==> Books(call, states[..], |call.snapshot|) && !AfterData(trace) && env.failed == old(env.failed)
      ensures ok ==> forall i | 0 <= i < states.Length ::
                       states[i] == ReaderState(call.snapshot[i], false, 0, now + config.timeout, now + config.period)
      ensures ok ==> Round(trace, heartbeatCount, states.Length, old(heartbeatCount))
      ensures !ok ==> Excuse(call) && exists after, offered: nat :: Books(call, after, offered)
      ensures !ok ==> exists i: nat :: i < states.Length && StoppedAt(trace, i, old(heartbeatCount))
    {
      hide Excuse;
      hide Books;
      hide Round;
      hide StoppedAt;
      CountNotNegative(call, states[..]);
      RoundBegins(heartbeatCount);
      for i := 0 to states.Length
        invariant Round(trace, heartbeatCount, i, old(heartbeatCount))
        invariant Books(call, states[..], i) && !AfterData(trace) && env.failed == old(env.failed)
        invariant forall j | 0 <= j < i ::
                    states[j] == ReaderState(call.snapshot[j], false, 0, now + config.timeout, now + config.period)
        invariant forall j | i <= j < states.Length :: states[j] == ReaderState(call.snapshot[j], false, 0, 0, 0)
      {
        ghost var s := states[..];
        ok := OfferOne(call, states, i, now, old(heartbeatCount));
        if !ok {
          return false;
        }
        assert forall j | 0 <= j < |s| && j != i :: states[..][j] == s[j];
      }
      return true;
    }

    lemma CountNotNegative(call: Call, states: seq<ReaderState>)
      requires Books(call, states, 0)
      ensures heartbeatCount >= 0
    {
    }

    method OfferOne(call: Call, states: array<ReaderState>, i: nat, now: int, ghost first: Int32) returns (ok: bool)
      requires Books(call, states[..], i) && !AfterData(trace) && i < states.Length && !states[i].acknowledged
      requires first >= 0 && Round(trace, heartbeatCount, i, first)
      modifies states, this`trace, this`heartbeatCount, env`clock, env`sent, env`outcomes, env`failed
      ensures Books(call, states[..], i + 1)
      ensures ok ==> !AfterData(trace) && env.failed == old(env.failed)
      ensures ok ==> states[..] == old(states[..])[i := Armed(config, old(states[i]), now)]
      ensures ok ==> Round(trace, heartbeatCount, i + 1, first)
      ensures !ok ==> Excuse(call) && StoppedAt(trace, i, first)
    {
      hide Round;
      hide StoppedAt;
      hide Offer;
      hide Tracks;
      hide Grounded;
      hide Excuse;
      ghost var s, before, count := states[..], trace, heartbeatCount;
      TracksOffer(call, s, trace, i);
      ok := Transmit(call, s, i + 1, i);
      RoundNext(before, count, trace, i, first);
      if ok {
        states[i] := Armed(config, states[i], now);
        TracksDeadlines(call, s, trace, i + 1, i, now + config.timeout, now + config.period);
        assert states[..] == s[i := states[i]];
      }
    }

    method AllAcknowledged(states: array<ReaderState>) returns (all: bool)
      ensures all <==> forall i | 0 <= i < states.Length :: states[i].acknowledged
    {
      for i := 0 to states.Length
        invariant forall j | 0 <= j < i :: states[j].acknowledged
      {
        if !states[i].acknowledged {
          return false;
        }
      }
      return true;
    }

    /** Counts a retry of reader i and sends DATA and HEARTBEAT again. */
    method Retransmit(call: Call, states: array<ReaderState>, i: nat) returns (ok: bool)
      requires Books(call, states[..], states.Length) && !AfterData(trace) && states.Length == |call.snapshot|
      requires i < states.Length && !states[i].acknowledged && states[i].retries < config.maxRetries
      modifies states, this`trace, this`heartbeatCount, this`retransmissions, env`clock, env`sent, env`outcomes,
               env`failed
      ensures states[..] == old(states[..])[i := old(states[i]).(retries := old(states[i]).retries + 1)]
      ensures Books(call, states[..], states.Length)
      ensures ok ==> !AfterData(trace) && env.failed == old(env.failed)
      ensures ok ==> trace == old(trace) + Offer(i, old(heartbeatCount))
      ensures ok ==> heartbeatCount == NextCount(old(heartbeatCount))
      ensures !ok ==> Excuse(call)
      ensures !ok ==> trace == old(trace) + [SendData(i)] || trace == old(trace) + Offer(i, old(heartbeatCount))
    {
      hide Tracks;
      hide Grounded;
      hide Excuse;
      ghost var s := states[..];
      states[i] := states[i].(retries := states[i].retries + 1);
      assert states[..] == s[i := states[i]];
      TracksRetry(call, s, trace, i, states[i]);
      retransmissions := retransmissions + 1;
      ok := Transmit(call, states[..], states.Length, i);
    }

    /** Sets both deadlines of reader i. */
    method Rearm(call: Call, states: array<ReaderState>, i: nat, now: int)
      requires Books(call, states[..], states.Length) && i < states.Length
      modifies states
      ensures Books(call, states[..], states.Length)
      ensures states[..] == old(states[..])[i := Armed(config, old(states[i]), now)]
    {
      hide Tracks;
      ghost var s := states[..];
      states[i] := Armed(config, states[i], now);
      TracksDeadlines(call, s, trace, |s|, i, now + config.timeout, now + config.period);
      assert states[..] == s[i := states[i]];
    }

    /** The heartbeat of a reader whose retry deadline lies ahead. */
    method Remind(call: Call, states: array<ReaderState>, i: nat, now: int) returns (ok: bool)
      requires Books(call, states[..], states.Length) && !AfterData(trace) && states.Length == |call.snapshot|
      requires i < states.Length && !states[i].acknowledged
      modifies states, this`trace, this`heartbeatCount, env`clock, env`sent, env`outcomes, env`failed
      ensures Books(call, states[..], states.Length)
      ensures ok ==> !AfterData(trace) && env.failed == old(env.failed)
      ensures ok ==> states[..] == old(states[..])[i := old(states[i]).(heartbeatDeadline := now + config.period)]
      ensures ok ==> trace == old(trace) + [SendHeartbeat(i, heartbeatCount)]
      ensures ok ==> heartbeatCount == NextCount(old(heartbeatCount))
      ensures !ok ==> Excuse(call) && old(trace) <= trace
    {
      hide Tracks;
      hide Grounded;
      ghost var s, t, sent := states[..], trace, env.sent;
      ok := SendHeartbeatTo(call.change, call.snapshot, i);
      TracksHeartbeat(call, s, t, |s|, SendHeartbeat(i, heartbeatCount));
      GroundedAction(call, t, sent, env.received, SendHeartbeat(i, heartbeatCount));
      if ok {
        states[i] := states[i].(heartbeatDeadline := now + config.period);
        TracksDeadlines(call, s, trace, |s|, i, s[i].retryDeadline, now + config.period);
        assert states[..] == s[i := states[i]];
      }
    }

    /** One record at the start of a pass. */
    method ScanOne(call: Call, states: array<ReaderState>, i: nat, now: int) returns (ok: bool)
      requires Books(call, states[..], states.Length) && !AfterData(trace) && states.Length == |call.snapshot|
      requires i < states.Length && states[i].retries <= config.maxRetries
      modifies states, this`trace, this`heartbeatCount, this`retransmissions, env`clock, env`sent, env`outcomes,
               env`failed
      ensures Books(call, states[..], states.Length)
      ensures ok ==> !AfterData(trace) && env.failed == old(env.failed)
      ensures ok ==> !Exhausted(config, old(states[i]), now)
      ensures ok ==> states[..] == old(states[..])[i := Scanned(config, old(states[i]), now)]
      ensures ok ==> var more := ScanAction(old(states[i]), i, now, old(heartbeatCount));
                     && trace == old(trace) + more
                     && heartbeatCount == if more == [] then old(heartbeatCount) else NextCount(old(heartbeatCount))
      ensures !ok ==> Excuse(call) && old(trace) <= trace
    {
      hide Tracks;
      hide Grounded;
      hide Excuse;
      ghost var s := states[..];
      ok := true;
      if states[i].acknowledged {
        assert states[..] == s[i := s[i]];
        return;
      }
      if now >= states[i].retryDeadline {
        if states[i].retries == config.maxRetries {
          UsedUp(call, states[..], i);
          return false;
        }
        ok := Retransmit(call, states, i);
        if ok {
          Rearm(call, states, i, now);
        }
      } else if now >= states[i].heartbeatDeadline {
        ok := Remind(call, states, i, now);
      } else {
        assert states[..] == s[i := s[i]];
      }
    }

    lemma UsedUp(call: Call, states: seq<ReaderState>, i: nat)
      requires Books(call, states, |states|) && i < |states|
      requires !states[i].acknowledged && states[i].retries == config.maxRetries
      ensures Excuse(call)
    {
    }

    method Scan(call: Call, states: array<ReaderState>, now: int) returns (ok: bool)
      requires Books(call, states[..], states.Length) && !AfterData(trace) && states.Length == |call.snapshot|
      modifies states, this`trace, this`heartbeatCount, this`retransmissions, env`clock, env`sent, env`outcomes,
               env`failed
      ensures Books(call, states[..], states.Length)
      ensures ok ==> !AfterData(trace) && env.failed == old(env.failed)
      ensures ok ==> forall i | 0 <= i < states.Length ::
                       states[i] == Scanned(config, old(states[i]), now) && !Exhausted(config, old(states[i]), now)
      ensures ok ==> var (done, count) := ScanActions(old(states[..]), now, old(heartbeatCount));
                     trace == old(trace) + done && heartbeatCount == count
      ensures !ok ==> Excuse(call) && old(trace) <= trace
    {
      hide Tracks;
      hide Grounded;
      hide Excuse;
      hide Scanned;
      hide ScanAction;
      hide Exhausted;
      ghost var all := states[..];
      assert all[..0] == [];
      assert ScanActions(all[..0], now, heartbeatCount) == ([], heartbeatCount);
      hide ScanActions;
      for i := 0 to states.Length
        invariant var (done, count) := ScanActions(all[..i], now, old(heartbeatCount));
                  trace == old(trace) + done && heartbeatCount == count
        invariant Books(call, states[..], states.Length) && !AfterData(trace) && env.failed == old(env.failed)
        invariant forall j | 0 <= j < i ::
                    states[j] == Scanned(config, old(states[j]), now) && !Exhausted(config, old(states[j]), now)
        invariant forall j | i <= j < states.Length :: states[j] == old(states[j])
      {
        ghost var s := states[..];
        RetriesLeft(call, s, i);
        ScanActionsNext(all, i, now, old(heartbeatCount));
        ok := ScanOne(call, states, i, now);
        if !ok {
          return false;
        }
        assert forall j | 0 <= j < states.Length && j != i :: states[..][j] == s[j];
      }
      assert all[..states.Length] == all;
      return true;
    }

    lemma RetriesLeft(call: Call, states: seq<ReaderState>, i: nat)
      requires Books(call, states, |states|) && i < |states|
      ensures states[i].retries <= config.maxRetries
    {
    }

    /** How long to wait for a datagram: never past a deadline by more than a millisecond,
        and between 1 and 50 milliseconds. */
    method ReceiveTimeout(states: array<ReaderState>, now: int) returns (milliseconds: int)
      requires exists i :: 0 <= i < states.Length && !states[i].acknowledged
      ensures 1 <= milliseconds <= 50
      ensures milliseconds > 1 ==>
                forall i | 0 <= i < states.Length && !states[i].acknowledged ::
                  now + milliseconds * MILLISECOND <= Min(states[i].retryDeadline, states[i].heartbeatDeadline)
      ensures milliseconds < 50 ==>
                exists i :: 0 <= i < states.Length && !states[i].acknowledged &&
                  Min(states[i].retryDeadline, states[i].heartbeatDeadline) < now + (milliseconds + 1) * MILLISECOND
    {
      var next: Option<int> := None;
      for i := 0 to states.Length
        invariant next.None? <==> forall j | 0 <= j < i :: states[j].acknowledged
        invariant next.Some? ==>
                    && (forall j | 0 <= j < i && !states[j].acknowledged ::
                          next.value <= Min(states[j].retryDeadline, states[j].heartbeatDeadline))
                    && (exists j :: 0 <= j < i && !states[j].acknowledged &&
                          next.value == Min(states[j].retryDeadline, states[j].heartbeatDeadline))
      {
        if !states[i].acknowledged {
          var event := Min(states[i].retryDeadline, states[i].heartbeatDeadline);
          next := Some(if next.None? then event else Min(next.value, event));
        }
      }
      // the cast to milliseconds truncates
      var left := next.value - now;
      milliseconds := if left < 0 then 0 else left / MILLISECOND;
      milliseconds := Min(if milliseconds <= 0 then 1 else milliseconds, 50);
    }

    method FindPending(states: array<ReaderState>, ack: AckNack, source: Endpoint) returns (k: nat)
      ensures k == FirstMatch(states[..], ack, source, 0)
    {
      k := 0;
      while k < states.Length && (states[k].acknowledged || !Matches(ack, source, states[k].reader))
        invariant k <= states.Length && FirstMatch(states[..], ack, source, 0) == FirstMatch(states[..], ack, source, k)
      {
        k := k + 1;
      }
    }

    /** What the loop does with a datagram. */
    method HandleReply(call: Call, states: array<ReaderState>, d: Datagram) returns (ok: bool, ghost at: int)
      requires Books(call, states[..], states.Length) && !AfterData(trace) && states.Length == |call.snapshot|
      requires call.change.writer == guid && d in env.received[call.heard..]
      modifies states, this`trace, this`heartbeatCount, this`retransmissions, env`clock, env`sent, env`outcomes,
               env`failed
      ensures Books(call, states[..], states.Length)
      ensures ok ==> !AfterData(trace) && env.failed == old(env.failed)
      ensures env.passStart <= at <= env.passStart + env.pass
      ensures ok ==>
                var reply, n := AckNackIn(d.payload, guid.entity), call.change.sequence;
                && !Refused(config, old(states[..]), reply, d.source, n)
                && states[..] == Replied(config, old(states[..]), reply, d.source, n, at)
                && trace == old(trace) + ReplyActions(old(states[..]), reply, d, n, old(heartbeatCount))
      ensures !ok ==> Excuse(call)
      ensures old(trace) <= trace && Answered(call, trace, |old(trace)|, d, !ok)
    {
      hide Tracks;
      hide Grounded;
      hide Excuse;
      hide AckNackIn;
      hide Accepts;
      at := env.clock;
      ok := true;
      ghost var s, t, count := states[..], trace, heartbeatCount;
      var reply := AckNackIn(d.payload, guid.entity);
      if reply.None? {
        ReplyAnswers(call, s, t, trace, d, count, false);
        return;
      }
      var ack, n := reply.value, call.change.sequence;
      var k := FindPending(states, ack, d.source);
      if k == states.Length {
        ReplyAnswers(call, s, t, trace, d, count, false);
        return;
      }
      if Accepts(ack, n) {
        Close(call, states, k, d);
        ReplyAnswers(call, s, t, trace, d, count, false);
        return;
      }
      if ack.state.Contains(n) {
        RetriesLeft(call, s, k);
        if states[k].retries == config.maxRetries {
          UsedUp(call, states[..], k);
          ReplyAnswers(call, s, t, trace, d, count, true);
          return false, at;
        }
        ok := Retransmit(call, states, k);
        if ok {
          var now := env.Now();
          at := now;
          Rearm(call, states, k, now);
        }
      }
      ReplyAnswers(call, s, t, trace, d, count, !ok);
    }

    method Close(call: Call, states: array<ReaderState>, k: nat, d: Datagram)
      requires Books(call, states[..], states.Length) && !AfterData(trace) && states.Length == |call.snapshot|
      requires k < states.Length && !states[k].acknowledged && d in env.received[call.heard..]
      requires Settles(d, call.change.writer.entity, states[k].reader, call.change.sequence)
      modifies states, this`trace
      ensures Books(call, states[..], states.Length) && !AfterData(trace) && trace == old(trace) + [Settle(k, d)]
      ensures states[..] == old(states[..])[k := old(states[k]).(acknowledged := true)]
    {
      hide Settles;
      hide Orderly;
      ghost var s, t := states[..], trace;
      states[k] := states[k].(acknowledged := true);
      assert states[..] == s[k := states[k]];
      trace := trace + [Settle(k, d)];
      GroundedSettle(call, t, env.sent, env.received, k, d);
      TracksSettle(call, s, t, k, d);
    }

    ghost function Log(): Record
      reads this, env
    {
      Record(trace, handledAt, times, scans, env.received, env.passes, env.waits)
    }

    /** Every reader was sent DATA and answered with an ACKNACK that settles it. */
    ghost predicate AllSettled(call: Call, received: seq<Datagram>)
      reads this`trace
    {
      && call.heard <= |received|
      && (forall i | 0 <= i < |call.snapshot| :: DataCount(trace, i) >= 1 && SettledIn(trace, i))
      && forall r | r in call.snapshot ::
           exists d | d in received[call.heard..] :: Settles(d, call.change.writer.entity, r, call.change.sequence)
    }

    /** Every reader a settling datagram came in for has been settled. */
    ghost predicate NoneLost(call: Call, received: seq<Datagram>)
      reads this`trace
    {
      && call.heard <= |received|
      && forall i, d | 0 <= i < |call.snapshot| && d in received[call.heard..] &&
                       Settles(d, call.change.writer.entity, call.snapshot[i], call.change.sequence) ::
           SettledIn(trace, i)
    }

    /** Unless something else ended the call, a reader used up its retries and nothing that
        came in settles it. */
    ghost predicate SilentReader(call: Call)
      requires Changeable(call.change) && call.heard <= |env.received|
      reads this, env
    {
      || env.failed || env.stopped
      || (exists r :: r in call.snapshot && !Data.Encodable(DataFor(call.change, r)))
      || (exists i :: 0 <= i < |call.snapshot| && DataCount(trace, i) == 1 + call.config.maxRetries &&
            forall d | d in env.received[call.heard..] ::
              !Settles(d, call.change.writer.entity, call.snapshot[i], call.change.sequence))
    }

    /** What every delivery keeps, however it ends. */
    ghost predicate Result(call: Call)
      reads this, env
    {
      && Changeable(call.change) && env.Valid() && heartbeatCount >= 0
      && Orderly(trace) && Grounded(call, trace, env.sent, env.received)
      && (forall k | 0 <= k < |trace| ::
            trace[k].index < |call.snapshot| && (trace[k].SendHeartbeat? ==> trace[k].count > 0))
      && (forall i | 0 <= i < |call.snapshot| :: DataCount(trace, i) <= 1 + call.config.maxRetries)
      && retransmissions == call.retransmissions + Total(Repeats(trace, |call.snapshot|))
    }

    lemma BooksGiveResult(call: Call, states: seq<ReaderState>, offered: nat)
      requires Books(call, states, offered)
      ensures Result(call)
    {
      hide Grounded;
      RetriesAreRepeats(call, states, trace, offered);
    }

    lemma AllDone(call: Call, states: seq<ReaderState>)
      requires Books(call, states, |states|) && forall i | 0 <= i < |states| :: states[i].acknowledged
      ensures AllSettled(call, env.received)
    {
      hide Settles;
      forall r | r in call.snapshot
        ensures exists d | d in env.received[call.heard..] ::
                  Settles(d, call.change.writer.entity, r, call.change.sequence)
      {
        var i :| 0 <= i < |call.snapshot| && call.snapshot[i] == r;
        assert SettledIn(trace, i);
        var k :| 0 <= k < |trace| && trace[k].Settle? && trace[k].index == i;
        assert trace[k].datagram in env.received[call.heard..];
      }
    }

    /** The pass made the termination measure smaller. */
    predicate Closer(before: seq<ReaderState>, last: int, after: seq<ReaderState>, now: int) {
      || Total(Budgets(config, after)) < Total(Budgets(config, before))
      || (Total(Budgets(config, after)) == Total(Budgets(config, before)) &&
          Total(Waits(after, now)) < Total(Waits(before, last)))
    }

    /** One pass of the loop: the scan, and the handling of what is received. */
    method Pass(call: Call, states: array<ReaderState>) returns (ok: bool)
      requires Books(call, states[..], states.Length) && !AfterData(trace) && states.Length == |call.snapshot|
      requires call.change.writer == guid && !env.failed && config.timeout >= 1 && config.period >= 1
      requires exists i :: 0 <= i < states.Length && !states[i].acknowledged
      requires Timely(config, states[..], env.start, env.pass, env.passStart)
      requires InHand(call, states[..], Log(), env.passStart, 0)
      modifies states, this`trace, this`heartbeatCount, this`retransmissions, this`handledAt, this`times, this`scans,
               env
      ensures ok ==> InHand(call, states[..], Log(), env.passStart, 0)
      ensures !ok ==> Attentive(call, Log(), true)
      ensures Books(call, states[..], states.Length) && env.start == old(env.start)
      ensures env.passStart < GiveUpTime(config, env.start, env.pass)
      ensures !ok ==> Excuse(call)
      ensures ok ==> !AfterData(trace) && !env.failed
      ensures ok ==> Timely(config, states[..], env.start, env.pass, env.passStart)
      ensures ok ==> Closer(old(states[..]), old(env.passStart), states[..], env.passStart)
    {
      hide Books;
      hide Timely;
      hide GiveUpTime;
      hide Excuse;
      hide InHand;
      hide Attentive;
      ok := BeginPass(call, states);
      if ok {
        ok := AwaitReply(call, states);
      }
    }

    method BeginPass(call: Call, states: array<ReaderState>) returns (ok: bool)
      requires Books(call, states[..], states.Length) && !AfterData(trace) && states.Length == |call.snapshot|
      requires !env.failed && config.timeout >= 1 && config.period >= 1
      requires exists i :: 0 <= i < states.Length && !states[i].acknowledged
      requires Timely(config, states[..], env.start, env.pass, env.passStart)
      requires InHand(call, states[..], Log(), env.passStart, 0)
      modifies states, this`trace, this`heartbeatCount, this`retransmissions, this`times, this`scans, env
      ensures Books(call, states[..], states.Length) && env.start == old(env.start)
      ensures env.received == old(env.received) && env.passStart < GiveUpTime(config, env.start, env.pass)
      ensures ok ==> InHand(call, states[..], Log(), env.passStart, 1)
      ensures !ok ==> Attentive(call, Log(), true)
      ensures !ok ==> Excuse(call)
      ensures ok ==> !AfterData(trace) && !env.failed
      ensures ok ==> exists i :: 0 <= i < states.Length && !states[i].acknowledged
      ensures ok ==> Timely(config, states[..], env.start, env.pass, env.passStart)
      ensures ok ==> Closer(old(states[..]), old(env.passStart), states[..], env.passStart)
    {
      hide Tracks;
      hide Grounded;
      hide Timely;
      hide GiveUpTime;
      hide Scanned;
      hide Exhausted;
      hide ScanActions;
      hide Total;
      hide InHand;
      hide Attentive;
      ghost var before, last := states[..], env.passStart;
      Bounds(call, before, last);
      ghost var log, count := Log(), heartbeatCount;
      var now := env.NextPass();
      Begins(before, env.start, env.pass, last, now);
      ok := Scan(call, states, now);
      if ok {
        ghost var scanned := states[..];
        ScanProgress(config, before, scanned, last, now);
        ScannedTimely(config, before, scanned, env.start, env.pass, last, now);
        StillPending(before, scanned, now);
        times := times + Stamps(|trace| - |log.trace|, now);
        scans := scans + [Scanning(now, |trace|)];
        ScanInHand(call, before, scanned, log, Log(), last, now, count);
      } else {
        ScanFailed(call, before, log, Log(), last, now);
      }
    }

    /** Waits for a datagram and handles it. */
    method AwaitReply(call: Call, states: array<ReaderState>) returns (ok: bool)
      requires Books(call, states[..], states.Length) && !AfterData(trace) && states.Length == |call.snapshot|
      requires call.change.writer == guid && !env.failed && config.timeout >= 1
      requires exists i :: 0 <= i < states.Length && !states[i].acknowledged
      requires Timely(config, states[..], env.start, env.pass, env.passStart)
      requires InHand(call, states[..], Log(), env.passStart, 1)
      modifies states, this`trace, this`heartbeatCount, this`retransmissions, this`handledAt, this`times,
               env`clock, env`sent, env`received, env`outcomes, env`failed, env`waits
      ensures Books(call, states[..], states.Length)
      ensures !ok ==> Excuse(call)
      ensures ok ==> InHand(call, states[..], Log(), env.passStart, 0)
      ensures !ok ==> Attentive(call, Log(), true)
      ensures ok ==> !AfterData(trace) && !env.failed
      ensures ok ==> Timely(config, states[..], env.start, env.pass, env.passStart)
      ensures ok ==>
                || states[..] == old(states[..])
                || Total(Budgets(config, states[..])) < Total(Budgets(config, old(states[..])))
    {
      hide Tracks;
      hide Grounded;
      hide Timely;
      hide Budgets;
      hide Answered;
      hide ReplyActions;
      hide Replied;
      hide AckNackIn;
      hide Total;
      hide InHand;
      hide Attentive;
      var now := env.Now();
      var milliseconds := ReceiveTimeout(states, now);
      ghost var s, heard, log, count := states[..], env.received, Log(), heartbeatCount;
      var received := env.Receive(milliseconds);
      if !received.Got? {
        ok := received.Timeout?;
        NothingCame(call, s, log, env.passStart);
        if !ok {
          Failure(call);
          InHandIsAttentive(call, s, Log(), env.passStart, 0, true);
        }
        return;
      }
      GroundedMore(call, trace, env.sent, heard, received.datagram);
      ghost var at;
      ok, at := React(call, states, received.datagram);
      handledAt := handledAt + [|log.trace|];
      if ok {
        times := times + Stamps(|trace| - |log.trace|, at);
        ReplyInHand(call, s, log, Log(), env.passStart, received.datagram, at, count);
      } else {
        ReplyFailed(call, s, log, Log(), env.passStart, received.datagram);
      }
    }

    lemma Failure(call: Call)
      requires env.failed && Changeable(call.change)
      ensures Excuse(call)
    {
    }

    lemma Bounds(call: Call, states: seq<ReaderState>, last: int)
      requires Books(call, states, |states|) && Timely(config, states, env.start, env.pass, last)
      ensures forall i | 0 <= i < |states| :: states[i].retries <= config.maxRetries
      ensures forall i | 0 <= i < |states| && !states[i].acknowledged :: last < states[i].retryDeadline
    {
    }

    lemma Begins(states: seq<ReaderState>, start: int, pass: int, last: int, now: int)
      requires config.timeout >= 0 && pass >= 0 && now <= last + pass
      requires forall i | 0 <= i < |states| :: states[i].retries <= config.maxRetries
      requires exists i :: 0 <= i < |states| && !states[i].acknowledged
      requires Timely(config, states, start, pass, last)
      ensures now < GiveUpTime(config, start, pass)
    {
      var i :| 0 <= i < |states| && !states[i].acknowledged;
      PassBegins(config, states[i], start, pass, last, now);
    }

    /** The scan acknowledges nobody, so the second test of the loop's condition, right
        after it, never holds. */
    lemma StillPending(before: seq<ReaderState>, after: seq<ReaderState>, now: int)
      requires |after| == |before| && forall i | 0 <= i < |before| :: after[i] == Scanned(config, before[i], now)
      requires exists i :: 0 <= i < |before| && !before[i].acknowledged
      ensures exists i :: 0 <= i < |after| && !after[i].acknowledged
    {
      var i :| 0 <= i < |before| && !before[i].acknowledged;
      assert !after[i].acknowledged;
    }

    method React(call: Call, states: array<ReaderState>, d: Datagram) returns (ok: bool, ghost at: int)
      requires Books(call, states[..], states.Length) && !AfterData(trace) && states.Length == |call.snapshot|
      requires call.change.writer == guid && d in env.received[call.heard..] && !env.failed && config.timeout >= 1
      requires Timely(config, states[..], env.start, env.pass, env.passStart)
      modifies states, this`trace, this`heartbeatCount, this`retransmissions, env`clock, env`sent, env`outcomes,
               env`failed
      ensures Books(call, states[..], states.Length)
      ensures ok ==> !AfterData(trace) && !env.failed
      ensures ok ==> Timely(config, states[..], env.start, env.pass, env.passStart)
      ensures ok ==>
                || states[..] == old(states[..])
                || Total(Budgets(config, states[..])) < Total(Budgets(config, old(states[..])))
      ensures !ok ==> Excuse(call)
      ensures ok ==>
                var reply, n := AckNackIn(d.payload, guid.entity), call.change.sequence;
                && states[..] == Replied(config, old(states[..]), reply, d.source, n, at)
                && trace == old(trace) + ReplyActions(old(states[..]), reply, d, n, old(heartbeatCount))
      ensures old(trace) <= trace && Answered(call, trace, |old(trace)|, d, !ok)
    {
      hide Tracks;
      hide Grounded;
      hide Timely;
      hide Excuse;
      hide Replied;
      hide Refused;
      hide AckNackIn;
      hide Total;
      hide Answered;
      hide ReplyActions;
      ghost var s := states[..];
      Bounds(call, s, env.passStart);
      ok, at := HandleReply(call, states, d);
      if ok {
        ghost var reply, n := AckNackIn(d.payload, guid.entity), call.change.sequence;
        ReplyProgress(config, s, reply, d.source, n, at);
        ReplyTimely(config, s, reply, d.source, n, env.start, env.pass, env.passStart, at);
      }
    }

    /** The loop. It ends: each pass uses up retries, settles a reader, or brings the
        pending readers closer to their retry deadlines. */
    method RunPasses(call: Call, states: array<ReaderState>) returns (delivered: bool)
      requires Books(call, states[..], states.Length) && !AfterData(trace) && states.Length == |call.snapshot|
      requires call.change.writer == guid && !env.failed && config.timeout >= 1 && config.period >= 1
      requires Timely(config, states[..], env.start, env.pass, env.passStart)
      requires env.passStart < GiveUpTime(config, env.start, env.pass)
      requires InHand(call, states[..], Log(), env.passStart, 0)
      modifies states, this`trace, this`heartbeatCount, this`retransmissions, this`handledAt, this`times, this`scans,
               env
      ensures Result(call) && env.start == old(env.start)
      ensures delivered ==> AllSettled(call, env.received)
      ensures !delivered ==> Excuse(call)
      ensures Attentive(call, Log(), !delivered)
      ensures env.passStart < GiveUpTime(config, env.start, env.pass)
    {
      hide Tracks;
      hide Grounded;
      hide Result;
      hide Timely;
      hide Excuse;
      hide Total;
      hide InHand;
      hide Attentive;
      var all := AllAcknowledged(states);
      while !all
        invariant Books(call, states[..], states.Length) && !AfterData(trace) && !env.failed
        invariant env.start == old(env.start)
        invariant InHand(call, states[..], Log(), env.passStart, 0)
        invariant Timely(config, states[..], env.start, env.pass, env.passStart)
        invariant env.passStart < GiveUpTime(config, env.start, env.pass)
        invariant all <==> forall i | 0 <= i < states.Length :: states[i].acknowledged
        decreases Total(Budgets(config, states[..])), Total(Waits(states[..], env.passStart))
      {
        var stopping := env.Stopping();
        if stopping {
          BooksGiveResult(call, states[..], states.Length);
          Stopped(call);
          InHandIsAttentive(call, states[..], Log(), env.passStart, 0, true);
          return false;
        }
        delivered := Pass(call, states);
        if !delivered {
          BooksGiveResult(call, states[..], states.Length);
          return;
        }
        all := AllAcknowledged(states);
      }
      BooksGiveResult(call, states[..], states.Length);
      AllDone(call, states[..]);
      InHandIsAttentive(call, states[..], Log(), env.passStart, 0, false);
      return true;
    }

    /** What a delivery promises. It returns true only after a settling ACKNACK came in from
        every reader, and false only for one of the stated reasons. Each reader is sent
        DATA at most 1 + maxRetries times and nothing once it has settled; the
        retransmission counter grows by the repeated DATA; every datagram that comes in is
        heeded, so none that settles a reader is lost; and what is sent keeps the schedule. */
    ghost predicate Outcome(call: Call, delivered: bool)
      reads this, env
    {
      && Result(call)
      && (delivered ==> AllSettled(call, env.received))
      && (!delivered ==> Excuse(call))
      && Attentive(call, Log(), !delivered)
      && (Known(call.snapshot) ==> NoneLost(call, env.received) && (!delivered ==> SilentReader(call)))
    }

    /** Delivers one change to the snapshot. No pass of the loop begins
        (maxRetries + 1) * (timeout + pass) ticks after the start or later. */
    method DeliverChange(change: CacheChange, snapshot: seq<ReaderProxy>) returns (delivered: bool)
      requires Valid() && Changeable(change) && change.writer == guid
      modifies this`trace, this`heartbeatCount, this`retransmissions, this`handledAt, this`times, this`scans, env
      ensures Valid() && env.start >= old(env.clock)
      ensures var call := Call(change, snapshot, config, old(env.sent), |old(env.received)|, old(retransmissions));
              Outcome(call, delivered)
      ensures env.passStart < GiveUpTime(config, env.start, env.pass)
    {
      hide Tracks;
      hide Grounded;
      hide Orderly;
      hide Excuse;
      hide GiveUpTime;
      hide Total;
      hide AllSettled;
      hide NoneLost;
      hide SilentReader;
      hide Attentive;
      hide Known;
      var call := Call(change, snapshot, config, env.sent, |env.received|, retransmissions);
      var states := new ReaderState[|snapshot|](
        i requires 0 <= i < |snapshot| => ReaderState(snapshot[i], false, 0, 0, 0));
      trace, handledAt, times, scans := [], [], [], [];
      var now := env.Start();
      OpenBooks(call, states[..]);
      delivered := Deliver(call, states, now);
      NothingLost(call, !delivered);
    }

    /** The first round and the loop. */
    method Deliver(call: Call, states: array<ReaderState>, now: int) returns (delivered: bool)
      requires Books(call, states[..], 0) && trace == [] && states.Length == |call.snapshot| && !env.failed
      requires forall i | 0 <= i < states.Length :: states[i] == ReaderState(call.snapshot[i], false, 0, 0, 0)
      requires Log() == Record([], [], [], [], env.received, [], 0) && |env.received| == call.heard
      requires call.config == config && call.change.writer == guid && config.timeout >= 1 && config.period >= 1
      requires now == env.start == env.passStart && env.pass >= 1
      modifies states, this`trace, this`heartbeatCount, this`retransmissions, this`handledAt, this`times, this`scans,
               env
      ensures Result(call) && env.start == old(env.start)
      ensures delivered ==> AllSettled(call, env.received)
      ensures !delivered ==> Excuse(call)
      ensures Attentive(call, Log(), !delivered)
      ensures env.passStart < GiveUpTime(config, env.start, env.pass)
    {
      hide Books;
      hide Result;
      hide Timely;
      hide Excuse;
      hide GiveUpTime;
      hide AllSettled;
      hide InHand;
      hide Attentive;
      hide Round;
      FirstPass(env.start, env.pass);
      CountNotNegative(call, states[..]);
      delivered := InitialTransmission(call, states, now);
      if !delivered {
        ghost var after, offered: nat :| Books(call, after, offered);
        BooksGiveResult(call, after, offered);
        NothingHeardYet(call, Log());
        return;
      }
      AllArmed(states[..], env.start, env.pass);
      times := Stamps(|trace|, now);
      RoundInHand(call, states[..], Log(), heartbeatCount, old(heartbeatCount), now);
      delivered := RunPasses(call, states);
    }

    lemma NothingLost(call: Call, ended: bool)
      requires Attentive(call, Log(), ended) && Changeable(call.change)
      ensures Known(call.snapshot) ==> NoneLost(call, env.received)
      ensures Known(call.snapshot) && Excuse(call) ==> SilentReader(call)
    {
      hide ScheduleKept;
      hide Answered;
      hide Demands;
      hide Settles;
      hide DataCount;
      hide SettledIn;
      hide Known;
      if Known(call.snapshot) {
        forall i, d | 0 <= i < |call.snapshot| && d in env.received[call.heard..] &&
                      Settles(d, call.change.writer.entity, call.snapshot[i], call.change.sequence)
          ensures SettledIn(trace, i)
        {
          SettlingSettles(call, trace, env.received, handledAt, ended, i, d);
        }
      }
    }

    lemma Stopped(call: Call)
      requires env.stopped && Changeable(call.change)
      ensures Excuse(call)
    {
    }

    lemma OpenBooks(call: Call, states: seq<ReaderState>)
      requires call.config == config && Changeable(call.change) && env.Valid() && heartbeatCount >= 0 && trace == []
      requires call.sent == env.sent && call.heard == |env.received| && call.retransmissions == retransmissions
      requires |states| == |call.snapshot|
      requires forall i | 0 <= i < |states| :: states[i] == ReaderState(call.snapshot[i], false, 0, 0, 0)
      ensures Books(call, states, 0)
    {
      NoRetries(Retries(states));
    }

    lemma {:induction false} NoRetries(xs: seq<nat>)
      requires forall i | 0 <= i < |xs| :: xs[i] == 0
      ensures Total(xs) == 0
    {
      if xs != [] { NoRetries(xs[..|xs| - 1]); }
    }

    lemma AllArmed(states: seq<ReaderState>, start: int, pass: int)
      requires config.timeout >= 1
      requires forall i | 0 <= i < |states| ::
                 states[i].retryDeadline == start + config.timeout && states[i].retries == 0
      ensures Timely(config, states, start, pass, start)
    {
    }

    lemma FirstPass(start: int, pass: int)
      requires config.timeout >= 1 && pass >= 1
      ensures start < GiveUpTime(config, start, pass)
    {
      assert (config.maxRetries + 1) * (config.timeout + pass) >= 1;
    }

    // ---- write, when the writer is synchronous ----

    /** Without readers, or while stopping, nothing happens. Otherwise the payload gets
        the next number and is delivered to the readers of this moment. */
    method Write(payload: Bytes) returns (written: bool)
      requires Valid() && |history.log| < INT64_MAX
      modifies this`trace, this`heartbeatCount, this`retransmissions, this`handledAt, this`times, this`scans,
               env, history
      ensures Valid() && readers == old(readers)
      ensures || history.log == old(history.log)
              || history.log == old(history.log) + [CacheChange(guid, |old(history.log)| + 1, payload)]
      ensures history.log == old(history.log) ==>
                !written && env.sent == old(env.sent) && (readers == [] || env.stopped)
      ensures history.log != old(history.log) ==>
                var change := history.log[|old(history.log)|];
                var call := Call(change, readers, config, old(env.sent), |old(env.received)|, old(retransmissions));
                readers != [] && Outcome(call, written)
    {
      hide Outcome;
      if readers == [] {
        return false;
      }
      var stopping := env.Stopping();
      if stopping {
        return false;
      }
      var change := history.Add(payload);
      written := DeliverChange(change, readers);
    }
  }
}
