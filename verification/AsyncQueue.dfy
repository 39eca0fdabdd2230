/** The asynchronous writer as interleaved atomic steps: callers of write, which hold the
    write mutex across three steps, the worker thread, waiting callers, set_readers and
    the destructor's stop. A step that takes the state mutex is atomic; between steps
    anything else may happen. */
module AsyncQueue {
  import opened Types
  import opened AckMatching

  datatype Queued = Queued(change: CacheChange, readers: seq<ReaderProxy>, id: nat)

  /** How far the holder of the write mutex is. */
  datatype Writing =
    | NotWriting
    | Prepared(payload: Bytes, readers: seq<ReaderProxy>)
    | Added(change: CacheChange, readers: seq<ReaderProxy>)

  /** Checked: the worker holds the state mutex, between its test and the pop. */
  datatype Worker = Waiting | Checked | Delivering(queued: Queued) | Finished(queued: Queued, ok: bool) | Exited

  /** How wait_for_acknowledgments ends; only Clean is a true return. */
  datatype Outcome = TimedOut | StopSeen | FailureSeen | Clean

  datatype Return = Return(target: nat, outcome: Outcome, completed: nat, failures: seq<nat>)

  /** The fields of the writer, and a history of the run: `started` holds what the worker
      took, `results` how those deliveries ended, `failures` the ids counted in `failed`,
      and `ended` how the waits ended. */
  datatype State = State(
    guid: Guid, log: seq<CacheChange>, readers: seq<ReaderProxy>, writing: Writing,
    pending: seq<Queued>, worker: Worker, stopping: bool,
    submitted: nat, completed: nat, failed: nat, observed: nat, waits: map<nat, nat>,
    started: seq<Queued>, results: seq<bool>, failures: seq<nat>, ended: seq<Return>)

  datatype Step =
    | BeginWrite(payload: Bytes)
    | AddToHistory
    | Enqueue
    | Check
    | Pop
    | Deliver(ok: bool)
    | Complete
    | Exit
    | SetReaders(readers: seq<ReaderProxy>)
    | BeginWait(caller: nat)
    | EndWait(caller: nat)
    | Stop

  predicate Initial(s: State) {
    && s.log == [] && s.writing.NotWriting? && s.pending == [] && s.worker.Waiting? && !s.stopping
    && s.submitted == s.completed == s.failed == s.observed == 0 && s.waits == map[]
    && s.started == [] && s.results == [] && s.failures == [] && s.ended == []
  }

  predicate Enabled(s: State, step: Step) {
    match step
    case BeginWrite(_) => s.writing.NotWriting? && !s.worker.Checked?
    case AddToHistory => s.writing.Prepared?
    case Enqueue => s.writing.Added? && !s.worker.Checked?
    case Check => s.worker.Waiting? && !s.stopping && s.pending != []
    case Pop => s.worker.Checked? && s.pending != []
    case Deliver(_) => s.worker.Delivering?
    case Complete => s.worker.Finished?
    case Exit => s.worker.Waiting? && s.stopping
    case SetReaders(_) => !s.worker.Checked?
    case BeginWait(c) => c !in s.waits && !s.worker.Checked?
    case EndWait(c) => c in s.waits && !s.worker.Checked?
    case Stop => true
  }

  /** The end of a wait, when its target is `target`: the wait is over when the writer
      stops, when the target is completed, or when the time is up. */
  function OutcomeOf(s: State, target: nat): Outcome {
    if !s.stopping && s.completed < target then TimedOut
    else if s.stopping then StopSeen
    else if s.failed != s.observed then FailureSeen
    else Clean
  }

  function Next(s: State, step: Step): State
    requires Enabled(s, step)
  {
    match step
    case BeginWrite(payload) =>
      if s.readers == [] || s.stopping then s else s.(writing := Prepared(payload, s.readers))
    case AddToHistory =>
      var change := CacheChange(s.guid, |s.log| + 1, s.writing.payload);
      s.(log := s.log + [change], writing := Added(change, s.writing.readers))
    case Enqueue =>
      s.(submitted := s.submitted + 1, writing := NotWriting,
         pending := s.pending + [Queued(s.writing.change, s.writing.readers, s.submitted + 1)])
    case Check => s.(worker := Checked)
    case Pop => s.(worker := Delivering(s.pending[0]), pending := s.pending[1..], started := s.started + [s.pending[0]])
    case Deliver(ok) => s.(worker := Finished(s.worker.queued, ok), results := s.results + [ok])
    case Complete =>
      var counted := !s.worker.ok && !s.stopping;
      s.(worker := Waiting, completed := s.worker.queued.id,
         failed := s.failed + (if counted then 1 else 0),
         failures := s.failures + if counted then [s.worker.queued.id] else [])
    case Exit => s.(worker := Exited)
    case SetReaders(readers) => s.(readers := readers)
    case BeginWait(c) => s.(waits := s.waits[c := s.submitted])
    case EndWait(c) =>
      var outcome := OutcomeOf(s, s.waits[c]);
      s.(waits := s.waits - {c},
         observed := if outcome.FailureSeen? then s.failed else s.observed,
         ended := s.ended + [Return(s.waits[c], outcome, s.completed, s.failures)])
    case Stop => s.(stopping := true)
  }

  predicate Execution(states: seq<State>, steps: seq<Step>) {
    && |states| == |steps| + 1 && Initial(states[0])
    && forall i | 0 <= i < |steps| :: Enabled(states[i], steps[i]) && states[i + 1] == Next(states[i], steps[i])
  }

  // ---- The invariant ----

  function InFlight(s: State): nat {
    if s.worker.Delivering? || s.worker.Finished? then 1 else 0
  }

  /** The history and the queue hold one consecutive run of ids behind what the worker
      took, and an id is the sequence number of its change. */
  predicate Queueing(s: State) {
    && |s.log| == s.submitted + (if s.writing.Added? then 1 else 0)
    && (forall i | 0 <= i < |s.log| :: s.log[i].sequence == i + 1)
    && (s.writing.Added? ==> s.writing.change == s.log[|s.log| - 1])
    && s.submitted == |s.started| + |s.pending|
    && (forall i | 0 <= i < |s.started| :: s.started[i].id == i + 1 && s.started[i].change == s.log[i])
    && (forall i | 0 <= i < |s.pending| ::
          s.pending[i].id == |s.started| + i + 1 && s.pending[i].change == s.log[|s.started| + i])
    && (forall c | c in s.waits :: s.waits[c] <= s.submitted)
  }

  /** The worker completes what it took, one after the other. */
  predicate Working(s: State) {
    && |s.started| == s.completed + InFlight(s)
    && (InFlight(s) == 1 ==> s.worker.queued == s.started[s.completed] && s.worker.queued.id == s.completed + 1)
    && |s.results| == s.completed + (if s.worker.Finished? then 1 else 0)
    && (s.worker.Finished? ==> s.results[s.completed] == s.worker.ok)
  }

  predicate Numbered(s: State) {
    Queueing(s) && Working(s)
  }

  predicate Reported(ended: seq<Return>, k: nat, id: nat) {
    exists j :: 0 <= j < k && j < |ended| && ended[j].outcome.FailureSeen? && id in ended[j].failures
  }

  /** What a return knew to have failed is among the recorded failures. */
  predicate Recorded(s: State) {
    forall k | 0 <= k < |s.ended| :: forall id | id in s.ended[k].failures :: id in s.failures
  }

  /** Failures are counted, and what is observed was reported. */
  predicate Counted(s: State) {
    && s.failed == |s.failures| && s.observed <= s.failed && s.completed <= |s.results|
    && (forall id | id in s.failures :: 1 <= id <= s.completed && !s.results[id - 1])
    && (!s.stopping ==> forall i | 0 <= i < s.completed :: s.results[i] || i + 1 in s.failures)
    && (forall i | 0 <= i < s.observed :: Reported(s.ended, |s.ended|, s.failures[i]))
    && Recorded(s)
  }

  /** Every clean return tells the truth. */
  predicate Honest(s: State)
    requires s.completed <= |s.results|
  {
    forall k | 0 <= k < |s.ended| && s.ended[k].outcome.Clean? ::
      && s.ended[k].target <= s.ended[k].completed <= s.completed
      && (forall id | id in s.ended[k].failures :: Reported(s.ended, k, id))
      && (forall i | 0 <= i < s.ended[k].target :: s.results[i] || i + 1 in s.ended[k].failures)
  }

  predicate Invariant(s: State) {
    Numbered(s) && Counted(s) && Honest(s)
  }

  lemma NumberedKept(s: State, step: Step)
    requires Numbered(s) && Enabled(s, step)
    ensures Numbered(Next(s, step))
  {
    QueueingKept(s, step);
    WorkingKept(s, step);
  }

  lemma QueueingKept(s: State, step: Step)
    requires Queueing(s) && Enabled(s, step)
    ensures Queueing(Next(s, step))
  {
    if step.AddToHistory? || step.Enqueue? {
      GrowthKept(s, step);
    } else if step.Pop? {
      PopKept(s);
    }
  }

  lemma GrowthKept(s: State, step: Step)
    requires Queueing(s) && Enabled(s, step) && (step.AddToHistory? || step.Enqueue?)
    ensures Queueing(Next(s, step))
  {
  }

  lemma PopKept(s: State)
    requires Queueing(s) && Enabled(s, Pop)
    ensures Queueing(Next(s, Pop))
  {
    var t := Next(s, Pop);
    assert forall i | 0 <= i < |t.pending| :: t.pending[i] == s.pending[i + 1];
  }

  lemma WorkingKept(s: State, step: Step)
    requires Queueing(s) && Working(s) && Enabled(s, step)
    ensures Working(Next(s, step))
  {
  }

  lemma ReportedLater(ended: seq<Return>, r: Return, k: nat, id: nat)
    requires k <= |ended|
    ensures Reported(ended + [r], k, id) <==> Reported(ended, k, id)
    ensures Reported(ended, k, id) ==> Reported(ended + [r], |ended| + 1, id)
    ensures r.outcome.FailureSeen? && id in r.failures ==> Reported(ended + [r], |ended| + 1, id)
  {
    var all := ended + [r];
    assert forall j | 0 <= j < |ended| :: all[j] == ended[j];
    assert all[|ended|] == r;
  }

  lemma RecordedKept(s: State, step: Step)
    requires Recorded(s) && Enabled(s, step)
    ensures Recorded(Next(s, step))
  {
  }

  lemma CountedKept(s: State, step: Step)
    requires Invariant(s) && Enabled(s, step)
    ensures Counted(Next(s, step))
  {
    hide Reported;
    RecordedKept(s, step);
    hide Recorded;
    var t := Next(s, step);
    match step
    case EndWait(c) =>
      var r := t.ended[|s.ended|];
      forall i | 0 <= i < t.observed ensures Reported(t.ended, |t.ended|, t.failures[i]) {
        ReportedLater(s.ended, r, |s.ended|, t.failures[i]);
      }
    case Complete =>
      var id := s.worker.queued.id;
      assert forall i | 0 <= i < |s.failures| :: t.failures[i] == s.failures[i];
      assert !s.stopping && !s.worker.ok ==> t.failures[|s.failures|] == id;
    case _ =>
  }

  lemma HonestKept(s: State, step: Step)
    requires Invariant(s) && Enabled(s, step)
    ensures Next(s, step).completed <= |Next(s, step).results| && Honest(Next(s, step))
  {
    hide Reported;
    var t := Next(s, step);
    if step.EndWait? {
      var r := t.ended[|s.ended|];
      forall k, id: nat | 0 <= k < |t.ended| && t.ended[k].outcome.Clean? && id in t.ended[k].failures
        ensures Reported(t.ended, k, id)
      {
        ReportedLater(s.ended, r, k, id);
        if k == |s.ended| {
          var i :| 0 <= i < |s.failures| && s.failures[i] == id;
          assert s.failed == s.observed;
        }
      }
    }
  }

  lemma {:induction false} ExecutionInvariant(states: seq<State>, steps: seq<Step>, i: nat)
    requires Execution(states, steps) && i < |states|
    ensures Invariant(states[i])
  {
    hide Next;
    hide Enabled;
    hide Numbered;
    hide Counted;
    hide Honest;
    if i > 0 {
      ExecutionInvariant(states, steps, i - 1);
      NumberedKept(states[i - 1], steps[i - 1]);
      CountedKept(states[i - 1], steps[i - 1]);
      HonestKept(states[i - 1], steps[i - 1]);
    } else {
      AtStart(states[0]);
    }
  }

  lemma AtStart(s: State)
    requires Initial(s)
    ensures Invariant(s)
  {
  }

  // ---- The theorems ----

  /** In every interleaving the submission id is the sequence number, the queued ids are
      consecutive up to the last one, and what was submitted but not completed is what is
      queued plus the one in flight. */
  lemma QueueNumbers(states: seq<State>, steps: seq<Step>, i: nat)
    requires Execution(states, steps) && i < |states|
    ensures var s := states[i];
            && s.submitted - s.completed == |s.pending| + InFlight(s)
            && (forall j | 0 <= j < |s.pending| ::
                  && s.pending[j].id == s.submitted - |s.pending| + j + 1
                  && s.pending[j].change.sequence == s.pending[j].id)
            && (InFlight(s) == 1 ==> s.worker.queued.id == s.completed + 1 == s.worker.queued.change.sequence)
  {
    hide Counted;
    hide Honest;
    ExecutionInvariant(states, steps, i);
  }

  /** The worker takes the changes in the order they were written, each of them once. */
  lemma DeliveredInOrder(states: seq<State>, steps: seq<Step>, i: nat, k: nat)
    requires Execution(states, steps) && i < |states| && k < |states[i].started|
    ensures var s := states[i];
            k < |s.log| && s.started[k].change == s.log[k] && s.started[k].change.sequence == k + 1
  {
    hide Counted;
    hide Honest;
    ExecutionInvariant(states, steps, i);
  }

  /** What a true wait_for_acknowledgments means: every change up to the target was taken
      by the worker, it was delivered with success exactly if no earlier false return
      reported its failure, and no failure recorded so far is unreported. */
  lemma CleanWait(states: seq<State>, steps: seq<Step>, k: nat)
    requires Execution(states, steps)
    requires var s := states[|steps|];
             k < |s.ended| && s.ended[k].outcome.Clean?
    ensures var s := states[|steps|];
            && s.ended[k].target <= |s.results| && s.ended[k].target <= |s.started| <= |s.log|
            && (forall i | 0 <= i < s.ended[k].target ::
                  s.started[i].change == s.log[i] && (s.results[i] <==> !Reported(s.ended, k, i + 1)))
            && forall id | id in s.ended[k].failures :: Reported(s.ended, k, id)
  {
    ExecutionInvariant(states, steps, |steps|);
    var s := states[|steps|];
    forall i | 0 <= i < s.ended[k].target ensures s.results[i] <==> !Reported(s.ended, k, i + 1) {
      ReportedFailed(s, k, i);
    }
  }

  /** A reported change did fail. */
  lemma ReportedFailed(s: State, k: nat, i: nat)
    requires Numbered(s) && Counted(s)
    ensures Reported(s.ended, k, i + 1) ==> i < |s.results| && !s.results[i]
  {
  }

  /** The target of a wait is what had been submitted when the wait began. */
  lemma {:induction false} WaitTarget(states: seq<State>, steps: seq<Step>, j: nat, c: nat) returns (i: nat)
    requires Execution(states, steps) && j < |states| && c in states[j].waits
    ensures i < j && steps[i] == BeginWait(c) && states[i].submitted == states[j].waits[c]
    ensures forall m | i < m < j :: steps[m] != BeginWait(c)
  {
    var s, step := states[j - 1], steps[j - 1];
    assert Enabled(s, step) && states[j] == Next(s, step);
    if step == BeginWait(c) {
      i := j - 1;
    } else {
      i := WaitTarget(states, steps, j - 1, c);
    }
  }

  /** Why a wait with this target ends as it does in state s. */
  predicate Ends(s: State, target: nat, outcome: Outcome) {
    match outcome
    case StopSeen => s.stopping
    case TimedOut => !s.stopping && s.completed < target
    case FailureSeen => !s.stopping && s.completed >= target && s.failed != s.observed
    case Clean => !s.stopping && s.completed >= target && s.failed == s.observed
  }

  /** Each return stems from an EndWait and says what held at that moment. */
  lemma {:induction false} ReturnOrigin(states: seq<State>, steps: seq<Step>, n: nat, k: nat) returns (j: nat, c: nat)
    requires Execution(states, steps) && n < |states| && k < |states[n].ended|
    ensures j < n && steps[j] == EndWait(c) && c in states[j].waits
    ensures var target := states[j].waits[c];
            && states[n].ended[k] == Return(target, states[n].ended[k].outcome, states[j].completed, states[j].failures)
            && Ends(states[j], target, states[n].ended[k].outcome)
  {
    var s, step := states[n - 1], steps[n - 1];
    assert Enabled(s, step) && states[n] == Next(s, step);
    if k < |s.ended| {
      j, c := ReturnOrigin(states, steps, n - 1, k);
    } else {
      j, c := n - 1, step.caller;
    }
  }

  /** Everything submitted before a wait that returned true had completed when it did. */
  lemma CleanWaitCovers(states: seq<State>, steps: seq<Step>, k: nat) returns (i: nat, j: nat)
    requires Execution(states, steps)
    requires var s := states[|steps|];
             k < |s.ended| && s.ended[k].outcome.Clean?
    ensures i < j < |steps| && steps[i].BeginWait? && steps[j] == EndWait(steps[i].caller)
    ensures states[i].submitted <= states[j].completed && states[i].submitted == states[|steps|].ended[k].target
    ensures !states[j].stopping && states[j].failed == states[j].observed
  {
    var c;
    j, c := ReturnOrigin(states, steps, |steps|, k);
    i := WaitTarget(states, steps, j, c);
  }

  // ---- The reader snapshot of a queued change ----

  lemma {:induction false} PreparedOrigin(states: seq<State>, steps: seq<Step>, n: nat) returns (j: nat)
    requires Execution(states, steps) && n < |states| && states[n].writing.Prepared?
    ensures j < n && steps[j] == BeginWrite(states[n].writing.payload)
    ensures states[j].readers == states[n].writing.readers && |states[j].log| == |states[n].log|
  {
    var s, step := states[n - 1], steps[n - 1];
    assert Enabled(s, step) && states[n] == Next(s, step);
    if s.writing.Prepared? {
      j := PreparedOrigin(states, steps, n - 1);
    } else {
      j := n - 1;
    }
  }

  lemma {:induction false} AddedOrigin(states: seq<State>, steps: seq<Step>, n: nat) returns (j: nat)
    requires Execution(states, steps) && n < |states| && states[n].writing.Added?
    ensures j < n && steps[j] == BeginWrite(states[n].writing.change.payload)
    ensures states[j].readers == states[n].writing.readers
    ensures states[n].writing.change.sequence == |states[j].log| + 1
  {
    var s, step := states[n - 1], steps[n - 1];
    assert Enabled(s, step) && states[n] == Next(s, step);
    if s.writing.Added? {
      j := AddedOrigin(states, steps, n - 1);
    } else {
      j := PreparedOrigin(states, steps, n - 1);
    }
  }

  /** A change that is queued or was taken by the worker carries the payload of its write
      and the readers of the moment that write began, whatever set_readers did since. */
  lemma {:induction false} SnapshotKept(states: seq<State>, steps: seq<Step>, n: nat, q: Queued) returns (j: nat)
    requires Execution(states, steps) && n < |states| && q in states[n].started + states[n].pending
    ensures j < n && steps[j] == BeginWrite(q.change.payload)
    ensures q.readers == states[j].readers && q.change.sequence == |states[j].log| + 1
  {
    var s, step := states[n - 1], steps[n - 1];
    assert Enabled(s, step) && states[n] == Next(s, step);
    if q in s.started + s.pending {
      j := SnapshotKept(states, steps, n - 1, q);
    } else {
      j := AddedOrigin(states, steps, n - 1);
    }
  }
}
