/** How wait_for_acknowledgments ends, in every interleaving: exactly when it is true, what
    else it tells, and that a reported failure does not stand in the way of later waits. */
module AsyncWaits {
  import opened AsyncQueue

  // ---- What was reported ----

  /** Failures are recorded in the order of their ids, and the false returns have reported
      the first `observed` of them. */
  predicate Ordered(s: State) {
    && (forall i, j | 0 <= i < j < |s.failures| :: s.failures[i] < s.failures[j])
    && (forall id | id in s.failures :: id <= s.completed)
    && (forall k | 0 <= k < |s.ended| && s.ended[k].outcome.FailureSeen? ::
          |s.ended[k].failures| <= s.observed && s.ended[k].failures <= s.failures)
  }

  lemma OrderedKept(s: State, step: Step)
    requires Invariant(s) && Ordered(s) && Enabled(s, step)
    ensures Ordered(Next(s, step))
  {
    hide Queueing;
    hide Honest;
    hide Reported;
    hide Recorded;
    var t := Next(s, step);
    if step.Complete? {
      assert s.worker.queued.id == s.completed + 1;
      assert forall i | 0 <= i < |s.failures| :: s.failures[i] in s.failures;
    }
  }

  lemma {:induction false} ExecutionOrdered(states: seq<State>, steps: seq<Step>, i: nat)
    requires Execution(states, steps) && i < |states|
    ensures Ordered(states[i])
  {
    hide Next;
    hide Enabled;
    hide Invariant;
    if i > 0 {
      ExecutionOrdered(states, steps, i - 1);
      ExecutionInvariant(states, steps, i - 1);
      OrderedKept(states[i - 1], steps[i - 1]);
    } else {
      NothingFailed(states[0]);
    }
  }

  lemma NothingFailed(s: State)
    requires Initial(s)
    ensures Ordered(s)
  {
  }

  /** Every recorded failure was told to some caller. */
  predicate AllTold(s: State) {
    forall id | id in s.failures :: Reported(s.ended, |s.ended|, id)
  }

  lemma ToldExact(s: State)
    requires Invariant(s) && Ordered(s)
    ensures s.failed == s.observed <==> AllTold(s)
  {
    hide Numbered;
    hide Honest;
    hide Recorded;
    if s.observed < s.failed {
      var id := s.failures[s.observed];
      forall k | 0 <= k < |s.ended| && s.ended[k].outcome.FailureSeen? ensures id !in s.ended[k].failures {
        assert forall m | 0 <= m < |s.ended[k].failures| :: s.ended[k].failures[m] == s.failures[m];
      }
      assert id in s.failures;
    }
  }

  // ---- The end of a wait ----

  /** Step j is the end of a wait, and this is its outcome. */
  predicate Returns(states: seq<State>, steps: seq<Step>, j: nat, outcome: Outcome) {
    && j < |steps| && |states| == |steps| + 1 && steps[j].EndWait?
    && |states[j + 1].ended| == |states[j].ended| + 1 && states[j + 1].ended[|states[j].ended|].outcome == outcome
  }

  /** A wait that ends is true exactly when the writer is not stopping, everything submitted
      before it has completed, and every failure recorded so far was told to an earlier
      caller. It times out exactly when the target is not completed, and reports a failure
      exactly when there is one that nobody was told. */
  lemma WaitVerdict(states: seq<State>, steps: seq<Step>, j: nat, c: nat)
    requires Execution(states, steps) && j < |steps| && steps[j] == EndWait(c)
    ensures c in states[j].waits
    ensures var s, target := states[j], states[j].waits[c];
            && (Returns(states, steps, j, StopSeen) <==> s.stopping)
            && (Returns(states, steps, j, TimedOut) <==> !s.stopping && s.completed < target)
            && (Returns(states, steps, j, FailureSeen) <==> !s.stopping && s.completed >= target && !AllTold(s))
            && (Returns(states, steps, j, Clean) <==> !s.stopping && s.completed >= target && AllTold(s))
  {
    hide AllTold;
    hide Invariant;
    hide Ordered;
    assert Enabled(states[j], steps[j]) && states[j + 1] == Next(states[j], steps[j]);
    ExecutionInvariant(states, steps, j);
    ExecutionOrdered(states, steps, j);
    ToldExact(states[j]);
  }

  lemma {:induction false} FailuresGrow(states: seq<State>, steps: seq<Step>, i: nat, k: nat)
    requires Execution(states, steps) && i <= k < |states|
    ensures states[i].failures <= states[k].failures
    decreases k
  {
    if i < k {
      FailuresGrow(states, steps, i, k - 1);
      assert Enabled(states[k - 1], steps[k - 1]) && states[k] == Next(states[k - 1], steps[k - 1]);
    }
  }

  lemma {:induction false} StaysObserved(states: seq<State>, steps: seq<Step>, i: nat, k: nat)
    requires Execution(states, steps) && i <= k < |states|
    requires states[i].failed == states[i].observed && states[k].failures == states[i].failures
    ensures states[k].failed == states[k].observed
    decreases k
  {
    hide Invariant;
    if i < k {
      var s := states[k - 1];
      assert Enabled(s, steps[k - 1]) && states[k] == Next(s, steps[k - 1]);
      FailuresGrow(states, steps, i, k - 1);
      FailuresGrow(states, steps, k - 1, k);
      assert s.failures == states[i].failures;
      StaysObserved(states, steps, i, k - 1);
    }
  }

  /** A failure is told once: behind the false return that told it, and unless another
      delivery fails, each wait whose target is completed is true again. */
  lemma TrueAgain(states: seq<State>, steps: seq<Step>, j: nat, k: nat, c: nat)
    requires Execution(states, steps) && Returns(states, steps, j, FailureSeen)
    requires j < k < |steps| && steps[k] == EndWait(c) && c in states[k].waits
    requires states[k].failures == states[j].failures
    requires !states[k].stopping && states[k].completed >= states[k].waits[c]
    ensures Returns(states, steps, k, Clean)
  {
    hide AllTold;
    hide Invariant;
    hide Ordered;
    assert Enabled(states[j], steps[j]) && states[j + 1] == Next(states[j], steps[j]);
    assert states[j + 1].failed == states[j + 1].observed && states[j + 1].failures == states[j].failures;
    StaysObserved(states, steps, j + 1, k);
    WaitVerdict(states, steps, k, c);
    ExecutionInvariant(states, steps, k);
    ExecutionOrdered(states, steps, k);
    ToldExact(states[k]);
  }

  /** Exactly the deliveries that failed and completed while nobody was stopping the writer
      count as failures. */
  lemma {:induction false} FailureOrigin(states: seq<State>, steps: seq<Step>, n: nat, id: nat)
    requires Execution(states, steps) && n < |states|
    ensures id in states[n].failures <==>
            exists j | 0 <= j < n && steps[j] == Complete ::
              !states[j].stopping && states[j].worker.Finished? &&
              states[j].worker.queued.id == id && !states[j].worker.ok
  {
    if n > 0 {
      FailureOrigin(states, steps, n - 1, id);
      var s, step := states[n - 1], steps[n - 1];
      assert Enabled(s, step) && states[n] == Next(s, step);
    }
  }
}
