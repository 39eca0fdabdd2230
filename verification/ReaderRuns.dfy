/** Invariants over every sequence of submessages that one writer's state can absorb:
    any DATA, HEARTBEAT and GAP the decoders let through, in any order, any number of
    times. */
module ReaderRuns {
  import opened Types
  import opened Reliability
  import opened Reception

  /** The state after a sequence of submessages, and everything committed on the way. */
  ghost function Run(events: seq<Event>): (State, seq<CacheChange>) {
    if events == [] then (INITIAL, [])
    else
      var (s, log) := Run(events[..|events| - 1]);
      var (t, more) := Step(s, events[|events| - 1]);
      (t, log + more)
  }

  // ---- What holds of every reachable state ----

  ghost predicate Sound(s: State) {
    && 0 <= s.highest <= INT64_MAX && 0 <= s.announced <= INT64_MAX
    && s.received == s.pending.Keys
    && Filed(s)
    && (forall n | n in s.pending :: 1 <= n <= s.announced)
    && (forall n | n in s.irrelevant :: 1 <= n)
    && (!s.ranged ==> s.highest == 0 && 1 !in s.received)
  }

  /** Nothing more to commit. */
  ghost predicate Settled(s: State) {
    s.ranged ==> s.highest == INT64_MAX || (s.highest + 1 !in s.pending && s.highest + 1 !in s.irrelevant)
  }

  /** A received GAP declared number n irrelevant. */
  ghost predicate Declares(g: Gap, n: int) {
    g.start <= n < g.list.base || n in g.list.Members()
  }

  ghost predicate Declared(events: seq<Event>, n: int) {
    exists i :: 0 <= i < |events| && events[i].GapEvent? && Declares(events[i].gap, n)
  }

  /** A received HEARTBEAT starts above n. */
  ghost predicate BelowRange(events: seq<Event>, n: int) {
    exists i :: 0 <= i < |events| && events[i].HeartbeatEvent? && n < events[i].first
  }

  ghost predicate Committed(log: seq<CacheChange>, n: int) {
    exists i :: 0 <= i < |log| && log[i].sequence == n
  }

  ghost predicate Accounted(events: seq<Event>, log: seq<CacheChange>, n: int) {
    Committed(log, n) || Declared(events, n) || BelowRange(events, n)
  }

  ghost predicate Explained(events: seq<Event>, s: State, log: seq<CacheChange>) {
    && (forall n | 1 <= n <= s.highest :: Accounted(events, log, n))
    && (forall n | n in s.irrelevant :: Declared(events, n))
  }

  /** c is the change of the first DATA with its number. */
  ghost predicate First(events: seq<Event>, c: CacheChange) {
    exists i :: 0 <= i < |events| && events[i] == DataEvent(c) &&
                forall j | 0 <= j < i && events[j].DataEvent? :: events[j].change.sequence != c.sequence
  }

  ghost predicate Seen(events: seq<Event>, n: int) {
    exists i :: 0 <= i < |events| && events[i].DataEvent? && events[i].change.sequence == n
  }

  ghost predicate Faithful(events: seq<Event>, s: State, log: seq<CacheChange>) {
    && (forall n | n in s.pending :: First(events, s.pending[n]))
    && (forall c | c in log :: First(events, c) && c.sequence <= s.highest)
    && Increasing(log)
    && (forall n | Seen(events, n) :: n <= s.highest || n in s.received)
  }

  // ---- More submessages explain no less ----

  lemma Later(events: seq<Event>, e: Event)
    ensures forall n | Declared(events, n) :: Declared(events + [e], n)
    ensures forall n | BelowRange(events, n) :: BelowRange(events + [e], n)
    ensures forall c | First(events, c) :: First(events + [e], c)
    ensures e.GapEvent? ==> forall n | Declares(e.gap, n) :: Declared(events + [e], n)
    ensures e.HeartbeatEvent? ==> forall n | n < e.first :: BelowRange(events + [e], n)
    ensures e.DataEvent? && !Seen(events, e.change.sequence) ==> First(events + [e], e.change)
    ensures forall n | Seen(events + [e], n) :: Seen(events, n) || (e.DataEvent? && e.change.sequence == n)
  {
    var all := events + [e];
    assert forall i | 0 <= i < |events| :: all[i] == events[i];
    assert all[|events|] == e;
    forall n | Declared(events, n) ensures Declared(all, n) {
      var i :| 0 <= i < |events| && events[i].GapEvent? && Declares(events[i].gap, n);
      assert all[i].GapEvent? && Declares(all[i].gap, n);
    }
    forall n | BelowRange(events, n) ensures BelowRange(all, n) {
      var i :| 0 <= i < |events| && events[i].HeartbeatEvent? && n < events[i].first;
      assert all[i].HeartbeatEvent? && n < all[i].first;
    }
    forall c | First(events, c) ensures First(all, c) {
      var i :| 0 <= i < |events| && events[i] == DataEvent(c) &&
               forall j | 0 <= j < i && events[j].DataEvent? :: events[j].change.sequence != c.sequence;
      assert all[i] == DataEvent(c);
    }
    forall n | Seen(all, n) ensures Seen(events, n) || (e.DataEvent? && e.change.sequence == n) {
      var i :| 0 <= i < |all| && all[i].DataEvent? && all[i].change.sequence == n;
      assert i < |events| ==> events[i].DataEvent? && events[i].change.sequence == n;
    }
  }

  // ---- Absorbing a submessage ----

  lemma AbsorbSound(s: State, e: Event)
    requires Sound(s) && e.Decoded()
    ensures Sound(Absorb(s, e)) && Absorb(s, e).highest >= s.highest
    ensures !Absorb(s, e).ranged ==> Absorb(s, e).highest == s.highest
  {
    var t := Absorb(s, e);
    match e
    case DataEvent(c) =>
    case HeartbeatEvent(first, last) =>
      assert t.received == t.pending.Keys;
    case GapEvent(g) =>
      assert t.received == t.pending.Keys;
  }

  lemma GapNumbers(g: Gap)
    requires g.Encodable()
    ensures forall n | n in Remembered(g) :: Declares(g, n) && n >= 1
  {
  }

  lemma AbsorbExplained(events: seq<Event>, s: State, log: seq<CacheChange>, e: Event)
    requires Sound(s) && e.Decoded() && Explained(events, s, log)
    ensures Explained(events + [e], Absorb(s, e), log)
  {
    hide Accounted;
    var all, t := events + [e], Absorb(s, e);
    AccountedLater(events, log, e);
    Later(events, e);
    match e
    case DataEvent(_) =>
    case HeartbeatEvent(first, _) =>
      forall n | 1 <= n <= t.highest ensures Accounted(all, log, n) {
        if n < first { ByRange(all, log, n); }
      }
    case GapEvent(g) =>
      GapNumbers(g);
      forall n | 1 <= n <= t.highest ensures Accounted(all, log, n) {
        if n > s.highest { ByGap(all, log, n); }
      }
  }

  lemma AccountedLater(events: seq<Event>, log: seq<CacheChange>, e: Event)
    ensures forall n | Accounted(events, log, n) :: Accounted(events + [e], log, n)
  {
    Later(events, e);
  }

  lemma ByRange(events: seq<Event>, log: seq<CacheChange>, n: int)
    requires BelowRange(events, n)
    ensures Accounted(events, log, n)
  {
  }

  lemma ByGap(events: seq<Event>, log: seq<CacheChange>, n: int)
    requires Declared(events, n)
    ensures Accounted(events, log, n)
  {
  }

  lemma AbsorbFaithful(events: seq<Event>, s: State, log: seq<CacheChange>, e: Event)
    requires Sound(s) && e.Decoded() && Faithful(events, s, log)
    ensures Faithful(events + [e], Absorb(s, e), log)
  {
    hide First;
    hide Seen;
    AbsorbSound(s, e);
    Later(events, e);
  }

  // ---- Committing ----

  lemma CommitSound(s: State)
    requires Sound(s) && s.ranged
    ensures var t := Commit(s).0;
            Sound(t) && Settled(t) && t.ranged && t.highest >= s.highest && t.announced == s.announced
  {
    hide Commit;
    hide Slice;
    CommitSpec(s);
    var t := Commit(s).0;
    assert t.received == t.pending.Keys;
  }

  lemma CommitExplained(events: seq<Event>, s: State, log: seq<CacheChange>)
    requires Sound(s) && Explained(events, s, log)
    ensures Explained(events, Commit(s).0, log + Commit(s).1)
  {
    hide Commit;
    hide Slice;
    CommitSpec(s);
    var (t, more) := Commit(s);
    SliceExact(s, s.highest, t.highest);
    forall n | 1 <= n <= t.highest ensures Accounted(events, log + more, n) {
      if n <= s.highest {
        AccountedLonger(events, log, more, n);
      } else if n !in s.irrelevant {
        assert n in s.pending;
        var c := s.pending[n];
        assert c in more;
        var i :| 0 <= i < |more| && more[i] == c;
        assert (log + more)[|log| + i].sequence == n;
      }
    }
  }

  lemma AccountedLonger(events: seq<Event>, log: seq<CacheChange>, more: seq<CacheChange>, n: int)
    requires Accounted(events, log, n)
    ensures Accounted(events, log + more, n)
  {
    if Committed(log, n) {
      var i :| 0 <= i < |log| && log[i].sequence == n;
      assert (log + more)[i].sequence == n;
    }
  }

  lemma CommitFaithful(events: seq<Event>, s: State, log: seq<CacheChange>)
    requires Sound(s) && Faithful(events, s, log)
    ensures Faithful(events, Commit(s).0, log + Commit(s).1)
  {
    hide Commit;
    hide Slice;
    hide First;
    hide Seen;
    CommitSpec(s);
    var (t, more) := Commit(s);
    SliceExact(s, s.highest, t.highest);
    forall i, j | 0 <= i < j < |log + more| ensures (log + more)[i].sequence < (log + more)[j].sequence {
      if i < |log| { assert log[i] in log; }
      if j >= |log| { assert more[j - |log|] in more; }
    }
  }

  // ---- The invariant of every run ----

  ghost predicate Invariant(events: seq<Event>, s: State, log: seq<CacheChange>) {
    Sound(s) && Settled(s) && Explained(events, s, log) && Faithful(events, s, log)
  }

  lemma StepKeeps(events: seq<Event>, s: State, log: seq<CacheChange>, e: Event)
    requires Invariant(events, s, log) && e.Decoded()
    ensures Invariant(events + [e], Step(s, e).0, log + Step(s, e).1)
    ensures Step(s, e).0.highest >= s.highest
  {
    hide Absorb;
    hide Commit;
    hide Explained;
    hide Faithful;
    var t := Absorb(s, e);
    AbsorbSound(s, e);
    AbsorbExplained(events, s, log, e);
    AbsorbFaithful(events, s, log, e);
    if t.ranged {
      CommitSound(t);
      CommitExplained(events + [e], t, log);
      CommitFaithful(events + [e], t, log);
    } else {
      assert log + [] == log;
    }
  }

  lemma {:induction false} RunInvariant(events: seq<Event>)
    requires forall e | e in events :: e.Decoded()
    ensures Invariant(events, Run(events).0, Run(events).1)
  {
    hide Step;
    if events != [] {
      var before, e := events[..|events| - 1], events[|events| - 1];
      RunInvariant(before);
      var (s, log) := Run(before);
      StepKeeps(before, s, log, e);
      assert before + [e] == events;
    } else {
      assert Invariant([], INITIAL, []);
    }
  }

  /** Whatever arrives, `highest` never goes back. */
  lemma HighestNeverDecreases(events: seq<Event>, e: Event)
    requires e.Decoded() && forall f | f in events :: f.Decoded()
    ensures Run(events).0.highest <= Run(events + [e]).0.highest
  {
    hide Step;
    hide Invariant;
    RunInvariant(events);
    StepKeeps(events, Run(events).0, Run(events).1, e);
    assert (events + [e])[..|events|] == events;
  }

  /** No silent loss: every number up to `highest` was committed, or a received GAP
      declared it irrelevant, or a received HEARTBEAT starts above it. */
  lemma NoSilentLoss(events: seq<Event>, n: int)
    requires forall e | e in events :: e.Decoded()
    requires 1 <= n <= Run(events).0.highest
    ensures Committed(Run(events).1, n) || Declared(events, n) || BelowRange(events, n)
  {
    RunInvariant(events);
    assert Accounted(events, Run(events).1, n);
  }

  /** Commits are strictly increasing, so none repeats, and each is the change of the
      first DATA with its number that arrived. */
  lemma CommitsInOrder(events: seq<Event>)
    requires forall e | e in events :: e.Decoded()
    ensures Increasing(Run(events).1)
    ensures forall c | c in Run(events).1 :: First(events, c) && c.sequence <= Run(events).0.highest
  {
    RunInvariant(events);
  }

  /** A number that arrived is never asked for again: it is pending, committed or skipped. */
  lemma ArrivedStays(events: seq<Event>, n: int)
    requires forall e | e in events :: e.Decoded()
    requires Seen(events, n)
    ensures n <= Run(events).0.highest || n in Run(events).0.pending
  {
    RunInvariant(events);
  }
}
