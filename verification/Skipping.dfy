/** When a reader moves over a number without committing it. */
module Skipping {
  import opened Types
  import opened Reception
  import opened ReaderRuns

  /** The submessage itself moves the reader beyond the next number: a HEARTBEAT that
      starts above it, or a GAP that covers it. */
  predicate Jumps(s: State, e: Event) {
    match e
    case DataEvent(_) => false
    case HeartbeatEvent(first, _) => first > s.highest + 1
    case GapEvent(g) => g.start <= s.highest + 1 < g.list.base
  }

  /** The commit loop meets an irrelevant number before it meets a hole. */
  ghost predicate MeetsIrrelevant(u: State) {
    u.ranged && exists n | n in u.irrelevant :: n > u.highest && Reaches(u, n)
  }

  ghost predicate Skips(s: State, e: Event) {
    Jumps(s, e) || MeetsIrrelevant(Absorb(s, e))
  }

  ghost predicate CommitsAll(low: int, high: int, log: seq<CacheChange>) {
    forall n | low < n <= high :: Committed(log, n)
  }

  /** A reader does not pass on only the contiguous sequence: after a HEARTBEAT that starts
      at 2 and DATA(2) it stands at 2 and never committed 1. */
  lemma SkipsOne(c: CacheChange)
    requires c.sequence == 2
    ensures var events := [HeartbeatEvent(2, 2), DataEvent(c)];
            var (s, log) := Run(events);
            && (forall e | e in events :: e.Decoded())
            && s.highest == 2 && log == [c] && !Committed(log, 1)
  {
    var h, d := HeartbeatEvent(2, 2), DataEvent(c);
    var s, t := State(1, 2, true, {}, {}, map[]), State(2, 2, true, {}, {}, map[]);
    var a := State(1, 2, true, {2}, {}, map[2 := c]);
    assert [h, d][..1] == [h] && [h][..0] == [];
    var none: seq<CacheChange> := [];
    assert none + none == none && none + [c] == [c] == [c] + none;
    assert Run([]) == (INITIAL, []);
    assert Absorb(INITIAL, h) == s && Commit(s) == (s, []);
    assert Run([h]) == (s, []);
    assert Absorb(s, d) == a;
    assert Deliver(a) == t && Commit(t) == (t, []);
    assert Commit(a) == (t, [c]);
    assert Run([h, d]) == (t, [c]);
  }

  lemma AbsorbJumps(s: State, e: Event)
    requires Sound(s) && e.Decoded()
    ensures Absorb(s, e).highest > s.highest <==> Jumps(s, e)
    ensures Jumps(s, e) ==> Absorb(s, e).ranged
  {
  }

  lemma SliceCommits(u: State, k: int, n: int)
    requires Filed(u) && forall m | u.highest < m <= k :: m in u.pending || m in u.irrelevant
    ensures Committed(Slice(u, u.highest, k), n) <==> u.highest < n <= k && n !in u.irrelevant
  {
    SliceExact(u, u.highest, k);
    hide Slice;
    var log := Slice(u, u.highest, k);
    if u.highest < n <= k && n !in u.irrelevant {
      var c := u.pending[n];
      assert c in log;
      var i :| 0 <= i < |log| && log[i] == c;
      assert log[i].sequence == n;
    }
    if Committed(log, n) {
      var i :| 0 <= i < |log| && log[i].sequence == n;
      assert log[i] in log;
    }
  }

  /** What a step commits, number by number. */
  lemma StepCommits(s: State, e: Event, n: int)
    requires Sound(s) && e.Decoded()
    ensures var (t, log) := Step(s, e);
            var u := Absorb(s, e);
            && s.highest <= u.highest <= t.highest
            && (Committed(log, n) <==> u.ranged && u.highest < n <= t.highest && n !in u.irrelevant)
  {
    hide Commit;
    hide Absorb;
    AbsorbSound(s, e);
    var u := Absorb(s, e);
    if u.ranged {
      CommitSpec(u);
      SliceCommits(u, Commit(u).0.highest, n);
    }
  }

  /** A step commits every number it moves over exactly when it does not skip: no HEARTBEAT
      above the next number, no GAP over it, no irrelevant number in the way. */
  lemma StepSkips(s: State, e: Event)
    requires Sound(s) && e.Decoded()
    ensures CommitsAll(s.highest, Step(s, e).0.highest, Step(s, e).1) <==> !Skips(s, e)
  {
    hide Step;
    hide Jumps;
    hide Absorb;
    hide Committed;
    var (t, log) := Step(s, e);
    var u := Absorb(s, e);
    AbsorbJumps(s, e);
    forall n ensures Committed(log, n) <==> u.ranged && u.highest < n <= t.highest && n !in u.irrelevant {
      StepCommits(s, e, n);
    }
    StepCommits(s, e, 0);
    StepReach(s, e);
    if u.highest > s.highest {
      assert !Committed(log, s.highest + 1);
    }
  }

  lemma StepReach(s: State, e: Event)
    requires Sound(s) && e.Decoded()
    ensures var (u, t) := (Absorb(s, e), Step(s, e).0);
            && (!u.ranged ==> t == u)
            && (u.ranged ==> forall n | n > u.highest :: n <= t.highest <==> Reaches(u, n))
  {
    hide Commit;
    hide Absorb;
    AbsorbSound(s, e);
    var u := Absorb(s, e);
    if u.ranged { CommitSpec(u); }
  }

  ghost predicate NeverSkips(events: seq<Event>) {
    forall i | 0 <= i < |events| :: !Skips(Run(events[..i]).0, events[i])
  }

  lemma NothingSkipped()
    ensures NeverSkips([]) && Run([]) == (INITIAL, [])
  {
  }

  lemma NeverSkipsSnoc(before: seq<Event>, e: Event)
    ensures NeverSkips(before + [e]) <==> NeverSkips(before) && !Skips(Run(before).0, e)
  {
    hide Run;
    hide Skips;
    var events, m := before + [e], |before|;
    assert events[..m] == before && events[m] == e;
    assert forall i | 0 <= i < m :: events[..i] == before[..i] && events[i] == before[i];
  }

  lemma SoundRun(events: seq<Event>)
    requires forall e | e in events :: e.Decoded()
    ensures Sound(Run(events).0)
  {
    RunInvariant(events);
  }

  /** Over any run, the committed numbers are the contiguous sequence from 1 exactly when
      no step skipped. */
  lemma {:induction false} RunSkips(events: seq<Event>)
    requires forall e | e in events :: e.Decoded()
    ensures CommitsAll(0, Run(events).0.highest, Run(events).1) <==> NeverSkips(events)
  {
    hide Step;
    hide Skips;
    hide Committed;
    hide NeverSkips;
    hide Invariant;
    if events != [] {
      var m := |events| - 1;
      var before, e := events[..m], events[m];
      var (s, log) := Run(before);
      RunSkips(before);
      SoundRun(before);
      StepSkips(s, e);
      LogSplits(before, e);
      assert before + [e] == events;
      NeverSkipsSnoc(before, e);
    } else {
      NothingSkipped();
    }
  }

  /** Up to the old number the old log decides, above it the new commits do. */
  lemma LogSplits(before: seq<Event>, e: Event)
    requires e.Decoded() && forall f | f in before :: f.Decoded()
    ensures var (s, log) := Run(before);
            var (t, more) := Step(s, e);
            && s.highest <= t.highest && s.highest >= 0
            && (forall n | n <= s.highest :: Committed(log + more, n) <==> Committed(log, n))
            && (forall n | n > s.highest :: Committed(log + more, n) <==> Committed(more, n))
  {
    hide Step;
    hide Run;
    hide First;
    var (s, log) := Run(before);
    var (t, more) := Step(s, e);
    RunInvariant(before);
    StepCommits(s, e, 0);
    forall n ensures n <= s.highest ==> !Committed(more, n) {
      StepCommits(s, e, n);
    }
    forall n ensures n > s.highest ==> !Committed(log, n) {
      if Committed(log, n) {
        var i :| 0 <= i < |log| && log[i].sequence == n;
        assert log[i] in log;
      }
    }
    forall n ensures Committed(log + more, n) <==> Committed(log, n) || Committed(more, n) {
      CommittedConcat(log, more, n);
    }
  }

  lemma CommittedConcat(a: seq<CacheChange>, b: seq<CacheChange>, n: int)
    ensures Committed(a + b, n) <==> Committed(a, n) || Committed(b, n)
  {
    if Committed(a, n) {
      CommittedLonger(a, b, n);
    }
    if Committed(b, n) {
      var i :| 0 <= i < |b| && b[i].sequence == n;
      assert (a + b)[|a| + i].sequence == n;
    }
    if Committed(a + b, n) {
      var i :| 0 <= i < |a + b| && (a + b)[i].sequence == n;
      assert if i < |a| then a[i].sequence == n else b[i - |a|].sequence == n;
    }
  }

  lemma CommittedLonger(a: seq<CacheChange>, b: seq<CacheChange>, n: int)
    requires Committed(a, n)
    ensures Committed(a + b, n)
  {
    var i :| 0 <= i < |a| && a[i].sequence == n;
    assert (a + b)[i].sequence == n;
  }
}
