/** How far a reader gets: what one submessage does to each part of its state, and how far
    `highest` has moved after any sequence of submessages. */
module ReaderProgress {
  import opened Types
  import opened SequenceSet
  import opened Reliability
  import opened Reception
  import opened ReaderRuns

  // ---- One submessage ----

  /** Beyond `highest`, t holds the pending changes of s. */
  ghost predicate SamePending(s: State, t: State) {
    forall n | n > t.highest ::
      (n in t.pending <==> n in s.pending) && (n in s.pending ==> t.pending[n] == s.pending[n])
  }

  /** A HEARTBEAT moves the reader to the end of what the writer no longer has, if it is not
      beyond that already, and forgets nothing it can still commit. */
  lemma HeartbeatMoves(s: State, first: int, last: int)
    requires Sound(s) && HeartbeatEvent(first, last).Decoded()
    ensures var t := Absorb(s, HeartbeatEvent(first, last));
            && t.highest == Max(s.highest, first - 1) && t.ranged && t.announced == Max(s.announced, last)
            && SamePending(s, t) && t.irrelevant == s.irrelevant
  {
  }

  /** A DATA is kept unless its number was passed or has arrived. */
  lemma DataMoves(s: State, c: CacheChange)
    requires Sound(s) && DataEvent(c).Decoded()
    ensures var t, n := Absorb(s, DataEvent(c)), c.sequence;
            && t.highest == s.highest && t.announced == Max(s.announced, n) && (t.ranged <==> s.ranged || n == 1)
            && t.pending == (if n > s.highest && n !in s.pending then s.pending[n := c] else s.pending)
            && t.irrelevant == s.irrelevant
  {
  }

  lemma RememberedNumbers(g: Gap)
    ensures forall n :: n in Remembered(g) <==>
              g.start <= n < g.list.base && (n < g.start + 256 || g.start > INT64_MAX - 255)
  {
    forall n
      ensures n in Remembered(g) <==>
                g.start <= n < g.list.base && (n < g.start + 256 || g.start > INT64_MAX - 255)
    {
      assert n in Remembered(g) <==> Between(g.start, n, RememberedEnd(g));
    }
  }

  /** A GAP that begins at or before the next number and goes past it moves the reader to its
      end; any other only marks numbers: those of its list, and the first 256 of its range,
      or all of them if it starts within 254 of the top. */
  lemma GapMoves(s: State, g: Gap)
    requires Sound(s) && GapEvent(g).Decoded()
    ensures var t, covers := Absorb(s, GapEvent(g)), g.start <= s.highest + 1 < g.list.base;
            && t.highest == (if covers then g.list.base - 1 else s.highest)
            && (t.ranged <==> s.ranged || covers) && t.announced == s.announced && SamePending(s, t)
            && forall n | n > t.highest ::
                 n in t.irrelevant <==>
                 || n in s.irrelevant || n in g.list.Members()
                 || (g.start <= n < g.list.base && (n < g.start + 256 || g.start > INT64_MAX - 255))
  {
    hide SequenceNumberSet.Contains;
    var t := Absorb(s, GapEvent(g));
    RememberedNumbers(g);
    hide Remembered;
    assert forall n :: n in g.list.Members() <==>
             g.list.base <= n < g.list.base + g.list.numBits && g.list.Contains(n);
  }

  /** The commit loop goes on from there to the first number that is neither at hand nor
      irrelevant. */
  lemma StepReaches(s: State, e: Event)
    requires Sound(s) && e.Decoded()
    ensures var a, t := Absorb(s, e), Step(s, e).0;
            && a.highest <= t.highest && t.ranged == a.ranged
            && (forall n | a.highest < n <= t.highest :: n in a.pending || n in a.irrelevant)
            && (a.ranged && t.highest < INT64_MAX ==> t.highest + 1 !in a.pending && t.highest + 1 !in a.irrelevant)
            && (!a.ranged ==> t == a)
  {
    hide Absorb;
    hide Commit;
    AbsorbSound(s, e);
    var a := Absorb(s, e);
    if a.ranged {
      CommitSpec(a);
    }
  }

  // ---- Runs ----

  ghost predicate Decodable(events: seq<Event>) {
    forall e | e in events :: e.Decoded()
  }

  lemma RunSnoc(events: seq<Event>, e: Event)
    ensures Run(events + [e]).0 == Step(Run(events).0, e).0
  {
    assert (events + [e])[..|events|] == events;
  }

  /** The reader has learnt where the writer starts: from a HEARTBEAT, or from number 1. */
  ghost predicate Started(events: seq<Event>) {
    exists e :: e in events && (e.HeartbeatEvent? || (e.DataEvent? && e.change.sequence == 1))
  }

  /** Whatever else arrives, a HEARTBEAT once heard leaves nothing to wait for below its
      first number. */
  lemma {:induction false} HeardReaches(events: seq<Event>, first: int, last: int)
    requires Decodable(events) && HeartbeatEvent(first, last) in events
    ensures Run(events).0.ranged && Run(events).0.highest >= first - 1
  {
    hide Absorb;
    hide Step;
    var before, e := events[..|events| - 1], events[|events| - 1];
    assert before + [e] == events;
    RunInvariant(before);
    StepReaches(Run(before).0, e);
    RunSnoc(before, e);
    AbsorbSound(Run(before).0, e);
    if e == HeartbeatEvent(first, last) {
      HeartbeatMoves(Run(before).0, first, last);
    } else {
      assert HeartbeatEvent(first, last) in before;
      HeardReaches(before, first, last);
      RangedStays(Run(before).0, e);
    }
  }

  lemma RangedStays(s: State, e: Event)
    ensures s.ranged ==> Absorb(s, e).ranged
  {
  }

  /** A number that arrived is passed as soon as a HEARTBEAT says that nothing before it is
      left. */
  lemma SeenReaches(events: seq<Event>, n: int)
    requires Decodable(events) && Seen(events, n)
    ensures Run(events + [HeartbeatEvent(n, n)]).0.highest >= n
  {
    hide Run;
    hide Seen;
    hide Explained;
    var all := events + [HeartbeatEvent(n, n)];
    SeenDecoded(events, n);
    assert Decodable(all);
    SeenLonger(events, HeartbeatEvent(n, n), n);
    HeardReaches(all, n, n);
    ReachesSeen(all, n);
  }

  lemma SeenDecoded(events: seq<Event>, n: int)
    requires Decodable(events) && Seen(events, n)
    ensures HeartbeatEvent(n, n).Decoded()
  {
    var i :| 0 <= i < |events| && events[i].DataEvent? && events[i].change.sequence == n;
    assert events[i] in events;
  }

  lemma SeenLonger(events: seq<Event>, e: Event, n: int)
    requires Seen(events, n)
    ensures Seen(events + [e], n)
  {
    var i :| 0 <= i < |events| && events[i].DataEvent? && events[i].change.sequence == n;
    assert (events + [e])[i] == events[i];
  }

  /** A number that arrived is not the next one to come. */
  lemma ReachesSeen(events: seq<Event>, n: int)
    requires Decodable(events) && Seen(events, n) && Run(events).0.ranged && Run(events).0.highest >= n - 1
    ensures Run(events).0.highest >= n || n > INT64_MAX
  {
    hide Run;
    hide Seen;
    RunInvariant(events);
  }

  lemma {:induction false} StartedRanged(events: seq<Event>)
    requires Decodable(events)
    ensures Started(events) ==> Run(events).0.ranged
    ensures (forall e | e in events :: !e.GapEvent?) && Run(events).0.ranged ==> Started(events)
  {
    hide Step;
    if events != [] {
      var before, e := events[..|events| - 1], events[|events| - 1];
      assert before + [e] == events;
      StartedRanged(before);
      RunInvariant(before);
      RunSnoc(before, e);
      StepReaches(Run(before).0, e);
      assert Started(events) <==> Started(before) || e.HeartbeatEvent? || (e.DataEvent? && e.change.sequence == 1) by {
        assert e in events;
        assert forall f :: f in events <==> f in before || f == e;
      }
      assert Absorb(Run(before).0, e).ranged ==>
               Run(before).0.ranged || e.HeartbeatEvent? || (e.DataEvent? && e.change.sequence == 1) || e.GapEvent?;
    }
  }

  /** The largest number below all that the HEARTBEATs heard still offer. */
  ghost predicate Floor(events: seq<Event>, b: int) {
    && b >= 0
    && (forall e | e in events && e.HeartbeatEvent? :: e.first - 1 <= b)
    && (b > 0 ==> exists e :: e in events && e.HeartbeatEvent? && e.first - 1 == b)
  }

  /** k is what is reached from b by the numbers that arrived. */
  ghost predicate EndOfRun(events: seq<Event>, b: int, k: int) {
    b <= k && (forall n | b < n <= k :: Seen(events, n)) && (k == INT64_MAX || !Seen(events, k + 1))
  }

  /** Where a reader stands after any submessages but GAP, whatever their order: nowhere until
      it knows where the writer starts; from then on at the end of the run of arrived
      numbers that begins above the highest floor it was told. */
  lemma RunExact(events: seq<Event>, b: int)
    requires Decodable(events) && (forall e | e in events :: !e.GapEvent?) && Floor(events, b)
    ensures if Started(events) then EndOfRun(events, b, Run(events).0.highest) else Run(events).0.highest == 0
  {
    hide Run;
    hide Seen;
    hide First;
    hide Committed;
    var s := Run(events).0;
    StartedRanged(events);
    RunInvariant(events);
    if Started(events) {
      if b > 0 {
        var e :| e in events && e.HeartbeatEvent? && e.first - 1 == b;
        HeardReaches(events, e.first, e.last);
      }
      forall n | b < n <= s.highest ensures Seen(events, n) {
        CommittedOnly(events, b, n);
      }
      if s.highest < INT64_MAX && Seen(events, s.highest + 1) {
        ReachesSeen(events, s.highest + 1);
      }
    }
  }

  lemma CommittedOnly(events: seq<Event>, b: int, n: int)
    requires Decodable(events) && (forall e | e in events :: !e.GapEvent?) && Floor(events, b)
    requires b < n <= Run(events).0.highest
    ensures Seen(events, n)
  {
    hide Run;
    NoSilentLoss(events, n);
    CommitsInOrder(events);
    var log := Run(events).1;
    if i :| 0 <= i < |log| && log[i].sequence == n {
      assert log[i] in log;
      assert First(events, log[i]);
    }
  }

  /** There is only one such place. */
  lemma OneEnd(events: seq<Event>, b: int, k: int, l: int)
    requires EndOfRun(events, b, k) && EndOfRun(events, b, l) && k <= INT64_MAX && l <= INT64_MAX
    ensures k == l
  {
    hide Seen;
    assert k < l ==> Seen(events, k + 1);
    assert l < k ==> Seen(events, l + 1);
  }
}
