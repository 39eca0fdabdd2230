/** The model counts with unbounded integers where the reader has 64 bits. This module
    lists every 64-bit expression a step evaluates and proves when all of them fit, so
    that the two agree. */
module IntegerRange {
  import opened Types
  import opened SequenceSet
  import opened Reliability
  import opened Reception
  import opened ReaderRuns
  import opened Acks

  predicate Fits(n: int) {
    -TWO_63 <= n <= INT64_MAX
  }

  /** The largest start of a GAP that the guard of the range loop lets through. */
  const LAST_GUARDED_START: int := INT64_MAX - MAX_BITS + 1

  /** x is the value of a signed 64-bit expression met while absorbing e, intermediate sums
      included: start + 256 is computed before 1 is taken off it. The counter of the range
      loop is evaluated once more than the loop runs; contains takes the base off each
      number of the list. */
  ghost predicate Absorbing(s: State, e: Event, x: int) {
    match e
    case DataEvent(c) => x == c.sequence
    case HeartbeatEvent(first, last) => x == first - 1 || (s.ranged && x == s.highest + 1)
    case GapEvent(g) =>
      var gapEnd := g.list.base - 1;
      || x == gapEnd
      || x == s.highest + 1
      || (!(g.start <= s.highest + 1 && gapEnd >= s.highest + 1) &&
          (|| x == INT64_MAX - MAX_BITS || x == INT64_MAX - MAX_BITS + 1
           || (g.start <= LAST_GUARDED_START && (x == g.start + MAX_BITS || x == g.start + MAX_BITS - 1))
           || g.start <= x <= RememberedEnd(g) + 1))
      || g.list.base <= x < g.list.base + g.list.numBits
      || 0 <= x < g.list.numBits
  }

  /** ... while the commit loop runs from t, whose guard is highest < 2^63 - 1 ... */
  ghost predicate Committing(t: State, x: int) {
    t.ranged && t.highest <= x - 1 <= Commit(t).0.highest && x - 1 < INT64_MAX
  }

  /** ... and while the ACKNACK of u is built. */
  ghost predicate Acknowledging(u: State, x: int) {
    || x == AckBase(u)
    || (LastKnown(u) >= AckBase(u) && x == LastKnown(u) - AckBase(u))
    || AckBase(u) <= x < AckBase(u) + AckBits(u)
  }

  ghost predicate Evaluates(s: State, e: Event, x: int) {
    Absorbing(s, e, x) || Committing(Absorb(s, e), x) || Acknowledging(Step(s, e).0, x)
  }

  /** What a caller could check before the step. */
  predicate Overflows(s: State, e: Event) {
    match e
    case DataEvent(_) => false
    case HeartbeatEvent(_, _) => s.ranged && s.highest == INT64_MAX
    case GapEvent(g) =>
      || s.highest == INT64_MAX
      || g.list.base + g.list.numBits - 1 > INT64_MAX
      || (g.start == LAST_GUARDED_START && !(g.start <= s.highest + 1 < g.list.base))
  }

  /** A step leaves the 64-bit range exactly when it is a HEARTBEAT or GAP that reaches a
      reader at the very top, a GAP whose list runs past the top, or a GAP that starts at
      2^63 - 256 and is remembered number by number: the guard of that branch is off by
      one. */
  lemma StepFits(s: State, e: Event)
    requires Sound(s) && e.Decoded()
    ensures (forall x | Evaluates(s, e, x) :: Fits(x)) <==> !Overflows(s, e)
  {
    hide Commit;
    hide Step;
    hide Invariant;
    var u := Step(s, e).0;
    if Overflows(s, e) {
      var x := AbsorbOverflows(s, e);
      assert Evaluates(s, e, x);
    } else {
      AbsorbFits(s, e);
      AnnouncedFits(s, e);
      AckFits(u);
    }
  }

  lemma AbsorbFits(s: State, e: Event)
    requires Sound(s) && e.Decoded() && !Overflows(s, e)
    ensures forall x | Absorbing(s, e, x) :: Fits(x)
  {
  }

  lemma AbsorbOverflows(s: State, e: Event) returns (x: int)
    requires Overflows(s, e)
    ensures Absorbing(s, e, x) && !Fits(x)
  {
    x := INT64_MAX + 1;
    if e.GapEvent? && s.highest != INT64_MAX {
      var last := e.gap.list.base + e.gap.list.numBits - 1;
      x := if last > INT64_MAX then last else e.gap.start + MAX_BITS;
    }
  }

  lemma AnnouncedFits(s: State, e: Event)
    requires Sound(s) && e.Decoded()
    ensures Sound(Step(s, e).0)
  {
    hide Commit;
    AbsorbSound(s, e);
    var t := Absorb(s, e);
    if t.ranged { CommitSound(t); }
  }

  lemma AckFits(u: State)
    requires Sound(u)
    ensures forall x | Acknowledging(u, x) :: Fits(x)
  {
    PendingBelow(u);
  }

  // ---- Runs ----

  /** No number the submessage names, or could name, is the largest one, and it is not a
      GAP that starts where the guard of the range loop is off by one. */
  predicate BelowTop(e: Event) {
    match e
    case DataEvent(c) => c.sequence < INT64_MAX
    case HeartbeatEvent(_, last) => last < INT64_MAX
    case GapEvent(g) => g.list.base + g.list.numBits <= INT64_MAX && g.start != LAST_GUARDED_START
  }

  ghost predicate Roomy(s: State) {
    && Sound(s) && s.highest < INT64_MAX && s.announced < INT64_MAX
    && forall n | n in s.irrelevant :: n < INT64_MAX
  }

  /** A run stays in the 64-bit range, in every expression of every step, exactly when none
      of its steps is one of the four overflowing ones. */
  lemma RunExact(events: seq<Event>)
    requires forall e | e in events :: e.Decoded()
    ensures (forall i, x | 0 <= i < |events| && Evaluates(Run(events[..i]).0, events[i], x) :: Fits(x)) <==>
            forall i | 0 <= i < |events| :: !Overflows(Run(events[..i]).0, events[i])
  {
    hide Evaluates;
    hide Overflows;
    hide Fits;
    hide Run;
    forall i | 0 <= i < |events|
      ensures (forall x | Evaluates(Run(events[..i]).0, events[i], x) :: Fits(x)) <==>
              !Overflows(Run(events[..i]).0, events[i])
    {
      assert events[i] in events;
      RunInvariant(events[..i]);
      StepFits(Run(events[..i]).0, events[i]);
    }
  }

  /** As long as the network names only numbers below 2^63 - 1 and sends no GAP that starts
      at 2^63 - 256, no run ever overflows: every expression of the next step fits too. */
  lemma RunFits(events: seq<Event>, e: Event, x: int)
    requires forall f | f in events + [e] :: f.Decoded() && BelowTop(f)
    ensures Evaluates(Run(events).0, e, x) ==> Fits(x)
  {
    hide Evaluates;
    hide Step;
    hide Sound;
    assert forall f | f in events :: f in events + [e];
    assert e in events + [e];
    RunRoomy(events);
    NotOverflowing(Run(events).0, e);
    StepFits(Run(events).0, e);
  }

  lemma NotOverflowing(s: State, e: Event)
    requires Roomy(s) && BelowTop(e)
    ensures Sound(s) && !Overflows(s, e)
  {
  }

  lemma {:induction false} RunRoomy(events: seq<Event>)
    requires forall e | e in events :: e.Decoded() && BelowTop(e)
    ensures Roomy(Run(events).0)
  {
    hide Step;
    if events != [] {
      var before, e := events[..|events| - 1], events[|events| - 1];
      RunRoomy(before);
      StepRoomy(Run(before).0, e);
    }
  }

  lemma StepRoomy(s: State, e: Event)
    requires Roomy(s) && e.Decoded() && BelowTop(e)
    ensures Roomy(Step(s, e).0)
  {
    hide Commit;
    AbsorbSound(s, e);
    AbsorbRoomy(s, e);
    var t := Absorb(s, e);
    if t.ranged {
      CommitSound(t);
      CommitSpec(t);
      var u := Commit(t).0;
      assert u.highest > t.highest ==> u.highest in t.pending || u.highest in t.irrelevant;
    }
  }

  lemma AbsorbRoomy(s: State, e: Event)
    requires Roomy(s) && e.Decoded() && BelowTop(e)
    ensures var t := Absorb(s, e);
            && t.highest < INT64_MAX && t.announced < INT64_MAX
            && forall n | n in t.irrelevant :: n < INT64_MAX
  {
  }

  const GAP_AT_GUARD: Gap :=
    Gap(UNKNOWN_ENTITY, UNKNOWN_ENTITY, LAST_GUARDED_START, SequenceNumberSet(LAST_GUARDED_START, 0, []))

  /** Nor can that start be allowed: this GAP is empty and ends far from the top, and yet a
      reader that never heard of the writer overflows on it. */
  lemma GuardOverflows(x: int)
    requires x == LAST_GUARDED_START + MAX_BITS
    ensures var e := GapEvent(GAP_AT_GUARD);
            && e.Decoded() && e.gap.list.base + e.gap.list.numBits <= INT64_MAX
            && Evaluates(INITIAL, e, x) && !Fits(x)
  {
    assert Absorbing(INITIAL, GapEvent(GAP_AT_GUARD), x);
  }

  /** The bound cannot be raised: with a DATA that carries the largest number, the next
      HEARTBEAT overflows. */
  lemma TopOverflows(c: CacheChange, x: int)
    requires c.sequence == INT64_MAX && x == INT64_MAX + 1
    ensures var top := HeartbeatEvent(INT64_MAX, INT64_MAX);
            Evaluates(Run([top, DataEvent(c)]).0, top, x) && !Fits(x)
  {
    var top, d := HeartbeatEvent(INT64_MAX, INT64_MAX), DataEvent(c);
    var s := State(INT64_MAX - 1, INT64_MAX, true, {}, {}, map[]);
    var t := State(INT64_MAX, INT64_MAX, true, {}, {}, map[]);
    assert [top, d][..1] == [top] && [top][..0] == [];
    assert Run([]) == (INITIAL, []);
    assert Absorb(INITIAL, top) == s && Commit(s) == (s, []);
    assert Run([top]).0 == s;
    var a := Absorb(s, d);
    assert a.pending == map[INT64_MAX := c] && a.received == {INT64_MAX};
    assert Deliver(a) == t && Commit(t) == (t, []);
    assert Commit(a).0 == t;
    assert Run([top, d]).0 == t;
  }

  // ---- What a GAP can make a reader remember ----

  /** The range loop of any GAP a decoder accepts inserts at most 256 numbers, all of them
      inside the declared gap, and its counter stays below 2^63 even after the last
      round; nothing of a gap of up to 256 numbers is lost. */
  lemma GapMemory(g: Gap)
    requires g.Encodable()
    ensures |Remembered(g)| <= MAX_BITS
    ensures forall n | n in Remembered(g) :: g.start <= n < g.list.base
    ensures RememberedEnd(g) + 1 <= INT64_MAX
    ensures g.list.base - g.start <= MAX_BITS ==> forall n | g.start <= n < g.list.base :: n in Remembered(g)
  {
    RangeSize(g.start, RememberedEnd(g), Remembered(g));
  }

  lemma {:induction false} RangeSize(low: int, high: int, s: set<int>)
    requires forall n :: n in s <==> low <= n <= high
    ensures |s| == if low <= high then high - low + 1 else 0
    decreases high - low
  {
    if low <= high {
      RangeSize(low, high - 1, s - {high});
    } else {
      assert forall n :: n !in s;
    }
  }
}
