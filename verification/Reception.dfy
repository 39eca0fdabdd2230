/** What a reliable reader knows about one writer, as a value, and how the three
    submessages of a writer change it (section 8.4.12 of DDSI-RTPS 2.5). The class of
    ReliableReader keeps this state in place and is proved against these functions. */
module Reception {
  import opened Types
  import opened SequenceSet
  import opened Reliability

  /** `received` and `pending` hold what arrived ahead of `highest`; `irrelevant` what a
      GAP declared; `ranged` is set once the reader knows where the writer starts. */
  datatype State = State(highest: int, announced: int, ranged: bool,
                         received: set<int>, irrelevant: set<int>, pending: map<int, CacheChange>)

  const INITIAL: State := State(0, 0, false, {}, {}, map[])

  /** An accepted submessage of the writer. */
  datatype Event = DataEvent(change: CacheChange) | HeartbeatEvent(first: int, last: int) | GapEvent(gap: Gap)
  {
    /** What the decoders let through. */
    predicate Decoded() {
      match this
      case DataEvent(c) => 0 < c.sequence <= INT64_MAX
      case HeartbeatEvent(first, last) => 0 < first <= last <= INT64_MAX
      case GapEvent(g) => g.Encodable()
    }
  }

  // ---- commit_contiguous ----

  function Skip(s: State): State {
    var next := s.highest + 1;
    s.(highest := next,
       received := s.received - {next}, irrelevant := s.irrelevant - {next}, pending := s.pending - {next})
  }

  function Deliver(s: State): State {
    var next := s.highest + 1;
    s.(highest := next, received := s.received - {next}, pending := s.pending - {next})
  }

  /** The state after committing, and the changes handed to the history in order. */
  function Commit(s: State): (State, seq<CacheChange>)
    decreases |s.pending| + |s.irrelevant|
  {
    var next := s.highest + 1;
    if s.highest >= INT64_MAX then (s, [])
    else if next in s.irrelevant then
      SkipShrinks(s);
      Commit(Skip(s))
    else if next in s.pending then
      DeliverShrinks(s);
      var (t, log) := Commit(Deliver(s));
      (t, [s.pending[next]] + log)
    else (s, [])
  }

  lemma SkipShrinks(s: State)
    requires s.highest + 1 in s.irrelevant
    ensures |Skip(s).pending| + |Skip(s).irrelevant| < |s.pending| + |s.irrelevant|
  {
    PendingShrinks(s.pending, s.highest + 1);
  }

  lemma DeliverShrinks(s: State)
    requires s.highest + 1 in s.pending
    ensures |Deliver(s).pending| + |Deliver(s).irrelevant| < |s.pending| + |s.irrelevant|
  {
    PendingShrinks(s.pending, s.highest + 1);
  }

  lemma PendingShrinks(m: map<int, CacheChange>, n: int)
    ensures |m - {n}| <= |m|
    ensures n in m ==> |m - {n}| < |m|
  {
    assert (m - {n}).Keys == m.Keys - {n};
    assert |(m - {n}).Keys| == |m.Keys - {n}|;
    if n in m {
      assert |m.Keys - {n}| == |m.Keys| - 1;
    } else {
      assert m.Keys - {n} == m.Keys;
    }
  }

  /** s with everything up to k taken out of the three containers. */
  ghost function Beyond(s: State, k: int): State {
    s.(highest := k,
       received := (set n | n in s.received && !(s.highest < n <= k)),
       irrelevant := (set n | n in s.irrelevant && !(s.highest < n <= k)),
       pending := map n | n in s.pending && !(s.highest < n <= k) :: s.pending[n])
  }

  /** highest+1 .. k are all at hand or irrelevant. */
  ghost predicate Reaches(s: State, k: int) {
    && s.highest <= k <= Max(s.highest, INT64_MAX)
    && forall n | s.highest < n <= k :: n in s.pending || n in s.irrelevant
  }

  /** Each pending change sits under its own number. */
  ghost predicate Filed(s: State) {
    forall n | n in s.pending :: s.pending[n].sequence == n
  }

  /** The pending changes of (j, k] that are not irrelevant, in order. */
  ghost function Slice(s: State, j: int, k: int): seq<CacheChange>
    decreases k - j
  {
    if j >= k then []
    else if j + 1 !in s.irrelevant && j + 1 in s.pending then [s.pending[j + 1]] + Slice(s, j + 1, k)
    else Slice(s, j + 1, k)
  }

  /** k is the end of the run that starts at `highest`. */
  ghost predicate Frontier(s: State, k: int) {
    Reaches(s, k) && (k >= INT64_MAX || (k + 1 !in s.pending && k + 1 !in s.irrelevant))
  }

  lemma OneFrontier(s: State, k: int, l: int)
    requires Frontier(s, k) && Reaches(s, l)
    ensures l <= k
  {
    assert l <= k || k + 1 in s.pending || k + 1 in s.irrelevant;
  }

  /** The loop stops at the largest number reachable without a hole, takes everything up
      to it out of the containers, and delivers exactly the changes that are not
      irrelevant, in order. */
  lemma CommitSpec(s: State)
    requires s.highest <= INT64_MAX
    ensures var (t, log) := Commit(s);
            && Frontier(s, t.highest) && (forall k | Reaches(s, k) :: k <= t.highest)
            && t == Beyond(s, t.highest)
            && log == Slice(s, s.highest, t.highest)
  {
    hide Commit;
    assert Beyond(s, s.highest) == s;
    CommitFrom(s, s.highest);
    assert CommitsTo(s, s.highest, Commit(s).0, Commit(s).1);
    hide Frontier;
    var k := Commit(s).0.highest;
    forall l | Reaches(s, l) ensures l <= k {
      OneFrontier(s, k, l);
    }
  }

  ghost predicate CommitsTo(s: State, j: int, t: State, log: seq<CacheChange>) {
    t.highest >= j && Frontier(s, t.highest) && t == Beyond(s, t.highest) && log == Slice(s, j, t.highest)
  }

  lemma {:induction false} CommitFrom(s: State, j: int)
    requires Reaches(s, j) && j <= INT64_MAX
    ensures CommitsTo(s, j, Commit(Beyond(s, j)).0, Commit(Beyond(s, j)).1)
    decreases |Beyond(s, j).pending| + |Beyond(s, j).irrelevant|
  {
    hide Commit;
    hide CommitsTo;
    if j < INT64_MAX && (j + 1 in s.irrelevant || j + 1 in s.pending) {
      CommitRound(s, j);
      assert Reaches(s, j + 1);
      CommitFrom(s, j + 1);
      CommitsBack(s, j, Commit(Beyond(s, j + 1)).0, Commit(Beyond(s, j + 1)).1);
    } else {
      CommitEnd(s, j);
      CommitsHere(s, j);
    }
  }

  ghost function Head(s: State, j: int): seq<CacheChange> {
    if j + 1 !in s.irrelevant && j + 1 in s.pending then [s.pending[j + 1]] else []
  }

  lemma CommitRound(s: State, j: int)
    requires s.highest <= j < INT64_MAX && (j + 1 in s.irrelevant || j + 1 in s.pending)
    ensures var r, q := Beyond(s, j), Beyond(s, j + 1);
            && Commit(r) == (Commit(q).0, Head(s, j) + Commit(q).1)
            && |q.pending| + |q.irrelevant| < |r.pending| + |r.irrelevant|
  {
    hide Beyond;
    hide Skip;
    hide Deliver;
    var r := Beyond(s, j);
    BeyondNext(s, j);
    var rest := Commit(Beyond(s, j + 1)).1;
    assert [] + rest == rest;
    if j + 1 in s.irrelevant { SkipShrinks(r); } else { DeliverShrinks(r); }
  }

  lemma CommitEnd(s: State, j: int)
    requires s.highest <= j && (j >= INT64_MAX || (j + 1 !in s.irrelevant && j + 1 !in s.pending))
    ensures Commit(Beyond(s, j)) == (Beyond(s, j), [])
  {
    hide Beyond;
    BeyondNext(s, j);
  }

  lemma CommitsHere(s: State, j: int)
    requires Frontier(s, j)
    ensures CommitsTo(s, j, Beyond(s, j), [])
  {
  }

  lemma CommitsBack(s: State, j: int, t: State, log: seq<CacheChange>)
    requires CommitsTo(s, j + 1, t, log)
    ensures CommitsTo(s, j, t, Head(s, j) + log)
  {
  }

  /** One round of the loop. */
  lemma BeyondNext(s: State, j: int)
    requires s.highest <= j
    ensures var r := Beyond(s, j);
            && r.highest == j
            && (j + 1 in r.irrelevant <==> j + 1 in s.irrelevant)
            && (j + 1 in r.pending <==> j + 1 in s.pending)
            && (j + 1 in s.pending ==> r.pending[j + 1] == s.pending[j + 1])
    ensures j + 1 in s.irrelevant ==> Skip(Beyond(s, j)) == Beyond(s, j + 1)
    ensures j + 1 !in s.irrelevant ==> Deliver(Beyond(s, j)) == Beyond(s, j + 1)
  {
    var r, t := Beyond(s, j), Beyond(s, j + 1);
    assert r.pending - {j + 1} == t.pending;
    assert r.received - {j + 1} == t.received;
    assert r.irrelevant - {j + 1} == t.irrelevant;
  }

  ghost predicate Increasing(log: seq<CacheChange>) {
    forall i, j | 0 <= i < j < |log| :: log[i].sequence < log[j].sequence
  }

  /** A slice is what its name says: strictly increasing, and complete. */
  lemma {:induction false} SliceExact(s: State, j: int, k: int)
    requires Filed(s) && forall n | j < n <= k :: n in s.pending || n in s.irrelevant
    ensures Increasing(Slice(s, j, k))
    ensures forall c :: c in Slice(s, j, k) <==>
              j < c.sequence <= k && c.sequence !in s.irrelevant &&
              c.sequence in s.pending && c == s.pending[c.sequence]
    decreases k - j
  {
    if j < k {
      SliceExact(s, j + 1, k);
      var rest := Slice(s, j + 1, k);
      if j + 1 !in s.irrelevant {
        assert Slice(s, j, k) == [s.pending[j + 1]] + rest;
        forall i | 0 <= i < |rest| ensures rest[i].sequence > j + 1 {
          assert rest[i] in rest;
        }
      }
    }
  }

  // ---- The three submessages ----

  /** Drops every pending change below `bound`, and its mark in `received`. */
  function Prune(s: State, bound: int): State {
    s.(received := s.received - (set n | n in s.pending && n < bound),
       pending := map n | n in s.pending && n >= bound :: s.pending[n])
  }

  function Store(s: State, c: CacheChange): State {
    var n := c.sequence;
    var s := s.(ranged := s.ranged || n == 1, announced := Max(s.announced, n));
    if n > s.highest && n !in s.received then s.(received := s.received + {n}, pending := s.pending[n := c])
    else s
  }

  function Announce(s: State, first: int, last: int): State {
    var s :=
      if !s.ranged then s.(highest := first - 1, ranged := true)
      else if first > s.highest + 1 then Prune(s, first).(highest := first - 1)
      else s;
    s.(announced := Max(s.announced, last))
  }

  /** The last number of a gap that is remembered one by one: at most 256 of them. The
      guard is meant to keep start + 255 in range; IntegerRange says where it does not. */
  function RememberedEnd(g: Gap): int {
    var gapEnd := g.list.base - 1;
    if g.start > INT64_MAX - MAX_BITS + 1 then gapEnd
    else Min(gapEnd, g.start + MAX_BITS - 1)
  }

  predicate Between(low: int, n: int, high: int) {
    low <= n <= high
  }

  function Remembered(g: Gap): set<int> {
    set n: int | g.start <= n <= RememberedEnd(g) && Between(g.start, n, RememberedEnd(g))
  }

  function Exclude(s: State, g: Gap): State {
    var gapEnd := g.list.base - 1;
    var s :=
      if g.start <= s.highest + 1 && gapEnd >= s.highest + 1 then
        Prune(s, gapEnd + 1).(highest := gapEnd, ranged := true)
      else s.(irrelevant := s.irrelevant + Remembered(g));
    s.(irrelevant := s.irrelevant + set n: int | g.list.base <= n < g.list.base + g.list.numBits && g.list.Contains(n))
  }

  /** The effect of a submessage before the commit loop. */
  function Absorb(s: State, e: Event): State {
    match e
    case DataEvent(c) => Store(s, c)
    case HeartbeatEvent(first, last) => Announce(s, first, last)
    case GapEvent(g) => Exclude(s, g)
  }

  function Step(s: State, e: Event): (State, seq<CacheChange>) {
    var t := Absorb(s, e);
    if t.ranged then Commit(t) else (t, [])
  }
}
