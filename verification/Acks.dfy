/** The ACKNACK a reader sends and what the writer reads out of it. */
module Acks {
  import opened Types
  import opened Cdr
  import opened SequenceSet
  import opened Reliability
  import opened Reception
  import opened ReaderRuns

  // ---- The reader's side ----

  ghost predicate Largest(m: int, s: set<int>) {
    m in s && forall n | n in s :: n <= m
  }

  lemma {:induction false} HasLargest(s: set<int>, x: int) returns (m: int)
    requires x in s
    ensures Largest(m, s)
    decreases s
  {
    m := x;
    if y :| y in s && y != x {
      var rest := HasLargest(s - {x}, y);
      assert forall n | n in s :: n == x || n in s - {x};
      m := Max(x, rest);
    }
  }

  /** The announced number, or the largest pending one if that is larger. */
  ghost function LastKnown(s: State): (r: int)
    ensures r >= s.announced && forall n | n in s.pending :: n <= r
    ensures r == s.announced || r in s.pending
  {
    if exists n :: n in s.pending then
      assert exists m :: Largest(m, s.pending.Keys) by {
        var n :| n in s.pending;
        var m := HasLargest(s.pending.Keys, n);
      }
      var m :| Largest(m, s.pending.Keys);
      Max(s.announced, m)
    else s.announced
  }

  /** At the top of the 64-bit range the base stays on the committed number. */
  function AckBase(s: State): int {
    if s.highest == INT64_MAX then s.highest else s.highest + 1
  }

  ghost function AckBits(s: State): nat {
    if LastKnown(s) >= AckBase(s) then Min(LastKnown(s) - AckBase(s) + 1, MAX_BITS) else 0
  }

  ghost function AckState(s: State): SequenceNumberSet
    requires 0 <= s.highest <= INT64_MAX
  {
    SequenceNumberSet(AckBase(s), AckBits(s),
                      FillBits(RequiredWords(AckBits(s)), AckBase(s), s.received + s.irrelevant, AckBits(s)))
  }

  ghost function MakeAck(reader: EntityId, writer: EntityId, s: State, count: Int32): AckNack
    requires 0 <= s.highest <= INT64_MAX
  {
    AckNack(reader, writer, AckState(s), count, !AnyBit(AckState(s).bitmap))
  }

  /** n is inside the window of the ACKNACK and neither received nor irrelevant. */
  ghost predicate Missing(s: State, n: int) {
    AckBase(s) <= n < AckBase(s) + AckBits(s) && n !in s.received && n !in s.irrelevant
  }

  /** k is the last number the reader knows of: the announced one, or the largest pending
      one if that is larger. */
  ghost predicate KnowsUpTo(s: State, k: int) {
    k >= s.announced && (forall n | n in s.pending :: n <= k) && (k == s.announced || k in s.pending)
  }

  /** What the ACKNACK of a reader in state s asks for: of the 256 numbers after `highest`
      those up to k that neither arrived nor are irrelevant. At the top of the range the
      base cannot go beyond `highest`, and that number itself is asked for. */
  ghost predicate AsksFor(s: State, k: int, ack: AckNack) {
    if s.highest < INT64_MAX then
      && ack.state.base == s.highest + 1 && ack.state.numBits == Max(0, Min(k - s.highest, 256))
      && (forall n :: ack.state.Contains(n) <==>
            s.highest < n <= Min(k, s.highest + 256) && n !in s.received && n !in s.irrelevant)
    else
      && ack.state.base == INT64_MAX && ack.state.numBits == (if k == INT64_MAX then 1 else 0)
      && (forall n :: ack.state.Contains(n) <==>
            n == k == INT64_MAX && n !in s.received && n !in s.irrelevant)
  }

  lemma MissingExact(s: State, k: int)
    requires 0 <= s.highest <= INT64_MAX && KnowsUpTo(s, k) && k <= INT64_MAX
    ensures AckBase(s) == if s.highest < INT64_MAX then s.highest + 1 else INT64_MAX
    ensures s.highest < INT64_MAX ==>
              && AckBits(s) == Max(0, Min(k - s.highest, 256))
              && forall n :: Missing(s, n) <==>
                   s.highest < n <= Min(k, s.highest + 256) && n !in s.received && n !in s.irrelevant
    ensures s.highest == INT64_MAX ==>
              && AckBits(s) == (if k == INT64_MAX then 1 else 0)
              && forall n :: Missing(s, n) <==> n == k == INT64_MAX && n !in s.received && n !in s.irrelevant
  {
    assert LastKnown(s) == k;
  }

  /** The set a reader builds is always one the encoder accepts; and what the writer decodes,
      whatever follows in the datagram, asks for exactly the numbers the reader lacks, with
      the final flag set if there is none. */
  lemma AckExact(reader: EntityId, writer: EntityId, s: State, count: Int32, k: int, e: Endianness, tail: Bytes)
    requires 0 <= s.highest <= INT64_MAX && count > 0 && KnowsUpTo(s, k) && k <= INT64_MAX
    ensures var sent := EncodeAckNack(MakeAck(reader, writer, s, count), e);
            && sent.Some?
            && DecodeAckNack(sent.value + tail) == Some(MakeAck(reader, writer, s, count))
    ensures var ack := MakeAck(reader, writer, s, count);
            && ack.reader == reader && ack.writer == writer && ack.count == count
            && AsksFor(s, k, ack)
            && (ack.final <==> forall n :: !ack.state.Contains(n))
  {
    hide LastKnown;
    hide AckBase;
    hide AckBits;
    hide FillBits;
    hide Missing;
    hide KnowsUpTo;
    hide EncodeAckNack;
    hide DecodeAckNack;
    hide SequenceNumberSet.Contains;
    hide SequenceNumberSet.Validated;
    var ack := MakeAck(reader, writer, s, count);
    AckMembers(s);
    MissingExact(s, k);
    AckNackRoundTrip(ack, e, tail);
    NoRequests(s);
  }

  lemma AckMembers(s: State)
    requires 0 <= s.highest <= INT64_MAX
    ensures AckState(s).Validated()
    ensures forall n :: n in AckState(s).Members() <==> Missing(s, n)
    ensures forall n :: AckState(s).Contains(n) <==> Missing(s, n)
  {
    hide FillBits;
    hide SequenceNumberSet.Contains;
    var a := AckState(s);
    FillBitsExact(a.base, a.numBits, s.received + s.irrelevant, a);
    forall n ensures a.Contains(n) <==> Missing(s, n) {
      OutsideWindow(a, n);
      assert n in a.Members() <==> a.base <= n < a.base + a.numBits && a.Contains(n);
    }
  }

  lemma OutsideWindow(a: SequenceNumberSet, n: int)
    ensures a.Contains(n) ==> a.base <= n < a.base + a.numBits
  {
  }

  // ---- The writer's side ----

  predicate Acknowledges(ack: AckNack, n: int) {
    n < ack.state.base || (n - ack.state.base < ack.state.numBits && !ack.state.Contains(n))
  }

  predicate HasRequests(ack: AckNack) {
    AnyBit(ack.state.bitmap)
  }

  /** What makes the writer count number n as delivered. */
  predicate Accepts(ack: AckNack, n: int) {
    Acknowledges(ack, n) && !HasRequests(ack)
  }

  lemma NoRequests(s: State)
    requires 0 <= s.highest <= INT64_MAX
    ensures AnyBit(AckState(s).bitmap) <==> exists n :: Missing(s, n)
  {
    hide FillBits;
    AckMembers(s);
    AnyBitMeansNonEmpty(AckState(s));
    if exists n :: Missing(s, n) {
      var n :| Missing(s, n);
      assert n in AckState(s).Members();
    }
    if AckState(s).Members() != {} {
      var n :| n in AckState(s).Members();
      assert Missing(s, n);
    }
  }

  /** The writer's verdict means what the reader meant. An ACKNACK from a reader that
      knows the writer's range counts as "n delivered" exactly when the reader's run has
      reached n and nothing announced is beyond it. */
  lemma VerdictExact(reader: EntityId, writer: EntityId, s: State, count: Int32, n: int)
    requires Sound(s) && Settled(s) && s.ranged && s.highest < INT64_MAX
    ensures Accepts(MakeAck(reader, writer, s, count), n) <==> n <= s.highest && s.announced <= s.highest
  {
    hide FillBits;
    hide SequenceNumberSet.Contains;
    NoRequests(s);
    AckMembers(s);
    PendingBelow(s);
    if s.announced > s.highest {
      assert Missing(s, s.highest + 1);
    }
  }

  lemma PendingBelow(s: State)
    requires Sound(s)
    ensures LastKnown(s) == s.announced
  {
  }

  /** At the top of the range the verdict breaks: once the last number is announced, a
      reader that has committed it keeps asking for it, and the writer accepts nothing
      unless a GAP names that number again. */
  lemma VerdictAtMaximum(reader: EntityId, writer: EntityId, s: State, count: Int32, n: int)
    requires Sound(s) && s.highest == INT64_MAX
    ensures Accepts(MakeAck(reader, writer, s, count), n) <==>
            if s.announced < INT64_MAX then n < INT64_MAX
            else n <= INT64_MAX && (INT64_MAX in s.received || INT64_MAX in s.irrelevant)
  {
    hide FillBits;
    hide SequenceNumberSet.Contains;
    NoRequests(s);
    AckMembers(s);
    PendingBelow(s);
    assert AckBits(s) == if s.announced < INT64_MAX then 0 else 1;
    assert s.announced == INT64_MAX && !(INT64_MAX in s.received || INT64_MAX in s.irrelevant) ==>
             Missing(s, INT64_MAX);
  }

  /** The numbers a reader that does not know the range can be taken to acknowledge: those
      of its window, and only once the whole window arrived or was declared irrelevant. */
  ghost predicate WindowClosed(s: State) {
    forall m | 1 <= m <= Min(s.announced, MAX_BITS) :: m in s.received || m in s.irrelevant
  }

  /** The exact verdict on a reader that does not know the range. */
  lemma UnrangedExact(reader: EntityId, writer: EntityId, s: State, count: Int32, n: int)
    requires Sound(s) && !s.ranged && n >= 1
    ensures Accepts(MakeAck(reader, writer, s, count), n) <==> n <= Min(s.announced, MAX_BITS) && WindowClosed(s)
  {
    hide FillBits;
    hide SequenceNumberSet.Contains;
    NoRequests(s);
    AckMembers(s);
    PendingBelow(s);
    assert forall m :: Missing(s, m) <==>
             1 <= m <= Min(s.announced, MAX_BITS) && m !in s.received && m !in s.irrelevant;
  }

  /** Such a reader asks for number 1, so nothing is taken for acknowledged unless a GAP
      that reached it declared number 1 irrelevant. */
  lemma UnrangedAsks(reader: EntityId, writer: EntityId, s: State, count: Int32, n: int)
    requires Sound(s) && !s.ranged && n >= 1 && 1 !in s.irrelevant
    ensures !Accepts(MakeAck(reader, writer, s, count), n)
  {
    hide Accepts;
    hide MakeAck;
    UnrangedExact(reader, writer, s, count, n);
  }

  /** A reader that knows the range and is below the top acknowledges a number that was
      never announced to it exactly when it has gone beyond what was announced. */
  lemma OvertakenExact(reader: EntityId, writer: EntityId, s: State, count: Int32)
    requires Sound(s) && Settled(s) && s.ranged && s.highest < INT64_MAX
    ensures (exists n :: n > s.announced && Accepts(MakeAck(reader, writer, s, count), n)) <==>
            s.announced < s.highest
  {
    hide Accepts;
    hide MakeAck;
    if s.announced < s.highest {
      VerdictExact(reader, writer, s, count, s.highest);
    }
    forall n | n > s.announced && Accepts(MakeAck(reader, writer, s, count), n)
      ensures s.announced < s.highest
    {
      VerdictExact(reader, writer, s, count, n);
    }
  }

  // ---- Runs without GAP, as this writer produces them ----

  ghost predicate NoGap(events: seq<Event>) {
    forall e | e in events :: !e.GapEvent?
  }

  ghost predicate Announced(events: seq<Event>, n: int) {
    exists i :: 0 <= i < |events| && match events[i]
                                     case DataEvent(c) => n <= c.sequence
                                     case HeartbeatEvent(_, last) => n <= last
                                     case GapEvent(_) => false
  }

  /** What was announced to a reader, with or without GAP: exactly the numbers up to
      `announced`. */
  lemma {:induction false} RunAnnounced(events: seq<Event>)
    requires forall e | e in events :: e.Decoded()
    ensures forall n | n >= 1 :: Announced(events, n) <==> n <= Run(events).0.announced
  {
    hide Commit;
    hide Absorb;
    hide Announced;
    if events != [] {
      var before, e := events[..|events| - 1], events[|events| - 1];
      RunAnnounced(before);
      AnnouncedMore(before, e);
      AnnouncedBack(before, e);
      assert before + [e] == events && e in events;
      RunInvariant(before);
      StepAnnounces(Run(before).0, e);
    } else {
      NothingAnnounced();
    }
  }

  lemma NothingAnnounced()
    ensures forall n :: !Announced([], n)
  {
  }

  lemma StepAnnounces(s: State, e: Event)
    requires Sound(s) && e.Decoded()
    ensures Step(s, e).0.announced == match e
                                      case DataEvent(c) => Max(s.announced, c.sequence)
                                      case HeartbeatEvent(_, last) => Max(s.announced, last)
                                      case GapEvent(_) => s.announced
  {
    hide Commit;
    AbsorbSound(s, e);
    var t := Absorb(s, e);
    if t.ranged { CommitSpec(t); }
  }

  lemma AnnouncedBack(events: seq<Event>, e: Event)
    ensures forall n | Announced(events + [e], n) ::
              || Announced(events, n)
              || (e.DataEvent? && n <= e.change.sequence)
              || (e.HeartbeatEvent? && n <= e.last)
  {
    var all := events + [e];
    forall n | Announced(all, n)
      ensures Announced(events, n) || (e.DataEvent? && n <= e.change.sequence) || (e.HeartbeatEvent? && n <= e.last)
    {
      var i :| 0 <= i < |all| && match all[i]
                                 case DataEvent(c) => n <= c.sequence
                                 case HeartbeatEvent(_, last) => n <= last
                                 case GapEvent(_) => false;
      assert i < |events| ==> all[i] == events[i];
    }
  }

  lemma {:induction false} NoGapRun(events: seq<Event>)
    requires NoGap(events) && forall e | e in events :: e.Decoded()
    ensures var s := Run(events).0;
            && s.irrelevant == {} && s.highest <= s.announced
            && (events != [] ==> s.announced >= 1)
            && forall n | 1 <= n <= s.announced :: Announced(events, n)
  {
    hide Commit;
    hide Announced;
    if events != [] {
      var before, e := events[..|events| - 1], events[|events| - 1];
      NoGapRun(before);
      RunInvariant(before);
      var s := Run(before).0;
      AbsorbSound(s, e);
      var t := Absorb(s, e);
      AnnouncedMore(before, e);
      assert before + [e] == events;
      assert e in events && !e.GapEvent?;
      if t.ranged {
        CommitSpec(t);
        NoIrrelevant(t, Commit(t).0.highest);
      }
    }
  }

  lemma NoIrrelevant(t: State, k: int)
    requires Sound(t) && t.irrelevant == {} && t.highest <= t.announced && Reaches(t, k)
    ensures k <= t.announced && Beyond(t, k).irrelevant == {}
  {
    assert k > t.highest ==> k in t.pending || k in t.irrelevant;
  }

  lemma AnnouncedMore(events: seq<Event>, e: Event)
    ensures forall n | Announced(events, n) :: Announced(events + [e], n)
    ensures e.DataEvent? ==> forall n | n <= e.change.sequence :: Announced(events + [e], n)
    ensures e.HeartbeatEvent? ==> forall n | n <= e.last :: Announced(events + [e], n)
  {
    var all := events + [e];
    assert all[|events|] == e;
    forall n | Announced(events, n) ensures Announced(all, n) {
      assert forall i | 0 <= i < |events| :: all[i] == events[i];
    }
  }

  /** A stale ACKNACK never acknowledges a later number: without GAP, what a reader's
      ACKNACK is accepted for had been announced to that reader before. */
  lemma StaleAckRejected(reader: EntityId, writer: EntityId, events: seq<Event>, count: Int32, n: int)
    requires events != [] && NoGap(events) && forall e | e in events :: e.Decoded()
    requires n >= 1 && !Announced(events, n)
    ensures var s := Run(events).0;
            0 <= s.highest <= INT64_MAX && !Accepts(MakeAck(reader, writer, s, count), n)
  {
    hide SequenceNumberSet.Contains;
    hide FillBits;
    hide Announced;
    hide Invariant;
    var s := Run(events).0;
    RunInvariant(events);
    NoGapRun(events);
    SoundOf(events);
    PendingBelow(s);
    AckMembers(s);
  }

  lemma SoundOf(events: seq<Event>)
    requires Invariant(events, Run(events).0, Run(events).1)
    ensures Sound(Run(events).0) && Settled(Run(events).0)
  {
  }
}
