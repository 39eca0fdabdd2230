/** Where the exact reading of an ACKNACK stops: GAPs that overtake the announcements. */
module AckLimits {
  import opened Types
  import opened SequenceSet
  import opened Reliability
  import opened Reception
  import opened ReaderRuns
  import opened Acks

  const GAP_OVER_FIVE: Gap := Gap(UNKNOWN_ENTITY, UNKNOWN_ENTITY, 1, SequenceNumberSet(6, 0, []))
  const GAP_NAMING_ONE: Gap := Gap(UNKNOWN_ENTITY, UNKNOWN_ENTITY, 1, SequenceNumberSet(1, 1, FillBits(1, 1, {}, 1)))

  /** With a GAP this fails: a gap over 1..5 makes the reader acknowledge 5 although
      nothing was ever announced. */
  lemma GapOvertakes(reader: EntityId, writer: EntityId, count: Int32)
    ensures var events := [GapEvent(GAP_OVER_FIVE)];
            var s := Run(events).0;
            && GapEvent(GAP_OVER_FIVE).Decoded() && !Announced(events, 5)
            && 0 <= s.highest <= INT64_MAX && Accepts(MakeAck(reader, writer, s, count), 5)
  {
    hide FillBits;
    var e := GapEvent(GAP_OVER_FIVE);
    var s := State(5, 0, true, {}, {}, map[]);
    assert Absorb(INITIAL, e) == s;
    assert Commit(s) == (s, []);
    assert [e][..0] == [];
    assert Run([]) == (INITIAL, []);
    assert Run([e]).0 == s;
    VerdictExact(reader, writer, s, count, 5);
  }

  /** Nor does an accepted ACKNACK of a reader that does not know the range mean
      anything: after a GAP whose list names 1 and a DATA(2), the writer is told that 2
      arrived while nothing was committed. */
  lemma UnrangedAccepts(reader: EntityId, writer: EntityId, c: CacheChange, count: Int32)
    requires c.sequence == 2
    ensures var events := [GapEvent(GAP_NAMING_ONE), DataEvent(c)];
            var (s, log) := Run(events);
            && GapEvent(GAP_NAMING_ONE).Decoded() && log == [] && !s.ranged
            && s.highest == 0 && Accepts(MakeAck(reader, writer, s, count), 2)
  {
    hide FillBits;
    hide SequenceNumberSet.Contains;
    var e, d := GapEvent(GAP_NAMING_ONE), DataEvent(c);
    NamesOne();
    var s := State(0, 2, false, {2}, {1}, map[2 := c]);
    RunOfTwo(e, d);
    assert Absorb(State(0, 0, false, {}, {1}, map[]), d) == s;
    assert Run([e, d]).0 == s;
    assert forall n :: !Missing(s, n);
    NoRequests(s);
    AckMembers(s);
    assert AckBits(s) == 2;
  }

  lemma NamesOne()
    ensures GapEvent(GAP_NAMING_ONE).Decoded()
    ensures Absorb(INITIAL, GapEvent(GAP_NAMING_ONE)) == State(0, 0, false, {}, {1}, map[])
  {
    hide SequenceNumberSet.Contains;
    hide FillBits;
    var list := GAP_NAMING_ONE.list;
    FillBitsExact(1, 1, {}, list);
    assert 1 in list.Members();
    assert Remembered(GAP_NAMING_ONE) == {};
  }

  lemma RunOfTwo(e: Event, d: Event)
    ensures var (s, log) := Step(INITIAL, e);
            var (t, more) := Step(s, d);
            Run([e, d]) == (t, [] + log + more)
  {
    hide Step;
    assert [e, d][..1] == [e] && [e][..0] == [];
    assert Run([]) == (INITIAL, []);
  }

  // ---- The exact conditions, for every run ----

  /** With GAP, an ACKNACK is accepted for a number that was never announced to its reader
      exactly when the reader knows the range and has gone beyond what was announced; at
      the top of the range the committed number itself is excepted. */
  lemma StaleExact(reader: EntityId, writer: EntityId, events: seq<Event>, count: Int32)
    requires forall e | e in events :: e.Decoded()
    ensures var s := Run(events).0;
            && 0 <= s.highest <= INT64_MAX
            && ((exists n :: n >= 1 && !Announced(events, n) && Accepts(MakeAck(reader, writer, s, count), n)) <==>
                s.ranged && s.announced < if s.highest < INT64_MAX then s.highest else INT64_MAX - 1)
  {
    hide Accepts;
    hide MakeAck;
    hide Announced;
    hide Run;
    RunInvariant(events);
    RunAnnounced(events);
    StaleState(reader, writer, events, Run(events).0, count);
  }

  lemma StaleState(reader: EntityId, writer: EntityId, events: seq<Event>, s: State, count: Int32)
    requires Sound(s) && Settled(s) && forall n | n >= 1 :: Announced(events, n) <==> n <= s.announced
    ensures (exists n :: n >= 1 && !Announced(events, n) && Accepts(MakeAck(reader, writer, s, count), n)) <==>
            s.ranged && s.announced < if s.highest < INT64_MAX then s.highest else INT64_MAX - 1
  {
    hide Accepts;
    hide MakeAck;
    hide Announced;
    forall n | n > s.announced
      ensures Accepts(MakeAck(reader, writer, s, count), n) <==>
              s.ranged && if s.highest < INT64_MAX then n <= s.highest && s.announced <= s.highest else n < INT64_MAX
    {
      if !s.ranged {
        UnrangedExact(reader, writer, s, count, n);
      } else if s.highest < INT64_MAX {
        VerdictExact(reader, writer, s, count, n);
      } else {
        VerdictAtMaximum(reader, writer, s, count, n);
      }
    }
    if s.ranged && s.announced < (if s.highest < INT64_MAX then s.highest else INT64_MAX - 1) {
      var n := s.announced + 1;
      assert n >= 1 && !Announced(events, n) && Accepts(MakeAck(reader, writer, s, count), n);
    }
  }

  lemma FirstPositive(events: seq<Event>)
    requires forall e | e in events :: e.Decoded()
    ensures forall c | First(events, c) :: c.sequence >= 1
  {
    forall c | First(events, c) ensures c.sequence >= 1 {
      assert DataEvent(c) in events;
    }
  }

  /** A reader that does not know the range has committed nothing. The writer takes it to
      acknowledge n all the same exactly when n and the whole window of the ACKNACK arrived
      or was declared irrelevant, which takes a GAP that declared number 1. */
  lemma UnrangedRun(reader: EntityId, writer: EntityId, events: seq<Event>, count: Int32, n: int)
    requires n >= 1 && !Run(events).0.ranged && forall e | e in events :: e.Decoded()
    ensures var (s, log) := Run(events);
            && log == [] && s.highest == 0
            && (Accepts(MakeAck(reader, writer, s, count), n) <==> n <= Min(s.announced, MAX_BITS) && WindowClosed(s))
            && (Accepts(MakeAck(reader, writer, s, count), n) ==> Declared(events, 1))
  {
    hide Accepts;
    hide MakeAck;
    hide Run;
    hide First;
    var (s, log) := Run(events);
    assert log != [] ==> log[0] in log;
    RunInvariant(events);
    FirstPositive(events);
    UnrangedExact(reader, writer, s, count, n);
    if WindowClosed(s) && n <= Min(s.announced, MAX_BITS) {
      assert 1 in s.received || 1 in s.irrelevant;
    }
  }
}
