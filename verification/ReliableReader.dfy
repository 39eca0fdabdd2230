/** The reliable reader as the code has it: one mutable record per writer, loops over its
    containers, and a history the committed changes go to. */
module ReliableReader {
  import opened Types
  import opened Cdr
  import opened Message
  import opened SequenceSet
  import opened Reliability
  import opened Reception
  import opened ReaderRuns
  import opened Acks
  import opened History
  import opened Incoming
  import ReliabilityCodec

  // ---- The record of one writer ----

  class WriterState {
    const guid: Guid
    var endpoint: Endpoint
    var highest: int
    var announced: int
    var ranged: bool
    var received: set<int>
    var irrelevant: set<int>
    var pending: map<int, CacheChange>

    ghost function Abs(): State
      reads this
    {
      State(highest, announced, ranged, received, irrelevant, pending)
    }

    constructor (writer: Guid, source: Endpoint)
      ensures guid == writer && endpoint == source && Abs() == INITIAL
    {
      guid, endpoint := writer, source;
      highest, announced, ranged, received, irrelevant, pending := 0, 0, false, {}, {}, map[];
    }

    method AbsorbData(c: CacheChange)
      modifies this
      ensures Abs() == Store(old(Abs()), c) && endpoint == old(endpoint)
    {
      if !ranged && c.sequence == 1 {
        ranged := true;
      }
      announced := Max(announced, c.sequence);
      if c.sequence > highest && c.sequence !in received {
        received := received + {c.sequence};
        pending := pending[c.sequence := c];
      }
    }

    /** The erase loop over the keys below `bound`. */
    method EraseBelow(bound: int)
      modifies this
      ensures Abs() == Prune(old(Abs()), bound) && endpoint == old(endpoint)
    {
      ghost var s := Abs();
      var below := set n | n in pending && n < bound;
      while below != {}
        invariant below <= set n | n in s.pending && n < bound
        invariant received == s.received - ((set n | n in s.pending && n < bound) - below)
        invariant pending == map n | n in s.pending && (n >= bound || n in below) :: s.pending[n]
        invariant Abs() == s.(received := received, pending := pending) && endpoint == old(endpoint)
        decreases below
      {
        var n :| n in below;
        received := received - {n};
        pending := pending - {n};
        below := below - {n};
      }
    }

    method AbsorbHeartbeat(first: int, last: int)
      modifies this
      ensures Abs() == Announce(old(Abs()), first, last) && endpoint == old(endpoint)
      ensures ranged && announced == Max(old(announced), last)
      ensures highest == if old(ranged) then Max(old(highest), first - 1) else first - 1
      ensures forall n | n > highest ::
                (n in pending <==> n in old(pending)) && (n in old(pending) ==> pending[n] == old(pending)[n])
    {
      if !ranged {
        highest := first - 1;
        ranged := true;
      } else if first > highest + 1 {
        EraseBelow(first);
        highest := first - 1;
      }
      announced := Max(announced, last);
    }

    method AbsorbGap(g: Gap)
      requires g.Encodable()
      modifies this
      ensures Abs() == Exclude(old(Abs()), g) && endpoint == old(endpoint)
    {
      var gapEnd := g.list.base - 1;
      if g.start <= highest + 1 && gapEnd >= highest + 1 {
        EraseBelow(gapEnd + 1);
        highest := gapEnd;
        ranged := true;
      } else {
        RememberRange(g);
      }
      RememberList(g.list);
    }

    method RememberRange(g: Gap)
      requires g.Encodable()
      modifies this`irrelevant
      ensures irrelevant == old(irrelevant) + Remembered(g)
    {
      var end := RememberedEnd(g);
      var n := g.start;
      while n <= end
        invariant g.start <= n
        invariant irrelevant == old(irrelevant) + set m: int | g.start <= m <= end && m < n && Between(g.start, m, end)
        decreases end + 1 - n
      {
        assert Between(g.start, n, end);
        irrelevant := irrelevant + {n};
        n := n + 1;
      }
    }

    method RememberList(list: SequenceNumberSet)
      modifies this`irrelevant
      ensures irrelevant == old(irrelevant) + set n: int | list.base <= n < list.base + list.numBits && list.Contains(n)
    {
      hide SequenceNumberSet.Contains;
      for offset := 0 to list.numBits
        invariant irrelevant == old(irrelevant) + set n: int | list.base <= n < list.base + offset && list.Contains(n)
      {
        var n := list.base + offset;
        if list.Contains(n) {
          irrelevant := irrelevant + {n};
        }
      }
    }
  }

  // ---- Facts for the commit loop ----

  lemma {:induction false} SliceSnoc(s: State, j: int, k: int)
    requires j <= k
    ensures Slice(s, j, k + 1) == Slice(s, j, k) + Head(s, k)
    decreases k - j
  {
    if j < k {
      SliceSnoc(s, j + 1, k);
      assert Slice(s, j, k) + Head(s, k) == Head(s, j) + (Slice(s, j + 1, k) + Head(s, k));
    } else {
      assert Slice(s, j, k) == [] && Slice(s, k + 1, k + 1) == [];
    }
  }

  lemma CommitIsFrontier(s: State, k: int)
    requires s.highest <= INT64_MAX && Frontier(s, k)
    ensures Commit(s) == (Beyond(s, k), Slice(s, s.highest, k))
  {
    hide Commit;
    hide Slice;
    CommitSpec(s);
    OneFrontier(s, k, Commit(s).0.highest);
  }

  /** The changes of one writer in a log of several. */
  function OfWriter(log: seq<CacheChange>, w: Guid): seq<CacheChange> {
    if log == [] then []
    else OfWriter(log[..|log| - 1], w) + if log[|log| - 1].writer == w then [log[|log| - 1]] else []
  }

  lemma {:induction false} OfWriterAppend(log: seq<CacheChange>, more: seq<CacheChange>, w: Guid)
    ensures (forall c | c in more :: c.writer == w) ==> OfWriter(log + more, w) == OfWriter(log, w) + more
    ensures (forall c | c in more :: c.writer != w) ==> OfWriter(log + more, w) == OfWriter(log, w)
    decreases |more|
  {
    if more == [] {
      assert log + more == log;
    } else {
      var front, c := more[..|more| - 1], more[|more| - 1];
      OfWriterAppend(log, front, w);
      assert (log + more)[..|log + more| - 1] == log + front;
      assert more == front + [c] && c in more;
    }
  }

  lemma {:induction false} OfWriterMember(log: seq<CacheChange>, c: CacheChange)
    requires c in log
    ensures c in OfWriter(log, c.writer)
  {
    if c != log[|log| - 1] {
      OfWriterMember(log[..|log| - 1], c);
    }
  }

  /** What one writer's submessages committed, as changes of that writer. */
  lemma CommittedAreGenuine(w: Guid, events: seq<Event>, e: Event)
    requires Genuine(w, e) && forall f | f in events :: Genuine(w, f)
    ensures forall c | c in Run(events + [e]).1 :: c.writer == w
    ensures forall c | c in Step(Run(events).0, e).1 :: c.writer == w
  {
    hide Step;
    hide Invariant;
    CommitsInOrder(events + [e]);
    assert (events + [e])[..|events|] == events;
    forall c | c in Run(events + [e]).1 ensures c.writer == w {
      assert First(events + [e], c);
      assert DataEvent(c) in events + [e];
    }
  }

  /** Each state is the outcome of everything heard from its writer, and the accepted log
      is, writer by writer, what those runs committed. */
  ghost predicate Consistent(heard: map<Guid, seq<Event>>, states: map<Guid, State>, accepted: seq<CacheChange>) {
    && heard.Keys == states.Keys
    && (forall g | g in heard :: states[g] == Run(heard[g]).0 && OfWriter(accepted, g) == Run(heard[g]).1)
    && (forall g | g in heard :: forall e | e in heard[g] :: Genuine(g, e))
    && (forall c | c in accepted :: c.writer in heard)
  }

  /** Nothing accepted is ahead of its writer's state. */
  lemma NothingAhead(heard: map<Guid, seq<Event>>, states: map<Guid, State>, accepted: seq<CacheChange>, g: Guid)
    requires Consistent(heard, states, accepted) && g in heard
    ensures Sound(states[g]) && Settled(states[g])
    ensures forall n | n in states[g].pending :: states[g].pending[n].writer == g
    ensures forall c | c in accepted && c.writer == g :: c.sequence <= states[g].highest
  {
    RunInvariant(heard[g]);
    forall n | n in states[g].pending ensures states[g].pending[n].writer == g {
      assert First(heard[g], states[g].pending[n]);
      assert DataEvent(states[g].pending[n]) in heard[g];
    }
    forall c | c in accepted && c.writer == g ensures c.sequence <= states[g].highest {
      OfWriterMember(accepted, c);
    }
  }

  lemma HearNew(heard: map<Guid, seq<Event>>, states: map<Guid, State>, accepted: seq<CacheChange>, g: Guid)
    requires Consistent(heard, states, accepted) && g !in heard
    ensures Consistent(heard[g := []], states[g := INITIAL], accepted)
  {
    hide Run;
    RunOfNothing();
    NothingOfStranger(accepted, g);
  }

  lemma {:induction false} NothingOfStranger(log: seq<CacheChange>, g: Guid)
    requires forall c | c in log :: c.writer != g
    ensures OfWriter(log, g) == []
  {
    if log != [] {
      NothingOfStranger(log[..|log| - 1], g);
    }
  }

  lemma RunOfNothing()
    ensures Run([]) == (INITIAL, [])
  {
  }

  lemma HearMore(heard: map<Guid, seq<Event>>, states: map<Guid, State>, accepted: seq<CacheChange>, g: Guid, e: Event)
    requires Consistent(heard, states, accepted) && g in heard && Genuine(g, e)
    ensures var (t, more) := Step(states[g], e);
            Consistent(heard[g := heard[g] + [e]], states[g := t], accepted + more)
  {
    hide Step;
    hide OfWriter;
    var events := heard[g];
    var (t, more) := Step(states[g], e);
    RunOneMore(events, e);
    CommittedAreGenuine(g, events, e);
    hide Run;
    OfWriterAppend(accepted, more, g);
    forall h | h in heard && h != g ensures OfWriter(accepted + more, h) == Run(heard[h]).1 {
      OfWriterAppend(accepted, more, h);
    }
    forall c | c in accepted + more ensures c.writer in heard {
      assert c in accepted || c in more;
    }
  }

  lemma RunOneMore(events: seq<Event>, e: Event)
    ensures Run(events + [e]) == (Step(Run(events).0, e).0, Run(events).1 + Step(Run(events).0, e).1)
  {
    hide Step;
    assert (events + [e])[..|events|] == events;
  }

  lemma AbsorbGenuine(g: Guid, s: State, e: Event)
    requires Sound(s) && Genuine(g, e) && forall n | n in s.pending :: s.pending[n].writer == g
    ensures var t := Absorb(s, e);
            Sound(t) && t.highest >= s.highest && forall n | n in t.pending :: t.pending[n].writer == g
  {
    AbsorbSound(s, e);
  }

  /** What is known of a writer, and was heard from it: the initial record, and nothing, if
      it is new. */
  function StateOf(states: map<Guid, State>, g: Guid): State {
    if g in states then states[g] else INITIAL
  }

  function HeardOf(heard: map<Guid, seq<Event>>, g: Guid): seq<Event> {
    if g in heard then heard[g] else []
  }

  lemma UpdateTwice<K, V>(m: map<K, V>, k: K, v: V, w: V)
    ensures m[k := v][k := w] == m[k := w]
  {
  }

  datatype Status = Sample | TimedOut | Ignored | Error

  /** The vector of records with its search by guid is a map here. */
  class ReliableReader {
    const id: EntityId
    const header: MessageHeader
    const history: ReaderHistory
    var writers: map<Guid, WriterState>
    var acknackCount: Int32
    ghost var heard: map<Guid, seq<Event>>

    ghost function States(): map<Guid, State>
      reads this`writers, writers.Values
    {
      map g | g in writers :: writers[g].Abs()
    }

    /** Where the replies to each writer go. */
    ghost function Endpoints(): map<Guid, Endpoint>
      reads this`writers, writers.Values
    {
      map g | g in writers :: writers[g].endpoint
    }

    ghost predicate Valid()
      reads this, history, writers.Values
    {
      && history.Valid()
      && acknackCount >= 0
      && (forall g | g in writers :: writers[g].guid == g)
      && Consistent(heard, States(), history.accepted)
    }

    constructor (id: EntityId, prefix: GuidPrefix, depth: nat)
      ensures Valid() && this.id == id && heard == map[] && history.accepted == []
      ensures header == MessageHeader(2, 3, [0, 0], prefix)
    {
      this.id := id;
      header := MessageHeader(2, 3, [0, 0], prefix);
      history := new ReaderHistory(depth);
      writers, acknackCount, heard := map[], 0, map[];
    }

    /** The record of a writer, made when it is first heard. */
    method FindWriter(guid: Guid, source: Endpoint) returns (w: WriterState)
      requires Valid()
      modifies this`writers, this`heard, writers.Values
      ensures Valid() && guid in writers && writers[guid] == w && w.endpoint == source
      ensures heard == old(heard)[guid := HeardOf(old(heard), guid)]
      ensures States() == old(States())[guid := StateOf(old(States()), guid)]
      ensures Endpoints() == old(Endpoints())[guid := source]
      ensures w in old(writers).Values || fresh(w)
      ensures writers == old(writers)[guid := w]
    {
      hide Consistent;
      hide ReaderHistory.Valid;
      SameKeys();
      if guid in writers {
        w := writers[guid];
        w.endpoint := source;
        assert States() == old(States());
        assert Endpoints() == old(Endpoints())[guid := source];
      } else {
        w := AddWriter(guid, source);
      }
    }

    method AddWriter(guid: Guid, source: Endpoint) returns (w: WriterState)
      requires Valid() && guid !in writers
      modifies this`writers, this`heard
      ensures Valid() && fresh(w) && w.endpoint == source && w.guid == guid
      ensures heard == old(heard)[guid := []] && writers == old(writers)[guid := w]
      ensures States() == old(States())[guid := INITIAL] && Endpoints() == old(Endpoints())[guid := source]
    {
      hide Consistent;
      hide ReaderHistory.Valid;
      SameKeys();
      HearNew(heard, States(), history.accepted, guid);
      w := new WriterState(guid, source);
      writers := writers[guid := w];
      heard := heard[guid := []];
      assert States() == old(States())[guid := INITIAL];
      assert Endpoints() == old(Endpoints())[guid := source];
    }

    lemma SoundStates(g: Guid)
      requires Valid() && g in writers
      ensures Sound(writers[g].Abs())
    {
      NothingAhead(heard, States(), history.accepted, g);
    }

    lemma SameKeys()
      requires Consistent(heard, States(), history.accepted)
      ensures heard.Keys == States().Keys
    {
    }

    /** commit_contiguous: the loop over the containers. No change it hands to the history
        is a duplicate there, so the returned count is the number added. */
    method CommitContiguous(w: WriterState) returns (committed: nat)
      requires history.Valid() && Filed(w.Abs()) && w.highest <= INT64_MAX
      requires forall n | n in w.pending :: w.pending[n].writer == w.guid
      requires forall c | c in history.accepted && c.writer == w.guid :: c.sequence <= w.highest
      modifies w, history
      ensures history.Valid() && w.endpoint == old(w.endpoint)
      ensures w.Abs() == Commit(old(w.Abs())).0
      ensures history.accepted == old(history.accepted) + Commit(old(w.Abs())).1
      ensures committed == |Commit(old(w.Abs())).1|
    {
      hide Commit;
      hide Slice;
      hide ReaderHistory.Valid;
      ghost var s := w.Abs();
      ghost var before := history.accepted;
      committed := 0;
      assert Beyond(s, s.highest) == s;
      assert Slice(s, s.highest, s.highest) == [] by { SliceEmpty(s); }
      assert before + [] == before;
      while w.highest < INT64_MAX && (w.highest + 1 in w.irrelevant || w.highest + 1 in w.pending)
        invariant history.Valid() && w.endpoint == old(w.endpoint)
        invariant Reaches(s, w.highest) && w.highest <= INT64_MAX && w.Abs() == Beyond(s, w.highest)
        invariant history.accepted == before + Slice(s, s.highest, w.highest)
        invariant committed == |Slice(s, s.highest, w.highest)|
        invariant forall c | c in history.accepted && c.writer == w.guid :: c.sequence <= w.highest
        decreases INT64_MAX - w.highest
      {
        var next := w.highest + 1;
        SliceSnoc(s, s.highest, w.highest);
        BeyondNext(s, w.highest);
        if next in w.irrelevant {
          w.irrelevant := w.irrelevant - {next};
        } else {
          Append(w, next);
          committed := committed + 1;
        }
        w.pending := w.pending - {next};
        w.received := w.received - {next};
        w.highest := next;
      }
      CommitIsFrontier(s, w.highest);
    }

    lemma SliceEmpty(s: State)
      ensures Slice(s, s.highest, s.highest) == []
    {
    }

    method Append(w: WriterState, next: int)
      requires history.Valid() && next in w.pending
      requires w.pending[next].writer == w.guid && w.pending[next].sequence == next
      requires forall c | c in history.accepted && c.writer == w.guid :: c.sequence < next
      modifies history
      ensures history.Valid() && history.accepted == old(history.accepted) + [w.pending[next]]
    {
      assert forall i | 0 <= i < |history.changes| :: history.changes[i] in history.accepted;
      var added := history.Add(w.pending[next]);
      assert added;
    }

    /** send_acknack up to the hand-over to the transport: the bitmap loop, the final
        flag and the encoding, which never fails. What goes out asks for exactly the
        numbers the record lacks up to the last one it knows of. */
    method BuildAckNack(w: WriterState, writer: EntityId) returns (bytes: Bytes, ghost k: int)
      requires Sound(w.Abs()) && acknackCount >= 0
      modifies this`acknackCount
      ensures acknackCount == (if old(acknackCount) == INT32_MAX then 0 else old(acknackCount)) + 1
      ensures EncodeAckNack(MakeAck(id, writer, w.Abs(), acknackCount), Little).Some?
      ensures bytes == EncodeMessageHeader(header) +
                EncodeAckNack(MakeAck(id, writer, w.Abs(), acknackCount), Little).value
      ensures KnowsUpTo(w.Abs(), k)
      ensures |bytes| >= MESSAGE_HEADER_SIZE && Asking(w.Abs(), k, bytes[MESSAGE_HEADER_SIZE..])
    {
      hide FillBits;
      hide EncodeAckNack;
      hide DecodeAckNack;
      hide AsksFor;
      hide SequenceNumberSet.Contains;
      if acknackCount == INT32_MAX {
        acknackCount := 0;
      }
      acknackCount := acknackCount + 1;
      ghost var s := w.Abs();
      var base := if w.highest == INT64_MAX then w.highest else w.highest + 1;
      var lastKnown := FindLastKnown(w);
      k := lastKnown;
      assert lastKnown == LastKnown(s);
      var numBits: nat := 0;
      if lastKnown >= base {
        numBits := Min(lastKnown - base + 1, MAX_BITS);
      }
      var bitmap := FillBitmap(w, base, numBits);
      var ack := AckNack(id, writer, SequenceNumberSet(base, numBits, bitmap), acknackCount, !AnyBit(bitmap));
      assert ack == MakeAck(id, writer, s, acknackCount);
      AckExact(id, writer, s, acknackCount, k, Little, []);
      var ok, encoded := ReliabilityCodec.EncodeAckNackSubmessage(ack, Little);
      bytes := EncodeMessageHeader(header) + encoded;
      assert bytes[MESSAGE_HEADER_SIZE..] == encoded == encoded + [];
    }

    /** The body decodes to this reader's request. */
    ghost predicate Asking(s: State, k: int, body: Bytes)
      reads this
    {
      var ack := DecodeAckNack(body);
      && ack.Some? && ack.value.reader == id && ack.value.count == acknackCount && AsksFor(s, k, ack.value)
      && (ack.value.final <==> forall n :: !ack.value.state.Contains(n))
    }

    method FindLastKnown(w: WriterState) returns (k: int)
      requires Sound(w.Abs())
      ensures KnowsUpTo(w.Abs(), k) && k <= INT64_MAX
    {
      k := w.announced;
      if n :| n in w.pending {
        ghost var m := HasLargest(w.pending.Keys, n);
        assert Largest(m, w.pending.Keys);
        var last :| last in w.pending && forall l | l in w.pending :: l <= last;
        k := Max(k, last);
      }
    }

    method FillBitmap(w: WriterState, base: int, numBits: nat) returns (bitmap: seq<UInt32>)
      ensures bitmap == FillBits(RequiredWords(numBits), base, w.received + w.irrelevant, numBits)
    {
      bitmap := seq(RequiredWords(numBits), _ => 0);
      for offset := 0 to numBits
        invariant bitmap == FillBits(RequiredWords(numBits), base, w.received + w.irrelevant, offset)
      {
        var n := base + offset;
        if !(n in w.received || n in w.irrelevant) {
          bitmap := bitmap[offset / 32 := SetBit(bitmap[offset / 32], 31 - offset % 32)];
        }
      }
    }

    /** The body of receive_once for an accepted submessage. */
    method Process(w: WriterState, e: Event) returns (committed: nat)
      requires Valid() && w.guid in writers && writers[w.guid] == w && Genuine(w.guid, e)
      modifies this`heard, w, history
      ensures Valid() && w.endpoint == old(w.endpoint) && Endpoints() == old(Endpoints())
      ensures var (t, more) := Step(old(States())[w.guid], e);
              && heard == old(heard)[w.guid := old(heard)[w.guid] + [e]]
              && States() == old(States())[w.guid := t]
              && history.accepted == old(history.accepted) + more
              && committed == |more|
    {
      hide Consistent;
      hide Step;
      hide ReaderHistory.Valid;
      SameKeys();
      NothingAhead(heard, States(), history.accepted, w.guid);
      HearMore(heard, States(), history.accepted, w.guid, e);
      committed := AbsorbAndCommit(w, e);
      heard := heard[w.guid := heard[w.guid] + [e]];
      OneRecord(w);
    }

    /** Only the record of w changed, and not its endpoint. */
    twostate lemma OneRecord(w: WriterState)
      requires writers == old(writers) && w.guid in writers && writers[w.guid] == w && w.endpoint == old(w.endpoint)
      requires forall g | g in writers && g != w.guid :: unchanged(writers[g])
      ensures States() == old(States())[w.guid := w.Abs()] && Endpoints() == old(Endpoints())
    {
    }

    method AbsorbAndCommit(w: WriterState, e: Event) returns (committed: nat)
      requires history.Valid() && Sound(w.Abs()) && Genuine(w.guid, e)
      requires forall n | n in w.pending :: w.pending[n].writer == w.guid
      requires forall c | c in history.accepted && c.writer == w.guid :: c.sequence <= w.highest
      modifies w, history
      ensures history.Valid() && w.endpoint == old(w.endpoint)
      ensures var (t, more) := Step(old(w.Abs()), e);
              w.Abs() == t && history.accepted == old(history.accepted) + more && committed == |more|
    {
      hide Commit;
      hide Absorb;
      hide ReaderHistory.Valid;
      ghost var s := w.Abs();
      AbsorbGenuine(w.guid, s, e);
      AbsorbInPlace(w, e);
      committed := 0;
      if w.ranged {
        committed := CommitContiguous(w);
      } else {
        assert history.accepted == history.accepted + [];
      }
    }

    method AbsorbInPlace(w: WriterState, e: Event)
      requires e.Decoded()
      modifies w
      ensures w.Abs() == Absorb(old(w.Abs()), e) && w.endpoint == old(w.endpoint)
    {
      match e {
        case DataEvent(c) => w.AbsorbData(c);
        case HeartbeatEvent(first, last) => w.AbsorbHeartbeat(first, last);
        case GapEvent(g) => w.AbsorbGap(g);
      }
    }

    /** receive_once: `received` is what the transport hands over, `sendOk` whether it
        takes the reply. An accepted submessage changes the record of its writer alone,
        its commits go to the history, and the reply is that record's ACKNACK; anything
        else changes nothing. */
    method ReceiveOnce(received: Received, sendOk: bool) returns (status: Status, reply: Option<(Bytes, Endpoint)>)
      requires Valid()
      modifies this`writers, this`heard, this`acknackCount, writers.Values, history
      ensures Valid()
      ensures match Meaning(received)
              case Accepted(g, e) =>
                var (t, committed) := Step(StateOf(old(States()), g), e);
                && heard == old(heard)[g := HeardOf(old(heard), g) + [e]]
                && States() == old(States())[g := t] && Endpoints() == old(Endpoints())[g := received.datagram.source]
                && history.accepted == old(history.accepted) + committed
                && 0 <= t.highest <= INT64_MAX && acknackCount > 0
                && reply == Some((AckBytes(g.entity, t), received.datagram.source))
                && status == (if !sendOk then Error else if committed == [] then Ignored else Sample)
              case _ =>
                && heard == old(heard) && States() == old(States()) && Endpoints() == old(Endpoints())
                && history.accepted == old(history.accepted)
                && reply == None
                && status == (if received.Timeout? then TimedOut
                              else if received.Failed? || Meaning(received).Malformed? then Error else Ignored)
    {
      hide Parse;
      hide Step;
      hide Consistent;
      hide ReaderHistory.Valid;
      if received.Timeout? {
        return TimedOut, None;
      }
      if received.Failed? {
        return Error, None;
      }
      var incoming := Parse(id, received.datagram.payload);
      if incoming.Malformed? {
        return Error, None;
      }
      if !incoming.Accepted? {
        return Ignored, None;
      }
      ParsedIsGenuine(id, received.datagram.payload);
      status, reply := Accept(incoming.writer, incoming.event, received.datagram.source, sendOk);
    }

    /** Hands out the oldest committed change; what was heard and committed stays. */
    method Take() returns (r: Option<CacheChange>)
      requires Valid()
      modifies history
      ensures Valid() && States() == old(States()) && history.accepted == old(history.accepted)
      ensures r.Some? ==> history.taken == old(history.taken) + [r.value]
    {
      hide Consistent;
      hide ReaderHistory.Valid;
      ghost var states := States();
      r := history.Take();
      assert States() == states;
    }

    function Meaning(received: Received): Incoming {
      if received.Got? then Parse(id, received.datagram.payload) else Ignorable
    }

    method Accept(g: Guid, e: Event, source: Endpoint, sendOk: bool)
      returns (status: Status, reply: Option<(Bytes, Endpoint)>)
      requires Valid() && Genuine(g, e)
      modifies this`writers, this`heard, this`acknackCount, writers.Values, history
      ensures Valid()
      ensures var (t, committed) := Step(StateOf(old(States()), g), e);
              && heard == old(heard)[g := HeardOf(old(heard), g) + [e]]
              && States() == old(States())[g := t] && Endpoints() == old(Endpoints())[g := source]
              && history.accepted == old(history.accepted) + committed
              && 0 <= t.highest <= INT64_MAX && acknackCount > 0
              && reply == Some((AckBytes(g.entity, t), source))
              && status == (if !sendOk then Error else if committed == [] then Ignored else Sample)
    {
      hide Step;
      hide Consistent;
      hide ReaderHistory.Valid;
      hide MakeAck;
      hide EncodeAckNack;
      var w, committed := Hear(g, e, source);
      ghost var states := States();
      assert states[g] == w.Abs();
      var bytes := Reply(w);
      reply := Some((bytes, w.endpoint));
      status := if !sendOk then Error else if committed == 0 then Ignored else Sample;
    }

    /** The ACKNACK of a record, as it goes out. */
    method Reply(w: WriterState) returns (bytes: Bytes)
      requires Valid() && w.guid in writers && writers[w.guid] == w
      modifies this`acknackCount
      ensures Valid() && acknackCount > 0 && 0 <= w.highest <= INT64_MAX
      ensures bytes == AckBytes(w.guid.entity, w.Abs())
    {
      hide Consistent;
      hide ReaderHistory.Valid;
      hide MakeAck;
      hide EncodeAckNack;
      hide ReliableReader.Asking;
      hide KnowsUpTo;
      SoundStates(w.guid);
      ghost var k;
      bytes, k := BuildAckNack(w, w.guid.entity);
    }

    method Hear(g: Guid, e: Event, source: Endpoint) returns (w: WriterState, committed: nat)
      requires Valid() && Genuine(g, e)
      modifies this`writers, this`heard, writers.Values, history
      ensures Valid() && g in writers && writers[g] == w && w.endpoint == source
      ensures var (t, more) := Step(StateOf(old(States()), g), e);
              && heard == old(heard)[g := HeardOf(old(heard), g) + [e]]
              && States() == old(States())[g := t] && Endpoints() == old(Endpoints())[g := source]
              && history.accepted == old(history.accepted) + more
              && committed == |more|
    {
      hide Step;
      hide Consistent;
      hide ReaderHistory.Valid;
      ghost var heardBefore, states := heard, States();
      w := FindWriter(g, source);
      hide ReliableReader.Valid;
      hide ReliableReader.States;
      hide ReliableReader.Endpoints;
      committed := Process(w, e);
      UpdateTwice(states, g, StateOf(states, g), Step(StateOf(states, g), e).0);
      UpdateTwice(heardBefore, g, HeardOf(heardBefore, g), HeardOf(heardBefore, g) + [e]);
    }

    ghost function AckBytes(writer: EntityId, s: State): Bytes
      requires 0 <= s.highest <= INT64_MAX
      reads this
    {
      EncodeMessageHeader(header) + EncodeAckNack(MakeAck(id, writer, s, acknackCount), Little).GetOr([])
    }
  }
}
