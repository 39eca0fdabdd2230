/** The participant's demultiplexer as interleaved atomic steps: the receiver thread, which
    takes the mutex of the channel list and then the mutex of each channel in turn,
    endpoints that are created, closed and read from, and stop. */
module Router {
  import opened Types
  import opened Seqs
  import opened Routing
  import opened Incoming

  // ---- The step system ----

  /** `born` is how many datagrams had been routed when the channel was added; `pushed`
      holds what the receiver put in and `taken` what the endpoint took out. */
  datatype Channel = Channel(kind: Kind, id: EntityId, active: bool, failing: bool, queue: seq<Datagram>,
                             born: nat, pushed: seq<Datagram>, taken: seq<Datagram>)

  datatype Receiver =
    | Idle
    | Receiving
    | Routing(d: Datagram)
    | Pushing(left: seq<nat>)
    | CopyingForFail
    | Failing(left: seq<nat>)
    | Gone

  /** Channels are numbered in the order of their creation and never forgotten; `list` is
      the router's vector of them. `routed` holds the datagrams whose target list was
      collected, in order, and `pushes` which of them went into which channel. */
  datatype State = State(channels: seq<Channel>, list: seq<nat>, receiver: Receiver,
                         stopping: bool, failed: bool, closing: seq<nat>,
                         routed: seq<Datagram>, pushes: seq<(nat, nat)>)

  datatype Step =
    | Add(kind: Kind, id: EntityId)
    | Deactivate(c: nat)
    | Erase(c: nat)
    | Loop
    | Arrive(received: Received)
    | Collect
    | Push
    | CopyForFail
    | MarkFailed
    | Take(c: nat)
    | Stop
    | ClearList
    | CloseNext

  predicate Initial(s: State) {
    s == State([], [], Idle, false, false, [], [], [])
  }

  predicate Duplicate(s: State, kind: Kind, id: EntityId) {
    exists i :: 0 <= i < |s.list| && s.list[i] < |s.channels| &&
      s.channels[s.list[i]].active && s.channels[s.list[i]].kind == kind && s.channels[s.list[i]].id == id
  }

  predicate Bounded(list: seq<nat>, n: nat) {
    forall i | 0 <= i < |list| :: list[i] < n
  }

  function Without(list: seq<nat>, c: nat): (r: seq<nat>)
    ensures forall x :: x in r <==> x in list && x != c
    ensures Distinct(list) ==> Distinct(r)
  {
    if list == [] then []
    else
      var last := list[|list| - 1];
      var before := Without(list[..|list| - 1], c);
      assert forall i | 0 <= i < |before| :: before[i] in before;
      if last == c then before else before + [last]
  }

  /** The numbers in `list` of the channels a target concerns. */
  function Targets(channels: seq<Channel>, list: seq<nat>, target: Option<Target>): (r: seq<nat>)
    ensures forall c :: c in r <==> c in list && c < |channels| && Concerns(target, channels[c].kind, channels[c].id)
    ensures Distinct(list) ==> Distinct(r)
  {
    if list == [] then []
    else
      var c := list[|list| - 1];
      var before := Targets(channels, list[..|list| - 1], target);
      if c < |channels| && Concerns(target, channels[c].kind, channels[c].id) then before + [c] else before
  }

  predicate Enabled(s: State, step: Step) {
    match step
    case Add(_, _) => true
    case Deactivate(c) => c < |s.channels|
    case Erase(c) => c < |s.channels| && !s.channels[c].active
    case Loop => s.receiver.Idle?
    case Arrive(_) => s.receiver.Receiving?
    case Collect => s.receiver.Routing?
    case Push => s.receiver.Pushing? && s.routed != [] && (s.receiver.left != [] ==> s.receiver.left[0] < |s.channels|)
    case CopyForFail => s.receiver.CopyingForFail?
    case MarkFailed => s.receiver.Failing? && (s.receiver.left != [] ==> s.receiver.left[0] < |s.channels|)
    case Take(c) => c < |s.channels| && s.channels[c].queue != []
    case Stop => true
    case ClearList => s.stopping && s.receiver.Gone? && s.closing == []
    case CloseNext => s.closing != [] && s.closing[0] < |s.channels|
  }

  function Pushed(c: Channel, d: Datagram): Channel {
    if c.active then c.(queue := c.queue + [d], pushed := c.pushed + [d]) else c
  }

  function Next(s: State, step: Step): State
    requires Enabled(s, step)
  {
    match step
    case Add(kind, id) =>
      if s.stopping || s.failed || Duplicate(s, kind, id) then s
      else
        s.(channels := s.channels + [Channel(kind, id, true, false, [], |s.routed|, [], [])],
           list := s.list + [|s.channels|])
    case Deactivate(c) => s.(channels := s.channels[c := s.channels[c].(active := false, queue := [])])
    case Erase(c) => s.(list := Without(s.list, c))
    case Loop => s.(receiver := if s.stopping then Gone else Receiving)
    case Arrive(received) =>
      if received.Timeout? then s.(receiver := Idle)
      else if received.Failed? then
        if s.stopping then s.(receiver := Gone) else s.(receiver := CopyingForFail, failed := true)
      else if RouteTarget(received.datagram.payload).None? then s.(receiver := Idle)
      else s.(receiver := Routing(received.datagram))
    case Collect =>
      var d := s.receiver.d;
      s.(receiver := Pushing(Targets(s.channels, s.list, RouteTarget(d.payload))), routed := s.routed + [d])
    case Push =>
      if s.receiver.left == [] then s.(receiver := Idle)
      else
        var c, n := s.receiver.left[0], |s.routed| - 1;
        s.(receiver := Pushing(s.receiver.left[1..]),
           channels := s.channels[c := Pushed(s.channels[c], s.routed[n])],
           pushes := s.pushes + if s.channels[c].active then [(n, c)] else [])
    case CopyForFail => s.(receiver := Failing(s.list))
    case MarkFailed =>
      if s.receiver.left == [] then s.(receiver := Gone)
      else
        var c := s.receiver.left[0];
        s.(receiver := Failing(s.receiver.left[1..]), channels := s.channels[c := s.channels[c].(failing := true)])
    case Take(c) =>
      var ch := s.channels[c];
      s.(channels := s.channels[c := ch.(queue := ch.queue[1..], taken := ch.taken + [ch.queue[0]])])
    case Stop => s.(stopping := true)
    case ClearList => s.(closing := s.list, list := [])
    case CloseNext =>
      var c := s.closing[0];
      s.(closing := s.closing[1..], channels := s.channels[c := s.channels[c].(active := false)])
  }

  ghost predicate Execution(states: seq<State>, steps: seq<Step>) {
    && |states| == |steps| + 1 && Initial(states[0])
    && forall i | 0 <= i < |steps| :: Enabled(states[i], steps[i]) && states[i + 1] == Next(states[i], steps[i])
  }

  // ---- The invariant ----

  predicate Left(s: State, c: nat) {
    s.receiver.Pushing? && c in s.receiver.left
  }

  predicate Registered(s: State) {
    && Distinct(s.list) && Bounded(s.list, |s.channels|) && Bounded(s.closing, |s.channels|)
    && (forall c | 0 <= c < |s.channels| && s.channels[c].active :: c in s.list || s.receiver.Gone?)
    && (s.closing != [] ==> s.receiver.Gone?)
    && (s.receiver.Gone? ==> s.stopping || s.failed)
    && (s.receiver.CopyingForFail? || s.receiver.Failing? ==> s.failed)
    && (s.receiver.Pushing? || s.receiver.Failing? ==> Bounded(s.receiver.left, |s.channels|))
  }

  /** No two active channels share kind and id. */
  predicate Unique(s: State) {
    forall b, c | 0 <= b < |s.channels| && 0 <= c < |s.channels| && s.channels[b].active && s.channels[c].active &&
                  s.channels[b].kind == s.channels[c].kind && s.channels[b].id == s.channels[c].id :: b == c
  }

  /** The datagrams of a log that are addressed to an endpoint, in order. */
  function Stream(kind: Kind, id: EntityId, log: seq<Datagram>): seq<Datagram> {
    if log == [] then []
    else
      var n := |log| - 1;
      Stream(kind, id, log[..n]) + if Addressed(kind, id, log[n]) then [log[n]] else []
  }

  function Expected(s: State, c: nat): seq<Datagram>
    requires c < |s.channels|
  {
    var ch := s.channels[c];
    if ch.born <= |s.routed| then Stream(ch.kind, ch.id, s.routed[ch.born..]) else []
  }

  /** An active channel has everything addressed to its endpoint since it was added, but
      for the datagram that is on its way; a closed one has a beginning of that. */
  predicate Fed(s: State, c: nat)
    requires c < |s.channels|
  {
    var ch := s.channels[c];
    && ch.born <= |s.routed|
    && ch.taken + ch.queue <= ch.pushed <= Expected(s, c)
    && (ch.active ==> ch.taken + ch.queue == ch.pushed)
    && (ch.active && !Left(s, c) ==> ch.pushed == Expected(s, c))
    && (ch.active && Left(s, c) ==> s.routed != [] && ch.pushed + [s.routed[|s.routed| - 1]] == Expected(s, c))
  }

  predicate AllFed(s: State) {
    forall c | 0 <= c < |s.channels| :: Fed(s, c)
  }

  predicate Known(d: Datagram) {
    RouteTarget(d.payload).Some? && RouteTarget(d.payload).value.id != UNKNOWN_ENTITY
  }

  /** The channels a datagram went into or may still go into. */
  predicate Reaches(s: State, n: nat, c: nat) {
    (n, c) in s.pushes || (n + 1 == |s.routed| && Left(s, c) && c < |s.channels| && s.channels[c].active)
  }

  ghost predicate Single(s: State) {
    && (forall p | p in s.pushes :: p.0 < |s.routed|)
    && (forall n: nat, b: nat, c: nat |
          n < |s.routed| && Known(s.routed[n]) && Reaches(s, n, b) && Reaches(s, n, c) :: b == c)
  }

  ghost predicate Invariant(s: State) {
    && Registered(s) && Unique(s) && AllFed(s) && Single(s)
    && (s.receiver.Pushing? ==> s.routed != [] && Distinct(s.receiver.left))
  }

  // ---- Each step keeps it ----

  lemma RegisteredKept(s: State, step: Step)
    requires Registered(s) && Enabled(s, step)
    ensures Registered(Next(s, step))
  {
    hide RouteTarget;
    hide Concerns;
    if step.Add? || step.Erase? || step.ClearList? {
      ListKept(s, step);
    } else {
      RestRegistered(s, step);
    }
  }

  lemma ListKept(s: State, step: Step)
    requires Registered(s) && Enabled(s, step) && (step.Add? || step.Erase? || step.ClearList?)
    ensures Registered(Next(s, step))
  {
    hide Duplicate;
    var t := Next(s, step);
    assert forall i | 0 <= i < |t.list| :: t.list[i] in t.list;
  }

  lemma RestRegistered(s: State, step: Step)
    requires Registered(s) && Enabled(s, step) && !step.Add? && !step.Erase? && !step.ClearList?
    ensures Registered(Next(s, step))
  {
    hide RouteTarget;
    hide Concerns;
    hide Distinct;
    if step.Collect? {
      CollectRegistered(s);
    } else {
      var t := Next(s, step);
      assert t.list == s.list && |t.channels| == |s.channels|;
    }
  }

  lemma CollectRegistered(s: State)
    requires Registered(s) && Enabled(s, Collect)
    ensures Registered(Next(s, Collect))
  {
    hide RouteTarget;
    hide Concerns;
    hide Distinct;
    var t := Next(s, Collect);
    var left := t.receiver.left;
    assert t.list == s.list && t.channels == s.channels;
    assert forall i | 0 <= i < |left| :: left[i] in left;
  }

  lemma UniqueKept(s: State, step: Step)
    requires Registered(s) && Unique(s) && Enabled(s, step)
    ensures Unique(Next(s, step))
  {
    hide RouteTarget;
    hide Concerns;
    if step.Add? && !Duplicate(s, step.kind, step.id) {
      forall b | 0 <= b < |s.channels| && s.channels[b].active && !s.stopping && !s.failed
        ensures s.channels[b].kind != step.kind || s.channels[b].id != step.id {
        var i :| 0 <= i < |s.list| && s.list[i] == b;
      }
    }
  }

  lemma StreamSnoc(kind: Kind, id: EntityId, log: seq<Datagram>, d: Datagram)
    ensures Stream(kind, id, log + [d]) == Stream(kind, id, log) + if Addressed(kind, id, d) then [d] else []
  {
    assert (log + [d])[..|log|] == log;
  }

  lemma FedAfterCollect(s: State, c: nat)
    requires Invariant(s) && Enabled(s, Collect) && c < |s.channels|
    ensures Fed(Next(s, Collect), c)
  {
    hide RouteTarget;
    var t, ch := Next(s, Collect), s.channels[c];
    var d := s.receiver.d;
    assert Fed(s, c);
    StreamSnoc(ch.kind, ch.id, s.routed[ch.born..], d);
    assert t.routed[ch.born..] == s.routed[ch.born..] + [d];
  }

  lemma FedAfterPush(s: State, c: nat)
    requires Invariant(s) && Enabled(s, Push) && c < |s.channels|
    ensures Fed(Next(s, Push), c)
  {
    hide Stream;
    hide RouteTarget;
    hide Unique;
    hide Single;
    assert Fed(s, c);
    var left := s.receiver.left;
    if left != [] {
      assert forall b :: b in left <==> b == left[0] || b in left[1..];
      assert left[0] !in left[1..];
    }
  }

  lemma FedAfterAdd(s: State, step: Step, c: nat)
    requires Invariant(s) && step.Add? && c < |Next(s, step).channels|
    ensures Fed(Next(s, step), c)
  {
    hide Stream;
    hide RouteTarget;
    hide Unique;
    hide Single;
    hide Duplicate;
    if c < |s.channels| {
      assert Fed(s, c);
    } else {
      assert s.routed[|s.routed|..] == [];
      EmptyStream(step.kind, step.id);
    }
  }

  predicate TouchesChannel(step: Step) {
    step.Deactivate? || step.Take? || step.MarkFailed? || step.CloseNext?
  }

  lemma FedAfterTouch(s: State, step: Step, c: nat)
    requires Invariant(s) && Enabled(s, step) && TouchesChannel(step) && c < |s.channels|
    ensures Fed(Next(s, step), c)
  {
    hide Next;
    hide Enabled;
    hide Expected;
    hide Registered;
    hide Unique;
    hide Single;
    assert Fed(s, c);
    Touched(s, step, c);
  }

  /** These steps leave the routed datagrams alone; of a channel they take one datagram
      from the front of its queue, clear the queue while closing it, or set a flag. */
  lemma Touched(s: State, step: Step, c: nat)
    requires Enabled(s, step) && TouchesChannel(step) && c < |s.channels|
    ensures var t := Next(s, step);
            && t.routed == s.routed && |t.channels| == |s.channels|
            && (Left(t, c) <==> Left(s, c))
            && Expected(t, c) == Expected(s, c)
            && var was, ch := s.channels[c], t.channels[c];
               && ch.born == was.born && ch.pushed == was.pushed
               && (ch.active ==> was.active)
               && (ch.taken + ch.queue == was.taken + was.queue || (!ch.active && ch.taken + ch.queue == was.taken))
  {
    hide Stream;
  }

  /** The remaining steps leave the channels and the log alone, and nothing is in the
      middle of being pushed after them that was not before. */
  lemma FedAfterRest(s: State, step: Step, c: nat)
    requires Invariant(s) && Enabled(s, step) && !step.Add? && !step.Collect? && !step.Push? && !TouchesChannel(step)
    requires c < |s.channels|
    ensures Next(s, step).channels == s.channels && Fed(Next(s, step), c)
  {
    hide Stream;
    hide RouteTarget;
    hide Unique;
    hide Single;
    hide Registered;
    assert Fed(s, c);
  }

  lemma EmptyStream(kind: Kind, id: EntityId)
    ensures Stream(kind, id, []) == []
  {
  }

  lemma SingleKept(s: State, step: Step)
    requires Invariant(s) && Enabled(s, step)
    ensures Single(Next(s, step))
  {
    hide AllFed;
    hide Expected;
    hide RouteTarget;
    hide Known;
    var t := Next(s, step);
    if step.Collect? {
      SingleAfterCollect(s);
    } else {
      assert t.routed == s.routed;
      forall n: nat, c: nat | n < |t.routed| && Reaches(t, n, c) ensures Reaches(s, n, c) {
        ReachesBack(s, step, n, c);
      }
    }
  }

  lemma ReachesBack(s: State, step: Step, n: nat, c: nat)
    requires Registered(s) && Enabled(s, step) && !step.Collect?
    requires n < |s.routed| && Reaches(Next(s, step), n, c)
    ensures Reaches(s, n, c)
  {
    hide RouteTarget;
    hide Distinct;
  }

  lemma SingleAfterCollect(s: State)
    requires Invariant(s) && Enabled(s, Collect)
    ensures Single(Next(s, Collect))
  {
    hide AllFed;
    hide Expected;
    hide RouteTarget;
    var t := Next(s, Collect);
    var n := |s.routed|;
    assert forall m | 0 <= m < n :: t.routed[m] == s.routed[m];
    forall m: nat, c: nat | Reaches(t, m, c) ensures m == n || Reaches(s, m, c) {
    }
  }

  lemma StepKeeps(s: State, step: Step)
    requires Invariant(s) && Enabled(s, step)
    ensures Invariant(Next(s, step))
  {
    hide Fed;
    hide Expected;
    hide RouteTarget;
    hide Single;
    RegisteredKept(s, step);
    UniqueKept(s, step);
    SingleKept(s, step);
    forall c: nat | c < |Next(s, step).channels| ensures Fed(Next(s, step), c) {
      if step.Collect? { FedAfterCollect(s, c); }
      else if step.Push? { FedAfterPush(s, c); }
      else if step.Add? { FedAfterAdd(s, step, c); }
      else if TouchesChannel(step) { FedAfterTouch(s, step, c); }
      else { FedAfterRest(s, step, c); }
    }
  }

  lemma {:induction false} ExecutionInvariant(states: seq<State>, steps: seq<Step>, i: nat)
    requires Execution(states, steps) && i < |states|
    ensures Invariant(states[i])
  {
    hide Next;
    hide Enabled;
    if i > 0 {
      ExecutionInvariant(states, steps, i - 1);
      StepKeeps(states[i - 1], steps[i - 1]);
    }
  }

  // ---- The theorems ----

  /** In every interleaving, no two active channels share kind and id, whether they are
      still in the list or stop has already taken them out of it. */
  lemma NoDuplicates(states: seq<State>, steps: seq<Step>, i: nat, b: nat, c: nat)
    requires Execution(states, steps) && i < |states|
    requires var s := states[i];
             && b < |s.channels| && c < |s.channels|
             && s.channels[b].active && s.channels[c].active
             && s.channels[b].kind == s.channels[c].kind && s.channels[b].id == s.channels[c].id
    ensures b == c
  {
    hide Next;
    hide Enabled;
    ExecutionInvariant(states, steps, i);
  }

  /** The datagrams the transport handed over during these steps. */
  function HandedOver(steps: seq<Step>): seq<Datagram> {
    if steps == [] then [] else HandedOver(steps[..|steps| - 1]) + Handed(steps[|steps| - 1])
  }

  function Handed(step: Step): seq<Datagram> {
    if step.Arrive? && step.received.Got? then [step.received.datagram] else []
  }

  /** Those of them that are meant for somebody. */
  function Targeted(log: seq<Datagram>): seq<Datagram> {
    if log == [] then [] else Targeted(log[..|log| - 1]) + IfTargeted(log[|log| - 1])
  }

  function IfTargeted(d: Datagram): seq<Datagram> {
    if RouteTarget(d.payload).Some? then [d] else []
  }

  /** What the receiver has taken on so far. */
  function TakenOn(s: State): seq<Datagram> {
    s.routed + if s.receiver.Routing? then [s.receiver.d] else []
  }

  lemma StepTakesOn(s: State, step: Step)
    requires Enabled(s, step)
    ensures TakenOn(Next(s, step)) ==
            TakenOn(s) + if Handed(step) == [] then [] else IfTargeted(Handed(step)[0])
  {
    hide RouteTarget;
    hide Targets;
    hide Without;
    hide Duplicate;
    hide Pushed;
  }

  /** Nothing is lost between the transport and the channels, and nothing added: what was
      routed, and the datagram the receiver is about to route, are the datagrams that came
      in with a target, in order. */
  lemma {:induction false} RoutedExact(states: seq<State>, steps: seq<Step>, i: nat)
    requires Execution(states, steps) && i < |states|
    ensures var s := states[i];
            s.routed + (if s.receiver.Routing? then [s.receiver.d] else []) == Targeted(HandedOver(steps[..i]))
  {
    hide Next;
    hide Enabled;
    hide IfTargeted;
    if i > 0 {
      RoutedExact(states, steps, i - 1);
      var step, before := steps[i - 1], HandedOver(steps[..i - 1]);
      StepTakesOn(states[i - 1], step);
      assert steps[..i][..i - 1] == steps[..i - 1];
      if Handed(step) != [] {
        assert (before + Handed(step))[..|before|] == before;
      } else {
        assert before + [] == before;
      }
    } else {
      assert steps[..0] == [];
    }
  }

  /** For an endpoint it makes no difference whether datagrams without a target are
      counted. */
  lemma {:induction false} StreamOfTargeted(kind: Kind, id: EntityId, log: seq<Datagram>)
    ensures Stream(kind, id, Targeted(log)) == Stream(kind, id, log)
  {
    hide RouteTarget;
    hide Stream;
    if log != [] {
      var before, d := log[..|log| - 1], log[|log| - 1];
      assert log == before + [d];
      StreamOfTargeted(kind, id, before);
      StreamSnoc(kind, id, before, d);
      StreamSnoc(kind, id, Targeted(before), d);
      if IfTargeted(d) == [] {
        assert !Addressed(kind, id, d);
        assert Targeted(before) + [] == Targeted(before);
        assert Stream(kind, id, before) + [] == Stream(kind, id, before);
      }
    }
  }

  /** What an endpoint took is a beginning of everything addressed to it since it was
      added, in arrival order and without a gap; and while its channel is active nothing
      is missing but what waits in the queue and, while the receiver is about to push to
      this channel, the datagram that was routed last. */
  lemma ExactStream(states: seq<State>, steps: seq<Step>, i: nat, c: nat)
    requires Execution(states, steps) && i < |states| && c < |states[i].channels|
    ensures var s := states[i];
            var ch := s.channels[c];
            && ch.born <= |s.routed|
            && (Left(s, c) ==> s.routed != [])
            && ch.taken <= Stream(ch.kind, ch.id, s.routed[ch.born..])
            && (ch.active ==>
                  Stream(ch.kind, ch.id, s.routed[ch.born..]) ==
                  ch.taken + ch.queue + if Left(s, c) then [s.routed[|s.routed| - 1]] else [])
  {
    hide Next;
    hide Enabled;
    hide Stream;
    ExecutionInvariant(states, steps, i);
    assert Fed(states[i], c);
  }

  /** A failure of the transport is told to every open channel: those the receiver has still
      to tell are the ones left. */
  predicate Alarmed(s: State) {
    && (s.failed ==> s.receiver.CopyingForFail? || s.receiver.Failing? || s.receiver.Gone?)
    && (s.failed && !s.receiver.CopyingForFail? ==>
          forall c | 0 <= c < |s.channels| && s.channels[c].active ::
            s.channels[c].failing || (s.receiver.Failing? && c in s.receiver.left))
  }

  lemma AlarmedKept(s: State, step: Step)
    requires Registered(s) && Alarmed(s) && Enabled(s, step)
    ensures Alarmed(Next(s, step))
  {
    hide RouteTarget;
    hide Targets;
    hide Without;
    hide Duplicate;
    hide Distinct;
    if step.MarkFailed? && s.receiver.left != [] {
      var left := s.receiver.left;
      assert forall c :: c in left <==> c == left[0] || c in left[1..];
    }
  }

  /** Once the receiver has ended because the transport failed, every channel that is still
      open reports the failure, after what is left in its queue. */
  lemma {:induction false} FailureTold(states: seq<State>, steps: seq<Step>, i: nat)
    requires Execution(states, steps) && i < |states|
    ensures Alarmed(states[i])
    ensures var s := states[i];
            s.failed && s.receiver.Gone? ==>
              forall c | 0 <= c < |s.channels| && s.channels[c].active :: s.channels[c].failing
  {
    hide Next;
    hide Enabled;
    hide Unique;
    hide AllFed;
    hide Single;
    if i > 0 {
      FailureTold(states, steps, i - 1);
      ExecutionInvariant(states, steps, i - 1);
      AlarmedKept(states[i - 1], steps[i - 1]);
    }
  }

  /** A datagram whose target id is known goes into at most one channel. */
  lemma OneChannel(states: seq<State>, steps: seq<Step>, i: nat, n: nat, b: nat, c: nat)
    requires Execution(states, steps) && i < |states|
    requires var s := states[i];
             n < |s.routed| && Known(s.routed[n]) && (n, b) in s.pushes && (n, c) in s.pushes
    ensures b == c
  {
    hide Next;
    hide Enabled;
    ExecutionInvariant(states, steps, i);
    assert Reaches(states[i], n, b) && Reaches(states[i], n, c);
  }

  /** Everything an endpoint of kind reader finds in its channel passes the reader's own
      checks. */
  lemma ReaderChannelAccepted(states: seq<State>, steps: seq<Step>, i: nat, c: nat, d: Datagram)
    requires Execution(states, steps) && i < |states| && c < |states[i].channels|
    requires states[i].channels[c].kind == Reader && d in states[i].channels[c].taken + states[i].channels[c].queue
    ensures Parse(states[i].channels[c].id, d.payload).Accepted?
  {
    hide Next;
    hide Enabled;
    hide Addressed;
    ExecutionInvariant(states, steps, i);
    var s, ch := states[i], states[i].channels[c];
    assert Fed(s, c);
    assert d in Expected(s, c);
    StreamAddressed(ch.kind, ch.id, s.routed[ch.born..], d);
    ReaderAgrees(ch.id, d);
  }

  lemma {:induction false} StreamAddressed(kind: Kind, id: EntityId, log: seq<Datagram>, d: Datagram)
    ensures d in Stream(kind, id, log) <==> d in log && Addressed(kind, id, d)
  {
    if log != [] {
      StreamAddressed(kind, id, log[..|log| - 1], d);
      assert log == log[..|log| - 1] + [log[|log| - 1]];
    }
  }
}
