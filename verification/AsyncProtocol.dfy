/** The asynchronous queue on top of the reliable protocol: taking a change from the queue
    begins its delivery, and the delivery's result is the protocol's. */
module AsyncProtocol {
  import opened Types
  import opened AckMatching
  import Q = AsyncQueue
  import P = Protocol

  datatype Joint = Joint(queue: Q.State, world: P.World)

  /** A step of the queue, or of deliver_change, a reader and the network meanwhile. */
  datatype Step = Queue(queue: Q.Step) | Network(network: P.Step)

  ghost predicate Initial(j: Joint) {
    Q.Initial(j.queue) && P.Initial(j.world) && j.world.guid == j.queue.guid
  }

  /** What a step of the queue is in the protocol. */
  function Effect(s: Q.State, step: Q.Step): Option<P.Step> {
    match step
    case Pop => if s.pending == [] then None else Some(P.Write(s.pending[0].change.payload, s.pending[0].readers))
    case Deliver(ok) => Some(if ok then P.Confirm else P.GiveUp)
    case _ => None
  }

  ghost predicate Enabled(j: Joint, step: Step) {
    match step
    case Queue(q) =>
      Q.Enabled(j.queue, q) && (Effect(j.queue, q).Some? ==> P.Enabled(j.world, Effect(j.queue, q).value))
    case Network(p) => (p.SendData? || p.SendHeartbeat? || p.Receive?) && P.Enabled(j.world, p)
  }

  ghost function Next(j: Joint, step: Step): Joint
    requires Enabled(j, step)
  {
    match step
    case Queue(q) =>
      var effect := Effect(j.queue, q);
      Joint(Q.Next(j.queue, q), if effect.Some? then P.Next(j.world, effect.value) else j.world)
    case Network(p) => j.(world := P.Next(j.world, p))
  }

  ghost predicate Execution(joints: seq<Joint>, steps: seq<Step>) {
    && |joints| == |steps| + 1 && Initial(joints[0])
    && forall i | 0 <= i < |steps| :: Enabled(joints[i], steps[i]) && joints[i + 1] == Next(joints[i], steps[i])
  }

  // ---- How the two hang together ----

  /** The protocol's writes are what the worker took; a success is a confirmed write. */
  ghost predicate Coupled(j: Joint) {
    var s, w := j.queue, j.world;
    && w.guid == s.guid && |w.writes| == |s.started|
    && (forall i | 0 <= i < |s.log| :: s.log[i].writer == s.guid)
    && (forall i | 0 <= i < |s.started| :: w.writes[i] == s.started[i].change.payload)
    && w.delivering == (if s.worker.Delivering? then Some(s.worker.queued.readers) else None)
    && |s.results| <= |s.started|
    && (forall i | 0 <= i < |s.results| && s.results[i] ::
          i + 1 in w.confirmed && w.confirmed[i + 1] == s.started[i].readers)
    && (forall n | n in w.confirmed :: 1 <= n <= |s.results| && s.results[n - 1])
  }

  ghost predicate Invariant(j: Joint) {
    Q.Invariant(j.queue) && P.Invariant(j.world) && Coupled(j)
  }

  lemma NetworkCouples(j: Joint, p: P.Step)
    requires Coupled(j) && Enabled(j, Network(p))
    ensures Coupled(Next(j, Network(p)))
  {
    hide P.World.Wire;
  }

  lemma PopCouples(j: Joint)
    requires Q.Queueing(j.queue) && Q.Working(j.queue) && Coupled(j) && Enabled(j, Queue(Q.Pop))
    ensures Coupled(Next(j, Queue(Q.Pop)))
  {
  }

  lemma DeliverCouples(j: Joint, ok: bool)
    requires Q.Queueing(j.queue) && Q.Working(j.queue) && Coupled(j) && Enabled(j, Queue(Q.Deliver(ok)))
    ensures Coupled(Next(j, Queue(Q.Deliver(ok))))
  {
    hide P.World.Wire;
    hide Settles;
  }

  lemma OtherCouples(j: Joint, q: Q.Step)
    requires Coupled(j) && Enabled(j, Queue(q)) && !q.Pop? && !q.Deliver?
    ensures Coupled(Next(j, Queue(q)))
  {
  }

  lemma StepKeeps(j: Joint, step: Step)
    requires Invariant(j) && Enabled(j, step)
    ensures Invariant(Next(j, step))
  {
    hide P.Invariant;
    hide P.Enabled;
    hide P.Next;
    hide Q.Enabled;
    hide Q.Next;
    hide Q.Counted;
    hide Q.Honest;
    hide Q.Queueing;
    hide Q.Working;
    hide Coupled;
    match step
    case Network(p) =>
      P.StepKeeps(j.world, p);
      NetworkCouples(j, p);
    case Queue(q) =>
      Q.NumberedKept(j.queue, q);
      Q.CountedKept(j.queue, q);
      Q.HonestKept(j.queue, q);
      if Effect(j.queue, q).Some? { P.StepKeeps(j.world, Effect(j.queue, q).value); }
      if q.Pop? { PopCouples(j); }
      else if q.Deliver? { DeliverCouples(j, q.ok); }
      else { OtherCouples(j, q); }
  }

  lemma {:induction false} ExecutionInvariant(joints: seq<Joint>, steps: seq<Step>, i: nat)
    requires Execution(joints, steps) && i < |joints|
    ensures Invariant(joints[i])
  {
    hide Next;
    hide Enabled;
    hide Q.Invariant;
    hide P.Invariant;
    if i > 0 {
      ExecutionInvariant(joints, steps, i - 1);
      StepKeeps(joints[i - 1], steps[i - 1]);
    } else {
      Q.AtStart(joints[0].queue);
      P.InitialInvariant(joints[0].world);
    }
  }

  /** Of the changes up to the target of a true wait_for_acknowledgments, the protocol has
      confirmed exactly those whose failure no earlier false return reported. */
  lemma CleanWaitConfirmed(joints: seq<Joint>, steps: seq<Step>, k: nat, n: nat)
    requires Execution(joints, steps)
    requires var s := joints[|steps|].queue;
             k < |s.ended| && s.ended[k].outcome.Clean? && 1 <= n <= s.ended[k].target
    ensures var (s, w) := (joints[|steps|].queue, joints[|steps|].world);
            n in w.confirmed <==> !Q.Reported(s.ended, k, n)
  {
    hide Next;
    hide Enabled;
    hide Q.Reported;
    hide P.Invariant;
    ExecutionInvariant(joints, steps, |steps|);
    Q.ReportedFailed(joints[|steps|].queue, k, n - 1);
    if !Q.Reported(joints[|steps|].queue.ended, k, n) {
      Successful(joints[|steps|].queue, k, n - 1);
    }
  }

  /** A true wait_for_acknowledgments, end to end: of every change up to its target, unless
      its failure was reported by an earlier false return, every reader of the snapshot
      with a known id has committed exactly the change that was written, and for a proxy
      with an unknown id some reader behind it has. */
  lemma CleanWaitCommitted(joints: seq<Joint>, steps: seq<Step>, k: nat, i: nat, r: ReaderProxy)
    requires Execution(joints, steps)
    requires var s := joints[|steps|].queue;
             && k < |s.ended| && s.ended[k].outcome.Clean? && i < s.ended[k].target
             && i < |s.started| && r in s.started[i].readers && !Q.Reported(s.ended, k, i + 1)
    ensures var (s, w) := (joints[|steps|].queue, joints[|steps|].world);
            && i < |s.log| && s.log[i].sequence == i + 1
            && (exists q | q in w.heard :: StandsFor(r, q) && s.log[i] in w.Log(q))
            && (r.id != UNKNOWN_ENTITY ==> r in w.heard && s.log[i] in w.Log(r))
  {
    hide Next;
    hide Enabled;
    hide Q.Reported;
    hide P.Told;
    hide P.SentByReader;
    hide P.SentByWriter;
    ExecutionInvariant(joints, steps, |steps|);
    var (s, w) := (joints[|steps|].queue, joints[|steps|].world);
    Successful(s, k, i);
    assert r in w.confirmed[i + 1];
    assert P.Served(w, r, i + 1);
    var q :| q in w.heard && StandsFor(r, q) && P.HasCommitted(w, q, i + 1);
    assert w.Change(i + 1) == s.log[i];
  }

  lemma Successful(s: Q.State, k: nat, i: nat)
    requires Q.Invariant(s) && k < |s.ended| && s.ended[k].outcome.Clean? && i < s.ended[k].target
    requires !Q.Reported(s.ended, k, i + 1)
    ensures i < s.completed <= |s.results| && s.completed <= |s.started| && s.results[i]
    ensures i < |s.log| && s.started[i].change == s.log[i] && s.log[i].sequence == i + 1
  {
  }
}
