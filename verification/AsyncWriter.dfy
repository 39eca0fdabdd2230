/** The critical sections of write, worker_loop, set_readers and wait_for_acknowledgments
    as code, each proved to be one step of AsyncQueue. */
module AsyncWriter {
  import opened Types
  import opened AckMatching
  import opened History
  import opened AsyncQueue

  class AsyncWriter {
    const history: WriterHistory
    var readers: seq<ReaderProxy>
    var writing: Writing
    var pending: seq<Queued>
    var worker: Worker
    var stopping: bool
    var submitted: nat
    var completed: nat
    var failed: nat
    var observed: nat
    ghost var waits: map<nat, nat>
    ghost var started: seq<Queued>
    ghost var results: seq<bool>
    ghost var failures: seq<nat>
    ghost var ended: seq<Return>

    ghost function Abs(): State
      reads this, history
    {
      State(history.guid, history.log, readers, writing, pending, worker, stopping,
            submitted, completed, failed, observed, waits, started, results, failures, ended)
    }

    constructor (writer: Guid, depth: nat, matched: seq<ReaderProxy>)
      ensures Initial(Abs()) && history.Valid() && fresh(history) && readers == matched
    {
      history := new WriterHistory(writer, depth);
      readers, writing, pending, worker, stopping := matched, NotWriting, [], Waiting, false;
      submitted, completed, failed, observed := 0, 0, 0, 0;
      waits, started, results, failures, ended := map[], [], [], [], [];
    }

    /** write, first block: refused without readers or while stopping. */
    method BeginWriting(payload: Bytes) returns (accepted: bool)
      requires Enabled(Abs(), BeginWrite(payload))
      modifies this`writing
      ensures Abs() == Next(old(Abs()), BeginWrite(payload))
      ensures accepted <==> readers != [] && !stopping
    {
      if readers == [] || stopping {
        return false;
      }
      writing := Prepared(payload, readers);
      return true;
    }

    /** write, history_.add */
    method Record()
      requires Enabled(Abs(), AddToHistory) && history.Valid()
      modifies this`writing, history
      ensures Abs() == Next(old(Abs()), AddToHistory) && history.Valid()
    {
      var change := history.Add(writing.payload);
      writing := Added(change, writing.readers);
    }

    /** write, last block */
    method Submit()
      requires Enabled(Abs(), Enqueue)
      modifies this`writing, this`pending, this`submitted
      ensures Abs() == Next(old(Abs()), Enqueue)
    {
      submitted := submitted + 1;
      pending := pending + [Queued(writing.change, writing.readers, submitted)];
      writing := NotWriting;
    }

    /** worker_loop, the wait and the test behind it */
    method TestForWork() returns (work: bool)
      requires worker.Waiting?
      modifies this`worker
      ensures if Enabled(old(Abs()), Check) then work && Abs() == Next(old(Abs()), Check)
              else if Enabled(old(Abs()), Exit) then !work && Abs() == Next(old(Abs()), Exit)
              else !work && Abs() == old(Abs())
    {
      work := false;
      if stopping {
        worker := Exited;
      } else if pending != [] {
        worker, work := Checked, true;
      }
    }

    /** worker_loop, the pop */
    method TakeFront() returns (queued: Queued)
      requires Enabled(Abs(), Pop)
      modifies this`worker, this`pending, this`started
      ensures Abs() == Next(old(Abs()), Pop) && queued == old(pending)[0]
    {
      queued := pending[0];
      started := started + [queued];
      worker, pending := Delivering(queued), pending[1..];
    }

    /** worker_loop, deliver_change has returned */
    method Return(delivered: bool)
      requires Enabled(Abs(), Deliver(delivered))
      modifies this`worker, this`results
      ensures Abs() == Next(old(Abs()), Deliver(delivered))
    {
      results := results + [delivered];
      worker := Finished(worker.queued, delivered);
    }

    /** worker_loop, last block */
    method Finish()
      requires Enabled(Abs(), Complete)
      modifies this`worker, this`completed, this`failed, this`failures
      ensures Abs() == Next(old(Abs()), Complete)
    {
      completed := worker.queued.id;
      if !worker.ok && !stopping {
        failed := failed + 1;
        failures := failures + [worker.queued.id];
      } else {
        assert failures == failures + [];
      }
      worker := Waiting;
    }

    /** wait_for_acknowledgments, up to the wait */
    method Target(ghost caller: nat) returns (target: nat)
      requires Enabled(Abs(), BeginWait(caller))
      modifies this`waits
      ensures Abs() == Next(old(Abs()), BeginWait(caller)) && target == submitted
    {
      waits := waits[caller := submitted];
      return submitted;
    }

    /** wait_for_acknowledgments, behind the wait. It returns true exactly for a clean end. */
    method EndOfWait(ghost caller: nat, target: nat) returns (acknowledged: bool)
      requires Enabled(Abs(), EndWait(caller)) && waits[caller] == target
      modifies this`waits, this`observed, this`ended
      ensures Abs() == Next(old(Abs()), EndWait(caller))
      ensures acknowledged <==> !stopping && completed >= target && failed == old(observed)
      ensures observed == if !stopping && completed >= target then failed else old(observed)
    {
      ghost var outcome := OutcomeOf(Abs(), target);
      ended := ended + [AsyncQueue.Return(target, outcome, completed, failures)];
      waits := waits - {caller};
      var ready := stopping || completed >= target;
      if !ready || stopping {
        return false;
      }
      if failed != observed {
        observed := failed;
        return false;
      }
      return true;
    }
  }
}
