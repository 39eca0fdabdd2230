/** The bounded sample caches (History KeepLast) of a writer and of a reader, against
    the full logs they are windows of. */
module History {
  import opened Types
  import opened Seqs

  class WriterHistory {
    const guid: Guid
    const depth: nat
    var next: int
    var changes: seq<CacheChange>
    ghost var log: seq<CacheChange>

    /** Every change is logged under its position, and the cache is the end of the log. */
    ghost predicate Valid()
      reads this
    {
      && depth >= 1
      && next == |log| + 1
      && (forall i | 0 <= i < |log| :: log[i].writer == guid && log[i].sequence == i + 1)
      && |changes| == (if |log| <= depth then |log| else depth)
      && changes == log[|log| - |changes|..]
    }

    constructor (writer: Guid, wanted: nat)
      ensures Valid() && guid == writer && log == []
      ensures depth == if wanted == 0 then 1 else wanted
    {
      guid, depth, next, changes, log := writer, if wanted == 0 then 1 else wanted, 1, [], [];
    }

    method Add(payload: Bytes) returns (change: CacheChange)
      requires Valid()
      modifies this
      ensures Valid()
      ensures change == CacheChange(guid, |old(log)| + 1, payload)
      ensures log == old(log) + [change]
    {
      change := CacheChange(guid, next, payload);
      next := next + 1;
      log := log + [change];
      changes := changes + [change];
      while |changes| > depth
        invariant log == old(log) + [change] && next == old(next) + 1
        invariant |changes| >= depth || |changes| == |log|
        invariant |changes| <= |log| && changes == log[|log| - |changes|..]
      {
        changes := changes[1..];
      }
    }

    /** Succeeds exactly for the numbers among the last `depth` writes. */
    method Find(n: int) returns (r: Option<CacheChange>)
      requires Valid()
      ensures r.Some? <==> 1 <= n <= |log| && |log| - depth < n
      ensures r.Some? ==> r.value == log[n - 1]
    {
      assert forall j | 0 <= j < |changes| :: changes[j] == log[|log| - |changes| + j];
      assert 1 <= n <= |log| && |log| - depth < n ==> changes[n - 1 - (|log| - |changes|)].sequence == n;
      for i := 0 to |changes|
        invariant forall j | 0 <= j < i :: changes[j].sequence != n
      {
        if changes[i].sequence == n {
          return Some(changes[i]);
        }
      }
      return None;
    }
  }

  /** The cache is the end of the accepted log, and what was taken is an in-order
      selection from what lies before it. */
  ghost predicate Window(depth: nat, changes: seq<CacheChange>, accepted: seq<CacheChange>, taken: seq<CacheChange>) {
    && |changes| <= depth && |changes| <= |accepted|
    && changes == accepted[|accepted| - |changes|..]
    && Subsequence(taken, accepted[..|accepted| - |changes|])
  }

  /** Appending a change and evicting at most one keeps the window. */
  lemma WindowMoves(depth: nat, changes: seq<CacheChange>, accepted: seq<CacheChange>, taken: seq<CacheChange>,
                    change: CacheChange, k: nat)
    requires Window(depth, changes, accepted, taken) && depth >= 1
    requires k == if |changes| < depth then 0 else 1
    ensures Window(depth, (changes + [change])[k..], accepted + [change], taken)
  {
    hide Subsequence;
    var before, full := accepted[..|accepted| - |changes|], changes + [change];
    var all := accepted + [change];
    assert all == before + full;
    if k == 0 {
      assert all[..|before|] == before;
    } else {
      assert all[..|before| + 1] == before + [full[0]];
      SubsequenceGrows(taken, before, full[0]);
    }
  }

  class ReaderHistory {
    const depth: nat
    var changes: seq<CacheChange>
    ghost var accepted: seq<CacheChange>
    ghost var taken: seq<CacheChange>

    ghost predicate Valid()
      reads this
    {
      depth >= 1 && Window(depth, changes, accepted, taken)
    }

    constructor (wanted: nat)
      ensures Valid() && accepted == [] && taken == [] && changes == []
      ensures depth == if wanted == 0 then 1 else wanted
    {
      depth, changes, accepted, taken := if wanted == 0 then 1 else wanted, [], [], [];
    }

    predicate Contains(writer: Guid, n: int)
      reads this
    {
      exists i :: 0 <= i < |changes| && changes[i].writer == writer && changes[i].sequence == n
    }

    /** Rejects a change the cache still holds; otherwise appends it, evicting the oldest. */
    method Add(change: CacheChange) returns (ok: bool)
      requires Valid()
      modifies this
      ensures Valid() && taken == old(taken)
      ensures ok <==> !old(Contains(change.writer, change.sequence))
      ensures accepted == (if ok then old(accepted) + [change] else old(accepted))
      ensures !ok ==> changes == old(changes)
      ensures ok ==>
                changes == if |old(changes)| < depth then old(changes) + [change] else (old(changes) + [change])[1..]
    {
      hide Subsequence;
      var duplicate := Holds(change);
      if duplicate {
        return false;
      }
      Append(change);
      return true;
    }

    method Holds(change: CacheChange) returns (found: bool)
      ensures found <==> Contains(change.writer, change.sequence)
    {
      for i := 0 to |changes|
        invariant forall j | 0 <= j < i ::
                    !(changes[j].writer == change.writer && changes[j].sequence == change.sequence)
      {
        if changes[i].writer == change.writer && changes[i].sequence == change.sequence {
          return true;
        }
      }
      return false;
    }

    method Append(change: CacheChange)
      requires Valid()
      modifies this`changes, this`accepted
      ensures Valid() && accepted == old(accepted) + [change]
      ensures changes == if |old(changes)| < depth then old(changes) + [change] else (old(changes) + [change])[1..]
    {
      hide Subsequence;
      WindowMoves(depth, changes, accepted, taken, change, if |changes| < depth then 0 else 1);
      assert |changes| <= depth;
      hide Window;
      ghost var full := changes + [change];
      changes := changes + [change];
      while |changes| > depth
        invariant changes == full || (|full| == depth + 1 && changes == full[1..])
        invariant accepted == old(accepted)
        decreases |changes|
      {
        changes := changes[1..];
      }
      accepted := accepted + [change];
    }

    /** Hands out the oldest cached change. */
    method Take() returns (r: Option<CacheChange>)
      requires Valid()
      modifies this
      ensures Valid() && accepted == old(accepted)
      ensures old(changes) == [] ==> r.None? && changes == [] && taken == old(taken)
      ensures old(changes) != [] ==>
                r == Some(old(changes)[0]) && changes == old(changes)[1..] && taken == old(taken) + [old(changes)[0]]
    {
      if |changes| == 0 {
        return None;
      }
      var change := changes[0];
      ghost var before := accepted[..|accepted| - |changes|];
      assert accepted[..|accepted| - |changes| + 1] == before + [change];
      SubsequenceGrows(taken, before, change);
      changes := changes[1..];
      taken := taken + [change];
      return Some(change);
    }
  }
}
