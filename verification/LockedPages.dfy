/** Exclusive page locks that are kept until the terminal record give the run model its exclusive page ownership. */
module LockedPages {
  import opened StorageTypes
  import opened RecoveryAnalysis
  import opened Undos
  import opened RecoveryHistory
  import opened CrashRuns
  import L = LockTable

  /** The transaction has the page locked exclusively; a page's resource is its number. */
  ghost predicate Owns(l: L.Locks, tx: nat, p: PageId) {
    L.Holder(tx, L.Exclusive) in L.Row(l, p)
  }

  /** Whoever has changed a page and not ended has it locked exclusively. */
  ghost predicate Guarded(l: L.Locks, log: seq<Entry>) {
    forall i, p: PageId :: 0 <= i < |log| && OnPage(log[i], p) && !EndedBy(log, log[i].tx, |log|) ==>
      Owns(l, log[i].tx, p)
  }

  /** The owner of a page is the only one with changes on it that are still open. */
  lemma OwnerMayChange(l: L.Locks, log: seq<Entry>, tx: nat, p: PageId)
    requires L.Inv(l) && Guarded(l, log) && Owns(l, tx, p)
    ensures Lockable(log, tx, p)
  {
    assert L.RowOk(L.Row(l, p));
  }

  /** The step takes the transaction's locks, or one of them, away. */
  ghost predicate Drops(l: L.Locks, e: L.Event, tx: nat) {
    match e
    case Commit(t) => t == tx
    case Abort(t) => t == tx
    case Release(t, r) => t == tx
    case Lock(thread, t, r, mode) => t == tx && L.Decide(l, t, r, mode) == L.Died
    case _ => false
  }

  lemma GrantKeeps(l: L.Locks, t: nat, r: L.Resource, mode: L.Mode, tx: nat, p: PageId)
    requires Owns(l, tx, p)
    ensures Owns(L.Grant(l, t, r, mode), tx, p)
  {
    var row := L.Row(l, r);
    if r == p && L.HeldBy(row, t) {
      var i :| 0 <= i < |row| && row[i] == L.Holder(tx, L.Exclusive);
      assert L.Upgrade(row, t)[i] == L.Holder(tx, L.Exclusive);
    }
  }

  lemma FinishKeeps(l: L.Locks, t: nat, state: L.TxState, tx: nat, p: PageId)
    requires Owns(l, tx, p) && t != tx
    ensures Owns(L.Finish(l, t, state), tx, p)
  {
    assert L.Holder(tx, L.Exclusive) in L.Strip(L.Row(l, p), t);
  }

  lemma UnlockKeeps(l: L.Locks, t: nat, r: L.Resource, tx: nat, p: PageId)
    requires Owns(l, tx, p) && t != tx
    ensures Owns(L.Unlock(l, t, r), tx, p)
  {
    assert L.Holder(tx, L.Exclusive) in L.Strip(L.Row(l, p), t);
  }

  /** Every other step leaves an exclusive lock in place; a sleeper that wakes never dies. */
  lemma OwnsStill(l: L.Locks, e: L.Event, tx: nat, p: PageId)
    requires Owns(l, tx, p) && !Drops(l, e, tx)
    ensures Owns(L.Next(l, e), tx, p)
  {
    match e
    case Begin(t) =>
    case Lock(thread, t, r, mode) => AttemptKeeps(l, thread, t, r, mode, tx, p);
    case Wake(thread) => if thread in l.sleepers { WakeKeeps(l, thread, tx, p); }
    case Release(t, r) => UnlockKeeps(l, t, r, tx, p);
    case Commit(t) => FinishKeeps(l, t, L.Committed, tx, p);
    case Abort(t) => FinishKeeps(l, t, L.Aborted, tx, p);
  }

  lemma AttemptKeeps(l: L.Locks, thread: L.Thread, t: nat, r: L.Resource, mode: L.Mode, tx: nat, p: PageId)
    requires Owns(l, tx, p) && (t == tx ==> L.Decide(l, t, r, mode) != L.Died)
    ensures Owns(L.Attempt(l, thread, t, r, mode), tx, p)
  {
    GrantKeeps(l, t, r, mode, tx, p);
    if t != tx { FinishKeeps(l, t, L.Aborted, tx, p); }
  }

  lemma WakeKeeps(l: L.Locks, thread: L.Thread, tx: nat, p: PageId)
    requires Owns(l, tx, p) && thread in l.sleepers
    ensures Owns(L.Effect(l, L.Wake(thread)), tx, p)
  {
    var w := l.sleepers[thread];
    var m := l.(sleepers := l.sleepers - {thread}, signalled := l.signalled - {thread});
    if L.MayWake(l, w) {
      assert L.Row(m, w.res) == L.Row(l, w.res);
      AttemptKeeps(m, thread, w.tx, w.res, w.mode, tx, p);
    }
  }

  /** A step keeps the pages guarded unless it takes locks from a transaction with open changes. */
  lemma GuardedStill(l: L.Locks, e: L.Event, log: seq<Entry>)
    requires Guarded(l, log)
    requires forall i :: 0 <= i < |log| && log[i].action.WritePage? && Drops(l, e, log[i].tx) ==>
      EndedBy(log, log[i].tx, |log|)
    ensures Guarded(L.Next(l, e), log)
  {
    forall i, p: PageId | 0 <= i < |log| && OnPage(log[i], p) && !EndedBy(log, log[i].tx, |log|)
      ensures Owns(L.Next(l, e), log[i].tx, p)
    {
      OwnsStill(l, e, log[i].tx, p);
    }
  }

  /** A logged change to a page that its transaction owns, or any record that is no change. */
  lemma GuardedAppend(l: L.Locks, log: seq<Entry>, e: Entry)
    requires Guarded(l, log) && (e.action.WritePage? ==> Owns(l, e.tx, e.action.mutation.page))
    ensures Guarded(l, log + [e])
  {
    var all := log + [e];
    forall i, p: PageId | 0 <= i < |all| && OnPage(all[i], p) && !EndedBy(all, all[i].tx, |all|)
      ensures Owns(l, all[i].tx, p)
    {
      if i < |log| {
        assert all[i] == log[i];
        EndedGrows(log, e, log[i].tx);
      }
    }
  }

  lemma EndedGrows(log: seq<Entry>, e: Entry, tx: nat)
    ensures EndedBy(log, tx, |log|) ==> EndedBy(log + [e], tx, |log| + 1)
  {
    if EndedBy(log, tx, |log|) {
      var k :| 0 <= k < |log| && Ends(log[k], tx);
      assert Ends((log + [e])[k], tx);
    }
  }
}
