/** What two-phase locking and WAIT-DIE give over whole runs of the lock manager. */
module LockTheorems {
  import opened LockTable

  // ---- What one step does to the holders ---------------------------------------------

  /** The transaction obtained or upgraded a lock between two states. */
  ghost predicate Grew(l: Locks, m: Locks, tx: Tx) {
    exists r, mode :: Holder(tx, mode) in Row(m, r) && Holder(tx, mode) !in Row(l, r)
  }

  lemma AttemptHolders(l: Locks, thread: Thread, tx: Tx, r: Resource, mode: Mode, q: Resource, h: Holder)
    requires Inv(l)
    ensures var m := Attempt(l, thread, tx, r, mode);
      && (h in Row(m, q) && h !in Row(l, q) ==> h.tx == tx && Growth(l, tx) && Growth(m, tx))
      && (h in Row(l, q) && !Holds(m, h.tx, q) ==> h.tx == tx && Terminal(m, tx))
      && (h in Row(l, q) && Holds(m, h.tx, q) ==> h in Row(m, q) || Holder(h.tx, Exclusive) in Row(m, q))
  {
    var m := Attempt(l, thread, tx, r, mode);
    match Decide(l, tx, r, mode) {
      case Refused =>
      case Sleeping => assert Row(m, q) == Row(l, q);
      case Granted =>
        if Holder(tx, mode) !in Row(l, r) {
          GrantRow(l, tx, r, mode);
          if h in Row(l, q) {
            if q == r && h.tx == tx { assert Holder(tx, mode) in Row(m, q); } else { assert h in Row(m, q); }
          }
        }
      case Died =>
        FinishHolders(l, tx, Aborted, q, h);
    }
  }

  lemma FinishHolders(l: Locks, tx: Tx, state: TxState, q: Resource, h: Holder)
    requires Inv(l) && state in {Committed, Aborted}
    ensures var m := Finish(l, tx, state);
      && (h in Row(m, q) <==> h in Row(l, q) && h.tx != tx)
      && (h in Row(l, q) && !Holds(m, h.tx, q) ==> h.tx == tx && Terminal(m, tx))
  {
    ReleaseRow(l, tx, q);
    var m := Finish(l, tx, state);
    assert Row(m, q) == Row(ReleaseAll(l, tx), q);
  }

  lemma UnlockHolders(l: Locks, tx: Tx, r: Resource, q: Resource, h: Holder)
    requires Inv(l)
    ensures var m := Unlock(l, tx, r);
      && (h in Row(m, q) ==> h in Row(l, q))
      && (h in Row(l, q) && !Holds(m, h.tx, q) ==> h.tx == tx && tx in m.states && m.states[tx] == Shrinking)
      && (h in Row(l, q) && Holds(m, h.tx, q) ==> h in Row(m, q))
  {
    if CanUnlock(l, tx, r) {
      UnlockRow(l, tx, r, q);
      StripOk(Row(l, q), tx);
      var m := Unlock(l, tx, r);
      if h in Row(l, q) && (q != r || h.tx != tx) { assert h in Row(m, q); }
    }
  }

  /** The lock is held at least as strongly as the mode says. */
  ghost predicate Strong(l: Locks, tx: Tx, r: Resource, mode: Mode) {
    Holder(tx, mode) in Row(l, r) || Holder(tx, Exclusive) in Row(l, r)
  }

  /** New holders are growing; a lost lock ends the growing phase; a kept lock never weakens. */
  lemma StepHolders(l: Locks, e: Event, q: Resource, h: Holder)
    requires Inv(l)
    ensures var m := Next(l, e);
      && (h in Row(m, q) && h !in Row(l, q) ==> Growth(l, h.tx) && Growth(m, h.tx))
      && (h in Row(l, q) && !Holds(m, h.tx, q) ==> h.tx in m.states && !Growth(m, h.tx))
      && (h in Row(l, q) && Holds(m, h.tx, q) ==> Strong(m, h.tx, q, h.mode))
  {
    var m := Next(l, e);
    assert Row(m, q) == Row(Effect(l, e), q);
    match e {
      case Begin(tx) =>
      case Lock(thread, tx, r, mode) => AttemptHolders(l, thread, tx, r, mode, q, h);
      case Wake(thread) =>
        if thread in l.sleepers && MayWake(l, l.sleepers[thread]) {
          var l' := l.(sleepers := l.sleepers - {thread}, signalled := l.signalled - {thread});
          var w := l.sleepers[thread];
          SameTables(l, l');
          assert Row(l', q) == Row(l, q);
          AttemptHolders(l', thread, w.tx, w.res, w.mode, q, h);
        }
      case Release(tx, r) => UnlockHolders(l, tx, r, q, h);
      case Commit(tx) => FinishHolders(l, tx, Committed, q, h);
      case Abort(tx) => FinishHolders(l, tx, Aborted, q, h);
    }
  }

  /** Once a transaction has left its growing phase it never returns to it. */
  lemma StepPhase(l: Locks, e: Event, tx: Tx)
    requires tx in l.states && !Growth(l, tx)
    ensures tx in Next(l, e).states && !Growth(Next(l, e), tx)
  {
  }

  // ---- Runs --------------------------------------------------------------------------

  ghost predicate StepAt(trace: seq<Locks>, events: seq<Event>, k: nat)
    requires |trace| == |events| + 1
  {
    k < |events| ==> trace[k + 1] == Next(trace[k], events[k])
  }

  /** The states of a run, from the empty lock table on. */
  ghost predicate IsRun(trace: seq<Locks>, events: seq<Event>) {
    && |trace| == |events| + 1 && trace[0] == EMPTY
    && forall k: nat {:trigger StepAt(trace, events, k)} :: StepAt(trace, events, k)
  }

  /** The states of a run are computed one by one. */
  lemma Extend(trace: seq<Locks>, events: seq<Event>, k: nat) returns (longer: seq<Locks>)
    requires k < |events| && IsRun(trace, events[..k])
    ensures IsRun(longer, events[..k + 1]) && longer[..k + 1] == trace && longer[k + 1] == Next(trace[k], events[k])
  {
    var before, after := events[..k], events[..k + 1];
    longer := trace + [Next(trace[k], events[k])];
    forall i: nat ensures StepAt(longer, after, i) { assert StepAt(trace, before, i); }
  }

  lemma {:induction false} TraceInv(trace: seq<Locks>, events: seq<Event>, k: nat)
    requires IsRun(trace, events) && k < |trace|
    ensures Inv(trace[k])
  {
    if k > 0 {
      TraceInv(trace, events, k - 1);
      assert StepAt(trace, events, k - 1);
      StepInv(trace[k - 1], events[k - 1]);
    }
  }

  /** What a step of a run does to one holder, without the details of the step. */
  lemma TraceStep(trace: seq<Locks>, events: seq<Event>, k: nat, r: Resource, tx: Tx, mode: Mode)
    requires IsRun(trace, events) && k < |events|
    ensures Holder(tx, mode) in Row(trace[k + 1], r) && Holder(tx, mode) !in Row(trace[k], r) ==>
      Growth(trace[k], tx) && Growth(trace[k + 1], tx)
    ensures Holder(tx, mode) in Row(trace[k], r) && !Holds(trace[k + 1], tx, r) ==>
      tx in trace[k + 1].states && !Growth(trace[k + 1], tx)
    ensures Holder(tx, mode) in Row(trace[k], r) && Holds(trace[k + 1], tx, r) ==> Strong(trace[k + 1], tx, r, mode)
  {
    TraceInv(trace, events, k);
    assert StepAt(trace, events, k);
    StepHolders(trace[k], events[k], r, Holder(tx, mode));
  }

  // ---- Conflict serializability ------------------------------------------------------

  /** The number of the last of the first n steps that gave the transaction a lock, or zero. */
  ghost function LastGrant(trace: seq<Locks>, n: nat, tx: Tx): (g: nat)
    requires n < |trace|
    ensures g <= n
  {
    if n == 0 then 0
    else if Grew(trace[n - 1], trace[n], tx) then n
    else LastGrant(trace, n - 1, tx)
  }

  /** A transaction that has stopped growing by step k had its last grant before. */
  lemma {:induction false} NoGrantAfter(trace: seq<Locks>, events: seq<Event>, k: nat, n: nat, tx: Tx)
    requires IsRun(trace, events) && k <= n < |trace| && tx in trace[k].states && !Growth(trace[k], tx)
    ensures LastGrant(trace, n, tx) < k && tx in trace[n].states && !Growth(trace[n], tx)
  {
    assert k > 0;
    if k < n {
      NoGrantAfter(trace, events, k, n - 1, tx);
      assert StepAt(trace, events, n - 1);
      StepPhase(trace[n - 1], events[n - 1], tx);
    }
    if Grew(trace[n - 1], trace[n], tx) {
      var r, mode :| Holder(tx, mode) in Row(trace[n], r) && Holder(tx, mode) !in Row(trace[n - 1], r);
      TraceStep(trace, events, n - 1, r, tx, mode);
    }
  }

  lemma {:induction false} GrantCounts(trace: seq<Locks>, k: nat, n: nat, tx: Tx)
    requires k < n < |trace| && Grew(trace[k], trace[k + 1], tx)
    ensures LastGrant(trace, n, tx) > k
  {
    if k + 1 < n { GrantCounts(trace, k, n - 1, tx); }
  }

  /** A holder still has its lock at step j, or lost it at some step t on the way; it never weakened. */
  lemma {:induction false} Fate(trace: seq<Locks>, events: seq<Event>, i: nat, j: nat, r: Resource, a: Tx, mode: Mode)
      returns (t: nat)
    requires IsRun(trace, events) && i <= j < |trace| && Strong(trace[i], a, r, mode)
    ensures i <= t <= j && Strong(trace[t], a, r, mode)
    ensures t < j ==> t < |events| && !Holds(trace[t + 1], a, r)
    decreases j - i
  {
    t := i;
    if i < j {
      TraceStep(trace, events, i, r, a, mode);
      TraceStep(trace, events, i, r, a, Exclusive);
      if Holds(trace[i + 1], a, r) {
        t := Fate(trace, events, i + 1, j, r, a, mode);
      }
    }
  }

  /** A lock that was not held and is held later was granted at some step. */
  lemma {:induction false} GainedAt(trace: seq<Locks>, t: nat, j: nat, r: Resource, b: Tx, mode: Mode) returns (k: nat)
    requires t <= j < |trace| && Holder(b, mode) !in Row(trace[t], r) && Holder(b, mode) in Row(trace[j], r)
    ensures t <= k < j && Grew(trace[k], trace[k + 1], b)
    decreases j - t
  {
    if Holder(b, mode) in Row(trace[t + 1], r) {
      k := t;
    } else {
      k := GainedAt(trace, t + 1, j, r, b, mode);
    }
  }

  /** a held the resource at step i in a mode that conflicts with the one in which b held it at step j or later. */
  ghost predicate InConflict(trace: seq<Locks>, i: nat, j: nat, r: Resource, a: Tx, m1: Mode, b: Tx, m2: Mode) {
    && i <= j < |trace| && a != b && Conflicts(m1, m2)
    && Holder(a, m1) in Row(trace[i], r) && Holder(b, m2) in Row(trace[j], r)
  }

  /** A transaction that holds a lock so strongly keeps conflicting holders out. */
  lemma StrongExcludes(l: Locks, r: Resource, a: Tx, m1: Mode, b: Tx, m2: Mode)
    requires Inv(l) && Strong(l, a, r, m1) && a != b && Conflicts(m1, m2)
    ensures Holder(b, m2) !in Row(l, r)
  {
    assert RowOk(Row(l, r));
  }

  /** Of two conflicting holders, the earlier one had its last grant before the later one's last grant. */
  lemma ConflictOrder(trace: seq<Locks>, events: seq<Event>, i: nat, j: nat, r: Resource, a: Tx, m1: Mode, b: Tx,
      m2: Mode)
    requires IsRun(trace, events) && InConflict(trace, i, j, r, a, m1, b, m2)
    ensures LastGrant(trace, |events|, a) < LastGrant(trace, |events|, b)
  {
    var t := Fate(trace, events, i, j, r, a, m1);
    TraceInv(trace, events, t);
    StrongExcludes(trace[t], r, a, m1, b, m2);
    var k := GainedAt(trace, t, j, r, b, m2);
    GrantCounts(trace, k, |events|, b);
    TraceStep(trace, events, t, r, a, m1);
    TraceStep(trace, events, t, r, a, Exclusive);
    NoGrantAfter(trace, events, t + 1, |events|, a);
  }

  ghost predicate Precedes(trace: seq<Locks>, a: Tx, b: Tx) {
    exists i, j, r, m1, m2 :: InConflict(trace, i, j, r, a, m1, b, m2)
  }

  ghost predicate ConflictPath(trace: seq<Locks>, path: seq<Tx>) {
    forall i :: 0 <= i < |path| - 1 ==> Precedes(trace, path[i], path[i + 1])
  }

  /** Two-phase locking serializes: along any path of conflicts the last grants increase, so no path returns. */
  lemma {:induction false} ConflictsAcyclic(trace: seq<Locks>, events: seq<Event>, path: seq<Tx>)
    requires IsRun(trace, events) && |path| >= 2 && ConflictPath(trace, path)
    ensures LastGrant(trace, |events|, path[0]) < LastGrant(trace, |events|, path[|path| - 1])
    ensures path[0] != path[|path| - 1]
  {
    var n := |path|;
    assert Precedes(trace, path[n - 2], path[n - 2 + 1]);
    var i, j, r, m1, m2 :| InConflict(trace, i, j, r, path[n - 2], m1, path[n - 1], m2);
    ConflictOrder(trace, events, i, j, r, path[n - 2], m1, path[n - 1], m2);
    if n > 2 {
      var p := path[..n - 1];
      forall q | 0 <= q < |p| - 1 ensures Precedes(trace, p[q], p[q + 1]) {
        assert Precedes(trace, path[q], path[q + 1]);
      }
      ConflictsAcyclic(trace, events, p);
    }
  }
}
