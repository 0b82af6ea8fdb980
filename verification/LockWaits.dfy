/** WAIT-DIE over whole runs: who waits for whom, and who is woken. */
module LockWaits {
  import opened LockTable
  import opened LockTheorems

  /** The waiter is kept asleep by this holder. */
  ghost predicate Blocks(l: Locks, w: Waiter, h: Holder) {
    h in Row(l, w.res) && h.tx != w.tx && Conflicts(w.mode, h.mode)
  }

  ghost predicate GrantKnown(l: Locks, r: Resource, h: Holder) {
    h in Row(l, r) ==> (r, h.tx) in l.grantedAt && l.grantedAt[(r, h.tx)] < l.clock
  }

  /** Grants and sleeps lie in the past. */
  ghost predicate Timed(l: Locks) {
    && (forall r, h {:trigger GrantKnown(l, r, h)} :: GrantKnown(l, r, h))
    && (forall t :: t in l.sleepers ==> l.sleepers[t].since < l.clock)
  }

  ghost predicate OlderThan(l: Locks, w: Waiter, h: Holder) {
    Blocks(l, w, h) && (w.res, h.tx) in l.grantedAt && l.grantedAt[(w.res, h.tx)] < w.since ==> w.tx < h.tx
  }

  /** A waiter is older than every holder that blocked it when it fell asleep. */
  ghost predicate Aged(l: Locks) {
    forall t, h {:trigger OlderThan(l, l.sleepers[t], h)} :: t in l.sleepers ==> OlderThan(l, l.sleepers[t], h)
  }

  // ---- Ages --------------------------------------------------------------------------

  /** A holder of the next state either was there before, with the same grant time, or was granted just now. */
  ghost predicate Settled(l: Locks, m: Locks, r: Resource, h: Holder) {
    h in Row(m, r) ==>
      && (r, h.tx) in m.grantedAt
      && (m.grantedAt[(r, h.tx)] == l.clock
          || (h in Row(l, r) && (r, h.tx) in l.grantedAt && m.grantedAt[(r, h.tx)] == l.grantedAt[(r, h.tx)]))
  }

  lemma AttemptSettled(l: Locks, thread: Thread, tx: Tx, r: Resource, mode: Mode, q: Resource, h: Holder)
    requires Inv(l) && GrantKnown(l, q, h)
    ensures Settled(l, Attempt(l, thread, tx, r, mode), q, h)
  {
    var m := Attempt(l, thread, tx, r, mode);
    match Decide(l, tx, r, mode) {
      case Refused =>
      case Sleeping => assert Row(m, q) == Row(l, q);
      case Granted => if Holder(tx, mode) !in Row(l, r) { GrantRow(l, tx, r, mode); }
      case Died => FinishHolders(l, tx, Aborted, q, h);
    }
  }

  lemma StepSettled(l: Locks, e: Event, q: Resource, h: Holder)
    requires Inv(l) && GrantKnown(l, q, h)
    ensures Settled(l, Next(l, e), q, h)
  {
    var m := Next(l, e);
    assert Row(m, q) == Row(Effect(l, e), q);
    match e {
      case Begin(tx) =>
      case Lock(thread, tx, r, mode) => AttemptSettled(l, thread, tx, r, mode, q, h);
      case Wake(thread) =>
        if thread in l.sleepers && MayWake(l, l.sleepers[thread]) {
          var l' := l.(sleepers := l.sleepers - {thread}, signalled := l.signalled - {thread});
          var w := l.sleepers[thread];
          SameTables(l, l');
          assert Row(l', q) == Row(l, q);
          AttemptSettled(l', thread, w.tx, w.res, w.mode, q, h);
        }
      case Release(tx, r) => UnlockHolders(l, tx, r, q, h);
      case Commit(tx) => FinishHolders(l, tx, Committed, q, h);
      case Abort(tx) => FinishHolders(l, tx, Aborted, q, h);
    }
  }

  /** A new sleeper is older than everybody who blocks it, and cannot go on yet. */
  ghost predicate FellAsleep(l: Locks, m: Locks, w: Waiter) {
    w.since == l.clock && !MayWake(m, w) && m.table == l.table && forall h :: Blocks(l, w, h) ==> w.tx < h.tx
  }

  lemma AttemptSleeper(l: Locks, thread: Thread, tx: Tx, r: Resource, mode: Mode, t: Thread)
    requires t in Attempt(l, thread, tx, r, mode).sleepers
    ensures var m := Attempt(l, thread, tx, r, mode);
      (t in l.sleepers && l.sleepers[t] == m.sleepers[t]) || FellAsleep(l, m, m.sleepers[t])
  {
    if Decide(l, tx, r, mode) == Sleeping { assert Row(Attempt(l, thread, tx, r, mode), r) == Row(l, r); }
  }

  /** Falling asleep is the only way to become a sleeper, and only the old fall asleep. */
  lemma StepSleeper(l: Locks, e: Event, t: Thread)
    requires t in Next(l, e).sleepers
    ensures var m := Next(l, e); (t in l.sleepers && l.sleepers[t] == m.sleepers[t]) || FellAsleep(l, m, m.sleepers[t])
  {
    match e {
      case Lock(thread, tx, r, mode) => if thread !in l.sleepers && tx in l.states {
        AttemptSleeper(l, thread, tx, r, mode, t);
      }
      case Wake(thread) => if thread in l.sleepers { WakeSleeper(l, thread, t); }
      case _ =>
    }
  }

  /** Waking up never leads back to sleep at the same request. */
  lemma WakeSleeper(l: Locks, thread: Thread, t: Thread)
    requires thread in l.sleepers && t in Effect(l, Wake(thread)).sleepers
    ensures t in l.sleepers && l.sleepers[t] == Effect(l, Wake(thread)).sleepers[t]
  {
    var w := l.sleepers[thread];
    var l' := l.(sleepers := l.sleepers - {thread}, signalled := l.signalled - {thread});
    assert Row(l', w.res) == Row(l, w.res);
  }

  lemma StepAged(l: Locks, e: Event)
    requires Inv(l) && Timed(l) && Aged(l)
    ensures Timed(Next(l, e)) && Aged(Next(l, e))
  {
    var m := Next(l, e);
    assert m.clock == l.clock + 1;
    forall r, h ensures GrantKnown(m, r, h) {
      assert GrantKnown(l, r, h);
      StepSettled(l, e, r, h);
    }
    forall t | t in m.sleepers ensures m.sleepers[t].since < m.clock { StepSleeper(l, e, t); }
    forall t, h | t in m.sleepers ensures OlderThan(m, m.sleepers[t], h) { StepOlder(l, e, t, h); }
  }

  lemma StepOlder(l: Locks, e: Event, t: Thread, h: Holder)
    requires Inv(l) && Timed(l) && Aged(l) && t in Next(l, e).sleepers
    ensures OlderThan(Next(l, e), Next(l, e).sleepers[t], h)
  {
    var m := Next(l, e);
    var w := m.sleepers[t];
    StepSleeper(l, e, t);
    assert GrantKnown(l, w.res, h);
    StepSettled(l, e, w.res, h);
    if t in l.sleepers && l.sleepers[t] == w { assert OlderThan(l, l.sleepers[t], h); }
  }

  lemma {:induction false} TraceAged(trace: seq<Locks>, events: seq<Event>, k: nat)
    requires IsRun(trace, events) && k < |trace|
    ensures Timed(trace[k]) && Aged(trace[k])
  {
    if k > 0 {
      TraceAged(trace, events, k - 1);
      TraceInv(trace, events, k - 1);
      assert StepAt(trace, events, k - 1);
      StepAged(trace[k - 1], events[k - 1]);
    }
  }

  // ---- Waits-for cycles --------------------------------------------------------------

  /** Thread t sleeps for a lock that the transaction of thread u holds in a conflicting mode. */
  ghost predicate WaitsFor(l: Locks, t: Thread, u: Thread) {
    && t in l.sleepers && u in l.sleepers
    && exists mode :: Blocks(l, l.sleepers[t], Holder(l.sleepers[u].tx, mode))
  }

  /** The lock that blocks t was granted or upgraded after t fell asleep. */
  ghost predicate Overtaken(l: Locks, t: Thread, u: Thread) {
    && t in l.sleepers && u in l.sleepers
    && (l.sleepers[t].res, l.sleepers[u].tx) in l.grantedAt
    && l.grantedAt[(l.sleepers[t].res, l.sleepers[u].tx)] >= l.sleepers[t].since
  }

  ghost predicate WaitPath(l: Locks, path: seq<Thread>) {
    forall i :: 0 <= i < |path| - 1 ==> WaitsFor(l, path[i], path[i + 1])
  }

  /** An edge of the waits-for relation leads from an older to a younger transaction unless it was overtaken. */
  lemma EdgeAges(trace: seq<Locks>, events: seq<Event>, k: nat, t: Thread, u: Thread)
    requires IsRun(trace, events) && k < |trace| && WaitsFor(trace[k], t, u)
    ensures Overtaken(trace[k], t, u) || trace[k].sleepers[t].tx < trace[k].sleepers[u].tx
  {
    var l := trace[k];
    TraceAged(trace, events, k);
    var mode :| Blocks(l, l.sleepers[t], Holder(l.sleepers[u].tx, mode));
    assert GrantKnown(l, l.sleepers[t].res, Holder(l.sleepers[u].tx, mode));
    assert OlderThan(l, l.sleepers[t], Holder(l.sleepers[u].tx, mode));
  }

  /** The edge was overtaken by a transaction that is not younger. */
  ghost predicate PassedOver(l: Locks, t: Thread, u: Thread) {
    Overtaken(l, t, u) && l.sleepers[u].tx <= l.sleepers[t].tx
  }

  /** Along edges that lead to younger transactions only, the last transaction is younger than the first. */
  lemma {:induction false} PathAges(l: Locks, path: seq<Thread>)
    requires |path| >= 2 && WaitPath(l, path)
    requires forall i :: 0 <= i < |path| - 1 && WaitsFor(l, path[i], path[i + 1]) ==>
      l.sleepers[path[i]].tx < l.sleepers[path[i + 1]].tx
    ensures path[0] in l.sleepers && path[|path| - 1] in l.sleepers
    ensures l.sleepers[path[0]].tx < l.sleepers[path[|path| - 1]].tx
  {
    var n := |path|;
    assert WaitsFor(l, path[n - 2], path[n - 2 + 1]);
    if n > 2 {
      var p := path[..n - 1];
      forall i | 0 <= i < |p| - 1 ensures WaitsFor(l, p[i], p[i + 1]) && l.sleepers[p[i]].tx < l.sleepers[p[i + 1]].tx {
        assert WaitsFor(l, path[i], path[i + 1]);
      }
      PathAges(l, p);
    }
  }

  /**
   * In every reachable state, a waits-for cycle contains a lock that was granted after its waiter fell asleep, to a
   * transaction that is not younger than the waiter.
   */
  lemma CycleIsOvertaken(trace: seq<Locks>, events: seq<Event>, k: nat, path: seq<Thread>)
    requires IsRun(trace, events) && k < |trace| && |path| >= 2 && WaitPath(trace[k], path)
      && path[0] == path[|path| - 1]
    ensures exists i :: 0 <= i < |path| - 1 && PassedOver(trace[k], path[i], path[i + 1])
  {
    if forall i :: 0 <= i < |path| - 1 ==> !PassedOver(trace[k], path[i], path[i + 1]) {
      forall i | 0 <= i < |path| - 1 && WaitsFor(trace[k], path[i], path[i + 1])
        ensures trace[k].sleepers[path[i]].tx < trace[k].sleepers[path[i + 1]].tx
      {
        EdgeAges(trace, events, k, path[i], path[i + 1]);
        assert !PassedOver(trace[k], path[i], path[i + 1]);
      }
      PathAges(trace[k], path);
    }
  }

  // ---- When the waits-for relation stays ordered by age ------------------------------

  /** Everybody who sleeps is older than everybody who blocks. */
  ghost predicate AgeOrdered(l: Locks) {
    forall t, h :: t in l.sleepers && Blocks(l, l.sleepers[t], h) ==> l.sleepers[t].tx < h.tx
  }

  /** What the step asks the lock table for, if it asks for anything. */
  ghost predicate Asks(l: Locks, e: Event, tx: Tx, r: Resource, mode: Mode) {
    match e
    case Lock(thread, t, q, m) => thread !in l.sleepers && t in l.states && tx == t && r == q && mode == m
    case Wake(thread) => thread in l.sleepers && MayWake(l, l.sleepers[thread])
                         && tx == l.sleepers[thread].tx && r == l.sleepers[thread].res
                         && mode == l.sleepers[thread].mode
    case _ => false
  }

  /** The step gives the lock (rather than finding that it is already held). */
  ghost predicate Gives(l: Locks, e: Event, tx: Tx, r: Resource, mode: Mode) {
    Asks(l, e, tx, r, mode) && Decide(l, tx, r, mode) == Granted && Holder(tx, mode) !in Row(l, r)
  }

  /**
   * A thread sleeps, and goes on sleeping, for a lock that conflicts with the given one; its transaction is younger.
   */
  ghost predicate Passed(l: Locks, e: Event, tx: Tx, r: Resource, mode: Mode, t: Thread) {
    && t in l.sleepers && !(e.Wake? && e.thread == t)
    && l.sleepers[t].res == r && Conflicts(l.sleepers[t].mode, mode) && tx < l.sleepers[t].tx
  }

  /** The step grants a lock past a younger transaction that is asleep for a conflicting mode. */
  ghost predicate Barges(l: Locks, e: Event) {
    exists tx: Tx, r: Resource, mode: Mode, t: Thread :: Gives(l, e, tx, r, mode) && Passed(l, e, tx, r, mode, t)
  }

  lemma NewHolderGiven(l: Locks, e: Event, q: Resource, h: Holder)
    requires Inv(l) && h in Row(Next(l, e), q) && h !in Row(l, q)
    ensures Gives(l, e, h.tx, q, h.mode)
  {
    assert Row(Next(l, e), q) == Row(Effect(l, e), q);
    match e {
      case Begin(tx) =>
      case Lock(thread, tx, r, mode) => NewHolderAttempt(l, thread, tx, r, mode, q, h);
      case Wake(thread) =>
        var l' := l.(sleepers := l.sleepers - {thread}, signalled := l.signalled - {thread});
        var w := l.sleepers[thread];
        SameTables(l, l');
        assert Row(l', q) == Row(l, q) && Row(l', w.res) == Row(l, w.res);
        NewHolderAttempt(l', thread, w.tx, w.res, w.mode, q, h);
      case Release(tx, r) => UnlockHolders(l, tx, r, q, h);
      case Commit(tx) => FinishHolders(l, tx, Committed, q, h);
      case Abort(tx) => FinishHolders(l, tx, Aborted, q, h);
    }
  }

  lemma NewHolderAttempt(l: Locks, thread: Thread, tx: Tx, r: Resource, mode: Mode, q: Resource, h: Holder)
    requires Inv(l) && h in Row(Attempt(l, thread, tx, r, mode), q) && h !in Row(l, q)
    ensures q == r && h == Holder(tx, mode) && Decide(l, tx, r, mode) == Granted
  {
    match Decide(l, tx, r, mode) {
      case Refused =>
      case Sleeping =>
      case Granted => GrantRow(l, tx, r, mode);
      case Died => FinishHolders(l, tx, Aborted, q, h);
    }
  }

  /** Giving a lock leaves the other sleepers asleep and the requester in the table. */
  lemma GivenHolder(l: Locks, e: Event, tx: Tx, r: Resource, mode: Mode)
    requires Inv(l) && Gives(l, e, tx, r, mode)
    ensures Holder(tx, mode) in Row(Next(l, e), r)
    ensures forall t :: t in l.sleepers && !(e.Wake? && e.thread == t) ==>
      t in Next(l, e).sleepers && Next(l, e).sleepers[t] == l.sleepers[t]
  {
    var l' := if e.Wake? then l.(sleepers := l.sleepers - {e.thread}, signalled := l.signalled - {e.thread}) else l;
    assert Row(l', r) == Row(l, r);
    GrantRow(l', tx, r, mode);
    assert Row(Next(l, e), r) == Row(Grant(l', tx, r, mode), r);
  }

  /** From a state ordered by age, a step keeps the order exactly when it does not barge. */
  lemma OrderedUnlessBarging(l: Locks, e: Event)
    requires Inv(l) && AgeOrdered(l)
    ensures AgeOrdered(Next(l, e)) <==> !Barges(l, e)
  {
    var m := Next(l, e);
    if Barges(l, e) {
      var tx: Tx, r: Resource, mode: Mode, t: Thread :| Gives(l, e, tx, r, mode) && Passed(l, e, tx, r, mode, t);
      GivenHolder(l, e, tx, r, mode);
      assert Blocks(m, m.sleepers[t], Holder(tx, mode));
    } else {
      forall t, h | t in m.sleepers && Blocks(m, m.sleepers[t], h) ensures m.sleepers[t].tx < h.tx {
        StillOrdered(l, e, t, h);
      }
    }
  }

  /** A run is ordered by age in all its states up to k exactly when none of its first k steps barges. */
  lemma {:induction false} RunOrderedUnlessBarging(trace: seq<Locks>, events: seq<Event>, k: nat)
    requires IsRun(trace, events) && k < |trace|
    ensures (forall i: nat :: i <= k ==> AgeOrdered(trace[i])) <==>
      (forall i: nat :: i < k ==> !Barges(trace[i], events[i]))
  {
    if k > 0 {
      RunOrderedUnlessBarging(trace, events, k - 1);
      assert StepAt(trace, events, k - 1);
      TraceInv(trace, events, k - 1);
      if AgeOrdered(trace[k - 1]) { OrderedUnlessBarging(trace[k - 1], events[k - 1]); }
    }
  }

  /** Without barging there is no waits-for cycle. */
  lemma NoCycleWithoutBarging(trace: seq<Locks>, events: seq<Event>, k: nat, path: seq<Thread>)
    requires IsRun(trace, events) && k < |trace| && forall i: nat :: i < k ==> !Barges(trace[i], events[i])
    requires |path| >= 2 && WaitPath(trace[k], path)
    ensures path[0] != path[|path| - 1]
  {
    var l := trace[k];
    RunOrderedUnlessBarging(trace, events, k);
    forall i | 0 <= i < |path| - 1 && WaitsFor(l, path[i], path[i + 1])
      ensures l.sleepers[path[i]].tx < l.sleepers[path[i + 1]].tx
    {
      var mode :| Blocks(l, l.sleepers[path[i]], Holder(l.sleepers[path[i + 1]].tx, mode));
    }
    PathAges(l, path);
  }

  lemma StillOrdered(l: Locks, e: Event, t: Thread, h: Holder)
    requires Inv(l) && AgeOrdered(l) && !Barges(l, e) && t in Next(l, e).sleepers
      && Blocks(Next(l, e), Next(l, e).sleepers[t], h)
    ensures Next(l, e).sleepers[t].tx < h.tx
  {
    var m := Next(l, e);
    var w := m.sleepers[t];
    StepSleeper(l, e, t);
    if t in l.sleepers && l.sleepers[t] == w {
      if h in Row(l, w.res) {
        assert Blocks(l, l.sleepers[t], h);
      } else {
        NewHolderGiven(l, e, w.res, h);
        if h.tx < w.tx {
          WokenIsGone(l, e, h.tx, w.res, h.mode);
          assert Passed(l, e, h.tx, w.res, h.mode, t);
        }
      }
    } else {
      assert Row(m, w.res) == Row(l, w.res);
      assert Blocks(l, w, h);
    }
  }

  lemma WokenIsGone(l: Locks, e: Event, tx: Tx, r: Resource, mode: Mode)
    requires Inv(l) && Gives(l, e, tx, r, mode)
    ensures e.Wake? ==> e.thread !in Next(l, e).sleepers
  {
  }

  // ---- No lost wake-ups --------------------------------------------------------------

  /** Whoever could go on has been reached by a notification. */
  ghost predicate NoneForgotten(l: Locks) {
    forall t :: t in l.sleepers && MayWake(l, l.sleepers[t]) ==> t in l.signalled
  }

  /** A grant never makes room for anybody. */
  lemma GrantBlocks(l: Locks, tx: Tx, r: Resource, mode: Mode, w: Waiter)
    requires (HeldBy(Row(l, r), tx) ==> mode == Exclusive) && MayWake(Grant(l, tx, r, mode), w)
    ensures MayWake(l, w)
  {
    GrantRow(l, tx, r, mode);
    var m := Grant(l, tx, r, mode);
    if w.res == r && Compatible(Row(m, r), w.tx, w.mode) {
      forall h | h in Row(l, r) && h.tx != w.tx ensures !Conflicts(w.mode, h.mode) {
        assert h in Row(m, r) || Holder(tx, mode) in Row(m, r);
      }
    }
  }

  lemma AttemptForgetsNone(l: Locks, thread: Thread, tx: Tx, r: Resource, mode: Mode)
    requires NoneForgotten(l) && thread !in l.sleepers
    ensures NoneForgotten(Attempt(l, thread, tx, r, mode))
  {
    var m := Attempt(l, thread, tx, r, mode);
    match Decide(l, tx, r, mode) {
      case Refused =>
      case Sleeping => assert forall q :: Row(m, q) == Row(l, q);
      case Died =>
      case Granted =>
        if Holder(tx, mode) !in Row(l, r) {
          forall t | t in m.sleepers && MayWake(m, m.sleepers[t]) ensures t in m.signalled {
            GrantBlocks(l, tx, r, mode, l.sleepers[t]);
          }
        }
    }
  }

  lemma WakeForgetsNone(l: Locks, thread: Thread)
    requires NoneForgotten(l) && thread in l.sleepers
    ensures NoneForgotten(Effect(l, Wake(thread)))
  {
    var w := l.sleepers[thread];
    var l' := l.(sleepers := l.sleepers - {thread}, signalled := l.signalled - {thread});
    if MayWake(l, w) {
      assert forall q :: Row(l', q) == Row(l, q);
      AttemptForgetsNone(l', thread, w.tx, w.res, w.mode);
    } else {
      assert forall q :: Row(l.(signalled := l.signalled - {thread}), q) == Row(l, q);
    }
  }

  /** Every step that lets a sleeper go on also notifies it. */
  lemma StepForgetsNone(l: Locks, e: Event)
    requires NoneForgotten(l)
    ensures NoneForgotten(Next(l, e))
  {
    var m := Effect(l, e);
    assert forall q :: Row(Next(l, e), q) == Row(m, q);
    match e {
      case Begin(tx) => assert forall q :: Row(m, q) == Row(l, q);
      case Lock(thread, tx, r, mode) => if thread !in l.sleepers { AttemptForgetsNone(l, thread, tx, r, mode); }
      case Wake(thread) => if thread in l.sleepers { WakeForgetsNone(l, thread); }
      case Release(tx, r) =>
      case Commit(tx) =>
      case Abort(tx) =>
    }
  }

  /** In every reachable state, a sleeper that could go on has been notified: no wake-up is lost. */
  lemma {:induction false} NoLostWakeup(trace: seq<Locks>, events: seq<Event>, k: nat)
    requires IsRun(trace, events) && k < |trace|
    ensures NoneForgotten(trace[k])
  {
    if k > 0 {
      NoLostWakeup(trace, events, k - 1);
      assert StepAt(trace, events, k - 1);
      StepForgetsNone(trace[k - 1], events[k - 1]);
    }
  }

  // ---- Deadlock is reachable ---------------------------------------------------------

  /** Transactions 1, 2 and 3, resources 10 and 11, and threads numbered like their transactions. */
  const DEADLOCK: seq<Event> := [
    Begin(1), Begin(2), Begin(3),
    Lock(3, 3, 10, Exclusive), Lock(2, 2, 11, Exclusive),
    Lock(2, 2, 10, Exclusive),   // 2 is older than 3 and falls asleep
    Release(3, 10),              // 2 may go on, but
    Lock(1, 1, 10, Exclusive),   // 1 gets there first, past the sleeping 2
    Lock(1, 1, 11, Exclusive)    // 1 is older than 2 and falls asleep
  ]

  /** Asking for a free resource takes it. */
  lemma TakeFree(l: Locks, thread: Thread, tx: Tx, r: Resource)
    requires thread !in l.sleepers && Growth(l, tx) && r !in l.table
    ensures Next(l, Lock(thread, tx, r, Exclusive))
         == l.(table := l.table[r := [Holder(tx, Exclusive)]],
               held := l.held[tx := (if tx in l.held then l.held[tx] else {}) + {r}],
               grantedAt := l.grantedAt[(r, tx) := l.clock], clock := l.clock + 1)
  {
    assert Row(l, r) == [] && [] + [Holder(tx, Exclusive)] == [Holder(tx, Exclusive)];
  }

  /** Asking for what a younger transaction holds means sleeping. */
  lemma SleepBehind(l: Locks, thread: Thread, tx: Tx, r: Resource, other: Tx)
    requires thread !in l.sleepers && Growth(l, tx) && r in l.table && l.table[r] == [Holder(other, Exclusive)]
      && tx < other
    ensures Next(l, Lock(thread, tx, r, Exclusive))
         == l.(sleepers := l.sleepers[thread := Waiter(tx, r, Exclusive, l.clock)],
           signalled := l.signalled - {thread}, clock := l.clock + 1)
  {
    assert Holder(other, Exclusive) in Row(l, r);
  }

  /** Giving back a resource that nobody else holds. */
  lemma GiveBack(l: Locks, tx: Tx, r: Resource)
    requires Growth(l, tx) && r in l.table && l.table[r] == [Holder(tx, Exclusive)] && tx in l.held && l.held[tx] == {r}
    ensures Next(l, Release(tx, r))
         == l.(table := l.table - {r}, held := l.held - {tx}, states := l.states[tx := Shrinking],
               signalled := l.sleepers.Keys, clock := l.clock + 1)
  {
    assert Holder(tx, Exclusive) in Row(l, r);
    assert Strip(Row(l, r), tx) == [];
    assert {r} - {r} == {};
  }

  /** After three steps, the transactions have begun. */
  lemma DeadlockBegins() returns (trace: seq<Locks>)
    ensures IsRun(trace, DEADLOCK[..3])
    ensures var l := trace[3];
      Growth(l, 1) && Growth(l, 2) && Growth(l, 3) && l.table == map[] && l.held == map[] && l.sleepers == map[]
  {
    trace := Extend([EMPTY], DEADLOCK, 0);
    trace := Extend(trace, DEADLOCK, 1);
    trace := Extend(trace, DEADLOCK, 2);
  }

  /** After five steps, 3 holds resource 10 and 2 holds 11. */
  lemma DeadlockPrefix() returns (trace: seq<Locks>)
    ensures IsRun(trace, DEADLOCK[..5])
    ensures var l := trace[5];
      && Growth(l, 1) && Growth(l, 2) && Growth(l, 3)
      && l.table == map[10 := [Holder(3, Exclusive)], 11 := [Holder(2, Exclusive)]]
      && 3 in l.held && l.held[3] == {10} && l.sleepers == map[]
  {
    trace := DeadlockBegins();
    TakeFree(trace[3], 3, 3, 10);
    trace := Extend(trace, DEADLOCK, 3);
    TakeFree(trace[4], 2, 2, 11);
    trace := Extend(trace, DEADLOCK, 4);
  }

  /** The run `DEADLOCK` ends with two threads that wait for each other and can never wake by themselves:
      WAIT-DIE as implemented, where a sleeper never looks at ages again, does not exclude deadlock. */
  lemma DeadlockReachable() returns (trace: seq<Locks>)
    ensures IsRun(trace, DEADLOCK)
    ensures var l := trace[|DEADLOCK|];
      && WaitsFor(l, 1, 2) && WaitsFor(l, 2, 1) && !MayWake(l, l.sleepers[1]) && !MayWake(l, l.sleepers[2])
  {
    trace := DeadlockPrefix();
    SleepBehind(trace[5], 2, 2, 10, 3);
    trace := Extend(trace, DEADLOCK, 5);
    GiveBack(trace[6], 3, 10);
    trace := Extend(trace, DEADLOCK, 6);
    TakeFree(trace[7], 1, 1, 10);
    trace := Extend(trace, DEADLOCK, 7);
    SleepBehind(trace[8], 1, 1, 11, 2);
    trace := Extend(trace, DEADLOCK, 8);
    assert DEADLOCK[..9] == DEADLOCK;
    var l9 := trace[9];
    assert Blocks(l9, l9.sleepers[1], Holder(2, Exclusive));
    assert Blocks(l9, l9.sleepers[2], Holder(1, Exclusive));
  }
}
