/** The lock manager's answers and effects in terms of who holds what, and a transaction's state in terms of its run. */
module LockAnswers {
  import opened LockTable
  import opened LockTheorems

  // ---- Answers -----------------------------------------------------------------------

  /** A request finds somebody else in its way who forbids the mode: a reader only a writer, a writer anybody. */
  ghost predicate InTheWay(l: Locks, tx: Tx, r: Resource, mode: Mode, h: Holder) {
    h in Row(l, r) && h.tx != tx && (mode == Shared ==> h.mode == Exclusive)
  }

  /**
   * A growing transaction gets a shared lock exactly if nobody has an exclusive one, and an exclusive lock exactly if
   * nobody else has any lock. Otherwise it dies exactly if somebody older is in its way, and sleeps if only younger
   * ones are. It is refused exactly if it is not growing, or wants to read what it may already write.
   */
  lemma AnswerExact(l: Locks, tx: Tx, r: Resource)
    requires Inv(l)
    ensures Decide(l, tx, r, Shared) == Granted <==>
      Growth(l, tx) && forall h :: h in Row(l, r) ==> h.mode == Shared
    ensures Decide(l, tx, r, Exclusive) == Granted <==> Growth(l, tx) && forall h :: h in Row(l, r) ==> h.tx == tx
    ensures Decide(l, tx, r, Shared) == Refused <==> !Growth(l, tx) || Holder(tx, Exclusive) in Row(l, r)
    ensures Decide(l, tx, r, Exclusive) == Refused <==> !Growth(l, tx)
    ensures forall mode :: Decide(l, tx, r, mode) == Died <==>
      Growth(l, tx) && exists h :: InTheWay(l, tx, r, mode, h) && h.tx < tx
    ensures forall mode :: Decide(l, tx, r, mode) == Sleeping <==>
      && Growth(l, tx) && (exists h :: InTheWay(l, tx, r, mode, h))
      && forall h :: InTheWay(l, tx, r, mode, h) ==> tx < h.tx
  {
    assert RowOk(Row(l, r));
    forall mode, h | h in Row(l, r) && h.tx != tx ensures InTheWay(l, tx, r, mode, h) <==> Conflicts(mode, h.mode) {}
    if Holder(tx, Exclusive) in Row(l, r) { ExclusiveAlone(l, r, tx); }
  }

  /** Nobody shares a resource with a writer. */
  lemma ExclusiveAlone(l: Locks, r: Resource, tx: Tx)
    requires Inv(l) && Holder(tx, Exclusive) in Row(l, r)
    ensures forall h :: h in Row(l, r) ==> h == Holder(tx, Exclusive)
  {
    assert RowOk(Row(l, r));
  }

  // ---- Effects -----------------------------------------------------------------------

  /** The locks are as before except that the transaction has this one in this mode. */
  ghost predicate Gained(l: Locks, m: Locks, tx: Tx, r: Resource, mode: Mode) {
    forall q, h :: h in Row(m, q) <==> if q == r && h.tx == tx then h.mode == mode else h in Row(l, q)
  }

  /** The locks are as before except that the transaction has none. */
  ghost predicate LostAll(l: Locks, m: Locks, tx: Tx) {
    forall q, h :: h in Row(m, q) <==> h in Row(l, q) && h.tx != tx
  }

  /** The locks are as before except that the transaction does not have this one. */
  ghost predicate LostOne(l: Locks, m: Locks, tx: Tx, r: Resource) {
    forall q, h :: h in Row(m, q) <==> h in Row(l, q) && !(q == r && h.tx == tx)
  }

  ghost predicate SameLocks(l: Locks, m: Locks) {
    m.table == l.table && m.held == l.held
  }

  /** What a request leaves behind: exactly one lock more, exactly none of the transaction's, or one sleeper more. */
  lemma RequestExact(l: Locks, thread: Thread, tx: Tx, r: Resource, mode: Mode)
    requires Inv(l) && thread !in l.sleepers && tx in l.states
    ensures var m := Next(l, Lock(thread, tx, r, mode));
      match Decide(l, tx, r, mode)
      case Granted => Gained(l, m, tx, r, mode) && m.states == l.states && m.sleepers == l.sleepers
      case Refused => SameLocks(l, m) && m.states == l.states && m.sleepers == l.sleepers
      case Died => LostAll(l, m, tx) && m.states == l.states[tx := Aborted] && m.sleepers == l.sleepers
      case Sleeping =>
        SameLocks(l, m) && m.states == l.states && m.sleepers == l.sleepers[thread := Waiter(tx, r, mode, l.clock)]
  {
    var m := Next(l, Lock(thread, tx, r, mode));
    match Decide(l, tx, r, mode) {
      case Granted => GrantExact(l, m, tx, r, mode);
      case Died => EndExact(l, m, tx, Aborted);
      case _ =>
    }
  }

  lemma GrantExact(l: Locks, m: Locks, tx: Tx, r: Resource, mode: Mode)
    requires Inv(l) && Decide(l, tx, r, mode) == Granted
    requires m.table == (if Holder(tx, mode) in Row(l, r) then l else Grant(l, tx, r, mode)).table
    ensures Gained(l, m, tx, r, mode)
  {
    assert RowOk(Row(l, r));
    var g := if Holder(tx, mode) in Row(l, r) then l else Grant(l, tx, r, mode);
    assert forall q :: Row(m, q) == Row(g, q);
    if Holder(tx, mode) !in Row(l, r) { GrantRow(l, tx, r, mode); }
  }

  lemma EndExact(l: Locks, m: Locks, tx: Tx, state: TxState)
    requires Inv(l) && m.table == Finish(l, tx, state).table
    ensures LostAll(l, m, tx)
  {
    forall q ensures Row(m, q) == Strip(Row(l, q), tx) { ReleaseRow(l, tx, q); }
  }

  /** A transaction that is not over ends in the state it asked for, without a lock; one that is over stays as it is. */
  lemma FinishExact(l: Locks, tx: Tx, commit: bool)
    requires Inv(l)
    ensures var m := Next(l, if commit then Commit(tx) else Abort(tx));
      if tx in l.states && l.states[tx] in {Growing, Shrinking}
      then LostAll(l, m, tx) && m.states == l.states[tx := if commit then Committed else Aborted]
        && m.sleepers == l.sleepers && m.signalled == l.sleepers.Keys
      else m == l.(clock := m.clock)
  {
    var m := Next(l, if commit then Commit(tx) else Abort(tx));
    if tx in l.states && l.states[tx] in {Growing, Shrinking} {
      EndExact(l, m, tx, if commit then Committed else Aborted);
    } else if tx in l.states {
      assert l.states[tx].Committed? || l.states[tx].Aborted?;
    }
  }

  /** Giving back succeeds exactly for a lock that is held, in the growing phase and after it. */
  lemma ReleaseExact(l: Locks, tx: Tx, r: Resource)
    requires Inv(l)
    ensures CanUnlock(l, tx, r) <==> exists h :: h in Row(l, r) && h.tx == tx
    ensures var m := Next(l, Release(tx, r));
      if exists h :: h in Row(l, r) && h.tx == tx
      then LostOne(l, m, tx, r) && m.states == l.states[tx := Shrinking] && m.sleepers == l.sleepers
      else m == l.(clock := m.clock)
  {
    var m := Next(l, Release(tx, r));
    if h :| h in Row(l, r) && h.tx == tx {
      assert Holds(l, tx, r) && Lists(l, tx, r);
      forall q ensures Row(m, q) == if q == r then Strip(Row(l, r), tx) else Row(l, q) { UnlockRow(l, tx, r, q); }
    }
  }

  /** A sleeper may go on exactly if its transaction was aborted or nobody is in its way any more. */
  lemma WakesIff(l: Locks, w: Waiter)
    ensures MayWake(l, w) <==>
      (w.tx in l.states && l.states[w.tx] == Aborted) || forall h :: !InTheWay(l, w.tx, w.res, w.mode, h)
  {
    forall h | h in Row(l, w.res) && h.tx != w.tx
      ensures InTheWay(l, w.tx, w.res, w.mode, h) <==> Conflicts(w.mode, h.mode) {}
  }

  /** It then has its lock if it is still growing and did not want to read what it may write. */
  lemma WokenExact(l: Locks, thread: Thread)
    requires Inv(l) && thread in l.sleepers && MayWake(l, l.sleepers[thread])
    ensures var m, w := Next(l, Wake(thread)), l.sleepers[thread];
      && m.sleepers == l.sleepers - {thread} && m.states == l.states
      && if Growth(l, w.tx) && !(w.mode == Shared && Holder(w.tx, Exclusive) in Row(l, w.res))
         then Gained(l, m, w.tx, w.res, w.mode) else SameLocks(l, m)
  {
    var m, w := Next(l, Wake(thread)), l.sleepers[thread];
    var l' := l.(sleepers := l.sleepers - {thread}, signalled := l.signalled - {thread});
    assert Row(l', w.res) == Row(l, w.res) && RowOk(Row(l, w.res));
    if Decide(l', w.tx, w.res, w.mode) == Granted {
      SameTables(l, l');
      GrantExact(l', m, w.tx, w.res, w.mode);
      assert forall q :: Row(l', q) == Row(l, q);
    }
  }

  /** A sleeper that may not go on sleeps on, and nothing changes. */
  lemma AsleepExact(l: Locks, thread: Thread)
    requires thread in l.sleepers && !MayWake(l, l.sleepers[thread])
    ensures var m := Next(l, Wake(thread)); m.sleepers == l.sleepers && SameLocks(l, m) && m.states == l.states
  {
  }

  // ---- A transaction's state ---------------------------------------------------------

  ghost predicate Open(l: Locks, tx: Tx) {
    tx in l.states && l.states[tx] in {Growing, Shrinking}
  }

  /** The transaction asks for a lock that somebody older keeps from it. */
  ghost predicate Dies(l: Locks, e: Event, tx: Tx) {
    && e.Lock? && e.tx == tx && e.thread !in l.sleepers && Growth(l, tx)
    && exists h :: InTheWay(l, tx, e.res, e.mode, h) && h.tx < tx
  }

  ghost predicate GivesBack(l: Locks, e: Event, tx: Tx) {
    e.Release? && e.tx == tx && Open(l, tx) && exists h :: h in Row(l, e.res) && h.tx == tx
  }

  /** The step ends the transaction in this state. */
  ghost predicate EndsAs(l: Locks, e: Event, tx: Tx, state: TxState) {
    && Open(l, tx)
    && ((state == Committed && e == Commit(tx)) || (state == Aborted && (e == Abort(tx) || Dies(l, e, tx))))
  }

  lemma RequestState(l: Locks, e: Event)
    requires Inv(l) && e.Lock?
    ensures var m := Next(l, e);
      m.states == if e.thread !in l.sleepers && Dies(l, e, e.tx) then l.states[e.tx := Aborted] else l.states
  {
    if e.thread !in l.sleepers && e.tx in l.states {
      RequestExact(l, e.thread, e.tx, e.res, e.mode);
      AnswerExact(l, e.tx, e.res);
    }
  }

  lemma WakeState(l: Locks, thread: Thread)
    requires Inv(l)
    ensures Next(l, Wake(thread)).states == l.states
  {
    if thread in l.sleepers && MayWake(l, l.sleepers[thread]) { WokenExact(l, thread); }
  }

  /** The one step that changes a transaction's state is a step of its own. */
  lemma StepState(l: Locks, e: Event, tx: Tx)
    requires Inv(l)
    ensures var m := Next(l, e);
      && (tx in m.states <==> tx in l.states || e == Begin(tx))
      && (tx !in l.states && e == Begin(tx) ==> m.states[tx] == Growing)
      && (tx in l.states ==>
            m.states[tx] == if EndsAs(l, e, tx, Committed) then Committed else if EndsAs(l, e, tx, Aborted) then Aborted
              else if GivesBack(l, e, tx) then Shrinking else l.states[tx])
  {
    match e {
      case Lock(_, _, _, _) => RequestState(l, e);
      case Wake(thread) => WakeState(l, thread);
      case Release(t, r) => ReleaseExact(l, t, r);
      case _ =>
    }
  }

  ghost predicate EndsAt(trace: seq<Locks>, events: seq<Event>, i: nat, tx: Tx, state: TxState) {
    i < |events| && i < |trace| && EndsAs(trace[i], events[i], tx, state)
  }

  ghost predicate GivesBackAt(trace: seq<Locks>, events: seq<Event>, i: nat, tx: Tx) {
    i < |events| && i < |trace| && GivesBack(trace[i], events[i], tx)
  }

  /** Some one of the first k steps ended the transaction in this state. */
  ghost predicate EndedBy(trace: seq<Locks>, events: seq<Event>, k: nat, tx: Tx, state: TxState) {
    exists i: nat :: i < k && EndsAt(trace, events, i, tx, state)
  }

  ghost predicate ShrankBy(trace: seq<Locks>, events: seq<Event>, k: nat, tx: Tx) {
    exists i: nat :: i < k && GivesBackAt(trace, events, i, tx)
  }

  /**
   * In every state of every run, a transaction exists exactly if it has begun, and it is committed exactly if it
   * committed while it was open; it is aborted exactly if it was aborted while it was open or died of a request;
   * otherwise it is shrinking exactly if it has given back a lock, and growing if it has not.
   */
  lemma {:induction false} StateHistory(trace: seq<Locks>, events: seq<Event>, k: nat, tx: Tx)
    requires IsRun(trace, events) && k < |trace|
    ensures tx in trace[k].states <==> Begin(tx) in events[..k]
    ensures tx in trace[k].states ==>
      trace[k].states[tx] == if EndedBy(trace, events, k, tx, Committed) then Committed
        else if EndedBy(trace, events, k, tx, Aborted) then Aborted
        else if ShrankBy(trace, events, k, tx) then Shrinking else Growing
    ensures EndedBy(trace, events, k, tx, Committed) ==> tx in trace[k].states
    ensures EndedBy(trace, events, k, tx, Aborted) ==> tx in trace[k].states
    ensures ShrankBy(trace, events, k, tx) ==> tx in trace[k].states
  {
    if k > 0 {
      StateHistory(trace, events, k - 1, tx);
      TraceInv(trace, events, k - 1);
      assert StepAt(trace, events, k - 1);
      StepState(trace[k - 1], events[k - 1], tx);
      assert events[..k] == events[..k - 1] + [events[k - 1]];
      Later(trace, events, k, tx, Committed);
      Later(trace, events, k, tx, Aborted);
    }
  }

  /** What has happened by step k has happened by step k - 1, or at step k - 1. */
  lemma Later(trace: seq<Locks>, events: seq<Event>, k: nat, tx: Tx, state: TxState)
    requires IsRun(trace, events) && 0 < k < |trace|
    ensures EndedBy(trace, events, k, tx, state) <==>
      EndedBy(trace, events, k - 1, tx, state) || EndsAs(trace[k - 1], events[k - 1], tx, state)
    ensures ShrankBy(trace, events, k, tx) <==>
      ShrankBy(trace, events, k - 1, tx) || GivesBack(trace[k - 1], events[k - 1], tx)
  {
    assert EndsAt(trace, events, k - 1, tx, state) <==> EndsAs(trace[k - 1], events[k - 1], tx, state);
    assert GivesBackAt(trace, events, k - 1, tx) <==> GivesBack(trace[k - 1], events[k - 1], tx);
  }

  /** A transaction that commits while it is open is committed in every later state, and one that aborts aborted. */
  lemma EndStays(trace: seq<Locks>, events: seq<Event>, i: nat, k: nat, tx: Tx, state: TxState)
    requires IsRun(trace, events) && i < k < |trace| && EndsAs(trace[i], events[i], tx, state)
    ensures tx in trace[k].states && trace[k].states[tx] == state
    decreases k
  {
    if i + 1 < k { EndStays(trace, events, i, k - 1, tx, state); }
    TraceInv(trace, events, k - 1);
    assert StepAt(trace, events, k - 1);
    StepState(trace[k - 1], events[k - 1], tx);
  }

  // ---- Readers share -----------------------------------------------------------------

  /** Two transactions read resource 10; one gives it back, and the other one goes on to write it. */
  const READERS: seq<Event> := [
    Begin(1), Begin(2),
    Lock(1, 1, 10, Shared), Lock(2, 2, 10, Shared),
    Release(1, 10),
    Lock(2, 2, 10, Exclusive)
  ]

  /** Asking to read what nobody writes adds a reader. */
  lemma ReadToo(l: Locks, thread: Thread, tx: Tx, r: Resource)
    requires thread !in l.sleepers && Growth(l, tx) && forall h :: h in Row(l, r) ==> h.tx != tx && h.mode == Shared
    ensures var m := Next(l, Lock(thread, tx, r, Shared));
      Row(m, r) == Row(l, r) + [Holder(tx, Shared)] && m.states == l.states && m.sleepers == l.sleepers
  {
  }

  lemma ReadersShare() returns (trace: seq<Locks>)
    ensures IsRun(trace, READERS[..4])
    ensures var l := trace[4];
      && Row(l, 10) == [Holder(1, Shared), Holder(2, Shared)] && l.states == map[1 := Growing, 2 := Growing]
      && l.sleepers == map[]
  {
    trace := Extend([EMPTY], READERS, 0);
    trace := Extend(trace, READERS, 1);
    ReadToo(trace[2], 1, 1, 10);
    trace := Extend(trace, READERS, 2);
    ReadToo(trace[3], 2, 2, 10);
    trace := Extend(trace, READERS, 3);
  }

  /** The run reaches a state in which both hold the resource, and one in which the second holds it exclusively. */
  lemma ReadersThenWriter() returns (trace: seq<Locks>)
    ensures IsRun(trace, READERS) && Row(trace[4], 10) == [Holder(1, Shared), Holder(2, Shared)]
    ensures Row(trace[6], 10) == [Holder(2, Exclusive)] && trace[6].states == map[1 := Shrinking, 2 := Growing]
  {
    trace := ReadersShare();
    var l := trace[4];
    assert Holder(1, Shared) in Row(l, 10) && Holder(2, Shared) in Row(l, 10);
    assert Strip(Row(l, 10), 1) == [Holder(2, Shared)];
    trace := Extend(trace, READERS, 4);
    assert Row(trace[5], 10) == [Holder(2, Shared)] && Holder(2, Shared) in Row(trace[5], 10);
    trace := Extend(trace, READERS, 5);
    assert READERS[..6] == READERS;
  }
}
