/** Commit and abort: durability first, then the locks. */
module Coordinators {
  import opened StorageTypes
  import opened FrameTable
  import opened BufferPools
  import opened WalCodec
  import opened WalLog
  import opened PageManagers
  import opened LogManagers
  import opened Rollbacks
  import opened Transactions
  import opened RecoveryAnalysis
  import opened CommitRuns
  import L = LockTable
  import LM = LockManagers

  /** The log's record k ends the transaction in the given way and is durable. */
  ghost predicate EndedDurably(log: LogManager, tx: nat, kind: WalKind)
    reads log
  {
    exists k :: 0 <= k < |log.records| && log.records[k].lsn <= log.durableLsn
      && log.records[k] == WalRecord(log.records[k].lsn, tx, kind, [])
  }

  /** The log with a terminal record appended and, if the flush succeeds, everything durable. */
  function Ended(v: LogView, tx: nat, kind: WalKind): LogView {
    LogView(v.records + [WalRecord(v.next, tx, kind, [])], v.next + 1, if v.fault then v.durable else v.next, false)
  }

  /** Appends a terminal record and makes it durable. */
  method LogEnd(log: LogManager, tx: nat, kind: WalKind) returns (ok: bool)
    requires log.Valid() && tx < U64 && log.nextLsn + 1 < U64
    modifies log
    ensures log.Valid() && (ok <==> !old(log.failNextFlush)) && log.View() == Ended(old(log.View()), tx, kind)
    ensures ok ==> EndedDurably(log, tx, kind)
  {
    var lsn := log.Append(kind, tx, []);
    ok := log.Flush();
    assert log.records[|old(log.records)|].lsn == old(log.nextLsn);
  }

  class Coordinator {
    const locks: LM.LockManager
    const log: LogManager?

    constructor (locks: LM.LockManager, log: LogManager?)
      ensures this.locks == locks && this.log == log
    {
      this.locks, this.log := locks, log;
    }

    ghost predicate Ready(tx: Transaction)
      reads locks, log, tx, tx.pool, tx.pool.pm, tx.log
    {
      && tx.Valid() && tx.id in locks.states && tx.id < U64 && (tx.log == null || tx.log == log)
      && (log != null ==> log.Valid() && log.nextLsn + 1 < U64)
    }

    predicate Over(tx: nat)
      reads locks
    {
      tx in locks.states && (locks.states[tx] == L.Committed || locks.states[tx] == L.Aborted)
    }

    /**
     * Commits: every change has its LSN and the Commit record is durable before any lock is released. False stands
     * for an exception, after which the transaction still holds its locks.
     */
    method Commit(tx: Transaction) returns (ok: bool)
      requires Ready(tx)
      modifies locks, log
      ensures tx.Valid()
      ensures old(Over(tx.id)) ==> ok && locks.State() == old(locks.State())
      ensures !ok ==> locks.State() == old(locks.State())
      ensures ok && !old(Over(tx.id)) ==> locks.State() == L.Next(old(locks.State()), L.Commit(tx.id))
      ensures ok && !old(Over(tx.id)) ==> locks.states == old(locks.states)[tx.id := L.Committed]
      ensures ok && !old(Over(tx.id)) ==>
        tx.watched == [] && tx.finalized == |tx.mutations| && (log != null ==> EndedDurably(log, tx.id, WalKind.Commit))
      ensures !old(Over(tx.id)) && log != null ==>
        (ok <==> tx.watched == [] && tx.finalized == |tx.mutations| && !old(log.failNextFlush))
      ensures !old(Over(tx.id)) && log == null ==> (ok <==> tx.watched == [] && tx.finalized == |tx.mutations|)
      ensures log != null ==> log.Valid()
      ensures log != null && (old(Over(tx.id)) || tx.watched != [] || tx.finalized != |tx.mutations|) ==>
        log.View() == old(log.View())
      ensures log != null && !old(Over(tx.id)) && tx.watched == [] && tx.finalized == |tx.mutations| ==>
        log.View() == Ended(old(log.View()), tx.id, WalKind.Commit)
    {
      if Over(tx.id) { return true; }
      if log != null {
        ok := PrepareCommit(tx);
        if !ok { return; }
      }
      if tx.watched != [] || tx.finalized != |tx.mutations| { return false; }
      locks.CommitTransaction(tx.id);
      ok := true;
    }

    /** Makes the Commit record durable once every change has its LSN; false stands for an exception. */
    method PrepareCommit(tx: Transaction) returns (ok: bool)
      requires tx.Valid() && tx.id < U64 && (tx.log == null || tx.log == log) && log != null && log.Valid()
        && log.nextLsn + 1 < U64
      modifies log
      ensures tx.Valid() && log.Valid()
        && (ok <==> tx.watched == [] && tx.finalized == |tx.mutations| && !old(log.failNextFlush))
      ensures log.View() ==
        (if tx.watched != [] || tx.finalized != |tx.mutations| then old(log.View())
          else Ended(old(log.View()), tx.id, WalKind.Commit))
      ensures ok ==> EndedDurably(log, tx.id, WalKind.Commit)
    {
      if tx.watched != [] || tx.finalized != |tx.mutations| { return false; }
      ok := LogEnd(log, tx.id, WalKind.Commit);
    }

    /** Rolls back and makes the Abort record durable; false stands for an exception. */
    method PrepareAbort(tx: Transaction) returns (ok: bool)
      requires Ready(tx) && log != null
      modifies log, tx`resolved, tx`open
      modifies tx.pool`frames, tx.pool`table, tx.pool`free, tx.pool`lru, tx.pool`touched
      modifies tx.pool.pm`pages, tx.pool.pm`live, tx.pool.pm`liveCount
      ensures tx.Valid() && log.Valid()
      ensures log.View() != old(log.View()) ==>
        RolledBack(tx, old(tx.pool.View()), old(tx.pool.S()), old(tx.Own()), old(tx.pool.pm.live))
      ensures ok ==> EndedDurably(log, tx.id, WalKind.Abort)
      ensures log.View() == old(log.View()) || log.View() == Ended(old(log.View()), tx.id, WalKind.Abort)
      ensures ok <==> log.View() != old(log.View()) && !old(log.failNextFlush)
      ensures tx.watched == [] && CanRollBack(old(tx.pool.S()), old(tx.pool.pm.live), old(tx.Own())) ==>
        log.View() != old(log.View())
      ensures log.View() == old(log.View()) ==> tx.watched != [] || tx.Stuck()
      ensures FlowedBack(old(tx.pool.View()), tx.mutations[..old(tx.open)], tx.pool.durable, old(tx.pool.pm.pages),
        tx.pool.pm.pages)
    {
      ok := tx.RollbackForAbort();
      if !ok { return; }
      ok := LogEnd(log, tx.id, WalKind.Abort);
    }

    /**
     * Aborts a running transaction that logs: everything is rolled back and the Abort record is durable before any
     * lock is released. False stands for an exception, after which the transaction still holds its locks.
     */
    method AbortLogged(tx: Transaction) returns (ok: bool)
      requires Ready(tx) && log != null && !Over(tx.id)
      modifies locks, log, tx`resolved, tx`open
      modifies tx.pool`frames, tx.pool`table, tx.pool`free, tx.pool`lru, tx.pool`touched
      modifies tx.pool.pm`pages, tx.pool.pm`live, tx.pool.pm`liveCount
      ensures tx.Valid() && log.Valid()
      ensures locks.State() == if ok then L.Next(old(locks.State()), L.Abort(tx.id)) else old(locks.State())
      ensures ok ==> locks.states == old(locks.states)[tx.id := L.Aborted]
      ensures log.View() != old(log.View()) ==>
        RolledBack(tx, old(tx.pool.View()), old(tx.pool.S()), old(tx.Own()), old(tx.pool.pm.live))
      ensures ok ==> EndedDurably(log, tx.id, WalKind.Abort)
      ensures log.View() == old(log.View()) || log.View() == Ended(old(log.View()), tx.id, WalKind.Abort)
      ensures ok <==> log.View() != old(log.View()) && !old(log.failNextFlush)
      ensures tx.watched == [] && CanRollBack(old(tx.pool.S()), old(tx.pool.pm.live), old(tx.Own())) ==>
        log.View() != old(log.View())
      ensures log.View() == old(log.View()) ==> tx.watched != [] || tx.Stuck()
      ensures FlowedBack(old(tx.pool.View()), tx.mutations[..old(tx.open)], tx.pool.durable, old(tx.pool.pm.pages),
        tx.pool.pm.pages)
    {
      ok := PrepareAbort(tx);
      if !ok { return; }
      ok := ReleaseAborted(tx);
    }

    /**
     * Aborts. A transaction that died waiting for a lock is over already, and nothing of it is rolled back; without a
     * log, a transaction with changes cannot be aborted.
     */
    method Abort(tx: Transaction) returns (ok: bool)
      requires Ready(tx)
      modifies locks, log, tx`resolved, tx`open
      modifies tx.pool`frames, tx.pool`table, tx.pool`free, tx.pool`lru, tx.pool`touched
      modifies tx.pool.pm`pages, tx.pool.pm`live, tx.pool.pm`liveCount
      ensures tx.Valid()
      ensures old(Over(tx.id)) ==>
        ok && locks.State() == old(locks.State()) && tx.pool.View() == old(tx.pool.View()) && tx.open == old(tx.open)
      ensures old(Over(tx.id)) ==> tx.pool.pm.pages == old(tx.pool.pm.pages) && tx.pool.pm.live == old(tx.pool.pm.live)
      ensures !old(Over(tx.id)) ==>
        locks.State() == if ok then L.Next(old(locks.State()), L.Abort(tx.id)) else old(locks.State())
      ensures !old(Over(tx.id)) && ok ==> tx.open == 0 && locks.states == old(locks.states)[tx.id := L.Aborted]
      ensures !old(Over(tx.id)) && ok && log != null ==> EndedDurably(log, tx.id, WalKind.Abort)
      ensures log != null && log.View() != old(log.View()) ==>
        RolledBack(tx, old(tx.pool.View()), old(tx.pool.S()), old(tx.Own()), old(tx.pool.pm.live))
      ensures !old(Over(tx.id)) && log == null ==>
        (ok <==> tx.watched == [] && tx.open == 0) && tx.pool.View() == old(tx.pool.View())
      ensures log != null ==>
        log.Valid() && (log.View() == old(log.View()) || log.View() == Ended(old(log.View()), tx.id, WalKind.Abort))
      ensures old(Over(tx.id)) && log != null ==> log.View() == old(log.View())
      ensures log != null ==> ((ok && !old(Over(tx.id))) <==> log.View() != old(log.View()) && !old(log.failNextFlush))
      ensures
          !old(Over(tx.id)) && log != null && tx.watched == []
          && CanRollBack(old(tx.pool.S()), old(tx.pool.pm.live), old(tx.Own())) ==>
        log.View() != old(log.View())
      ensures !old(Over(tx.id)) && log != null && log.View() == old(log.View()) ==> tx.watched != [] || tx.Stuck()
      ensures old(tx.open) <= |tx.mutations|
      ensures FlowedBack(old(tx.pool.View()), tx.mutations[..old(tx.open)], tx.pool.durable, old(tx.pool.pm.pages),
        tx.pool.pm.pages)
    {
      if Over(tx.id) { return true; }
      if log == null {
        ok := ReleaseAborted(tx);
      } else {
        ok := AbortLogged(tx);
      }
    }

    /** Releases the locks of a transaction that has nothing left to undo. */
    method ReleaseAborted(tx: Transaction) returns (ok: bool)
      requires tx.Valid() && tx.id in locks.states && !Over(tx.id)
      modifies locks
      ensures tx.Valid() && (ok <==> tx.watched == [] && tx.open == 0)
      ensures ok ==> locks.states == old(locks.states)[tx.id := L.Aborted]
      ensures locks.State() == if ok then L.Next(old(locks.State()), L.Abort(tx.id)) else old(locks.State())
    {
      var unresolved := tx.HasUnresolved();
      if unresolved { return false; }
      locks.AbortTransaction(tx.id);
      ok := true;
    }
  }

  /**
   * Every page that the transaction changed is at hand, and nobody else has unlogged changes on those it has logged.
   */
  ghost predicate CanRollBack(s: Frames, live: set<PageId>, l: Ledger) {
    l.open <= |l.mutations| && AllHandy(s, live, l.mutations, l.open) && Alone(s, l)
  }

  /**
   * Every page is again what the transaction's first change found, only others' gates are closed, and its pages are
   * free.
   */
  ghost predicate RolledBack(tx: Transaction, was: View, s: Frames, l: Ledger, live: set<PageId>)
    reads tx, tx.pool, tx.pool.pm
  {
    && l.open <= |tx.mutations| && tx.open == 0 && tx.watched == []
    && tx.pool.View() == Undone(was, tx.mutations[..l.open], 0)
    && tx.pool.pm.live == live - PageSet(tx.granted)
    && forall p: PageId :: PendingOf(tx.pool.S(), p) == PendingOf(s, p) - OwnGates(l, p)
  }

  // ---- Every operation is a step of the run ---------------------------------------------

  /** The coordinator's log and locks are those of the node. */
  ghost predicate Stands(c: Coordinator, n: Node)
    reads c.log, c.locks
  {
    c.log != null && Logged(c.log.View(), n) && c.locks.State() == n.locks
  }

  /** The coordinator has made the step, if there is one. */
  ghost predicate Stepped(c: Coordinator, n: Node, e: Option<Event>)
    reads c.log, c.locks
  {
    && c.log != null && c.log.Valid()
    && match e
       case None => Stands(c, n)
       case Some(x) => Enabled(n, x) && Stands(c, CommitRuns.Next(n, x))
  }

  ghost predicate Logged(v: LogView, n: Node) {
    v.records == Records(n.es) && v.next == n.next && v.durable == n.durable
  }

  lemma RecordsAppend(es: seq<Entry>, e: Entry)
    ensures Records(es + [e]) == Records(es) + [RecordOf(e)]
  {
  }

  function EndOf(commit: bool): Action {
    if commit then CommitTx else AbortTx
  }

  /** A terminal record, flushed or not, is a step of the run. */
  lemma EndIsStep(v: LogView, n: Node, tx: nat, commit: bool)
    requires Logged(v, n) && 0 < n.next < U64 && tx < U64 && tx in n.locks.states && !L.Terminal(n.locks, tx)
    ensures var e := Forced(tx, EndOf(commit), !v.fault);
      Enabled(n, e) && Logged(Ended(v, tx, if commit then WalKind.Commit else WalKind.Abort), CommitRuns.Next(n, e))
  {
    RecordsAppend(n.es, Entry(n.next, tx, EndOf(commit)));
  }

  /** What an abort does to the log and the locks is one step, or nothing. */
  lemma AbortIsStep(v: LogView, w: LogView, n: Node, locks: L.Locks, tx: nat, ok: bool, over: bool)
      returns (e: Option<Event>)
    requires Logged(v, n) && 0 < n.next < U64 && tx < U64 && tx in n.locks.states && (over <==> L.Terminal(n.locks, tx))
    requires w == v || (!over && w == Ended(v, tx, WalKind.Abort))
    requires (ok && !over) <==> (w != v && !v.fault)
    requires locks == if ok && !over then L.Next(n.locks, L.Abort(tx)) else n.locks
    ensures (e.None? <==> w == v) && (over ==> e.None?)
      && (e.Some? ==> e.value == Forced(tx, AbortTx, ok) && Enabled(n, e.value))
    ensures var to := if e.None? then n else CommitRuns.Next(n, e.value); Logged(w, to) && locks == to.locks
  {
    if w == v { return None; }
    EndIsStep(v, n, tx, false);
    e := Some(Forced(tx, AbortTx, ok));
  }

  lemma ChangeIsStep(v: LogView, n: Node, tx: nat, m: PhysicalMutation)
    requires Logged(v, n) && 0 < n.next < U64 && tx < U64 && Loggable(m) && m.page < U64 && m.sequence < U64
    ensures var e := Wrote(tx, WritePage(m.(previousLsn := 0)));
      Enabled(n, e) && Logged(Appended(v, tx, m), CommitRuns.Next(n, e))
  {
    var e := Entry(n.next, tx, WritePage(m.(previousLsn := 0)));
    assert EncodeMutation(m.(previousLsn := 0)) == EncodeMutation(m);
    RecordsAppend(n.es, e);
  }

  lemma AllocationIsStep(v: LogView, n: Node, tx: nat, page: PageId)
    requires Logged(v, n) && 0 < n.next < U64 && tx < U64 && page < INVALID
    ensures var e := Forced(tx, AllocatePage(page), !v.fault);
      Enabled(n, e) && Logged(Allocated(v, tx, page), CommitRuns.Next(n, e))
  {
    RecordsAppend(n.es, Entry(n.next, tx, AllocatePage(page)));
  }

  /** Starting a transaction: its Begin record. */
  method BeginStep(c: Coordinator, tx: nat, ghost n: Node) returns (ghost e: Event)
    requires c.log != null && c.log.Valid() && c.log.nextLsn + 1 < U64 && tx < U64 && Stands(c, n)
    modifies c.log
    ensures e == Wrote(tx, BeginTx) && Stepped(c, n, Some(e))
  {
    var lsn := c.log.Append(WalKind.Begin, tx, []);
    e := Wrote(tx, BeginTx);
    RecordsAppend(n.es, Entry(n.next, tx, BeginTx));
  }

  /** Ending the capture of a page, which logs what changed on it, if anything did. */
  method ChangeStep(c: Coordinator, tx: Transaction, page: PageId, ghost n: Node)
      returns (ok: bool, ghost e: Option<Event>)
    requires c.Ready(tx) && tx.log != null && tx.open == |tx.mutations| && tx.AtHand(page) && page < INVALID
      && tx.sequence < U64 && Stands(c, n)
    requires |PageOf(tx.pool.S(), page).data| == PAYLOAD_SIZE && forall w :: w in tx.watched ==>
      |w.before| == PAYLOAD_SIZE
    modifies c.log, tx`watched, tx`sequence, tx`mutations, tx`resolved, tx`finalized, tx`open, tx.pool`frames,
      tx.pool`touched
    ensures Stepped(c, n, e) && page in old(tx.pool.View()) && (ok <==> old(tx.WatchedAt(page, 0)) < |old(tx.watched)|)
    ensures e.Some? <==> ok && old(tx.pool.View())[page].data != old(tx.watched)[old(tx.WatchedAt(page, 0))].before
    ensures e.Some? ==>
      var before, after := old(tx.watched)[old(tx.WatchedAt(page, 0))].before, old(tx.pool.View())[page].data;
      && e.value == Wrote(tx.id, WritePage(PhysicalMutation(page, old(tx.sequence), before, after, 0)))
      && tx.pool.View() == old(tx.pool.View())[page := Page(after, old(c.log.nextLsn))]
    ensures e.None? ==> tx.pool.View() == old(tx.pool.View())
  {
    ghost var v, ms := c.log.View(), tx.mutations;
    ok := tx.Finish(page);
    e := None;
    if tx.mutations != ms {
      ghost var m := tx.mutations[|tx.mutations| - 1];
      e := Some(Wrote(tx.id, WritePage(m.(previousLsn := 0))));
      ChangeIsStep(v, n, tx.id, m);
    }
  }

  /** Allocating a page, unless the catalog is full. */
  method AllocateStep(c: Coordinator, tx: Transaction, ghost n: Node)
      returns (r: Option<PageId>, ghost e: Option<Event>)
    requires c.Ready(tx) && tx.log != null && Stands(c, n)
    modifies c.log, tx`granted, tx.pool.pm`pages, tx.pool.pm`count, tx.pool.pm`live, tx.pool.pm`liveCount
    ensures Stepped(c, n, e) && (e.None? <==> old(tx.pool.pm.count) >= CATALOG_BITS)
    ensures if e.None? then r.None? else e.value == Forced(tx.id, AllocatePage(old(tx.pool.pm.count)), r.Some?)
    ensures r.Some? <==> e.Some? && !old(c.log.failNextFlush)
  {
    ghost var page, v := tx.pool.pm.count, c.log.View();
    r := tx.AllocatePage();
    e := None;
    if page < CATALOG_BITS {
      e := Some(Forced(tx.id, AllocatePage(page), r.Some?));
      AllocationIsStep(v, n, tx.id, page);
    }
  }

  /** A flush, as a page write-back asks for it. */
  method FlushStep(c: Coordinator, ghost n: Node) returns (ok: bool, ghost e: Event)
    requires c.log != null && c.log.Valid() && Stands(c, n)
    modifies c.log
    ensures e == Flushed(ok) && Stepped(c, n, Some(e)) && (ok <==> !old(c.log.failNextFlush))
  {
    ok := c.log.Flush();
    e := Flushed(ok);
  }

  /** Committing, unless the transaction is over or has changes without an LSN. */
  method CommitStep(c: Coordinator, tx: Transaction, ghost n: Node) returns (ok: bool, ghost e: Option<Event>)
    requires c.Ready(tx) && c.log != null && Stands(c, n)
    modifies c.locks, c.log
    ensures Stepped(c, n, e) && (e.None? <==> old(c.Over(tx.id)) || tx.watched != [] || tx.finalized != |tx.mutations|)
    ensures e.Some? ==> e.value == Forced(tx.id, CommitTx, ok)
    ensures ok <==> old(c.Over(tx.id)) || (e.Some? && !old(c.log.failNextFlush))
  {
    ghost var over, v := c.Over(tx.id), c.log.View();
    ok := c.Commit(tx);
    e := None;
    if !over && tx.watched == [] && tx.finalized == |tx.mutations| {
      e := Some(Forced(tx.id, CommitTx, ok));
      EndIsStep(v, n, tx.id, true);
    }
  }

  /** Aborting, unless the transaction is over or its rollback fails. */
  method AbortStep(c: Coordinator, tx: Transaction, ghost n: Node) returns (ok: bool, ghost e: Option<Event>)
    requires c.Ready(tx) && c.log != null && Stands(c, n)
    modifies c.locks, c.log, tx`resolved, tx`open
    modifies tx.pool`frames, tx.pool`table, tx.pool`free, tx.pool`lru, tx.pool`touched
    modifies tx.pool.pm`pages, tx.pool.pm`live, tx.pool.pm`liveCount
    ensures Stepped(c, n, e) && (old(c.Over(tx.id)) ==> e.None?) && (e.Some? ==> e.value == Forced(tx.id, AbortTx, ok))
    ensures ok <==> old(c.Over(tx.id)) || (e.Some? && !old(c.log.failNextFlush))
    ensures
          !old(c.Over(tx.id)) && tx.watched == []
          && CanRollBack(old(tx.pool.S()), old(tx.pool.pm.live), old(tx.Own())) ==>
        e.Some?
    ensures ok && !old(c.Over(tx.id)) ==>
      RolledBack(tx, old(tx.pool.View()), old(tx.pool.S()), old(tx.Own()), old(tx.pool.pm.live))
  {
    ghost var over, v := c.Over(tx.id), c.log.View();
    ok := c.Abort(tx);
    e := AbortIsStep(v, c.log.View(), n, c.locks.State(), tx.id, ok, over);
  }

  /**
   * A transaction that dies waiting for a lock is over before anything of it is undone: aborting it then succeeds
   * without a record, and what it wrote stays.
   */
  method DieThenAbort(c: Coordinator, tx: Transaction, m: PhysicalMutation, thread: L.Thread, res: L.Resource,
      mode: L.Mode)
    returns (reply: L.Reply, ok: bool)
    requires c.Ready(tx) && tx.log != null && tx.Capturable(m) && thread !in c.locks.sleepers && c.log.nextLsn + 2 < U64
    requires L.Decide(c.locks.State(), tx.id, res, mode) == L.Died
    modifies c.locks, c.log, tx`mutations, tx`resolved, tx`finalized, tx`open
    modifies tx.pool`frames, tx.pool`table, tx.pool`free, tx.pool`lru, tx.pool`touched
    modifies tx.pool.pm`pages, tx.pool.pm`live, tx.pool.pm`liveCount
    ensures reply == L.Died && ok && tx.Valid() && c.log.View() == Appended(old(c.log.View()), tx.id, m)
    ensures c.locks.State() == L.Next(old(c.locks.State()), L.Lock(thread, tx.id, res, mode))
      && L.Terminal(c.locks.State(), tx.id)
    ensures tx.open == |tx.mutations| > 0 && m.page in old(tx.pool.View())
    ensures tx.pool.View() == old(tx.pool.View())[m.page := Page(m.after, old(c.log.nextLsn))]
  {
    tx.LogMutation(m);
    reply := c.locks.LockResource(thread, tx.id, res, mode);
    ok := c.Abort(tx);
  }

  /** Lock tables in which the younger transaction 2 dies for what the older one has locked. */
  lemma YoungerDies()
    ensures var l := L.Next(L.Next(L.EMPTY, L.Begin(1)), L.Begin(2));
      L.Decide(L.Next(l, L.Lock(0, 1, 9, L.Exclusive)), 2, 9, L.Exclusive) == L.Died && 1 in l.states && 2 in l.states
  {
    var l := L.Next(L.Next(L.EMPTY, L.Begin(1)), L.Begin(2));
    var m := L.Next(l, L.Lock(0, 1, 9, L.Exclusive));
    assert L.Row(l, 9) == [] && L.Row(m, 9) == [L.Holder(1, L.Exclusive)];
    assert L.Holder(1, L.Exclusive) in L.Row(m, 9);
  }

  /** Two transactions on a new database file of one page; the younger one has changed it, dies and is aborted. */
  method DiedChangeStays(after: Bytes) returns (c: Coordinator, tx: Transaction, reply: L.Reply, ok: bool)
    requires |after| == PAYLOAD_SIZE
    ensures reply == L.Died && ok && L.Terminal(c.locks.State(), tx.id) && tx.pool.View() == map[0 := Page(after, 1)]
    ensures c.log != null
      && c.log.View() == Appended(LogView([], 1, 0, false), tx.id, PhysicalMutation(0, 0, NEW_PAGE.data, after, 0))
  {
    c, tx := ChangedByYounger(after);
    assert map[0 := Page(after, 0)][0 := Page(after, 1)] == map[0 := Page(after, 1)];
    reply, ok := DieThenAbort(c, tx, PhysicalMutation(0, 0, NEW_PAGE.data, after, 0), 1, 9, L.Exclusive);
  }

  method ChangedByYounger(after: Bytes) returns (c: Coordinator, tx: Transaction)
    requires |after| == PAYLOAD_SIZE
    ensures fresh(c) && fresh(c.locks) && fresh(c.log) && fresh(tx) && fresh(tx.pool) && fresh(tx.pool.pm)
    ensures c.Ready(tx) && tx.log != null && tx.log == c.log
      && tx.Capturable(PhysicalMutation(0, 0, NEW_PAGE.data, after, 0))
    ensures c.locks.sleepers == map[] && L.Decide(c.locks.State(), tx.id, 9, L.Exclusive) == L.Died
    ensures c.log.View() == LogView([], 1, 0, false) && tx.pool.View() == map[0 := Page(after, 0)]
  {
    var locks := TwoTransactions();
    var log := new LogManager();
    var pool := ChangedPool(after);
    c := new Coordinator(locks, log);
    tx := new Transaction(2, pool, log);
  }

  method TwoTransactions() returns (locks: LM.LockManager)
    ensures fresh(locks) && 2 in locks.states && locks.sleepers == map[]
      && L.Decide(locks.State(), 2, 9, L.Exclusive) == L.Died
  {
    locks := new LM.LockManager();
    locks.BeginTransaction(1);
    locks.BeginTransaction(2);
    YoungerDies();
    var reply := locks.LockResource(0, 1, 9, L.Exclusive);
  }

  /** A pool over a new file of one page, which is pinned and has been written to. */
  method ChangedPool(after: Bytes) returns (pool: BufferPool)
    ensures fresh(pool) && fresh(pool.pm) && pool.Valid() && pool.View() == map[0 := Page(after, 0)]
    ensures 0 in pool.table && PinOf(pool.S(), 0) > 0 && PageOf(pool.S(), 0).data == after
  {
    pool := PinnedPool();
    pool.ModifyPage(0, Page(after, 0));
  }

  method PinnedPool() returns (pool: BufferPool)
    ensures fresh(pool) && fresh(pool.pm) && pool.Valid() && pool.View() == map[0 := NEW_PAGE]
    ensures 0 in pool.table && PinOf(pool.S(), 0) > 0
  {
    pool := OnePagePool();
    var f := pool.FetchPage(0);
  }

  method OnePagePool() returns (pool: BufferPool)
    ensures fresh(pool) && fresh(pool.pm) && pool.Valid() && pool.View() == map[0 := NEW_PAGE] && pool.pm.live == {0}
      && pool.pm.faulty == {}
    ensures pool.pm.IsAllocated(0) && pool.table == map[] && pool.free != []
  {
    var pm := new PageManager();
    var r := pm.AllocatePage();
    pool := new BufferPool(pm, 1, Some(0));
  }

  // ---- What a crash leaves of it ------------------------------------------------------

  /** Reading back a whole log gives its records. */
  lemma ReadBack(rs: seq<WalRecord>)
    requires Storable(rs) && Increasing(rs, 0)
    ensures Scan(Log(rs), 0) == Good(rs)
  {
    TornTail(rs, 0, |Log(rs)|);
    LogLength(rs);
    WholeIsLongest(rs, |Log(rs)|);
    assert rs[..|rs|] == rs && Log(rs)[..|Log(rs)|] == Log(rs);
  }

  /** What a valid log's file is read as. */
  method ReadLog(log: LogManager) returns (records: seq<WalRecord>)
    requires log.Valid()
    ensures records == log.records
  {
    ReadBack(log.records);
    var scanned := ReadRecords(log.file);
    records := scanned.records;
  }

  /** The analysis knows what the flushed record says: the transaction's end, or the page it allocated. */
  ghost predicate Reports(st: RecoveryState, e: Event) {
    && e.Forced?
    && (e.action.CommitTx? ==> e.tx in st.transactions && st.transactions[e.tx].status == Status.Committed)
    && (e.action.AbortTx? ==> e.tx in st.transactions && st.transactions[e.tx].status == Status.Aborted)
    && (e.action.AllocatePage? ==> exists a :: a in st.allocations && a.tx == e.tx && a.page == e.action.page)
  }

  lemma FlushedReported(nodes: seq<Node>, events: seq<Event>, k: nat, m: nat, i: nat, rs: seq<WalRecord>,
      st: RecoveryState)
    requires IsRun(nodes, events) && i < k < |nodes| && HoldsDurable(nodes[k], m) && events[i].Forced? && events[i].ok
    requires IsAnalysis(rs, nodes[k].es[..Whole(Records(nodes[k].es), m)], st)
    ensures Reports(st, events[i])
  {
    var es, tx := nodes[k].es[..Whole(Records(nodes[k].es), m)], events[i].tx;
    EndSurvives(nodes, events, k, m, i);
    WrittenEntry(nodes, events, k, i);
    var x := |nodes[i].es|;
    assert es[x] == nodes[k].es[x] && es[x].tx == tx && StatusRight(es, st, tx);
    if events[i].action.AllocatePage? {
      var y := AllocationListed(es, x);
      assert st.allocations[y] in st.allocations;
    }
  }

  lemma DurableHeld(rs: seq<WalRecord>, durable: nat, flushed: nat, node: Node, n: nat)
    requires LogManagers.Flushed(rs, durable, flushed) && flushed <= n <= |Log(rs)| && rs == Records(node.es)
      && durable == node.durable
    ensures HoldsDurable(node, n)
  {
    forall x: nat | x < |node.es| && node.es[x].lsn <= node.durable ensures TotalSize(Records(node.es)[..x + 1]) <= n {
      RecordLsn(node.es, x);
      assert End(rs, x) <= flushed;
    }
  }

  lemma RecordLsn(es: seq<Entry>, x: nat)
    requires x < |es|
    ensures Records(es)[x].lsn == es[x].lsn
  {
    assert Records(es)[x] == RecordOf(es[x]);
  }

  /**
   * A commit or abort that was reported is never lost. At any point of any run and for every cut of the log file
   * behind the flushed bytes, the reopened log is accepted if and only if no transaction wavered within it, always
   * when no flush of a terminal record failed, and then the analysis reports every record that was flushed.
   */
  method AnalyzeAfterCrash(log: LogManager, n: nat, ghost nodes: seq<Node>, ghost events: seq<Event>, ghost k: nat)
    returns (r: Option<RecoveryState>)
    requires log.Valid() && log.flushed <= n <= |log.file|
    requires IsRun(nodes, events) && k < |nodes| && log.records == Records(nodes[k].es)
      && log.durableLsn == nodes[k].durable
    modifies log
    ensures log.Valid() && log.records == old(log.records)[..Whole(old(log.records), n)]
    ensures r.Some? <==> !exists i, j :: Wavers(nodes, events, i, j, |log.records|)
    ensures (forall i :: 0 <= i < |events| && events[i].Forced? && Terminates(events[i].action) ==> events[i].ok) ==>
      r.Some?
    ensures r.Some? ==> IsAnalysis(log.records, nodes[k].es[..|log.records|], r.value)
    ensures r.Some? ==> forall i :: 0 <= i < k && events[i].Forced? && events[i].ok ==> Reports(r.value, events[i])
  {
    DurableHeld(log.records, log.durableLsn, log.flushed, nodes[k], n);
    CrashIsJudged(nodes, events, k, n);
    ghost var kept := nodes[k].es[..Whole(log.records, n)];
    var ok := log.CrashAndReopen(n);
    var records := ReadLog(log);
    ghost var es;
    r, es := Analyze(records);
    ParsedOnce(records, es, kept);
    if r.Some? {
      forall i | 0 <= i < k && events[i].Forced? && events[i].ok ensures Reports(r.value, events[i]) {
        FlushedReported(nodes, events, k, n, i, records, r.value);
      }
    }
  }

  lemma CommittedWins(rs: seq<WalRecord>, es: seq<Entry>, k: nat)
    requires ParsesTo(rs, es) && k < |rs| && rs[k].kind == WalKind.Commit
    ensures rs[k].tx in Winners(es)
  {
    assert Parse(rs[k]) == Some(es[k]);
  }

  lemma AbortedQuits(rs: seq<WalRecord>, es: seq<Entry>, k: nat)
    requires ParsesTo(rs, es) && k < |rs| && rs[k].kind == WalKind.Abort
    ensures rs[k].tx in Quitters(es)
  {
    assert Parse(rs[k]) == Some(es[k]);
  }

  /**
   * When the flush of a commit fails and the transaction is then aborted, which succeeds if its pages can be put
   * back, the log ends up with both terminal records, and analysis rejects it.
   */
  method FailedCommitThenAbort(c: Coordinator, tx: Transaction) returns (aborted: bool, r: Option<RecoveryState>)
    requires c.Ready(tx) && !c.Over(tx.id) && c.log != null && c.log.nextLsn + 2 < U64
    requires c.log.failNextFlush && tx.watched == [] && tx.finalized == |tx.mutations|
    modifies c.locks, c.log, tx`resolved, tx`open
    modifies tx.pool`frames, tx.pool`table, tx.pool`free, tx.pool`lru, tx.pool`touched
    modifies tx.pool.pm`pages, tx.pool.pm`live, tx.pool.pm`liveCount
    ensures c.log.Valid()
    ensures CanRollBack(old(tx.pool.S()), old(tx.pool.pm.live), old(tx.Own())) ==> aborted
    ensures var committing := Ended(old(c.log.View()), tx.id, WalKind.Commit);
      c.log.View() == if aborted then Ended(committing, tx.id, WalKind.Abort) else committing
    ensures aborted ==> r.None?
  {
    ghost var v := c.log.View();
    var committed := c.Commit(tx);
    aborted := c.AbortLogged(tx);
    r := AnalyzeLog(c.log, v, tx.id);
  }

  /** Analysis of a log that ends in both terminal records of a transaction. */
  method AnalyzeLog(log: LogManager, ghost v: LogView, ghost tx: nat) returns (r: Option<RecoveryState>)
    requires log.Valid()
    ensures log.View() == Ended(Ended(v, tx, WalKind.Commit), tx, WalKind.Abort) ==> r.None?
  {
    var records := ReadLog(log);
    ghost var es;
    r, es := Analyze(records);
    if log.View() == Ended(Ended(v, tx, WalKind.Commit), tx, WalKind.Abort) && ParsesTo(records, es) {
      BothEndsClash(v, tx, es);
    }
  }

  lemma BothEndsClash(v: LogView, tx: nat, es: seq<Entry>)
    requires ParsesTo(Ended(Ended(v, tx, WalKind.Commit), tx, WalKind.Abort).records, es)
    ensures tx in Winners(es) && tx in Quitters(es)
  {
    var rs := Ended(Ended(v, tx, WalKind.Commit), tx, WalKind.Abort).records;
    CommittedWins(rs, es, |rs| - 2);
    AbortedQuits(rs, es, |rs| - 1);
  }
}
