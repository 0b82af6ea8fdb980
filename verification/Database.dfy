/**
 * The database object: log, page manager, buffer pool, lock manager, coordinator and the transactions that run on
 * them. Every call is a sequence of steps of the state machine of whole runs, so that a crash after any calls is a
 * crash of a run.
 */
module Databases {
  import opened StorageTypes
  import opened FrameTable
  import opened BufferPools
  import opened WalCodec
  import opened WalLog
  import opened PageManagers
  import opened LogManagers
  import opened Rollbacks
  import opened Transactions
  import opened RecoveryAnalysis
  import opened RecoveryHistory
  import opened Undos
  import opened RealLogs
  import R = CrashRuns
  import opened CrashTheorems
  import opened CrashRollbacks
  import opened LockedPages
  import opened DatabaseRuns
  import opened Coordinators
  import L = LockTable
  import LM = LockManagers
  import LA = LockAnswers

  const NEW_PICTURE := Picture(LogView([], 1, 0, false), map[], map[], {}, 0, L.EMPTY, 1)

  lemma EmptyAgrees()
    ensures Agrees(NEW_PICTURE, EMPTY, map[])
  {
    IsWalked([EMPTY], []);
    assert EndsIn([EMPTY], [], EMPTY);
    AgreesMeans(NEW_PICTURE, EMPTY, map[]);
  }

  /** The picture before and after a page was to be changed. */
  ghost predicate Wrote(d: Picture, t: TxPart, number: nat, c: Picture, n: TxPart, page: PageId, bytes: Bytes, ok: bool)
  {
    && (ok ==> page in d.view)
    && if ok && bytes != d.view[page].data then
         var m := PhysicalMutation(page, number, d.view[page].data, bytes, d.view[page].lsn);
         c == ChangedPicture(d, t.id, m, c.disk) && n == t.(mutations := t.mutations + [m], open := t.open + 1)
       else c == d.(disk := c.disk) && n == t
  }

  lemma ChangedIsWrote(d: Picture, t: TxPart, a: Progress, c: Picture, n: TxPart, b: Progress, page: PageId,
      bytes: Bytes, ok: bool)
    requires a == Progress(d.view, t.mutations, t.open, a.watched, a.sequence, Some(d.log)) && t.open == |t.mutations|
    requires b == Progress(c.view, n.mutations, n.open, b.watched, b.sequence, Some(c.log))
    requires c == d.(log := c.log, view := c.view, disk := c.disk) && n == t.(mutations := n.mutations, open := n.open)
    requires if ok then Changed(a, b, t.id, page, bytes) else b == a
    ensures Wrote(d, t, a.sequence, c, n, page, bytes, ok) 
    ensures c.log.next == d.log.next + |WriteEntries(d, t.id, a.sequence, page, bytes, ok)|
      && c.log.fault == d.log.fault
  {
  }

  /** What a change adds to the log. */
  ghost function WriteEntries(d: Picture, tx: nat, number: nat, page: PageId, bytes: Bytes, ok: bool): seq<Entry>
    requires ok ==> page in d.view
  {
    if ok && bytes != d.view[page].data then [Entry(d.log.next, tx, R.Mutated(page, d.view[page].data, bytes, number))]
      else []
  }

  /** What a change does to the run. */
  ghost function WriteSteps(d: Picture, tx: nat, number: nat, page: PageId, bytes: Bytes, ok: bool): seq<R.Step>
    requires ok ==> page in d.view
  {
    if ok && bytes != d.view[page].data then [R.Change(tx, page, bytes, d.log.next, number)] else []
  }

  lemma WriteAgrees(d: Picture, s: R.Sys, ts: map<nat, TxPart>, t: TxPart, number: nat, c: Picture, n: TxPart,
      page: PageId, bytes: Bytes, ok: bool)
    returns (u: R.Sys)
    requires Agrees(d, s, ts) && t.id in ts && ts[t.id] == t && Wrote(d, t, number, c, n, page, bytes, ok)
    requires R.Active(s.log, t.id) && Owns(d.locks, t.id, page) && (ok ==> page in d.live) && |bytes| == PAYLOAD_SIZE
      && number < U64 && d.log.next < U64
    requires Flowed(d.view, Some(d.log.durable), d.disk, c.disk)
    ensures Took(s, c.disk, WriteSteps(d, t.id, number, page, bytes, ok), u) && Agrees(c, u, ts[t.id := n])
      && R.Active(u.log, t.id)
    ensures u.log == s.log + WriteEntries(d, t.id, number, page, bytes, ok)
  {
    if ok && bytes != d.view[page].data {
      var m := PhysicalMutation(page, number, d.view[page].data, bytes, d.view[page].lsn);
      u := ChangeAgrees(d, s, ts, t.id, m, c.disk);
    } else {
      u := DriftAgrees(d, s, ts, c.disk);
      assert ts[t.id := n] == ts;
    }
  }

  /** The picture before and after a page was to be allocated. */
  ghost predicate Grants(d: Picture, t: TxPart, c: Picture, n: TxPart, r: Option<PageId>) {
    if d.count >= CATALOG_BITS then c == d && n == t && r.None?
    else
      && c == GrantedPicture(d, t.id) && n == (if d.log.fault then t else t.(granted := t.granted + [d.count]))
      && r == if d.log.fault then None else Some(d.count)
  }

  ghost function AllocateSteps(d: Picture, tx: nat): seq<R.Step> {
    if d.count >= CATALOG_BITS then [] else AllocationSteps(tx, d.count, d.log.next, !d.log.fault)
  }

  lemma AllocateAgrees(d: Picture, s: R.Sys, ts: map<nat, TxPart>, t: TxPart, c: Picture, n: TxPart, r: Option<PageId>)
      returns (u: R.Sys)
    requires Agrees(d, s, ts) && t.id in ts && ts[t.id] == t && Grants(d, t, c, n, r) && R.Active(s.log, t.id)
      && d.log.next < U64
    ensures Took(s, d.disk, AllocateSteps(d, t.id), u) && Agrees(c, u, ts[t.id := n]) && R.Active(u.log, t.id)
    ensures u.log == s.log + if d.count >= CATALOG_BITS then [] else [Entry(d.log.next, t.id, AllocatePage(d.count))]
  {
    if d.count >= CATALOG_BITS {
      assert Flowed(d.view, Some(d.log.durable), d.disk, d.disk);
      u := DriftAgrees(d, s, ts, d.disk);
      assert ts[t.id := n] == ts && d.(disk := d.disk) == d;
    } else {
      u := GrantAgrees(d, s, ts, t.id);
      if d.log.fault { assert ts[t.id := n] == ts; }
    }
  }

  /** The picture before and after an abort. */
  ghost predicate Rolls(d: Picture, t: TxPart, c: Picture, n: TxPart, ok: bool, rolled: bool) {
    if L.Terminal(d.locks, t.id) then c == d && n == t && ok && !rolled
    else rolled ==>
      && c == RolledPicture(d, t, c.disk) && n == t.(open := 0) && (ok <==> !d.log.fault)
      && FlowedBack(d.view, t.mutations, Some(d.log.durable), d.disk, c.disk)
  }

  lemma AbortAgrees(d: Picture, s: R.Sys, ts: map<nat, TxPart>, t: TxPart, c: Picture, n: TxPart, ok: bool,
      rolled: bool)
    returns (u: R.Sys, ns: map<nat, TxPart>)
    requires Agrees(d, s, ts) && t.id in ts && ts[t.id] == t && Rolls(d, t, c, n, ok, rolled) && R.Active(s.log, t.id)
      && d.log.next < U64
    ensures rolled ==>
      Took(s, c.disk, ThenFlush(R.RollBack(t.id, d.log.next), ok), u) && ns == ts[t.id := n] && (ok <==> !d.log.fault)
    ensures !rolled ==> u == s && ns == ts
    ensures L.Terminal(d.locks, t.id) ==> ok && !rolled && n == t
    ensures rolled || L.Terminal(d.locks, t.id) ==> Agrees(c, u, ns) && t.id in ns && ns[t.id] == n
  {
    u, ns := s, ts;
    if rolled {
      u := RollAgrees(d, s, ts, t.id, c.disk);
      ns := ts[t.id := n];
    }
  }

  lemma LogStarted(d: Picture, s: R.Sys, ts: map<nat, TxPart>)
    requires Agrees(d, s, ts)
    ensures 0 < d.log.next
  {
    AgreesMeans(d, s, ts);
  }

  class Database {
    const locks: LM.LockManager
    const log: LogManager
    const pool: BufferPool
    const coordinator: Coordinator
    var nextId: nat
    ghost var txs: map<nat, TxPart>
    ghost var run: R.Sys

    ghost predicate Connected()
      reads log, pool, pool.pm
    {
      && coordinator.locks == locks && coordinator.log == log
      && log.Valid() && pool.Valid() && pool.durable == Some(log.durableLsn)
    }

    /** The same, as a predicate that is looked into by name only. */
    ghost predicate Wired()
      reads log, pool, pool.pm
    {
      forall k: nat {:trigger WiredAt(k)} :: WiredAt(k)
    }

    ghost predicate WiredAt(k: nat)
      reads log, pool, pool.pm
    {
      k == 0 ==> Connected()
    }

    lemma WiredMeans()
      ensures Wired() <==> Connected()
    {
      assert WiredAt(0) <==> Connected();
    }

    ghost function Shown(): Picture
      reads this, locks, log, pool, pool.pm
    {
      Picture(log.View(), pool.View(), pool.pm.pages, pool.pm.live, pool.pm.count, locks.State(), nextId)
    }

    ghost function Part(tx: Transaction): TxPart
      reads tx
    {
      TxPart(tx.id, tx.mutations, tx.granted, tx.open)
    }

    /** The object is that of a transaction of this database, and nothing has happened to it behind its back. */
    ghost predicate Runs(tx: Transaction)
      reads this, tx
    {
      tx.pool == pool && tx.log == log && tx.Tallied() && tx.watched == [] && tx.id in txs && txs[tx.id] == Part(tx)
    }

    ghost predicate Valid()
      reads this, locks, log, pool, pool.pm
    {
      Wired() && Agrees(Shown(), run, txs)
    }

    /** A new, empty database. */
    constructor (capacity: nat)
      ensures Valid() && run == EMPTY && txs == map[] && Shown() == NEW_PICTURE
      ensures fresh(locks) && fresh(log) && fresh(pool) && fresh(pool.pm) && |pool.free| == capacity
        && pool.table == map[] && pool.pm.faulty == {}
    {
      var ls := new LM.LockManager();
      var l := new LogManager();
      var p := new PageManager();
      var b := new BufferPool(p, capacity, Some(0));
      var c := new Coordinator(ls, l);
      locks, log, pool, coordinator, nextId := ls, l, b, c, 1;
      txs, run := map[], EMPTY;
      new;
      EmptyAgrees();
      WiredMeans();
    }

    /** Starts a transaction under the next number. */
    method Begin() returns (tx: Transaction)
      requires Valid() && nextId < U64 && log.nextLsn + 1 < U64
      modifies this`nextId, this`txs, this`run, locks, log
      ensures Valid() && fresh(tx) && tx.id == old(nextId) && Runs(tx) && txs == old(txs)[tx.id := Part(tx)]
      ensures Took(old(run), pool.pm.pages, [R.Start(tx.id, old(log.nextLsn))], run)
      ensures run.log == old(run).log + [Entry(old(log.nextLsn), tx.id, BeginTx)]
      ensures R.Active(run.log, tx.id) && Shown() == BegunPicture(old(Shown())) && Part(tx) == TxPart(tx.id, [], [], 0)
        && tx.sequence == 0
    {
      run := BeginAgrees(Shown(), run, txs);
      tx := NewTransaction();
      LogBegin();
      txs := txs[tx.id := Part(tx)];
    }

    method NewTransaction() returns (tx: Transaction)
      requires Wired()
      ensures fresh(tx) && tx.pool == pool && tx.log == log && tx.Tallied() && tx.watched == []
        && Part(tx) == TxPart(nextId, [], [], 0)
      ensures tx.sequence == 0
    {
      WiredMeans();
      tx := new Transaction(nextId, pool, log);
    }

    /** The transaction manager's part: the next number and its Begin record. */
    method LogBegin()
      requires Wired() && nextId < U64 && log.nextLsn + 1 < U64
      modifies this`nextId, locks, log
      ensures Wired() && Shown() == BegunPicture(old(Shown()))
    {
      WiredMeans();
      locks.BeginTransaction(nextId);
      var lsn := log.Append(WalKind.Begin, nextId, []);
      nextId := nextId + 1;
      WiredMeans();
    }

    /** Asks for a lock on a page. A transaction that would die for it must have no open change. */
    method Lock(thread: L.Thread, tx: Transaction, page: PageId, mode: L.Mode) returns (reply: L.Reply)
      requires Valid() && Runs(tx) && thread !in locks.sleepers
      requires L.Decide(locks.State(), tx.id, page, mode) == L.Died && R.Active(run.log, tx.id) ==> tx.mutations == []
      modifies locks
      ensures Valid() && Runs(tx) && reply == L.Decide(old(locks.State()), tx.id, page, mode)
      ensures reply == L.Granted <==>
        && tx.id in old(locks.states) && old(locks.states)[tx.id] == L.Growing
        && forall h :: h in L.Row(old(locks.State()), page) ==> if mode == L.Shared then h.mode == L.Shared
        else h.tx == tx.id
      ensures locks.State() == L.Next(old(locks.State()), L.Lock(thread, tx.id, page, mode))
    {
      LockAgrees(Shown(), run, txs, L.Lock(thread, tx.id, page, mode));
      AgreedFacts(Shown(), run, txs, tx.id, page);
      LA.AnswerExact(locks.State(), tx.id, page);
      reply := locks.LockResource(thread, tx.id, page, mode);
    }

    /** A sleeping thread looks again. */
    method Resume(thread: L.Thread) returns (reply: L.Reply)
      requires Valid() && thread in locks.sleepers
      modifies locks
      ensures Valid() && locks.State() == L.Next(old(locks.State()), L.Wake(thread))
      ensures reply == L.Sleeping <==> thread in locks.sleepers
      ensures var w := old(locks.sleepers)[thread];
        reply == L.Granted <==>
          && thread !in locks.sleepers && w.tx in old(locks.states) && old(locks.states)[w.tx] == L.Growing
          && L.Holder(w.tx, w.mode) in L.Row(locks.State(), w.res)
      ensures reply != L.Died
    {
      LockAgrees(Shown(), run, txs, L.Wake(thread));
      reply := locks.Resume(thread);
    }

    /** The transaction that is going to be changed, as far as it alone is concerned. */
    ghost predicate Ready(tx: Transaction)
      reads tx
    {
      && tx.pool == pool && tx.log == log && tx.Tallied() && tx.watched == [] && tx.open == |tx.mutations|
      && tx.id < U64
    }

    ghost predicate Sized(page: PageId)
      reads pool, pool.pm
    {
      page < INVALID && (page in pool.View() ==> |pool.View()[page].data| == PAYLOAD_SIZE)
    }

    /**
     * Changes a page of which the transaction has the exclusive lock. False stands for an exception, before anything
     * was written. What other pages the cache had to evict goes to disk first; a page that already is what it should
     * be is no change.
     */
    method Write(tx: Transaction, page: PageId, bytes: Bytes) returns (ok: bool)
      requires Valid() && Runs(tx) && R.Active(run.log, tx.id) && Owns(locks.State(), tx.id, page)
      requires page < INVALID && |bytes| == PAYLOAD_SIZE && tx.sequence < U64 && log.nextLsn + 1 < U64
      modifies this`run, this`txs, log, tx`watched, tx`sequence, tx`mutations, tx`resolved, tx`finalized, tx`open
      modifies pool`frames, pool`table, pool`free, pool`lru, pool`touched, pool.pm`pages
      ensures Valid() && Runs(tx) && txs == old(txs)[tx.id := Part(tx)]
      ensures ok <==>
        CanFetch(old(pool.S()), old(pool.durable), pool.pm.live, pool.pm.faulty, page)
        && PinOf(old(pool.S()), page) + 1 != MAX_COUNT
      ensures ok ==> page in old(pool.View())
      ensures Took(old(run), pool.pm.pages, WriteSteps(old(Shown()), tx.id, old(tx.sequence), page, bytes, ok), run)
      ensures log.nextLsn == old(log.nextLsn) + |WriteEntries(old(Shown()), tx.id, old(tx.sequence), page, bytes, ok)|
      ensures log.failNextFlush == old(log.failNextFlush)
      ensures R.Active(run.log, tx.id)
        && run.log == old(run).log + WriteEntries(old(Shown()), tx.id, old(tx.sequence), page, bytes, ok)
    {
      ghost var d, t, number := Shown(), Part(tx), tx.sequence;
      AgreedFacts(d, run, txs, tx.id, page);
      ok := ChangeObjects(tx, page, bytes);
      run := WriteAgrees(d, run, txs, t, number, Shown(), Part(tx), page, bytes, ok);
      txs := txs[tx.id := Part(tx)];
    }

    /** The same on the objects. */
    method ChangeObjects(tx: Transaction, page: PageId, bytes: Bytes) returns (ok: bool)
      requires Wired() && Ready(tx) && tx.sequence < U64 && Sized(page) && |bytes| == PAYLOAD_SIZE
        && log.nextLsn + 1 < U64
      modifies log, tx`watched, tx`sequence, tx`mutations, tx`resolved, tx`finalized, tx`open
      modifies pool`frames, pool`table, pool`free, pool`lru, pool`touched, pool.pm`pages
      ensures Wired() && tx.Tallied() && tx.watched == []
      ensures Flowed(old(pool.View()), Some(old(log.durableLsn)), old(pool.pm.pages), pool.pm.pages)
      ensures ok <==>
        CanFetch(old(pool.S()), old(pool.durable), pool.pm.live, pool.pm.faulty, page)
        && PinOf(old(pool.S()), page) + 1 != MAX_COUNT
      ensures ok ==> page in pool.pm.live
      ensures Wrote(old(Shown()), old(Part(tx)), old(tx.sequence), Shown(), Part(tx), page, bytes, ok)
      ensures log.nextLsn == old(log.nextLsn) + |WriteEntries(old(Shown()), tx.id, old(tx.sequence), page, bytes, ok)|
      ensures log.failNextFlush == old(log.failNextFlush)
    {
      WiredMeans();
      ghost var d, t, a := Shown(), Part(tx), tx.Look();
      ok := ChangeTracked(tx, page, bytes);
      ChangedIsWrote(d, t, a, Shown(), Part(tx), tx.Look(), page, bytes, ok);
    }

    method ChangeTracked(tx: Transaction, page: PageId, bytes: Bytes) returns (ok: bool)
      requires Connected() && Ready(tx) && tx.sequence < U64 && Sized(page) && |bytes| == PAYLOAD_SIZE
        && log.nextLsn + 1 < U64
      modifies log, tx`watched, tx`sequence, tx`mutations, tx`resolved, tx`finalized, tx`open
      modifies pool`frames, pool`table, pool`free, pool`lru, pool`touched, pool.pm`pages
      ensures Wired() && tx.Tallied() && tx.watched == []
      ensures Flowed(old(pool.View()), Some(old(log.durableLsn)), old(pool.pm.pages), pool.pm.pages)
      ensures ok <==>
        CanFetch(old(pool.S()), old(pool.durable), pool.pm.live, pool.pm.faulty, page)
        && PinOf(old(pool.S()), page) + 1 != MAX_COUNT
      ensures ok ==> page in pool.pm.live
      ensures if ok then Changed(old(tx.Look()), tx.Look(), tx.id, page, bytes) else tx.Look() == old(tx.Look())
    {
      LoggedValid(tx);
      ok := tx.ChangePage(page, bytes);
      WiredMeans();
    }

    /** The pool asks the log how far it is durable. */
    method Sync()
      requires coordinator.locks == locks && coordinator.log == log && log.Valid() && pool.Valid()
      modifies pool`durable
      ensures Wired() && Shown() == old(Shown()) && pool.S() == old(pool.S())
    {
      pool.AdvanceDurable(log.durableLsn);
      WiredMeans();
    }

    /**
     * Allocates a page for the transaction; None stands for an exception, after which the page may exist but is not
     * allocated.
     */
    method Allocate(tx: Transaction) returns (r: Option<PageId>)
      requires Valid() && Runs(tx) && R.Active(run.log, tx.id) && log.nextLsn + 1 < U64
      modifies this`run, this`txs, log, tx`granted, pool`durable, pool.pm`pages, pool.pm`count, pool.pm`live,
        pool.pm`liveCount
      ensures Valid() && Runs(tx) && txs == old(txs)[tx.id := Part(tx)]
      ensures r == if old(pool.pm.count) >= CATALOG_BITS || old(log.failNextFlush) then None
        else Some(old(pool.pm.count))
      ensures Took(old(run), old(pool.pm.pages), AllocateSteps(old(Shown()), tx.id), run)
      ensures run.log == old(run).log +
        if old(pool.pm.count) >= CATALOG_BITS then []
          else [Entry(old(log.nextLsn), tx.id, AllocatePage(old(pool.pm.count)))]
      ensures R.Active(run.log, tx.id) && Grants(old(Shown()), old(Part(tx)), Shown(), Part(tx), r)
        && pool.S() == old(pool.S())
    {
      ghost var d, t := Shown(), Part(tx);
      AgreedFacts(d, run, txs, tx.id, 0);
      r := AllocateObjects(tx);
      run := AllocateAgrees(d, run, txs, t, Shown(), Part(tx), r);
      txs := txs[tx.id := Part(tx)];
    }

    method AllocateObjects(tx: Transaction) returns (r: Option<PageId>)
      requires Wired() && tx.pool == pool && tx.log == log && tx.Tallied() && tx.watched == [] && tx.id < U64
        && log.nextLsn + 1 < U64
      modifies log, tx`granted, pool`durable, pool.pm`pages, pool.pm`count, pool.pm`live, pool.pm`liveCount
      ensures Wired() && tx.Tallied() && tx.watched == [] && Grants(old(Shown()), old(Part(tx)), Shown(), Part(tx), r)
      ensures pool.S() == old(pool.S())
    {
      WiredMeans();
      LoggedValid(tx);
      r := tx.AllocatePage();
      Sync();
    }

    /**
     * Commits; false stands for an exception. A transaction that has died before is over already, and nothing
     * happens.
     */
    method Commit(tx: Transaction) returns (ok: bool)
      requires Valid() && Runs(tx) && R.Active(run.log, tx.id) && log.nextLsn + 1 < U64
      modifies this`run, locks, log, pool`durable
      ensures Valid() && Runs(tx) && (ok <==> old(L.Terminal(locks.State(), tx.id)) || !old(log.failNextFlush))
      ensures if old(L.Terminal(locks.State(), tx.id)) then run == old(run) && locks.State() == old(locks.State())
              else Took(old(run), old(pool.pm.pages), ThenFlush(R.LogCommit(tx.id, old(log.nextLsn)), ok), run)
      ensures ok && !old(L.Terminal(locks.State(), tx.id)) ==> EndedDurably(log, tx.id, WalKind.Commit)
      ensures Shown() == if old(L.Terminal(locks.State(), tx.id)) then old(Shown())
        else CommittedPicture(old(Shown()), tx.id)
      ensures !old(L.Terminal(locks.State(), tx.id)) ==>
        run.log == old(run).log + [Entry(old(log.nextLsn), tx.id, CommitTx)] && (ok ==> run.durable == |run.log|)
    {
      ghost var d := Shown();
      AgreedFacts(d, run, txs, tx.id, 0);
      ok := CommitObjects(tx);
      if !L.Terminal(d.locks, tx.id) { run := CommitAgrees(d, run, txs, tx.id); }
    }

    method CommitObjects(tx: Transaction) returns (ok: bool)
      requires Wired() && Ready(tx) && tx.id in locks.states && log.nextLsn + 1 < U64
      modifies locks, log, pool`durable
      ensures Wired() && tx.Tallied() && (ok <==> old(L.Terminal(locks.State(), tx.id)) || !old(log.failNextFlush))
      ensures Shown() == if old(L.Terminal(locks.State(), tx.id)) then old(Shown())
        else CommittedPicture(old(Shown()), tx.id)
      ensures ok && !old(L.Terminal(locks.State(), tx.id)) ==> EndedDurably(log, tx.id, WalKind.Commit)
    {
      WiredMeans();
      LoggedValid(tx);
      ok := coordinator.Commit(tx);
      Sync();
    }

    /**
     * Aborts. Unless the transaction is over, its changes are taken back and its pages released; `rolled` says
     * whether that could be completed, which it always can if the pages are at hand. False stands for an exception. A
     * rollback that stops half-way is no state of a run.
     */
    method Abort(tx: Transaction) returns (ok: bool, ghost rolled: bool)
      requires Valid() && Runs(tx) && R.Active(run.log, tx.id) && log.nextLsn + 1 < U64
      modifies this`run, this`txs, locks, log, tx`resolved, tx`open
      modifies pool`frames, pool`table, pool`free, pool`lru, pool`touched, pool`durable
      modifies pool.pm`pages, pool.pm`live, pool.pm`liveCount
      ensures old(L.Terminal(locks.State(), tx.id)) || rolled ==> Valid() && Runs(tx)
      ensures old(L.Terminal(locks.State(), tx.id)) ==> ok && !rolled && run == old(run) && txs == old(txs)
      ensures rolled ==> txs == old(txs)[tx.id := Part(tx)] && (ok <==> !old(log.failNextFlush))
      ensures rolled ==> Took(old(run), pool.pm.pages, ThenFlush(R.RollBack(tx.id, old(log.nextLsn)), ok), run)
      ensures !old(L.Terminal(locks.State(), tx.id)) && CanRollBack(old(pool.S()), old(pool.pm.live), old(tx.Own())) ==>
        rolled
    {
      ghost var d, t := Shown(), Part(tx);
      AgreedFacts(d, run, txs, tx.id, 0);
      ok, rolled := AbortObjects(tx);
      run, txs := AbortAgrees(d, run, txs, t, Shown(), Part(tx), ok, rolled);
    }

    method AbortObjects(tx: Transaction) returns (ok: bool, ghost rolled: bool)
      requires Wired() && Ready(tx) && tx.id in locks.states && log.nextLsn + 1 < U64
      modifies locks, log, tx`resolved, tx`open
      modifies pool`frames, pool`table, pool`free, pool`lru, pool`touched, pool`durable
      modifies pool.pm`pages, pool.pm`live, pool.pm`liveCount
      ensures Wired() && tx.Tallied() && tx.watched == []
      ensures Rolls(old(Shown()), old(Part(tx)), Shown(), Part(tx), ok, rolled)
      ensures !old(L.Terminal(locks.State(), tx.id)) && CanRollBack(old(pool.S()), old(pool.pm.live), old(tx.Own())) ==>
        rolled
    {
      WiredMeans();
      LoggedValid(tx);
      if coordinator.Over(tx.id) {
        ok := coordinator.Abort(tx);
        rolled := false;
        Sync();
      } else {
        ok, rolled := RollObjects(tx);
      }
    }

    method RollObjects(tx: Transaction) returns (ok: bool, ghost rolled: bool)
      requires Connected() && Ready(tx) && tx.Valid() && tx.id in locks.states && log.nextLsn + 1 < U64
        && !coordinator.Over(tx.id)
      modifies locks, log, tx`resolved, tx`open
      modifies pool`frames, pool`table, pool`free, pool`lru, pool`touched, pool`durable
      modifies pool.pm`pages, pool.pm`live, pool.pm`liveCount
      ensures Wired() && tx.Tallied()
      ensures rolled ==>
        Shown() == RolledPicture(old(Shown()), old(Part(tx)), pool.pm.pages) && Part(tx) == old(Part(tx)).(open := 0)
      ensures rolled ==> (ok <==> !old(log.failNextFlush))
      ensures rolled ==>
        FlowedBack(old(pool.View()), tx.mutations, Some(old(log.durableLsn)), old(pool.pm.pages), pool.pm.pages)
      ensures CanRollBack(old(pool.S()), old(pool.pm.live), old(tx.Own())) ==> rolled
    {
      ghost var d, t := Shown(), Part(tx);
      ok, rolled := RollTracked(tx);
      assert rolled ==> Shown() == RolledPicture(d, t, pool.pm.pages);
      Sync();
    }

    method RollTracked(tx: Transaction) returns (ok: bool, ghost rolled: bool)
      requires Connected() && Ready(tx) && tx.Valid() && tx.id in locks.states && log.nextLsn + 1 < U64
        && !coordinator.Over(tx.id)
      modifies locks, log, tx`resolved, tx`open
      modifies pool`frames, pool`table, pool`free, pool`lru, pool`touched
      modifies pool.pm`pages, pool.pm`live, pool.pm`liveCount
      ensures log.Valid() && pool.Valid() && tx.Tallied()
        && (rolled ==> tx.open == 0 && (ok <==> !old(log.failNextFlush)))
      ensures rolled ==> log.View() == Ended(old(log.View()), tx.id, WalKind.Abort)
      ensures rolled ==>
        pool.View() == Undone(old(pool.View()), tx.mutations, 0)
        && pool.pm.live == old(pool.pm.live) - PageSet(tx.granted)
      ensures rolled ==> locks.State() == if ok then L.Next(old(locks.State()), L.Abort(tx.id)) else old(locks.State())
      ensures rolled ==>
        FlowedBack(old(pool.View()), tx.mutations, old(pool.durable), old(pool.pm.pages), pool.pm.pages)
      ensures CanRollBack(old(pool.S()), old(pool.pm.live), old(tx.Own())) ==> rolled
    {
      ghost var v := log.View();
      assert tx.mutations[..tx.open] == tx.mutations;
      ok := coordinator.Abort(tx);
      rolled := log.View() != v;
    }

    /** Flushes the log; false stands for an exception. */
    method FlushLog() returns (ok: bool)
      requires Valid()
      modifies this`run, log, pool`durable
      ensures Valid() && (ok <==> !old(log.failNextFlush))
      ensures Took(old(run), pool.pm.pages, if ok then [R.FlushLog] else [], run)
    {
      ghost var d := Shown();
      LogStarted(d, run, txs);
      ok := FlushObjects();
      run := FlushAgrees(d, run, txs);
    }

    method FlushObjects() returns (ok: bool)
      requires Wired() && log.nextLsn > 0
      modifies log, pool`durable
      ensures Wired() && (ok <==> !old(log.failNextFlush)) && Shown() == FlushedPicture(old(Shown()))
    {
      WiredMeans();
      ok := log.Flush();
      Sync();
    }

    /** Writes a cached page to disk. A client that has written to it through a pin must have reported that. */
    method FlushPage(page: PageId) returns (r: Flushed)
      requires Valid() && (page in pool.table ==> DirtyOf(pool.S(), page) || pool.table[page] !in pool.touched)
      modifies this`run, pool`frames, pool.pm`pages
      ensures Valid() && Took(old(run), pool.pm.pages, [], run)
      ensures r == Written <==>
        && page in pool.table && page in pool.pm.live && page !in pool.pm.faulty
        && (DirtyOf(old(pool.S()), page) ==>
        PendingOf(old(pool.S()), page) == 0 && LsnDurable(pool.durable, PageOf(old(pool.S()), page).lsn))
      ensures r == Written ==>
        page in old(pool.View()) && pool.pm.pages == old(pool.pm.pages)[page := old(pool.View())[page]]
      ensures r != Written ==> pool.pm.pages == old(pool.pm.pages)
    {
      ghost var d := Shown();
      r := WriteObjects(page);
      run := DriftAgrees(d, run, txs, pool.pm.pages);
    }

    method WriteObjects(page: PageId) returns (r: Flushed)
      requires Wired() && (page in pool.table ==> DirtyOf(pool.S(), page) || pool.table[page] !in pool.touched)
      modifies pool`frames, pool.pm`pages
      ensures Wired() && Shown() == old(Shown()).(disk := pool.pm.pages)
      ensures Flowed(old(pool.View()), Some(log.durableLsn), old(pool.pm.pages), pool.pm.pages)
      ensures r == Written <==>
        && page in pool.table && page in pool.pm.live && page !in pool.pm.faulty
        && (DirtyOf(old(pool.S()), page) ==>
        PendingOf(old(pool.S()), page) == 0 && LsnDurable(pool.durable, PageOf(old(pool.S()), page).lsn))
      ensures r == Written ==>
        page in old(pool.View()) && pool.pm.pages == old(pool.pm.pages)[page := old(pool.View())[page]]
      ensures r != Written ==> pool.pm.pages == old(pool.pm.pages)
    {
      WiredMeans();
      assert EntryOk(pool.S(), page);
      r := pool.FlushPage(page);
      if r == Written { DiskStepFlows(old(pool.S()), pool.durable, old(pool.pm.pages), pool.pm.pages); }
      WiredMeans();
    }

    /** Writes all dirty pages to disk. */
    method FlushAll() returns (e: Option<Error>)
      requires Valid()
      modifies this`run, pool`frames, pool.pm`pages
      ensures Valid() && Took(old(run), pool.pm.pages, [], run)
      ensures e.None? <==> AllWritable(old(pool.S()), pool.durable, pool.pm.live, pool.pm.faulty)
    {
      ghost var d := Shown();
      e := WriteAllObjects();
      run := DriftAgrees(d, run, txs, pool.pm.pages);
    }

    method WriteAllObjects() returns (e: Option<Error>)
      requires Wired()
      modifies pool`frames, pool.pm`pages
      ensures Wired() && Shown() == old(Shown()).(disk := pool.pm.pages)
      ensures Flowed(old(pool.View()), Some(log.durableLsn), old(pool.pm.pages), pool.pm.pages)
      ensures e.None? <==> AllWritable(old(pool.S()), pool.durable, pool.pm.live, pool.pm.faulty)
    {
      WiredMeans();
      e := pool.FlushAllPages();
      DiskStepFlows(old(pool.S()), pool.durable, old(pool.pm.pages), pool.pm.pages);
      WiredMeans();
    }
  }
}
