/** One transaction on a new database, from beginning to end and through a crash. */
module DatabaseExample {
  import opened StorageTypes
  import opened FrameTable
  import opened BufferPools
  import opened WalCodec
  import opened PageManagers
  import opened RecoveryAnalysis
  import opened RecoveryHistory
  import opened Redos
  import opened Undos
  import R = CrashRuns
  import opened CrashRecovery
  import opened CrashTheorems
  import opened Replay
  import opened DatabaseRuns
  import opened Databases
  import opened DatabaseCrashes
  import opened Transactions
  import opened LockedPages
  import L = LockTable

  /** The only transaction gets every lock it asks for. */
  lemma OnlyOneGranted(page: PageId)
    ensures var l := L.Next(L.EMPTY, L.Begin(1)); var m := L.Next(l, L.Lock(0, 1, page, L.Exclusive));
      L.Decide(l, 1, page, L.Exclusive) == L.Granted && Owns(m, 1, page) && !L.Terminal(m, 1) && l.sleepers == map[]
  {
    var l := L.Next(L.EMPTY, L.Begin(1));
    assert L.Row(l, page) == [];
    var m := L.Next(l, L.Lock(0, 1, page, L.Exclusive));
    assert L.Row(m, page) == [L.Holder(1, L.Exclusive)];
  }

  /** What the transaction logs: its beginning and an allocation, a change, and its commit. */
  function AllocatedLog(): seq<Entry> {
    [Entry(1, 1, BeginTx)] + [Entry(2, 1, AllocatePage(0))]
  }

  function WrittenLog(bytes: Bytes): seq<Entry> {
    AllocatedLog() + [Entry(3, 1, R.Mutated(0, NEW_PAGE.data, bytes, 0))]
  }

  function CommittedLog(bytes: Bytes): seq<Entry> {
    WrittenLog(bytes) + [Entry(4, 1, CommitTx)]
  }

  /** A new database with one running transaction. */
  method Started() returns (db: Database, tx: Transaction)
    ensures fresh(db) && fresh(db.locks) && fresh(db.log) && fresh(db.pool) && fresh(db.pool.pm) && fresh(tx)
    ensures db.Valid() && db.Runs(tx) && R.Active(db.run.log, tx.id) && db.Part(tx) == TxPart(1, [], [], 0)
      && tx.sequence == 0
    ensures db.Shown() == BegunPicture(NEW_PICTURE) && db.pool.free != [] && db.pool.table == map[]
      && db.pool.pm.faulty == {}
    ensures db.run.log == [Entry(1, 1, BeginTx)]
  {
    db := new Database(1);
    tx := db.Begin();
  }

  /** It has allocated page 0. */
  method AllocatedPage() returns (db: Database, tx: Transaction)
    ensures fresh(db) && fresh(db.locks) && fresh(db.log) && fresh(db.pool) && fresh(db.pool.pm) && fresh(tx)
    ensures db.Valid() && db.Runs(tx) && R.Active(db.run.log, tx.id) && tx.sequence == 0 && tx.id == 1
    ensures db.Shown() == GrantedPicture(BegunPicture(NEW_PICTURE), 1)
    ensures db.pool.free != [] && db.pool.table == map[] && db.pool.pm.faulty == {}
    ensures db.run.log == AllocatedLog()
  {
    db, tx := Started();
    var r := db.Allocate(tx);
  }

  /** It has the page locked. */
  method LockedPage() returns (db: Database, tx: Transaction)
    ensures fresh(db) && fresh(db.locks) && fresh(db.log) && fresh(db.pool) && fresh(db.pool.pm) && fresh(tx)
    ensures db.Valid() && db.Runs(tx) && R.Active(db.run.log, tx.id) && Owns(db.locks.State(), 1, 0)
      && !L.Terminal(db.locks.State(), 1)
    ensures db.log.nextLsn == 3 && !db.log.failNextFlush && tx.sequence == 0 && tx.id == 1
    ensures db.pool.free != [] && db.pool.table == map[] && db.pool.pm.live == {0} && db.pool.pm.faulty == {}
    ensures 0 in db.pool.View() && db.pool.View()[0] == NEW_PAGE
    ensures db.run.log == AllocatedLog()
  {
    db, tx := AllocatedPage();
    OnlyOneGranted(0);
    var reply := db.Lock(0, tx, 0, L.Exclusive);
  }

  method WriteFirst(db: Database, tx: Transaction, bytes: Bytes)
    requires db.Valid() && db.Runs(tx) && R.Active(db.run.log, 1) && Owns(db.locks.State(), 1, 0)
    requires tx.sequence == 0 && tx.id == 1 && db.log.nextLsn == 3 && |bytes| == PAYLOAD_SIZE && bytes != NEW_PAGE.data
    requires db.pool.free != [] && db.pool.table == map[] && 0 in db.pool.pm.live && db.pool.pm.faulty == {}
    requires 0 in db.pool.View() && db.pool.View()[0] == NEW_PAGE
    modifies db`run, db`txs, db.log, tx`watched, tx`sequence, tx`mutations, tx`resolved, tx`finalized, tx`open
    modifies db.pool`frames, db.pool`table, db.pool`free, db.pool`lru, db.pool`touched, db.pool.pm`pages
    ensures db.Valid() && db.Runs(tx) && R.Active(db.run.log, 1)
    ensures db.log.nextLsn == 4 && db.log.failNextFlush == old(db.log.failNextFlush)
    ensures db.run.log == old(db.run.log) + [Entry(3, 1, R.Mutated(0, NEW_PAGE.data, bytes, 0))]
  {
    var ok := db.Write(tx, 0, bytes);
    assert ok;
  }

  /** The rest of its life. */
  method WriteAndCommit(db: Database, tx: Transaction, bytes: Bytes)
    requires db.Valid() && db.Runs(tx) && R.Active(db.run.log, 1) && Owns(db.locks.State(), 1, 0)
      && !L.Terminal(db.locks.State(), 1)
    requires tx.sequence == 0 && tx.id == 1 && db.log.nextLsn == 3 && !db.log.failNextFlush && |bytes| == PAYLOAD_SIZE
      && bytes != NEW_PAGE.data
    requires db.pool.free != [] && db.pool.table == map[] && 0 in db.pool.pm.live && db.pool.pm.faulty == {}
    requires 0 in db.pool.View() && db.pool.View()[0] == NEW_PAGE && db.run.log == AllocatedLog()
    modifies db, db.locks, db.log, tx, db.pool, db.pool.pm`pages
    ensures db.Valid() && db.run.durable == |db.run.log| && db.run.log == CommittedLog(bytes)
  {
    WriteFirst(db, tx, bytes);
    CommitWritten(db, tx, bytes);
  }

  method CommitWritten(db: Database, tx: Transaction, bytes: Bytes)
    requires db.Valid() && db.Runs(tx) && R.Active(db.run.log, 1) && !L.Terminal(db.locks.State(), 1)
    requires tx.id == 1 && db.log.nextLsn == 4 && !db.log.failNextFlush && db.run.log == WrittenLog(bytes)
    modifies db`run, db.locks, db.log, db.pool`durable
    ensures db.Valid() && db.run.durable == |db.run.log| && db.run.log == CommittedLog(bytes)
  {
    var ok := db.Commit(tx);
  }

  method CommittedPage(bytes: Bytes) returns (db: Database)
    requires |bytes| == PAYLOAD_SIZE && bytes != NEW_PAGE.data
    ensures fresh(db) && fresh(db.locks) && fresh(db.log) && fresh(db.pool) && fresh(db.pool.pm)
    ensures db.Valid() && db.pool.pm.faulty == {} && db.run.durable == |db.run.log| && db.run.log == CommittedLog(bytes)
  {
    var tx;
    db, tx := LockedPage();
    WriteAndCommit(db, tx, bytes);
  }

  /** Nobody has rolled back, so no page is orphaned. */
  lemma Recoverable(db: Database, bytes: Bytes)
    requires db.Valid() && db.run.log == CommittedLog(bytes)
    ensures Faithful(db.run.base, db.run.log) && forall p: PageId :: !R.Orphaned(db.run.log, p)
    ensures db.log.flushed <= |db.log.file|
  {
    db.WiredMeans();
    AgreesMeans(db.Shown(), db.run, db.txs);
    ReachedInv(db.run);
    assert Quitters(CommittedLog(bytes)) == {};
  }

  /** The page as the committed transaction left it. */
  lemma CommittedTruth(s: R.Sys, bytes: Bytes, n: nat, t: Store)
    requires Faithful(s.base, s.log) && R.Survives(s, n) && s.durable == |s.log| && s.log == CommittedLog(bytes)
      && IsRecovered(s, n, t)
    ensures 0 in t.pages && t.pages[0].data == bytes
  {
    var es := s.log[..n];
    assert es == CommittedLog(bytes) && OnPage(es[2], 0) && OnPage(s.log[2], 0);
    assert LastBy(es, 1, 0, 3) == 2;
    assert Truth(s.base[0].data, es, 0, 4) == bytes;
  }

  /** A new database, one transaction that commits, a crash, recovery: the page is as it was committed. */
  method CommittedSurvives(bytes: Bytes) returns (ok: bool, ctx: ReplayContext)
    requires |bytes| == PAYLOAD_SIZE && bytes != NEW_PAGE.data
    ensures ok && 0 in ctx.Contents().pages && ctx.Contents().pages[0].data == bytes
  {
    var db := CommittedPage(bytes);
    ghost var n;
    Recoverable(db, bytes);
    ok, n, ctx := CrashAndRecover(db, |db.log.file|, 1);
    CommittedTruth(db.run, bytes, n, ctx.Contents());
  }
}
