/** A crash of the database object, reopening and recovery. */
module DatabaseCrashes {
  import opened StorageTypes
  import opened FrameTable
  import opened BufferPools
  import opened WalCodec
  import opened WalLog
  import opened PageManagers
  import opened LogManagers
  import opened RecoveryAnalysis
  import opened Redos
  import opened Undos
  import opened RealLogs
  import R = CrashRuns
  import opened CrashRecovery
  import opened CrashTheorems
  import opened Replay
  import opened RecoveryPasses
  import opened DatabaseRuns
  import opened Databases

  lemma {:induction false} TotalGrows(rs: seq<WalRecord>, j: nat, k: nat)
    requires j <= k <= |rs|
    ensures TotalSize(rs[..j]) <= TotalSize(rs[..k])
  {
    if j < k {
      TotalGrows(rs, j, k - 1);
      assert rs[..k] == rs[..k - 1] + [rs[k - 1]];
      TotalAppend(rs[..k - 1], rs[k - 1]);
    }
  }

  /** Cut to its complete records, the file has as many of them as before. */
  lemma WholeAgain(rs: seq<WalRecord>, m: nat)
    ensures Whole(rs, TotalSize(rs[..Whole(rs, m)])) == Whole(rs, m)
  {
    WholeIsLongest(rs, m);
    WholeIsLongest(rs, TotalSize(rs[..Whole(rs, m)]));
  }

  lemma RecordsPrefix(es: seq<Entry>, k: nat)
    requires k <= |es|
    ensures Records(es[..k]) == Records(es)[..k]
  {
  }

  /** The durable entries of the history are among the records that the reopened log has. */
  lemma DurableKept(v: LogView, s: R.Sys, kept: nat)
    requires
          LogShows(v, s) && kept <= |v.records| && forall k :: 0 <= k < |v.records| && v.records[k].lsn <= v.durable ==>
        k < kept
    ensures |Real(s.log[..s.durable])| <= kept
      && Records(Real(s.log[..s.durable])) == v.records[..|Real(s.log[..s.durable])|]
  {
    var es, r := Real(s.log[..s.durable]), Real(s.log);
    RealGrows(s.log, s.durable, |s.log|);
    assert s.log[..|s.log|] == s.log;
    assert Records(es) == Records(r)[..|es|];
    if es != [] {
      var i := RealFrom(s.log[..s.durable], |es| - 1);
      assert s.log[..s.durable][i] == s.log[i] && r[|es| - 1] == es[|es| - 1];
      assert v.records[|es| - 1] == RecordOf(r[|es| - 1]);
    }
  }

  /** What the reopened log has is the file of some surviving history, durable through its last record. */
  lemma Reopened(v: LogView, s: R.Sys, m: nat, durable: nat)
    requires LogShows(v, s) && Storable(v.records) && Increasing(v.records, 0)
    requires forall k :: 0 <= k < |v.records| && v.records[k].lsn <= v.durable ==> k < Whole(v.records, m)
    requires Whole(v.records, m) > 0 ==> durable == v.records[Whole(v.records, m) - 1].lsn
    ensures var k := Whole(v.records, m);
      && BytesSurvive(s, TotalSize(v.records[..k])) && RunFile(s.log, TotalSize(v.records[..k])) == Log(v.records[..k])
      && SurvivorsDurable(s.log, TotalSize(v.records[..k]), Some(durable))
  {
    var rs, k := v.records, Whole(v.records, m);
    DurableKept(v, s, k);
    TotalGrows(rs, |Real(s.log[..s.durable])|, k);
    LogPrefix(rs, k);
    WholeAgain(rs, m);
    KeptDurable(Real(s.log), rs, k, durable);
  }

  lemma KeptDurable(es: seq<Entry>, rs: seq<WalRecord>, k: nat, durable: nat)
    requires rs == Records(es) && Increasing(rs, 0) && k <= |rs| && (k > 0 ==> durable == rs[k - 1].lsn)
    ensures forall i :: 0 <= i < |es| && i < k ==> LsnDurable(Some(durable), es[i].lsn)
  {
    forall i | 0 <= i < |es| && i < k ensures LsnDurable(Some(durable), es[i].lsn) {
      assert rs[i] == RecordOf(es[i]);
    }
  }

  /** A new context over a new pool, on the disk as the crash left it. */
  method NewContext(pm: PageManager, capacity: nat, durable: nat) returns (ctx: ReplayContext)
    requires pm.Valid() && pm.faulty == {} && 0 < capacity
    ensures fresh(ctx) && fresh(ctx.pool) && ctx.pool.pm == pm && ctx.pool.durable == Some(durable) && ctx.Valid()
    ensures ctx.reconstructed == {} && ctx.Contents() == Store(pm.pages, pm.live, pm.count)
  {
    var pool := new BufferPool(pm, capacity, Some(durable));
    ctx := new ReplayContext(pool);
    forall f | 0 <= f < |pool.frames| ensures FrameQuiet(pool.frames[f], pool.durable, pm.live) {
      assert FrameOk(pool.S(), f);
    }
  }

  /** The records are those of a surviving history of the run, and the reopened log counts them as durable. */
  ghost predicate Survivors(s: R.Sys, records: seq<WalRecord>, file: Bytes, durable: nat) {
    var size := TotalSize(records);
    && Reachable(s) && BytesSurvive(s, size) && file == RunFile(s.log, size)
    && SurvivorsDurable(s.log, size, Some(durable))
    && Whole(Records(Real(s.log)), size) == |records| && records == Records(Real(s.log))[..|records|]
  }

  /** The log as a crash and the next start leave it, against the run. */
  method Reopen(db: Database, m: nat)
    requires db.Valid() && db.log.flushed <= m <= |db.log.file|
    modifies db.log
    ensures db.log.records == old(db.log.records)[..Whole(old(db.log.records), m)]
    ensures Survivors(db.run, db.log.records, db.log.file, db.log.durableLsn)
    ensures db.pool.pm.Valid() && R.Crashed(db.run) == Store(db.pool.pm.pages, db.pool.pm.live, db.pool.pm.count)
  {
    db.WiredMeans();
    AgreesMeans(db.Shown(), db.run, db.txs);
    ghost var v, s := db.log.View(), db.run;
    var ok := db.log.CrashAndReopen(m);
    Reopened(v, s, m, db.log.durableLsn);
    WholeAgain(v.records, m);
  }

  /** Recovery from what has survived of a run. */
  method RecoverReached(ghost s: R.Sys, ghost records: seq<WalRecord>, file: Bytes, durable: nat, ctx: ReplayContext)
      returns (ok: bool, ghost n: nat)
    requires Survivors(s, records, file, durable) && ctx.pool.durable == Some(durable)
    requires ctx.Valid() && ctx.reconstructed == {} && ctx.Contents() == R.Crashed(s)
    modifies ctx`reconstructed, ctx.pool`frames, ctx.pool`table, ctx.pool`free, ctx.pool`lru, ctx.pool`touched
    modifies ctx.pool.pm`pages, ctx.pool.pm`count, ctx.pool.pm`live, ctx.pool.pm`liveCount
    ensures R.Survives(s, n) && Records(Real(s.log[..n])) == records
    ensures ok <==> forall i: nat, p: PageId :: i < n && OnPage(s.log[i], p) ==> !R.Orphaned(s.log, p)
    ensures ok ==> IsRecovered(s, n, ctx.Contents())
  {
    ghost var states, steps :| EndsIn(states, steps, s);
    IsWalked(states, steps);
    ok, n := RecoverRun(states, steps, |steps|, file, TotalSize(records), ctx);
    RecordsPrefix(Real(s.log), |records|);
  }

  /**
   * After any calls to a database, a crash that leaves any part of the log behind its flushed bytes, reopening and
   * recovery end in exactly the committed store, if and only if no surviving change is to a page whose allocator
   * rolled back.
   */
  method CrashAndRecover(db: Database, m: nat, capacity: nat) returns (ok: bool, ghost n: nat, ctx: ReplayContext)
    requires db.Valid() && db.log.flushed <= m <= |db.log.file| && 0 < capacity && db.pool.pm.faulty == {}
    modifies db.log, db.pool.pm
    ensures R.Survives(db.run, n)
      && Records(Real(db.run.log[..n])) == db.log.records == old(db.log.records)[..Whole(old(db.log.records), m)]
    ensures ok <==> forall i: nat, p: PageId :: i < n && OnPage(db.run.log[i], p) ==> !R.Orphaned(db.run.log, p)
    ensures ok ==> IsRecovered(db.run, n, ctx.Contents())
  {
    Reopen(db, m);
    ctx := NewContext(db.pool.pm, capacity, db.log.durableLsn);
    ok, n := RecoverReached(db.run, db.log.records, db.log.file, db.log.durableLsn, ctx);
  }
}
