/** The buffer pool over whole runs of its clients. */
module BufferPoolRuns {
  import opened StorageTypes
  import opened FrameTable
  import opened PageManagers
  import opened BufferPools
  import opened EvictionOrder
  import T = Transactions

  datatype ClientOp =
    | Fetch(id: PageId)
    | Unpin(id: PageId, dirty: bool)
    | Write(id: PageId, page: Page)
    | Flush(id: PageId)
    | Delete(id: PageId)
    | FlushAll
    | Capture(id: PageId)
    | Finalize(id: PageId, lsn: nat)
    | Release(id: PageId, lsn: nat)
    | RestoreLsn(id: PageId, lsn: nat)
    | Allocate
    | Deallocate(id: PageId)
    | LogFlushed(lsn: nat)

  /** The cache, the file with its catalog, and the LSN up to which the log is durable. */
  datatype Pool = Pool(s: Frames, touched: set<FrameId>, disk: map<PageId, Page>, count: nat, live: set<PageId>,
      durable: Option<nat>)

  ghost function Snapshot(pool: BufferPool): Pool
    reads pool, pool.pm
  {
    Pool(pool.S(), pool.touched, pool.pm.pages, pool.pm.count, pool.pm.live, pool.durable)
  }

  ghost function View(p: Pool): map<PageId, Page> {
    ViewOf(p.s, p.disk)
  }

  /** What clients promise: they write only to pinned pages, report a written page dirty with the last pin at the
      latest, do not flush a page that they have written to but not reported, and restore LSNs only of pages that are
      dirty or pinned. The log's durable LSN never goes back. */
  ghost predicate Disciplined(p: Pool, op: ClientOp) {
    match op
    case Write(id, page) => PinOf(p.s, id) > 0
    case Unpin(id, dirty) => Reported(p.s, p.touched, id, dirty)
    case Flush(id) => id in p.s.table && p.s.table[id] in p.touched ==> DirtyOf(p.s, id)
    case RestoreLsn(id, lsn) => id in p.s.table && PendingOf(p.s, id) == 0 ==> DirtyOf(p.s, id) || PinOf(p.s, id) > 0
    case LogFlushed(lsn) => p.durable.Some? ==> p.durable.value <= lsn
    case _ => true
  }

  ghost predicate GivesLsn(p: Pool, op: ClientOp, id: PageId, lsn: nat) {
    match op
    case Finalize(x, l) => x == id && l == lsn && PendingOf(p.s, id) > 0 && lsn != 0
    case Release(x, l) => x == id && l == lsn && PendingOf(p.s, id) > 0
    case RestoreLsn(x, l) => x == id && l == lsn && id in p.s.table && PendingOf(p.s, id) == 0
    case _ => false
  }

  /** The store that a client has in mind: only writes, LSN assignments and allocations change it. */
  ghost predicate StoreStep(p: Pool, op: ClientOp, after: map<PageId, Page>) {
    var before := View(p);
    match op
    case Write(id, page) => id in before && after == before[id := page]
    case Finalize(id, lsn) => if GivesLsn(p, op, id, lsn)
      then id in before && after == before[id := before[id].(lsn := lsn)] else after == before
    case Release(id, lsn) => if GivesLsn(p, op, id, lsn)
      then id in before && after == before[id := before[id].(lsn := lsn)] else after == before
    case RestoreLsn(id, lsn) => if GivesLsn(p, op, id, lsn)
      then id in before && after == before[id := before[id].(lsn := lsn)] else after == before
    case Allocate => if p.count < CATALOG_BITS then p.count !in before && after == before[p.count := NEW_PAGE]
      else after == before
    case _ => after == before
  }

  /** The page may be written: all its captured mutations have LSNs, and the log is durable through the newest. */
  ghost predicate GatesOpen(p: Pool, id: PageId) {
    id in p.s.table && PendingOf(p.s, id) == 0 && LsnDurable(p.durable, PageOf(p.s, id).lsn)
  }

  /** The file gains new pages, and otherwise changes only to what open gates let through. */
  ghost predicate FileStep(p: Pool, after: map<PageId, Page>) {
    && p.disk.Keys <= after.Keys
    && (forall id :: id in p.disk && after[id] != p.disk[id] ==> GatesOpen(p, id) && after[id] == PageOf(p.s, id))
    && forall id :: id in after && id !in p.disk ==> after[id] == NEW_PAGE
  }

  /**
   * A page that is dirty in the cache but no longer allocated: a rollback frees the pages of its transaction like
   * that.
   */
  ghost predicate Stranded(p: Pool, id: PageId) {
    DirtyOf(p.s, id) && id !in p.live && id < p.count
  }

  ghost predicate StrandedStay(p: Pool, q: Pool) {
    forall id: PageId {:trigger Stranded(q, id)} :: Stranded(p, id) ==> Stranded(q, id)
  }

  /**
   * The idle pages stay in order; only giving back the last pin makes a page idle, and it is then the last in the
   * order. A page leaves the cache when it is deleted, or for one that is fetched if there is no free frame and it is
   * the first in the order.
   */
  ghost predicate QueueStep(s: Frames, op: ClientOp, t: Frames) {
    && Reordered(s, t, if op.Unpin? then Some(op.id) else None)
    && forall a: PageId :: a in s.table && a !in t.table ==>
         Idle(s, a) && (op == Delete(a) || (op.Fetch? && IsVictim(s, a)))
  }

  /** One operation: the store, the file, the catalog, the order of eviction and the stranded pages after it. */
  ghost predicate PoolStep(p: Pool, op: ClientOp, q: Pool) {
    && Core(q.s, NO_HOLE) && StoreStep(p, op, View(q)) && FileStep(p, q.disk) && StrandedStay(p, q)
    && QueueStep(p.s, op, q.s)
    && q.durable == (if op.LogFlushed? then Some(op.lsn) else p.durable)
    && q.count == (if op.Allocate? && p.count < CATALOG_BITS then p.count + 1 else p.count)
    && q.live == (if op.Allocate? && p.count < CATALOG_BITS then p.live + {p.count}
    else if op.Deallocate? then p.live - {op.id} else p.live)
  }

  /** Every operation is a step, whatever its outcome, and keeps the cache coherent. */
  method Perform(pool: BufferPool, op: ClientOp)
    requires pool.Valid() && Disciplined(Snapshot(pool), op)
    modifies pool, pool.pm
    ensures pool.Valid() && PoolStep(old(Snapshot(pool)), op, Snapshot(pool))
  {
    match op {
      case Fetch(_) => PerformPinned(pool, op);
      case Unpin(_, _) => PerformPinned(pool, op);
      case Flush(id) => PerformFlush(pool, id);
      case Delete(_) => PerformDrop(pool, op);
      case FlushAll => PerformDrop(pool, op);
      case Allocate => PerformAllocate(pool);
      case Deallocate(id) =>
        SameQueue(pool.S(), op, pool.S());
        var ok := pool.pm.DeallocatePage(id);
      case LogFlushed(lsn) =>
        SameQueue(pool.S(), op, pool.S());
        pool.AdvanceDurable(lsn);
      case Write(_, _) => PerformWrite(pool, op);
      case Capture(_) => PerformWrite(pool, op);
      case _ => PerformLsn(pool, op);
    }
  }

  /** Pinning and giving back. */
  method PerformPinned(pool: BufferPool, op: ClientOp)
    requires pool.Valid() && Disciplined(Snapshot(pool), op) && (op.Fetch? || op.Unpin?)
    modifies pool`frames, pool`table, pool`free, pool`lru, pool`touched, pool.pm`pages
    ensures pool.Valid() && PoolStep(old(Snapshot(pool)), op, Snapshot(pool))
  {
    ghost var p := Snapshot(pool);
    match op {
      case Fetch(id) =>
        var r := pool.FetchPage(id);
        FetchReorders(p.s, pool.S(), p.durable, p.live, pool.pm.faulty, id, View(p));
        forall x | Stranded(p, x) ensures Stranded(Snapshot(pool), x) {
          NeverEvicted(p.s, pool.S(), p.durable, p.live, pool.pm.faulty, id, x, r);
        }
      case Unpin(id, dirty) =>
        var ok := pool.UnpinPage(id, dirty);
        if ok { UnpinReorders(p.s, id, dirty); }
        forall x | Stranded(p, x) ensures Stranded(Snapshot(pool), x) { assert EntryOk(p.s, x) && EntryOk(p.s, id); }
    }
    GatesHeld(p, pool.pm.pages);
  }

  /** Who leaves neither the page table nor the list keeps its place. */
  lemma SameQueue(s: Frames, op: ClientOp, t: Frames)
    requires Core(s, NO_HOLE) && Core(t, NO_HOLE) && t.table == s.table && t.lru == s.lru
    ensures QueueStep(s, op, t)
  {
    LeavingReorders(s, t, 0);
    var given := if op.Unpin? then Some(op.id) else None;
    forall a: PageId ensures BecomesIdle(s, t, given, a) {
      assert BecomesIdle(s, t, None, a);
    }
  }

  /** A dirty page that is not allocated stays in the cache, whatever is fetched. */
  lemma NeverEvicted(s: Frames, t: Frames, durable: Option<nat>, live: set<PageId>, faulty: set<PageId>, id: PageId,
      x: PageId, r: Fetched)
    requires Core(s, NO_HOLE) && DirtyOf(s, x) && x !in live
    requires id == INVALID || id !in live ==> t == s
    requires r.Pinned? && id in s.table ==> t.table == s.table && OnlyFrame(s, t, s.table[id])
    requires !r.Pinned? && (id in s.table || !CanAcquire(s, durable, live, faulty)) ==> t == s
    requires r.Pinned? <==> CanFetch(s, durable, live, faulty, id)
    requires forall p {:trigger Undisturbed(s, t, p)} :: p != id && Kept(s, p) ==> Undisturbed(s, t, p)
    ensures DirtyOf(t, x)
  {
    assert EntryOk(s, x) && EntryOk(s, id);
    var f := s.table[x];
    if x != id && Kept(s, x) {
      assert Undisturbed(s, t, x);
    } else if x != id {
      assert f in s.lru && s.lru[0] == f && !CanAcquire(s, durable, live, faulty);
    }
  }

  /**
   * A stranded page cannot be written back, so it can neither be evicted nor deleted, and flushing everything fails.
   */
  lemma StrandedBlocks(p: Pool, id: PageId, faulty: set<PageId>)
    requires Core(p.s, NO_HOLE) && Stranded(p, id)
    ensures id in p.s.table && p.s.table[id] < |p.s.frames|
      && !CanWriteBack(p.s.frames[p.s.table[id]], p.durable, p.live, faulty)
    ensures !CanDrop(p.s, p.durable, p.live, faulty, id) && !AllWritable(p.s, p.durable, p.live, faulty)
    ensures !CanFetch(p.s, p.durable, p.live, faulty, id)
  {
    assert EntryOk(p.s, id);
  }

  /** Writing back one page. */
  method PerformFlush(pool: BufferPool, id: PageId)
    requires pool.Valid() && Disciplined(Snapshot(pool), Flush(id))
    modifies pool`frames, pool.pm`pages
    ensures pool.Valid() && PoolStep(old(Snapshot(pool)), Flush(id), Snapshot(pool))
  {
    ghost var p := Snapshot(pool);
    var r := pool.FlushPage(id);
    SameQueue(p.s, Flush(id), pool.S());
    forall x | Stranded(p, x) ensures Stranded(Snapshot(pool), x) { assert EntryOk(p.s, x) && EntryOk(p.s, id); }
    GatesHeld(p, pool.pm.pages);
  }

  /** Writing back and dropping a page, or writing back all. */
  method PerformDrop(pool: BufferPool, op: ClientOp)
    requires pool.Valid() && (op.Delete? || op.FlushAll?)
    modifies pool`frames, pool`table, pool`free, pool`lru, pool.pm`pages
    ensures pool.Valid() && PoolStep(old(Snapshot(pool)), op, Snapshot(pool))
  {
    ghost var p := Snapshot(pool);
    match op {
      case Delete(id) =>
        var r := pool.DeletePage(id);
        LeavingReorders(p.s, pool.S(), if id in p.s.table then p.s.table[id] else 0);
        forall x | Stranded(p, x) ensures Stranded(Snapshot(pool), x) {
          StrandedBlocks(p, x, pool.pm.faulty);
          assert EntryOk(p.s, id);
        }
      case FlushAll =>
        var e := pool.FlushAllPages();
        SameQueue(p.s, op, pool.S());
        forall x | Stranded(p, x) ensures Stranded(Snapshot(pool), x) { StrandedBlocks(p, x, pool.pm.faulty); }
    }
    GatesHeld(p, pool.pm.pages);
  }

  /** Writing to a pinned page, and capturing a change of it. */
  method PerformWrite(pool: BufferPool, op: ClientOp)
    requires pool.Valid() && Disciplined(Snapshot(pool), op) && (op.Write? || op.Capture?)
    modifies pool`frames, pool`touched
    ensures pool.Valid() && PoolStep(old(Snapshot(pool)), op, Snapshot(pool))
  {
    ghost var s := pool.S();
    match op {
      case Write(id, page) =>
        assert EntryOk(pool.S(), id) && FrameSynced(pool.S(), pool.touched, pool.pm.pages, pool.table[id]);
        pool.ModifyPage(id, page);
      case Capture(id) => var e := pool.MarkMutationPending(id);
    }
    SameQueue(s, op, pool.S());
  }

  /** The operations on the LSN of a cached page. */
  method PerformLsn(pool: BufferPool, op: ClientOp)
    requires pool.Valid() && Disciplined(Snapshot(pool), op) && (op.Finalize? || op.Release? || op.RestoreLsn?)
    modifies pool`frames, pool`touched
    ensures pool.Valid() && PoolStep(old(Snapshot(pool)), op, Snapshot(pool))
  {
    ghost var s := pool.S();
    match op {
      case Finalize(id, lsn) => var e := pool.ReleasePending(id, lsn, false);
      case Release(id, lsn) => var e := pool.ReleasePending(id, lsn, true);
      case RestoreLsn(id, lsn) => var e := pool.RestorePageLsn(id, lsn);
    }
    SameQueue(s, op, pool.S());
  }

  /** A new page of the file, which the cache does not notice. */
  method PerformAllocate(pool: BufferPool)
    requires pool.Valid()
    modifies pool.pm
    ensures pool.Valid() && PoolStep(old(Snapshot(pool)), Allocate, Snapshot(pool))
  {
    ghost var disk, s, touched := pool.pm.pages, pool.S(), pool.touched;
    SameQueue(s, Allocate, s);
    var r := pool.pm.AllocatePage();
    if r.Some? {
      SyncedGrows(s, touched, disk, pool.pm.pages);
      ViewGrows(s, touched, disk, r.value, NEW_PAGE);
      assert pool.pm.pages == disk[r.value := NEW_PAGE];
    }
  }

  lemma GatesHeld(p: Pool, after: map<PageId, Page>)
    requires DiskStep(p.s, p.durable, p.disk, after)
    ensures FileStep(p, after)
  {
  }

  // ---- Whole runs --------------------------------------------------------------------

  ghost predicate StepAt(ps: seq<Pool>, ops: seq<ClientOp>, i: nat) {
    i < |ops| && i + 1 < |ps| ==> Disciplined(ps[i], ops[i]) && PoolStep(ps[i], ops[i], ps[i + 1])
  }

  ghost predicate IsRun(ps: seq<Pool>, ops: seq<ClientOp>) {
    && |ps| == |ops| + 1 && Core(ps[0].s, NO_HOLE) && LogAhead(ps[0].durable, ps[0].disk)
    && forall i: nat {:trigger StepAt(ps, ops, i)} :: StepAt(ps, ops, i)
  }

  /** In every state of every run, the log is durable through the LSN of every page of the file. */
  lemma {:induction false} RunLogAhead(ps: seq<Pool>, ops: seq<ClientOp>, k: nat)
    requires IsRun(ps, ops) && k < |ps|
    ensures LogAhead(ps[k].durable, ps[k].disk)
  {
    if k > 0 {
      RunLogAhead(ps, ops, k - 1);
      assert StepAt(ps, ops, k - 1);
    }
  }

  /** The page was in the cache in state j with its gates open, and this was its content. */
  ghost predicate LetThrough(ps: seq<Pool>, j: nat, id: PageId, page: Page) {
    j < |ps| && GatesOpen(ps[j], id) && PageOf(ps[j].s, id) == page
  }

  /**
   * No unfinalized mutation ever reaches the file: in every state of every run, a page of the file is as the run
   * found it, or zeroed, or what the page was at an earlier point at which all its captured mutations had LSNs and
   * the log was durable through them.
   */
  lemma {:induction false} FileOrigin(ps: seq<Pool>, ops: seq<ClientOp>, k: nat, id: PageId)
    requires IsRun(ps, ops) && k < |ps| && id in ps[k].disk
    ensures var page := ps[k].disk[id];
      (id in ps[0].disk && page == ps[0].disk[id]) || page == NEW_PAGE || exists j: nat ::
        j < k && LetThrough(ps, j, id, page)
  {
    if k > 0 {
      assert StepAt(ps, ops, k - 1);
      var p := ps[k - 1];
      if id in p.disk {
        if ps[k].disk[id] == p.disk[id] {
          FileOrigin(ps, ops, k - 1, id);
        } else {
          assert LetThrough(ps, k - 1, id, ps[k].disk[id]);
        }
      }
    }
  }

  /** The operation may change the page in the store. */
  predicate Concerns(op: ClientOp, id: PageId) {
    match op
    case Write(x, _) => x == id
    case Finalize(x, _) => x == id
    case Release(x, _) => x == id
    case RestoreLsn(x, _) => x == id
    case _ => false
  }

  /** What was written last is what is there, however often the page is evicted, flushed and fetched again. */
  lemma {:induction false} WriteStays(ps: seq<Pool>, ops: seq<ClientOp>, i: nat, k: nat, id: PageId)
    requires IsRun(ps, ops) && i < k < |ps| && ops[i].Write? && ops[i].id == id
    requires forall j :: i < j < k ==> !Concerns(ops[j], id)
    ensures id in View(ps[k]) && View(ps[k])[id] == ops[i].page
  {
    assert StepAt(ps, ops, k - 1);
    if i + 1 < k { WriteStays(ps, ops, i, k - 1, id); }
  }

  // ---- What succeeds -----------------------------------------------------------------

  /** The page may be written as it is: its changes all have LSNs, the log is durable through the newest, it exists. */
  ghost predicate Writable(p: Pool, faulty: set<PageId>, id: PageId) {
    && PendingOf(p.s, id) == 0 && id in p.live && id !in faulty
    && (PageOf(p.s, id).lsn == 0 || (p.durable.Some? && PageOf(p.s, id).lsn <= p.durable.value))
  }

  ghost predicate CleanOrWritable(p: Pool, faulty: set<PageId>, id: PageId) {
    DirtyOf(p.s, id) ==> Writable(p, faulty, id)
  }

  /** Flushing everything succeeds exactly if every dirty page can be written. */
  lemma FlushAllIff(p: Pool, faulty: set<PageId>)
    requires Core(p.s, NO_HOLE)
    ensures AllWritable(p.s, p.durable, p.live, faulty) <==> forall id: PageId :: CleanOrWritable(p, faulty, id)
  {
    var s := p.s;
    if forall id: PageId :: CleanOrWritable(p, faulty, id) {
      forall f | 0 <= f < |s.frames| && s.frames[f].occupied
        ensures CanWriteBack(s.frames[f], p.durable, p.live, faulty)
      {
        assert FrameOk(s, f) && CleanOrWritable(p, faulty, s.frames[f].id);
      }
    }
    if AllWritable(s, p.durable, p.live, faulty) {
      forall id: PageId ensures CleanOrWritable(p, faulty, id) { assert EntryOk(s, id); }
    }
  }

  /** Dropping a page succeeds exactly if nobody uses it and it is clean or can be written. */
  lemma DeleteIff(p: Pool, faulty: set<PageId>, id: PageId)
    requires Core(p.s, NO_HOLE)
    ensures CanDrop(p.s, p.durable, p.live, faulty, id) <==>
      id !in p.s.table || (Idle(p.s, id) && CleanOrWritable(p, faulty, id))
  {
    assert EntryOk(p.s, id);
  }

  /** There is a free frame, or the page whose turn it is can go. */
  lemma RoomIff(p: Pool, faulty: set<PageId>)
    requires Core(p.s, NO_HOLE)
    ensures CanAcquire(p.s, p.durable, p.live, faulty) <==>
      p.s.free != [] || exists a :: IsVictim(p.s, a) && CleanOrWritable(p, faulty, a)
  {
    var s := p.s;
    if s.free == [] && s.lru != [] {
      assert s.lru[0] in s.lru && FrameOk(s, s.lru[0]);
      var first := s.frames[s.lru[0]].id;
      FirstIsVictim(s, first);
      forall a | IsVictim(s, a) ensures a == first { if a != first { OneIsEarlier(s, a, first); } }
      assert CanWriteBack(s.frames[s.lru[0]], p.durable, p.live, faulty) <==> CleanOrWritable(p, faulty, first);
    } else {
      forall a ensures Idle(s, a) ==> s.lru != [] { IdleListed(s, a); }
    }
  }

  /**
   * Fetching succeeds exactly for an allocated page that is cached and has a pin to spare, or can be read into a free
   * frame or into that of the page whose turn it is.
   */
  lemma FetchIff(p: Pool, faulty: set<PageId>, id: PageId)
    requires Core(p.s, NO_HOLE)
    ensures CanFetch(p.s, p.durable, p.live, faulty, id) <==>
      && id != INVALID && id in p.live
      && if id in p.s.table then PinOf(p.s, id) < 0xFFFF_FFFF
         else id !in faulty && (p.s.free != [] || exists a :: IsVictim(p.s, a) && CleanOrWritable(p, faulty, a))
  {
    RoomIff(p, faulty);
    assert EntryOk(p.s, id);
    if id in p.s.table { assert FrameOk(p.s, p.s.table[id]); }
  }

  // ---- Least recently used -----------------------------------------------------------

  /** The last pin of the page is given back between the two states. */
  ghost predicate GivenBack(s: Frames, t: Frames, id: PageId) {
    PinOf(s, id) == 1 && Idle(t, id)
  }

  /** The last of the first k steps that gave back the last pin of the page, or -1. */
  ghost function LastGivenBack(ps: seq<Pool>, k: nat, id: PageId): (i: int)
    requires k < |ps|
    ensures -1 <= i < k
  {
    if k == 0 then -1
    else if GivenBack(ps[k - 1].s, ps[k].s, id) then k - 1
    else LastGivenBack(ps, k - 1, id)
  }

  lemma {:induction false} RunCore(ps: seq<Pool>, ops: seq<ClientOp>, k: nat)
    requires IsRun(ps, ops) && k < |ps|
    ensures Core(ps[k].s, NO_HOLE)
  {
    if k > 0 { assert StepAt(ps, ops, k - 1); }
  }

  /** A page that nobody uses and whose last pin was not given back in the run was so all the time. */
  lemma {:induction false} NeverUsed(ps: seq<Pool>, ops: seq<ClientOp>, i: nat, k: nat, id: PageId)
    requires IsRun(ps, ops) && i <= k < |ps| && Idle(ps[k].s, id) && LastGivenBack(ps, k, id) == -1
    ensures Idle(ps[i].s, id)
  {
    if i < k {
      assert StepAt(ps, ops, k - 1);
      assert BecomesIdle(ps[k - 1].s, ps[k].s, if ops[k - 1].Unpin? then Some(ops[k - 1].id) else None, id);
      NeverUsed(ps, ops, i, k - 1, id);
    }
  }

  /**
   * In every state of every run, the pages that nobody uses are in the order in which their last pins were last given
   * back; those that nobody has used in the run come first, in the order in which the run found them.
   */
  lemma {:induction false} LeastRecentlyUsed(ps: seq<Pool>, ops: seq<ClientOp>, k: nat, a: PageId, b: PageId)
    requires IsRun(ps, ops) && k < |ps| && Idle(ps[k].s, a) && Idle(ps[k].s, b) && a != b
    ensures LastGivenBack(ps, k, a) == LastGivenBack(ps, k, b) ==> LastGivenBack(ps, k, a) == -1
    ensures Earlier(ps[k].s, a, b) <==>
      || LastGivenBack(ps, k, a) < LastGivenBack(ps, k, b)
      || (LastGivenBack(ps, k, a) == LastGivenBack(ps, k, b) && Earlier(ps[0].s, a, b))
  {
    RunCore(ps, ops, k);
    OneIsEarlier(ps[k].s, a, b);
    if k > 0 {
      assert StepAt(ps, ops, k - 1);
      var s, t := ps[k - 1].s, ps[k].s;
      RunCore(ps, ops, k - 1);
      var given := if ops[k - 1].Unpin? then Some(ops[k - 1].id) else None;
      assert BecomesIdle(s, t, given, a) && BecomesIdle(s, t, given, b);
      assert OrderKept(s, t, a, b) && OrderKept(s, t, b, a);
      if Idle(s, a) && Idle(s, b) {
        LeastRecentlyUsed(ps, ops, k - 1, a, b);
        OneIsEarlier(s, a, b);
      }
    }
  }

  /**
   * A page that leaves the cache when another one is fetched is one that nobody uses, there is no free frame, and
   * every other page that nobody uses was given back later, or like it never in the run.
   */
  lemma EvictsLeastRecentlyUsed(ps: seq<Pool>, ops: seq<ClientOp>, k: nat, a: PageId, b: PageId)
    requires IsRun(ps, ops) && k < |ops| && ops[k].Fetch? && a in ps[k].s.table && a !in ps[k + 1].s.table
    ensures Idle(ps[k].s, a) && ps[k].s.free == []
    ensures Idle(ps[k].s, b) && a != b ==>
      LastGivenBack(ps, k, a) < LastGivenBack(ps, k, b) || LastGivenBack(ps, k, a) == -1 == LastGivenBack(ps, k, b)
  {
    assert StepAt(ps, ops, k);
    if Idle(ps[k].s, b) && a != b { LeastRecentlyUsed(ps, ops, k, a, b); }
  }

  /** Without the last promise the gates are passed: whatever pinned clean page a client changes and flushes before
      reporting it dirty, the disk gets its LSN whether the log is durable up to there or not. */
  method FlushBeforeReporting(pool: BufferPool, id: PageId, page: Page)
    requires pool.Valid() && id in pool.table && PinOf(pool.S(), id) > 0 && !DirtyOf(pool.S(), id)
    requires id in pool.pm.live && id !in pool.pm.faulty && LogAhead(pool.durable, pool.pm.pages)
    modifies pool, pool.pm`pages
    ensures pool.Valid() && id in pool.pm.pages && pool.pm.pages[id] == page
    ensures LogAhead(pool.durable, pool.pm.pages) <==> LsnDurable(pool.durable, page.lsn)
  {
    pool.ModifyPage(id, page);
    var w := pool.FlushPage(id);
  }

  /**
   * Once a page is stranded, it stays so in every run: its frame is never given up, it can be neither fetched nor
   * deleted, and a flush of all pages never succeeds again.
   */
  lemma {:induction false} StrandedForever(ps: seq<Pool>, ops: seq<ClientOp>, i: nat, k: nat, id: PageId,
      faulty: set<PageId>)
    requires IsRun(ps, ops) && i <= k < |ps| && Stranded(ps[i], id)
    ensures Stranded(ps[k], id) && id in ps[k].s.table && !CanFetch(ps[k].s, ps[k].durable, ps[k].live, faulty, id)
    ensures !CanDrop(ps[k].s, ps[k].durable, ps[k].live, faulty, id)
      && !AllWritable(ps[k].s, ps[k].durable, ps[k].live, faulty)
  {
    StrandedStill(ps, ops, i, k, id);
    assert k > 0 ==> StepAt(ps, ops, k - 1);
    StrandedBlocks(ps[k], id, faulty);
  }

  lemma {:induction false} StrandedStill(ps: seq<Pool>, ops: seq<ClientOp>, i: nat, k: nat, id: PageId)
    requires IsRun(ps, ops) && i <= k < |ps| && Stranded(ps[i], id)
    ensures Stranded(ps[k], id)
  {
    if i < k {
      StrandedStill(ps, ops, i, k - 1, id);
      assert StepAt(ps, ops, k - 1);
    }
  }

  /**
   * That is what becomes of the page of a transaction's first change, if the transaction had allocated it itself and
   * is rolled back.
   */
  method RollbackStrands(tx: T.Transaction) returns (ok: bool)
    requires tx.Valid() && 0 < tx.open && tx.mutations[0].page in tx.granted && tx.mutations[0].page < tx.pool.pm.count
    modifies tx`resolved, tx`open, tx.pool`frames, tx.pool`table, tx.pool`free, tx.pool`lru, tx.pool`touched
    modifies tx.pool.pm`pages, tx.pool.pm`live, tx.pool.pm`liveCount
    ensures tx.Valid() && (ok ==> Stranded(Snapshot(tx.pool), tx.mutations[0].page))
    ensures
          tx.watched == [] && T.AllHandy(old(tx.pool.S()), old(tx.pool.pm.live), tx.mutations, old(tx.open))
          && T.Alone(old(tx.pool.S()), old(tx.Own())) ==>
        ok
  {
    ok := tx.RollbackForAbort();
  }

  // ---- The pool's own consistency check ----------------------------------------------

  ghost function MappedBelow(s: Frames, n: nat): set<PageId> {
    set id | id in s.table && s.table[id] < n
  }

  ghost function FreeBelow(s: Frames, n: nat): set<FrameId> {
    set f | f in s.free && f < n
  }

  lemma OccupiedCounts(s: Frames, f: FrameId)
    requires Core(s, NO_HOLE) && f < |s.frames| && s.frames[f].occupied
    ensures |MappedBelow(s, f + 1)| == |MappedBelow(s, f)| + 1 && |FreeBelow(s, f + 1)| == |FreeBelow(s, f)|
  {
    assert FrameOk(s, f);
    assert f !in s.free;
    forall id | id in s.table && s.table[id] == f ensures id == s.frames[f].id { assert EntryOk(s, id); }
    assert MappedBelow(s, f + 1) == MappedBelow(s, f) + {s.frames[f].id};
    assert FreeBelow(s, f + 1) == FreeBelow(s, f);
  }

  lemma FreeCounts(s: Frames, f: FrameId)
    requires Core(s, NO_HOLE) && f < |s.frames| && !s.frames[f].occupied
    ensures |MappedBelow(s, f + 1)| == |MappedBelow(s, f)| && |FreeBelow(s, f + 1)| == |FreeBelow(s, f)| + 1
  {
    assert f in s.free;
    forall id | id in s.table ensures s.table[id] != f { assert EntryOk(s, id); }
    assert MappedBelow(s, f + 1) == MappedBelow(s, f);
    assert FreeBelow(s, f + 1) == FreeBelow(s, f) + {f};
  }

  /** Every frame is mapped or free, and none is both. */
  lemma {:induction false} FramesCounted(s: Frames, n: nat)
    requires Core(s, NO_HOLE) && n <= |s.frames|
    ensures |MappedBelow(s, n)| + |FreeBelow(s, n)| == n
  {
    if n == 0 {
      assert MappedBelow(s, 0) == {} && FreeBelow(s, 0) == {};
    } else {
      FramesCounted(s, n - 1);
      if s.frames[n - 1].occupied {
        OccupiedCounts(s, n - 1);
      } else {
        FreeCounts(s, n - 1);
      }
    }
  }

  ghost function Elements(q: seq<FrameId>): set<FrameId> {
    set f | f in q
  }

  lemma {:induction false} DistinctCount(q: seq<FrameId>)
    requires Distinct(q)
    ensures |Elements(q)| == |q|
  {
    if q == [] {
      assert Elements(q) == {};
    } else {
      var p, last := q[..|q| - 1], q[|q| - 1];
      DistinctCount(p);
      forall f | f in p ensures f != last { var i :| 0 <= i < |p| && p[i] == f; }
      assert q == p + [last];
      assert Elements(q) == Elements(p) + {last};
    }
  }

  /** The page table and the free list together account for every frame. */
  lemma SizesAddUp(s: Frames)
    requires Core(s, NO_HOLE)
    ensures |s.table| + |s.free| == |s.frames|
  {
    FramesCounted(s, |s.frames|);
    DistinctCount(s.free);
    forall id | id in s.table ensures s.table[id] < |s.frames| { assert EntryOk(s, id); }
    assert MappedBelow(s, |s.frames|) == s.table.Keys;
    assert FreeBelow(s, |s.frames|) == Elements(s.free);
  }

  /** The runtime check of the pool, which looks at sizes, mappings, free frames and LRU members. */
  method ValidateInvariants(pool: BufferPool) returns (ok: bool)
    requires pool.Valid()
    ensures ok
  {
    SizesAddUp(pool.S());
    if |pool.table| + |pool.free| != |pool.frames| {
      return false;
    }
    var ids := pool.table.Keys;
    while ids != {}
      invariant ids <= pool.table.Keys
    {
      var id :| id in ids;
      assert EntryOk(pool.S(), id);
      var f := pool.table[id];
      if f >= |pool.frames| || !pool.frames[f].occupied || pool.frames[f].id != id
         || (pool.frames[f].pin == 0) != (f in pool.lru) {
        return false;
      }
      ids := ids - {id};
    }
    for i := 0 to |pool.free| {
      var f := pool.free[i];
      assert f in pool.free;
      if f >= |pool.frames| || pool.frames[f].occupied || f in pool.lru {
        return false;
      }
    }
    for i := 0 to |pool.lru| {
      var f := pool.lru[i];
      assert f in pool.lru;
      if f >= |pool.frames| || !pool.frames[f].occupied || pool.frames[f].pin != 0 {
        return false;
      }
    }
    return true;
  }
}
