/** A transaction's captured page changes, over the buffer pool and optionally a log. */
module Transactions {
  import opened StorageTypes
  import opened FrameTable
  import opened PageManagers
  import opened BufferPools
  import opened WalCodec
  import opened LogManagers
  import opened Rollbacks

  /** A page whose change is being captured. */
  datatype Watched = Watched(page: PageId, before: Bytes, lsn: nat)

  /** How many of the mutations lo .. hi - 1 are to page p. */
  function Count(ms: seq<PhysicalMutation>, p: PageId, lo: nat, hi: nat): (c: nat)
    ensures hi <= lo ==> c == 0
  {
    if hi <= lo || hi > |ms| then 0 else Count(ms, p, lo, hi - 1) + (if ms[hi - 1].page == p then 1 else 0)
  }

  lemma {:induction false} CountLow(ms: seq<PhysicalMutation>, p: PageId, lo: nat, hi: nat)
    requires lo < hi <= |ms|
    ensures Count(ms, p, lo, hi) == Count(ms, p, lo + 1, hi) + (if ms[lo].page == p then 1 else 0)
  {
    if lo + 1 < hi { CountLow(ms, p, lo, hi - 1); }
  }

  lemma {:induction false} CountPrefix(ms: seq<PhysicalMutation>, m: PhysicalMutation, p: PageId, lo: nat, hi: nat)
    requires hi <= |ms|
    ensures Count(ms + [m], p, lo, hi) == Count(ms, p, lo, hi)
  {
    if lo < hi { CountPrefix(ms, m, p, lo, hi - 1); }
  }

  /** A transaction's mutations; those from `logged` up to `open` have no LSN yet and are not undone. */
  datatype Ledger = Ledger(mutations: seq<PhysicalMutation>, logged: nat, open: nat)

  /** How often the transaction itself has closed the gate of p. */
  function OwnGates(l: Ledger, p: PageId): nat {
    Count(l.mutations, p, l.logged, l.open)
  }

  /** Every gate is closed at least as often as the transaction has closed it. */
  ghost predicate Gated(s: Frames, l: Ledger) {
    forall p: PageId {:trigger PendingOf(s, p)} :: PendingOf(s, p) >= OwnGates(l, p)
  }

  /** Others have every gate closed as often as before. */
  ghost predicate SameForeign(s: Frames, l: Ledger, t: Frames, m: Ledger) {
    forall p: PageId {:trigger PendingOf(t, p)} :: PendingOf(t, p) - OwnGates(m, p) == PendingOf(s, p) - OwnGates(l, p)
  }

  lemma StillGated(s: Frames, l: Ledger, t: Frames, m: Ledger)
    requires Gated(s, l) && SameForeign(s, l, t, m)
    ensures Gated(t, m)
  {
  }

  /** Nobody else has unlogged changes on the pages of logged, open mutations. */
  ghost predicate Alone(s: Frames, l: Ledger) {
    forall i :: 0 <= i < l.open && i < l.logged && i < |l.mutations| ==>
      PendingOf(s, l.mutations[i].page) == OwnGates(l, l.mutations[i].page)
  }

  lemma StillAlone(s: Frames, l: Ledger, t: Frames, m: Ledger)
    requires Alone(s, l) && SameForeign(s, l, t, m) && m.mutations == l.mutations && m.logged == l.logged
      && m.open <= l.open
    ensures Alone(t, m)
  {
  }

  /** One more unlogged mutation of a page closes its gate once more. */
  lemma GatedCapture(s: Frames, t: Frames, l: Ledger, m: PhysicalMutation)
    requires l.logged <= l.open == |l.mutations| && OtherGates(s, t, m.page)
      && PendingOf(t, m.page) == PendingOf(s, m.page) + 1
    ensures SameForeign(s, l, t, Ledger(l.mutations + [m], l.logged, l.open + 1))
  {
    forall p: PageId { CountPrefix(l.mutations, m, p, l.logged, l.open); }
  }

  /** A logged mutation closes no gate. */
  lemma GatedLogged(s: Frames, t: Frames, l: Ledger, m: PhysicalMutation)
    requires l.logged == l.open && SameGates(s, t)
    ensures SameForeign(s, l, t, Ledger(l.mutations + [m], l.logged + 1, l.open + 1))
  {
  }

  /** Giving the oldest unlogged mutation its LSN opens its gate once. */
  lemma GatedFinalize(s: Frames, t: Frames, l: Ledger)
    requires l.logged < l.open <= |l.mutations| && OtherGates(s, t, l.mutations[l.logged].page)
    requires PendingOf(t, l.mutations[l.logged].page) == PendingOf(s, l.mutations[l.logged].page) - 1
    ensures SameForeign(s, l, t, l.(logged := l.logged + 1))
  {
    forall p: PageId { CountLow(l.mutations, p, l.logged, l.open); }
  }

  /** Undoing the newest unlogged mutation opens its gate once. */
  lemma GatedUndo(s: Frames, t: Frames, l: Ledger)
    requires l.logged < l.open <= |l.mutations| && OtherGates(s, t, l.mutations[l.open - 1].page)
    requires PendingOf(t, l.mutations[l.open - 1].page) == PendingOf(s, l.mutations[l.open - 1].page) - 1
    ensures SameForeign(s, l, t, l.(open := l.open - 1))
  {
  }

  /** Undoing a logged mutation opens no gate. */
  lemma GatedLower(s: Frames, t: Frames, l: Ledger)
    requires 0 < l.open <= l.logged && SameGates(s, t)
    ensures SameForeign(s, l, t, l.(open := l.open - 1))
  {
  }

  /** Reads a page's image and LSN; None stands for an exception. */
  method ReadImage(pool: BufferPool, page: PageId) returns (r: Option<Page>)
    requires pool.Valid()
    modifies pool`frames, pool`table, pool`free, pool`lru, pool`touched, pool.pm`pages
    ensures pool.Valid() && pool.View() == old(pool.View()) && SameGates(old(pool.S()), pool.S())
    ensures r.Some? <==> CanFetch(old(pool.S()), pool.durable, pool.pm.live, pool.pm.faulty, page)
    ensures r.Some? ==> page in pool.View() && r.value == pool.View()[page]
    ensures r.Some? && page in old(pool.table) ==>
      page in pool.table && PinOf(pool.S(), page) == PinOf(old(pool.S()), page)
    ensures Flowed(old(pool.View()), pool.durable, old(pool.pm.pages), pool.pm.pages)
  {
    var f := pool.FetchPage(page);
    DiskStepFlows(old(pool.S()), pool.durable, old(pool.pm.pages), pool.pm.pages);
    if !f.Pinned? { return None; }
    r := Some(pool.frames[f.frame].page);
    var ok := pool.UnpinPage(page, false);
  }

  /** The page is cached, allocated and can be pinned once more. */
  ghost predicate Handy(s: Frames, live: set<PageId>, p: PageId) {
    p in s.table && p in live && PinOf(s, p) < MAX_COUNT
  }

  ghost predicate AllHandy(s: Frames, live: set<PageId>, ms: seq<PhysicalMutation>, n: nat)
    requires n <= |ms|
  {
    forall i :: 0 <= i < n ==> Handy(s, live, ms[i].page)
  }

  lemma StillHandy(s: Frames, t: Frames, live: set<PageId>, ms: seq<PhysicalMutation>, n: nat, k: nat)
    requires k <= n <= |ms| && AllHandy(s, live, ms, n) && SamePlaces(s, t)
    ensures AllHandy(t, live, ms, k)
  {
    forall i | 0 <= i < k ensures Handy(t, live, ms[i].page) {
      assert Handy(s, live, ms[i].page) && PinOf(t, ms[i].page) == PinOf(s, ms[i].page);
    }
  }

  /** Pages keep their place and their pins. */
  ghost predicate SamePlaces(s: Frames, t: Frames) {
    t.table == s.table && forall p: PageId {:trigger PinOf(t, p)} :: PinOf(t, p) == PinOf(s, p)
  }

  /** Writes an image into a page that the caller has pinned, and gives the pin back. */
  method PutImage(pool: BufferPool, page: PageId, bytes: Bytes)
    requires pool.Valid() && page in pool.table && PinOf(pool.S(), page) > 0
    modifies pool`frames, pool`lru, pool`touched
    ensures pool.Valid() && SameGates(old(pool.S()), pool.S()) && pool.table == old(pool.table)
    ensures page in old(pool.View()) && pool.View() == old(pool.View())[page := Page(bytes, old(pool.View())[page].lsn)]
    ensures DirtyOf(pool.S(), page) && PinOf(pool.S(), page) == PinOf(old(pool.S()), page) - 1
    ensures OnlyFrame(old(pool.S()), pool.S(), pool.table[page])
  {
    assert EntryOk(pool.S(), page) && FrameSynced(pool.S(), pool.touched, pool.pm.pages, pool.table[page]);
    pool.ModifyPage(page, Page(bytes, pool.frames[pool.table[page]].page.lsn));
    var ok := pool.UnpinPage(page, true);
  }

  /**
   * Writes an image into a page, whose LSN stays; false stands for an exception. It works whenever the page is at
   * hand.
   */
  method ApplyImage(pool: BufferPool, page: PageId, bytes: Bytes) returns (ok: bool)
    requires pool.Valid()
    modifies pool`frames, pool`table, pool`free, pool`lru, pool`touched, pool.pm`pages
    ensures pool.Valid() && SameGates(old(pool.S()), pool.S())
    ensures ok ==>
      page in old(pool.View()) && pool.View() == old(pool.View())[page := Page(bytes, old(pool.View())[page].lsn)]
    ensures ok ==> page in pool.table && DirtyOf(pool.S(), page)
    ensures !ok ==> pool.View() == old(pool.View())
    ensures ok <==> CanFetch(old(pool.S()), pool.durable, pool.pm.live, pool.pm.faulty, page)
    ensures !ok ==> !CanFetch(pool.S(), pool.durable, pool.pm.live, pool.pm.faulty, page)
    ensures Handy(old(pool.S()), pool.pm.live, page) ==> ok && SamePlaces(old(pool.S()), pool.S())
    ensures Flowed(old(pool.View()), pool.durable, old(pool.pm.pages), pool.pm.pages)
  {
    var f := pool.FetchPage(page);
    DiskStepFlows(old(pool.S()), pool.durable, old(pool.pm.pages), pool.pm.pages);
    if !f.Pinned? { return false; }
    PutImage(pool, page, bytes);
    ok := true;
    if Handy(old(pool.S()), pool.pm.live, page) { PlacesBack(old(pool.S()), pool.S(), page); }
  }

  lemma PlacesBack(s: Frames, t: Frames, page: PageId)
    requires Core(s, NO_HOLE) && t.table == s.table && page in s.table && OnlyFrame(s, t, s.table[page])
      && PinOf(t, page) == PinOf(s, page)
    ensures SamePlaces(s, t)
  {
    forall p: PageId ensures PinOf(t, p) == PinOf(s, p) { assert EntryOk(s, p) && EntryOk(s, page); }
  }

  /** The before-image and then the LSN make the page what it was before. */
  lemma BackAgain(v: View, m: PhysicalMutation)
    requires m.page in v
    ensures var w := v[m.page := Page(m.before, v[m.page].lsn)];
      w[m.page := w[m.page].(lsn := m.previousLsn)] == v[m.page := Before(m)]
  {
  }

  lemma UndoneNext(v: View, ms: seq<PhysicalMutation>, n: nat, i: nat)
    requires i < n <= |ms|
    ensures Undone(v, ms[..n], i) == Undone(v, ms[..n], i + 1)[ms[i].page := Before(ms[i])]
  {
    assert ms[..n][i] == ms[i];
  }

  /** The before-image of the mutation is back, but not its LSN. */
  ghost predicate HalfUndone(view: View, was: View, m: PhysicalMutation) {
    m.page in was && view == was[m.page := Page(m.before, was[m.page].lsn)]
  }

  /** Everything from k on is undone; at most, the before-image of the mutation before it is back without its LSN. */
  ghost predicate Stopped(view: View, v: View, ms: seq<PhysicalMutation>, n: nat, k: nat) {
    && k <= n <= |ms|
    && (view == Undone(v, ms[..n], k) || (k > 0 && HalfUndone(view, Undone(v, ms[..n], k), ms[k - 1])))
  }

  lemma StopsHere(view: View, was: View, v: View, ms: seq<PhysicalMutation>, n: nat, i: nat)
    requires i < n <= |ms| && was == Undone(v, ms[..n], i + 1) && (view == was || HalfUndone(view, was, ms[i]))
    ensures Stopped(view, v, ms, n, i + 1)
  {
  }

  /** Some way back, the page is x. */
  ghost predicate OnTheWay(v: View, ms: seq<PhysicalMutation>, p: PageId, x: Page) {
    exists k: nat :: k <= |ms| && p in Undone(v, ms, k) && x == Undone(v, ms, k)[p]
  }

  /** Disk pages change only to what a rollback shows of them on its way, and only as far as the log is durable. */
  ghost predicate FlowedBack(v: View, ms: seq<PhysicalMutation>, durable: Option<nat>, before: View, after: View) {
    && after.Keys == before.Keys
    && forall p :: p in after ==>
         after[p] == before[p] || (OnTheWay(v, ms, p, after[p]) && LsnDurable(durable, after[p].lsn))
  }

  lemma FlowsOn(v: View, ms: seq<PhysicalMutation>, durable: Option<nat>, before: View, disk: View, after: View, k: nat)
    requires k <= |ms| && FlowedBack(v, ms, durable, before, disk) && Flowed(Undone(v, ms, k), durable, disk, after)
    ensures FlowedBack(v, ms, durable, before, after)
  {
  }

  function PageSet(ids: seq<PageId>): set<PageId> {
    set p | p in ids
  }

  lemma OneMorePage(ids: seq<PageId>, i: nat)
    requires i < |ids|
    ensures PageSet(ids[i..]) == PageSet(ids[i + 1..]) + {ids[i]}
  {
    assert ids[i..] == [ids[i]] + ids[i + 1..];
  }

  /** Frees the pages that are still allocated, last one first. */
  method ReleasePages(pm: PageManager, ids: seq<PageId>)
    requires pm.Valid()
    modifies pm`live, pm`liveCount
    ensures pm.Valid() && pm.live == old(pm.live) - PageSet(ids)
  {
    var i := |ids|;
    while i > 0
      invariant 0 <= i <= |ids| && pm.Valid() && pm.live == old(pm.live) - PageSet(ids[i..])
    {
      i := i - 1;
      OneMorePage(ids, i);
      if pm.IsAllocated(ids[i]) {
        var ok := pm.DeallocatePage(ids[i]);
      }
    }
    assert ids[0..] == ids;
  }

  /** The log with a mutation record appended. */
  function Appended(v: LogView, tx: nat, m: PhysicalMutation): LogView {
    v.(records := v.records + [WalRecord(v.next, tx, Mutation, if Loggable(m) then EncodeMutation(m).value else [])],
      next := v.next + 1)
  }

  /** The log with an allocation record appended and, if the flush succeeds, everything durable. */
  function Allocated(v: LogView, tx: nat, page: PageId): LogView {
    LogView(v.records + [WalRecord(v.next, tx, Allocate, if page != INVALID then EncodeAllocate(page).value else [])],
      v.next + 1,
            if v.fault then v.durable else v.next, false)
  }

  /** The store has one more page, zeroed, on disk as in the view. */
  ghost predicate Extended(view: View, pages: View, count: nat, view': View, pages': View, count': nat) {
    count !in view && count' == count + 1 && view' == view[count := NEW_PAGE] && pages' == pages[count := NEW_PAGE]
  }

  datatype Progress =
    Progress(view: View, mutations: seq<PhysicalMutation>, open: nat, watched: seq<Watched>, sequence: nat,
      log: Option<LogView>)

  /**
   * The page got the bytes; if that changed it, the change is recorded, and logged and stamped where there is a log.
   */
  ghost predicate Changed(a: Progress, b: Progress, tx: nat, page: PageId, bytes: Bytes) {
    && page in a.view && b.watched == a.watched && b.open == |b.mutations|
    && var was := a.view[page];
       if bytes == was.data then b == a
       else
         var m := PhysicalMutation(page, a.sequence, was.data, bytes, was.lsn);
         && b.mutations == a.mutations + [m] && b.sequence == a.sequence + 1
         && b.view == a.view[page := Page(bytes, if a.log.None? then was.lsn else a.log.value.next)]
         && b.log == if a.log.None? then None else Some(Appended(a.log.value, tx, m))
  }

  /** Nothing is different but that the page is being watched. */
  ghost predicate Watching(a: Progress, b: Progress, page: PageId) {
    page in a.view && b == a.(watched := [Watched(page, a.view[page].data, a.view[page].lsn)])
  }

  /** The only capture has ended, with the page as it was found or a recorded change. */
  ghost predicate Finished(a: Progress, b: Progress, tx: nat, page: PageId) {
    && |a.watched| == 1 && b.watched == [] && b.open == |b.mutations| && page in a.view
    && var w, after := a.watched[0], a.view[page].data;
       if after == w.before then b == a.(watched := [], open := b.open)
       else
         var m := PhysicalMutation(page, a.sequence, w.before, after, w.lsn);
         && b.mutations == a.mutations + [m] && b.sequence == a.sequence + 1
         && b.view == a.view[page := Page(after, if a.log.None? then a.view[page].lsn else a.log.value.next)]
         && b.log == if a.log.None? then None else Some(Appended(a.log.value, tx, m))
  }

  lemma WrittenIsChanged(a: Progress, b: Progress, c: Progress, tx: nat, page: PageId, bytes: Bytes)
    requires page in a.view && a.open == |a.mutations| && a.watched == [] && Finished(b, c, tx, page)
    requires Watching(a, b.(view := a.view), page) && b.view == a.view[page := Page(bytes, a.view[page].lsn)]
    ensures Changed(a, c, tx, page, bytes)
  {
    if bytes == a.view[page].data { assert b.view == a.view; }
  }

  /** It is a capture in the sense of rollback, or nothing. */
  lemma ChangeCaptures(a: Progress, b: Progress, tx: nat, page: PageId, bytes: Bytes)
    requires Changed(a, b, tx, page, bytes)
    ensures if bytes == a.view[page].data then Work(b.view, b.mutations) == Work(a.view, a.mutations)
            else Captures(Work(a.view, a.mutations), Work(b.view, b.mutations), page)
  {
  }

  class Transaction {
    const id: nat
    const pool: BufferPool
    /** Null for a transaction that does not log. */
    const log: LogManager?
    var watched: seq<Watched>
    var sequence: nat
    var mutations: seq<PhysicalMutation>
    var resolved: seq<bool>
    var finalized: nat
    var granted: seq<PageId>

    /** Mutations from `open` on have been undone. */
    ghost var open: nat

    ghost predicate Valid()
      reads this, pool, pool.pm, log
    {
      pool.Valid() && (log != null ==> log.Valid()) && Tallied() && Gated(pool.S(), Own())
    }

    /** The transaction's own books: what is logged, and what has been undone. */
    ghost predicate Tallied()
      reads this
    {
      && (log != null ==> finalized == |mutations|)
      && |resolved| == |mutations| && finalized <= |mutations| && open <= |mutations|
      && (forall i :: 0 <= i < |resolved| ==> (resolved[i] <==> open <= i))
    }

    ghost function Own(): Ledger
      reads this
    {
      Ledger(mutations, finalized, open)
    }

    /** The transaction's part of the state, and what it shows of the store and the log. */
    ghost function Look(): Progress
      reads this, pool, pool.pm, log
    {
      Progress(pool.View(), mutations, open, watched, sequence, if log == null then None else Some(log.View()))
    }

    constructor (id: nat, pool: BufferPool, log: LogManager?)
      requires pool.Valid() && (log != null ==> log.Valid())
      ensures this.id == id && this.pool == pool && this.log == log && Valid()
      ensures mutations == [] && watched == [] && granted == [] && sequence == 0
    {
      this.id, this.pool, this.log := id, pool, log;
      watched, sequence, mutations, resolved, finalized, granted, open := [], 0, [], [], 0, [], 0;
    }

    /** Remembers a page's image and LSN before it is changed; false stands for an exception. */
    method Watch(page: PageId) returns (ok: bool)
      requires Valid()
      modifies this`watched, pool`frames, pool`table, pool`free, pool`lru, pool`touched,
        pool.pm`pages
      ensures Valid() && pool.View() == old(pool.View())
      ensures ok <==> CanFetch(old(pool.S()), pool.durable, pool.pm.live, pool.pm.faulty, page)
      ensures ok ==>
        page in pool.View() && watched == old(watched) + [Watched(page, pool.View()[page].data, pool.View()[page].lsn)]
      ensures !ok ==> watched == old(watched)
      ensures ok && page in old(pool.table) ==>
        page in pool.table && PinOf(pool.S(), page) == PinOf(old(pool.S()), page)
      ensures SameGates(old(pool.S()), pool.S())
        && Flowed(old(pool.View()), pool.durable, old(pool.pm.pages), pool.pm.pages)
    {
      if page == INVALID { return false; }
      var image := ReadImage(pool, page);
      ok := image.Some?;
      if ok { watched := watched + [Watched(page, image.value.data, image.value.lsn)]; }
    }

    /** The position of the page's capture, or |watched|. */
    function WatchedAt(page: PageId, from: nat): (k: nat)
      requires from <= |watched|
      reads this
      ensures from <= k <= |watched| && (k < |watched| ==> watched[k].page == page) && forall j :: from <= j < k ==>
        watched[j].page != page
      decreases |watched| - from
    {
      if from == |watched| || watched[from].page == page then from else WatchedAt(page, from + 1)
    }

    /** The caller has the page pinned, and its gate can be closed once more if it has to be. */
    ghost predicate AtHand(page: PageId)
      reads pool
    {
      page in pool.table && PinOf(pool.S(), page) > 0 && (log == null ==> PendingOf(pool.S(), page) < MAX_COUNT)
    }

    /** A change that may be captured now. */
    ghost predicate Capturable(m: PhysicalMutation)
      reads this, pool, pool.pm, log
    {
      && Valid() && open == |mutations| && AtHand(m.page) && Loggable(m) && m.page < U64 && m.sequence < U64 && id < U64
      && m.after == PageOf(pool.S(), m.page).data
    }

    /** Logs a change and stamps the page with the record's LSN. */
    method LogMutation(m: PhysicalMutation)
      requires Capturable(m) && log != null && log.nextLsn + 1 < U64
      modifies this`mutations, this`resolved, this`finalized, this`open, pool`frames, pool`touched, log
      ensures Valid() && open == |mutations| && mutations == old(mutations) + [m] && m.page in old(pool.View())
      ensures log.View() == Appended(old(log.View()), id, m)
      ensures pool.View() == old(pool.View())[m.page := Page(m.after, old(log.nextLsn))]
        && SameGates(old(pool.S()), pool.S())
    {
      ghost var s, l := pool.S(), Own();
      assert EntryOk(s, m.page) && FrameSynced(s, pool.touched, pool.pm.pages, pool.table[m.page]);
      var lsn := log.Append(Mutation, id, EncodeMutation(m).value);
      pool.ModifyPage(m.page, Page(m.after, lsn.value));
      GatedLogged(s, pool.S(), l, m);
      mutations, resolved, finalized, open := mutations + [m], resolved + [false], finalized + 1, open + 1;
    }

    /** Keeps a change for later logging and closes the page's gate until then. */
    method GateMutation(m: PhysicalMutation)
      requires Capturable(m) && log == null
      modifies this`mutations, this`resolved, this`open, pool`frames, pool`touched
      ensures Valid() && open == |mutations| && mutations == old(mutations) + [m]
      ensures pool.View() == old(pool.View()) && SameForeign(old(pool.S()), old(Own()), pool.S(), Own())
    {
      ghost var s, l := pool.S(), Own();
      var e := pool.MarkMutationPending(m.page);
      GatedCapture(s, pool.S(), l, m);
      mutations, resolved, open := mutations + [m], resolved + [false], open + 1;
    }

    /** A capture is unfinished or a change has not been undone. */
    method HasUnresolved() returns (b: bool)
      requires Valid()
      ensures b <==> watched != [] || open > 0
    {
      if watched != [] { return true; }
      assert open > 0 ==> !resolved[open - 1];
      for i := 0 to |mutations|
        invariant forall j :: 0 <= j < i ==> resolved[j]
      {
        if !resolved[i] { return true; }
      }
      b := false;
    }

    /** Records a change: logged at once, or gated until it is. */
    method FinalizeMutation(m: PhysicalMutation)
      requires Capturable(m) && (log != null ==> log.nextLsn + 1 < U64)
      modifies this`mutations, this`resolved, this`finalized, this`open, pool`frames, pool`touched, log
      ensures Valid() && open == |mutations| && mutations == old(mutations) + [m] && m.page in old(pool.View())
      ensures SameForeign(old(pool.S()), old(Own()), pool.S(), Own())
        && (log != null ==> log.View() == Appended(old(log.View()), id, m))
      ensures pool.View() ==
        old(pool.View())[m.page :=
        Page(m.after, if log == null then old(pool.View())[m.page].lsn else old(log.nextLsn))]
    {
      ghost var v := pool.View();
      assert EntryOk(pool.S(), m.page) && FrameSynced(pool.S(), pool.touched, pool.pm.pages, pool.table[m.page]);
      if log != null {
        LogMutation(m);
      } else {
        GateMutation(m);
        assert v[m.page := v[m.page]] == v;
      }
    }

    /** Ends the capture of a page that the caller has pinned; false stands for an exception. */
    method Finish(page: PageId) returns (ok: bool)
      requires Valid() && open == |mutations| && AtHand(page) && page < INVALID && sequence < U64 && id < U64
      requires |PageOf(pool.S(), page).data| == PAYLOAD_SIZE && forall w :: w in watched ==> |w.before| == PAYLOAD_SIZE
      requires log != null ==> log.nextLsn + 1 < U64
      modifies this`watched, this`sequence, this`mutations, this`resolved, this`finalized, this`open, pool`frames,
        pool`touched, log
      ensures Valid() && open == |mutations| && page in old(pool.View())
      ensures SameForeign(old(pool.S()), old(Own()), pool.S(), Own())
      ensures ok <==> old(WatchedAt(page, 0)) < |old(watched)|
      ensures !ok ==>
        watched == old(watched) && mutations == old(mutations) && pool.View() == old(pool.View())
        && (log != null ==> log.View() == old(log.View()))
      ensures ok ==> var k := old(WatchedAt(page, 0)); var w, after := old(watched)[k], old(pool.View())[page].data;
        && watched == old(watched)[..k] + old(watched)[k + 1..]
        && (after == w.before ==>
        mutations == old(mutations) && sequence == old(sequence) && pool.View() == old(pool.View()))
        && (log != null ==> log.View() == if after == w.before then old(log.View())
                                          else Appended(old(log.View()), id,
                                            PhysicalMutation(page, old(sequence), w.before, after, w.lsn)))
        && (after != w.before ==>
              && mutations == old(mutations) + [PhysicalMutation(page, old(sequence), w.before, after, w.lsn)]
              && sequence == old(sequence) + 1
              && pool.View() ==
              old(pool.View())[page :=
              Page(after, if log == null then old(pool.View())[page].lsn else old(log.nextLsn))])
    {
      assert EntryOk(pool.S(), page) && FrameSynced(pool.S(), pool.touched, pool.pm.pages, pool.table[page]);
      var k := WatchedAt(page, 0);
      if k == |watched| { return false; }
      var w := watched[k];
      CaptureChange(w);
      watched := watched[..k] + watched[k + 1..];
      ok := true;
    }

    /** Pins a page and starts the capture of its change; false stands for an exception. */
    method FetchAndWatch(page: PageId) returns (ok: bool)
      requires Valid() && watched == []
      modifies this`watched, pool`frames, pool`table, pool`free, pool`lru, pool`touched,
        pool.pm`pages
      ensures Valid() && Flowed(old(pool.View()), pool.durable, old(pool.pm.pages), pool.pm.pages)
      ensures ok <==>
        CanFetch(old(pool.S()), pool.durable, pool.pm.live, pool.pm.faulty, page)
        && PinOf(old(pool.S()), page) + 1 != MAX_COUNT
      ensures ok && (log == null ==> PendingOf(old(pool.S()), page) < MAX_COUNT) ==> AtHand(page)
      ensures if ok then Watching(old(Look()), Look(), page) else Look() == old(Look())
    {
      ghost var v, disk := pool.View(), pool.pm.pages;
      ok := Take(page);
      if !ok { return; }
      ghost var taken := pool.pm.pages;
      ok := WatchTaken(page);
      FlowsAgain(v, pool.durable, disk, taken, pool.pm.pages);
    }

    /** Starts the capture of a page that is in the cache. */
    method WatchTaken(page: PageId) returns (ok: bool)
      requires Valid() && watched == [] && page in pool.table && page in pool.pm.live && page != INVALID
      modifies this`watched, pool`frames, pool`table, pool`free, pool`lru, pool`touched,
        pool.pm`pages
      ensures Valid() && Flowed(old(pool.View()), pool.durable, old(pool.pm.pages), pool.pm.pages)
        && SameGates(old(pool.S()), pool.S())
      ensures ok <==> PinOf(old(pool.S()), page) != MAX_COUNT
      ensures ok ==> page in pool.table && PinOf(pool.S(), page) == PinOf(old(pool.S()), page)
      ensures if ok then Watching(old(Look()), Look(), page) else Look() == old(Look())
    {
      ok := Watch(page);
    }

    /** Changes a page that is watched and pinned, ends the capture and gives the pin back. */
    method WriteWatched(page: PageId, bytes: Bytes, ghost a: Progress)
      requires Valid() && open == |mutations| && AtHand(page) && page < INVALID && sequence < U64 && id < U64
      requires |bytes| == PAYLOAD_SIZE && a.watched == [] && Watching(a, Look(), page)
        && |pool.View()[page].data| == PAYLOAD_SIZE
      requires log != null ==> log.nextLsn + 1 < U64
      modifies this`watched, this`sequence, this`mutations, this`resolved, this`finalized, this`open, log
      modifies pool`frames, pool`lru, pool`touched
      ensures Valid() && Changed(a, Look(), id, page, bytes) && pool.pm.pages == old(pool.pm.pages)
    {
      Scribble(page, bytes);
      ghost var b := Look();
      FinishOnly(page);
      WrittenIsChanged(a, b, Look(), id, page, bytes);
      Release(page);
    }

    /** Ends the only capture. */
    method FinishOnly(page: PageId)
      requires Valid() && open == |mutations| && |watched| == 1 && watched[0].page == page
        && |watched[0].before| == PAYLOAD_SIZE
      requires AtHand(page) && page < INVALID && sequence < U64 && id < U64
        && |PageOf(pool.S(), page).data| == PAYLOAD_SIZE
      requires log != null ==> log.nextLsn + 1 < U64
      modifies this`watched, this`sequence, this`mutations, this`resolved, this`finalized, this`open, pool`frames,
        pool`touched, log
      ensures Valid() && Finished(old(Look()), Look(), id, page)
    {
      var k := WatchedAt(page, 0);
      var ok := Finish(page);
    }

    /** Writes to a pinned page, which the transaction does not notice. */
    method Scribble(page: PageId, bytes: Bytes)
      requires Valid() && AtHand(page)
      modifies pool`frames, pool`touched
      ensures Valid() && AtHand(page) && page in old(pool.View())
      ensures pool.View() == old(pool.View())[page := Page(bytes, old(pool.View())[page].lsn)]
        && PageOf(pool.S(), page).data == bytes
    {
      ghost var s := pool.S();
      assert EntryOk(s, page) && FrameSynced(s, pool.touched, pool.pm.pages, pool.table[page]);
      pool.ModifyPage(page, Page(bytes, pool.frames[pool.table[page]].page.lsn));
      StillGated(s, Own(), pool.S(), Own());
    }

    /** Gives a pin back and reports the page changed. */
    method Release(page: PageId)
      requires Valid()
      modifies pool`frames, pool`lru, pool`touched
      ensures Valid() && pool.View() == old(pool.View())
    {
      ghost var s := pool.S();
      var ok := pool.UnpinPage(page, true);
      StillGated(s, Own(), pool.S(), Own());
    }

    /** Takes a pin, if the page can be had. */
    method Take(page: PageId) returns (ok: bool)
      requires Valid()
      modifies pool`frames, pool`table, pool`free, pool`lru, pool`touched, pool.pm`pages
      ensures Valid() && pool.View() == old(pool.View()) && SameGates(old(pool.S()), pool.S()) && Look() == old(Look())
      ensures ok <==> CanFetch(old(pool.S()), pool.durable, pool.pm.live, pool.pm.faulty, page)
      ensures ok ==> page in pool.table && PinOf(pool.S(), page) == PinOf(old(pool.S()), page) + 1
      ensures Flowed(old(pool.View()), pool.durable, old(pool.pm.pages), pool.pm.pages)
    {
      ghost var s := pool.S();
      var f := pool.FetchPage(page);
      DiskStepFlows(s, pool.durable, old(pool.pm.pages), pool.pm.pages);
      StillGated(s, Own(), pool.S(), Own());
      ok := f.Pinned?;
    }

    /**
     * One captured change, as the tree and the heap make it: pin, watch, write, finish, unpin. False stands for an
     * exception, before anything was written.
     */
    method ChangePage(page: PageId, bytes: Bytes) returns (ok: bool)
      requires Valid() && open == |mutations| && watched == [] && page < INVALID && sequence < U64 && id < U64
      requires |bytes| == PAYLOAD_SIZE && (log == null ==> PendingOf(pool.S(), page) < MAX_COUNT)
      requires (page in pool.View() ==> |pool.View()[page].data| == PAYLOAD_SIZE)
        && (log != null ==> log.nextLsn + 1 < U64)
      modifies this`watched, this`sequence, this`mutations, this`resolved, this`finalized, this`open, log
      modifies pool`frames, pool`table, pool`free, pool`lru, pool`touched, pool.pm`pages
      ensures Valid() && Flowed(old(pool.View()), pool.durable, old(pool.pm.pages), pool.pm.pages)
      ensures ok <==>
        CanFetch(old(pool.S()), pool.durable, pool.pm.live, pool.pm.faulty, page)
        && PinOf(old(pool.S()), page) + 1 != MAX_COUNT
      ensures ok ==> Changed(old(Look()), Look(), id, page, bytes)
      ensures !ok ==> Look() == old(Look())
    {
      ghost var a := Look();
      ok := FetchAndWatch(page);
      if ok { WriteWatched(page, bytes, a); }
    }

    /** Records what changed on the page since it was watched, if anything did. */
    method CaptureChange(w: Watched)
      requires Valid() && open == |mutations| && AtHand(w.page) && w.page < INVALID && sequence < U64 && id < U64
      requires |PageOf(pool.S(), w.page).data| == PAYLOAD_SIZE && |w.before| == PAYLOAD_SIZE && w.page in pool.View()
      requires log != null ==> log.nextLsn + 1 < U64
      modifies this`sequence, this`mutations, this`resolved, this`finalized, this`open, pool`frames, pool`touched, log
      ensures Valid() && open == |mutations| && SameForeign(old(pool.S()), old(Own()), pool.S(), Own())
      ensures var after := old(pool.View())[w.page].data;
        && (after == w.before ==>
        mutations == old(mutations) && sequence == old(sequence) && pool.View() == old(pool.View()))
        && (after == w.before && log != null ==> log.View() == old(log.View()))
        && (after != w.before && log != null ==>
              log.View() == Appended(old(log.View()), id,
                PhysicalMutation(w.page, old(sequence), w.before, after, w.lsn)))
        && (after != w.before ==>
              && mutations == old(mutations) + [PhysicalMutation(w.page, old(sequence), w.before, after, w.lsn)]
              && sequence == old(sequence) + 1
              && pool.View() ==
              old(pool.View())[w.page :=
              Page(after, if log == null then old(pool.View())[w.page].lsn else old(log.nextLsn))])
    {
      assert EntryOk(pool.S(), w.page);
      var after := pool.frames[pool.table[w.page]].page.data;
      if after != w.before {
        var m := PhysicalMutation(w.page, sequence, w.before, after, w.lsn);
        sequence := sequence + 1;
        FinalizeMutation(m);
      }
    }

    /** Gives the oldest unlogged change its LSN; false stands for an exception. */
    method FinalizeNext(lsn: nat) returns (ok: bool)
      requires Valid() && log == null && open == |mutations|
      modifies this`finalized, pool`frames, pool`touched
      ensures Valid() && (ok <==> old(finalized) < |mutations| && lsn != 0)
      ensures finalized == if ok then old(finalized) + 1 else old(finalized)
      ensures ok ==>
        var p := mutations[old(finalized)].page;
        p in old(pool.View()) && pool.View() == old(pool.View())[p := old(pool.View())[p].(lsn := lsn)]
      ensures !ok ==> pool.View() == old(pool.View())
      ensures SameForeign(old(pool.S()), old(Own()), pool.S(), Own())
      ensures ok ==>
        Finalizes(Work(old(pool.View()), mutations), Work(pool.View(), mutations), mutations[old(finalized)].page)
    {
      if finalized == |mutations| { return false; }
      ghost var s, l := pool.S(), Own();
      var p := mutations[finalized].page;
      CountLow(mutations, p, finalized, open);
      assert PendingOf(s, p) > 0;
      var e := pool.ReleasePending(p, lsn, false);
      ok := e.None?;
      if ok {
        GatedFinalize(s, pool.S(), l);
        finalized := finalized + 1;
        StillGated(s, l, pool.S(), Own());
      }
    }

    /**
     * The last open mutation can be resolved: its page is cached and, if it was logged, nobody has unlogged changes
     * there.
     */
    ghost predicate Resolvable(i: nat)
      reads this, pool
    {
      i < |mutations| && open == i + 1 && mutations[i].page in pool.table
        && (i < finalized ==> PendingOf(pool.S(), mutations[i].page) == 0)
    }

    /**
     * Restoring this LSN leaves the cache coherent: a logged change's page is dirty or pinned, or has the LSN
     * already.
     */
    ghost predicate LsnSafe(i: nat, lsn: nat)
      reads this, pool
    {
      i < finalized && i < |mutations| ==>
        var p := mutations[i].page; DirtyOf(pool.S(), p) || PinOf(pool.S(), p) > 0 || PageOf(pool.S(), p).lsn == lsn
    }

    /**
     * Restores the LSN after the before-image of mutation i was put back, and opens its gate if it was never logged.
     * Mutations are resolved last one first; false stands for an exception.
     */
    method ResolveForUndo(i: nat, lsn: nat) returns (ok: bool)
      requires Valid()
      modifies this`resolved, this`open, pool`frames, pool`touched
      ensures ok <==> old(Resolvable(i))
      ensures old(LsnSafe(i, lsn)) || !ok ==> Valid()
      ensures ok ==> open == i && mutations[i].page in old(pool.View())
      ensures ok ==>
        pool.View() == old(pool.View())[mutations[i].page := old(pool.View())[mutations[i].page].(lsn := lsn)]
      ensures !ok ==> open == old(open) && pool.View() == old(pool.View())
      ensures SamePlaces(old(pool.S()), pool.S()) && SameForeign(old(pool.S()), old(Own()), pool.S(), Own())
        && SameDirty(old(pool.S()), pool.S())
    {
      if i >= |mutations| || resolved[i] { return false; }
      var later := i + 1;
      while later < |resolved|
        invariant i + 1 <= later <= |resolved| && forall j :: i < j < later ==> resolved[j]
      {
        if !resolved[later] { return false; }
        later := later + 1;
      }
      assert i + 1 < |resolved| ==> resolved[i + 1];
      ok := RestoreLsn(i, lsn);
      if !ok { return; }
      resolved := resolved[i := true];
      open := i;
    }

    /** The pool's part of resolving the last open mutation. */
    method RestoreLsn(i: nat, lsn: nat) returns (ok: bool)
      requires Valid() && open == i + 1
      modifies pool`frames, pool`touched
      ensures (ok <==> old(Resolvable(i))) && (old(LsnSafe(i, lsn)) || !ok ==> pool.Valid())
        && SamePlaces(old(pool.S()), pool.S())
      ensures SameDirty(old(pool.S()), pool.S())
      ensures !ok ==> pool.S() == old(pool.S()) && pool.View() == old(pool.View())
      ensures ok ==>
        Gated(pool.S(), Own().(open := i)) && SameForeign(old(pool.S()), Own(), pool.S(), Own().(open := i))
      ensures ok ==> mutations[i].page in old(pool.View())
      ensures ok ==>
        pool.View() == old(pool.View())[mutations[i].page := old(pool.View())[mutations[i].page].(lsn := lsn)]
    {
      ghost var s := pool.S();
      var p := mutations[i].page;
      assert EntryOk(s, p);
      var e;
      if i < finalized {
        e := pool.RestorePageLsn(p, lsn);
      } else {
        assert PendingOf(s, p) >= OwnGates(Own(), p);
        e := pool.ReleasePending(p, lsn, true);
      }
      ok := e.None?;
      if ok {
        if i < finalized { GatedLower(s, pool.S(), Own()); } else { GatedUndo(s, pool.S(), Own()); }
        StillGated(s, Own(), pool.S(), Own().(open := i));
        PlacesBack(s, pool.S(), p);
      }
    }

    /** The page can be pinned where it is, and nobody else has unlogged changes there. */
    ghost predicate Undoable(i: nat)
      reads this, pool, pool.pm
    {
      i < |mutations| && Handy(pool.S(), pool.pm.live, mutations[i].page)
        && (i < finalized ==> PendingOf(pool.S(), mutations[i].page) == 0)
    }

    /**
     * The last open mutation cannot be undone: its page cannot be pinned, or it was logged and somebody else has
     * unlogged changes there.
     */
    ghost predicate Stuck()
      reads this, pool, pool.pm
    {
      && 0 < open <= |mutations|
      && (!CanFetch(pool.S(), pool.durable, pool.pm.live, pool.pm.faulty, mutations[open - 1].page)
      || (open - 1 < finalized && PendingOf(pool.S(), mutations[open - 1].page) > 0))
    }

    /**
     * Puts back what the last open mutation found; false stands for an exception, which leaves everything as it was
     * unless somebody else's unlogged changes keep the LSN from being restored.
     */
    method UndoLast(i: nat) returns (ok: bool)
      requires Valid() && open == i + 1
      modifies this`resolved, this`open, pool`frames, pool`table, pool`free, pool`lru, pool`touched, pool.pm`pages
      ensures Valid() && open == (if ok then i else old(open))
        && SameForeign(old(pool.S()), old(Own()), pool.S(), Own())
      ensures ok ==>
        pool.View() == old(pool.View())[mutations[i].page := Before(mutations[i])]
        && DirtyOf(pool.S(), mutations[i].page)
      ensures !ok ==>
        pool.View() == old(pool.View())
          || (HalfUndone(pool.View(), old(pool.View()), mutations[i]) && i < finalized
          && PendingOf(old(pool.S()), mutations[i].page) > 0)
      ensures ok <==>
        CanFetch(old(pool.S()), pool.durable, pool.pm.live, pool.pm.faulty, mutations[i].page)
        && (i < finalized ==> PendingOf(old(pool.S()), mutations[i].page) == 0)
      ensures !ok ==> Stuck()
      ensures old(Undoable(i)) ==> ok && SamePlaces(old(pool.S()), pool.S())
      ensures Flowed(old(pool.View()), pool.durable, old(pool.pm.pages), pool.pm.pages)
    {
      ghost var v := pool.View();
      ok := ApplyImage(pool, mutations[i].page, mutations[i].before);
      if ok {
        BackAgain(v, mutations[i]);
        ok := ResolveForUndo(i, mutations[i].previousLsn);
      }
    }

    /** One round of the reverse loop; `v` and `n` are the store and the open mutations at its start. */
    method UndoStep(i: nat, ghost v: View, ghost n: nat) returns (ok: bool)
      requires Valid() && i < |mutations| && n <= |mutations| && open == Least(i + 1, n)
        && pool.View() == Undone(v, mutations[..n], open)
      modifies this`resolved, this`open, pool`frames, pool`table, pool`free, pool`lru, pool`touched, pool.pm`pages
      ensures Valid() && open <= n && Stopped(pool.View(), v, mutations, n, open)
        && SameForeign(old(pool.S()), old(Own()), pool.S(), Own())
      ensures ok ==>
        open == Least(i, n) && pool.View() == Undone(v, mutations[..n], open)
        && (i < n ==> DirtyOf(pool.S(), mutations[i].page))
      ensures AllHandy(old(pool.S()), pool.pm.live, mutations, old(open)) && Alone(old(pool.S()), old(Own())) ==>
        ok && AllHandy(pool.S(), pool.pm.live, mutations, open)
      ensures !ok ==> Stuck()
      ensures Flowed(Undone(v, mutations[..n], old(open)), pool.durable, old(pool.pm.pages), pool.pm.pages)
    {
      ok := true;
      if !resolved[i] {
        ghost var s, k, was := pool.S(), open, pool.View();
        UndoneNext(v, mutations, n, i);
        ghost var can := AllHandy(s, pool.pm.live, mutations, k) && Alone(s, Own());
        if can { assert Undoable(i); }
        ok := UndoLast(i);
        if can { StillHandy(s, pool.S(), pool.pm.live, mutations, k, open); }
        if !ok { StopsHere(pool.View(), was, v, mutations, n, i); }
      }
    }

    /**
     * The reverse loop. An exception stops it; what has been undone stays undone and is not undone again. There is
     * none if every page is at hand and nobody else has unlogged changes on the pages of logged ones.
     */
    method UndoAll() returns (ok: bool)
      requires Valid()
      modifies this`resolved, this`open, pool`frames, pool`table, pool`free, pool`lru, pool`touched, pool.pm`pages
      ensures Valid() && Stopped(pool.View(), old(pool.View()), mutations, old(open), open)
        && SameForeign(old(pool.S()), old(Own()), pool.S(), Own())
      ensures ok ==> open == 0 && pool.View() == Undone(old(pool.View()), mutations[..old(open)], 0)
      ensures ok && old(open) > 0 ==> DirtyOf(pool.S(), mutations[0].page)
      ensures !ok ==> Stuck()
      ensures AllHandy(old(pool.S()), pool.pm.live, mutations, old(open)) && Alone(old(pool.S()), old(Own())) ==> ok
      ensures FlowedBack(old(pool.View()), mutations[..old(open)], pool.durable, old(pool.pm.pages), pool.pm.pages)
    {
      ghost var s, v, n, l, disk := pool.S(), pool.View(), open, Own(), pool.pm.pages;
      var i := |mutations|;
      while i > 0
        invariant 0 <= i <= |mutations| && UndoneDownTo(i, v, n, s, l, disk)
      {
        i := i - 1;
        ok := UndoRound(i, v, n, s, l, disk);
        if !ok { return; }
      }
      ok := true;
    }

    /** The reverse loop has come down to mutation i, from the store v with n open mutations. */
    ghost predicate UndoneDownTo(i: nat, v: View, n: nat, s: Frames, l: Ledger, disk: View)
      reads this, pool, pool.pm, log
    {
      && Valid() && n <= |mutations| && open == Least(i, n) && pool.View() == Undone(v, mutations[..n], open)
      && SameForeign(s, l, pool.S(), Own()) && l == Ledger(mutations, finalized, n)
      && FlowedBack(v, mutations[..n], pool.durable, disk, pool.pm.pages)
      && (i == 0 < n ==> DirtyOf(pool.S(), mutations[0].page))
      && (AllHandy(s, pool.pm.live, mutations, n) && Alone(s, l) ==> AllHandy(pool.S(), pool.pm.live, mutations, open))
    }

    /** One round of the loop, with what it keeps. */
    method UndoRound(i: nat, ghost v: View, ghost n: nat, ghost s: Frames, ghost l: Ledger, ghost disk: View)
        returns (ok: bool)
      requires i < |mutations| && UndoneDownTo(i + 1, v, n, s, l, disk)
      modifies this`resolved, this`open, pool`frames, pool`table, pool`free, pool`lru, pool`touched, pool.pm`pages
      ensures Valid() && Stopped(pool.View(), v, mutations, n, open) && SameForeign(s, l, pool.S(), Own())
      ensures FlowedBack(v, mutations[..n], pool.durable, disk, pool.pm.pages)
      ensures ok ==> UndoneDownTo(i, v, n, s, l, disk)
      ensures !ok ==> Stuck()
      ensures AllHandy(s, pool.pm.live, mutations, n) && Alone(s, l) ==> ok
    {
      if Alone(s, l) { StillAlone(s, l, pool.S(), Own()); }
      ghost var k, before := open, pool.pm.pages;
      ok := UndoStep(i, v, n);
      FlowsOn(v, mutations[..n], pool.durable, disk, before, pool.pm.pages, k);
    }

    /**
     * Rolls everything back: each page that the transaction changed is again what its first change found, its gates
     * are open but for those that others keep closed, and the pages it allocated are free. False stands for an
     * exception.
     */
    method RollbackForAbort() returns (ok: bool)
      requires Valid()
      modifies this`resolved, this`open, pool`frames, pool`table, pool`free, pool`lru, pool`touched
      modifies pool.pm`pages, pool.pm`live, pool.pm`liveCount
      ensures Valid() && Stopped(pool.View(), old(pool.View()), mutations, old(open), open)
        && SameForeign(old(pool.S()), old(Own()), pool.S(), Own())
      ensures watched != [] ==> !ok && open == old(open) && pool.View() == old(pool.View())
      ensures !ok ==> watched != [] || Stuck()
      ensures ok ==> open == 0 && pool.View() == Undone(old(pool.View()), mutations[..old(open)], 0)
      ensures pool.pm.live == if ok then old(pool.pm.live) - PageSet(granted) else old(pool.pm.live)
      ensures ok && old(open) > 0 ==> DirtyOf(pool.S(), mutations[0].page)
      ensures
            watched == [] && AllHandy(old(pool.S()), old(pool.pm.live), mutations, old(open))
            && Alone(old(pool.S()), old(Own())) ==>
          ok
      ensures FlowedBack(old(pool.View()), mutations[..old(open)], pool.durable, old(pool.pm.pages), pool.pm.pages)
    {
      if watched != [] { return false; }
      ok := UndoAll();
      if ok { ReleaseGranted(); }
    }

    /** Frees the pages that the transaction allocated. */
    method ReleaseGranted()
      requires Valid()
      modifies pool.pm`live, pool.pm`liveCount
      ensures Valid() && pool.View() == old(pool.View()) && pool.pm.live == old(pool.pm.live) - PageSet(granted)
    {
      ReleasePages(pool.pm, granted);
    }

    /**
     * Allocates a page. With a log, the page goes live only after its allocation record is durable; a failed flush
     * leaves a physical page that is not allocated. None stands for an exception.
     */
    method AllocatePage() returns (r: Option<PageId>)
      requires Valid() && id < U64 && (log != null ==> log.nextLsn + 1 < U64)
      modifies this`granted, pool.pm`pages, pool.pm`count, pool.pm`live, pool.pm`liveCount, log
      ensures Valid() && pool.S() == old(pool.S())
      ensures if old(pool.pm.count) < CATALOG_BITS
              then Extended(old(pool.View()), old(pool.pm.pages), old(pool.pm.count),
                            pool.View(), pool.pm.pages, pool.pm.count)
              else
                && pool.View() == old(pool.View()) && pool.pm.pages == old(pool.pm.pages)
                && pool.pm.count == old(pool.pm.count)
      ensures r.None? ==> pool.pm.live == old(pool.pm.live) && granted == old(granted)
      ensures r.Some? ==>
        r.value == old(pool.pm.count) && pool.pm.live == old(pool.pm.live) + {r.value}
        && granted == old(granted) + [r.value]
      ensures r.Some? <==> old(pool.pm.count) < CATALOG_BITS && (log != null ==> !old(log.failNextFlush))
      ensures log != null && old(pool.pm.count) >= CATALOG_BITS ==> log.View() == old(log.View())
      ensures log != null && old(pool.pm.count) < CATALOG_BITS ==>
        log.View() == Allocated(old(log.View()), id, old(pool.pm.count))
    {
      r := Reserve();
      if r.None? { return; }
      if log != null {
        var flushed := LogAllocation(r.value);
        if !flushed { return None; }
      }
      Grant(r.value);
    }

    /** Makes a reserved page live and remembers it. */
    method Grant(page: PageId)
      requires Valid() && page < pool.pm.count && page !in pool.pm.live
      modifies this`granted, pool.pm`live, pool.pm`liveCount
      ensures Valid() && pool.View() == old(pool.View()) && pool.pm.live == old(pool.pm.live) + {page}
        && granted == old(granted) + [page]
    {
      var ok := pool.pm.ActivateReservedPage(page);
      granted := granted + [page];
    }

    /** Adds a zeroed physical page, which the cache does not notice. */
    method Reserve() returns (r: Option<PageId>)
      requires Valid()
      modifies pool.pm`pages, pool.pm`count
      ensures Valid()
      ensures if r.Some?
              then Extended(old(pool.View()), old(pool.pm.pages), old(pool.pm.count),
                            pool.View(), pool.pm.pages, pool.pm.count)
              else
                && pool.View() == old(pool.View()) && pool.pm.pages == old(pool.pm.pages)
                && pool.pm.count == old(pool.pm.count)
      ensures (r.Some? <==> old(pool.pm.count) < CATALOG_BITS)
      ensures r.Some? ==> r.value == old(pool.pm.count) < pool.pm.count && r.value !in pool.pm.live && r.value < INVALID
    {
      ghost var disk := pool.pm.pages;
      r := pool.pm.ReservePage();
      if r.Some? {
        ViewGrows(pool.S(), pool.touched, disk, r.value, NEW_PAGE);
        SyncedGrows(pool.S(), pool.touched, disk, pool.pm.pages);
      }
    }

    /** Appends the allocation record and makes it durable. */
    method LogAllocation(page: PageId) returns (ok: bool)
      requires log != null && log.Valid() && id < U64 && log.nextLsn + 1 < U64 && page < INVALID
      modifies log
      ensures log.Valid() && (ok <==> !old(log.failNextFlush)) && log.View() == Allocated(old(log.View()), id, page)
    {
      var lsn := log.Append(Allocate, id, EncodeAllocate(page).value);
      ok := log.Flush();
    }
  }

  /** A transaction that logs closes no gates, so its validity is a matter of its own books. */
  lemma LoggedValid(tx: Transaction)
    requires tx.log != null && tx.log.Valid() && tx.pool.Valid() && tx.Tallied()
    ensures tx.Valid()
  {
  }

  function Least(a: nat, b: nat): nat {
    if a < b then a else b
  }
}
