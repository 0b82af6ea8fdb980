/** The UNDO pass: collect the losers' pages, rebuild each from its history, release the losers' allocations. */
module UndoEngines {
  import opened StorageTypes
  import opened PageManagers
  import opened BufferPools
  import opened WalCodec
  import opened RecoveryAnalysis
  import opened Redos
  import opened Undos
  import opened Replay
  import opened RecoveryEngines

  // ---- Histories ----------------------------------------------------------------------

  /** The mutations of page p, in log order. */
  function HistoryOf(ms: seq<MutationRecord>, p: PageId): seq<MutationRecord> {
    if ms == [] then []
    else
      var m := ms[|ms| - 1];
      HistoryOf(ms[..|ms| - 1], p) + (if m.mutation.page == p then [m] else [])
  }

  ghost predicate HistoriesOf(ms: seq<MutationRecord>, h: map<PageId, seq<MutationRecord>>) {
    && (forall k :: 0 <= k < |ms| ==> ms[k].mutation.page in h)
    && forall p: PageId {:trigger HistoryKept(ms, h, p)} :: HistoryKept(ms, h, p)
  }

  ghost predicate HistoryKept(ms: seq<MutationRecord>, h: map<PageId, seq<MutationRecord>>, p: PageId) {
    p in h ==> h[p] == HistoryOf(ms, p) && h[p] != []
  }

  lemma {:induction false} NoHistory(ms: seq<MutationRecord>, p: PageId)
    requires forall k :: 0 <= k < |ms| ==> ms[k].mutation.page != p
    ensures HistoryOf(ms, p) == []
  {
    if ms != [] { NoHistory(ms[..|ms| - 1], p); }
  }

  lemma HistoryGrows(ms: seq<MutationRecord>, m: MutationRecord, p: PageId)
    ensures HistoryOf(ms + [m], p) == HistoryOf(ms, p) + (if m.mutation.page == p then [m] else [])
  {
    assert (ms + [m])[..|ms + [m]| - 1] == ms;
  }

  lemma HistoriesGrow(ms: seq<MutationRecord>, m: MutationRecord, h: map<PageId, seq<MutationRecord>>)
    requires HistoriesOf(ms, h)
    ensures var p := m.mutation.page; HistoriesOf(ms + [m], h[p := (if p in h then h[p] else []) + [m]])
  {
    var p, all := m.mutation.page, ms + [m];
    var to := h[p := (if p in h then h[p] else []) + [m]];
    if p !in h { NoHistory(ms, p); }
    forall q: PageId ensures HistoryKept(all, to, q) {
      assert HistoryKept(ms, h, q);
      HistoryGrows(ms, m, q);
    }
    forall k | 0 <= k < |all| ensures all[k].mutation.page in to { if k < |ms| { assert ms[k].mutation.page in h; } }
  }

  /** The loop that sorts all mutations into per-page histories. */
  method CollectHistories(ms: seq<MutationRecord>) returns (h: map<PageId, seq<MutationRecord>>)
    ensures HistoriesOf(ms, h)
  {
    h := map[];
    for k := 0 to |ms|
      invariant HistoriesOf(ms[..k], h)
    {
      var p := ms[k].mutation.page;
      HistoriesGrow(ms[..k], ms[k], h);
      assert ms[..k + 1] == ms[..k] + [ms[k]];
      h := h[p := (if p in h then h[p] else []) + [ms[k]]];
    }
    assert ms[..|ms|] == ms;
  }

  // ---- Rebuilding one page ------------------------------------------------------------

  /** The image after the committed ones among the first n mutations of a history. */
  function Folded(base: Bytes, h: seq<MutationRecord>, won: set<nat>, n: nat): (y: Bytes)
    requires n <= |h|
    ensures |y| == |base|
  {
    if n == 0 then base
    else
      var x := Folded(base, h, won, n - 1);
      if h[n - 1].tx in won then Overlay(x, h[n - 1].mutation) else x
  }

  function FoldedLsn(h: seq<MutationRecord>, won: set<nat>, n: nat): nat
    requires n <= |h|
  {
    if n == 0 then 0 else if h[n - 1].tx in won then h[n - 1].lsn else FoldedLsn(h, won, n - 1)
  }

  lemma {:induction false} FoldedPrefix(base: Bytes, h: seq<MutationRecord>, more: seq<MutationRecord>, won: set<nat>,
      n: nat)
    requires n <= |h|
    ensures Folded(base, h + more, won, n) == Folded(base, h, won, n)
      && FoldedLsn(h + more, won, n) == FoldedLsn(h, won, n)
  {
    if n > 0 { FoldedPrefix(base, h, more, won, n - 1); }
  }

  /** What the last record adds to the history of p. */
  lemma HistoryStep(es: seq<Entry>, p: PageId)
    requires es != []
    ensures var front, e := es[..|es| - 1], es[|es| - 1];
      HistoryOf(Mutations(es), p) ==
      HistoryOf(Mutations(front), p) + (if OnPage(e, p) then [MutationRecord(e.lsn, e.tx, e.action.mutation)] else [])
  {
    var front, e := es[..|es| - 1], es[|es| - 1];
    if e.action.WritePage? {
      HistoryGrows(Mutations(front), MutationRecord(e.lsn, e.tx, e.action.mutation), p);
    } else {
      assert Mutations(es) == Mutations(front);
    }
  }

  /** Folding a page's history is patching by the whole log. */
  lemma {:induction false} FoldIsPatch(base: Bytes, es: seq<Entry>, won: set<nat>, p: PageId)
    ensures var h := HistoryOf(Mutations(es), p);
      && Folded(base, h, won, |h|) == Patched(base, es, won, p, |es|)
      && FoldedLsn(h, won, |h|) == SurvivorLsn(es, won, p)
  {
    if es != [] {
      var n := |es| - 1;
      var front, e := es[..n], es[n];
      FoldIsPatch(base, front, won, p);
      PatchPrefix(base, es, won, p, n, n);
      HistoryStep(es, p);
      var h := HistoryOf(Mutations(front), p);
      if OnPage(e, p) {
        FoldedPrefix(base, h, [MutationRecord(e.lsn, e.tx, e.action.mutation)], won, |h|);
      } else {
        assert HistoryOf(Mutations(es), p) == h;
      }
    }
  }

  lemma {:induction false} PatchPrefix(base: Bytes, es: seq<Entry>, won: set<nat>, p: PageId, m: nat, n: nat)
    requires n <= m <= |es|
    ensures Patched(base, es[..m], won, p, n) == Patched(base, es, won, p, n)
      && LastWin(es[..m], won, p, n) == LastWin(es, won, p, n)
  {
    if n > 0 { PatchPrefix(base, es, won, p, m, n - 1); }
  }

  /** A history starts with the first change of the page. */
  lemma {:induction false} HistoryStart(es: seq<Entry>, p: PageId)
    ensures var h, k := HistoryOf(Mutations(es), p), FirstOn(es, p, 0);
      && (h != [] <==> k < |es|)
      && (h != [] ==> h[0] == MutationRecord(es[k].lsn, es[k].tx, es[k].action.mutation))
  {
    if es != [] {
      var n := |es| - 1;
      var front, e := es[..n], es[n];
      HistoryStart(front, p);
      HistoryStep(es, p);
      FirstOnPrefix(es, p, n, 0);
    }
  }

  lemma {:induction false} FirstOnPrefix(es: seq<Entry>, p: PageId, n: nat, from: nat)
    requires from <= n <= |es|
    ensures FirstOn(es[..n], p, from) < n ==> FirstOn(es, p, from) == FirstOn(es[..n], p, from)
    ensures FirstOn(es[..n], p, from) == n ==> FirstOn(es, p, from) == FirstOn(es, p, n)
    decreases n - from
  {
    if from < n && !OnPage(es[from], p) { FirstOnPrefix(es, p, n, from + 1); }
  }

  /** Every entry of a history stands for a log entry. */
  lemma HistoryEntry(es: seq<Entry>, p: PageId, a: nat) returns (i: nat)
    requires a < |HistoryOf(Mutations(es), p)|
    ensures i < |es| && es[i].lsn == HistoryOf(Mutations(es), p)[a].lsn
  {
    var k := HistoryFrom(Mutations(es), p, a);
    i := MutationFrom(es, k);
  }

  ghost predicate LsnOrdered(h: seq<MutationRecord>) {
    forall a, b :: 0 <= a < b < |h| ==> h[a].lsn < h[b].lsn
  }

  /** Histories are in LSN order already, so that sorting them by LSN changes nothing. */
  lemma {:induction false} HistoryOrdered(es: seq<Entry>, p: PageId)
    requires Ascending(es)
    ensures LsnOrdered(HistoryOf(Mutations(es), p))
  {
    if es != [] {
      var n := |es| - 1;
      var front := es[..n];
      HistoryOrdered(front, p);
      HistoryStep(es, p);
      var h := HistoryOf(Mutations(front), p);
      forall a: nat | a < |h| && es[n].lsn != 0 ensures h[a].lsn < es[n].lsn {
        var i := HistoryEntry(front, p, a);
        assert front[i] == es[i];
      }
    }
  }

  /** The byte loop: copies what the mutation changed into the image. */
  method ApplyDelta(image: array<Byte>, m: PhysicalMutation)
    requires |m.before| == image.Length && |m.after| == image.Length
    modifies image
    ensures image[..] == Overlay(old(image[..]), m)
  {
    for i := 0 to image.Length
      invariant image[i..] == old(image[i..])
      invariant image[..i] == Overlay(old(image[..]), m)[..i]
    {
      if m.before[i] != m.after[i] { image[i] := m.after[i]; }
    }
    assert image[..] == image[..image.Length];
  }

  /** The loop over one page's history. */
  method RebuildImage(h: seq<MutationRecord>, transactions: map<nat, TransactionAnalysis>, ghost won: set<nat>)
      returns (image: Bytes, lsn: nat)
    requires h != [] && forall a :: 0 <= a < |h| ==> Sized(h[a].mutation)
    requires forall a :: 0 <= a < |h| ==>
      h[a].tx in transactions && (transactions[h[a].tx].status == Committed <==> h[a].tx in won)
    ensures image == Folded(h[0].mutation.before, h, won, |h|) && lsn == FoldedLsn(h, won, |h|)
  {
    var base := h[0].mutation.before;
    var buffer := new Byte[|base|](i requires 0 <= i < |base| => base[i]);
    assert buffer[..] == base;
    lsn := 0;
    for k := 0 to |h|
      invariant buffer[..] == Folded(base, h, won, k) && lsn == FoldedLsn(h, won, k)
    {
      if transactions[h[k].tx].status == Committed {
        ApplyDelta(buffer, h[k].mutation);
        lsn := h[k].lsn;
      }
    }
    image := buffer[..];
  }

  // ---- Collecting the losers' pages and allocations -------------------------------------

  ghost function PagesOf(ms: seq<MutationRecord>, txs: set<nat>): set<PageId> {
    set k | 0 <= k < |ms| && ms[k].tx in txs :: ms[k].mutation.page
  }

  /** als are the allocations of the given transactions, in some order. */
  ghost predicate AllocationsOf(all: seq<AllocationRecord>, txs: set<nat>, als: seq<AllocationRecord>) {
    && (forall k :: 0 <= k < |all| && all[k].tx in txs ==> all[k] in als)
    && forall a :: a in als ==> a in all && a.tx in txs
  }

  method AddPages(pages: set<PageId>, ms: seq<MutationRecord>, tx: nat, ix: seq<nat>, ghost txs: set<nat>)
      returns (out: set<PageId>)
    requires MutationIndexes(ix, ms, tx) && pages == PagesOf(ms, txs)
    ensures out == PagesOf(ms, txs + {tx})
  {
    out := pages;
    for a := 0 to |ix|
      invariant out == pages + set b | 0 <= b < a :: ms[ix[b]].mutation.page
    {
      out := out + {ms[ix[a]].mutation.page};
    }
    forall p | p in PagesOf(ms, txs + {tx}) ensures p in out {
      var k: nat :| k < |ms| && ms[k].tx in txs + {tx} && ms[k].mutation.page == p;
      if ms[k].tx !in txs { assert k in ix; }
    }
  }

  method AddAllocations(als: seq<AllocationRecord>, all: seq<AllocationRecord>, tx: nat, ix: seq<nat>,
      ghost txs: set<nat>)
    returns (out: seq<AllocationRecord>)
    requires AllocationIndexes(ix, all, tx) && AllocationsOf(all, txs, als)
    ensures AllocationsOf(all, txs + {tx}, out)
  {
    out := als;
    for a := 0 to |ix|
      invariant forall x :: x in als ==> x in out
      invariant forall b :: 0 <= b < a ==> all[ix[b]] in out
      invariant forall x :: x in out ==> x in all && x.tx in txs + {tx}
    {
      out := out + [all[ix[a]]];
    }
    forall k: nat | k < |all| && all[k].tx in txs + {tx} ensures all[k] in out {
      if all[k].tx !in txs { assert k in ix; }
    }
  }

  ghost function Losers(st: RecoveryState): set<nat> {
    set tx | tx in st.transactions && st.transactions[tx].status != Committed
  }

  /** The loop over the transaction table. */
  method CollectLosers(st: RecoveryState, ghost es: seq<Entry>) returns (pages: set<PageId>, als: seq<AllocationRecord>)
    requires Tabled(es, st)
    ensures pages == PagesOf(st.mutations, Losers(st)) && AllocationsOf(st.allocations, Losers(st), als)
  {
    pages, als := {}, [];
    var todo := st.transactions.Keys;
    ghost var txs: set<nat> := {};
    while todo != {}
      invariant todo <= st.transactions.Keys && txs == Losers(st) - todo
      invariant pages == PagesOf(st.mutations, txs) && AllocationsOf(st.allocations, txs, als)
    {
      var tx :| tx in todo;
      todo := todo - {tx};
      if st.transactions[tx].status != Committed {
        assert TxTabled(es, st, tx);
        pages := AddPages(pages, st.mutations, tx, st.transactions[tx].mutations, txs);
        als := AddAllocations(als, st.allocations, tx, st.transactions[tx].allocations, txs);
        txs := txs + {tx};
      }
    }
  }

  lemma LosersLost(st: RecoveryState, es: seq<Entry>, tx: nat)
    requires IsAnalysis(st.records, es, st) && exists i :: 0 <= i < |es| && es[i].tx == tx
    ensures tx in Losers(st) <==> tx !in Winners(es)
  {
    assert StatusRight(es, st, tx);
  }

  lemma AffectedCollected(st: RecoveryState, es: seq<Entry>)
    requires IsAnalysis(st.records, es, st)
    ensures PagesOf(st.mutations, Losers(st)) == Affected(es, Winners(es))
  {
    var won := Winners(es);
    forall k: nat | k < |st.mutations| && st.mutations[k].tx in Losers(st)
      ensures st.mutations[k].mutation.page in Affected(es, won)
    {
      var i := MutationFrom(es, k);
      LosersLost(st, es, es[i].tx);
    }
    forall i: nat | i < |es| && es[i].action.WritePage? && es[i].tx !in won
      ensures es[i].action.mutation.page in PagesOf(st.mutations, Losers(st))
    {
      var k := MutationListed(es, i);
      LosersLost(st, es, es[i].tx);
    }
  }

  lemma RevokedCollected(st: RecoveryState, es: seq<Entry>, als: seq<AllocationRecord>)
    requires IsAnalysis(st.records, es, st) && AllocationsOf(st.allocations, Losers(st), als)
    ensures (set a | a in als :: a.page) == Revoked(es, Winners(es))
  {
    var won, pages := Winners(es), set a | a in als :: a.page;
    forall a | a in als ensures a.page in Revoked(es, won) {
      var k: nat :| k < |st.allocations| && st.allocations[k] == a;
      var i := AllocationFrom(es, k);
      LosersLost(st, es, es[i].tx);
    }
    forall i: nat | i < |es| && es[i].action.AllocatePage? && es[i].tx !in won ensures es[i].action.page in pages {
      var k := AllocationListed(es, i);
      LosersLost(st, es, es[i].tx);
      assert st.allocations[k] in als;
    }
  }

  // ---- Rebuilding and releasing -------------------------------------------------------

  /** The store with the given pages rebuilt. */
  ghost function WithRebuilt(s: Store, es: seq<Entry>, won: set<nat>, done: set<PageId>): Store {
    Store(map p | p in s.pages :: if p in done then Rebuilt(es, won, p) else s.pages[p], s.live, s.count)
  }

  lemma RebuiltOneMore(s: Store, es: seq<Entry>, won: set<nat>, done: set<PageId>, p: PageId)
    requires p in s.pages
    ensures var t := WithRebuilt(s, es, won, done);
      WithRebuilt(s, es, won, done + {p}) == Store(t.pages[p := Rebuilt(es, won, p)], t.live, t.count)
  {
  }

  /** Histories of decoded logs are well-sized and known to the transaction table. */
  lemma HistoryKnown(st: RecoveryState, es: seq<Entry>, p: PageId)
    requires IsAnalysis(st.records, es, st)
    ensures forall a :: 0 <= a < |HistoryOf(st.mutations, p)| ==> var r := HistoryOf(st.mutations, p)[a];
      Sized(r.mutation) && r.tx in st.transactions
        && (st.transactions[r.tx].status == Committed <==> r.tx in Winners(es))
  {
    var h := HistoryOf(st.mutations, p);
    forall a: nat | a < |h|
      ensures Sized(h[a].mutation) && h[a].tx in st.transactions
        && (st.transactions[h[a].tx].status == Committed <==> h[a].tx in Winners(es))
    {
      var k := HistoryFrom(st.mutations, p, a);
      var i := MutationFrom(es, k);
      TableKnows(st, es, i);
      ParsedFields(st.records[i], es[i]);
    }
  }

  lemma {:induction false} HistoryFrom(ms: seq<MutationRecord>, p: PageId, a: nat) returns (k: nat)
    requires a < |HistoryOf(ms, p)|
    ensures k < |ms| && ms[k] == HistoryOf(ms, p)[a]
  {
    var front := ms[..|ms| - 1];
    if a < |HistoryOf(front, p)| {
      k := HistoryFrom(front, p, a);
    } else {
      k := |ms| - 1;
    }
  }

  /** What the image loop computes for a page is the page UNDO is to leave. */
  method RebuildPage(st: RecoveryState, h: map<PageId, seq<MutationRecord>>, p: PageId, ghost es: seq<Entry>)
      returns (image: Bytes, lsn: nat)
    requires IsAnalysis(st.records, es, st) && HistoriesOf(st.mutations, h) && p in h
    ensures Page(image, lsn) == Rebuilt(es, Winners(es), p) && |image| == PAYLOAD_SIZE
    ensures lsn == 0 || exists i :: 0 <= i < |es| && es[i].lsn == lsn
  {
    HistoryKnown(st, es, p);
    assert HistoryKept(st.mutations, h, p);
    image, lsn := RebuildImage(h[p], st.transactions, Winners(es));
    HistoryStart(es, p);
    FoldIsPatch(h[p][0].mutation.before, es, Winners(es), p);
  }

  lemma NoneRebuilt(s: Store, es: seq<Entry>, won: set<nat>)
    ensures WithRebuilt(s, es, won, {}) == s
  {
    assert WithRebuilt(s, es, won, {}).pages == s.pages;
  }

  lemma OneHandled(pages: set<PageId>, todo: set<PageId>, before: set<PageId>, p: PageId)
    requires p in todo && todo <= pages
    ensures pages - (todo - {p}) - before == if p in before then pages - todo - before
      else (pages - todo - before) + {p}
    ensures before + (pages - (todo - {p})) == (before + (pages - todo)) + {p}
  {
  }

  /** The given pages of the store have been rebuilt. */
  ghost predicate HasRebuilt(ctx: ReplayContext, s: Store, es: seq<Entry>, done: set<PageId>)
    reads ctx, ctx.pool, ctx.pool.pm
  {
    ctx.Valid() && done <= ctx.pool.pm.live && ctx.Contents() == WithRebuilt(s, es, Winners(es), done)
  }

  /** Rebuilds one page, unless the context did so earlier; false stands for an exception. */
  method RebuildNext(st: RecoveryState, ctx: ReplayContext, h: map<PageId, seq<MutationRecord>>, p: PageId,
                     ghost es: seq<Entry>, ghost s: Store, ghost done: set<PageId>) returns (ok: bool)
    requires IsAnalysis(st.records, es, st) && HistoriesOf(st.mutations, h) && p in h && p != INVALID && p !in done
    requires HasRebuilt(ctx, s, es, done) && AllDurable(es, ctx.pool.durable)
    modifies ctx`reconstructed, ctx.pool`frames, ctx.pool`table, ctx.pool`free, ctx.pool`lru, ctx.pool`touched
    modifies ctx.pool.pm`pages
    ensures ok <==> p in old(ctx.reconstructed) || p in ctx.pool.pm.live
    ensures ctx.reconstructed == if ok then old(ctx.reconstructed) + {p} else old(ctx.reconstructed)
    ensures HasRebuilt(ctx, s, es, if ok && p !in old(ctx.reconstructed) then done + {p} else done)
  {
    var image, lsn := RebuildPage(st, h, p, es);
    ok := ctx.ReconstructPage(p, image, lsn);
    if ok && p !in old(ctx.reconstructed) { RebuiltOneMore(s, es, Winners(es), done, p); }
  }

  /** Reconstructs the collected pages one after the other; false stands for an exception. */
  method RebuildPages(st: RecoveryState, ctx: ReplayContext, h: map<PageId, seq<MutationRecord>>, pages: set<PageId>,
      ghost es: seq<Entry>)
    returns (ok: bool, ghost done: set<PageId>)
    requires IsAnalysis(st.records, es, st) && HistoriesOf(st.mutations, h) && pages <= h.Keys && INVALID !in pages
    requires ctx.Valid() && AllDurable(es, ctx.pool.durable)
    modifies ctx`reconstructed, ctx.pool`frames, ctx.pool`table, ctx.pool`free, ctx.pool`lru, ctx.pool`touched
    modifies ctx.pool.pm`pages
    ensures HasRebuilt(ctx, old(ctx.Contents()), es, done) && done <= pages
    ensures ok ==> done == pages - old(ctx.reconstructed) && ctx.reconstructed == old(ctx.reconstructed) + pages
    ensures ok <==> pages - old(ctx.reconstructed) <= ctx.pool.pm.live
  {
    ghost var s, before := ctx.Contents(), ctx.reconstructed;
    var todo := pages;
    done := {};
    NoneRebuilt(s, es, Winners(es));
    while todo != {}
      invariant todo <= pages && done == pages - todo - before && ctx.reconstructed == before + (pages - todo)
      invariant HasRebuilt(ctx, s, es, done)
    {
      var p :| p in todo;
      ok := RebuildNext(st, ctx, h, p, es, s, done);
      if !ok { return; }
      OneHandled(pages, todo, before, p);
      done := if p in before then done else done + {p};
      todo := todo - {p};
    }
    ok := true;
  }

  ghost predicate NewestFirst(als: seq<AllocationRecord>) {
    forall a, b :: 0 <= a < b < |als| ==> als[a].lsn >= als[b].lsn
  }

  method InsertNewestFirst(als: seq<AllocationRecord>, x: AllocationRecord) returns (out: seq<AllocationRecord>)
    requires NewestFirst(als)
    ensures NewestFirst(out) && multiset(out) == multiset(als) + multiset{x}
  {
    var k := 0;
    while k < |als| && als[k].lsn >= x.lsn
      invariant k <= |als| && forall a :: 0 <= a < k ==> als[a].lsn >= x.lsn
    {
      k := k + 1;
    }
    assert als == als[..k] + als[k..];
    out := als[..k] + [x] + als[k..];
  }

  /** Sorts the allocations by descending LSN. */
  method SortNewestFirst(als: seq<AllocationRecord>) returns (out: seq<AllocationRecord>)
    ensures NewestFirst(out) && multiset(out) == multiset(als)
  {
    out := [];
    for n := 0 to |als|
      invariant NewestFirst(out) && multiset(out) == multiset(als[..n])
    {
      assert als[..n + 1] == als[..n] + [als[n]];
      out := InsertNewestFirst(out, als[n]);
    }
    assert als[..|als|] == als;
  }

  /** The pages of the first n allocations. */
  ghost function ReleasedPages(als: seq<AllocationRecord>, n: nat): set<PageId>
    requires n <= |als|
  {
    if n == 0 then {} else ReleasedPages(als, n - 1) + {als[n - 1].page}
  }

  lemma {:induction false} ReleasedAre(als: seq<AllocationRecord>, n: nat)
    requires n <= |als|
    ensures ReleasedPages(als, n) == set i | 0 <= i < n :: als[i].page
  {
    if n > 0 { ReleasedAre(als, n - 1); }
  }

  lemma ReleasedAll(als: seq<AllocationRecord>)
    ensures ReleasedPages(als, |als|) == set a | a in als :: a.page
  {
    ReleasedAre(als, |als|);
    forall i | 0 <= i < |als| ensures als[i] in als {}
  }

  method ReleaseNext(ctx: ReplayContext, als: seq<AllocationRecord>, k: nat, ghost s: Store) returns (ok: bool)
    requires ctx.Valid() && k < |als| && als[k].page != INVALID
      && ctx.Contents() == WithoutPages(s, ReleasedPages(als, k))
    modifies ctx.pool`frames, ctx.pool`table, ctx.pool`free, ctx.pool`lru, ctx.pool.pm`pages, ctx.pool.pm`live,
      ctx.pool.pm`liveCount
    ensures ok && ctx.Valid() && ctx.Contents() == WithoutPages(s, ReleasedPages(als, k + 1))
  {
    ok := ctx.UndoPageAllocate(als[k].page);
  }

  /** Releases the losers' allocations in the given order; in a quiet pool nothing prevents it. */
  method ReleaseAll(ctx: ReplayContext, als: seq<AllocationRecord>) returns (ok: bool)
    requires ctx.Valid() && INVALID !in (set a | a in als :: a.page)
    modifies ctx.pool`frames, ctx.pool`table, ctx.pool`free, ctx.pool`lru, ctx.pool.pm`pages, ctx.pool.pm`live,
      ctx.pool.pm`liveCount
    ensures ok && ctx.Valid()
    ensures ctx.Contents() == WithoutPages(old(ctx.Contents()), ReleasedPages(als, |als|))
  {
    ghost var s := ctx.Contents();
    ok := true;
    for k := 0 to |als|
      invariant ok && ctx.Valid() && ctx.Contents() == WithoutPages(s, ReleasedPages(als, k))
    {
      assert als[k] in als;
      ok := ReleaseNext(ctx, als, k, s);
      if !ok { return; }
    }
  }

  ghost function WithoutPages(s: Store, pages: set<PageId>): Store {
    Store(s.pages, s.live - pages, s.count)
  }

  lemma SamePages(als: seq<AllocationRecord>, out: seq<AllocationRecord>)
    requires multiset(out) == multiset(als)
    ensures (set a | a in out :: a.page) == (set a | a in als :: a.page)
  {
    forall a ensures a in out <==> a in als {
      assert a in out <==> a in multiset(out);
      assert a in als <==> a in multiset(als);
    }
  }

  /** Every page to rebuild has a history and a valid number. */
  lemma AffectedHaveHistories(st: RecoveryState, es: seq<Entry>, h: map<PageId, seq<MutationRecord>>)
    requires IsAnalysis(st.records, es, st) && HistoriesOf(st.mutations, h)
    ensures Affected(es, Winners(es)) <= h.Keys && INVALID !in Affected(es, Winners(es))
  {
    forall i: nat | i < |es| && es[i].action.WritePage?
      ensures es[i].action.mutation.page in h && es[i].action.mutation.page != INVALID
    {
      var k := MutationListed(es, i);
      assert st.mutations[k].mutation.page in h;
      ParsedFields(st.records[i], es[i]);
    }
  }

  /** Every page to release has a valid number. */
  lemma RevokedHaveNumbers(st: RecoveryState, es: seq<Entry>)
    requires IsAnalysis(st.records, es, st)
    ensures INVALID !in Revoked(es, Winners(es))
  {
    forall i: nat | i < |es| && es[i].action.AllocatePage? ensures es[i].action.page != INVALID {
      ParsedFields(st.records[i], es[i]);
    }
  }

  /** The UNDO pass computes the UNDO function; when it throws, it has rebuilt some losers' pages and nothing else. */
  method UndoRun(st: RecoveryState, ctx: ReplayContext, ghost es: seq<Entry>)
      returns (ok: bool, ghost done: set<PageId>)
    requires IsAnalysis(st.records, es, st) && ctx.Valid() && AllDurable(es, ctx.pool.durable)
    modifies ctx`reconstructed, ctx.pool`frames, ctx.pool`table, ctx.pool`free, ctx.pool`lru, ctx.pool`touched
    modifies ctx.pool.pm`pages, ctx.pool.pm`live, ctx.pool.pm`liveCount
    ensures ctx.Valid()
    ensures ok <==> UndoAfter(old(ctx.Contents()), es, Winners(es), old(ctx.reconstructed)).Some?
    ensures ok ==> UndoAfter(old(ctx.Contents()), es, Winners(es), old(ctx.reconstructed)) == Some(ctx.Contents())
    ensures ok ==> ctx.reconstructed == old(ctx.reconstructed) + Affected(es, Winners(es))
    ensures !ok ==>
      done <= Affected(es, Winners(es)) && ctx.Contents() == WithRebuilt(old(ctx.Contents()), es, Winners(es), done)
  {
    var pages, als := CollectLosers(st, es);
    AffectedCollected(st, es);
    RevokedCollected(st, es, als);
    var h := CollectHistories(st.mutations);
    AffectedHaveHistories(st, es, h);
    ok, done := RebuildPages(st, ctx, h, pages, es);
    if !ok { return; }
    var sorted := SortNewestFirst(als);
    SamePages(als, sorted);
    ReleasedAll(sorted);
    RevokedHaveNumbers(st, es);
    ok := ReleaseAll(ctx, sorted);
  }
}
