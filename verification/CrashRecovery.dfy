/** Crash recovery end to end: REDO, then UNDO, over whatever a crash leaves. */
module CrashRecovery {
  import opened StorageTypes
  import opened WalCodec
  import opened PageManagers
  import opened RecoveryAnalysis
  import opened Redos
  import opened Undos
  import opened RecoveryHistory
  import opened CrashRuns

  /** Every logged change of p saw what the page showed then. */
  ghost predicate FaithfulOn(base: Page, es: seq<Entry>, p: PageId) {
    forall i :: 0 <= i < |es| && OnPage(es[i], p) ==> es[i].action.mutation.before == Seen(base, es, p, i).data
  }

  lemma {:induction false} SeenUntouched(base: Page, es: seq<Entry>, p: PageId, n: nat)
    requires n <= |es| && forall j :: 0 <= j < n ==> !OnPage(es[j], p)
    ensures Seen(base, es, p, n) == base
  {
    if n > 0 { SeenUntouched(base, es, p, n - 1); }
  }

  /** A page that a loser changed is rebuilt to its committed content. */
  lemma RebuiltPage(base: Page, es: seq<Entry>, p: PageId)
    requires EndsLast(es) && Exclusive(es) && AllSized(es) && FaithfulOn(base, es, p) && p in Affected(es, Winners(es))
    ensures Rebuilt(es, Winners(es), p) == Page(Truth(base.data, es, p, |es|), SurvivorLsn(es, Winners(es), p))
  {
    var k := FirstOn(es, p, 0);
    SeenUntouched(base, es, p, k);
    assert BaseImage(es, p) == base.data;
    PatchedIsTruth(base, es, p);
  }

  /** A page that only winners changed is brought up to its committed content, whichever version the disk holds. */
  lemma ReplayedPage(base: Page, es: seq<Entry>, p: PageId, x: Page)
    requires Ordered(es) && EndsLast(es) && Exclusive(es) && AllSized(es) && FaithfulOn(base, es, p)
    requires p !in Affected(es, Winners(es)) && base.lsn == 0 && IsVersion(base, es, p, |es|, x)
    ensures Newest(x, es, Winners(es), p, |es|) == Page(Truth(base.data, es, p, |es|), SurvivorLsn(es, Winners(es), p))
  {
    PatchedIsTruth(base, es, p);
    if x != base {
      var j :| 0 <= j < |es| && OnPage(es[j], p) && x == Page(es[j].action.mutation.after, es[j].lsn);
      assert WinsOn(es[j], Winners(es), p);
    }
  }

  /** What recovery needs of the log and of the store it starts from. */
  ghost predicate Restorable(base: map<PageId, Page>, es: seq<Entry>, v: Store) {
    && Lawful(base, es) && Ordered(es) && AllSized(es) && StoreOk(v) && v.pages.Keys == base.Keys
    && (forall i :: 0 <= i < |es| && es[i].action.AllocatePage? ==> es[i].action.page < v.count)
    && (forall p :: p in base ==> base[p].lsn == 0 && PageFit(base[p], es, p, v.pages[p]))
    && forall i, p: PageId :: 0 <= i < |es| && OnPage(es[i], p) && p in Granted(es, Winners(es), |es|) ==>
         p in v.live + Granted(es, Winners(es), i)
  }

  /** Any version will do for a page that only winners changed, any page at all where a loser was. */
  ghost predicate PageFit(base: Page, es: seq<Entry>, p: PageId, x: Page) {
    p in Affected(es, Winners(es)) || IsVersion(base, es, p, |es|, x)
  }

  /** The pages that recovery touches are allocated, if need be by REDO. */
  ghost predicate AllUsable(es: seq<Entry>, v: Store) {
    forall i, p: PageId :: 0 <= i < |es| && OnPage(es[i], p) ==> p in v.live + Granted(es, Winners(es), |es|)
  }

  /** Physical pages are never missing: every logged allocation names one that exists. */
  lemma {:induction false} CountStays(es: seq<Entry>, won: set<nat>, count: nat, n: nat)
    requires n <= |es| && forall i :: 0 <= i < |es| && es[i].action.AllocatePage? ==> es[i].action.page < count
    ensures CountAfter(count, es, won, n) == count
  {
    if n > 0 { CountStays(es, won, count, n - 1); }
  }

  lemma RedoReady(base: map<PageId, Page>, es: seq<Entry>, v: Store, i: nat)
    requires Restorable(base, es, v) && i < |es|
    ensures Ready(v, es, Winners(es), i) <==>
      (es[i].tx in Winners(es) && es[i].action.WritePage? ==>
        es[i].action.mutation.page in v.live + Granted(es, Winners(es), |es|))
  {
    CountStays(es, Winners(es), v.count, i);
    GrantedUnion(es, Winners(es), i, |es|);
    if es[i].action.WritePage? { assert OnPage(es[i], es[i].action.mutation.page); }
  }

  lemma RecoverSucceeds(base: map<PageId, Page>, es: seq<Entry>, v: Store)
    requires Restorable(base, es, v)
    ensures Recover(v, es).Some? <==> AllUsable(es, v)
  {
    var won, n := Winners(es), |es|;
    RedoMeans(v, es, won, n);
    forall i: nat | i < n
      ensures Ready(v, es, won, i) <==>
        (es[i].tx in won && es[i].action.WritePage? ==> es[i].action.mutation.page in v.live + Granted(es, won, n))
    {
      RedoReady(base, es, v, i);
    }
    if AllUsable(es, v) {
      forall i: nat | i < n && es[i].action.WritePage? ensures OnPage(es[i], es[i].action.mutation.page) {}
    } else {
      var i, p: PageId :| 0 <= i < n && OnPage(es[i], p) && p !in v.live + Granted(es, won, n);
      if es[i].tx in won { assert !Ready(v, es, won, i); } else { assert p in Affected(es, won); }
    }
  }

  /** From any store fit for it, recovery ends in the same pages. */
  lemma RecoverPages(base: map<PageId, Page>, es: seq<Entry>, v: Store)
    requires Restorable(base, es, v) && Recover(v, es).Some?
    ensures var t := Recover(v, es).value;
      && t.pages.Keys == base.Keys && t.count == v.count
      && t.live == (v.live + Granted(es, Winners(es), |es|)) - Revoked(es, Winners(es))
      && forall p :: p in t.pages ==>
        t.pages[p] == Page(Truth(base[p].data, es, p, |es|), SurvivorLsn(es, Winners(es), p))
  {
    var won, n := Winners(es), |es|;
    RedoMeans(v, es, won, n);
    var u := Redo(v, es, won, n).value;
    CountStays(es, won, v.count, n);
    forall p | p in base
      ensures (if p in Affected(es, won) then Rebuilt(es, won, p) else u.pages[p]) ==
        Page(Truth(base[p].data, es, p, n), SurvivorLsn(es, won, p))
    {
      PageAfter(base, es, v, u, p);
    }
  }

  lemma PageAfter(base: map<PageId, Page>, es: seq<Entry>, v: Store, u: Store, p: PageId)
    requires Restorable(base, es, v) && Replayed(v, es, Winners(es), |es|, u) && p in base && p in u.pages
    ensures (if p in Affected(es, Winners(es)) then Rebuilt(es, Winners(es), p) else u.pages[p])
            == Page(Truth(base[p].data, es, p, |es|), SurvivorLsn(es, Winners(es), p))
  {
    assert FaithfulOn(base[p], es, p) && PageFit(base[p], es, p, v.pages[p]);
    if p in Affected(es, Winners(es)) {
      RebuiltPage(base[p], es, p);
    } else {
      ReplayedPage(base[p], es, p, v.pages[p]);
    }
  }

  // ---- Crashes of runs ----------------------------------------------------------------

  lemma SurvivingVersion(s: Sys, n: nat, p: PageId)
    requires Inv(s) && Survives(s, n) && p in s.base
    ensures IsVersion(s.base[p], s.log[..n], p, n, s.disk[p])
  {
    assert Stale(s, p);
    if s.disk[p] != s.base[p] {
      var k :| 0 <= k < s.durable && OnPage(s.log[k], p)
        && s.disk[p] == Page(s.log[k].action.mutation.after, s.log[k].lsn);
      assert s.log[..n][k] == s.log[k];
    }
  }

  /** A page is allocated once, before it is first changed. */
  lemma GrantComesFirst(s: Sys, n: nat, i: nat, p: PageId)
    requires Inv(s) && Survives(s, n) && i < n && OnPage(s.log[i], p)
    ensures var es := s.log[..n]; p in Granted(es, Winners(es), n) ==> p in Granted(es, Winners(es), i)
  {
    var es, won := s.log[..n], Winners(s.log[..n]);
    if p in Granted(es, won, n) {
      var j :| 0 <= j < n && WinsAllocation(es[j], won) && es[j].action.page == p;
      assert Allocates(s.log[j], p) && p !in s.initial;
      assert GrantedBefore(s.log, p, i);
      var k :| 0 <= k < i && Allocates(s.log[k], p);
      assert j == k;
    }
  }

  /** What an interrupted recovery leaves: pages at any version or rebuilt, some of the allocation changes made. */
  ghost predicate LeftBehind(s: Sys, n: nat, v: Store)
    requires n <= |s.log|
  {
    var es, won := s.log[..n], Winners(s.log[..n]);
    && v.count == s.count && v.pages.Keys == s.base.Keys
    && (forall p :: p in s.base ==> PageFit(s.base[p], es, p, v.pages[p]))
    && s.live - Revoked(es, won) <= v.live <= s.live + Granted(es, won, n)
  }

  lemma CrashLeaves(s: Sys, n: nat)
    requires Inv(s) && Survives(s, n)
    ensures LeftBehind(s, n, Crashed(s))
  {
    forall p | p in s.base ensures PageFit(s.base[p], s.log[..n], p, s.disk[p]) { SurvivingVersion(s, n, p); }
  }

  lemma GrantedExist(s: Sys, n: nat)
    requires Inv(s) && Survives(s, n)
    ensures Granted(s.log[..n], Winners(s.log[..n]), n) <= s.base.Keys
  {
  }

  lemma LeftRestorable(s: Sys, n: nat, v: Store)
    requires Inv(s) && Survives(s, n) && LeftBehind(s, n, v)
    ensures Restorable(s.base, s.log[..n], v)
  {
    var es := s.log[..n];
    LawfulPrefix(s.base, s.log, n);
    GrantedExist(s, n);
    forall i, p: PageId | 0 <= i < n && OnPage(es[i], p) && p in Granted(es, Winners(es), n)
      ensures p in v.live + Granted(es, Winners(es), i)
    {
      GrantComesFirst(s, n, i, p);
    }
  }

  lemma LiveIsGranted(s: Sys, n: nat, p: PageId)
    requires Inv(s) && Survives(s, n) && p in s.live && p !in s.initial
    ensures var es := s.log[..n]; p in Granted(es, Winners(es), n) + Revoked(es, Winners(es))
  {
    var es := s.log[..n];
    assert GrantStands(s, p);
    var k :| 0 <= k < s.durable && Allocates(s.log[k], p);
    assert es[k] == s.log[k];
  }

  lemma GrantedNotRevoked(s: Sys, n: nat)
    requires Catalogued(s) && n <= |s.log|
    ensures var es := s.log[..n];
      Granted(es, Winners(es), n) !! Revoked(es, Winners(es)) && s.initial !! Revoked(es, Winners(es))
  {
    var es, won := s.log[..n], Winners(s.log[..n]);
    forall i | 0 <= i < n && es[i].action.AllocatePage? ensures Allocates(s.log[i], es[i].action.page) {}
    forall p | p in Granted(es, won, n) ensures p !in Revoked(es, won) {
      var i :| 0 <= i < n && WinsAllocation(es[i], won) && es[i].action.page == p;
    }
  }

  lemma LiveAfter(s: Sys, n: nat, v: Store)
    requires Inv(s) && Survives(s, n) && LeftBehind(s, n, v)
    ensures var es := s.log[..n]; var won := Winners(es);
      (v.live + Granted(es, won, n)) - Revoked(es, won) == s.initial + Granted(es, won, n)
  {
    var es, won := s.log[..n], Winners(s.log[..n]);
    GrantedNotRevoked(s, n);
    forall p | p in s.live && p !in s.initial ensures p in Granted(es, won, n) + Revoked(es, won) {
      LiveIsGranted(s, n, p);
    }
  }

  /**
   * The recovered store: the committed content and newest committed LSN of every page, and the pages allocated by
   * winners.
   */
  ghost predicate IsRecovered(s: Sys, n: nat, t: Store)
    requires n <= |s.log|
  {
    var es, won := s.log[..n], Winners(s.log[..n]);
    && t.pages.Keys == s.base.Keys && t.count == s.count && t.live == s.initial + Granted(es, won, n)
    && forall p :: p in t.pages ==> t.pages[p] == Page(Truth(s.base[p].data, es, p, n), SurvivorLsn(es, won, p))
  }

  /**
   * Crash recovery is exact: whatever the crash or an earlier, interrupted recovery left, recovery either ends in the
   * one recovered store or finds a page it needs unallocated.
   */
  lemma RecoveryIsExact(s: Sys, n: nat, v: Store)
    requires Inv(s) && Survives(s, n) && LeftBehind(s, n, v)
    ensures Recover(v, s.log[..n]).Some? <==> AllUsable(s.log[..n], v)
    ensures Recover(v, s.log[..n]).Some? ==> IsRecovered(s, n, Recover(v, s.log[..n]).value)
  {
    LeftRestorable(s, n, v);
    RecoverSucceeds(s.base, s.log[..n], v);
    if Recover(v, s.log[..n]).Some? {
      RecoverPages(s.base, s.log[..n], v);
      LiveAfter(s, n, v);
    }
  }
}
