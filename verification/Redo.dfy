/** REDO: committed records replayed in log order onto the page store, gated by the page LSN. */
module Redos {
  import opened StorageTypes
  import opened WalCodec
  import opened RecoveryAnalysis
  import opened PageManagers

  /** The page store as recovery sees it: page contents, the logically allocated pages, the physical page count. */
  datatype Store = Store(pages: map<PageId, Page>, live: set<PageId>, count: nat)

  ghost predicate StoreOk(s: Store) {
    && (forall id: PageId :: id in s.pages <==> id < s.count)
    && s.live <= s.pages.Keys && s.count <= CATALOG_BITS
  }

  /** Strictly increasing, nonzero LSNs, as a scanned log has them. */
  ghost predicate Ascending(es: seq<Entry>) {
    && (forall i :: 0 <= i < |es| ==> es[i].lsn > 0)
    && forall i, j :: 0 <= i < j < |es| ==> es[i].lsn < es[j].lsn
  }

  /** As in a scanned log, except that Abort entries of LSN zero may stand anywhere. */
  ghost predicate Ordered(es: seq<Entry>) {
    && (forall i :: 0 <= i < |es| && es[i].lsn == 0 ==> es[i].action.AbortTx?)
    && forall i, j :: 0 <= i < j < |es| && es[j].lsn != 0 ==> es[i].lsn < es[j].lsn
  }

  predicate Sized(m: PhysicalMutation) {
    m.page != INVALID && |m.before| == PAYLOAD_SIZE && |m.after| == PAYLOAD_SIZE
  }

  function RedoAllocate(s: Store, id: PageId): Option<Store> {
    if id == INVALID || id > s.count then None
    else if id < s.count then Some(Store(s.pages, s.live + {id}, s.count))
    else if s.count >= CATALOG_BITS then None
    else Some(Store(s.pages[id := NEW_PAGE], s.live + {id}, s.count + 1))
  }

  function RedoMutation(s: Store, lsn: nat, m: PhysicalMutation): Option<Store> {
    if lsn == 0 || !Sized(m) || m.page !in s.live || m.page !in s.pages then None
    else if s.pages[m.page].lsn >= lsn then Some(s)
    else Some(Store(s.pages[m.page := Page(m.after, lsn)], s.live, s.count))
  }

  function RedoEntry(s: Store, e: Entry, won: set<nat>): Option<Store> {
    if e.tx !in won then Some(s)
    else match e.action
      case AllocatePage(id) => RedoAllocate(s, id)
      case WritePage(m) => RedoMutation(s, e.lsn, m)
      case _ => Some(s)
  }

  /** The store after the first n records, or None where replay throws. */
  function Redo(s: Store, es: seq<Entry>, won: set<nat>, n: nat): Option<Store>
    requires n <= |es|
  {
    if n == 0 then Some(s)
    else
      match Redo(s, es, won, n - 1)
      case None => None
      case Some(t) => RedoEntry(t, es[n - 1], won)
  }

  /** A committed change of page p. */
  predicate WinsOn(e: Entry, won: set<nat>, p: PageId) {
    e.tx in won && e.action.WritePage? && e.action.mutation.page == p
  }

  predicate WinsAllocation(e: Entry, won: set<nat>) {
    e.tx in won && e.action.AllocatePage?
  }

  /** The last committed change of p among the first n records. */
  function LastWin(es: seq<Entry>, won: set<nat>, p: PageId, n: nat): (k: int)
    requires n <= |es|
    ensures -1 <= k < n && (k >= 0 ==> WinsOn(es[k], won, p))
    ensures forall j :: k < j < n ==> !WinsOn(es[j], won, p)
  {
    if n == 0 then -1 else if WinsOn(es[n - 1], won, p) then n - 1 else LastWin(es, won, p, n - 1)
  }

  /** What REDO should make of a page: the last committed after-image, unless the page is already that recent. */
  function Newest(x: Page, es: seq<Entry>, won: set<nat>, p: PageId, n: nat): Page
    requires n <= |es|
  {
    var k := LastWin(es, won, p, n);
    if k >= 0 && x.lsn < es[k].lsn then Page(es[k].action.mutation.after, es[k].lsn) else x
  }

  /** The page before REDO; a page REDO has to create starts zeroed. */
  function Start(s: Store, p: PageId): Page {
    if p in s.pages then s.pages[p] else NEW_PAGE
  }

  ghost function Granted(es: seq<Entry>, won: set<nat>, n: nat): set<PageId>
    requires n <= |es|
  {
    set i | 0 <= i < n && WinsAllocation(es[i], won) :: es[i].action.page
  }

  /** The physical page count after n records. */
  function CountAfter(count: nat, es: seq<Entry>, won: set<nat>, n: nat): (c: nat)
    requires n <= |es|
    ensures c >= count
  {
    if n == 0 then count
    else
      var c := CountAfter(count, es, won, n - 1);
      var e := es[n - 1];
      if WinsAllocation(e, won) && e.action.page >= c then e.action.page + 1 else c
  }

  /** Record i finds what it needs: its page allocated, or an allocation that leaves no gap. */
  ghost predicate Ready(s: Store, es: seq<Entry>, won: set<nat>, i: nat)
    requires i < |es|
  {
    && (WinsAllocation(es[i], won) ==>
    es[i].action.page < CATALOG_BITS && es[i].action.page <= CountAfter(s.count, es, won, i))
    && (es[i].tx in won && es[i].action.WritePage? ==>
          Sized(es[i].action.mutation) && es[i].action.mutation.page in s.live + Granted(es, won, i))
  }

  lemma GrantedGrows(es: seq<Entry>, won: set<nat>, n: nat)
    requires 0 < n <= |es|
    ensures Granted(es, won, n) ==
      Granted(es, won, n - 1) + (if WinsAllocation(es[n - 1], won) then {es[n - 1].action.page} else {})
  {
  }

  /** What holds of the store after n records of a successful replay. */
  ghost predicate Replayed(s: Store, es: seq<Entry>, won: set<nat>, n: nat, t: Store)
    requires n <= |es|
  {
    && StoreOk(t) && t.live == s.live + Granted(es, won, n) && t.count == CountAfter(s.count, es, won, n)
    && (forall p: PageId :: p in t.pages ==> t.pages[p] == Newest(Start(s, p), es, won, p, n))
  }

  lemma NewestStep(x: Page, es: seq<Entry>, won: set<nat>, p: PageId, n: nat)
    requires 0 < n <= |es| && Ordered(es)
    ensures var y := Newest(x, es, won, p, n - 1);
            Newest(x, es, won, p, n) ==
            if WinsOn(es[n - 1], won, p) && y.lsn < es[n - 1].lsn
              then Page(es[n - 1].action.mutation.after, es[n - 1].lsn) else y
  {
  }

  /** A record replays exactly when it is ready. */
  lemma EntryReady(s: Store, es: seq<Entry>, won: set<nat>, i: nat, t: Store)
    requires Ordered(es) && i < |es| && Replayed(s, es, won, i, t)
    ensures RedoEntry(t, es[i], won).Some? <==> Ready(s, es, won, i)
  {
  }

  lemma EntryCatalog(s: Store, es: seq<Entry>, won: set<nat>, i: nat, t: Store)
    requires i < |es| && Replayed(s, es, won, i, t) && RedoEntry(t, es[i], won).Some?
    ensures var u := RedoEntry(t, es[i], won).value;
      StoreOk(u) && u.live == s.live + Granted(es, won, i + 1) && u.count == CountAfter(s.count, es, won, i + 1)
  {
    GrantedGrows(es, won, i + 1);
  }

  /** A page with a committed change among the first n records exists after they are replayed. */
  lemma ChangedExists(s: Store, es: seq<Entry>, won: set<nat>, n: nat, t: Store, j: nat)
    requires j < n <= |es| && Replayed(s, es, won, n, t) && Ready(s, es, won, j)
    ensures forall p :: WinsOn(es[j], won, p) ==> p in t.pages
  {
  }

  /** What replaying one record does to one page. */
  lemma EntryEffect(t: Store, e: Entry, won: set<nat>, p: PageId)
    requires StoreOk(t) && RedoEntry(t, e, won).Some? && p in RedoEntry(t, e, won).value.pages
    ensures var y := RedoEntry(t, e, won).value.pages[p];
      if p !in t.pages then y == NEW_PAGE && !WinsOn(e, won, p)
      else y == if WinsOn(e, won, p) && t.pages[p].lsn < e.lsn then Page(e.action.mutation.after, e.lsn) else t.pages[p]
  {
  }

  lemma NothingYet(s: Store, es: seq<Entry>, won: set<nat>, n: nat, t: Store, p: PageId)
    requires n <= |es| && Replayed(s, es, won, n, t) && p !in t.pages
    requires forall j: nat :: j < n ==> Ready(s, es, won, j)
    ensures LastWin(es, won, p, n) == -1
  {
    var k := LastWin(es, won, p, n);
    if k >= 0 { ChangedExists(s, es, won, n, t, k); }
  }

  lemma EntryPage(s: Store, es: seq<Entry>, won: set<nat>, i: nat, t: Store, p: PageId)
    requires StoreOk(s) && Ordered(es) && i < |es| && Replayed(s, es, won, i, t) && RedoEntry(t, es[i], won).Some?
    requires forall j: nat :: j < i ==> Ready(s, es, won, j)
    requires p in RedoEntry(t, es[i], won).value.pages
    ensures RedoEntry(t, es[i], won).value.pages[p] == Newest(Start(s, p), es, won, p, i + 1)
  {
    EntryEffect(t, es[i], won, p);
    if p in t.pages {
      NewestStep(Start(s, p), es, won, p, i + 1);
    } else {
      NothingYet(s, es, won, i, t, p);
    }
  }

  /** Replay succeeds on n records exactly when each of them is ready, and then does what it should to every page. */
  lemma {:induction false} RedoMeans(s: Store, es: seq<Entry>, won: set<nat>, n: nat)
    requires StoreOk(s) && Ordered(es) && n <= |es|
    ensures Redo(s, es, won, n).Some? <==> forall i: nat :: i < n ==> Ready(s, es, won, i)
    ensures Redo(s, es, won, n).Some? ==> Replayed(s, es, won, n, Redo(s, es, won, n).value)
  {
    if n > 0 {
      var i := n - 1;
      RedoMeans(s, es, won, i);
      if Redo(s, es, won, i).Some? {
        var t := Redo(s, es, won, i).value;
        EntryReady(s, es, won, i, t);
        if Ready(s, es, won, i) {
          EntryCatalog(s, es, won, i, t);
          forall p | p in RedoEntry(t, es[i], won).value.pages
            ensures RedoEntry(t, es[i], won).value.pages[p] == Newest(Start(s, p), es, won, p, n)
          {
            EntryPage(s, es, won, i, t, p);
          }
        }
      }
    } else {
      assert Granted(es, won, 0) == {};
    }
  }

  /** Replaying a page that was already replayed up to any point gives the same page. */
  lemma NewestTwice(x: Page, es: seq<Entry>, won: set<nat>, p: PageId, j: nat, n: nat)
    requires Ordered(es) && j <= |es| && n <= |es|
    ensures Newest(Newest(x, es, won, p, j), es, won, p, n) == Newest(x, es, won, p, if j < n then n else j)
  {
    var a, b := LastWin(es, won, p, j), LastWin(es, won, p, n);
    if j < n {
      assert a <= b;
    } else {
      assert b <= a;
    }
  }

  /**
   * A state a run of REDO from s may have left behind when it was cut short: the catalog as after some k records, and
   * every page, independently of the others, at any version the run gives it.
   */
  ghost predicate Interrupted(s: Store, es: seq<Entry>, won: set<nat>, v: Store, k: nat) {
    && k <= |es| && StoreOk(v)
    && v.live == s.live + Granted(es, won, k) && v.count == CountAfter(s.count, es, won, k)
    && forall p: PageId :: p in v.pages ==> AtVersion(Start(s, p), es, won, p, v.pages[p])
  }

  ghost predicate AtVersion(x: Page, es: seq<Entry>, won: set<nat>, p: PageId, y: Page) {
    exists j: nat :: j <= |es| && y == Newest(x, es, won, p, j)
  }

  lemma {:induction false} CountCovers(count: nat, es: seq<Entry>, won: set<nat>, i: nat, n: nat)
    requires i < n <= |es| && WinsAllocation(es[i], won)
    ensures es[i].action.page < CountAfter(count, es, won, n)
    decreases n
  {
    if i < n - 1 { CountCovers(count, es, won, i, n - 1); }
  }

  lemma {:induction false} CountTwice(count: nat, es: seq<Entry>, won: set<nat>, k: nat, n: nat)
    requires k <= |es| && n <= |es|
    ensures CountAfter(CountAfter(count, es, won, k), es, won, n) == CountAfter(count, es, won, if k < n then n else k)
    decreases n
  {
    if n > 0 {
      CountTwice(count, es, won, k, n - 1);
      if n <= k && WinsAllocation(es[n - 1], won) { CountCovers(count, es, won, n - 1, k); }
    }
  }

  lemma {:induction false} CountGrows(count: nat, es: seq<Entry>, won: set<nat>, k: nat, n: nat)
    requires k <= n <= |es|
    ensures CountAfter(count, es, won, k) <= CountAfter(count, es, won, n)
    decreases n
  {
    if k < n { CountGrows(count, es, won, k, n - 1); }
  }

  /** Every record is as ready for the rerun as it was for the first run. */
  lemma StillReady(s: Store, es: seq<Entry>, won: set<nat>, v: Store, k: nat, i: nat)
    requires Interrupted(s, es, won, v, k) && i < |es| && Ready(s, es, won, i)
    ensures Ready(v, es, won, i)
  {
    CountTwice(s.count, es, won, k, i);
    CountGrows(s.count, es, won, i, if k < i then i else k);
  }

  /** REDO is restartable: from whatever an interrupted run left, a full run ends in the same store. */
  lemma RedoRestarts(s: Store, es: seq<Entry>, won: set<nat>, v: Store, k: nat)
    requires StoreOk(s) && Ordered(es) && Redo(s, es, won, |es|).Some?
    requires Interrupted(s, es, won, v, k)
    ensures Redo(v, es, won, |es|) == Redo(s, es, won, |es|)
  {
    var n := |es|;
    RedoMeans(s, es, won, n);
    forall i: nat | i < n ensures Ready(v, es, won, i) {
      StillReady(s, es, won, v, k, i);
    }
    RedoMeans(v, es, won, n);
    var t, u := Redo(s, es, won, n).value, Redo(v, es, won, n).value;
    GrantedUnion(es, won, k, n);
    CountTwice(s.count, es, won, k, n);
    assert t.live == u.live && t.count == u.count;
    forall p | p in t.pages ensures u.pages[p] == t.pages[p] {
      SameStart(s, es, won, v, k, p);
    }
    assert t.pages == u.pages;
  }

  lemma SameStart(s: Store, es: seq<Entry>, won: set<nat>, v: Store, k: nat, p: PageId)
    requires StoreOk(s) && Ordered(es) && Interrupted(s, es, won, v, k)
    ensures Newest(Start(v, p), es, won, p, |es|) == Newest(Start(s, p), es, won, p, |es|)
  {
    if p in v.pages {
      var j: nat :| j <= |es| && v.pages[p] == Newest(Start(s, p), es, won, p, j);
      NewestTwice(Start(s, p), es, won, p, j, |es|);
    }
  }

  lemma GrantedUnion(es: seq<Entry>, won: set<nat>, k: nat, m: nat)
    requires k <= |es| && m <= |es|
    ensures Granted(es, won, k) + Granted(es, won, m) == Granted(es, won, if k < m then m else k)
  {
  }

  /** Rerunning REDO and interrupting it again leaves a state that the first run could have left. */
  lemma InterruptedAgain(s: Store, es: seq<Entry>, won: set<nat>, v: Store, k: nat, w: Store, m: nat)
    requires StoreOk(s) && Ordered(es) && Interrupted(s, es, won, v, k) && Interrupted(v, es, won, w, m)
    ensures Interrupted(s, es, won, w, if k < m then m else k)
  {
    CountTwice(s.count, es, won, k, m);
    GrantedUnion(es, won, k, m);
    forall p: PageId | p in w.pages ensures AtVersion(Start(s, p), es, won, p, w.pages[p]) {
      VersionTwice(s, es, won, v, k, w, m, p);
    }
  }

  lemma VersionTwice(s: Store, es: seq<Entry>, won: set<nat>, v: Store, k: nat, w: Store, m: nat, p: PageId)
    requires StoreOk(s) && Ordered(es) && Interrupted(s, es, won, v, k) && Interrupted(v, es, won, w, m) && p in w.pages
    ensures AtVersion(Start(s, p), es, won, p, w.pages[p])
  {
    assert AtVersion(Start(v, p), es, won, p, w.pages[p]);
    var j: nat :| j <= |es| && w.pages[p] == Newest(Start(v, p), es, won, p, j);
    if p in v.pages {
      var i: nat :| i <= |es| && v.pages[p] == Newest(Start(s, p), es, won, p, i);
      NewestTwice(Start(s, p), es, won, p, i, j);
      assert w.pages[p] == Newest(Start(s, p), es, won, p, if i < j then j else i);
    } else {
      assert w.pages[p] == Newest(Start(s, p), es, won, p, j);
    }
  }
}
