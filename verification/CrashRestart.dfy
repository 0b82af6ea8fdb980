/** A crash, recovery and a new start keep the invariant too, so that runs may have any number of lifetimes. */
module CrashRestarts {
  import opened StorageTypes
  import opened WalCodec
  import opened PageManagers
  import opened RecoveryAnalysis
  import opened Redos
  import opened Undos
  import opened RecoveryHistory
  import opened CrashRuns
  import opened CrashRecovery
  import opened CrashSteps

  // ---- The ends of the transactions that were cut off ---------------------------------

  ghost predicate IsMark(e: Entry) {
    e.lsn == 0 && e.action.AbortTx?
  }

  /** Every mark ends a transaction of the log that had no end. */
  lemma {:induction false} LostIs(es: seq<Entry>, n: nat, i: nat) returns (j: nat)
    requires n <= |es| && i < |Lost(es, n)|
    ensures var e := Lost(es, n)[i]; IsMark(e) && !EndedBy(es, e.tx, |es|) && j < n && es[j].tx == e.tx
  {
    if i < |Lost(es, n - 1)| {
      j := LostIs(es, n - 1, i);
    } else {
      j := n - 1;
    }
  }

  /** No transaction gets two marks. */
  lemma {:induction false} LostOnce(es: seq<Entry>, n: nat, a: nat, b: nat)
    requires n <= |es| && a < b < |Lost(es, n)|
    ensures Lost(es, n)[a].tx != Lost(es, n)[b].tx
  {
    if b < |Lost(es, n - 1)| {
      LostOnce(es, n - 1, a, b);
    } else {
      var j := LostIs(es, n - 1, a);
    }
  }

  /** Every transaction without an end gets a mark. */
  lemma {:induction false} LostCovers(es: seq<Entry>, n: nat, j: nat) returns (i: nat)
    requires j < n <= |es| && !EndedBy(es, es[j].tx, |es|)
    ensures i < |Lost(es, n)| && Lost(es, n)[i].tx == es[j].tx
  {
    var tx := es[n - 1].tx;
    if j < n - 1 {
      i := LostCovers(es, n - 1, j);
    } else if k: nat :| k < n - 1 && es[k].tx == tx {
      i := LostCovers(es, n - 1, k);
    } else {
      i := |Lost(es, n - 1)|;
    }
  }

  /** What the closed history is made of. */
  ghost predicate Closes(es: seq<Entry>, all: seq<Entry>) {
    && |es| <= |all| && all[..|es|] == es
    && (forall i :: |es| <= i < |all| ==>
    IsMark(all[i]) && !EndedBy(es, all[i].tx, |es|) && exists j :: 0 <= j < |es| && es[j].tx == all[i].tx)
    && (forall i, j :: |es| <= i < j < |all| ==> all[i].tx != all[j].tx)
    && forall j :: 0 <= j < |all| ==> EndedBy(all, all[j].tx, |all|)
  }

  lemma ClosedCloses(es: seq<Entry>)
    ensures Closes(es, Closed(es))
  {
    var all, marks, n := Closed(es), Lost(es, |es|), |es|;
    forall i | n <= i < |all|
      ensures IsMark(all[i]) && !EndedBy(es, all[i].tx, n) && exists j :: 0 <= j < n && es[j].tx == all[i].tx
    {
      var j := LostIs(es, n, i - n);
      assert all[i] == marks[i - n];
    }
    forall i, j | n <= i < j < |all| ensures all[i].tx != all[j].tx { LostOnce(es, n, i - n, j - n); }
    forall j | 0 <= j < |all| ensures EndedBy(all, all[j].tx, |all|) { ClosedEnds(es, j); }
  }

  lemma ClosedEnds(es: seq<Entry>, j: nat)
    requires j < |Closed(es)|
    ensures EndedBy(Closed(es), Closed(es)[j].tx, |Closed(es)|)
  {
    var all, n := Closed(es), |es|;
    if j >= n {
      var k := LostIs(es, n, j - n);
      assert Ends(all[j], all[j].tx);
    } else if EndedBy(es, es[j].tx, n) {
      var i :| 0 <= i < n && Ends(es[i], es[j].tx);
      assert all[i] == es[i];
    } else {
      var i := LostCovers(es, n, j);
      var k := LostIs(es, n, i);
      assert Ends(all[n + i], all[j].tx);
    }
  }

  lemma EndedSame(es: seq<Entry>, all: seq<Entry>, tx: nat, k: nat)
    requires |es| <= |all| && all[..|es|] == es && k <= |es|
    ensures EndedBy(all, tx, k) <==> EndedBy(es, tx, k)
  {
    forall i | 0 <= i < k ensures all[i] == es[i] { assert all[..|es|][i] == all[i]; }
  }

  // ---- The history stays lawful --------------------------------------------------------

  lemma ClosedEndsLast(es: seq<Entry>, all: seq<Entry>)
    requires Closes(es, all) && EndsLast(es)
    ensures EndsLast(all)
  {
    forall i, j | 0 <= i < j < |all| ensures !Ends(all[i], all[j].tx) {
      assert i < |es| ==> all[i] == es[i];
      assert j < |es| ==> all[j] == es[j];
    }
  }

  lemma ClosedExclusive(es: seq<Entry>, all: seq<Entry>)
    requires Closes(es, all) && Exclusive(es)
    ensures Exclusive(all)
  {
    forall i, j, p | 0 <= i < j < |all| && OnPage(all[i], p) && OnPage(all[j], p) && all[i].tx != all[j].tx
      ensures EndedBy(all, all[i].tx, j)
    {
      assert j < |es| && all[i] == es[i] && all[j] == es[j];
      EndedSame(es, all, es[i].tx, j);
    }
  }

  lemma ClosedFaithful(base: map<PageId, Page>, es: seq<Entry>, all: seq<Entry>)
    requires Closes(es, all) && Faithful(base, es)
    ensures Faithful(base, all)
  {
    forall i, p | 0 <= i < |all| && OnPage(all[i], p)
      ensures p in base && all[i].action.mutation.before == Seen(base[p], all, p, i).data
    {
      assert i < |es| && all[i] == es[i];
      SeenPrefix(base[p], all, |es|, p, i);
    }
  }

  lemma ClosedLogs(s: Sys, n: nat)
    requires Inv(s) && Survives(s, n)
    ensures var all := Closed(s.log[..n]); Ordered(all) && AllSized(all) && AllPlain(all) && Lawful(s.base, all)
  {
    var es := s.log[..n];
    var all := Closed(es);
    ClosedCloses(es);
    LawfulPrefix(s.base, s.log, n);
    ClosedEndsLast(es, all);
    ClosedExclusive(es, all);
    ClosedFaithful(s.base, es, all);
    forall i | 0 <= i < n ensures all[i] == s.log[i] {}
  }

  // ---- The classes and winners stay ----------------------------------------------------

  lemma ClosedWinners(es: seq<Entry>, all: seq<Entry>)
    requires Closes(es, all)
    ensures Winners(all) == Winners(es)
  {
    forall tx | tx in Winners(es) ensures tx in Winners(all) {
      var i :| 0 <= i < |es| && es[i].action.CommitTx? && es[i].tx == tx;
      assert all[i] == es[i];
    }
    forall tx | tx in Winners(all) ensures tx in Winners(es) {
      var i :| 0 <= i < |all| && all[i].action.CommitTx? && all[i].tx == tx;
      assert all[i] == es[i];
    }
  }

  /** Marks change no page. */
  lemma ClosedLastWin(es: seq<Entry>, all: seq<Entry>, won: set<nat>, p: PageId)
    requires Closes(es, all)
    ensures LastWin(all, won, p, |all|) == LastWin(es, won, p, |es|)
  {
    var k, l := LastWin(es, won, p, |es|), LastWin(all, won, p, |all|);
    forall i | 0 <= i < |es| ensures all[i] == es[i] {}
  }

  // ---- The state after the restart -----------------------------------------------------

  /** Once everybody has an end, a page shows its committed content and the LSN of its last committed change. */
  lemma ClosedShows(base: Page, es: seq<Entry>, all: seq<Entry>, p: PageId)
    requires Closes(es, all) && base.lsn == 0 && EndsLast(es) && Exclusive(es) && AllSized(es)
      && FaithfulOn(base, es, p)
    requires EndsLast(all) && Exclusive(all) && AllSized(all) && FaithfulOn(base, all, p)
    ensures Seen(base, all, p, |all|) == Page(Truth(base.data, es, p, |es|), SurvivorLsn(es, Winners(es), p))
      && !Held(all, p, |all|)
  {
    ClosedWinners(es, all);
    ClosedLastWin(es, all, Winners(es), p);
    PatchedIsTruth(base, es, p);
    EndedShowsWinner(base, all, p);
  }

  lemma RestartShows(s: Sys, n: nat, t: Store, p: PageId)
    requires Inv(s) && Survives(s, n) && IsRecovered(s, n, t) && p in s.base
    ensures var all := Closed(s.log[..n]); t.pages[p] == Seen(s.base[p], all, p, |all|) && !Held(all, p, |all|)
  {
    var es := s.log[..n];
    var all := Closed(es);
    ClosedCloses(es);
    LawfulOn(s, n, p);
    ClosedShows(s.base[p], es, all, p);
  }

  /** Both the surviving entries and the closed history are lawful as far as page p goes. */
  lemma LawfulOn(s: Sys, n: nat, p: PageId)
    requires Inv(s) && Survives(s, n) && p in s.base
    ensures var es := s.log[..n]; EndsLast(es) && Exclusive(es) && AllSized(es) && FaithfulOn(s.base[p], es, p)
    ensures var all := Closed(s.log[..n]);
      EndsLast(all) && Exclusive(all) && AllSized(all) && FaithfulOn(s.base[p], all, p)
  {
    ClosedLogs(s, n);
    LawfulPrefix(s.base, s.log, n);
  }

  lemma RecoveredSized(s: Sys, n: nat, t: Store, p: PageId)
    requires Inv(s) && Survives(s, n) && IsRecovered(s, n, t) && p in s.base
    ensures |t.pages[p].data| == PAYLOAD_SIZE
  {
    var es := s.log[..n];
    LawfulPrefix(s.base, s.log, n);
    assert FaithfulOn(s.base[p], es, p);
    PatchedIsTruth(s.base[p], es, p);
  }

  lemma RestartStale(s: Sys, n: nat, p: PageId)
    requires Inv(s) && Survives(s, n) && p in s.base
    ensures var all := Closed(s.log[..n]); IsVersion(s.base[p], all, p, |all|, s.disk[p])
  {
    assert Stale(s, p);
    var all := Closed(s.log[..n]);
    if s.disk[p] != s.base[p] {
      var k :| 0 <= k < s.durable && OnPage(s.log[k], p)
        && s.disk[p] == Page(s.log[k].action.mutation.after, s.log[k].lsn);
      assert all[k] == s.log[k];
    }
  }

  // ---- The catalog after the restart ---------------------------------------------------

  lemma RestartQuitters(es: seq<Entry>, all: seq<Entry>)
    requires Closes(es, all)
    ensures forall j :: 0 <= j < |es| && es[j].tx !in Winners(es) ==> es[j].tx in Quitters(all)
  {
    forall j | 0 <= j < |es| && es[j].tx !in Winners(es) ensures es[j].tx in Quitters(all) {
      assert all[j] == es[j] && EndedBy(all, all[j].tx, |all|);
      var i :| 0 <= i < |all| && Ends(all[i], es[j].tx);
      assert i < |es| ==> all[i] == es[i];
      assert all[i].action.AbortTx?;
    }
  }

  /** A page that is live after recovery and was not initially has a durable grant by a winner. */
  lemma RestartGrants(s: Sys, n: nat, u: Sys, p: PageId)
    requires Inv(s) && Survives(s, n) && u.log == Closed(s.log[..n]) && u.durable == |u.log|
    requires p in Granted(s.log[..n], Winners(s.log[..n]), n)
    ensures GrantStands(u, p)
  {
    var es := s.log[..n];
    ClosedCloses(es);
    ClosedWinners(es, u.log);
    LawfulPrefix(s.base, s.log, n);
    ClosedEndsLast(es, u.log);
    WinnersJudge(u.log);
    var k :| 0 <= k < n && WinsAllocation(es[k], Winners(es)) && es[k].action.page == p;
    assert u.log[k] == es[k] && Allocates(u.log[k], p);
  }

  /** A changed page is still live, or the transaction that allocated it is over without having committed. */
  lemma RestartChanged(s: Sys, n: nat, all: seq<Entry>, live: set<PageId>, i: nat, p: PageId)
    requires Inv(s) && Survives(s, n) && all == Closed(s.log[..n]) && i < |all| && OnPage(all[i], p)
    requires live == s.initial + Granted(s.log[..n], Winners(s.log[..n]), n)
    ensures (p in s.initial || GrantedBefore(all, p, i)) && (p in live || Orphaned(all, p))
  {
    var es := s.log[..n];
    ClosedCloses(es);
    assert i < n && all[i] == s.log[i];
    if p !in s.initial {
      assert GrantedBefore(s.log, p, i);
      var k :| 0 <= k < i && Allocates(s.log[k], p);
      assert all[k] == es[k] == s.log[k];
      if es[k].tx !in Winners(es) { RestartQuitters(es, all); } else { assert WinsAllocation(es[k], Winners(es)); }
    }
  }

  /** Allocations name existing pages, each once. */
  lemma RestartAllocations(s: Sys, n: nat)
    requires Inv(s) && Survives(s, n)
    ensures var all := Closed(s.log[..n]);
      && (forall i :: 0 <= i < |all| && all[i].action.AllocatePage? ==>
      all[i].action.page < s.count && all[i].action.page !in s.initial)
      && forall i, j, p: PageId :: 0 <= i < j < |all| && Allocates(all[i], p) ==> !Allocates(all[j], p)
  {
    var all := Closed(s.log[..n]);
    ClosedCloses(s.log[..n]);
    forall i | 0 <= i < |all| && all[i].action.AllocatePage? ensures i < n && all[i] == s.log[i] {}
    forall i, j, p: PageId | 0 <= i < j < |all| && Allocates(all[i], p) ensures !Allocates(all[j], p) {
      assert Allocates(s.log[i], p);
    }
  }

  lemma RestartCatalogued(s: Sys, n: nat, u: Sys)
    requires Inv(s) && Survives(s, n) && u.log == Closed(s.log[..n]) && u.durable == |u.log| && u.count == s.count
      && u.initial == s.initial
    requires u.live == s.initial + Granted(s.log[..n], Winners(s.log[..n]), n)
    ensures Catalogued(u)
  {
    RestartAllocations(s, n);
    forall p: PageId | p in u.live && p !in u.initial ensures GrantStands(u, p) { RestartGrants(s, n, u, p); }
    forall i, p: PageId | 0 <= i < |u.log| && OnPage(u.log[i], p)
      ensures (p in u.initial || GrantedBefore(u.log, p, i)) && (p in u.live || Orphaned(u.log, p))
    {
      RestartChanged(s, n, u.log, u.live, i, p);
    }
  }

  /** A crash, recovery and a new start. */
  lemma KeepsRestart(s: Sys, n: nat)
    requires Inv(s) && Enabled(s, Restart(n))
    ensures Inv(Next(s, Restart(n)))
  {
    var u, t := Next(s, Restart(n)), Recover(Crashed(s), s.log[..n]).value;
    CrashLeaves(s, n);
    RecoveryIsExact(s, n, Crashed(s));
    ClosedLogs(s, n);
    GrantedExist(s, n);
    RestartCatalogued(s, n, u);
    forall p: PageId ensures Shows(u, p) && Stale(u, p) {
      if p in s.base {
        RestartShows(s, n, t, p);
        RecoveredSized(s, n, t, p);
        RestartStale(s, n, p);
      }
    }
  }

  lemma AnyStepKeeps(s: Sys, step: Step)
    requires Inv(s) && Enabled(s, step)
    ensures Inv(Next(s, step))
  {
    if step.Restart? { KeepsRestart(s, step.n); } else { StepKeeps(s, step); }
  }
}
