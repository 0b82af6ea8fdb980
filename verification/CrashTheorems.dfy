/** Crash recovery over every run. */
module CrashTheorems {
  import opened StorageTypes
  import opened WalCodec
  import opened PageManagers
  import opened RecoveryAnalysis
  import opened Redos
  import opened Undos
  import opened RecoveryHistory
  import opened CrashRuns
  import opened CrashRecovery
  import opened CrashRestarts
  import opened RealLogs

  /** An empty log over any set of unlogged pages. */
  ghost predicate Initial(s: Sys) {
    Stores(s) && s.log == [] && s.durable == 0 && s.mem == s.base && s.disk == s.base && s.undo == map[]
      && s.live == s.initial
  }

  ghost predicate IsRun(states: seq<Sys>, steps: seq<Step>) {
    && |states| == |steps| + 1 && Initial(states[0])
    && forall i :: 0 <= i < |steps| ==> Enabled(states[i], steps[i]) && states[i + 1] == Next(states[i], steps[i])
  }

  lemma InitialInv(s: Sys)
    requires Initial(s)
    ensures Inv(s)
  {
    forall p: PageId ensures Shows(s, p) && Stale(s, p) {}
  }

  lemma {:induction false} RunInv(states: seq<Sys>, steps: seq<Step>, n: nat)
    requires IsRun(states, steps) && n <= |steps|
    ensures Inv(states[n])
  {
    if n == 0 {
      InitialInv(states[0]);
    } else {
      RunInv(states, steps, n - 1);
      AnyStepKeeps(states[n - 1], steps[n - 1]);
    }
  }

  lemma RunGrows(states: seq<Sys>, steps: seq<Step>, step: Step, u: Sys)
    requires IsRun(states, steps) && Enabled(states[|steps|], step) && u == Next(states[|steps|], step)
    ensures IsRun(states + [u], steps + [step])
  {
    var all, more := states + [u], steps + [step];
    forall i | 0 <= i < |more| ensures Enabled(all[i], more[i]) && all[i + 1] == Next(all[i], more[i]) {
      if i < |steps| { assert Enabled(states[i], steps[i]); }
    }
  }

  /**
   * At any point of any run, whatever crashes and recoveries it has been through, and for any number of surviving log
   * records, recovery ends in the recovered store if and only if no page with a surviving change was allocated by a
   * transaction that had rolled back or been cut off by an earlier crash. It makes no difference that the log file
   * does not have the ends of the latter.
   */
  lemma CrashAnywhere(states: seq<Sys>, steps: seq<Step>, at: nat, n: nat)
    requires IsRun(states, steps) && at <= |steps| && Survives(states[at], n)
    ensures var s := states[at]; var r := Recover(Crashed(s), s.log[..n]);
      && (r.Some? <==> forall i: nat, p: PageId :: i < n && OnPage(s.log[i], p) ==> !Orphaned(s.log, p))
      && (r.Some? ==> IsRecovered(s, n, r.value))
      && r == Recover(Crashed(s), Real(s.log[..n]))
  {
    RunInv(states, steps, at);
    var s := states[at];
    CrashLeaves(s, n);
    RecoveryIsExact(s, n, Crashed(s));
    OrphansBlock(s, n);
    MarksDoNotMatter(Crashed(s), s.log[..n]);
  }

  /** What is durable at some point of a run stays in the log, and durable, through all later crashes and restarts. */
  lemma {:induction false} DurableStays(states: seq<Sys>, steps: seq<Step>, i: nat, k: nat)
    requires IsRun(states, steps) && i <= k <= |steps|
    ensures states[i].durable <= states[k].durable <= |states[k].log| && states[i].durable <= |states[i].log|
    ensures states[k].log[..states[i].durable] == states[i].log[..states[i].durable]
  {
    if i == k {
      DurableInLog(states, steps, k);
    } else {
      DurableStays(states, steps, i, k - 1);
      StepKeepsDurable(states[k - 1], steps[k - 1]);
      DurableInLog(states, steps, k);
      var d, e := states[i].durable, states[k - 1].durable;
      assert states[k].log[..d] == states[k].log[..e][..d] && states[k - 1].log[..d] == states[k - 1].log[..e][..d];
    }
  }

  lemma DurableInLog(states: seq<Sys>, steps: seq<Step>, k: nat)
    requires IsRun(states, steps) && k <= |steps|
    ensures states[k].durable <= |states[k].log|
  {
    RunInv(states, steps, k);
  }

  lemma StepKeepsDurable(s: Sys, step: Step)
    requires s.durable <= |s.log| && Enabled(s, step)
    ensures var u := Next(s, step);
      s.durable <= u.durable && s.durable <= |u.log| && u.log[..s.durable] == s.log[..s.durable]
  {
    if step.Restart? {
      var es := s.log[..step.n];
      assert Closed(es)[..s.durable] == es[..s.durable] == s.log[..s.durable];
    }
  }

  lemma OrphansBlock(s: Sys, n: nat)
    requires Inv(s) && Survives(s, n)
    ensures AllUsable(s.log[..n], Crashed(s)) <==>
      forall i: nat, p: PageId :: i < n && OnPage(s.log[i], p) ==> !Orphaned(s.log, p)
  {
    var es := s.log[..n];
    forall i: nat, p: PageId | i < n && OnPage(s.log[i], p)
      ensures p in s.live + Granted(es, Winners(es), n) <==> !Orphaned(s.log, p)
    {
      UsableUnlessOrphaned(s, n, i, p);
    }
    forall i | 0 <= i < n ensures es[i] == s.log[i] {}
  }

  lemma UsableUnlessOrphaned(s: Sys, n: nat, i: nat, p: PageId)
    requires Inv(s) && Survives(s, n) && i < n && OnPage(s.log[i], p)
    ensures var es := s.log[..n]; p in s.live + Granted(es, Winners(es), n) <==> !Orphaned(s.log, p)
  {
    if Orphaned(s.log, p) {
      var k :| 0 <= k < |s.log| && Allocates(s.log[k], p) && s.log[k].tx in Quitters(s.log);
      OnlyGrant(s, n, p, k);
    }
  }

  /** A page has one allocation only; if that transaction rolled back, nothing else makes the page usable. */
  lemma OnlyGrant(s: Sys, n: nat, p: PageId, k: nat)
    requires Inv(s) && Survives(s, n) && k < |s.log| && Allocates(s.log[k], p) && s.log[k].tx in Quitters(s.log)
    ensures p !in s.live && p !in Granted(s.log[..n], Winners(s.log[..n]), n)
  {
    var es := s.log[..n];
    WinnersOfPrefix(s.log, n);
    WinnersJudge(s.log);
    LiveGrant(s, p, k);
    forall i | 0 <= i < n && WinsAllocation(es[i], Winners(es)) ensures es[i].action.page != p {
      assert Allocates(s.log[i], es[i].action.page);
    }
  }

  lemma LiveGrant(s: Sys, p: PageId, k: nat)
    requires Catalogued(s) && k < |s.log| && Allocates(s.log[k], p)
    ensures p in s.live ==> s.log[k].tx !in Quitters(s.log)
  {
    if p in s.live {
      assert GrantStands(s, p);
      var j :| 0 <= j < s.durable && Allocates(s.log[j], p) && s.log[j].tx !in Quitters(s.log);
      assert j == k;
    }
  }

  lemma WinnersOfPrefix(es: seq<Entry>, n: nat)
    requires n <= |es|
    ensures Winners(es[..n]) <= Winners(es)
  {
    forall tx | tx in Winners(es[..n]) ensures tx in Winners(es) {
      var i :| 0 <= i < n && es[..n][i].action.CommitTx? && es[..n][i].tx == tx;
      assert es[i].tx == tx;
    }
  }

  /** No transaction that commits among entries i + 1 to n had changed p. */
  ghost predicate NoneCommitsOn(es: seq<Entry>, p: PageId, i: nat, n: nat)
    requires n <= |es|
  {
    forall j :: i < j < n && es[j].action.CommitTx? ==> LastBy(es, es[j].tx, p, j) < 0
  }

  lemma {:induction false} TruthAfterCommit(base: Bytes, es: seq<Entry>, p: PageId, i: nat, n: nat)
    requires i < n <= |es| && es[i].action.CommitTx? && LastBy(es, es[i].tx, p, i) >= 0 && NoneCommitsOn(es, p, i, n)
    ensures Truth(base, es, p, n) == es[LastBy(es, es[i].tx, p, i)].action.mutation.after
  {
    if i + 1 < n { TruthAfterCommit(base, es, p, i, n - 1); }
  }

  lemma {:induction false} LastByPrefix(es: seq<Entry>, m: nat, tx: nat, p: PageId, n: nat)
    requires n <= m <= |es|
    ensures LastBy(es[..m], tx, p, n) == LastBy(es, tx, p, n)
  {
    if n > 0 { LastByPrefix(es, m, tx, p, n - 1); }
  }

  /**
   * A commit whose record was flushed, however many lifetimes ago, is never lost: after any later crash, recovery
   * that succeeds leaves on every page the transaction's last image, unless a transaction that committed later had
   * changed the page too.
   */
  lemma DurableCommitStays(states: seq<Sys>, steps: seq<Step>, at: nat, n: nat, i: nat, p: PageId)
    requires IsRun(states, steps) && at <= |steps| && Survives(states[at], n)
    requires var s := states[at];
      && Recover(Crashed(s), s.log[..n]).Some? && i < s.durable && s.log[i].action.CommitTx?
      && LastBy(s.log, s.log[i].tx, p, i) >= 0 && NoneCommitsOn(s.log, p, i, n)
    ensures var s := states[at]; var t := Recover(Crashed(s), s.log[..n]).value;
      p in t.pages && t.pages[p].data == s.log[LastBy(s.log, s.log[i].tx, p, i)].action.mutation.after
  {
    var s := states[at];
    CrashAnywhere(states, steps, at, n);
    var es, k := s.log[..n], LastBy(s.log, s.log[i].tx, p, i);
    RunInv(states, steps, at);
    assert OnPage(s.log[k], p);
    LastByPrefix(s.log, n, s.log[i].tx, p, i);
    forall j | i < j < n && es[j].action.CommitTx? ensures LastBy(es, es[j].tx, p, j) < 0 {
      LastByPrefix(s.log, n, es[j].tx, p, j);
    }
    TruthAfterCommit(s.base[p].data, es, p, i, n);
  }

  /**
   * The same, from the point at which the commit became durable, through any number of crashes and restarts after it.
   */
  lemma CommitOutlivesRestarts(states: seq<Sys>, steps: seq<Step>, since: nat, at: nat, n: nat, i: nat, p: PageId)
    requires IsRun(states, steps) && since <= at <= |steps| && Survives(states[at], n)
    requires var o := states[since];
      i < o.durable <= |o.log| && o.log[i].action.CommitTx? && LastBy(o.log, o.log[i].tx, p, i) >= 0
    requires var s := states[at]; Recover(Crashed(s), s.log[..n]).Some? && NoneCommitsOn(s.log, p, i, n)
    ensures var o, s := states[since], states[at]; var t := Recover(Crashed(s), s.log[..n]).value;
      p in t.pages && t.pages[p].data == o.log[LastBy(o.log, o.log[i].tx, p, i)].action.mutation.after
  {
    var o, s := states[since], states[at];
    DurableStays(states, steps, since, at);
    var d := o.durable;
    assert s.log[..d][i] == s.log[i] && o.log[..d][i] == o.log[i];
    LastByPrefix(s.log, d, s.log[i].tx, p, i);
    LastByPrefix(o.log, d, o.log[i].tx, p, i);
    var k := LastBy(o.log, o.log[i].tx, p, i);
    assert s.log[..d][k] == s.log[k] && o.log[..d][k] == o.log[k];
    DurableCommitStays(states, steps, at, n, i, p);
  }

  /** A recovery that was interrupted before it released a page it needs can be run again, with the same outcome. */
  lemma RecoveryRestarts(states: seq<Sys>, steps: seq<Step>, at: nat, n: nat, v: Store)
    requires IsRun(states, steps) && at <= |steps| && Survives(states[at], n) && LeftBehind(states[at], n, v)
    requires AllUsable(states[at].log[..n], v)
    ensures var s := states[at];
      Recover(v, s.log[..n]).Some? && Recover(v, s.log[..n]) == Recover(Crashed(s), s.log[..n])
  {
    RunInv(states, steps, at);
    var s := states[at];
    var es := s.log[..n];
    RecoveryIsExact(s, n, v);
    CrashLeaves(s, n);
    StillUsable(s, n, v);
    RecoveryIsExact(s, n, Crashed(s));
    OneRecovered(s, n, Recover(v, es).value, Recover(Crashed(s), es).value);
  }

  lemma StillUsable(s: Sys, n: nat, v: Store)
    requires n <= |s.log| && LeftBehind(s, n, v) && AllUsable(s.log[..n], v)
    ensures AllUsable(s.log[..n], Crashed(s))
  {
    var es := s.log[..n];
    forall i, p: PageId | 0 <= i < n && OnPage(es[i], p) ensures p in s.live + Granted(es, Winners(es), n) {
      assert p in v.live + Granted(es, Winners(es), n);
    }
  }

  /** The pages of the recovered store that recovery would need again. */
  lemma UsableAgain(s: Sys, n: nat, t: Store)
    requires Inv(s) && Survives(s, n) && IsRecovered(s, n, t)
    ensures var es := s.log[..n];
      AllUsable(es, t) <==> forall i, p: PageId :: 0 <= i < n && OnPage(es[i], p) ==> p !in Revoked(es, Winners(es))
  {
    var es := s.log[..n];
    GrantedNotRevoked(s, n);
    forall i, p: PageId | 0 <= i < n && OnPage(es[i], p)
      ensures p in t.live + Granted(es, Winners(es), n) <==> p !in Revoked(es, Winners(es))
    {
      ChangedWasGranted(s, n, i, p);
    }
  }

  /** A changed page is an initial one, or some transaction allocated it. */
  lemma ChangedWasGranted(s: Sys, n: nat, i: nat, p: PageId)
    requires Inv(s) && Survives(s, n) && i < n && OnPage(s.log[i], p)
    ensures var es := s.log[..n]; p in s.initial || p in Granted(es, Winners(es), n) + Revoked(es, Winners(es))
  {
    if p !in s.initial {
      assert GrantedBefore(s.log, p, i);
      var k :| 0 <= k < i && Allocates(s.log[k], p);
      assert s.log[..n][k] == s.log[k];
    }
  }

  /** Recovery after a recovery that ran to its end works if and only if no loser's page was changed. */
  lemma RecoverTwice(s: Sys, n: nat)
    requires Inv(s) && Survives(s, n) && Recover(Crashed(s), s.log[..n]).Some?
    ensures var es, t := s.log[..n], Recover(Crashed(s), s.log[..n]).value;
      && (Recover(t, es).Some? <==>
      forall i, p: PageId :: 0 <= i < n && OnPage(es[i], p) ==> p !in Revoked(es, Winners(es)))
      && (Recover(t, es).Some? ==> Recover(t, es).value == t)
  {
    var es, t := s.log[..n], Recover(Crashed(s), s.log[..n]).value;
    CrashLeaves(s, n);
    RecoveryIsExact(s, n, Crashed(s));
    RecoveredIsLeft(s, n, t);
    RecoveryIsExact(s, n, t);
    UsableAgain(s, n, t);
    if Recover(t, es).Some? { OneRecovered(s, n, t, Recover(t, es).value); }
  }

  /** There is only one recovered store. */
  lemma OneRecovered(s: Sys, n: nat, t: Store, u: Store)
    requires n <= |s.log| && IsRecovered(s, n, t) && IsRecovered(s, n, u)
    ensures t == u
  {
    assert t.pages == u.pages;
  }

  lemma RecoveredIsLeft(s: Sys, n: nat, t: Store)
    requires Inv(s) && Survives(s, n) && IsRecovered(s, n, t)
    ensures LeftBehind(s, n, t)
  {
    var es := s.log[..n];
    LawfulPrefix(s.base, s.log, n);
    GrantedNotRevoked(s, n);
    forall p | p in s.live && p !in s.initial ensures p in Granted(es, Winners(es), n) + Revoked(es, Winners(es)) {
      LiveIsGranted(s, n, p);
    }
    forall p | p in s.base ensures PageFit(s.base[p], es, p, t.pages[p]) {
      assert FaithfulOn(s.base[p], es, p);
      PatchedIsTruth(s.base[p], es, p);
      var k := LastWin(es, Winners(es), p, n);
      if k >= 0 { assert OnPage(es[k], p); }
    }
  }

  // ---- Where recovery fails -----------------------------------------------------------

  const EMPTY := Sys(map[], {}, [], 0, map[], map[], map[], {}, 0)

  /** A transaction allocates page 0, changes it and rolls back. */
  function RollBackRun(after: Bytes): seq<Step> {
    [Reserve, LogAllocation(1, 0, 1), FlushLog, Activate(1, 0), Change(1, 0, after, 2, 0), RollBack(1, 3)]
  }

  lemma RollBackStart() returns (states: seq<Sys>)
    ensures |states| == 5 && IsRun(states, RollBackRun([])[..4])
    ensures states[4].log == [Entry(1, 1, AllocatePage(0))] && states[4].durable == 1 && states[4].live == {0}
      && 0 in states[4].mem
  {
    var steps := RollBackRun([]);
    var s1 := Next(EMPTY, steps[0]);
    var s2 := Next(s1, steps[1]);
    var s3 := Next(s2, steps[2]);
    var s4 := Next(s3, steps[3]);
    assert s2.log == [Entry(1, 1, AllocatePage(0))] && s3.log[..1] == s3.log && Allocates(s3.log[0], 0);
    states := [EMPTY, s1, s2, s3, s4];
  }

  /** Rolled back or not, what the transaction wrote stays in the log, and recovery wants the page that is gone. */
  lemma RollBackBlocksRecovery(after: Bytes) returns (states: seq<Sys>)
    requires |after| == PAYLOAD_SIZE
    ensures IsRun(states, RollBackRun(after)) && var s := states[6];
      Survives(s, |s.log|) && Recover(Crashed(s), s.log).None?
  {
    states := RollBackStart();
    var s4 := states[4];
    var steps := RollBackRun(after);
    var s5 := Next(s4, steps[4]);
    var s6 := Next(s5, steps[5]);
    assert s4.log[0].action == AllocatePage(0);
    assert Enabled(s4, steps[4]) && Enabled(s5, steps[5]);
    states := states + [s5, s6];
    assert IsRun(states, steps);
    assert s6.log[..|s6.log|] == s6.log;
    assert Allocates(s6.log[0], 0) && OnPage(s6.log[1], 0) && s6.log[2].action == AbortTx;
    assert s6.log[0].tx in Quitters(s6.log);
    CrashAnywhere(states, steps, 6, |s6.log|);
    assert Orphaned(s6.log, 0);
  }

  /** A transaction allocates page 0, changes it, and is cut off by a crash. */
  function UnfinishedRun(after: Bytes): seq<Step> {
    [Reserve, LogAllocation(1, 0, 1), FlushLog, Activate(1, 0), Change(1, 0, after, 2, 0), FlushLog]
  }

  /** The first recovery releases the page; a second one wants to rebuild it and fails. */
  lemma RecoverOnlyOnce(after: Bytes) returns (states: seq<Sys>)
    requires |after| == PAYLOAD_SIZE
    ensures IsRun(states, UnfinishedRun(after)) && Survives(states[6], |states[6].log|)
    ensures var s := states[6]; var first := Recover(Crashed(s), s.log);
      first.Some? && Recover(first.value, s.log).None?
  {
    states := RollBackStart();
    var s4 := states[4];
    var steps := UnfinishedRun(after);
    var s5 := Next(s4, steps[4]);
    var s6 := Next(s5, steps[5]);
    assert s4.log[0].action == AllocatePage(0);
    assert Enabled(s4, steps[4]) && Enabled(s5, steps[5]);
    states := states + [s5, s6];
    assert IsRun(states, steps);
    CrashAnywhere(states, steps, 6, 2);
    assert s6.log[..2] == s6.log && Quitters(s6.log) == {} && Winners(s6.log) == {};
    RunInv(states, steps, 6);
    RecoverTwice(s6, 2);
    assert OnPage(s6.log[1], 0) && s6.log[0].action.AllocatePage? && 0 in Revoked(s6.log, {});
  }

  // ---- Reused transaction numbers -----------------------------------------------------

  ghost predicate Uses(es: seq<Entry>, tx: nat) {
    exists i :: 0 <= i < |es| && es[i].tx == tx
  }

  /** Within the joint log, the transactions of one lifetime end as they did by themselves. */
  ghost predicate KeepsFates(own: seq<Entry>, joint: seq<Entry>) {
    forall tx: nat :: Uses(own, tx) ==>
      (tx in Winners(joint) <==> tx in Winners(own)) && (tx in Quitters(joint) <==> tx in Quitters(own))
  }

  /** A number used in both lifetimes committed in both, aborted in both, or ended in neither. */
  ghost predicate EndAlike(earlier: seq<Entry>, later: seq<Entry>) {
    forall tx: nat :: Uses(earlier, tx) && Uses(later, tx) ==>
      (tx in Winners(earlier) <==> tx in Winners(later)) && (tx in Quitters(earlier) <==> tx in Quitters(later))
  }

  /**
   * Transaction numbers start over in every process. Analysis accepts the log of two lifetimes and every transaction
   * of both keeps its own fate, if and only if every number used in both ended in the same way in both; it is
   * accepted at all if and only if no number committed in one and aborted in the other.
   */
  lemma ReusedNumbers(earlier: seq<Entry>, later: seq<Entry>)
    requires Winners(earlier) !! Quitters(earlier) && Winners(later) !! Quitters(later)
    ensures var joint := earlier + later;
      && (Winners(joint) !! Quitters(joint) <==>
      Winners(earlier) !! Quitters(later) && Quitters(earlier) !! Winners(later))
      && (Winners(joint) !! Quitters(joint) && KeepsFates(earlier, joint) && KeepsFates(later, joint) <==>
      EndAlike(earlier, later))
  {
    var joint := earlier + later;
    WinnersConcat(earlier, later);
    QuittersConcat(earlier, later);
    EndersUse(earlier);
    EndersUse(later);
  }

  lemma EndersUse(es: seq<Entry>)
    ensures forall tx :: tx in Winners(es) || tx in Quitters(es) ==> Uses(es, tx)
  {
    forall tx | tx in Winners(es) ensures Uses(es, tx) {
      var i :| 0 <= i < |es| && es[i].action.CommitTx? && es[i].tx == tx;
    }
    forall tx | tx in Quitters(es) ensures Uses(es, tx) {
      var i :| 0 <= i < |es| && es[i].action.AbortTx? && es[i].tx == tx;
    }
  }

  lemma WinnersConcat(a: seq<Entry>, b: seq<Entry>)
    ensures Winners(a + b) == Winners(a) + Winners(b)
  {
    var all := a + b;
    forall tx | tx in Winners(a) ensures tx in Winners(all) {
      var i :| 0 <= i < |a| && a[i].action.CommitTx? && a[i].tx == tx;
      assert all[i] == a[i];
    }
    forall tx | tx in Winners(b) ensures tx in Winners(all) {
      var i :| 0 <= i < |b| && b[i].action.CommitTx? && b[i].tx == tx;
      assert all[|a| + i] == b[i];
    }
    forall tx | tx in Winners(all) ensures tx in Winners(a) + Winners(b) {
      var i :| 0 <= i < |all| && all[i].action.CommitTx? && all[i].tx == tx;
      if i < |a| { assert a[i] == all[i]; } else { assert b[i - |a|] == all[i]; }
    }
  }

  lemma QuittersConcat(a: seq<Entry>, b: seq<Entry>)
    ensures Quitters(a + b) == Quitters(a) + Quitters(b)
  {
    var all := a + b;
    forall tx | tx in Quitters(a) ensures tx in Quitters(all) {
      var i :| 0 <= i < |a| && a[i].action.AbortTx? && a[i].tx == tx;
      assert all[i] == a[i];
    }
    forall tx | tx in Quitters(b) ensures tx in Quitters(all) {
      var i :| 0 <= i < |b| && b[i].action.AbortTx? && b[i].tx == tx;
      assert all[|a| + i] == b[i];
    }
    forall tx | tx in Quitters(all) ensures tx in Quitters(a) + Quitters(b) {
      var i :| 0 <= i < |all| && all[i].action.AbortTx? && all[i].tx == tx;
      if i < |a| { assert a[i] == all[i]; } else { assert b[i - |a|] == all[i]; }
    }
  }

  /**
   * An earlier transaction 1 that ended somehow, and a later one that changed page 0 and ended somehow or not at all.
   */
  function EarlierLog(end: Action): seq<Entry> {
    [Entry(1, 1, BeginTx), Entry(2, 1, end)]
  }

  function LaterLog(before: Bytes, after: Bytes): seq<Entry> {
    [Entry(3, 1, BeginTx), Entry(4, 1, Mutated(0, before, after, 0))]
  }

  /** A store that holds page 0 as both transactions found it. */
  function OnePage(data: Bytes): Store {
    Store(map[0 := Page(data, 0)], {0}, 1)
  }

  /**
   * With a committed transaction of the same number before it, an unfinished transaction is replayed as a winner;
   * from its own lifetime's log it is undone.
   */
  lemma ReusedNumberRevives(before: Bytes, after: Bytes)
    requires |before| == PAYLOAD_SIZE && |after| == PAYLOAD_SIZE
    ensures var earlier, later := EarlierLog(CommitTx), LaterLog(before, after);
      && Recover(OnePage(before), earlier + later) == Some(Store(map[0 := Page(after, 4)], {0}, 1))
      && Recover(OnePage(before), later) == Some(OnePage(before))
  {
    RevivedByCommit(before, after);
    UndoneAlone(before, after);
  }

  lemma RevivedByCommit(before: Bytes, after: Bytes)
    requires |before| == PAYLOAD_SIZE && |after| == PAYLOAD_SIZE
    ensures Recover(OnePage(before), EarlierLog(CommitTx) + LaterLog(before, after)) ==
      Some(Store(map[0 := Page(after, 4)], {0}, 1))
  {
    var es := [Entry(1, 1, BeginTx), Entry(2, 1, CommitTx), Entry(3, 1, BeginTx),
      Entry(4, 1, Mutated(0, before, after, 0))];
    assert EarlierLog(CommitTx) + LaterLog(before, after) == es;
    assert es[1].tx in Winners(es);
    var won, s := Winners(es), OnePage(before);
    var t := Store(map[0 := Page(after, 4)], {0}, 1);
    assert Redo(s, es, won, 1) == Some(s);
    assert Redo(s, es, won, 2) == Some(s);
    assert Redo(s, es, won, 3) == Some(s);
    assert s.pages[0 := Page(after, 4)] == t.pages && Redo(s, es, won, 4) == Some(t);
    assert Affected(es, won) == {} && Revoked(es, won) == {};
    var u := Undo(t, es, won).value;
    assert u.pages == t.pages && u.live == t.live;
  }

  lemma UndoneAlone(before: Bytes, after: Bytes)
    requires |before| == PAYLOAD_SIZE && |after| == PAYLOAD_SIZE
    ensures Recover(OnePage(before), LaterLog(before, after)) == Some(OnePage(before))
  {
    var es, s := LaterLog(before, after), OnePage(before);
    assert Winners(es) == {};
    assert Redo(s, es, {}, 1) == Some(s) && Redo(s, es, {}, 2) == Some(s);
    assert OnPage(es[1], 0) && Affected(es, {}) == {0} && Revoked(es, {}) == {};
    assert Patched(before, es, {}, 0, 1) == before && Patched(before, es, {}, 0, 2) == before;
    assert FirstOn(es, 0, 0) == 1 && Rebuilt(es, {}, 0) == Page(before, 0);
    var u := Undo(s, es, {}).value;
    assert u.pages == s.pages && u.live == s.live;
  }

  /** With a committed and an aborted transaction of one number, in either order, the whole log is rejected. */
  lemma ReusedNumberRejected(commitFirst: bool)
    ensures var first, second := if commitFirst then CommitTx else AbortTx, if commitFirst then AbortTx else CommitTx;
      var earlier, later := EarlierLog(first), [Entry(3, 1, BeginTx), Entry(4, 1, second)];
      && Winners(earlier) !! Quitters(earlier) && Winners(later) !! Quitters(later)
      && !(Winners(earlier + later) !! Quitters(earlier + later))
  {
    var first, second := if commitFirst then CommitTx else AbortTx, if commitFirst then AbortTx else CommitTx;
    var earlier, later := EarlierLog(first), [Entry(3, 1, BeginTx), Entry(4, 1, second)];
    assert earlier[1].tx in (if commitFirst then Winners(earlier) else Quitters(earlier));
    assert later[1].tx in (if commitFirst then Quitters(later) else Winners(later));
    ReusedNumbers(earlier, later);
  }
}
