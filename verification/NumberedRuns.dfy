/**
 * Runs whose transactions have numbers that are used again. A run of `CrashRuns` tells all transactions of all
 * lifetimes apart; `f` gives each of them the number that the log has, and many may have the same one.
 */
module NumberedRuns {
  import opened StorageTypes
  import opened WalCodec
  import opened WalLog
  import opened PageManagers
  import opened RecoveryAnalysis
  import opened Redos
  import opened Undos
  import opened RecoveryHistory
  import opened RealLogs
  import opened CrashRuns
  import opened CrashRecovery
  import opened CrashTheorems

  /** The log with the numbers in place of the transactions. */
  function Numbered(es: seq<Entry>, f: nat -> nat): (r: seq<Entry>)
    ensures |r| == |es| && forall i :: 0 <= i < |es| ==> r[i] == es[i].(tx := f(es[i].tx))
  {
    seq(|es|, i requires 0 <= i < |es| => es[i].(tx := f(es[i].tx)))
  }

  /** REDO and UNDO of a log with the given transactions as winners. */
  ghost function RecoverAs(s: Store, es: seq<Entry>, won: set<nat>): Option<Store> {
    match Redo(s, es, won, |es|)
    case None => None
    case Some(t) => Undo(t, es, won)
  }

  // ---- Recovery reads a number only to ask whether it won -------------------------------

  /** The same records, whose transactions win alike. */
  ghost predicate Alike(a: seq<Entry>, x: set<nat>, b: seq<Entry>, y: set<nat>) {
    |a| == |b| && forall i :: 0 <= i < |a| ==>
      a[i].lsn == b[i].lsn && a[i].action == b[i].action && (a[i].tx in x <==> b[i].tx in y)
  }

  lemma {:induction false} RedoAlike(s: Store, a: seq<Entry>, x: set<nat>, b: seq<Entry>, y: set<nat>, n: nat)
    requires Alike(a, x, b, y) && n <= |a|
    ensures Redo(s, a, x, n) == Redo(s, b, y, n)
  {
    if n > 0 { RedoAlike(s, a, x, b, y, n - 1); }
  }

  lemma {:induction false} PatchedAlike(base: Bytes, a: seq<Entry>, x: set<nat>, b: seq<Entry>, y: set<nat>, p: PageId,
      n: nat)
    requires Alike(a, x, b, y) && n <= |a|
    ensures Patched(base, a, x, p, n) == Patched(base, b, y, p, n)
  {
    if n > 0 { PatchedAlike(base, a, x, b, y, p, n - 1); }
  }

  lemma RebuiltAlike(a: seq<Entry>, x: set<nat>, b: seq<Entry>, y: set<nat>, p: PageId)
    requires Alike(a, x, b, y)
    ensures Rebuilt(a, x, p) == Rebuilt(b, y, p)
  {
    var n, k, l := |a|, LastWin(a, x, p, |a|), LastWin(b, y, p, |a|);
    assert k >= 0 ==> WinsOn(b[k], y, p);
    assert l >= 0 ==> WinsOn(a[l], x, p);
    var i, j := FirstOn(a, p, 0), FirstOn(b, p, 0);
    assert i < n ==> OnPage(b[i], p);
    assert j < n ==> OnPage(a[j], p);
    PatchedAlike(BaseImage(a, p), a, x, b, y, p, n);
  }

  lemma RecoverAlike(s: Store, a: seq<Entry>, x: set<nat>, b: seq<Entry>, y: set<nat>)
    requires Alike(a, x, b, y)
    ensures RecoverAs(s, a, x) == RecoverAs(s, b, y)
  {
    RedoAlike(s, a, x, b, y, |a|);
    LosersAlike(a, x, b, y);
    LosersAlike(b, y, a, x);
    forall p: PageId ensures Rebuilt(a, x, p) == Rebuilt(b, y, p) { RebuiltAlike(a, x, b, y, p); }
    var t := Redo(s, a, x, |a|);
    if t.Some? { UndoAlike(t.value, a, x, b, y); }
  }

  lemma UndoAlike(t: Store, a: seq<Entry>, x: set<nat>, b: seq<Entry>, y: set<nat>)
    requires Affected(a, x) == Affected(b, y) && Revoked(a, x) == Revoked(b, y)
    requires forall p: PageId :: Rebuilt(a, x, p) == Rebuilt(b, y, p)
    ensures Undo(t, a, x) == Undo(t, b, y)
  {
    if Affected(a, x) <= t.live { assert Undo(t, a, x).value.pages == Undo(t, b, y).value.pages; }
  }

  lemma LosersAlike(a: seq<Entry>, x: set<nat>, b: seq<Entry>, y: set<nat>)
    requires Alike(a, x, b, y)
    ensures Affected(a, x) <= Affected(b, y) && Revoked(a, x) <= Revoked(b, y)
  {
    forall i | 0 <= i < |a| && a[i].action.WritePage? && a[i].tx !in x
      ensures a[i].action.mutation.page in Affected(b, y)
    {
      assert b[i].action == a[i].action;
    }
    forall i | 0 <= i < |a| && a[i].action.AllocatePage? && a[i].tx !in x ensures a[i].action.page in Revoked(b, y) {
      assert b[i].action == a[i].action;
    }
  }

  /** The transactions whose number some committed transaction had. */
  ghost function Revived(es: seq<Entry>, f: nat -> nat): set<nat> {
    set i | 0 <= i < |es| && f(es[i].tx) in Winners(Numbered(es, f)) :: es[i].tx
  }

  /** Whatever the numbers, recovery is that of the log in which exactly those transactions won. */
  lemma NumbersDecideWinners(s: Store, es: seq<Entry>, f: nat -> nat)
    ensures Recover(s, Numbered(es, f)) == RecoverAs(s, es, Revived(es, f))
  {
    var file := Numbered(es, f);
    forall i | 0 <= i < |es| ensures es[i].tx in Revived(es, f) <==> file[i].tx in Winners(file) {
      if es[i].tx in Revived(es, f) {
        var j :| 0 <= j < |es| && f(es[j].tx) in Winners(file) && es[j].tx == es[i].tx;
      }
    }
    RecoverAlike(s, file, Winners(file), es, Revived(es, f));
  }

  // ---- When the numbers do no harm -----------------------------------------------------

  /** No transaction has the number of one that committed, unless it committed too. */
  ghost predicate Apart(es: seq<Entry>, f: nat -> nat) {
    forall i, j :: 0 <= i < |es| && 0 <= j < |es| && es[j].tx in Winners(es) && f(es[i].tx) == f(es[j].tx) ==>
      es[i].tx in Winners(es)
  }

  /** No transaction that aborted has the number of one that committed. */
  ghost predicate Unmixed(es: seq<Entry>, f: nat -> nat) {
    forall w, q :: w in Winners(es) && q in Quitters(es) ==> f(w) != f(q)
  }

  lemma NumberedWinners(es: seq<Entry>, f: nat -> nat)
    ensures Winners(Numbered(es, f)) == set w | w in Winners(es) :: f(w)
    ensures Quitters(Numbered(es, f)) == set q | q in Quitters(es) :: f(q)
  {
    var file := Numbered(es, f);
    forall i | 0 <= i < |es| ensures file[i].action == es[i].action && file[i].tx == f(es[i].tx) {}
    forall w | w in Winners(es) ensures f(w) in Winners(file) {
      var i :| 0 <= i < |es| && es[i].action.CommitTx? && es[i].tx == w;
      assert file[i].action.CommitTx?;
    }
    forall q | q in Quitters(es) ensures f(q) in Quitters(file) {
      var i :| 0 <= i < |es| && es[i].action.AbortTx? && es[i].tx == q;
      assert file[i].action.AbortTx?;
    }
  }

  /** Analysis accepts the log exactly if no number committed and aborted. */
  lemma AcceptedIff(es: seq<Entry>, f: nat -> nat)
    ensures Winners(Numbered(es, f)) !! Quitters(Numbered(es, f)) <==> Unmixed(es, f)
  {
    NumberedWinners(es, f);
    var ws, qs := Winners(Numbered(es, f)), Quitters(Numbered(es, f));
    if !Unmixed(es, f) {
      var w, q :| w in Winners(es) && q in Quitters(es) && f(w) == f(q);
      assert f(w) in ws && f(w) in qs;
    }
  }

  /** Every transaction keeps its own fate exactly if committed ones share numbers only among themselves. */
  lemma FatesKeptIff(es: seq<Entry>, f: nat -> nat)
    ensures Revived(es, f) == Winners(es) <==> Apart(es, f)
  {
    NumberedWinners(es, f);
    WinnersRevived(es, f);
    if Apart(es, f) {
      forall tx | tx in Revived(es, f) ensures tx in Winners(es) {
        var i :| 0 <= i < |es| && f(es[i].tx) in Winners(Numbered(es, f)) && es[i].tx == tx;
        var w :| w in Winners(es) && f(w) == f(tx);
        var j :| 0 <= j < |es| && es[j].action.CommitTx? && es[j].tx == w;
      }
    } else {
      var i, j :| 0 <= i < |es| && 0 <= j < |es| && es[j].tx in Winners(es) && f(es[i].tx) == f(es[j].tx)
        && es[i].tx !in Winners(es);
      assert es[i].tx in Revived(es, f);
    }
  }

  lemma WinnersRevived(es: seq<Entry>, f: nat -> nat)
    ensures Winners(es) <= Revived(es, f)
  {
    NumberedWinners(es, f);
    forall w | w in Winners(es) ensures w in Revived(es, f) {
      var i :| 0 <= i < |es| && es[i].action.CommitTx? && es[i].tx == w;
      assert f(es[i].tx) in Winners(Numbered(es, f));
    }
  }

  lemma ApartUnmixed(es: seq<Entry>, f: nat -> nat)
    requires Apart(es, f) && Winners(es) !! Quitters(es)
    ensures Unmixed(es, f)
  {
    forall w, q | w in Winners(es) && q in Quitters(es) ensures f(w) != f(q) {
      var j :| 0 <= j < |es| && es[j].action.CommitTx? && es[j].tx == w;
      var i :| 0 <= i < |es| && es[i].action.AbortTx? && es[i].tx == q;
      assert es[i].tx !in Winners(es);
    }
  }

  // ---- Two lifetimes -----------------------------------------------------------------------

  function Even(tx: nat): nat {
    2 * tx
  }

  function Odd(tx: nat): nat {
    2 * tx + 1
  }

  function Half(tx: nat): nat {
    tx / 2
  }

  /** The log of two lifetimes with the transactions of the earlier and the later one told apart. */
  function ToldApart(earlier: seq<Entry>, later: seq<Entry>): seq<Entry> {
    Numbered(earlier, Even) + Numbered(later, Odd)
  }

  lemma ToldApartNumbers(earlier: seq<Entry>, later: seq<Entry>)
    ensures Numbered(ToldApart(earlier, later), Half) == earlier + later
  {
  }

  lemma ToldApartWinners(earlier: seq<Entry>, later: seq<Entry>, tx: nat)
    ensures var es := ToldApart(earlier, later);
      (Even(tx) in Winners(es) <==> tx in Winners(earlier)) && (Odd(tx) in Winners(es) <==> tx in Winners(later))
  {
    var a, b := Numbered(earlier, Even), Numbered(later, Odd);
    WinnersConcat(a, b);
    NumberedWinners(earlier, Even);
    NumberedWinners(later, Odd);
  }

  /**
   * If every number used in both lifetimes ended in the same way in both, recovery from the joint log leaves what it
   * would leave if the transactions of the two were told apart.
   */
  lemma EndAlikeRecovers(s: Store, earlier: seq<Entry>, later: seq<Entry>)
    requires EndAlike(earlier, later)
    ensures Recover(s, earlier + later) == Recover(s, ToldApart(earlier, later))
  {
    var es := ToldApart(earlier, later);
    ToldApartNumbers(earlier, later);
    forall i, j | 0 <= i < |es| && 0 <= j < |es| && es[j].tx in Winners(es) && Half(es[i].tx) == Half(es[j].tx)
      ensures es[i].tx in Winners(es)
    {
      ToldApartWinners(earlier, later, Half(es[i].tx));
      EndersUse(earlier);
      EndersUse(later);
      UsedInOne(earlier, later, i);
    }
    FatesKeptIff(es, Half);
    NumbersDecideWinners(s, es, Half);
  }

  lemma UsedInOne(earlier: seq<Entry>, later: seq<Entry>, i: nat)
    requires i < |ToldApart(earlier, later)|
    ensures var x := ToldApart(earlier, later)[i].tx;
      (x == Even(Half(x)) && Uses(earlier, Half(x))) || (x == Odd(Half(x)) && Uses(later, Half(x)))
  {
    if i < |earlier| { assert Half(Even(earlier[i].tx)) == earlier[i].tx; } else {
      assert Half(Odd(later[i - |earlier|].tx)) == later[i - |earlier|].tx;
    }
  }

  // ---- Runs ------------------------------------------------------------------------------

  /** The log file when n entries of the history survive a crash. */
  ghost function FileOf(s: Sys, n: nat, f: nat -> nat): seq<Entry>
    requires n <= |s.log|
  {
    Numbered(Real(s.log[..n]), f)
  }

  /** A step as the code makes it: a restart has nothing but the numbers to go by. */
  ghost predicate NumberedStep(s: Sys, step: Step, f: nat -> nat, u: Sys) {
    if step.Restart? then
      && Survives(s, step.n) && Winners(FileOf(s, step.n, f)) !! Quitters(FileOf(s, step.n, f))
      && var r := Recover(Crashed(s), FileOf(s, step.n, f)); r.Some? && u == Restarted(s, step.n, r.value)
    else Enabled(s, step) && u == Next(s, step)
  }

  ghost predicate IsNumberedRun(states: seq<Sys>, steps: seq<Step>, f: nat -> nat) {
    |states| == |steps| + 1 && Initial(states[0]) && forall i :: 0 <= i < |steps| ==>
      NumberedStep(states[i], steps[i], f, states[i + 1])
  }

  /** At every restart so far, committed transactions shared their numbers only among themselves. */
  ghost predicate Harmless(states: seq<Sys>, steps: seq<Step>, f: nat -> nat, at: nat)
    requires at <= |steps| < |states|
  {
    forall i :: 0 <= i < at && steps[i].Restart? ==>
      steps[i].n <= |states[i].log| && Apart(Real(states[i].log[..steps[i].n]), f)
  }

  /** What recovery makes of the surviving log, with the numbers as they are. */
  lemma NumberedRecovery(s: Sys, n: nat, f: nat -> nat)
    requires Inv(s) && Survives(s, n)
    ensures var es := Real(s.log[..n]);
      && (Winners(FileOf(s, n, f)) !! Quitters(FileOf(s, n, f)) <==> Unmixed(es, f))
      && Recover(Crashed(s), FileOf(s, n, f)) == RecoverAs(Crashed(s), es, Revived(es, f))
      && (Apart(es, f) ==> Unmixed(es, f) && Recover(Crashed(s), FileOf(s, n, f)) == Recover(Crashed(s), s.log[..n]))
  {
    var es := Real(s.log[..n]);
    AcceptedIff(es, f);
    NumbersDecideWinners(Crashed(s), es, f);
    FatesKeptIff(es, f);
    MarksDoNotMatter(Crashed(s), s.log[..n]);
    if Apart(es, f) {
      WinnersOfPrefix(s.log, n);
      WinnersJudge(s.log);
      RealWinners(s.log[..n]);
      QuittersOfPrefix(s.log, n);
      ApartUnmixed(es, f);
    }
  }

  lemma QuittersOfPrefix(es: seq<Entry>, n: nat)
    requires n <= |es|
    ensures Quitters(es[..n]) <= Quitters(es)
  {
    forall tx | tx in Quitters(es[..n]) ensures tx in Quitters(es) {
      var i :| 0 <= i < n && es[..n][i].action.AbortTx? && es[..n][i].tx == tx;
      assert es[i].tx == tx;
    }
  }

  /** As long as the numbers do no harm, a run with reused numbers is a run without. */
  lemma {:induction false} HarmlessRun(states: seq<Sys>, steps: seq<Step>, f: nat -> nat, at: nat)
    requires IsNumberedRun(states, steps, f) && at <= |steps| && Harmless(states, steps, f, at)
    ensures IsRun(states[..at + 1], steps[..at])
  {
    if at > 0 {
      HarmlessRun(states, steps, f, at - 1);
      var before, done := states[..at], steps[..at - 1];
      RunInv(before, done, at - 1);
      HarmlessStep(states[at - 1], steps[at - 1], f, states[at]);
      RunGrows(before, done, steps[at - 1], states[at]);
      assert states[..at + 1] == before + [states[at]] && steps[..at] == done + [steps[at - 1]];
    }
  }

  lemma HarmlessStep(s: Sys, step: Step, f: nat -> nat, u: Sys)
    requires Inv(s) && NumberedStep(s, step, f, u)
      && (step.Restart? ==> step.n <= |s.log| && Apart(Real(s.log[..step.n]), f))
    ensures Enabled(s, step) && u == Next(s, step)
  {
    if step.Restart? { NumberedRecovery(s, step.n, f); }
  }

  /**
   * A crash at any point of any run whose transactions use numbers again, over any number of lifetimes. Analysis
   * accepts the surviving log if and only if no number both committed and aborted; recovery then treats as winners
   * all transactions whose number committed; these are the real ones if and only if no other transaction has a
   * committed one's number, and then recovery ends in the committed store exactly if no surviving change is to an
   * orphaned page.
   */
  lemma CrashAnywhereNumbered(states: seq<Sys>, steps: seq<Step>, f: nat -> nat, at: nat, n: nat)
    requires IsNumberedRun(states, steps, f) && at <= |steps| && Harmless(states, steps, f, at)
      && Survives(states[at], n)
    ensures var s := states[at]; var es, file := Real(s.log[..n]), FileOf(s, n, f);
      var r := Recover(Crashed(s), file);
      && (Winners(file) !! Quitters(file) <==> Unmixed(es, f))
      && r == RecoverAs(Crashed(s), es, Revived(es, f)) && (Revived(es, f) == Winners(es) <==> Apart(es, f))
      && (Apart(es, f) ==>
            && Unmixed(es, f)
            && (r.Some? <==> forall i: nat, p: PageId :: i < n && OnPage(s.log[i], p) ==> !Orphaned(s.log, p))
            && (r.Some? ==> IsRecovered(s, n, r.value)))
  {
    HarmlessRun(states, steps, f, at);
    var before, done := states[..at + 1], steps[..at];
    RunInv(before, done, at);
    NumberedRecovery(states[at], n, f);
    FatesKeptIff(Real(states[at].log[..n]), f);
    CrashAnywhere(before, done, at, n);
  }

  // ---- An undone change comes back -------------------------------------------------------

  /** Every transaction has the number 1. */
  function AllOne(tx: nat): nat {
    1
  }

  /** Page 0, allocated from the start. */
  ghost function OnePageSys(data: Bytes): Sys {
    Sys(map[0 := Page(data, 0)], {0}, [], 0, map[0 := Page(data, 0)], map[0 := Page(data, 0)], map[], {0}, 1)
  }

  /** A transaction changes page 0 and is cut off; after the restart, another one commits without a change. */
  function ComeBackRun(after: Bytes): seq<Step> {
    [Change(1, 0, after, 1, 0), FlushLog, Restart(1), LogCommit(2, 2), FlushLog]
  }

  function CutOffLog(before: Bytes, after: Bytes): seq<Entry> {
    [Entry(1, 1, Mutated(0, before, after, 0))]
  }

  lemma CutOffUndone(before: Bytes, after: Bytes)
    requires |before| == PAYLOAD_SIZE && |after| == PAYLOAD_SIZE
    ensures Winners(CutOffLog(before, after)) == {}
      && Recover(OnePage(before), CutOffLog(before, after)) == Some(OnePage(before))
  {
    var es, s := CutOffLog(before, after), OnePage(before);
    assert Winners(es) == {};
    assert Redo(s, es, {}, 1) == Some(s);
    assert OnPage(es[0], 0) && Affected(es, {}) == {0} && Revoked(es, {}) == {};
    assert Patched(before, es, {}, 0, 1) == before;
    assert FirstOn(es, 0, 0) == 0 && Rebuilt(es, {}, 0) == Page(before, 0);
    var u := Undo(s, es, {}).value;
    assert u.pages == s.pages && u.live == s.live;
  }

  lemma CutOffReplayed(before: Bytes, after: Bytes)
    requires |before| == PAYLOAD_SIZE && |after| == PAYLOAD_SIZE
    ensures var es := CutOffLog(before, after) + [Entry(2, 1, CommitTx)];
      Winners(es) == {1} && Quitters(es) == {}
        && Recover(OnePage(before), es) == Some(Store(map[0 := Page(after, 1)], {0}, 1))
  {
    var es, s := [Entry(1, 1, Mutated(0, before, after, 0)), Entry(2, 1, CommitTx)], OnePage(before);
    assert CutOffLog(before, after) + [Entry(2, 1, CommitTx)] == es;
    assert es[1].tx in Winners(es);
    var t := Store(map[0 := Page(after, 1)], {0}, 1);
    assert s.pages[0 := Page(after, 1)] == t.pages && Redo(s, es, {1}, 1) == Some(t) && Redo(s, es, {1}, 2) == Some(t);
    assert Affected(es, {1}) == {} && Revoked(es, {1}) == {};
    var u := Undo(t, es, {1}).value;
    assert u.pages == t.pages && u.live == t.live;
  }

  /** The first lifetime, and the restart that undoes the change. */
  lemma ComeBackStart(before: Bytes, after: Bytes) returns (states: seq<Sys>)
    requires |before| == PAYLOAD_SIZE && |after| == PAYLOAD_SIZE
    ensures |states| == 4 && IsNumberedRun(states, ComeBackRun(after)[..3], AllOne)
    ensures states[2].log == CutOffLog(before, after)
    ensures states[3].log == CutOffLog(before, after) + [Entry(0, 1, AbortTx)]
    ensures states[3].durable == 2 && Crashed(states[3]) == OnePage(before)
    ensures states[3].base == map[0 := Page(before, 0)]
  {
    var s1, s2 := ComeBackFirst(before, after);
    var s3 := ComeBackRestart(s2, before, after);
    states := [OnePageSys(before), s1, s2, s3];
  }

  lemma ComeBackFirst(before: Bytes, after: Bytes) returns (s1: Sys, s2: Sys)
    requires |before| == PAYLOAD_SIZE && |after| == PAYLOAD_SIZE
    ensures Initial(OnePageSys(before)) && NumberedStep(OnePageSys(before), Change(1, 0, after, 1, 0), AllOne, s1)
    ensures NumberedStep(s1, FlushLog, AllOne, s2) && s2.log == CutOffLog(before, after) && s2.durable == 1
    ensures Crashed(s2) == OnePage(before) && s2.base == map[0 := Page(before, 0)]
  {
    s1 := Next(OnePageSys(before), Change(1, 0, after, 1, 0));
    s2 := Next(s1, FlushLog);
    assert s1.log == CutOffLog(before, after);
  }

  lemma ComeBackRestart(s2: Sys, before: Bytes, after: Bytes) returns (s3: Sys)
    requires |before| == PAYLOAD_SIZE && |after| == PAYLOAD_SIZE
    requires s2.log == CutOffLog(before, after) && s2.durable == 1 && Crashed(s2) == OnePage(before)
    ensures NumberedStep(s2, Restart(1), AllOne, s3) && s3.base == s2.base && Crashed(s3) == OnePage(before)
    ensures s3.log == CutOffLog(before, after) + [Entry(0, 1, AbortTx)] && s3.durable == 2
  {
    var es := CutOffLog(before, after);
    assert s2.log[..1] == es;
    s3 := Restarted(s2, 1, OnePage(before));
    CutOffClosed(before, after);
    CutOffUndone(before, after);
    CutOffFile(before, after);
  }

  lemma CutOffClosed(before: Bytes, after: Bytes)
    ensures Closed(CutOffLog(before, after)) == CutOffLog(before, after) + [Entry(0, 1, AbortTx)]
  {
    var es := CutOffLog(before, after);
    assert !EndedBy(es, 1, 1);
    assert Lost(es, 0) == [] && Lost(es, 1) == [Entry(0, 1, AbortTx)];
  }

  lemma CutOffFile(before: Bytes, after: Bytes)
    ensures var es := CutOffLog(before, after); Numbered(Real(es), AllOne) == es && Quitters(es) == {}
  {
    var e := Entry(1, 1, Mutated(0, before, after, 0));
    RealOne(e);
    NumberedOne(e);
  }

  lemma RealOne(e: Entry)
    requires e.lsn != 0
    ensures Real([e]) == [e]
  {
    assert [e][..0] == [];
    assert Real([]) == [];
  }

  lemma NumberedOne(e: Entry)
    requires e.tx == 1
    ensures Numbered([e], AllOne) == [e]
  {
  }

  /**
   * The change was undone at the restart and its transaction never committed, but once another one of its number has,
   * the next recovery replays it: the recovered store is not the committed one.
   */
  lemma UndoneComesBack(before: Bytes, after: Bytes) returns (states: seq<Sys>)
    requires |before| == PAYLOAD_SIZE && |after| == PAYLOAD_SIZE && before != after
    ensures IsNumberedRun(states, ComeBackRun(after), AllOne) && Harmless(states, ComeBackRun(after), AllOne, 5)
    ensures Crashed(states[3]) == OnePage(before) && Survives(states[5], 3) && !Apart(Real(states[5].log[..3]), AllOne)
    ensures var s, file := states[5], FileOf(states[5], 3, AllOne);
      && Winners(file) !! Quitters(file) && Recover(Crashed(s), file) == Some(Store(map[0 := Page(after, 1)], {0}, 1))
      && !IsRecovered(s, 3, Recover(Crashed(s), file).value)
  {
    states := ComeBackEnd(before, after);
    ComeBackFile(before, after);
    CutOffReplayed(before, after);
    ComeBackTruth(before, after);
    assert 0 in map[0 := Page(after, 1)];
    assert Truth(states[5].base[0].data, states[5].log[..3], 0, 3) == before;
  }

  /** The second lifetime. */
  lemma ComeBackEnd(before: Bytes, after: Bytes) returns (states: seq<Sys>)
    requires |before| == PAYLOAD_SIZE && |after| == PAYLOAD_SIZE
    ensures IsNumberedRun(states, ComeBackRun(after), AllOne) && Harmless(states, ComeBackRun(after), AllOne, 5)
    ensures states[5].log == CutOffLog(before, after) + [Entry(0, 1, AbortTx)] + [Entry(2, 2, CommitTx)]
    ensures states[5].log[..3] == states[5].log
    ensures states[5].durable == 3 && states[5].base == map[0 := Page(before, 0)]
    ensures Crashed(states[3]) == Crashed(states[5]) == OnePage(before)
  {
    states := ComeBackStart(before, after);
    var s4, s5 := ComeBackSecond(states[3], before, after);
    CutOffApart(before, after);
    assert states[2].log[..1] == CutOffLog(before, after);
    states := states + [s4, s5];
  }

  lemma ComeBackSecond(s3: Sys, before: Bytes, after: Bytes) returns (s4: Sys, s5: Sys)
    requires s3.log == CutOffLog(before, after) + [Entry(0, 1, AbortTx)]
    ensures NumberedStep(s3, LogCommit(2, 2), AllOne, s4) && NumberedStep(s4, FlushLog, AllOne, s5)
    ensures s5 == s3.(log := s3.log + [Entry(2, 2, CommitTx)], durable := 3) && s5.log[..3] == s5.log
  {
    assert s3.log[0] == CutOffLog(before, after)[0] && s3.log[1] == Entry(0, 1, AbortTx);
    s4 := Next(s3, LogCommit(2, 2));
    s5 := Next(s4, FlushLog);
  }

  lemma CutOffApart(before: Bytes, after: Bytes)
    ensures Apart(Real(CutOffLog(before, after)), AllOne)
  {
    RealOne(CutOffLog(before, after)[0]);
  }

  /** The file after the second lifetime, whose two records have one number. */
  lemma ComeBackFile(before: Bytes, after: Bytes)
    ensures var es := CutOffLog(before, after); var log := es + [Entry(0, 1, AbortTx)] + [Entry(2, 2, CommitTx)];
      Numbered(Real(log), AllOne) == es + [Entry(2, 1, CommitTx)] && !Apart(Real(log), AllOne)
  {
    var es := CutOffLog(before, after);
    RealOne(es[0]);
    RealAppend(es, Entry(0, 1, AbortTx));
    RealAppend(es + [Entry(0, 1, AbortTx)], Entry(2, 2, CommitTx));
    OneNumber(es[0]);
  }

  /** Of two entries with one number, only the second is a commit. */
  lemma OneNumber(e: Entry)
    requires e.tx == 1 && !e.action.CommitTx?
    ensures var r := [e] + [Entry(2, 2, CommitTx)];
      Numbered(r, AllOne) == [e] + [Entry(2, 1, CommitTx)] && !Apart(r, AllOne)
  {
    var r := [e] + [Entry(2, 2, CommitTx)];
    assert r[0] == e && r[1] == Entry(2, 2, CommitTx);
    assert r[1].tx in Winners(r) && r[0].tx !in Winners(r) && AllOne(r[0].tx) == AllOne(r[1].tx);
  }

  lemma ComeBackTruth(before: Bytes, after: Bytes)
    ensures var log := CutOffLog(before, after) + [Entry(0, 1, AbortTx)] + [Entry(2, 2, CommitTx)];
      Truth(before, log, 0, 3) == before
  {
    var log := CutOffLog(before, after) + [Entry(0, 1, AbortTx)] + [Entry(2, 2, CommitTx)];
    assert log[0].tx == 1 && log[1].tx == 1 && log[2].tx == 2;
    assert LastBy(log, 2, 0, 2) < 0;
    assert Truth(before, log, 0, 2) == Truth(before, log, 0, 1) == before;
  }
}
