/** The rollback of the run model is the reverse rollback of the transaction's captured mutations. */
module CrashRollbacks {
  import opened StorageTypes
  import opened WalCodec
  import opened RecoveryAnalysis
  import opened Redos
  import opened Undos
  import opened RecoveryHistory
  import opened Rollbacks
  import opened CrashRuns
  import opened CrashSteps

  /** What the transaction captured: its logged changes, each with the LSN that the page had before. */
  ghost function Captured(base: map<PageId, Page>, log: seq<Entry>, tx: nat, n: nat): seq<PhysicalMutation>
    requires n <= |log|
  {
    if n == 0 then []
    else
      var e := log[n - 1];
      Captured(base, log, tx, n - 1) +
      (if e.tx == tx && e.action.WritePage? && e.action.mutation.page in base
       then [e.action.mutation.(previousLsn :=
         Seen(base[e.action.mutation.page], log, e.action.mutation.page, n - 1).lsn)] else [])
  }

  lemma {:induction false} FirstOfAppend(ms: seq<PhysicalMutation>, m: PhysicalMutation, p: PageId, k: nat)
    requires k <= |ms|
    ensures FirstOf(ms + [m], p, k) == if FirstOf(ms, p, k) < |ms| || m.page == p then FirstOf(ms, p, k) else |ms| + 1
    decreases |ms| - k
  {
    if k < |ms| && ms[k].page != p { FirstOfAppend(ms, m, p, k + 1); }
  }

  /** The first captured mutation of a page is the transaction's first change of it. */
  lemma {:induction false} FirstCaptured(base: map<PageId, Page>, log: seq<Entry>, tx: nat, p: PageId, n: nat)
    requires n <= |log| && Faithful(base, log) && p in base
    ensures var ms, f := Captured(base, log, tx, n), FirstBy(log, tx, p, n);
      && (FirstOf(ms, p, 0) < |ms| <==> f >= 0)
      && (f >= 0 ==> Before(ms[FirstOf(ms, p, 0)]) == Seen(base[p], log, p, f))
  {
    if n > 0 {
      FirstCaptured(base, log, tx, p, n - 1);
      var ms, e := Captured(base, log, tx, n - 1), log[n - 1];
      if e.tx == tx && e.action.WritePage? {
        assert OnPage(e, e.action.mutation.page);
        FirstOfAppend(ms, Captured(base, log, tx, n)[|ms|], p, 0);
      } else {
        assert Captured(base, log, tx, n) == ms;
      }
    }
  }

  lemma {:induction false} CapturedExist(base: map<PageId, Page>, log: seq<Entry>, tx: nat, n: nat)
    requires n <= |log|
    ensures forall i :: 0 <= i < |Captured(base, log, tx, n)| ==> Captured(base, log, tx, n)[i].page in base
  {
    if n > 0 { CapturedExist(base, log, tx, n - 1); }
  }

  lemma RollbackAgreesAt(s: Sys, tx: nat, p: PageId)
    requires Inv(s) && Active(s.log, tx) && p in s.mem
    ensures var ms := Captured(s.base, s.log, tx, |s.log|);
      p in Undone(s.mem, ms, 0) && Undone(s.mem, ms, 0)[p] == RolledBack(s, tx)[p]
  {
    UndoneAt(s.mem, Captured(s.base, s.log, tx, |s.log|), 0, p);
    FirstCaptured(s.base, s.log, tx, p, |s.log|);
    assert Shows(s, p);
    if FirstBy(s.log, tx, p, |s.log|) >= 0 { WriterHolds(s.log, tx, p); }
  }

  /** Undoing the captured mutations last one first is what the run model calls rolling back. */
  lemma RollbackAgrees(s: Sys, tx: nat)
    requires Inv(s) && Active(s.log, tx)
    ensures Undone(s.mem, Captured(s.base, s.log, tx, |s.log|), 0) == RolledBack(s, tx)
  {
    var ms := Captured(s.base, s.log, tx, |s.log|);
    CapturedExist(s.base, s.log, tx, |s.log|);
    UndoneKeys(s.mem, ms, 0);
    forall p | p in s.mem ensures Undone(s.mem, ms, 0)[p] == RolledBack(s, tx)[p] { RollbackAgreesAt(s, tx, p); }
  }
}
