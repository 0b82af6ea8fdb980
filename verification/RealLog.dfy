/**
 * Histories over several lifetimes of a log. A crash ends the transactions that were running; the history marks that
 * with an Abort entry of LSN zero for each of them, which the log file does not have.
 */
module RealLogs {
  import opened StorageTypes
  import opened WalCodec
  import opened RecoveryAnalysis
  import opened Redos
  import opened Undos

  /** The entries that are in the log file. */
  function Real(es: seq<Entry>): (r: seq<Entry>)
    ensures |r| <= |es| && forall i :: 0 <= i < |r| ==> r[i].lsn != 0
  {
    if es == [] then []
    else
      var e := es[|es| - 1];
      Real(es[..|es| - 1]) + (if e.lsn == 0 then [] else [e])
  }

  lemma RealAppend(es: seq<Entry>, e: Entry)
    ensures Real(es + [e]) == if e.lsn == 0 then Real(es) else Real(es) + [e]
  {
    assert (es + [e])[..|es + [e]| - 1] == es;
  }

  /** Entry i of the file is entry j of the history, and the same entries come before it. */
  lemma {:induction false} RealFrom(es: seq<Entry>, i: nat) returns (j: nat)
    requires i < |Real(es)|
    ensures j < |es| && es[j] == Real(es)[i] && Real(es[..j]) == Real(es)[..i]
  {
    var n := |es| - 1;
    var front := es[..n];
    if i < |Real(front)| {
      j := RealFrom(front, i);
      assert front[..j] == es[..j] && Real(es)[..i] == Real(front)[..i];
    } else {
      j := n;
    }
  }

  /** A logged entry of the history is in the file, behind the same entries. */
  lemma {:induction false} RealListed(es: seq<Entry>, j: nat) returns (i: nat)
    requires j < |es| && es[j].lsn != 0
    ensures i < |Real(es)| && Real(es)[i] == es[j] && Real(es[..j]) == Real(es)[..i]
  {
    var n := |es| - 1;
    var front := es[..n];
    if j < n {
      i := RealListed(front, j);
      assert front[..j] == es[..j] && Real(es)[..i] == Real(front)[..i];
    } else {
      i := |Real(front)|;
    }
  }

  /** The file of an ordered history ascends. */
  lemma RealAscending(es: seq<Entry>)
    requires Ordered(es)
    ensures Ascending(Real(es))
  {
    var r := Real(es);
    forall i: nat, k: nat | i < k < |r| ensures r[i].lsn < r[k].lsn {
      var a := RealFrom(es, i);
      var b := RealFrom(es, k);
      EarlierReal(es, i, k, a, b);
    }
  }

  /** The file keeps the order of the history. */
  lemma EarlierReal(es: seq<Entry>, l: nat, i: nat, j: nat, k: nat)
    requires l < i < |Real(es)| && j < |es| && k < |es| && Real(es[..j]) == Real(es)[..l]
      && Real(es[..k]) == Real(es)[..i]
    ensures j < k
  {
    if k <= j { RealGrows(es, k, j); }
  }

  lemma {:induction false} RealGrows(es: seq<Entry>, k: nat, j: nat)
    requires k <= j <= |es|
    ensures Real(es[..k]) <= Real(es[..j])
  {
    if k < j {
      RealGrows(es, k, j - 1);
      assert es[..j] == es[..j - 1] + [es[j - 1]];
      RealAppend(es[..j - 1], es[j - 1]);
    }
  }

  /** Every number of file entries is that of a prefix of the history, behind any shorter one. */
  lemma {:induction false} RealCut(es: seq<Entry>, d: nat, k: nat) returns (n: nat)
    requires d <= |es| && |Real(es[..d])| <= k <= |Real(es)|
    ensures d <= n <= |es| && Real(es[..n]) == Real(es)[..k]
    decreases |es| - d
  {
    RealGrows(es, d, |es|);
    assert es[..|es|] == es;
    if |Real(es[..d])| == k {
      n := d;
    } else {
      assert es[..d + 1] == es[..d] + [es[d]];
      RealAppend(es[..d], es[d]);
      n := RealCut(es, d + 1, k);
    }
  }

  // ---- The marks do not matter to recovery ----------------------------------------------

  lemma RealRedo(s: Store, es: seq<Entry>, won: set<nat>)
    requires Ordered(es)
    ensures Redo(s, Real(es), won, |Real(es)|) == Redo(s, es, won, |es|)
  {
    RealRedoTo(s, es, won, |es|);
    assert es[..|es|] == es;
  }

  lemma {:induction false} RealRedoTo(s: Store, es: seq<Entry>, won: set<nat>, n: nat)
    requires Ordered(es) && n <= |es|
    ensures Redo(s, Real(es[..n]), won, |Real(es[..n])|) == Redo(s, es, won, n)
  {
    if n > 0 {
      RealRedoTo(s, es, won, n - 1);
      RealNext(es, n - 1);
      RedoSame(s, es, n - 1, Real(es[..n - 1]), won);
    }
  }

  /** One more entry of the history. */
  lemma RealNext(es: seq<Entry>, n: nat)
    requires n < |es|
    ensures Real(es[..n + 1]) == if es[n].lsn == 0 then Real(es[..n]) else Real(es[..n]) + [es[n]]
  {
    assert es[..n + 1] == es[..n] + [es[n]];
    RealAppend(es[..n], es[n]);
  }

  lemma RedoSame(s: Store, es: seq<Entry>, n: nat, r: seq<Entry>, won: set<nat>)
    requires n < |es| && Redo(s, r, won, |r|) == Redo(s, es, won, n) && (es[n].lsn == 0 ==> es[n].action.AbortTx?)
    ensures var more := if es[n].lsn == 0 then r else r + [es[n]]; Redo(s, more, won, |more|) == Redo(s, es, won, n + 1)
  {
    RedoAppend(s, r, es[n], won);
  }

  lemma RedoAppend(s: Store, es: seq<Entry>, e: Entry, won: set<nat>)
    ensures var t := Redo(s, es, won, |es|);
      Redo(s, es + [e], won, |es| + 1) == if t.None? then None else RedoEntry(t.value, e, won)
  {
    RedoPrefix(s, es, [e], won, |es|);
    assert (es + [e])[|es|] == e;
  }

  lemma {:induction false} RedoPrefix(s: Store, es: seq<Entry>, more: seq<Entry>, won: set<nat>, n: nat)
    requires n <= |es|
    ensures Redo(s, es + more, won, n) == Redo(s, es, won, n)
  {
    if n > 0 { RedoPrefix(s, es, more, won, n - 1); }
  }

  /** The image that the winners make of a page. */
  lemma RealPatched(base: Bytes, es: seq<Entry>, won: set<nat>, p: PageId)
    requires Ordered(es)
    ensures Patched(base, Real(es), won, p, |Real(es)|) == Patched(base, es, won, p, |es|)
  {
    RealPatchedTo(base, es, won, p, |es|);
    assert es[..|es|] == es;
  }

  lemma {:induction false} RealPatchedTo(base: Bytes, es: seq<Entry>, won: set<nat>, p: PageId, n: nat)
    requires Ordered(es) && n <= |es|
    ensures Patched(base, Real(es[..n]), won, p, |Real(es[..n])|) == Patched(base, es, won, p, n)
  {
    if n > 0 {
      RealPatchedTo(base, es, won, p, n - 1);
      RealNext(es, n - 1);
      PatchedSame(base, es, n - 1, Real(es[..n - 1]), won, p);
    }
  }

  lemma PatchedSame(base: Bytes, es: seq<Entry>, n: nat, r: seq<Entry>, won: set<nat>, p: PageId)
    requires n < |es| && Patched(base, r, won, p, |r|) == Patched(base, es, won, p, n)
      && (es[n].lsn == 0 ==> es[n].action.AbortTx?)
    ensures var more := if es[n].lsn == 0 then r else r + [es[n]];
      Patched(base, more, won, p, |more|) == Patched(base, es, won, p, n + 1)
  {
    PatchedAppend(base, r, es[n], won, p);
  }

  lemma PatchedAppend(base: Bytes, es: seq<Entry>, e: Entry, won: set<nat>, p: PageId)
    ensures var x := Patched(base, es, won, p, |es|);
      Patched(base, es + [e], won, p, |es| + 1) == if WinsOn(e, won, p) then Overlay(x, e.action.mutation) else x
  {
    PatchedPrefix(base, es, [e], won, p, |es|);
    assert (es + [e])[|es|] == e;
  }

  lemma {:induction false} PatchedPrefix(base: Bytes, es: seq<Entry>, more: seq<Entry>, won: set<nat>, p: PageId,
      n: nat)
    requires n <= |es|
    ensures Patched(base, es + more, won, p, n) == Patched(base, es, won, p, n)
  {
    if n > 0 { PatchedPrefix(base, es, more, won, p, n - 1); }
  }

  /** f tells where in the history the entries of the file are. */
  ghost predicate Places(es: seq<Entry>, r: seq<Entry>, f: seq<nat>) {
    && |f| == |r| && (forall i :: 0 <= i < |f| ==> f[i] < |es| && es[f[i]] == r[i])
    && (forall i, j :: 0 <= i < j < |f| ==> f[i] < f[j])
    && forall j: nat :: j < |es| && es[j].lsn != 0 ==> j in f
  }

  lemma {:induction false} RealPlaces(es: seq<Entry>) returns (f: seq<nat>)
    ensures Places(es, Real(es), f)
  {
    if es == [] {
      f := [];
    } else {
      var n := |es| - 1;
      var g := RealPlaces(es[..n]);
      assert es[..n] + [es[n]] == es;
      RealAppend(es[..n], es[n]);
      f := if es[n].lsn == 0 then g else g + [n];
      PlacesAppend(es[..n], es[n], Real(es[..n]), g);
    }
  }

  lemma PlacesAppend(es: seq<Entry>, e: Entry, r: seq<Entry>, g: seq<nat>)
    requires Places(es, r, g)
    ensures Places(es + [e], if e.lsn == 0 then r else r + [e], if e.lsn == 0 then g else g + [|es|])
  {
    var f := if e.lsn == 0 then g else g + [|es|];
    forall j: nat | j < |es + [e]| && (es + [e])[j].lsn != 0 ensures j in f {
      if j < |es| { assert es[j].lsn != 0; } else { assert f[|g|] == j; }
    }
  }

  /** The LSN of the last winning change of a page. */
  lemma SurvivorSame(es: seq<Entry>, r: seq<Entry>, f: seq<nat>, won: set<nat>, p: PageId)
    requires Ordered(es) && Places(es, r, f)
    ensures SurvivorLsn(r, won, p) == SurvivorLsn(es, won, p)
  {
    var k, l := LastWin(es, won, p, |es|), LastWin(r, won, p, |r|);
    if k >= 0 {
      var i :| 0 <= i < |f| && f[i] == k;
      assert r[i] == es[k] && i <= l;
    }
  }

  lemma RealSurvivor(es: seq<Entry>, won: set<nat>, p: PageId)
    requires Ordered(es)
    ensures SurvivorLsn(Real(es), won, p) == SurvivorLsn(es, won, p)
  {
    var f := RealPlaces(es);
    SurvivorSame(es, Real(es), f, won, p);
  }

  lemma RealWinners(es: seq<Entry>)
    requires Ordered(es)
    ensures Winners(Real(es)) == Winners(es) && Quitters(Real(es)) <= Quitters(es)
  {
    var r := Real(es);
    forall tx | tx in Winners(r) ensures tx in Winners(es) {
      var i: nat :| i < |r| && r[i].action.CommitTx? && r[i].tx == tx;
      var j := RealFrom(es, i);
    }
    forall tx | tx in Winners(es) ensures tx in Winners(r) {
      var j: nat :| j < |es| && es[j].action.CommitTx? && es[j].tx == tx;
      var i := RealListed(es, j);
    }
    forall tx | tx in Quitters(r) ensures tx in Quitters(es) {
      var i: nat :| i < |r| && r[i].action.AbortTx? && r[i].tx == tx;
      var j := RealFrom(es, i);
    }
  }

  lemma RealAffected(es: seq<Entry>, won: set<nat>)
    requires Ordered(es)
    ensures Affected(Real(es), won) == Affected(es, won)
  {
    var r := Real(es);
    forall i: nat | i < |r| && r[i].action.WritePage? && r[i].tx !in won
      ensures r[i].action.mutation.page in Affected(es, won)
    {
      var j := RealFrom(es, i);
    }
    forall j: nat | j < |es| && es[j].action.WritePage? && es[j].tx !in won
      ensures es[j].action.mutation.page in Affected(r, won)
    {
      var i := RealListed(es, j);
    }
  }

  lemma RealRevoked(es: seq<Entry>, won: set<nat>)
    requires Ordered(es)
    ensures Revoked(Real(es), won) == Revoked(es, won)
  {
    var r := Real(es);
    forall i: nat | i < |r| && r[i].action.AllocatePage? && r[i].tx !in won ensures r[i].action.page in Revoked(es, won)
    {
      var j := RealFrom(es, i);
    }
    forall j: nat | j < |es| && es[j].action.AllocatePage? && es[j].tx !in won
      ensures es[j].action.page in Revoked(r, won)
    {
      var i := RealListed(es, j);
    }
  }

  /** Where a page's history begins. */
  lemma FirstSame(es: seq<Entry>, r: seq<Entry>, f: seq<nat>, p: PageId)
    requires Ordered(es) && Places(es, r, f)
    ensures BaseImage(r, p) == BaseImage(es, p)
  {
    var k, l := FirstOn(es, p, 0), FirstOn(r, p, 0);
    if k < |es| {
      var i :| 0 <= i < |f| && f[i] == k;
      assert r[i] == es[k] && l <= i;
    }
  }

  lemma RealFirst(es: seq<Entry>, p: PageId)
    requires Ordered(es)
    ensures BaseImage(Real(es), p) == BaseImage(es, p)
  {
    var f := RealPlaces(es);
    FirstSame(es, Real(es), f, p);
  }

  /** Recovery from the file is recovery from the history. */
  lemma MarksDoNotMatter(s: Store, es: seq<Entry>)
    requires Ordered(es)
    ensures Recover(s, Real(es)) == Recover(s, es)
  {
    var r, won := Real(es), Winners(es);
    RealWinners(es);
    RealRedo(s, es, won);
    RealAffected(es, won);
    RealRevoked(es, won);
    forall p | p in Affected(es, won) ensures Rebuilt(r, won, p) == Rebuilt(es, won, p) {
      RealFirst(es, p);
      RealPatched(BaseImage(es, p), es, won, p);
      RealSurvivor(es, won, p);
    }
    if Redo(s, es, won, |es|).Some? { SameUndo(Redo(s, es, won, |es|).value, r, es, won); }
  }

  lemma SameUndo(t: Store, r: seq<Entry>, es: seq<Entry>, won: set<nat>)
    requires Affected(r, won) == Affected(es, won) && Revoked(r, won) == Revoked(es, won)
    requires forall p :: p in Affected(es, won) ==> Rebuilt(r, won, p) == Rebuilt(es, won, p)
    ensures Undo(t, r, won) == Undo(t, es, won)
  {
    if Affected(es, won) <= t.live { assert Undo(t, r, won).value.pages == Undo(t, es, won).value.pages; }
  }
}
