/** Logs written under exclusive page locks, and what they say a page should hold after a crash. */
module RecoveryHistory {
  import opened StorageTypes
  import opened WalCodec
  import opened RecoveryAnalysis
  import opened Redos
  import opened Undos

  predicate Ends(e: Entry, tx: nat) {
    e.tx == tx && (e.action.CommitTx? || e.action.AbortTx?)
  }

  ghost predicate EndedBy(es: seq<Entry>, tx: nat, n: nat)
    requires n <= |es|
  {
    exists i :: 0 <= i < n && Ends(es[i], tx)
  }

  predicate Writes(e: Entry, tx: nat, p: PageId) {
    e.tx == tx && OnPage(e, p)
  }

  /** The first change of p by tx among n records, or -1. */
  function FirstBy(es: seq<Entry>, tx: nat, p: PageId, n: nat): (f: int)
    requires n <= |es|
    ensures -1 <= f < n && (f >= 0 ==> Writes(es[f], tx, p))
    ensures forall j :: 0 <= j < (if f >= 0 then f else n) ==> !Writes(es[j], tx, p)
  {
    if n == 0 then -1
    else
      var f := FirstBy(es, tx, p, n - 1);
      if f >= 0 then f else if Writes(es[n - 1], tx, p) then n - 1 else -1
  }

  /** The last change of p by tx among n records, or -1. */
  function LastBy(es: seq<Entry>, tx: nat, p: PageId, n: nat): (k: int)
    requires n <= |es|
    ensures -1 <= k < n && (k >= 0 ==> Writes(es[k], tx, p))
    ensures forall j :: k < j < n ==> !Writes(es[j], tx, p)
  {
    if n == 0 then -1 else if Writes(es[n - 1], tx, p) then n - 1 else LastBy(es, tx, p, n - 1)
  }

  /** The last change of p by anyone among n records, or -1. */
  function LastOn(es: seq<Entry>, p: PageId, n: nat): (k: int)
    requires n <= |es|
    ensures -1 <= k < n && (k >= 0 ==> OnPage(es[k], p))
    ensures forall j :: k < j < n ==> !OnPage(es[j], p)
  {
    if n == 0 then -1 else if OnPage(es[n - 1], p) then n - 1 else LastOn(es, p, n - 1)
  }

  /**
   * The page as transactions see it after n records: a change shows, an abort puts back the page from before its
   * first change.
   */
  function Seen(base: Page, es: seq<Entry>, p: PageId, n: nat): Page
    requires n <= |es|
    decreases n
  {
    if n == 0 then base
    else
      var e := es[n - 1];
      if OnPage(e, p) then Page(e.action.mutation.after, e.lsn)
      else
        var f := if e.action.AbortTx? then FirstBy(es, e.tx, p, n - 1) else -1;
        if f >= 0 then Seen(base, es, p, f) else Seen(base, es, p, n - 1)
  }

  /** The page content that matters: committed transactions, each taking effect whole when it commits. */
  function Truth(base: Bytes, es: seq<Entry>, p: PageId, n: nat): Bytes
    requires n <= |es|
  {
    if n == 0 then base
    else
      var e := es[n - 1];
      var k := if e.action.CommitTx? then LastBy(es, e.tx, p, n - 1) else -1;
      if k >= 0 then es[k].action.mutation.after else Truth(base, es, p, n - 1)
  }

  /** A transaction writes nothing more after its terminal record. */
  ghost predicate EndsLast(es: seq<Entry>) {
    forall i, j :: 0 <= i < j < |es| ==> !Ends(es[i], es[j].tx)
  }

  /** Page locks are exclusive and held until the terminal record. */
  ghost predicate Exclusive(es: seq<Entry>) {
    forall i, j, p :: 0 <= i < j < |es| && OnPage(es[i], p) && OnPage(es[j], p) && es[i].tx != es[j].tx ==>
      EndedBy(es, es[i].tx, j)
  }

  /** Every before-image is what the page showed. */
  ghost predicate Faithful(base: map<PageId, Page>, es: seq<Entry>) {
    forall i, p :: 0 <= i < |es| && OnPage(es[i], p) ==>
      p in base && es[i].action.mutation.before == Seen(base[p], es, p, i).data
  }

  ghost predicate Lawful(base: map<PageId, Page>, es: seq<Entry>) {
    EndsLast(es) && Exclusive(es) && Faithful(base, es)
  }

  // ---- Recovery's view of a lawful log ------------------------------------------------

  /** The transaction that still has page p locked after n records, as the position of its last change. */
  ghost predicate Held(es: seq<Entry>, p: PageId, n: nat)
    requires n <= |es|
  {
    LastOn(es, p, n) >= 0 && !EndedBy(es, es[LastOn(es, p, n)].tx, n)
  }

  ghost function Holder(es: seq<Entry>, p: PageId, n: nat): nat
    requires n <= |es| && Held(es, p, n)
  {
    es[LastOn(es, p, n)].tx
  }

  /** The page that the last winner left, or the base. */
  function WinPage(base: Page, es: seq<Entry>, won: set<nat>, p: PageId, n: nat): Page
    requires n <= |es|
  {
    var k := LastWin(es, won, p, n);
    if k >= 0 then Page(es[k].action.mutation.after, es[k].lsn) else base
  }

  lemma FirstOfHolder(es: seq<Entry>, p: PageId, n: nat)
    requires n <= |es| && Held(es, p, n)
    ensures 0 <= FirstBy(es, Holder(es, p, n), p, n) <= LastOn(es, p, n)
  {
  }

  /** How the patched image, the visible page and the committed content relate after n records. */
  ghost predicate Agree(base: Page, es: seq<Entry>, won: set<nat>, p: PageId, n: nat)
    requires n <= |es|
  {
    var left := WinPage(base, es, won, p, n);
    && Patched(base.data, es, won, p, n) == left.data
    && if !Held(es, p, n) then
         Seen(base, es, p, n) == left && left.data == Truth(base.data, es, p, n)
       else
         var f := FirstBy(es, Holder(es, p, n), p, n);
         && f >= 0
         && Seen(base, es, p, f).data == Truth(base.data, es, p, n)
         && left == if Holder(es, p, n) in won then Seen(base, es, p, n) else Seen(base, es, p, f)
  }

  /** A winner is never seen aborting, a committed transaction is always a winner. */
  ghost predicate Judges(es: seq<Entry>, won: set<nat>) {
    forall i :: 0 <= i < |es| ==>
      (es[i].action.CommitTx? ==> es[i].tx in won) && (es[i].action.AbortTx? ==> es[i].tx !in won)
  }

  lemma OverlayExact(m: PhysicalMutation)
    requires |m.before| == |m.after|
    ensures Overlay(m.before, m) == m.after
  {
  }

  /** Only the holder of a page can change it. */
  lemma HolderWrites(es: seq<Entry>, p: PageId, n: nat)
    requires n < |es| && EndsLast(es) && Exclusive(es) && OnPage(es[n], p)
    ensures Held(es, p, n) ==> es[n].tx == Holder(es, p, n)
    ensures Held(es, p, n + 1) && Holder(es, p, n + 1) == es[n].tx
    ensures FirstBy(es, es[n].tx, p, n + 1) == if Held(es, p, n) then FirstBy(es, es[n].tx, p, n) else n
  {
    if Held(es, p, n) {
      FirstOfHolder(es, p, n);
    }
  }

  lemma AgreeWrite(base: Page, es: seq<Entry>, won: set<nat>, p: PageId, n: nat)
    requires n < |es| && EndsLast(es) && Exclusive(es) && OnPage(es[n], p) && Agree(base, es, won, p, n)
    requires es[n].action.mutation.before == Seen(base, es, p, n).data && Sized(es[n].action.mutation)
    ensures Agree(base, es, won, p, n + 1)
  {
    HolderWrites(es, p, n);
    OverlayExact(es[n].action.mutation);
  }

  /** Records about other pages and transactions that do not hold the page leave everything as it is. */
  lemma AgreeOther(base: Page, es: seq<Entry>, won: set<nat>, p: PageId, n: nat)
    requires n < |es| && EndsLast(es) && Exclusive(es) && !OnPage(es[n], p) && Agree(base, es, won, p, n)
    requires !(Held(es, p, n) && Ends(es[n], Holder(es, p, n)))
    ensures Agree(base, es, won, p, n + 1)
  {
    StaysHeld(es, p, n);
    if es[n].action.CommitTx? || es[n].action.AbortTx? {
      NeverWrote(es, p, n);
    }
  }

  lemma StaysHeld(es: seq<Entry>, p: PageId, n: nat)
    requires n < |es| && !OnPage(es[n], p) && !(Held(es, p, n) && Ends(es[n], Holder(es, p, n)))
    ensures Held(es, p, n + 1) <==> Held(es, p, n)
    ensures Held(es, p, n) ==> Holder(es, p, n + 1) == Holder(es, p, n)
    ensures Held(es, p, n) ==> FirstBy(es, Holder(es, p, n), p, n + 1) == FirstBy(es, Holder(es, p, n), p, n)
  {
    var k := LastOn(es, p, n);
    assert LastOn(es, p, n + 1) == k;
    if k >= 0 && EndedBy(es, es[k].tx, n) {
      var i :| 0 <= i < n && Ends(es[i], es[k].tx);
      assert EndedBy(es, es[k].tx, n + 1);
    }
  }

  /** A transaction that ends without holding the page has never changed it. */
  lemma NeverWrote(es: seq<Entry>, p: PageId, n: nat)
    requires n < |es| && EndsLast(es) && Exclusive(es) && Ends(es[n], es[n].tx)
    requires !(Held(es, p, n) && es[n].tx == Holder(es, p, n))
    ensures FirstBy(es, es[n].tx, p, n) == -1 && LastBy(es, es[n].tx, p, n) == -1
  {
    var f := LastBy(es, es[n].tx, p, n);
    if f >= 0 { LocksOut(es, f, LastOn(es, p, n), p); }
  }

  lemma LocksOut(es: seq<Entry>, i: nat, j: nat, p: PageId)
    requires j < |es| && i <= j && Exclusive(es) && OnPage(es[i], p) && OnPage(es[j], p)
    ensures es[i].tx == es[j].tx || EndedBy(es, es[i].tx, j)
  {
  }

  lemma AgreeCommit(base: Page, es: seq<Entry>, won: set<nat>, p: PageId, n: nat)
    requires n < |es| && EndsLast(es) && Exclusive(es) && Judges(es, won) && Agree(base, es, won, p, n)
    requires es[n].action.CommitTx? && Held(es, p, n) && es[n].tx == Holder(es, p, n)
    ensures Agree(base, es, won, p, n + 1)
  {
    Released(es, p, n);
    assert LastBy(es, es[n].tx, p, n) == LastOn(es, p, n);
    SeenSince(base, es, p, n);
  }

  lemma AgreeAbort(base: Page, es: seq<Entry>, won: set<nat>, p: PageId, n: nat)
    requires n < |es| && EndsLast(es) && Exclusive(es) && Judges(es, won) && Agree(base, es, won, p, n)
    requires es[n].action.AbortTx? && Held(es, p, n) && es[n].tx == Holder(es, p, n)
    ensures Agree(base, es, won, p, n + 1)
  {
    Released(es, p, n);
    FirstOfHolder(es, p, n);
  }

  lemma Released(es: seq<Entry>, p: PageId, n: nat)
    requires n < |es| && Held(es, p, n) && Ends(es[n], Holder(es, p, n))
    ensures !Held(es, p, n + 1)
  {
    assert LastOn(es, p, n + 1) == LastOn(es, p, n);
  }

  /** While a transaction holds the page, the page shows its last change. */
  lemma SeenSince(base: Page, es: seq<Entry>, p: PageId, n: nat)
    requires n <= |es| && EndsLast(es) && Exclusive(es) && Held(es, p, n)
    ensures var k := LastOn(es, p, n); Seen(base, es, p, n) == Page(es[k].action.mutation.after, es[k].lsn)
  {
    SeenAfter(base, es, p, LastOn(es, p, n), n);
  }

  lemma {:induction false} SeenAfter(base: Page, es: seq<Entry>, p: PageId, k: nat, n: nat)
    requires k < n <= |es| && EndsLast(es) && Exclusive(es) && OnPage(es[k], p) && !EndedBy(es, es[k].tx, n)
    requires forall j :: k < j < n ==> !OnPage(es[j], p)
    ensures Seen(base, es, p, n) == Page(es[k].action.mutation.after, es[k].lsn)
  {
    if k + 1 < n {
      SeenAfter(base, es, p, k, n - 1);
      assert LastOn(es, p, n - 1) == k;
      if es[n - 1].action.AbortTx? { NeverWrote(es, p, n - 1); }
    }
  }

  lemma AgreeStep(base: Page, es: seq<Entry>, won: set<nat>, p: PageId, n: nat)
    requires n < |es| && EndsLast(es) && Exclusive(es) && Judges(es, won) && Agree(base, es, won, p, n)
    requires OnPage(es[n], p) ==>
      Sized(es[n].action.mutation) && es[n].action.mutation.before == Seen(base, es, p, n).data
    ensures Agree(base, es, won, p, n + 1)
  {
    if OnPage(es[n], p) {
      AgreeWrite(base, es, won, p, n);
    } else if !(Held(es, p, n) && Ends(es[n], Holder(es, p, n))) {
      AgreeOther(base, es, won, p, n);
    } else if es[n].action.CommitTx? {
      AgreeCommit(base, es, won, p, n);
    } else {
      AgreeAbort(base, es, won, p, n);
    }
  }

  lemma {:induction false} AlwaysAgree(base: Page, es: seq<Entry>, won: set<nat>, p: PageId, n: nat)
    requires n <= |es| && EndsLast(es) && Exclusive(es) && Judges(es, won) && AllSized(es)
    requires forall i :: 0 <= i < |es| && OnPage(es[i], p) ==> es[i].action.mutation.before == Seen(base, es, p, i).data
    ensures Agree(base, es, won, p, n)
  {
    if n > 0 {
      AlwaysAgree(base, es, won, p, n - 1);
      AgreeStep(base, es, won, p, n - 1);
    }
  }

  /** A lawful log's winners are exactly the transactions that committed. */
  lemma WinnersJudge(es: seq<Entry>)
    requires EndsLast(es)
    ensures Judges(es, Winners(es)) && Winners(es) !! Quitters(es)
  {
    forall tx | tx in Winners(es) ensures tx !in Quitters(es) {
      var i :| 0 <= i < |es| && es[i].action.CommitTx? && es[i].tx == tx;
      if tx in Quitters(es) {
        var j :| 0 <= j < |es| && es[j].action.AbortTx? && es[j].tx == tx;
        assert Ends(es[i], tx) && Ends(es[j], tx);
      }
    }
  }

  /** The image that UNDO computes is the committed content. */
  lemma PatchedIsTruth(base: Page, es: seq<Entry>, p: PageId)
    requires EndsLast(es) && Exclusive(es) && AllSized(es)
    requires forall i :: 0 <= i < |es| && OnPage(es[i], p) ==> es[i].action.mutation.before == Seen(base, es, p, i).data
    ensures Patched(base.data, es, Winners(es), p, |es|) == Truth(base.data, es, p, |es|)
    ensures WinPage(base, es, Winners(es), p, |es|).data == Truth(base.data, es, p, |es|)
  {
    WinnersJudge(es);
    AlwaysAgree(base, es, Winners(es), p, |es|);
    WinnersEnded(es);
  }

  /** Where everybody has ended, a page shows what the last winner left. */
  lemma EndedShowsWinner(base: Page, es: seq<Entry>, p: PageId)
    requires EndsLast(es) && Exclusive(es) && AllSized(es) && forall i :: 0 <= i < |es| ==> EndedBy(es, es[i].tx, |es|)
    requires forall i :: 0 <= i < |es| && OnPage(es[i], p) ==> es[i].action.mutation.before == Seen(base, es, p, i).data
    ensures Seen(base, es, p, |es|) == WinPage(base, es, Winners(es), p, |es|)
  {
    WinnersJudge(es);
    AlwaysAgree(base, es, Winners(es), p, |es|);
  }

  lemma WinnersEnded(es: seq<Entry>)
    ensures forall tx :: tx in Winners(es) ==> EndedBy(es, tx, |es|)
  {
    forall tx | tx in Winners(es) ensures EndedBy(es, tx, |es|) {
      var i :| 0 <= i < |es| && es[i].action.CommitTx? && es[i].tx == tx;
      assert Ends(es[i], tx);
    }
  }

  // ---- Prefixes and extensions --------------------------------------------------------

  lemma {:induction false} FirstByPrefix(es: seq<Entry>, m: nat, tx: nat, p: PageId, n: nat)
    requires n <= m <= |es|
    ensures FirstBy(es[..m], tx, p, n) == FirstBy(es, tx, p, n)
  {
    if n > 0 { FirstByPrefix(es, m, tx, p, n - 1); }
  }

  lemma {:induction false} SeenPrefix(base: Page, es: seq<Entry>, m: nat, p: PageId, n: nat)
    requires n <= m <= |es|
    ensures Seen(base, es[..m], p, n) == Seen(base, es, p, n)
    decreases n
  {
    if n > 0 {
      FirstByPrefix(es, m, es[n - 1].tx, p, n - 1);
      SeenPrefix(base, es, m, p, n - 1);
      var f := FirstBy(es, es[n - 1].tx, p, n - 1);
      if f >= 0 { SeenPrefix(base, es, m, p, f); }
    }
  }

  lemma {:induction false} LastOnPrefix(es: seq<Entry>, m: nat, p: PageId, n: nat)
    requires n <= m <= |es|
    ensures LastOn(es[..m], p, n) == LastOn(es, p, n)
  {
    if n > 0 { LastOnPrefix(es, m, p, n - 1); }
  }

  lemma ExclusivePrefix(es: seq<Entry>, m: nat)
    requires m <= |es| && Exclusive(es)
    ensures Exclusive(es[..m])
  {
    var es' := es[..m];
    forall i, j, p | 0 <= i < j < m && OnPage(es'[i], p) && OnPage(es'[j], p) && es'[i].tx != es'[j].tx
      ensures EndedBy(es', es'[i].tx, j)
    {
      assert EndedBy(es, es[i].tx, j);
      var k :| 0 <= k < j && Ends(es[k], es[i].tx);
      assert Ends(es'[k], es'[i].tx);
    }
  }

  lemma FaithfulPrefix(base: map<PageId, Page>, es: seq<Entry>, m: nat)
    requires m <= |es| && Faithful(base, es)
    ensures Faithful(base, es[..m])
  {
    forall i, p | 0 <= i < m && OnPage(es[..m][i], p)
      ensures p in base && es[..m][i].action.mutation.before == Seen(base[p], es[..m], p, i).data
    {
      assert OnPage(es[i], p);
      SeenPrefix(base[p], es, m, p, i);
    }
  }

  /** What a crash leaves of a lawful log is lawful. */
  lemma LawfulPrefix(base: map<PageId, Page>, es: seq<Entry>, m: nat)
    requires m <= |es| && Lawful(base, es)
    ensures Lawful(base, es[..m])
  {
    ExclusivePrefix(es, m);
    FaithfulPrefix(base, es, m);
  }
}
