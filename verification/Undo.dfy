/** UNDO: pages touched by losers are rebuilt from their logged history, byte by byte. */
module Undos {
  import opened StorageTypes
  import opened WalCodec
  import opened RecoveryAnalysis
  import opened Redos

  /** A logged change of page p, by anyone. */
  predicate OnPage(e: Entry, p: PageId) {
    e.action.WritePage? && e.action.mutation.page == p
  }

  ghost predicate AllSized(es: seq<Entry>) {
    forall i :: 0 <= i < |es| && es[i].action.WritePage? ==> Sized(es[i].action.mutation)
  }

  /** The image with the bytes that the mutation changed set to what it changed them to. */
  function Overlay(x: Bytes, m: PhysicalMutation): (y: Bytes)
    ensures |y| == |x|
  {
    seq(|x|, i requires 0 <= i < |x| => if i < |m.before| && i < |m.after| && m.before[i] != m.after[i] then m.after[i]
      else x[i])
  }

  /** The base image with the byte changes of the committed mutations of p among the first n records. */
  function Patched(base: Bytes, es: seq<Entry>, won: set<nat>, p: PageId, n: nat): (y: Bytes)
    requires n <= |es|
    ensures |y| == |base|
  {
    if n == 0 then base
    else
      var x := Patched(base, es, won, p, n - 1);
      if WinsOn(es[n - 1], won, p) then Overlay(x, es[n - 1].action.mutation) else x
  }

  /** A committed mutation of p that changes byte i. */
  predicate Changes(e: Entry, won: set<nat>, p: PageId, i: nat) {
    WinsOn(e, won, p) && var m := e.action.mutation; i < |m.before| && i < |m.after| && m.before[i] != m.after[i]
  }

  function LastChange(es: seq<Entry>, won: set<nat>, p: PageId, i: nat, n: nat): (k: int)
    requires n <= |es|
    ensures -1 <= k < n && (k >= 0 ==> Changes(es[k], won, p, i))
    ensures forall j :: k < j < n ==> !Changes(es[j], won, p, i)
  {
    if n == 0 then -1 else if Changes(es[n - 1], won, p, i) then n - 1 else LastChange(es, won, p, i, n - 1)
  }

  /** Last winner wins, byte by byte, whatever the interleaving with losers. */
  lemma {:induction false} LastWinnerWins(base: Bytes, es: seq<Entry>, won: set<nat>, p: PageId, n: nat, i: nat)
    requires n <= |es| && i < |base|
    ensures var k := LastChange(es, won, p, i, n);
            Patched(base, es, won, p, n)[i] == if k >= 0 then es[k].action.mutation.after[i] else base[i]
  {
    if n > 0 { LastWinnerWins(base, es, won, p, n - 1, i); }
  }

  /** Where the history of p begins. */
  function FirstOn(es: seq<Entry>, p: PageId, from: nat): (k: nat)
    requires from <= |es|
    ensures from <= k <= |es| && (k < |es| ==> OnPage(es[k], p))
    ensures forall j :: from <= j < k ==> !OnPage(es[j], p)
    decreases |es| - from
  {
    if from == |es| || OnPage(es[from], p) then from else FirstOn(es, p, from + 1)
  }

  function BaseImage(es: seq<Entry>, p: PageId): Bytes {
    var k := FirstOn(es, p, 0);
    if k < |es| then es[k].action.mutation.before else []
  }

  /** The LSN of the last committed mutation of p, or zero. */
  function SurvivorLsn(es: seq<Entry>, won: set<nat>, p: PageId): nat {
    var k := LastWin(es, won, p, |es|);
    if k >= 0 then es[k].lsn else 0
  }

  function Rebuilt(es: seq<Entry>, won: set<nat>, p: PageId): Page {
    Page(Patched(BaseImage(es, p), es, won, p, |es|), SurvivorLsn(es, won, p))
  }

  /** The pages that some loser changed. */
  ghost function Affected(es: seq<Entry>, won: set<nat>): set<PageId> {
    set i | 0 <= i < |es| && es[i].action.WritePage? && es[i].tx !in won :: es[i].action.mutation.page
  }

  /** The pages that some loser allocated. */
  ghost function Revoked(es: seq<Entry>, won: set<nat>): set<PageId> {
    set i | 0 <= i < |es| && es[i].action.AllocatePage? && es[i].tx !in won :: es[i].action.page
  }

  /**
   * The outcome of UNDO by a context that has rebuilt some pages already: None when a page to rebuild is not
   * allocated.
   */
  ghost function UndoAfter(s: Store, es: seq<Entry>, won: set<nat>, rebuilt: set<PageId>): Option<Store> {
    if Affected(es, won) - rebuilt <= s.live
    then Some(Store(map p | p in s.pages :: if p in Affected(es, won) - rebuilt then Rebuilt(es, won, p)
      else s.pages[p],
                    s.live - Revoked(es, won), s.count))
    else None
  }

  /** The outcome of UNDO by a new context. */
  ghost function Undo(s: Store, es: seq<Entry>, won: set<nat>): Option<Store> {
    UndoAfter(s, es, won, {})
  }

  /** REDO of the winners, then UNDO of the losers. */
  ghost function Recover(s: Store, es: seq<Entry>): Option<Store> {
    match Redo(s, es, Winners(es), |es|)
    case None => None
    case Some(t) => Undo(t, es, Winners(es))
  }

  /** Running UNDO again in the same context changes nothing, not even for pages that were released meanwhile. */
  lemma UndoAgain(s: Store, es: seq<Entry>, won: set<nat>, t: Store)
    requires Undo(s, es, won) == Some(t)
    ensures UndoAfter(t, es, won, Affected(es, won)) == Some(t)
  {
    var u := UndoAfter(t, es, won, Affected(es, won)).value;
    assert u.pages == t.pages && u.live == t.live;
  }

  // ---- Histories that are chains of images --------------------------------------------

  /** What page p holds after the first n records if every change took effect and nothing was rolled back. */
  function Content(base: Bytes, es: seq<Entry>, p: PageId, n: nat): Bytes
    requires n <= |es|
  {
    if n == 0 then base else if OnPage(es[n - 1], p) then es[n - 1].action.mutation.after
      else Content(base, es, p, n - 1)
  }

  ghost predicate IsChain(base: Bytes, es: seq<Entry>, p: PageId) {
    forall i :: 0 <= i < |es| && OnPage(es[i], p) ==> es[i].action.mutation.before == Content(base, es, p, i)
  }

  lemma {:induction false} ContentSize(base: Bytes, es: seq<Entry>, p: PageId, n: nat)
    requires n <= |es| && AllSized(es) && |base| == PAYLOAD_SIZE
    ensures |Content(base, es, p, n)| == PAYLOAD_SIZE
  {
    if n > 0 { ContentSize(base, es, p, n - 1); }
  }

  /** In a chain, a byte that no loser changed keeps its value at the crash. */
  lemma {:induction false} LoserFreeByte(base: Bytes, es: seq<Entry>, won: set<nat>, p: PageId, n: nat, i: nat)
    requires n <= |es| && AllSized(es) && i < |base| == PAYLOAD_SIZE && IsChain(base, es, p)
    requires forall j :: 0 <= j < n && OnPage(es[j], p) && es[j].tx !in won ==>
      es[j].action.mutation.before[i] == es[j].action.mutation.after[i]
    ensures |Content(base, es, p, n)| == PAYLOAD_SIZE
    ensures Patched(base, es, won, p, n)[i] == Content(base, es, p, n)[i]
  {
    ContentSize(base, es, p, n);
    if n > 0 { LoserFreeByte(base, es, won, p, n - 1, i); }
  }

  /** A byte that no winner changed goes back to the base. */
  lemma WinnerFreeByte(base: Bytes, es: seq<Entry>, won: set<nat>, p: PageId, i: nat)
    requires i < |base|
    requires forall j :: 0 <= j < |es| ==> !Changes(es[j], won, p, i)
    ensures Patched(base, es, won, p, |es|)[i] == base[i]
  {
    LastWinnerWins(base, es, won, p, |es|, i);
  }

  /** The base of a chain is the before-image of its first mutation. */
  lemma {:induction false} NothingBefore(base: Bytes, es: seq<Entry>, p: PageId, n: nat)
    requires n <= |es| && forall j :: 0 <= j < n ==> !OnPage(es[j], p)
    ensures Content(base, es, p, n) == base
  {
    if n > 0 { NothingBefore(base, es, p, n - 1); }
  }

  /** UNDO's page in a chain: crash-time bytes where no loser wrote, base bytes where no winner wrote. */
  lemma RebuiltFromChain(base: Bytes, es: seq<Entry>, won: set<nat>, p: PageId, i: nat)
    requires AllSized(es) && i < |base| == PAYLOAD_SIZE && IsChain(base, es, p) && FirstOn(es, p, 0) < |es|
    ensures |Content(base, es, p, |es|)| == PAYLOAD_SIZE && |Rebuilt(es, won, p).data| == PAYLOAD_SIZE
    ensures (forall j :: 0 <= j < |es| && OnPage(es[j], p) && es[j].tx !in won ==>
               es[j].action.mutation.before[i] == es[j].action.mutation.after[i])
            ==> Rebuilt(es, won, p).data[i] == Content(base, es, p, |es|)[i]
    ensures (forall j :: 0 <= j < |es| ==> !Changes(es[j], won, p, i)) ==> Rebuilt(es, won, p).data[i] == base[i]
  {
    ContentSize(base, es, p, |es|);
    var k := FirstOn(es, p, 0);
    NothingBefore(base, es, p, k);
    assert BaseImage(es, p) == base;
    if forall j :: 0 <= j < |es| && OnPage(es[j], p) && es[j].tx !in won ==>
         es[j].action.mutation.before[i] == es[j].action.mutation.after[i]
    {
      LoserFreeByte(base, es, won, p, |es|, i);
    }
    if forall j :: 0 <= j < |es| ==> !Changes(es[j], won, p, i) {
      WinnerFreeByte(base, es, won, p, i);
    }
  }
}
