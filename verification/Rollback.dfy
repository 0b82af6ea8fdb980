/** What reverse rollback of captured page changes does to the store. */
module Rollbacks {
  import opened StorageTypes
  import opened WalCodec

  type View = map<PageId, Page>

  /** The page as it was before the mutation. */
  function Before(m: PhysicalMutation): Page {
    Page(m.before, m.previousLsn)
  }

  /** The store after the mutations from k on are undone, last one first. */
  function Undone(v: View, ms: seq<PhysicalMutation>, k: nat): View
    requires k <= |ms|
    decreases |ms| - k
  {
    if k == |ms| then v else Undone(v, ms, k + 1)[ms[k].page := Before(ms[k])]
  }

  /** The first mutation of p from k on, or |ms|. */
  function FirstOf(ms: seq<PhysicalMutation>, p: PageId, k: nat): (f: nat)
    requires k <= |ms|
    ensures k <= f <= |ms| && (f < |ms| ==> ms[f].page == p) && forall j :: k <= j < f ==> ms[j].page != p
    decreases |ms| - k
  {
    if k == |ms| || ms[k].page == p then k else FirstOf(ms, p, k + 1)
  }

  /** Every page that was changed is back to what its earliest mutation found; the others are as they were. */
  lemma {:induction false} UndoneAt(v: View, ms: seq<PhysicalMutation>, k: nat, p: PageId)
    requires k <= |ms| && p in v
    ensures p in Undone(v, ms, k)
    ensures var f := FirstOf(ms, p, k); Undone(v, ms, k)[p] == if f < |ms| then Before(ms[f]) else v[p]
    decreases |ms| - k
  {
    if k < |ms| { UndoneAt(v, ms, k + 1, p); }
  }

  lemma {:induction false} UndoneKeys(v: View, ms: seq<PhysicalMutation>, k: nat)
    requires k <= |ms| && forall i :: k <= i < |ms| ==> ms[i].page in v
    ensures Undone(v, ms, k).Keys == v.Keys
    decreases |ms| - k
  {
    if k < |ms| { UndoneKeys(v, ms, k + 1); }
  }

  /** Undoing the last mutation first. */
  lemma {:induction false} UndoneLast(v: View, ms: seq<PhysicalMutation>, m: PhysicalMutation, k: nat)
    requires k <= |ms|
    ensures Undone(v, ms + [m], k) == Undone(v[m.page := Before(m)], ms, k)
    decreases |ms| - k
  {
    if k < |ms| {
      UndoneLast(v, ms, m, k + 1);
      assert (ms + [m])[k] == ms[k];
    } else {
      assert Undone(v, ms + [m], k + 1) == v;
    }
  }

  // ---- Captured work ------------------------------------------------------------------

  datatype Work = Work(view: View, mutations: seq<PhysicalMutation>)

  /** One captured change: the mutation records what the page held, and the page gets the new content. */
  ghost predicate Captures(a: Work, b: Work, p: PageId) {
    && p in a.view && p in b.view && b.view == a.view[p := b.view[p]]
    && |b.mutations| == |a.mutations| + 1 && b.mutations[..|a.mutations|] == a.mutations
    && var m := b.mutations[|a.mutations|];
       m.page == p && Before(m) == a.view[p] && m.after == b.view[p].data
  }

  /** A captured change gets its log position: the page's LSN changes, its content does not. */
  ghost predicate Finalizes(a: Work, b: Work, p: PageId) {
    b.mutations == a.mutations && p in a.view && p in b.view && b.view == a.view[p := b.view[p]]
      && FirstOf(a.mutations, p, 0) < |a.mutations|
  }

  ghost predicate WorkStep(a: Work, b: Work, p: PageId) {
    Captures(a, b, p) || Finalizes(a, b, p)
  }

  ghost predicate IsWork(run: seq<Work>) {
    && run != [] && run[0].mutations == []
    && forall i :: 0 <= i < |run| - 1 ==> Worked(run[i], run[i + 1])
  }

  ghost predicate Worked(a: Work, b: Work) {
    exists p: PageId :: WorkStep(a, b, p)
  }

  /** Mutated pages exist. */
  ghost predicate Grounded(w: Work) {
    forall i :: 0 <= i < |w.mutations| ==> w.mutations[i].page in w.view
  }

  lemma CaptureUndone(a: Work, b: Work, p: PageId)
    requires Captures(a, b, p)
    ensures Undone(b.view, b.mutations, 0) == Undone(a.view, a.mutations, 0)
  {
    var m := b.mutations[|a.mutations|];
    assert b.mutations == a.mutations + [m];
    UndoneLast(b.view, a.mutations, m, 0);
    assert b.view[p := Before(m)] == a.view;
  }

  lemma FinalizeUndone(a: Work, b: Work, p: PageId)
    requires Finalizes(a, b, p) && Grounded(a)
    ensures Undone(b.view, b.mutations, 0) == Undone(a.view, a.mutations, 0)
  {
    UndoneKeys(a.view, a.mutations, 0);
    UndoneKeys(b.view, a.mutations, 0);
    forall q | q in a.view ensures Undone(b.view, a.mutations, 0)[q] == Undone(a.view, a.mutations, 0)[q] {
      UndoneAt(a.view, a.mutations, 0, q);
      UndoneAt(b.view, a.mutations, 0, q);
    }
  }

  lemma StaysGrounded(a: Work, b: Work, p: PageId)
    requires WorkStep(a, b, p) && Grounded(a)
    ensures Grounded(b)
  {
    forall i | 0 <= i < |b.mutations| ensures b.mutations[i].page in b.view {
      if i < |a.mutations| { assert a.mutations[i].page in a.view; }
      if Captures(a, b, p) && i < |a.mutations| { assert b.mutations[..|a.mutations|][i] == a.mutations[i]; }
    }
  }

  lemma StepUndone(a: Work, b: Work, p: PageId)
    requires WorkStep(a, b, p) && Grounded(a)
    ensures Grounded(b) && Undone(b.view, b.mutations, 0) == Undone(a.view, a.mutations, 0)
  {
    StaysGrounded(a, b, p);
    if Captures(a, b, p) { CaptureUndone(a, b, p); } else { FinalizeUndone(a, b, p); }
  }

  /** Rolling back everything a transaction captured, in any interleaving of pages, leads back to where it began. */
  lemma {:induction false} RollbackIsIdentity(run: seq<Work>, n: nat)
    requires IsWork(run) && n < |run|
    ensures Grounded(run[n]) && Undone(run[n].view, run[n].mutations, 0) == run[0].view
  {
    if n > 0 {
      RollbackIsIdentity(run, n - 1);
      assert Worked(run[n - 1], run[n]);
      var p: PageId :| WorkStep(run[n - 1], run[n], p);
      StepUndone(run[n - 1], run[n], p);
    }
  }
}
