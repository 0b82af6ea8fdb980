/** Every step of a run keeps the invariant that recovery relies on. */
module CrashSteps {
  import opened StorageTypes
  import opened WalCodec
  import opened PageManagers
  import opened RecoveryAnalysis
  import opened Redos
  import opened Undos
  import opened RecoveryHistory
  import opened CrashRuns

  lemma Extends(log: seq<Entry>, e: Entry)
    ensures (log + [e])[..|log|] == log
  {
  }

  /** Nothing about the past of a page changes when a record is appended. */
  lemma PastStays(base: Page, log: seq<Entry>, e: Entry, p: PageId, n: nat)
    requires n <= |log|
    ensures Seen(base, log + [e], p, n) == Seen(base, log, p, n) && LastOn(log + [e], p, n) == LastOn(log, p, n)
    ensures Held(log + [e], p, n) <==> Held(log, p, n)
  {
    Extends(log, e);
    SeenPrefix(base, log + [e], |log|, p, n);
    LastOnPrefix(log + [e], |log|, p, n);
    forall tx ensures EndedBy(log + [e], tx, n) <==> EndedBy(log, tx, n) { EndedStays(log, e, tx, n); }
  }

  lemma EndedStays(log: seq<Entry>, e: Entry, tx: nat, n: nat)
    requires n <= |log|
    ensures EndedBy(log + [e], tx, n) <==> EndedBy(log, tx, n)
  {
    forall i | 0 <= i < n ensures (log + [e])[i] == log[i] {}
    if EndedBy(log, tx, n) {
      var i :| 0 <= i < n && Ends(log[i], tx);
      assert Ends((log + [e])[i], tx);
    }
  }

  lemma FirstByStays(log: seq<Entry>, e: Entry, tx: nat, p: PageId, n: nat)
    requires n <= |log|
    ensures FirstBy(log + [e], tx, p, n) == FirstBy(log, tx, p, n)
  {
    Extends(log, e);
    FirstByPrefix(log + [e], |log|, tx, p, n);
  }

  lemma ExclusiveAppend(log: seq<Entry>, e: Entry)
    requires Exclusive(log) && (e.action.WritePage? ==> Lockable(log, e.tx, e.action.mutation.page))
    ensures Exclusive(log + [e])
  {
    var all := log + [e];
    forall i, j, p | 0 <= i < j < |all| && OnPage(all[i], p) && OnPage(all[j], p) && all[i].tx != all[j].tx
      ensures EndedBy(all, all[i].tx, j)
    {
      EndedStays(log, e, all[i].tx, j);
      if j < |log| {
        assert EndedBy(log, log[i].tx, j);
      } else {
        assert EndedBy(log, log[i].tx, |log|);
      }
    }
  }

  lemma FaithfulAppend(base: map<PageId, Page>, log: seq<Entry>, e: Entry)
    requires Faithful(base, log)
    requires e.action.WritePage? ==>
      var m := e.action.mutation; m.page in base && m.before == Seen(base[m.page], log, m.page, |log|).data
    ensures Faithful(base, log + [e])
  {
    var all := log + [e];
    forall i, p | 0 <= i < |all| && OnPage(all[i], p)
      ensures p in base && all[i].action.mutation.before == Seen(base[p], all, p, i).data
    {
      if i < |log| { assert OnPage(log[i], p); }
      PastStays(base[p], log, e, p, i);
    }
  }

  lemma LogsAppend(base: map<PageId, Page>, log: seq<Entry>, e: Entry)
    requires Ordered(log) && AllSized(log) && AllPlain(log) && Lawful(base, log) && Fresh(log, e.lsn)
      && Active(log, e.tx)
    requires Plain(e)
    requires e.action.WritePage? ==> var m := e.action.mutation;
      Sized(m) && Lockable(log, e.tx, m.page) && m.page in base
        && m.before == Seen(base[m.page], log, m.page, |log|).data
    ensures Ordered(log + [e]) && AllSized(log + [e]) && AllPlain(log + [e]) && Lawful(base, log + [e])
  {
    ExclusiveAppend(log, e);
    FaithfulAppend(base, log, e);
    var all := log + [e];
    assert EndsLast(all);
  }

  /** An active transaction that has changed a page holds it. */
  lemma WriterHolds(log: seq<Entry>, tx: nat, p: PageId)
    requires Exclusive(log) && Active(log, tx) && FirstBy(log, tx, p, |log|) >= 0
    ensures Held(log, p, |log|) && Holder(log, p, |log|) == tx
  {
    var f, k := FirstBy(log, tx, p, |log|), LastOn(log, p, |log|);
    LocksOut(log, f, k, p);
    EndedMonotone(log, tx, k, |log|);
  }

  lemma EndedMonotone(log: seq<Entry>, tx: nat, k: nat, n: nat)
    requires k <= n <= |log|
    ensures EndedBy(log, tx, k) ==> EndedBy(log, tx, n)
  {
  }

  // ---- What memory shows --------------------------------------------------------------

  /** A record that neither changes p nor rolls back a change of it leaves what p shows. */
  lemma ShowsStill(s: Sys, e: Entry, t: Sys, p: PageId)
    requires Shows(s, p) && EndsLast(s.log) && Exclusive(s.log) && Active(s.log, e.tx)
    requires !OnPage(e, p) && (e.action.AbortTx? ==> FirstBy(s.log, e.tx, p, |s.log|) < 0)
    requires t.base == s.base && t.log == s.log + [e]
    requires p in s.mem ==> p in t.mem && t.mem[p] == s.mem[p]
    requires p in s.undo ==> p in t.undo && t.undo[p] == s.undo[p]
    ensures Shows(t, p)
  {
    if p in s.base {
      var n := |s.log|;
      PastStays(s.base[p], s.log, e, p, n);
      FirstByStays(s.log, e, e.tx, p, n);
      if Held(t.log, p, n + 1) {
        HeldBefore(s.log, e, p);
        var tx := Holder(s.log, p, n);
        FirstByStays(s.log, e, tx, p, n);
        PastStays(s.base[p], s.log, e, p, FirstBy(s.log, tx, p, n));
      }
    }
  }

  lemma HeldBefore(log: seq<Entry>, e: Entry, p: PageId)
    requires !OnPage(e, p) && Held(log + [e], p, |log| + 1)
    ensures Held(log, p, |log|) && Holder(log + [e], p, |log| + 1) == Holder(log, p, |log|)
  {
    var all := log + [e];
    Extends(log, e);
    LastOnPrefix(all, |log|, p, |log|);
    var k := LastOn(log, p, |log|);
    assert all[k] == log[k];
    EndedStays(log, e, log[k].tx, |log|);
    EndedMonotone(all, log[k].tx, |log|, |log| + 1);
  }

  lemma ShowsChange(s: Sys, tx: nat, p: PageId, after: Bytes, lsn: nat, number: nat)
    requires Inv(s) && Enabled(s, Change(tx, p, after, lsn, number))
    ensures Shows(Next(s, Change(tx, p, after, lsn, number)), p)
  {
    var t := Next(s, Change(tx, p, after, lsn, number));
    var e := Entry(lsn, tx, Mutated(p, s.mem[p].data, after, number));
    assert Shows(s, p) && t.log == s.log + [e];
    LogsAppend(s.base, s.log, e);
    ShowsWritten(s, e, t, p);
  }

  lemma ShowsWritten(s: Sys, e: Entry, t: Sys, p: PageId)
    requires Shows(s, p) && p in s.base && Exclusive(s.log) && Active(s.log, e.tx) && OnPage(e, p)
      && |e.action.mutation.after| == PAYLOAD_SIZE
    requires t.base == s.base && t.log == s.log + [e] && EndsLast(t.log) && Exclusive(t.log)
    requires p in t.mem && t.mem[p] == Page(e.action.mutation.after, e.lsn)
    requires t.undo == if FirstBy(s.log, e.tx, p, |s.log|) >= 0 then s.undo else s.undo[p := s.mem[p]]
    ensures Shows(t, p)
  {
    var n, f := |s.log|, FirstBy(s.log, e.tx, p, |s.log|);
    HolderWrites(t.log, p, n);
    PastStays(s.base[p], s.log, e, p, n);
    FirstByStays(s.log, e, e.tx, p, n);
    if f >= 0 {
      WriterHolds(s.log, e.tx, p);
      PastStays(s.base[p], s.log, e, p, f);
    }
  }

  lemma ShowsRestored(s: Sys, e: Entry, t: Sys, p: PageId)
    requires Shows(s, p) && p in s.base && Exclusive(s.log) && Active(s.log, e.tx)
    requires e.action.AbortTx? && FirstBy(s.log, e.tx, p, |s.log|) >= 0
    requires t.base == s.base && t.log == s.log + [e] && p in t.mem && (p in s.undo ==> t.mem[p] == s.undo[p])
    ensures Shows(t, p)
  {
    var n, f := |s.log|, FirstBy(s.log, e.tx, p, |s.log|);
    WriterHolds(s.log, e.tx, p);
    FirstByStays(s.log, e, e.tx, p, n);
    PastStays(s.base[p], s.log, e, p, f);
    PastStays(s.base[p], s.log, e, p, n);
    Released(t.log, p, n);
  }

  lemma ShowsRollBack(s: Sys, tx: nat, lsn: nat, p: PageId)
    requires Stores(s) && Logs(s) && Shows(s, p) && Enabled(s, RollBack(tx, lsn))
    ensures Shows(Next(s, RollBack(tx, lsn)), p)
  {
    var t, e := Next(s, RollBack(tx, lsn)), Entry(lsn, tx, AbortTx);
    if p in s.base && FirstBy(s.log, tx, p, |s.log|) >= 0 {
      ShowsRestored(s, e, t, p);
    } else if p in s.base {
      ShowsStill(s, e, t, p);
    }
  }

  // ---- What is on disk ----------------------------------------------------------------

  lemma {:induction false} SeenIsVersion(base: Page, log: seq<Entry>, p: PageId, n: nat)
    requires n <= |log|
    ensures IsVersion(base, log, p, n, Seen(base, log, p, n))
    decreases n
  {
    if n > 0 {
      SeenIsVersion(base, log, p, n - 1);
      var f := FirstBy(log, log[n - 1].tx, p, n - 1);
      if f >= 0 { SeenIsVersion(base, log, p, f); }
    }
  }

  lemma StaleStill(s: Sys, e: Entry, t: Sys, p: PageId)
    requires s.durable <= |s.log| && Stale(s, p) && t.base == s.base && t.disk == s.disk && t.log == s.log + [e]
    requires s.durable <= t.durable <= |t.log|
    ensures Stale(t, p)
  {
    if p in s.base && p in s.disk && s.disk[p] != s.base[p] {
      var k :| 0 <= k < s.durable && OnPage(s.log[k], p)
        && s.disk[p] == Page(s.log[k].action.mutation.after, s.log[k].lsn);
      assert t.log[k] == s.log[k];
    }
  }

  /** The gate lets a page through only when the record of its last change is durable. */
  lemma StaleWriteBack(s: Sys, p: PageId)
    requires Inv(s) && Enabled(s, WriteBack(p))
    ensures Stale(Next(s, WriteBack(p)), p)
  {
    assert Shows(s, p);
    var x := s.mem[p];
    SeenIsVersion(s.base[p], s.log, p, |s.log|);
    if x != s.base[p] {
      var k :| 0 <= k < |s.log| && OnPage(s.log[k], p) && x == Page(s.log[k].action.mutation.after, s.log[k].lsn);
      assert k < s.durable;
    }
  }

  // ---- The catalog --------------------------------------------------------------------

  lemma QuittersStay(log: seq<Entry>, e: Entry)
    ensures Quitters(log + [e]) == Quitters(log) + (if e.action.AbortTx? then {e.tx} else {})
  {
    ClassesGrow(log, e);
  }

  lemma OrphansStay(log: seq<Entry>, e: Entry, p: PageId)
    ensures Orphaned(log, p) ==> Orphaned(log + [e], p)
  {
    if Orphaned(log, p) {
      QuittersStay(log, e);
      var k :| 0 <= k < |log| && Allocates(log[k], p) && log[k].tx in Quitters(log);
      assert Allocates((log + [e])[k], p);
    }
  }

  lemma GrantsStay(s: Sys, e: Entry, t: Sys, p: PageId)
    requires GrantStands(s, p) && t.log == s.log + [e] && s.durable <= t.durable <= |t.log|
    requires e.action.AbortTx? ==> !AllocatedBy(s.log, e.tx, p)
    ensures GrantStands(t, p)
  {
    QuittersStay(s.log, e);
    var k :| 0 <= k < s.durable && Allocates(s.log[k], p) && s.log[k].tx !in Quitters(s.log);
    assert Allocates(t.log[k], p);
  }

  lemma GrantedBeforeStays(log: seq<Entry>, e: Entry, p: PageId, i: nat)
    ensures GrantedBefore(log, p, i) ==> GrantedBefore(log + [e], p, i)
  {
    if GrantedBefore(log, p, i) {
      var k :| 0 <= k < i <= |log| && Allocates(log[k], p);
      assert Allocates((log + [e])[k], p);
    }
  }

  /** The catalog effect of an appended record. */
  ghost predicate AppendsTo(s: Sys, e: Entry, t: Sys) {
    && t.log == s.log + [e] && t.initial == s.initial && t.count == s.count && s.durable <= t.durable <= |t.log|
    && (e.action.AllocatePage? ==>
    e.action.page < s.count && e.action.page !in s.initial && Unallocated(s.log, e.action.page))
    && (e.action.WritePage? ==> e.action.mutation.page in s.live)
    && t.live == (if e.action.AbortTx? then set p | p in s.live && !AllocatedBy(s.log, e.tx, p) else s.live)
  }

  lemma AppendUnique(log: seq<Entry>, e: Entry)
    requires forall i, j, p: PageId :: 0 <= i < j < |log| && Allocates(log[i], p) ==> !Allocates(log[j], p)
    requires e.action.AllocatePage? ==> Unallocated(log, e.action.page)
    ensures var all := log + [e];
      forall i, j, p: PageId :: 0 <= i < j < |all| && Allocates(all[i], p) ==> !Allocates(all[j], p)
  {
  }

  lemma InitialStays(s: Sys, e: Entry, t: Sys)
    requires Catalogued(s) && AppendsTo(s, e, t)
    ensures s.initial <= t.live
  {
    forall p, i | p in s.initial && 0 <= i < |s.log| ensures !Allocates(s.log[i], p) {}
  }

  lemma LiveStands(s: Sys, e: Entry, t: Sys, p: PageId)
    requires Catalogued(s) && AppendsTo(s, e, t) && p in t.live && p !in t.initial
    ensures GrantStands(t, p)
  {
    assert GrantStands(s, p);
    GrantsStay(s, e, t, p);
  }

  lemma WriteGranted(s: Sys, e: Entry, t: Sys, i: nat, p: PageId)
    requires Catalogued(s) && AppendsTo(s, e, t) && i < |t.log| && OnPage(t.log[i], p)
    ensures p in t.initial || GrantedBefore(t.log, p, i)
  {
    if i < |s.log| {
      assert OnPage(s.log[i], p);
      GrantedBeforeStays(s.log, e, p, i);
    } else if p !in s.initial {
      assert GrantStands(s, p);
      var k :| 0 <= k < s.durable <= |s.log| && Allocates(s.log[k], p);
      assert Allocates(t.log[k], p);
    }
  }

  lemma WriteUsable(s: Sys, e: Entry, t: Sys, i: nat, p: PageId)
    requires Catalogued(s) && AppendsTo(s, e, t) && i < |t.log| && OnPage(t.log[i], p)
    ensures p in t.live || Orphaned(t.log, p)
  {
    if i < |s.log| { assert OnPage(s.log[i], p); }
    OrphansStay(s.log, e, p);
    if p in s.live && p !in t.live {
      QuittersStay(s.log, e);
      var k :| 0 <= k < |s.log| && s.log[k].tx == e.tx && Allocates(s.log[k], p);
      assert Allocates(t.log[k], p);
    }
  }

  lemma CataloguedAppend(s: Sys, e: Entry, t: Sys)
    requires Catalogued(s) && AppendsTo(s, e, t)
    ensures Catalogued(t)
  {
    AppendUnique(s.log, e);
    InitialStays(s, e, t);
    forall p: PageId | p in t.live && p !in t.initial ensures GrantStands(t, p) { LiveStands(s, e, t, p); }
    forall i, p: PageId | 0 <= i < |t.log| && OnPage(t.log[i], p) ensures p in t.initial || GrantedBefore(t.log, p, i) {
      WriteGranted(s, e, t, i, p);
    }
    forall i, p: PageId | 0 <= i < |t.log| && OnPage(t.log[i], p) ensures p in t.live || Orphaned(t.log, p) {
      WriteUsable(s, e, t, i, p);
    }
  }

  // ---- Steps --------------------------------------------------------------------------

  /** Records that change no page: Begin, Commit and allocations. */
  lemma KeepsPlain(s: Sys, e: Entry, t: Sys)
    requires Inv(s) && AppendsTo(s, e, t) && Active(s.log, e.tx) && Fresh(s.log, e.lsn)
    requires !e.action.WritePage? && !e.action.AbortTx?
    requires t.base == s.base && t.mem == s.mem && t.disk == s.disk && t.undo == s.undo
    ensures Inv(t)
  {
    LogsAppend(s.base, s.log, e);
    CataloguedAppend(s, e, t);
    forall p: PageId ensures Shows(t, p) { assert Shows(s, p); ShowsStill(s, e, t, p); }
    forall p: PageId ensures Stale(t, p) { assert Stale(s, p); StaleStill(s, e, t, p); }
  }

  lemma KeepsChange(s: Sys, tx: nat, p: PageId, after: Bytes, lsn: nat, number: nat)
    requires Inv(s) && Enabled(s, Change(tx, p, after, lsn, number))
    ensures Inv(Next(s, Change(tx, p, after, lsn, number)))
  {
    var t, e := Next(s, Change(tx, p, after, lsn, number)), Entry(lsn, tx, Mutated(p, s.mem[p].data, after, number));
    assert Shows(s, p);
    LogsAppend(s.base, s.log, e);
    CataloguedAppend(s, e, t);
    forall q: PageId ensures Shows(t, q) {
      assert Shows(s, q);
      if q == p { ShowsChange(s, tx, p, after, lsn, number); } else { ShowsStill(s, e, t, q); }
    }
    forall q: PageId ensures Stale(t, q) { assert Stale(s, q); StaleStill(s, e, t, q); }
  }

  lemma KeepsRollBack(s: Sys, tx: nat, lsn: nat)
    requires Inv(s) && Enabled(s, RollBack(tx, lsn))
    ensures Inv(Next(s, RollBack(tx, lsn)))
  {
    var t, e := Next(s, RollBack(tx, lsn)), Entry(lsn, tx, AbortTx);
    LogsAppend(s.base, s.log, e);
    CataloguedAppend(s, e, t);
    forall p: PageId ensures Shows(t, p) { assert Shows(s, p); ShowsRollBack(s, tx, lsn, p); }
    forall p: PageId ensures Stale(t, p) { assert Stale(s, p); StaleStill(s, e, t, p); }
  }

  lemma KeepsWriteBack(s: Sys, p: PageId)
    requires Inv(s) && Enabled(s, WriteBack(p))
    ensures Inv(Next(s, WriteBack(p)))
  {
    var t := Next(s, WriteBack(p));
    forall q: PageId ensures Shows(t, q) { assert Shows(s, q); }
    forall q: PageId ensures Stale(t, q) {
      assert Stale(s, q);
      if q == p { StaleWriteBack(s, p); }
    }
    SameCatalog(s, t);
  }

  lemma KeepsSpill(s: Sys, p: PageId, x: Page)
    requires Inv(s) && Enabled(s, Spill(p, x))
    ensures Inv(Next(s, Spill(p, x)))
  {
    var t := Next(s, Spill(p, x));
    forall q: PageId ensures Shows(t, q) { assert Shows(s, q); }
    forall q: PageId ensures Stale(t, q) { assert Stale(s, q); }
    SameCatalog(s, t);
  }

  lemma KeepsFlush(s: Sys)
    requires Inv(s)
    ensures Inv(Next(s, FlushLog))
  {
    var t := Next(s, FlushLog);
    forall q: PageId ensures Shows(t, q) { assert Shows(s, q); }
    forall q: PageId ensures Stale(t, q) { assert Stale(s, q); }
    SameCatalog(s, t);
  }

  lemma SameCatalog(s: Sys, t: Sys)
    requires Catalogued(s) && t.log == s.log && t.initial == s.initial && t.live == s.live
    requires s.count <= t.count && s.durable <= t.durable <= |t.log|
    ensures Catalogued(t)
  {
    forall p: PageId | p in t.live && p !in t.initial ensures GrantStands(t, p) {
      assert GrantStands(s, p);
      var k :| 0 <= k < s.durable <= |s.log| && Allocates(s.log[k], p) && s.log[k].tx !in Quitters(s.log);
      assert Allocates(t.log[k], p);
    }
  }

  lemma KeepsReserve(s: Sys)
    requires Inv(s) && Enabled(s, Reserve)
    ensures Inv(Next(s, Reserve))
  {
    var t := Next(s, Reserve);
    forall i, p: PageId | 0 <= i < |s.log| && OnPage(s.log[i], p) ensures p != s.count { assert p in s.base; }
    forall q: PageId ensures Shows(t, q) {
      assert Shows(s, q);
      if q == s.count { NeverSeen(NEW_PAGE, s.log, q, |s.log|); }
    }
    forall q: PageId ensures Stale(t, q) { assert Stale(s, q); }
    SameCatalog(s, t);
    ReserveFaithful(s);
  }

  lemma ReserveFaithful(s: Sys)
    requires Stores(s) && Faithful(s.base, s.log)
    ensures Faithful(s.base[s.count := NEW_PAGE], s.log)
  {
    forall i, p: PageId | 0 <= i < |s.log| && OnPage(s.log[i], p) ensures p != s.count { assert p in s.base; }
  }

  lemma {:induction false} NeverSeen(base: Page, es: seq<Entry>, p: PageId, n: nat)
    requires n <= |es| && forall j :: 0 <= j < n ==> !OnPage(es[j], p)
    ensures Seen(base, es, p, n) == base && !Held(es, p, n)
  {
    if n > 0 { NeverSeen(base, es, p, n - 1); }
  }

  lemma KeepsActivate(s: Sys, tx: nat, p: PageId)
    requires Inv(s) && Enabled(s, Activate(tx, p))
    ensures Inv(Next(s, Activate(tx, p)))
  {
    var t := Next(s, Activate(tx, p));
    forall q: PageId ensures Shows(t, q) { assert Shows(s, q); }
    forall q: PageId ensures Stale(t, q) { assert Stale(s, q); }
    ActivatedStands(s, tx, p);
    forall q: PageId | q in t.live && q !in t.initial ensures GrantStands(t, q) {
      if q in s.live { assert GrantStands(s, q); }
      assert GrantStands(s, q) ==> GrantStands(t, q);
    }
  }

  /** A page is activated only when its allocation record is durable and its transaction still runs. */
  lemma ActivatedStands(s: Sys, tx: nat, p: PageId)
    requires Enabled(s, Activate(tx, p))
    ensures GrantStands(s, p)
  {
    var i :| 0 <= i < s.durable && s.log[..s.durable][i].tx == tx && Allocates(s.log[..s.durable][i], p);
    assert Allocates(s.log[i], p);
    QuittersEnded(s.log, tx);
  }

  lemma QuittersEnded(log: seq<Entry>, tx: nat)
    ensures tx in Quitters(log) ==> EndedBy(log, tx, |log|)
  {
    if tx in Quitters(log) {
      var i :| 0 <= i < |log| && log[i].action.AbortTx? && log[i].tx == tx;
      assert Ends(log[i], tx);
    }
  }

  lemma {:induction false} StepKeeps(s: Sys, step: Step)
    requires Inv(s) && Enabled(s, step) && !step.Restart?
    ensures Inv(Next(s, step))
  {
    match step
    case Start(tx, lsn) => KeepsPlain(s, Entry(lsn, tx, BeginTx), Next(s, step));
    case Change(tx, p, after, lsn, number) => KeepsChange(s, tx, p, after, lsn, number);
    case LogCommit(tx, lsn) => KeepsPlain(s, Entry(lsn, tx, CommitTx), Next(s, step));
    case RollBack(tx, lsn) => KeepsRollBack(s, tx, lsn);
    case WriteBack(p) => KeepsWriteBack(s, p);
    case Spill(p, x) => KeepsSpill(s, p, x);
    case FlushLog => KeepsFlush(s);
    case Reserve => KeepsReserve(s);
    case LogAllocation(tx, p, lsn) => KeepsPlain(s, Entry(lsn, tx, AllocatePage(p)), Next(s, step));
    case Activate(tx, p) => KeepsActivate(s, tx, p);
  }
}
