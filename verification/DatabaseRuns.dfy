/** What a database object shows of itself, against the state machine of whole runs. */
module DatabaseRuns {
  import opened StorageTypes
  import opened BufferPools
  import opened WalCodec
  import opened PageManagers
  import opened LogManagers
  import opened Rollbacks
  import opened Transactions
  import opened RecoveryAnalysis
  import opened Redos
  import opened Undos
  import opened RecoveryHistory
  import opened RealLogs
  import opened CrashRuns
  import opened CrashSteps
  import opened CrashRestarts
  import opened CrashTheorems
  import opened CrashRollbacks
  import opened LockedPages
  import L = LockTable
  import C = Coordinators

  /** The state is that of some run. */
  ghost predicate Reachable(s: Sys) {
    exists states: seq<Sys>, steps: seq<Step> :: EndsIn(states, steps, s)
  }

  ghost predicate EndsIn(states: seq<Sys>, steps: seq<Step>, s: Sys) {
    |states| == |steps| + 1 && states[|steps|] == s && Walked(states, steps)
  }

  /** A run, as a predicate that is looked into by name only. */
  ghost predicate Walked(states: seq<Sys>, steps: seq<Step>) {
    forall n: nat {:trigger Upto(states, steps, n)} :: Upto(states, steps, n)
  }

  ghost predicate Upto(states: seq<Sys>, steps: seq<Step>, n: nat) {
    n == |steps| ==> IsRun(states, steps)
  }

  lemma IsWalked(states: seq<Sys>, steps: seq<Step>)
    ensures Walked(states, steps) <==> IsRun(states, steps)
  {
    assert Upto(states, steps, |steps|) <==> IsRun(states, steps);
  }

  lemma ReachedInv(s: Sys)
    requires Reachable(s)
    ensures CrashRuns.Inv(s)
  {
    var states, steps :| EndsIn(states, steps, s);
    IsWalked(states, steps);
    RunInv(states, steps, |steps|);
  }

  lemma OneStep(s: Sys, step: Step)
    requires Reachable(s) && Enabled(s, step)
    ensures Reachable(Next(s, step))
  {
    var states, steps :| EndsIn(states, steps, s);
    IsWalked(states, steps);
    RunGrows(states, steps, step, Next(s, step));
    IsWalked(states + [Next(s, step)], steps + [step]);
    assert EndsIn(states + [Next(s, step)], steps + [step], Next(s, step));
  }

  // ---- The disk ---------------------------------------------------------------------------

  /** Every page of the new disk is the old one or a version whose record is durable. */
  ghost predicate Drifted(s: Sys, disk: View) {
    && disk.Keys == s.disk.Keys && s.durable <= |s.log|
    && forall p :: p in disk ==>
         disk[p] == s.disk[p] || (p in s.base && IsVersion(s.base[p], s.log, p, s.durable, disk[p]))
  }

  /** The pages below n have been written. */
  ghost function Mixed(s: Sys, disk: View, n: nat): Sys
    requires disk.Keys == s.disk.Keys
  {
    s.(disk := map p | p in s.disk :: if p < n then disk[p] else s.disk[p])
  }

  lemma {:induction false} DriftsUpTo(s: Sys, disk: View, n: nat)
    requires Reachable(s) && Drifted(s, disk)
    ensures Reachable(Mixed(s, disk, n))
  {
    if n == 0 {
      assert Mixed(s, disk, 0) == s;
    } else {
      DriftsUpTo(s, disk, n - 1);
      var m, p := Mixed(s, disk, n - 1), n - 1;
      MixedNext(s, disk, p);
      if p in disk && disk[p] != s.disk[p] { OneStep(m, Spill(p, disk[p])); }
    }
  }

  lemma MixedNext(s: Sys, disk: View, p: PageId)
    requires Drifted(s, disk)
    ensures var m, o := Mixed(s, disk, p), Mixed(s, disk, p + 1);
      if p in disk && disk[p] != s.disk[p] then Enabled(m, Spill(p, disk[p])) && Next(m, Spill(p, disk[p])) == o
        else o == m
  {
    var m, o := Mixed(s, disk, p), Mixed(s, disk, p + 1);
    if p in disk && disk[p] != s.disk[p] { assert m.disk[p := disk[p]] == o.disk; } else { assert m.disk == o.disk; }
  }

  /** Whatever drifts to disk is a sequence of spills. */
  lemma DriftReachable(s: Sys, disk: View)
    requires Reachable(s) && Drifted(s, disk)
    ensures Reachable(s.(disk := disk))
  {
    ReachedInv(s);
    DriftsUpTo(s, disk, s.count);
    assert Mixed(s, disk, s.count).disk == disk;
  }

  // ---- Several steps at once --------------------------------------------------------------

  ghost predicate Leads(s: Sys, steps: seq<Step>, u: Sys)
    decreases |steps|
  {
    if steps == [] then u == s else Enabled(s, steps[0]) && Leads(Next(s, steps[0]), steps[1..], u)
  }

  lemma {:induction false} LeadsReachable(s: Sys, steps: seq<Step>, u: Sys)
    requires Reachable(s) && Leads(s, steps, u)
    ensures Reachable(u)
    decreases |steps|
  {
    if steps != [] {
      OneStep(s, steps[0]);
      LeadsReachable(Next(s, steps[0]), steps[1..], u);
    }
  }

  /** Pages drift to disk, and then these steps are taken. */
  ghost predicate Taken(s: Sys, disk: View, steps: seq<Step>, u: Sys) {
    Drifted(s, disk) && Leads(s.(disk := disk), steps, u)
  }

  /** The same, as a predicate that is looked into by name only. */
  ghost predicate Took(s: Sys, disk: View, steps: seq<Step>, u: Sys) {
    forall k: nat {:trigger TakenAt(s, disk, steps, u, k)} :: TakenAt(s, disk, steps, u, k)
  }

  ghost predicate TakenAt(s: Sys, disk: View, steps: seq<Step>, u: Sys, k: nat) {
    k == 0 ==> Taken(s, disk, steps, u)
  }

  lemma TookMeans(s: Sys, disk: View, steps: seq<Step>, u: Sys)
    ensures Took(s, disk, steps, u) <==> Taken(s, disk, steps, u)
  {
    assert TakenAt(s, disk, steps, u, 0) <==> Taken(s, disk, steps, u);
  }

  lemma OneTaken(s: Sys, disk: View, step: Step)
    requires Reachable(s) && Drifted(s, disk) && Enabled(s.(disk := disk), step)
    ensures var u := Next(s.(disk := disk), step); Took(s, disk, [step], u) && Reachable(u)
  {
    var u := Next(s.(disk := disk), step);
    DriftReachable(s, disk);
    OneStep(s.(disk := disk), step);
    assert [step][1..] == [] && Leads(u, [], u);
    assert Leads(s.(disk := disk), [step], u);
    TookMeans(s, disk, [step], u);
  }

  // ---- The log ------------------------------------------------------------------------------

  /** The log has the records of the history, numbered below the next one, and is durable exactly through `durable`. */
  ghost predicate LogShows(v: LogView, s: Sys) {
    && v.records == Records(Real(s.log)) && v.durable < v.next && s.durable <= |s.log|
    && forall k :: 0 <= k < |s.log| ==> s.log[k].lsn < v.next && (k < s.durable <==> s.log[k].lsn <= v.durable)
  }

  lemma NextIsFresh(v: LogView, s: Sys)
    requires LogShows(v, s) && v.next < U64
    ensures Fresh(s.log, v.next)
  {
  }

  /** A version whose LSN is durable is a durable version. */
  lemma DurableVersion(s: Sys, v: LogView, p: PageId, n: nat, x: Page)
    requires CrashRuns.Inv(s) && LogShows(v, s) && p in s.base && n <= |s.log| && IsVersion(s.base[p], s.log, p, n, x)
    requires LsnDurable(Some(v.durable), x.lsn)
    ensures IsVersion(s.base[p], s.log, p, s.durable, x)
  {
    if x != s.base[p] {
      var k :| 0 <= k < n && OnPage(s.log[k], p) && x == Page(s.log[k].action.mutation.after, s.log[k].lsn);
      assert s.log[k].lsn != 0;
    }
  }

  /** What flows to disk from the store is a drift. */
  lemma FlowDrifts(s: Sys, v: LogView, disk: View)
    requires CrashRuns.Inv(s) && LogShows(v, s) && Flowed(s.mem, Some(v.durable), s.disk, disk)
    ensures Drifted(s, disk)
  {
    forall p | p in disk && disk[p] != s.disk[p]
      ensures p in s.base && IsVersion(s.base[p], s.log, p, s.durable, disk[p])
    {
      assert Shows(s, p);
      SeenIsVersion(s.base[p], s.log, p, |s.log|);
      DurableVersion(s, v, p, |s.log|, disk[p]);
    }
  }

  /** Every captured mutation found what its page showed then. */
  lemma {:induction false} CapturedFound(base: map<PageId, Page>, log: seq<Entry>, tx: nat, n: nat, j: nat)
      returns (i: nat)
    requires n <= |log| && Faithful(base, log) && j < |Captured(base, log, tx, n)|
    ensures i < n && var m := Captured(base, log, tx, n)[j];
      m.page in base && Before(m) == Seen(base[m.page], log, m.page, i)
  {
    var e, ms := log[n - 1], Captured(base, log, tx, n - 1);
    if j < |ms| {
      i := CapturedFound(base, log, tx, n - 1, j);
    } else {
      i := n - 1;
      assert OnPage(e, e.action.mutation.page);
    }
  }

  /** What flows to disk on the way of a rollback is a drift. */
  lemma RollbackDrifts(s: Sys, v: LogView, tx: nat, disk: View)
    requires CrashRuns.Inv(s) && LogShows(v, s)
    requires FlowedBack(s.mem, Captured(s.base, s.log, tx, |s.log|), Some(v.durable), s.disk, disk)
    ensures Drifted(s, disk)
  {
    var ms := Captured(s.base, s.log, tx, |s.log|);
    forall p | p in disk && disk[p] != s.disk[p]
      ensures p in s.base && IsVersion(s.base[p], s.log, p, s.durable, disk[p])
    {
      var k: nat :| k <= |ms| && p in Undone(s.mem, ms, k) && disk[p] == Undone(s.mem, ms, k)[p];
      WayIsVersion(s, ms, tx, k, p);
      DurableVersion(s, v, p, |s.log|, disk[p]);
    }
  }

  lemma WayIsVersion(s: Sys, ms: seq<PhysicalMutation>, tx: nat, k: nat, p: PageId)
    requires CrashRuns.Inv(s) && ms == Captured(s.base, s.log, tx, |s.log|) && k <= |ms| && p in s.disk
    ensures p in s.base && p in Undone(s.mem, ms, k) && IsVersion(s.base[p], s.log, p, |s.log|, Undone(s.mem, ms, k)[p])
  {
    UndoneAt(s.mem, ms, k, p);
    var f := FirstOf(ms, p, k);
    if f < |ms| {
      var i := CapturedFound(s.base, s.log, tx, |s.log|, f);
      SeenIsVersion(s.base[p], s.log, p, i);
    } else {
      assert Shows(s, p);
      SeenIsVersion(s.base[p], s.log, p, |s.log|);
    }
  }

  /** One more record, not durable yet or flushed at once. */
  lemma LogGrows(v: LogView, s: Sys, e: Entry, w: LogView, u: Sys, flushed: bool)
    requires LogShows(v, s) && e.lsn == v.next && w.records == v.records + [RecordOf(e)] && w.next == v.next + 1
    requires u.log == s.log + [e] && w.durable == (if flushed then v.next else v.durable)
      && u.durable == (if flushed then |u.log| else s.durable)
    ensures LogShows(w, u)
  {
    RealAppend(s.log, e);
    var r := Real(s.log);
    assert Records(r + [e]) == Records(r) + [RecordOf(e)];
    forall k | 0 <= k < |u.log| ensures u.log[k].lsn < w.next && (k < u.durable <==> u.log[k].lsn <= w.durable) {
      if k < |s.log| { assert u.log[k] == s.log[k]; }
    }
  }

  lemma LogFlushed(v: LogView, s: Sys, w: LogView, u: Sys)
    requires LogShows(v, s) && w.records == v.records && w.next == v.next && w.durable == v.next - 1
    requires u.log == s.log && u.durable == |u.log|
    ensures LogShows(w, u)
  {
  }

  // ---- The transactions ---------------------------------------------------------------------

  /** What a transaction object remembers of its changes and allocations. */
  datatype TxPart = TxPart(id: nat, mutations: seq<PhysicalMutation>, granted: seq<PageId>, open: nat)

  /** The object of a transaction that has not ended remembers exactly its changes, and its pages that are allocated. */
  ghost predicate Remembers(s: Sys, t: TxPart) {
    Active(s.log, t.id) ==>
      && t.mutations == Captured(s.base, s.log, t.id, |s.log|)
      && (forall p :: p in t.granted ==> AllocatedBy(s.log, t.id, p))
      && forall p: PageId :: p in s.live && AllocatedBy(s.log, t.id, p) ==> p in t.granted
  }

  lemma {:induction false} CapturedStays(base: map<PageId, Page>, log: seq<Entry>, e: Entry, tx: nat, n: nat)
    requires n <= |log|
    ensures Captured(base, log + [e], tx, n) == Captured(base, log, tx, n)
  {
    if n > 0 {
      CapturedStays(base, log, e, tx, n - 1);
      var x := log[n - 1];
      assert (log + [e])[n - 1] == x;
      if x.action.WritePage? && x.action.mutation.page in base {
        PastStays(base[x.action.mutation.page], log, e, x.action.mutation.page, n - 1);
      }
    }
  }

  /** New pages have no history. */
  lemma {:induction false} CapturedReserve(base: map<PageId, Page>, more: map<PageId, Page>, log: seq<Entry>, tx: nat,
      n: nat)
    requires n <= |log| && forall i, p: PageId :: 0 <= i < |log| && OnPage(log[i], p) ==>
      p in base && p in more && more[p] == base[p]
    ensures Captured(more, log, tx, n) == Captured(base, log, tx, n)
  {
    if n > 0 {
      CapturedReserve(base, more, log, tx, n - 1);
      if log[n - 1].action.WritePage? { assert OnPage(log[n - 1], log[n - 1].action.mutation.page); }
    }
  }

  lemma ActiveBefore(log: seq<Entry>, e: Entry, tx: nat)
    requires Active(log + [e], tx)
    ensures Active(log, tx)
  {
    EndedStays(log, e, tx, |log|);
  }

  lemma StillActive(log: seq<Entry>, e: Entry, tx: nat)
    requires Active(log, tx) && !Ends(e, tx)
    ensures Active(log + [e], tx)
  {
    var all := log + [e];
    forall k | 0 <= k < |all| ensures !Ends(all[k], tx) { if k < |log| { assert all[k] == log[k]; } }
  }

  lemma AllocatedStays(log: seq<Entry>, e: Entry, tx: nat, p: PageId)
    ensures AllocatedBy(log + [e], tx, p) <==> AllocatedBy(log, tx, p) || (e.tx == tx && Allocates(e, p))
  {
    var all := log + [e];
    if AllocatedBy(log, tx, p) {
      var i :| 0 <= i < |log| && log[i].tx == tx && Allocates(log[i], p);
      assert all[i].tx == tx && Allocates(all[i], p);
    }
    if e.tx == tx && Allocates(e, p) { assert all[|log|] == e; }
    if AllocatedBy(all, tx, p) {
      var i :| 0 <= i < |all| && all[i].tx == tx && Allocates(all[i], p);
      if i < |log| { assert all[i] == log[i]; }
    }
  }

  /** A record of somebody else, or one that is neither a change nor an allocation. */
  lemma RemembersOther(s: Sys, u: Sys, t: TxPart, e: Entry)
    requires Remembers(s, t) && u.log == s.log + [e] && u.base == s.base && u.live <= s.live
    requires e.tx != t.id || !(e.action.WritePage? || e.action.AllocatePage?)
    ensures Remembers(u, t)
  {
    if Active(u.log, t.id) {
      ActiveBefore(s.log, e, t.id);
      CapturedStays(s.base, s.log, e, t.id, |s.log|);
      forall p: PageId ensures AllocatedBy(u.log, t.id, p) <==> AllocatedBy(s.log, t.id, p) {
        AllocatedStays(s.log, e, t.id, p);
      }
    }
  }

  /** A change by the transaction itself. */
  lemma RemembersChange(s: Sys, u: Sys, t: TxPart, e: Entry, m: PhysicalMutation)
    requires CrashRuns.Inv(s) && Remembers(s, t) && u.log == s.log + [e] && u.base == s.base && u.live == s.live
    requires e.tx == t.id && e.action == WritePage(m.(previousLsn := 0)) && m.page in s.mem
      && m.previousLsn == s.mem[m.page].lsn
    ensures Remembers(u, t.(mutations := t.mutations + [m]))
  {
    if Active(u.log, t.id) {
      ActiveBefore(s.log, e, t.id);
      CapturedStays(s.base, s.log, e, t.id, |s.log|);
      PastStays(s.base[m.page], s.log, e, m.page, |s.log|);
      assert Shows(s, m.page) && u.log[|s.log|] == e;
      forall p: PageId ensures AllocatedBy(u.log, t.id, p) <==> AllocatedBy(s.log, t.id, p) {
        AllocatedStays(s.log, e, t.id, p);
      }
    }
  }

  /** An allocation record of the transaction itself; the page is not allocated yet. */
  lemma RemembersLogged(s: Sys, u: Sys, t: TxPart, e: Entry)
    requires Remembers(s, t) && u.log == s.log + [e] && u.base == s.base && u.live == s.live
    requires e.tx == t.id && e.action.AllocatePage? && e.action.page !in s.live
    ensures Remembers(u, t)
  {
    if Active(u.log, t.id) {
      ActiveBefore(s.log, e, t.id);
      CapturedStays(s.base, s.log, e, t.id, |s.log|);
      forall p: PageId ensures AllocatedBy(u.log, t.id, p) <==> AllocatedBy(s.log, t.id, p) || p == e.action.page {
        AllocatedStays(s.log, e, t.id, p);
      }
    }
  }

  /** The page goes live for the transaction that has its record, and for nobody else. */
  lemma RemembersActivated(s: Sys, u: Sys, t: TxPart, tx: nat, p: PageId)
    requires CrashRuns.Inv(s) && Remembers(s, t) && u.log == s.log && u.base == s.base && u.live == s.live + {p}
      && AllocatedBy(s.log, tx, p)
    ensures Remembers(u, if t.id == tx then t.(granted := t.granted + [p]) else t)
  {
    OneAllocator(s, t.id, tx, p);
  }

  lemma OneAllocator(s: Sys, a: nat, b: nat, p: PageId)
    requires Catalogued(s)
    ensures AllocatedBy(s.log, a, p) && AllocatedBy(s.log, b, p) ==> a == b
  {
    if AllocatedBy(s.log, a, p) && AllocatedBy(s.log, b, p) {
      var i :| 0 <= i < |s.log| && s.log[i].tx == a && Allocates(s.log[i], p);
      var j :| 0 <= j < |s.log| && s.log[j].tx == b && Allocates(s.log[j], p);
      assert i == j;
    }
  }

  lemma RemembersReserve(s: Sys, u: Sys, t: TxPart)
    requires CrashRuns.Inv(s) && Remembers(s, t) && u.log == s.log && u.live == s.live
      && u.base == s.base[s.count := NEW_PAGE]
    ensures Remembers(u, t)
  {
    forall i, p: PageId | 0 <= i < |s.log| && OnPage(s.log[i], p) ensures p in s.base && p != s.count {}
    CapturedReserve(s.base, u.base, s.log, t.id, |s.log|);
  }

  /** A number that the log does not have belongs to a transaction without a past. */
  ghost predicate Unused(log: seq<Entry>, tx: nat) {
    forall i :: 0 <= i < |log| ==> log[i].tx != tx
  }

  lemma {:induction false} NothingCaptured(base: map<PageId, Page>, log: seq<Entry>, tx: nat, n: nat)
    requires n <= |log| && forall i :: 0 <= i < n ==> log[i].tx != tx || !log[i].action.WritePage?
    ensures Captured(base, log, tx, n) == []
  {
    if n > 0 { NothingCaptured(base, log, tx, n - 1); }
  }

  // ---- The whole picture ----------------------------------------------------------------------

  /** What the objects of a database show of themselves. */
  datatype Picture = Picture(log: LogView, view: View, disk: View, live: set<PageId>, count: nat, locks: L.Locks,
      next: nat)

  /**
   * The picture is that of a state that a run can be in. Pages with open changes are locked by whoever made them, and
   * all transaction numbers are below the next one.
   */
  ghost predicate Mirrors(d: Picture, s: Sys) {
    && Reachable(s) && LogShows(d.log, s) && s.mem == d.view && s.disk == d.disk && s.live == d.live
    && s.count == d.count
    && L.Inv(d.locks) && Guarded(d.locks, s.log)
    && (forall t :: t in d.locks.states ==> t < d.next) && forall i :: 0 <= i < |s.log| ==> s.log[i].tx < d.next
  }

  /** The transaction is one of the run's. */
  ghost predicate Belongs(s: Sys, l: L.Locks, t: TxPart) {
    t.id in l.states && (Active(s.log, t.id) ==> t.open == |t.mutations|) && Remembers(s, t)
  }

  /** All transactions but one belong to the new state as they did to the old one. */
  ghost predicate OthersBelong(s: Sys, l: L.Locks, u: Sys, m: L.Locks, tx: nat) {
    forall t: TxPart {:trigger Belongs(u, m, t)} :: t.id != tx && Belongs(s, l, t) ==> Belongs(u, m, t)
  }

  lemma StatesStay(l: L.Locks, e: L.Event)
    ensures l.states.Keys <= L.Next(l, e).states.Keys
    ensures forall t :: t in L.Next(l, e).states ==>
      t in l.states || (e.Begin? && t == e.tx) || e.Commit? || e.Abort? || e.Lock?
  {
  }

  /** A record that is neither a change nor an allocation leaves all other transactions as they are. */
  lemma OthersStay(s: Sys, l: L.Locks, u: Sys, m: L.Locks, e: Entry)
    requires u.log == s.log + [e] && u.base == s.base && u.live <= s.live && l.states.Keys <= m.states.Keys
    ensures OthersBelong(s, l, u, m, e.tx)
  {
    forall t: TxPart | t.id != e.tx && Belongs(s, l, t) ensures Belongs(u, m, t) {
      RemembersOther(s, u, t, e);
      if Active(u.log, t.id) { ActiveBefore(s.log, e, t.id); }
    }
  }

  /** The picture of a run with these transactions running. */
  ghost predicate Agreed(d: Picture, s: Sys, ts: map<nat, TxPart>) {
    Mirrors(d, s) && forall id :: id in ts ==> ts[id].id == id && Belongs(s, d.locks, ts[id])
  }

  /** The same, as a predicate that is looked into by name only. */
  ghost predicate Agrees(d: Picture, s: Sys, ts: map<nat, TxPart>) {
    forall k: nat {:trigger AgreedAt(d, s, ts, k)} :: AgreedAt(d, s, ts, k)
  }

  ghost predicate AgreedAt(d: Picture, s: Sys, ts: map<nat, TxPart>, k: nat) {
    k == 0 ==> Agreed(d, s, ts)
  }

  lemma AgreesMeans(d: Picture, s: Sys, ts: map<nat, TxPart>)
    ensures Agrees(d, s, ts) <==> Agreed(d, s, ts)
  {
    assert AgreedAt(d, s, ts, 0) <==> Agreed(d, s, ts);
  }

  ghost function BegunPicture(d: Picture): Picture {
    d.(log := d.log.(records := d.log.records + [WalRecord(d.log.next, d.next, WalKind.Begin, [])],
      next := d.log.next + 1),
       locks := L.Next(d.locks, L.Begin(d.next)), next := d.next + 1)
  }

  /** Beginning a transaction. */
  lemma BeginMirrors(d: Picture, s: Sys, u: Sys)
    requires Mirrors(d, s) && d.log.next < U64 && d.next < U64 && u == Next(s, Start(d.next, d.log.next))
    ensures Took(s, s.disk, [Start(d.next, d.log.next)], u)
    ensures var c := BegunPicture(d);
      Mirrors(c, u) && OthersBelong(s, d.locks, u, c.locks, d.next) && Belongs(u, c.locks, TxPart(d.next, [], [], 0))
  {
    var tx, e, c := d.next, Entry(d.log.next, d.next, BeginTx), BegunPicture(d);
    ReachedInv(s);
    OneTaken(s, s.disk, Start(tx, d.log.next));
    LogGrows(d.log, s, e, c.log, u, false);
    forall i | 0 <= i < |u.log| ensures u.log[i].tx <= tx && (u.log[i].tx == tx ==> u.log[i].action.BeginTx?) {
      if i < |s.log| { assert u.log[i] == s.log[i]; }
    }
    NothingCaptured(u.base, u.log, tx, |u.log|);
    L.StepInv(d.locks, L.Begin(tx));
    GuardedStill(d.locks, L.Begin(tx), s.log);
    GuardedAppend(c.locks, s.log, e);
    OthersStay(s, d.locks, u, c.locks, e);
  }

  lemma BeginAgrees(d: Picture, s: Sys, ts: map<nat, TxPart>) returns (u: Sys)
    requires Agrees(d, s, ts) && d.log.next < U64 && d.next < U64
    ensures Took(s, d.disk, [Start(d.next, d.log.next)], u) && Active(u.log, d.next)
      && u.log == s.log + [Entry(d.log.next, d.next, BeginTx)]
    ensures Agrees(BegunPicture(d), u, ts[d.next := TxPart(d.next, [], [], 0)])
  {
    AgreesMeans(d, s, ts);
    u := Next(s, Start(d.next, d.log.next));
    BeginMirrors(d, s, u);
    StillActive(s.log, Entry(d.log.next, d.next, BeginTx), d.next);
    AgreesMeans(BegunPicture(d), u, ts[d.next := TxPart(d.next, [], [], 0)]);
  }

  // ---- Locks -------------------------------------------------------------------------------------

  /** Requests and wake-ups name no new transactions. */
  lemma SameStates(l: L.Locks, e: L.Event)
    requires e.Lock? || e.Wake?
    ensures L.Next(l, e).states.Keys == l.states.Keys
  {
  }

  /** A transaction that remembers no change has none in the log. */
  lemma {:induction false} NoChanges(base: map<PageId, Page>, log: seq<Entry>, tx: nat, n: nat, i: nat)
    requires Faithful(base, log) && i < n <= |log| && Captured(base, log, tx, n) == []
    ensures log[i].tx != tx || !log[i].action.WritePage?
  {
    if i < n - 1 {
      NoChanges(base, log, tx, n - 1, i);
    } else if log[i].action.WritePage? {
      assert OnPage(log[i], log[i].action.mutation.page);
    }
  }

  /** The transaction that asks for the lock has nothing to lose: it will not die, or has no open change. */
  ghost predicate Harmless(d: Picture, s: Sys, ts: map<nat, TxPart>, e: L.Event) {
    e.Lock? && L.Decide(d.locks, e.tx, e.res, e.mode) == L.Died ==>
      e.tx in ts && (Active(s.log, e.tx) ==> ts[e.tx].mutations == [])
  }

  lemma LockMirrors(d: Picture, s: Sys, ts: map<nat, TxPart>, e: L.Event)
    requires Agreed(d, s, ts) && (e.Lock? || e.Wake?) && Harmless(d, s, ts, e)
    ensures Mirrors(d.(locks := L.Next(d.locks, e)), s)
  {
    ReachedInv(s);
    SameStates(d.locks, e);
    L.StepInv(d.locks, e);
    forall i | 0 <= i < |s.log| && s.log[i].action.WritePage? && Drops(d.locks, e, s.log[i].tx)
      ensures EndedBy(s.log, s.log[i].tx, |s.log|)
    {
      assert Belongs(s, d.locks, ts[e.tx]) && s.log[i].lsn != 0;
      if Active(s.log, e.tx) { NoChanges(s.base, s.log, e.tx, |s.log|, i); }
    }
    GuardedStill(d.locks, e, s.log);
  }

  lemma LockAgrees(d: Picture, s: Sys, ts: map<nat, TxPart>, e: L.Event)
    requires Agrees(d, s, ts) && (e.Lock? || e.Wake?) && Harmless(d, s, ts, e)
    ensures Agrees(d.(locks := L.Next(d.locks, e)), s, ts)
  {
    AgreesMeans(d, s, ts);
    LockMirrors(d, s, ts, e);
    SameStates(d.locks, e);
    AgreesMeans(d.(locks := L.Next(d.locks, e)), s, ts);
  }

  // ---- Pages that move to disk ---------------------------------------------------------------------

  lemma DriftAgrees(d: Picture, s: Sys, ts: map<nat, TxPart>, disk: View) returns (u: Sys)
    requires Agrees(d, s, ts) && Flowed(d.view, Some(d.log.durable), d.disk, disk)
    ensures Took(s, disk, [], u) && Agrees(d.(disk := disk), u, ts) && u.log == s.log
  {
    AgreesMeans(d, s, ts);
    ReachedInv(s);
    FlowDrifts(s, d.log, disk);
    DriftReachable(s, disk);
    u := s.(disk := disk);
    TookMeans(s, disk, [], u);
    forall id | id in ts ensures Belongs(u, d.locks, ts[id]) { assert Belongs(s, d.locks, ts[id]); }
    AgreesMeans(d.(disk := disk), u, ts);
  }

  // ---- Changes -------------------------------------------------------------------------------------

  ghost function ChangedPicture(d: Picture, tx: nat, m: PhysicalMutation, disk: View): Picture {
    d.(log := Appended(d.log, tx, m), view := d.view[m.page := Page(m.after, d.log.next)], disk := disk)
  }

  /** The change that is about to be captured, of a page that its transaction has locked. */
  ghost predicate MayChange(d: Picture, s: Sys, tx: nat, m: PhysicalMutation) {
    && Active(s.log, tx) && Owns(d.locks, tx, m.page) && m.page in d.live && m.page in d.view
    && d.view[m.page] == Before(m)
    && |m.after| == PAYLOAD_SIZE && m.sequence < U64 && d.log.next < U64
  }

  lemma ChangeEnabled(d: Picture, s: Sys, tx: nat, m: PhysicalMutation, disk: View)
    requires Mirrors(d, s) && MayChange(d, s, tx, m)
    ensures Enabled(s.(disk := disk), Change(tx, m.page, m.after, d.log.next, m.sequence))
  {
    NextIsFresh(d.log, s);
    OwnerMayChange(d.locks, s.log, tx, m.page);
  }

  lemma ChangeMirrors(d: Picture, s: Sys, tx: nat, m: PhysicalMutation, disk: View, u: Sys)
    requires Mirrors(d, s) && MayChange(d, s, tx, m) && Flowed(d.view, Some(d.log.durable), d.disk, disk)
    requires u == Next(s.(disk := disk), Change(tx, m.page, m.after, d.log.next, m.sequence))
    ensures Took(s, disk, [Change(tx, m.page, m.after, d.log.next, m.sequence)], u)
    ensures Mirrors(ChangedPicture(d, tx, m, disk), u)
      && u.log == s.log + [Entry(d.log.next, tx, WritePage(m.(previousLsn := 0)))]
  {
    var e, c := Entry(d.log.next, tx, WritePage(m.(previousLsn := 0))), ChangedPicture(d, tx, m, disk);
    ReachedInv(s);
    FlowDrifts(s, d.log, disk);
    ChangeEnabled(d, s, tx, m, disk);
    OneTaken(s, disk, Change(tx, m.page, m.after, d.log.next, m.sequence));
    assert Shows(s, m.page);
    ChangeRecord(m);
    LogGrows(d.log, s, e, c.log, u, false);
    GuardedAppend(d.locks, s.log, e);
    forall i | 0 <= i < |u.log| ensures u.log[i].tx < d.next {
      if i < |s.log| { assert u.log[i] == s.log[i]; } else { OwnerIsKnown(d.locks, tx, m.page); }
    }
  }

  /** The record of a change has everything but the previous LSN. */
  lemma ChangeRecord(m: PhysicalMutation)
    ensures EncodeMutation(m.(previousLsn := 0)) == EncodeMutation(m)
      && (Loggable(m.(previousLsn := 0)) <==> Loggable(m))
  {
  }

  lemma OwnerIsKnown(l: L.Locks, tx: nat, p: PageId)
    requires L.Inv(l) && Owns(l, tx, p)
    ensures tx in l.states
  {
    assert L.Holds(l, tx, p) && L.Lists(l, tx, p);
  }

  /** The other transactions, and the one with one change more. */
  lemma ChangeBelongs(d: Picture, s: Sys, tx: nat, m: PhysicalMutation, disk: View, u: Sys, t: TxPart)
    requires Mirrors(d, s) && MayChange(d, s, tx, m) && Belongs(s, d.locks, t)
    requires u == Next(s.(disk := disk), Change(tx, m.page, m.after, d.log.next, m.sequence))
    requires u.log == s.log + [Entry(d.log.next, tx, WritePage(m.(previousLsn := 0)))]
    ensures Belongs(u, d.locks, if t.id == tx then t.(mutations := t.mutations + [m], open := t.open + 1) else t)
  {
    var e := Entry(d.log.next, tx, WritePage(m.(previousLsn := 0)));
    ReachedInv(s);
    if t.id == tx { RemembersChange(s, u, t, e, m); } else { RemembersOther(s, u, t, e); }
    if Active(u.log, t.id) { ActiveBefore(s.log, e, t.id); }
  }

  lemma ChangeAgrees(d: Picture, s: Sys, ts: map<nat, TxPart>, tx: nat, m: PhysicalMutation, disk: View)
      returns (u: Sys)
    requires Agrees(d, s, ts) && tx in ts && MayChange(d, s, tx, m) && Flowed(d.view, Some(d.log.durable), d.disk, disk)
    ensures Took(s, disk, [Change(tx, m.page, m.after, d.log.next, m.sequence)], u) && Active(u.log, tx)
    ensures u.log == s.log + [Entry(d.log.next, tx, WritePage(m.(previousLsn := 0)))]
    ensures Agrees(ChangedPicture(d, tx, m, disk), u,
                   ts[tx := ts[tx].(mutations := ts[tx].mutations + [m], open := ts[tx].open + 1)])
  {
    AgreesMeans(d, s, ts);
    u := Next(s.(disk := disk), Change(tx, m.page, m.after, d.log.next, m.sequence));
    ChangeMirrors(d, s, tx, m, disk, u);
    StillActive(s.log, Entry(d.log.next, tx, WritePage(m.(previousLsn := 0))), tx);
    forall id | id in ts
      ensures Belongs(u, d.locks, if id == tx
      then ts[id].(mutations := ts[id].mutations + [m], open := ts[id].open + 1) else ts[id])
    {
      ChangeBelongs(d, s, tx, m, disk, u, ts[id]);
    }
    AgreesMeans(ChangedPicture(d, tx, m, disk), u,
      ts[tx := ts[tx].(mutations := ts[tx].mutations + [m], open := ts[tx].open + 1)]);
  }

  // ---- Terminal records ------------------------------------------------------------------------------

  function ThenFlush(step: Step, ok: bool): seq<Step> {
    if ok then [step, FlushLog] else [step]
  }

  lemma FlushTaken(s: Sys, disk: View, step: Step, ok: bool) returns (u: Sys)
    requires Reachable(s) && Drifted(s, disk) && Enabled(s.(disk := disk), step)
    ensures var n := Next(s.(disk := disk), step); u == if ok then n.(durable := |n.log|) else n
    ensures Took(s, disk, ThenFlush(step, ok), u) && Reachable(u)
  {
    var n := Next(s.(disk := disk), step);
    OneTaken(s, disk, step);
    u := n;
    if ok {
      u := Next(n, FlushLog);
      OneStep(n, FlushLog);
      assert [step, FlushLog][1..] == [FlushLog] && [FlushLog][1..] == [] && Leads(u, [], u);
      assert Leads(n, [FlushLog], u) && Leads(s.(disk := disk), [step, FlushLog], u);
      TookMeans(s, disk, [step, FlushLog], u);
    }
  }

  ghost function CommittedPicture(d: Picture, tx: nat): Picture {
    d.(log := C.Ended(d.log, tx, WalKind.Commit), locks := if d.log.fault then d.locks
      else L.Next(d.locks, L.Commit(tx)))
  }

  /** After a terminal record the transaction's locks may go. */
  lemma EndGuarded(l: L.Locks, log: seq<Entry>, e: Entry, x: L.Event, ok: bool)
    requires L.Inv(l) && Guarded(l, log) && Ends(e, e.tx) && (x == L.Commit(e.tx) || x == L.Abort(e.tx))
    ensures var m := if ok then L.Next(l, x) else l; L.Inv(m) && Guarded(m, log + [e])
  {
    L.StepInv(l, x);
    GuardedAppend(l, log, e);
    assert Ends((log + [e])[|log|], e.tx);
    GuardedStill(l, x, log + [e]);
  }

  lemma EndStates(l: L.Locks, tx: nat, x: L.Event)
    requires tx in l.states && (x == L.Commit(tx) || x == L.Abort(tx))
    ensures L.Next(l, x).states.Keys == l.states.Keys
  {
  }

  /** What a terminal record changes about the transactions: its own is no longer active. */
  lemma EndBelongs(s: Sys, l: L.Locks, u: Sys, m: L.Locks, e: Entry, t: TxPart)
    requires Belongs(s, l, t) && Ends(e, e.tx) && u.log == s.log + [e] && u.base == s.base && u.live <= s.live
      && m.states.Keys == l.states.Keys
    ensures Belongs(u, m, t) && Belongs(u, m, TxPart(e.tx, t.mutations, t.granted, 0)) == (e.tx in m.states)
  {
    assert Ends(u.log[|s.log|], e.tx);
    RemembersOther(s, u, t, e);
    if Active(u.log, t.id) { ActiveBefore(s.log, e, t.id); }
  }

  lemma CommitMirrors(d: Picture, s: Sys, tx: nat) returns (u: Sys)
    requires Mirrors(d, s) && Active(s.log, tx) && tx in d.locks.states && d.log.next < U64
    ensures Took(s, s.disk, ThenFlush(LogCommit(tx, d.log.next), !d.log.fault), u)
      && Mirrors(CommittedPicture(d, tx), u)
    ensures u.log == s.log + [Entry(d.log.next, tx, CommitTx)] && u.base == s.base && u.live == s.live
    ensures !d.log.fault ==> u.durable == |u.log|
  {
    var e, c := Entry(d.log.next, tx, CommitTx), CommittedPicture(d, tx);
    NextIsFresh(d.log, s);
    u := FlushTaken(s, s.disk, LogCommit(tx, d.log.next), !d.log.fault);
    LogGrows(d.log, s, e, c.log, u, !d.log.fault);
    EndGuarded(d.locks, s.log, e, L.Commit(tx), !d.log.fault);
    EndStates(d.locks, tx, L.Commit(tx));
    forall i | 0 <= i < |u.log| ensures u.log[i].tx < d.next { if i < |s.log| { assert u.log[i] == s.log[i]; } }
  }

  lemma CommitAgrees(d: Picture, s: Sys, ts: map<nat, TxPart>, tx: nat) returns (u: Sys)
    requires Agrees(d, s, ts) && tx in ts && Active(s.log, tx) && d.log.next < U64
    ensures Took(s, d.disk, ThenFlush(LogCommit(tx, d.log.next), !d.log.fault), u)
      && Agrees(CommittedPicture(d, tx), u, ts)
    ensures u.log == s.log + [Entry(d.log.next, tx, CommitTx)] && (!d.log.fault ==> u.durable == |u.log|)
  {
    AgreesMeans(d, s, ts);
    assert Belongs(s, d.locks, ts[tx]);
    u := CommitMirrors(d, s, tx);
    var c := CommittedPicture(d, tx);
    EndStates(d.locks, tx, L.Commit(tx));
    forall id | id in ts ensures Belongs(u, c.locks, ts[id]) {
      EndBelongs(s, d.locks, u, c.locks, Entry(d.log.next, tx, CommitTx), ts[id]);
    }
    AgreesMeans(c, u, ts);
  }

  ghost function RolledPicture(d: Picture, t: TxPart, disk: View): Picture {
    d.(log := C.Ended(d.log, t.id, WalKind.Abort), view := Undone(d.view, t.mutations, 0), disk := disk,
      live := d.live - PageSet(t.granted),
       locks := if d.log.fault then d.locks else L.Next(d.locks, L.Abort(t.id)))
  }

  /** What the transaction object puts back is what the run calls rolling back. */
  lemma RollShows(d: Picture, s: Sys, t: TxPart, disk: View)
    requires Mirrors(d, s) && Belongs(s, d.locks, t) && Active(s.log, t.id) && d.log.next < U64 && Drifted(s, disk)
    ensures Enabled(s.(disk := disk), RollBack(t.id, d.log.next))
    ensures var u := Next(s.(disk := disk), RollBack(t.id, d.log.next));
      u.mem == Undone(d.view, t.mutations, 0) && u.live == d.live - PageSet(t.granted)
  {
    NextIsFresh(d.log, s);
    ReachedInv(s);
    RollbackAgrees(s, t.id);
    var u := Next(s.(disk := disk), RollBack(t.id, d.log.next));
    assert u.mem == CrashRuns.RolledBack(s, t.id);
  }

  lemma RollMirrors(d: Picture, s: Sys, t: TxPart, disk: View) returns (u: Sys)
    requires Mirrors(d, s) && Belongs(s, d.locks, t) && Active(s.log, t.id) && d.log.next < U64
    requires FlowedBack(d.view, t.mutations, Some(d.log.durable), d.disk, disk)
    ensures Took(s, disk, ThenFlush(RollBack(t.id, d.log.next), !d.log.fault), u)
      && Mirrors(RolledPicture(d, t, disk), u)
    ensures u.log == s.log + [Entry(d.log.next, t.id, AbortTx)] && u.base == s.base && u.live <= s.live
  {
    var e, c := Entry(d.log.next, t.id, AbortTx), RolledPicture(d, t, disk);
    ReachedInv(s);
    RollbackDrifts(s, d.log, t.id, disk);
    RollShows(d, s, t, disk);
    u := FlushTaken(s, disk, RollBack(t.id, d.log.next), !d.log.fault);
    LogGrows(d.log, s, e, c.log, u, !d.log.fault);
    EndGuarded(d.locks, s.log, e, L.Abort(t.id), !d.log.fault);
    EndStates(d.locks, t.id, L.Abort(t.id));
    forall i | 0 <= i < |u.log| ensures u.log[i].tx < d.next { if i < |s.log| { assert u.log[i] == s.log[i]; } }
  }

  lemma RollAgrees(d: Picture, s: Sys, ts: map<nat, TxPart>, tx: nat, disk: View) returns (u: Sys)
    requires Agrees(d, s, ts) && tx in ts && ts[tx].id == tx && Active(s.log, tx) && d.log.next < U64
    requires FlowedBack(d.view, ts[tx].mutations, Some(d.log.durable), d.disk, disk)
    ensures Took(s, disk, ThenFlush(RollBack(tx, d.log.next), !d.log.fault), u)
    ensures Agrees(RolledPicture(d, ts[tx], disk), u, ts[tx := ts[tx].(open := 0)])
  {
    AgreesMeans(d, s, ts);
    assert Belongs(s, d.locks, ts[tx]);
    u := RollMirrors(d, s, ts[tx], disk);
    var c := RolledPicture(d, ts[tx], disk);
    EndStates(d.locks, tx, L.Abort(tx));
    forall id | id in ts ensures Belongs(u, c.locks, if id == tx then ts[tx].(open := 0) else ts[id]) {
      EndBelongs(s, d.locks, u, c.locks, Entry(d.log.next, tx, AbortTx), ts[id]);
    }
    AgreesMeans(c, u, ts[tx := ts[tx].(open := 0)]);
  }

  // ---- Flushing the log ----------------------------------------------------------------------------

  ghost function FlushedPicture(d: Picture): Picture
    requires d.log.next > 0
  {
    d.(log := if d.log.fault then d.log.(fault := false) else d.log.(durable := d.log.next - 1))
  }

  lemma FlushAgrees(d: Picture, s: Sys, ts: map<nat, TxPart>) returns (u: Sys)
    requires Agrees(d, s, ts) && 0 < d.log.next
    ensures Took(s, d.disk, if d.log.fault then [] else [FlushLog], u) && Agrees(FlushedPicture(d), u, ts)
  {
    AgreesMeans(d, s, ts);
    var c := FlushedPicture(d);
    if d.log.fault {
      u := s;
      TookMeans(s, d.disk, [], u);
    } else {
      u := Next(s, FlushLog);
      OneTaken(s, s.disk, FlushLog);
      LogFlushed(d.log, s, c.log, u);
    }
    forall id | id in ts ensures Belongs(u, c.locks, ts[id]) { assert Belongs(s, d.locks, ts[id]); }
    AgreesMeans(c, u, ts);
  }

  // ---- Allocating pages ------------------------------------------------------------------------------

  ghost function GrantedPicture(d: Picture, tx: nat): Picture {
    d.(log := Allocated(d.log, tx, d.count), view := d.view[d.count := NEW_PAGE], disk := d.disk[d.count := NEW_PAGE],
      count := d.count + 1,
       live := if d.log.fault then d.live else d.live + {d.count})
  }

  function AllocationSteps(tx: nat, p: PageId, lsn: nat, ok: bool): seq<Step> {
    [Reserve, LogAllocation(tx, p, lsn)] + if ok then [FlushLog, Activate(tx, p)] else []
  }

  /** The states on the way: the page exists, its record is logged, flushed, and the page allocated. */
  ghost function Reserved(s: Sys): Sys {
    s.(base := s.base[s.count := NEW_PAGE], mem := s.mem[s.count := NEW_PAGE], disk := s.disk[s.count := NEW_PAGE],
      count := s.count + 1)
  }

  ghost function Granting(s: Sys, tx: nat, lsn: nat, ok: bool): Sys {
    var log := s.log + [Entry(lsn, tx, AllocatePage(s.count))];
    Reserved(s).(log := log, durable := if ok then |log| else s.durable, live := if ok then s.live + {s.count}
      else s.live)
  }

  lemma ReserveTaken(d: Picture, s: Sys, tx: nat)
    requires Mirrors(d, s) && Active(s.log, tx) && d.log.next < U64 && d.count < CATALOG_BITS
    ensures Enabled(s, Reserve) && Next(s, Reserve) == Reserved(s)
    ensures Enabled(Reserved(s), LogAllocation(tx, s.count, d.log.next))
    ensures Next(Reserved(s), LogAllocation(tx, s.count, d.log.next)) == Granting(s, tx, d.log.next, false)
  {
    ReachedInv(s);
    NextIsFresh(d.log, s);
    assert s.count !in s.base && s.count !in s.live && s.count !in s.initial;
  }

  lemma ActivateTaken(s: Sys, tx: nat, lsn: nat)
    requires s.durable <= |s.log| && Active(s.log, tx)
    ensures var n, o := Granting(s, tx, lsn, false), Granting(s, tx, lsn, true); var f := Next(n, FlushLog);
      Enabled(n, FlushLog) && Enabled(f, Activate(tx, s.count)) && Next(f, Activate(tx, s.count)) == o
  {
    var n := Granting(s, tx, lsn, false);
    var f := Next(n, FlushLog);
    assert f.log[..f.durable] == f.log && f.log[|s.log|].tx == tx && Allocates(f.log[|s.log|], s.count);
    forall k | 0 <= k < |f.log| ensures !Ends(f.log[k], tx) { if k < |s.log| { assert f.log[k] == s.log[k]; } }
  }

  lemma GrantTaken(d: Picture, s: Sys, tx: nat) returns (u: Sys)
    requires Mirrors(d, s) && Active(s.log, tx) && d.log.next < U64 && d.count < CATALOG_BITS
    ensures u == Granting(s, tx, d.log.next, !d.log.fault) && Reachable(u)
    ensures Took(s, s.disk, AllocationSteps(tx, s.count, d.log.next, !d.log.fault), u)
  {
    var p, lsn, ok := s.count, d.log.next, !d.log.fault;
    var n := Granting(s, tx, lsn, false);
    u := Granting(s, tx, lsn, ok);
    ReserveTaken(d, s, tx);
    ActivateTaken(s, tx, lsn);
    var rest := if ok then [FlushLog, Activate(tx, p)] else [];
    if ok {
      assert rest[1..] == [Activate(tx, p)] && [Activate(tx, p)][1..] == [] && Leads(u, [], u);
      assert Leads(Next(n, FlushLog), [Activate(tx, p)], u);
    }
    assert Leads(n, rest, u);
    var second := [LogAllocation(tx, p, lsn)] + rest;
    assert second[1..] == rest && Leads(Reserved(s), second, u);
    var steps := AllocationSteps(tx, p, lsn, ok);
    assert steps == [Reserve] + second && steps[1..] == second && Leads(s, steps, u);
    ReachedInv(s);
    LeadsReachable(s, steps, u);
    assert s.(disk := s.disk) == s;
    TookMeans(s, s.disk, steps, u);
  }

  lemma GrantMirrors(d: Picture, s: Sys, tx: nat) returns (u: Sys)
    requires Mirrors(d, s) && Active(s.log, tx) && tx in d.locks.states && d.log.next < U64 && d.count < CATALOG_BITS
    ensures Took(s, s.disk, AllocationSteps(tx, s.count, d.log.next, !d.log.fault), u)
    ensures u == Granting(s, tx, d.log.next, !d.log.fault) && Mirrors(GrantedPicture(d, tx), u)
  {
    var e, c := Entry(d.log.next, tx, AllocatePage(s.count)), GrantedPicture(d, tx);
    u := GrantTaken(d, s, tx);
    LogGrows(d.log, s, e, c.log, u, !d.log.fault);
    GuardedAppend(d.locks, s.log, e);
    forall i | 0 <= i < |u.log| ensures u.log[i].tx < d.next { if i < |s.log| { assert u.log[i] == s.log[i]; } }
  }

  /** The transactions, step by step. */
  lemma GrantBelongs(d: Picture, s: Sys, tx: nat, t: TxPart)
    requires Mirrors(d, s) && Active(s.log, tx) && d.log.next < U64 && d.count < CATALOG_BITS && Belongs(s, d.locks, t)
    ensures var u := Granting(s, tx, d.log.next, !d.log.fault);
      Belongs(u, d.locks, if t.id == tx && !d.log.fault then t.(granted := t.granted + [d.count]) else t)
  {
    var e, r, n, u := Entry(d.log.next, tx, AllocatePage(s.count)), Reserved(s), Granting(s, tx, d.log.next, false),
      Granting(s, tx, d.log.next, true);
    ReachedInv(s);
    RemembersReserve(s, r, t);
    if t.id == tx { RemembersLogged(r, n, t, e); } else { RemembersOther(r, n, t, e); }
    if Active(n.log, t.id) { ActiveBefore(s.log, e, t.id); }
    if !d.log.fault {
      ReserveTaken(d, s, tx);
      OneStep(s, Reserve);
      OneStep(r, LogAllocation(tx, s.count, d.log.next));
      ReachedInv(n);
      assert n.log[|s.log|] == e && Allocates(e, s.count);
      RemembersActivated(n, u, t, tx, s.count);
    }
  }

  lemma GrantAgrees(d: Picture, s: Sys, ts: map<nat, TxPart>, tx: nat) returns (u: Sys)
    requires Agrees(d, s, ts) && tx in ts && Active(s.log, tx) && d.log.next < U64 && d.count < CATALOG_BITS
    ensures Took(s, d.disk, AllocationSteps(tx, d.count, d.log.next, !d.log.fault), u) && Active(u.log, tx)
    ensures u.log == s.log + [Entry(d.log.next, tx, AllocatePage(d.count))]
    ensures Agrees(GrantedPicture(d, tx), u, if d.log.fault then ts
      else ts[tx := ts[tx].(granted := ts[tx].granted + [d.count])])
  {
    AgreesMeans(d, s, ts);
    assert Belongs(s, d.locks, ts[tx]);
    u := GrantMirrors(d, s, tx);
    StillActive(s.log, Entry(d.log.next, tx, AllocatePage(s.count)), tx);
    var ns := if d.log.fault then ts else ts[tx := ts[tx].(granted := ts[tx].granted + [d.count])];
    forall id | id in ns ensures Belongs(u, d.locks, ns[id]) { GrantBelongs(d, s, tx, ts[id]); }
    AgreesMeans(GrantedPicture(d, tx), u, ns);
  }

  /** A running transaction has undone nothing, and pages have their full size. */
  lemma AgreedFacts(d: Picture, s: Sys, ts: map<nat, TxPart>, id: nat, p: PageId)
    requires Agrees(d, s, ts) && id in ts
    ensures ts[id].id == id && L.Inv(d.locks) && id in d.locks.states
    ensures Active(s.log, id) ==> ts[id].open == |ts[id].mutations|
    ensures p in d.view ==> |d.view[p].data| == PAYLOAD_SIZE
  {
    AgreesMeans(d, s, ts);
    ReachedInv(s);
    assert Shows(s, p) && Belongs(s, d.locks, ts[id]);
  }
}
