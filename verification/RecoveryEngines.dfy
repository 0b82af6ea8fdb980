/** The REDO and UNDO passes as they run over the analysed log and the buffer pool. */
module RecoveryEngines {
  import opened StorageTypes
  import opened PageManagers
  import opened BufferPools
  import opened WalCodec
  import opened RecoveryAnalysis
  import opened Redos
  import opened Undos
  import opened Replay

  lemma ParsedFields(r: WalRecord, e: Entry)
    requires Parse(r) == Some(e)
    ensures e.lsn == r.lsn && e.tx == r.tx
    ensures (r.kind == Allocate <==> e.action.AllocatePage?) && (r.kind == Mutation <==> e.action.WritePage?)
    ensures e.action.WritePage? ==> Sized(e.action.mutation)
    ensures e.action.AllocatePage? ==> e.action.page != INVALID
  {
  }

  // ---- Looking up analysed records ----------------------------------------------------

  method FindMutation(ms: seq<MutationRecord>, lsn: nat, tx: nat) returns (k: nat)
    ensures k <= |ms| && (k < |ms| ==> ms[k].lsn == lsn && ms[k].tx == tx)
    ensures forall j :: 0 <= j < k ==> !(ms[j].lsn == lsn && ms[j].tx == tx)
  {
    k := 0;
    while k < |ms| && !(ms[k].lsn == lsn && ms[k].tx == tx)
      invariant k <= |ms| && forall j :: 0 <= j < k ==> !(ms[j].lsn == lsn && ms[j].tx == tx)
    {
      k := k + 1;
    }
  }

  method FindAllocation(als: seq<AllocationRecord>, lsn: nat, tx: nat) returns (k: nat)
    ensures k <= |als| && (k < |als| ==> als[k].lsn == lsn && als[k].tx == tx)
    ensures forall j :: 0 <= j < k ==> !(als[j].lsn == lsn && als[j].tx == tx)
  {
    k := 0;
    while k < |als| && !(als[k].lsn == lsn && als[k].tx == tx)
      invariant k <= |als| && forall j :: 0 <= j < k ==> !(als[j].lsn == lsn && als[j].tx == tx)
    {
      k := k + 1;
    }
  }

  /** The lookup of a log record's mutation never misses and never finds another record's. */
  lemma MutationFound(es: seq<Entry>, i: nat, k: nat)
    requires Ascending(es) && i < |es| && es[i].action.WritePage?
    requires var ms := Mutations(es);
      k <= |ms| && (k < |ms| ==> ms[k].lsn == es[i].lsn) && forall j :: 0 <= j < k ==>
        !(ms[j].lsn == es[i].lsn && ms[j].tx == es[i].tx)
    ensures k < |Mutations(es)| && Mutations(es)[k].mutation == es[i].action.mutation
  {
    var at := MutationListed(es, i);
    var from := MutationFrom(es, k);
  }

  lemma AllocationFound(es: seq<Entry>, i: nat, k: nat)
    requires Ascending(es) && i < |es| && es[i].action.AllocatePage?
    requires var als := Allocations(es);
      k <= |als| && (k < |als| ==> als[k].lsn == es[i].lsn) && forall j :: 0 <= j < k ==>
        !(als[j].lsn == es[i].lsn && als[j].tx == es[i].tx)
    ensures k < |Allocations(es)| && Allocations(es)[k].page == es[i].action.page
  {
    var at := AllocationListed(es, i);
    var from := AllocationFrom(es, k);
  }

  // ---- REDO ---------------------------------------------------------------------------

  lemma {:induction false} RedoStops(s: Store, es: seq<Entry>, won: set<nat>, k: nat, n: nat)
    requires k <= n <= |es| && Redo(s, es, won, k).None?
    ensures Redo(s, es, won, n).None?
    decreases n
  {
    if k < n { RedoStops(s, es, won, k, n - 1); }
  }

  /** The log is durable through all the records that are replayed. */
  ghost predicate AllDurable(es: seq<Entry>, durable: Option<nat>) {
    forall i :: 0 <= i < |es| ==> LsnDurable(durable, es[i].lsn)
  }

  /** A committed allocation; false stands for an exception. */
  method RedoAllocation(st: RecoveryState, ctx: ReplayContext, i: nat, ghost es: seq<Entry>) returns (ok: bool)
    requires IsAnalysis(st.records, es, st) && Ascending(es) && ctx.Valid() && i < |es| && es[i].action.AllocatePage?
    modifies ctx.pool.pm`pages, ctx.pool.pm`count, ctx.pool.pm`live, ctx.pool.pm`liveCount
    ensures ctx.Valid()
    ensures ok <==> RedoAllocate(old(ctx.Contents()), es[i].action.page).Some?
    ensures ok ==> RedoAllocate(old(ctx.Contents()), es[i].action.page) == Some(ctx.Contents())
    ensures !ok ==> ctx.Contents() == old(ctx.Contents())
  {
    ParsedFields(st.records[i], es[i]);
    var k := FindAllocation(st.allocations, st.records[i].lsn, st.records[i].tx);
    AllocationFound(es, i, k);
    ok := ctx.RedoPageAllocate(st.allocations[k].page);
  }

  /** A committed change; false stands for an exception. */
  method RedoChange(st: RecoveryState, ctx: ReplayContext, i: nat, ghost es: seq<Entry>) returns (ok: bool)
    requires IsAnalysis(st.records, es, st) && Ascending(es) && ctx.Valid() && i < |es| && es[i].action.WritePage?
    requires LsnDurable(ctx.pool.durable, es[i].lsn)
    modifies ctx.pool`frames, ctx.pool`table, ctx.pool`free, ctx.pool`lru, ctx.pool`touched
    modifies ctx.pool.pm`pages
    ensures ctx.Valid()
    ensures ok <==> RedoMutation(old(ctx.Contents()), es[i].lsn, es[i].action.mutation).Some?
    ensures ok ==> RedoMutation(old(ctx.Contents()), es[i].lsn, es[i].action.mutation) == Some(ctx.Contents())
    ensures !ok ==> ctx.Contents() == old(ctx.Contents())
  {
    ParsedFields(st.records[i], es[i]);
    var k := FindMutation(st.mutations, st.records[i].lsn, st.records[i].tx);
    MutationFound(es, i, k);
    var applied;
    ok, applied := ctx.RedoPhysicalMutation(st.records[i].lsn, st.mutations[k].mutation);
  }

  /** One committed record; false stands for an exception. */
  method RedoCommitted(st: RecoveryState, ctx: ReplayContext, i: nat, ghost es: seq<Entry>) returns (ok: bool)
    requires IsAnalysis(st.records, es, st) && Ascending(es) && ctx.Valid() && AllDurable(es, ctx.pool.durable)
    requires i < |es| && es[i].tx in Winners(es)
    modifies ctx.pool`frames, ctx.pool`table, ctx.pool`free, ctx.pool`lru, ctx.pool`touched
    modifies ctx.pool.pm`pages, ctx.pool.pm`count, ctx.pool.pm`live, ctx.pool.pm`liveCount
    ensures ctx.Valid()
    ensures ok <==> RedoEntry(old(ctx.Contents()), es[i], Winners(es)).Some?
    ensures ok ==> RedoEntry(old(ctx.Contents()), es[i], Winners(es)) == Some(ctx.Contents())
    ensures !ok ==> ctx.Contents() == old(ctx.Contents())
  {
    ParsedFields(st.records[i], es[i]);
    ok := true;
    if st.records[i].kind == Allocate {
      ok := RedoAllocation(st, ctx, i, es);
    } else if st.records[i].kind == Mutation {
      ok := RedoChange(st, ctx, i, es);
    }
  }

  /** The table knows every record's transaction and whether it won. */
  lemma TableKnows(st: RecoveryState, es: seq<Entry>, i: nat)
    requires IsAnalysis(st.records, es, st) && i < |es|
    ensures st.records[i].tx == es[i].tx && es[i].tx in st.transactions
    ensures st.transactions[es[i].tx].status == Committed <==> es[i].tx in Winners(es)
  {
    ParsedFields(st.records[i], es[i]);
    assert StatusRight(es, st, es[i].tx);
  }

  method RedoRecord(st: RecoveryState, ctx: ReplayContext, i: nat, ghost es: seq<Entry>) returns (ok: bool)
    requires IsAnalysis(st.records, es, st) && Ascending(es) && ctx.Valid() && AllDurable(es, ctx.pool.durable)
      && i < |es|
    modifies ctx.pool`frames, ctx.pool`table, ctx.pool`free, ctx.pool`lru, ctx.pool`touched
    modifies ctx.pool.pm`pages, ctx.pool.pm`count, ctx.pool.pm`live, ctx.pool.pm`liveCount
    ensures ctx.Valid()
    ensures ok <==> RedoEntry(old(ctx.Contents()), es[i], Winners(es)).Some?
    ensures ok ==> RedoEntry(old(ctx.Contents()), es[i], Winners(es)) == Some(ctx.Contents())
    ensures !ok ==> ctx.Contents() == old(ctx.Contents())
  {
    TableKnows(st, es, i);
    ok := true;
    if st.transactions[st.records[i].tx].status == Committed {
      ok := RedoCommitted(st, ctx, i, es);
    }
  }

  /** The REDO loop; when a record throws, exactly the records before it have been replayed. */
  method RedoLoop(st: RecoveryState, ctx: ReplayContext, ghost es: seq<Entry>) returns (ok: bool, ghost done: nat)
    requires IsAnalysis(st.records, es, st) && Ascending(es) && ctx.Valid() && AllDurable(es, ctx.pool.durable)
    modifies ctx.pool`frames, ctx.pool`table, ctx.pool`free, ctx.pool`lru, ctx.pool`touched
    modifies ctx.pool.pm`pages, ctx.pool.pm`count, ctx.pool.pm`live, ctx.pool.pm`liveCount
    ensures ctx.Valid() && done <= |es| && Redo(old(ctx.Contents()), es, Winners(es), done) == Some(ctx.Contents())
    ensures ok ==> done == |es|
    ensures !ok ==> done < |es| && Redo(old(ctx.Contents()), es, Winners(es), done + 1).None?
  {
    ok, done := true, 0;
    ghost var s := ctx.Contents();
    for i := 0 to |st.records|
      invariant ctx.Valid() && Redo(s, es, Winners(es), i) == Some(ctx.Contents())
    {
      done := i;
      ok := RedoNext(st, ctx, i, es, s);
      if !ok { return; }
    }
    done := |es|;
  }

  /** Record i, after those before it. */
  method RedoNext(st: RecoveryState, ctx: ReplayContext, i: nat, ghost es: seq<Entry>, ghost s: Store)
      returns (ok: bool)
    requires IsAnalysis(st.records, es, st) && Ascending(es) && ctx.Valid() && AllDurable(es, ctx.pool.durable)
      && i < |es|
    requires Redo(s, es, Winners(es), i) == Some(ctx.Contents())
    modifies ctx.pool`frames, ctx.pool`table, ctx.pool`free, ctx.pool`lru, ctx.pool`touched
    modifies ctx.pool.pm`pages, ctx.pool.pm`count, ctx.pool.pm`live, ctx.pool.pm`liveCount
    ensures ctx.Valid()
    ensures if ok then Redo(s, es, Winners(es), i + 1) == Some(ctx.Contents())
            else Redo(s, es, Winners(es), i + 1).None? && ctx.Contents() == old(ctx.Contents())
  {
    ghost var t := ctx.Contents();
    assert Redo(s, es, Winners(es), i + 1) == RedoEntry(t, es[i], Winners(es));
    ok := RedoRecord(st, ctx, i, es);
  }

  /** The REDO pass computes the REDO function. */
  method RedoRun(st: RecoveryState, ctx: ReplayContext, ghost es: seq<Entry>) returns (ok: bool, ghost done: nat)
    requires IsAnalysis(st.records, es, st) && Ascending(es) && ctx.Valid() && AllDurable(es, ctx.pool.durable)
    modifies ctx.pool`frames, ctx.pool`table, ctx.pool`free, ctx.pool`lru, ctx.pool`touched
    modifies ctx.pool.pm`pages, ctx.pool.pm`count, ctx.pool.pm`live, ctx.pool.pm`liveCount
    ensures ctx.Valid()
    ensures ok <==> Redo(old(ctx.Contents()), es, Winners(es), |es|).Some?
    ensures ok ==> Redo(old(ctx.Contents()), es, Winners(es), |es|) == Some(ctx.Contents())
    ensures !ok ==> done < |es| && Redo(old(ctx.Contents()), es, Winners(es), done) == Some(ctx.Contents())
  {
    ghost var s := ctx.Contents();
    ok, done := RedoLoop(st, ctx, es);
    if !ok { RedoStops(s, es, Winners(es), done + 1, |es|); }
  }
}
