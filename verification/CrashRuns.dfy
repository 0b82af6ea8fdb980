/** Whole runs of transactions over the page store, crashes at any point, and recovery from them. */
module CrashRuns {
  import opened StorageTypes
  import opened WalCodec
  import opened PageManagers
  import opened RecoveryAnalysis
  import opened Redos
  import opened Undos
  import opened RecoveryHistory

  /**
   * `mem` is the store as transactions see it, `disk` what a crash leaves of it. `log` is the history: the log's
   * records, and for every transaction that a crash cut off an Abort entry of LSN zero, which the log file does not
   * have. Its first `durable` entries survive any crash. `undo` remembers, for a page that a transaction has changed,
   * the page before its first change. The catalog (`live`, `count`) is written through. `base` and `initial` are the
   * pages and the allocated pages at the start of the log.
   */
  datatype Sys = Sys(
    base: map<PageId, Page>, initial: set<PageId>, log: seq<Entry>, durable: nat,
    mem: map<PageId, Page>, disk: map<PageId, Page>, undo: map<PageId, Page>, live: set<PageId>, count: nat)

  /**
   * A page is written back as memory shows it, or spilled as some earlier durable version: a rollback takes a page
   * back image by image, and the cache may evict it on the way.
   */
  datatype Step =
    | Start(tx: nat, lsn: nat)
    | Change(tx: nat, page: PageId, after: Bytes, lsn: nat, number: nat)
    | LogCommit(tx: nat, lsn: nat)
    | RollBack(tx: nat, lsn: nat)
    | WriteBack(page: PageId)
    | Spill(page: PageId, version: Page)
    | FlushLog
    | Reserve
    | LogAllocation(tx: nat, page: PageId, lsn: nat)
    | Activate(tx: nat, page: PageId)
    | Restart(n: nat)

  ghost predicate Fresh(log: seq<Entry>, lsn: nat) {
    0 < lsn < U64 && forall i :: 0 <= i < |log| ==> log[i].lsn < lsn
  }

  /** The transaction may still act. */
  ghost predicate Active(log: seq<Entry>, tx: nat) {
    tx < U64 && !EndedBy(log, tx, |log|)
  }

  /** No other transaction has page p locked: whoever changed it has ended. */
  ghost predicate Lockable(log: seq<Entry>, tx: nat, p: PageId) {
    forall i :: 0 <= i < |log| && OnPage(log[i], p) && log[i].tx != tx ==> EndedBy(log, log[i].tx, |log|)
  }

  /** The page may go to disk: the log is durable through its LSN. */
  ghost predicate Gated(s: Sys, lsn: nat) {
    lsn == 0 || exists k :: 0 <= k < s.durable <= |s.log| && lsn <= s.log[k].lsn
  }

  ghost predicate Allocates(e: Entry, p: PageId) {
    e.action.AllocatePage? && e.action.page == p
  }

  ghost predicate AllocatedBy(log: seq<Entry>, tx: nat, p: PageId) {
    exists i :: 0 <= i < |log| && log[i].tx == tx && Allocates(log[i], p)
  }

  ghost predicate Unallocated(log: seq<Entry>, p: PageId) {
    forall i :: 0 <= i < |log| ==> !Allocates(log[i], p)
  }

  function Mutated(page: PageId, before: Bytes, after: Bytes, number: nat): Action {
    WritePage(PhysicalMutation(page, number, before, after, 0))
  }

  ghost predicate Enabled(s: Sys, step: Step) {
    match step
    case Start(tx, lsn) => Active(s.log, tx) && Fresh(s.log, lsn)
    case Change(tx, p, after, lsn, number) =>
      && Active(s.log, tx) && Fresh(s.log, lsn) && Lockable(s.log, tx, p) && p in s.live && p in s.mem
      && |after| == PAYLOAD_SIZE && number < U64
    case LogCommit(tx, lsn) => Active(s.log, tx) && Fresh(s.log, lsn)
    case RollBack(tx, lsn) => Active(s.log, tx) && Fresh(s.log, lsn)
    case WriteBack(p) => p in s.mem && Gated(s, s.mem[p].lsn)
    case Spill(p, x) => p in s.base && p in s.disk && s.durable <= |s.log|
      && IsVersion(s.base[p], s.log, p, s.durable, x)
    case FlushLog => true
    case Reserve => s.count < CATALOG_BITS
    case LogAllocation(tx, p, lsn) =>
      Active(s.log, tx) && Fresh(s.log, lsn) && p < s.count && p !in s.initial && p !in s.live && Unallocated(s.log, p)
    case Activate(tx, p) => Active(s.log, tx) && s.durable <= |s.log| && AllocatedBy(s.log[..s.durable], tx, p)
    case Restart(n) => Survives(s, n) && Recover(Crashed(s), s.log[..n]).Some?
  }

  /** A crash may leave n entries of the log: all that are durable, and any number of the others. */
  ghost predicate Survives(s: Sys, n: nat) {
    s.durable <= n <= |s.log|
  }

  ghost function Crashed(s: Sys): Store {
    Store(s.disk, s.live, s.count)
  }

  /** The ends that a crash gives to the transactions among the first n entries that have none. */
  ghost function Lost(es: seq<Entry>, n: nat): seq<Entry>
    requires n <= |es|
  {
    if n == 0 then []
    else
      var tx := es[n - 1].tx;
      Lost(es, n - 1) + (if EndedBy(es, tx, |es|) || exists j :: 0 <= j < n - 1 && es[j].tx == tx then []
        else [Entry(0, tx, AbortTx)])
  }

  /** The history after a crash that left these entries. */
  ghost function Closed(es: seq<Entry>): seq<Entry> {
    es + Lost(es, |es|)
  }

  /** Rolling back puts every page that the transaction changed back to what it was before. */
  ghost function RolledBack(s: Sys, tx: nat): map<PageId, Page> {
    map p | p in s.mem :: if FirstBy(s.log, tx, p, |s.log|) >= 0 && p in s.undo then s.undo[p] else s.mem[p]
  }

  ghost function Next(s: Sys, step: Step): Sys {
    match step
    case Start(tx, lsn) => s.(log := s.log + [Entry(lsn, tx, BeginTx)])
    case Change(tx, p, after, lsn, number) =>
      if p !in s.mem then s else
        s.(log := s.log + [Entry(lsn, tx, Mutated(p, s.mem[p].data, after, number))],
          mem := s.mem[p := Page(after, lsn)],
           undo := if FirstBy(s.log, tx, p, |s.log|) >= 0 then s.undo else s.undo[p := s.mem[p]])
    case LogCommit(tx, lsn) => s.(log := s.log + [Entry(lsn, tx, CommitTx)])
    case RollBack(tx, lsn) =>
      s.(log := s.log + [Entry(lsn, tx, AbortTx)], mem := RolledBack(s, tx),
         live := set p | p in s.live && !AllocatedBy(s.log, tx, p))
    case WriteBack(p) => if p !in s.mem then s else s.(disk := s.disk[p := s.mem[p]])
    case Spill(p, x) => s.(disk := s.disk[p := x])
    case FlushLog => s.(durable := |s.log|)
    case Reserve =>
      s.(base := s.base[s.count := NEW_PAGE], mem := s.mem[s.count := NEW_PAGE], disk := s.disk[s.count := NEW_PAGE],
        count := s.count + 1)
    case LogAllocation(tx, p, lsn) =>
      s.(log := s.log + [Entry(lsn, tx, AllocatePage(p))])
    case Activate(tx, p) => s.(live := s.live + {p})
    case Restart(n) =>
      if n > |s.log| then s else
      (match Recover(Crashed(s), s.log[..n])
       case None => s
       case Some(t) => Restarted(s, n, t))
  }

  /** The new start on what recovery left. */
  ghost function Restarted(s: Sys, n: nat, t: Store): Sys
    requires n <= |s.log|
  {
    var log := Closed(s.log[..n]);
    s.(log := log, durable := |log|, mem := t.pages, undo := map[], live := t.live, count := t.count)
  }

  // ---- What every step keeps ----------------------------------------------------------

  ghost predicate Stores(s: Sys) {
    && (forall p: PageId :: p in s.base <==> p < s.count) && s.mem.Keys == s.base.Keys && s.disk.Keys == s.base.Keys
    && s.live <= s.base.Keys && s.count <= CATALOG_BITS
    && forall p :: p in s.base ==> s.base[p].lsn == 0 && |s.base[p].data| == PAYLOAD_SIZE
  }

  /** Every entry of the file can be written to it and read back. */
  ghost predicate AllPlain(log: seq<Entry>) {
    forall i :: 0 <= i < |log| && log[i].lsn != 0 ==> Plain(log[i])
  }

  ghost predicate Logs(s: Sys) {
    Ordered(s.log) && AllSized(s.log) && AllPlain(s.log) && Lawful(s.base, s.log) && s.durable <= |s.log|
  }

  /** Memory shows what the log says transactions see, and `undo` what they saw first. */
  ghost predicate Shows(s: Sys, p: PageId) {
    p in s.base ==>
      && p in s.mem && s.mem[p] == Seen(s.base[p], s.log, p, |s.log|) && |s.mem[p].data| == PAYLOAD_SIZE
      && (Held(s.log, p, |s.log|) ==>
            p in s.undo && var f := FirstBy(s.log, Holder(s.log, p, |s.log|), p, |s.log|);
                           f >= 0 && s.undo[p] == Seen(s.base[p], s.log, p, f) && |s.undo[p].data| == PAYLOAD_SIZE)
  }

  /** A page version: the base or what some logged change made of it. */
  ghost predicate IsVersion(base: Page, log: seq<Entry>, p: PageId, n: nat, x: Page)
    requires n <= |log|
  {
    x == base || exists k :: 0 <= k < n && OnPage(log[k], p) && x == Page(log[k].action.mutation.after, log[k].lsn)
  }

  /** A disk page is some version whose record is durable. */
  ghost predicate Stale(s: Sys, p: PageId)
    requires s.durable <= |s.log|
  {
    p in s.base && p in s.disk ==> IsVersion(s.base[p], s.log, p, s.durable, s.disk[p])
  }

  /** The catalog against the log. */
  ghost predicate Catalogued(s: Sys) {
    && (forall i :: 0 <= i < |s.log| && s.log[i].action.AllocatePage? ==>
    s.log[i].action.page < s.count && s.log[i].action.page !in s.initial)
    && (forall i, j, p: PageId :: 0 <= i < j < |s.log| && Allocates(s.log[i], p) ==> !Allocates(s.log[j], p))
    && s.initial <= s.live
    && (forall p: PageId :: p in s.live && p !in s.initial ==> GrantStands(s, p))
    && (forall i, p: PageId :: 0 <= i < |s.log| && OnPage(s.log[i], p) ==> p in s.initial || GrantedBefore(s.log, p, i))
    && (forall i, p: PageId :: 0 <= i < |s.log| && OnPage(s.log[i], p) ==> p in s.live || Orphaned(s.log, p))
  }

  /** The page's allocation is durable and its transaction has not rolled back. */
  ghost predicate GrantStands(s: Sys, p: PageId) {
    exists k :: 0 <= k < s.durable <= |s.log| && Allocates(s.log[k], p) && s.log[k].tx !in Quitters(s.log)
  }

  ghost predicate GrantedBefore(log: seq<Entry>, p: PageId, i: nat) {
    exists k :: 0 <= k < i <= |log| && Allocates(log[k], p)
  }

  /** The page was allocated by a transaction that rolled back. */
  ghost predicate Orphaned(log: seq<Entry>, p: PageId) {
    exists k :: 0 <= k < |log| && Allocates(log[k], p) && log[k].tx in Quitters(log)
  }

  ghost predicate Inv(s: Sys) {
    Stores(s) && Logs(s) && Catalogued(s) && (forall p: PageId {:trigger Shows(s, p)} :: Shows(s, p))
    && forall p: PageId {:trigger Stale(s, p)} :: Stale(s, p)
  }
}
