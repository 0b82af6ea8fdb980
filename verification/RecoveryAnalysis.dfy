/** The analysis pass: what the log says happened, and which transactions won. */
module RecoveryAnalysis {
  import opened StorageTypes
  import opened LittleEndian
  import opened WalCodec
  import opened WalLog

  datatype Action = BeginTx | CommitTx | AbortTx | AllocatePage(page: PageId) | WritePage(mutation: PhysicalMutation)

  /** A log record with its payload understood. */
  datatype Entry = Entry(lsn: nat, tx: nat, action: Action)

  /** An entry whose numbers fit the log's fields. */
  ghost predicate Plain(e: Entry) {
    && 0 < e.lsn < U64 && e.tx < U64
    && (e.action.AllocatePage? ==> e.action.page < INVALID)
    && (e.action.WritePage? ==> var m := e.action.mutation;
    Loggable(m) && m.page < U64 && m.sequence < U64 && m.previousLsn == 0)
  }

  /** None where analysis throws: a payload on a transaction record, or a payload that does not decode. */
  function Parse(r: WalRecord): Option<Entry> {
    match r.kind
    case Begin => if r.payload == [] then Some(Entry(r.lsn, r.tx, BeginTx)) else None
    case Commit => if r.payload == [] then Some(Entry(r.lsn, r.tx, CommitTx)) else None
    case Abort => if r.payload == [] then Some(Entry(r.lsn, r.tx, AbortTx)) else None
    case Allocate =>
      (match DecodeAllocate(r.payload)
       case None => None
       case Some(page) => Some(Entry(r.lsn, r.tx, AllocatePage(page))))
    case Mutation =>
      (match DecodeMutation(r.payload)
       case None => None
       case Some(m) => Some(Entry(r.lsn, r.tx, WritePage(m))))
  }

  ghost predicate ParsesTo(rs: seq<WalRecord>, es: seq<Entry>) {
    |es| == |rs| && forall i :: 0 <= i < |rs| ==> Parse(rs[i]) == Some(es[i])
  }

  /** One list of records has one list of entries. */
  lemma ParsedOnce(rs: seq<WalRecord>, es: seq<Entry>, fs: seq<Entry>)
    requires ParsesTo(rs, es) && ParsesTo(rs, fs)
    ensures es == fs
  {
    forall i | 0 <= i < |rs| ensures es[i] == fs[i] {
      assert Parse(rs[i]) == Some(es[i]) && Parse(rs[i]) == Some(fs[i]);
    }
  }

  ghost predicate Parses(rs: seq<WalRecord>) {
    forall i :: 0 <= i < |rs| ==> Parse(rs[i]).Some?
  }

  /** The record that the log manager writes for an entry. */
  function RecordOf(e: Entry): (r: WalRecord)
    ensures r.lsn == e.lsn && r.tx == e.tx
  {
    match e.action
    case BeginTx => WalRecord(e.lsn, e.tx, Begin, [])
    case CommitTx => WalRecord(e.lsn, e.tx, Commit, [])
    case AbortTx => WalRecord(e.lsn, e.tx, Abort, [])
    case AllocatePage(page) => WalRecord(e.lsn, e.tx, Allocate, if page != INVALID then EncodeAllocate(page).value
      else [])
    case WritePage(m) => WalRecord(e.lsn, e.tx, Mutation, if Loggable(m) then EncodeMutation(m).value else [])
  }

  function Records(es: seq<Entry>): (rs: seq<WalRecord>)
    ensures |rs| == |es| && forall i :: 0 <= i < |es| ==> rs[i] == RecordOf(es[i])
  {
    if es == [] then [] else [RecordOf(es[0])] + Records(es[1..])
  }

  lemma RecordParses(e: Entry)
    requires Plain(e)
    ensures Parse(RecordOf(e)) == Some(e) && Fits(RecordOf(e)) && Encodable(RecordOf(e))
  {
    match e.action
    case AllocatePage(page) => AllocateRoundTrip(page, []);
    case WritePage(m) =>
      MutationRoundTrip(m);
      MutationFields(m);
      assert m.(previousLsn := 0) == m;
    case _ =>
  }

  /** A record is understood as an entry exactly if it is the record that the log manager writes for it. */
  lemma ParsedExactly(r: WalRecord, e: Entry)
    requires Fits(r) && r.lsn != 0
    ensures Parse(r) == Some(e) <==> Plain(e) && RecordOf(e) == r
  {
    if Plain(e) { RecordParses(e); }
    if Parse(r) == Some(e) {
      match e.action
      case AllocatePage(page) => AllocateParsed(r.payload);
      case WritePage(m) => MutationParsed(r.payload);
      case _ =>
    }
  }

  lemma AllocateParsed(b: Bytes)
    requires DecodeAllocate(b).Some?
    ensures DecodeAllocate(b).value < INVALID && EncodeAllocate(DecodeAllocate(b).value) == Some(b)
  {
    AllocateRoundTrip(0, b);
    Powers();
    LeUn(b);
  }

  lemma MutationParsed(b: Bytes)
    requires DecodeMutation(b).Some?
    ensures var m := DecodeMutation(b).value;
      Loggable(m) && m.page < U64 && m.sequence < U64 && m.previousLsn == 0 && EncodeMutation(m) == Some(b)
  {
    MutationDecodeExact(b);
    Powers();
    LeUn(b[..8]);
    LeUn(b[9..17]);
  }

  ghost function Winners(es: seq<Entry>): set<nat> {
    set i | 0 <= i < |es| && es[i].action.CommitTx? :: es[i].tx
  }

  ghost function Starters(es: seq<Entry>): set<nat> {
    set i | 0 <= i < |es| && es[i].action.BeginTx? :: es[i].tx
  }

  ghost function Quitters(es: seq<Entry>): set<nat> {
    set i | 0 <= i < |es| && es[i].action.AbortTx? :: es[i].tx
  }

  datatype Status = Committed | Aborted | Incomplete

  datatype AllocationRecord = AllocationRecord(lsn: nat, tx: nat, page: PageId)
  datatype MutationRecord = MutationRecord(lsn: nat, tx: nat, mutation: PhysicalMutation)
  datatype TransactionAnalysis =
    TransactionAnalysis(status: Status, began: bool, committed: bool, aborted: bool, allocations: seq<nat>,
      mutations: seq<nat>)
  datatype RecoveryState =
    RecoveryState(records: seq<WalRecord>, allocations: seq<AllocationRecord>, mutations: seq<MutationRecord>,
                  transactions: map<nat, TransactionAnalysis>)

  const NEW_TRANSACTION := TransactionAnalysis(Incomplete, false, false, false, [], [])

  /** The mutations of the log, in log order. */
  function Mutations(es: seq<Entry>): seq<MutationRecord> {
    if es == [] then [] else
      var e := es[|es| - 1];
      Mutations(es[..|es| - 1]) + (if e.action.WritePage? then [MutationRecord(e.lsn, e.tx, e.action.mutation)] else [])
  }

  function Allocations(es: seq<Entry>): seq<AllocationRecord> {
    if es == [] then [] else
      var e := es[|es| - 1];
      Allocations(es[..|es| - 1])
        + (if e.action.AllocatePage? then [AllocationRecord(e.lsn, e.tx, e.action.page)] else [])
  }

  /** ix lists, in order, exactly the positions of the mutations of tx. */
  ghost predicate MutationIndexes(ix: seq<nat>, ms: seq<MutationRecord>, tx: nat) {
    && (forall a, b :: 0 <= a < b < |ix| ==> ix[a] < ix[b])
    && (forall a :: 0 <= a < |ix| ==> ix[a] < |ms| && ms[ix[a]].tx == tx)
    && (forall k: nat :: k < |ms| && ms[k].tx == tx ==> k in ix)
  }

  ghost predicate AllocationIndexes(ix: seq<nat>, als: seq<AllocationRecord>, tx: nat) {
    && (forall a, b :: 0 <= a < b < |ix| ==> ix[a] < ix[b])
    && (forall a :: 0 <= a < |ix| ==> ix[a] < |als| && als[ix[a]].tx == tx)
    && (forall k: nat :: k < |als| && als[k].tx == tx ==> k in ix)
  }

  /** What the first loop has recorded about one transaction. */
  ghost predicate Recorded(es: seq<Entry>, ms: seq<MutationRecord>, als: seq<AllocationRecord>, tx: nat,
      t: TransactionAnalysis)
  {
    && (t.began <==> tx in Starters(es))
    && (t.committed <==> tx in Winners(es)) && (t.aborted <==> tx in Quitters(es))
    && MutationIndexes(t.mutations, ms, tx) && AllocationIndexes(t.allocations, als, tx)
  }

  ghost predicate Tabled(es: seq<Entry>, st: RecoveryState) {
    && st.mutations == Mutations(es) && st.allocations == Allocations(es)
    && (forall i :: 0 <= i < |es| ==> es[i].tx in st.transactions)
    && forall tx: nat {:trigger TxTabled(es, st, tx)} :: TxTabled(es, st, tx)
  }

  ghost predicate TxTabled(es: seq<Entry>, st: RecoveryState, tx: nat) {
    tx in st.transactions ==>
      (exists i :: 0 <= i < |es| && es[i].tx == tx)
        && Recorded(es, st.mutations, st.allocations, tx, st.transactions[tx])
  }

  ghost predicate StatusRight(es: seq<Entry>, st: RecoveryState, tx: nat) {
    tx in st.transactions ==>
      && (st.transactions[tx].status == Committed <==> tx in Winners(es))
      && (st.transactions[tx].status == Aborted <==> tx in Quitters(es))
  }

  /** The analysis of a log: every record, decoded, and every transaction classified. */
  ghost predicate IsAnalysis(rs: seq<WalRecord>, es: seq<Entry>, st: RecoveryState) {
    && ParsesTo(rs, es) && st.records == rs && Tabled(es, st)
    && forall tx: nat {:trigger StatusRight(es, st, tx)} :: StatusRight(es, st, tx)
  }

  lemma MutationIndexAdded(ix: seq<nat>, ms: seq<MutationRecord>, m: MutationRecord, tx: nat)
    requires MutationIndexes(ix, ms, tx)
    ensures MutationIndexes(if m.tx == tx then ix + [|ms|] else ix, ms + [m], tx)
  {
    var to := if m.tx == tx then ix + [|ms|] else ix;
    forall k: nat | k < |ms + [m]| && (ms + [m])[k].tx == tx ensures k in to {
      if k < |ms| {
        assert k in ix;
      } else {
        assert to[|ix|] == k;
      }
    }
  }

  lemma AllocationIndexAdded(ix: seq<nat>, als: seq<AllocationRecord>, a: AllocationRecord, tx: nat)
    requires AllocationIndexes(ix, als, tx)
    ensures AllocationIndexes(if a.tx == tx then ix + [|als|] else ix, als + [a], tx)
  {
    var to := if a.tx == tx then ix + [|als|] else ix;
    forall k: nat | k < |als + [a]| && (als + [a])[k].tx == tx ensures k in to {
      if k < |als| {
        assert k in ix;
      } else {
        assert to[|ix|] == k;
      }
    }
  }

  /** One more record adds its transaction to a class and leaves the others alone. */
  lemma ClassesGrow(es: seq<Entry>, e: Entry)
    ensures Winners(es + [e]) == Winners(es) + (if e.action.CommitTx? then {e.tx} else {})
    ensures Quitters(es + [e]) == Quitters(es) + (if e.action.AbortTx? then {e.tx} else {})
    ensures Starters(es + [e]) == Starters(es) + (if e.action.BeginTx? then {e.tx} else {})
  {
    var all := es + [e];
    forall tx | tx in Starters(es) ensures tx in Starters(all) {
      var i :| 0 <= i < |es| && es[i].action.BeginTx? && es[i].tx == tx;
      assert all[i] == es[i];
    }
    forall tx | tx in Winners(es) ensures tx in Winners(all) {
      var i :| 0 <= i < |es| && es[i].action.CommitTx? && es[i].tx == tx;
      assert all[i] == es[i];
    }
    forall tx | tx in Quitters(es) ensures tx in Quitters(all) {
      var i :| 0 <= i < |es| && es[i].action.AbortTx? && es[i].tx == tx;
      assert all[i] == es[i];
    }
    assert all[|es|] == e;
  }

  /** The record's transaction after the switch statement. */
  function Noted(t: TransactionAnalysis, e: Entry, mutations: nat, allocations: nat): TransactionAnalysis {
    match e.action
    case BeginTx => t.(began := true)
    case CommitTx => t.(committed := true)
    case AbortTx => t.(aborted := true)
    case AllocatePage(_) => t.(allocations := t.allocations + [allocations])
    case WritePage(_) => t.(mutations := t.mutations + [mutations])
  }

  /** Every listed mutation is the one of some log entry. */
  lemma {:induction false} MutationFrom(es: seq<Entry>, k: nat) returns (i: nat)
    requires k < |Mutations(es)|
    ensures i < |es| && es[i].action.WritePage?
      && Mutations(es)[k] == MutationRecord(es[i].lsn, es[i].tx, es[i].action.mutation)
  {
    var front := es[..|es| - 1];
    if k < |Mutations(front)| {
      i := MutationFrom(front, k);
    } else {
      i := |es| - 1;
    }
  }

  lemma {:induction false} AllocationFrom(es: seq<Entry>, k: nat) returns (i: nat)
    requires k < |Allocations(es)|
    ensures i < |es| && es[i].action.AllocatePage?
      && Allocations(es)[k] == AllocationRecord(es[i].lsn, es[i].tx, es[i].action.page)
  {
    var front := es[..|es| - 1];
    if k < |Allocations(front)| {
      i := AllocationFrom(front, k);
    } else {
      i := |es| - 1;
    }
  }

  /** The mutation of every log entry is listed. */
  lemma {:induction false} MutationListed(es: seq<Entry>, i: nat) returns (k: nat)
    requires i < |es| && es[i].action.WritePage?
    ensures k < |Mutations(es)| && Mutations(es)[k] == MutationRecord(es[i].lsn, es[i].tx, es[i].action.mutation)
  {
    if i == |es| - 1 {
      k := |Mutations(es[..i])|;
    } else {
      k := MutationListed(es[..|es| - 1], i);
    }
  }

  lemma {:induction false} AllocationListed(es: seq<Entry>, i: nat) returns (k: nat)
    requires i < |es| && es[i].action.AllocatePage?
    ensures k < |Allocations(es)| && Allocations(es)[k] == AllocationRecord(es[i].lsn, es[i].tx, es[i].action.page)
  {
    if i == |es| - 1 {
      k := |Allocations(es[..i])|;
    } else {
      k := AllocationListed(es[..|es| - 1], i);
    }
  }

  lemma NewIsRecorded(es: seq<Entry>, tx: nat)
    requires forall i :: 0 <= i < |es| ==> es[i].tx != tx
    ensures Recorded(es, Mutations(es), Allocations(es), tx, NEW_TRANSACTION)
  {
    var ms, als := Mutations(es), Allocations(es);
    forall k: nat | k < |ms| ensures ms[k].tx != tx {
      var i := MutationFrom(es, k);
    }
    forall k: nat | k < |als| ensures als[k].tx != tx {
      var i := AllocationFrom(es, k);
    }
  }

  lemma ListsGrow(es: seq<Entry>, e: Entry)
    ensures Mutations(es + [e]) ==
      Mutations(es) + (if e.action.WritePage? then [MutationRecord(e.lsn, e.tx, e.action.mutation)] else [])
    ensures Allocations(es + [e]) ==
      Allocations(es) + (if e.action.AllocatePage? then [AllocationRecord(e.lsn, e.tx, e.action.page)] else [])
  {
    assert (es + [e])[..|es + [e]| - 1] == es;
  }

  lemma NotedMutations(es: seq<Entry>, e: Entry, tx: nat, ix: seq<nat>)
    requires MutationIndexes(ix, Mutations(es), tx)
    ensures MutationIndexes(if e.tx == tx && e.action.WritePage? then ix + [|Mutations(es)|]
      else ix, Mutations(es + [e]), tx)
  {
    ListsGrow(es, e);
    if e.action.WritePage? {
      MutationIndexAdded(ix, Mutations(es), MutationRecord(e.lsn, e.tx, e.action.mutation), tx);
    } else {
      assert Mutations(es + [e]) == Mutations(es);
    }
  }

  lemma NotedAllocations(es: seq<Entry>, e: Entry, tx: nat, ix: seq<nat>)
    requires AllocationIndexes(ix, Allocations(es), tx)
    ensures AllocationIndexes(if e.tx == tx && e.action.AllocatePage? then ix + [|Allocations(es)|]
      else ix, Allocations(es + [e]), tx)
  {
    ListsGrow(es, e);
    if e.action.AllocatePage? {
      AllocationIndexAdded(ix, Allocations(es), AllocationRecord(e.lsn, e.tx, e.action.page), tx);
    } else {
      assert Allocations(es + [e]) == Allocations(es);
    }
  }

  /** Noting a record keeps the table right, for its own transaction and for the others. */
  lemma NotedRecorded(es: seq<Entry>, e: Entry, tx: nat, t: TransactionAnalysis)
    requires Recorded(es, Mutations(es), Allocations(es), tx, t)
    ensures Recorded(es + [e], Mutations(es + [e]), Allocations(es + [e]), tx,
                     if e.tx == tx then Noted(t, e, |Mutations(es)|, |Allocations(es)|) else t)
  {
    ClassesGrow(es, e);
    NotedMutations(es, e, tx, t.mutations);
    NotedAllocations(es, e, tx, t.allocations);
  }

  lemma NotedTabled(es: seq<Entry>, st: RecoveryState, e: Entry, to: RecoveryState)
    requires Tabled(es, st)
    requires var t := if e.tx in st.transactions then st.transactions[e.tx] else NEW_TRANSACTION;
             to.transactions == st.transactions[e.tx := Noted(t, e, |st.mutations|, |st.allocations|)]
    requires to.mutations == Mutations(es + [e]) && to.allocations == Allocations(es + [e])
    ensures Tabled(es + [e], to)
  {
    var all := es + [e];
    forall tx: nat ensures TxTabled(all, to, tx) {
      assert TxTabled(es, st, tx);
      if tx in st.transactions {
        var i :| 0 <= i < |es| && es[i].tx == tx;
        assert all[i].tx == tx;
        NotedRecorded(es, e, tx, st.transactions[tx]);
      } else if tx == e.tx {
        assert all[|es|].tx == tx;
        NewIsRecorded(es, tx);
        NotedRecorded(es, e, tx, NEW_TRANSACTION);
      }
    }
  }

  /** The switch statement. */
  method Note(st: RecoveryState, e: Entry, ghost es: seq<Entry>) returns (to: RecoveryState)
    requires Tabled(es, st)
    ensures Tabled(es + [e], to) && to.records == st.records
  {
    ListsGrow(es, e);
    var t := if e.tx in st.transactions then st.transactions[e.tx] else NEW_TRANSACTION;
    to := st.(transactions := st.transactions[e.tx := Noted(t, e, |st.mutations|, |st.allocations|)]);
    match e.action {
      case AllocatePage(page) => to := to.(allocations := to.allocations + [AllocationRecord(e.lsn, e.tx, page)]);
      case WritePage(m) => to := to.(mutations := to.mutations + [MutationRecord(e.lsn, e.tx, m)]);
      case BeginTx =>
      case CommitTx =>
      case AbortTx =>
    }
    NotedTabled(es, st, e, to);
  }

  lemma OneMore(rs: seq<WalRecord>, n: nat, es: seq<Entry>, e: Entry)
    requires n < |rs| && ParsesTo(rs[..n], es) && Parse(rs[n]) == Some(e)
    ensures ParsesTo(rs[..n + 1], es + [e])
  {
    var front, all := rs[..n], es + [e];
    forall i | 0 <= i < n ensures Parse(rs[i]) == Some(all[i]) {
      assert Parse(front[i]) == Some(es[i]);
      assert rs[i] == front[i] && all[i] == es[i];
    }
  }

  /** The scan loop: decodes every record and fills the transaction table. */
  method FillTable(rs: seq<WalRecord>) returns (r: Option<RecoveryState>, ghost es: seq<Entry>)
    ensures r.Some? <==> Parses(rs)
    ensures r.Some? ==> ParsesTo(rs, es) && r.value.records == rs && Tabled(es, r.value)
  {
    var st := RecoveryState(rs, [], [], map[]);
    es := [];
    for n := 0 to |rs|
      invariant ParsesTo(rs[..n], es)
      invariant st.records == rs && Tabled(es, st)
    {
      var parsed := Parse(rs[n]);
      if parsed.None? { return None, []; }
      st := Note(st, parsed.value, es);
      OneMore(rs, n, es, parsed.value);
      es := es + [parsed.value];
    }
    assert rs[..|rs|] == rs;
    r := Some(st);
  }

  function Judged(t: TransactionAnalysis): TransactionAnalysis {
    t.(status := if t.committed then Committed else if t.aborted then Aborted else Incomplete)
  }

  /** The second loop: sets every status, unless some transaction has both terminal records. */
  method Classify(table: map<nat, TransactionAnalysis>) returns (r: Option<map<nat, TransactionAnalysis>>)
    ensures r.Some? <==> forall tx :: tx in table ==> !(table[tx].committed && table[tx].aborted)
    ensures r.Some? ==> r.value.Keys == table.Keys && forall tx :: tx in table ==>
      r.value[tx] == Judged(table[tx])
  {
    var todo, out := table.Keys, table;
    while todo != {}
      invariant todo <= out.Keys == table.Keys
      invariant forall tx :: tx in todo ==> out[tx] == table[tx]
      invariant forall tx :: tx in table && tx !in todo ==> !(table[tx].committed && table[tx].aborted)
      invariant forall tx :: tx in table && tx !in todo ==> out[tx] == Judged(table[tx])
    {
      var tx :| tx in todo;
      var t := out[tx];
      if t.committed && t.aborted { return None; }
      out := out[tx := Judged(t)];
      todo := todo - {tx};
    }
    r := Some(out);
  }

  /** Analysis succeeds exactly on logs that parse and in which no transaction both commits and aborts. */
  method Analyze(rs: seq<WalRecord>) returns (r: Option<RecoveryState>, ghost es: seq<Entry>)
    ensures r.Some? <==> Parses(rs) && !Clashes(rs)
    ensures r.Some? ==> IsAnalysis(rs, es, r.value)
    ensures r.Some? <==> ParsesTo(rs, es) && Winners(es) !! Quitters(es)
    ensures Parses(rs) ==> ParsesTo(rs, es)
  {
    r, es := FillTable(rs);
    if r.None? { return; }
    var st := r.value;
    var table := Classify(st.transactions);
    Conflicts(es, st);
    ClashesAre(rs, es);
    if table.None? { return None, es; }
    var to := st.(transactions := table.value);
    Reclassified(es, st, to);
    r := Some(to);
  }

  /** Some transaction has both terminal records. */
  ghost predicate Clashes(rs: seq<WalRecord>) {
    exists i, j :: 0 <= i < |rs| && 0 <= j < |rs| && rs[i].kind == Commit && rs[j].kind == Abort && rs[i].tx == rs[j].tx
  }

  lemma ClashesAre(rs: seq<WalRecord>, es: seq<Entry>)
    requires ParsesTo(rs, es)
    ensures Clashes(rs) <==> !(Winners(es) !! Quitters(es))
  {
    forall i | 0 <= i < |rs|
      ensures rs[i].tx == es[i].tx && (rs[i].kind == Commit <==> es[i].action.CommitTx?)
        && (rs[i].kind == Abort <==> es[i].action.AbortTx?)
    {
      assert Parse(rs[i]) == Some(es[i]);
    }
    if tx :| tx in Winners(es) && tx in Quitters(es) {
      var i :| 0 <= i < |es| && es[i].action.CommitTx? && es[i].tx == tx;
      var j :| 0 <= j < |es| && es[j].action.AbortTx? && es[j].tx == tx;
      assert Clashes(rs);
    }
    if Clashes(rs) {
      var i, j :| 0 <= i < |rs| && 0 <= j < |rs| && rs[i].kind == Commit && rs[j].kind == Abort && rs[i].tx == rs[j].tx;
      assert es[i].tx in Winners(es) && es[j].tx in Quitters(es);
    }
  }

  /** A transaction has both terminal records exactly when the table says so. */
  lemma Conflicts(es: seq<Entry>, st: RecoveryState)
    requires Tabled(es, st)
    ensures Winners(es) !! Quitters(es) <==>
      forall tx :: tx in st.transactions ==> !(st.transactions[tx].committed && st.transactions[tx].aborted)
  {
    forall tx | tx in Winners(es) ensures tx in st.transactions {}
    forall tx | tx in st.transactions ensures Recorded(es, st.mutations, st.allocations, tx, st.transactions[tx]) {
      assert TxTabled(es, st, tx);
    }
  }

  lemma Reclassified(es: seq<Entry>, st: RecoveryState, to: RecoveryState)
    requires Tabled(es, st) && to == st.(transactions := to.transactions)
      && to.transactions.Keys == st.transactions.Keys
    requires forall tx :: tx in st.transactions ==> !(st.transactions[tx].committed && st.transactions[tx].aborted)
    requires forall tx :: tx in st.transactions ==> to.transactions[tx] == Judged(st.transactions[tx])
    ensures Tabled(es, to) && forall tx: nat {:trigger StatusRight(es, to, tx)} :: StatusRight(es, to, tx)
  {
    forall tx: nat ensures TxTabled(es, to, tx) && StatusRight(es, to, tx) {
      assert TxTabled(es, st, tx);
      if tx in st.transactions { JudgedRight(es, to.mutations, to.allocations, tx, st.transactions[tx]); }
    }
  }

  lemma JudgedRight(es: seq<Entry>, ms: seq<MutationRecord>, als: seq<AllocationRecord>, tx: nat,
      t: TransactionAnalysis)
    requires Recorded(es, ms, als, tx, t) && !(t.committed && t.aborted)
    ensures Recorded(es, ms, als, tx, Judged(t))
    ensures (Judged(t).status == Committed <==> tx in Winners(es))
      && (Judged(t).status == Aborted <==> tx in Quitters(es))
  {
  }
}
