/** Runs of the log, the transactions and the coordinator over one lock manager: what a crash makes of their fates. */
module CommitRuns {
  import opened StorageTypes
  import opened WalCodec
  import opened WalLog
  import opened RecoveryAnalysis
  import opened Redos
  import L = LockTable

  /** The log as its entries, the next LSN, the last durable LSN, and the lock manager. */
  datatype Node = Node(es: seq<Entry>, next: nat, durable: nat, locks: L.Locks)

  /**
   * `Wrote` appends a record: a Begin or a page change. `Forced` appends a record and flushes: an allocation, or the
   * terminal record of a transaction that is not over, whose locks are released if the flush succeeds. `Flushed` is a
   * flush by itself, and `Locked` a call of the lock manager.
   */
  datatype Event =
    | Wrote(tx: nat, action: Action)
    | Forced(tx: nat, action: Action, ok: bool)
    | Flushed(ok: bool)
    | Locked(call: L.Event)

  predicate Terminates(a: Action) {
    a.CommitTx? || a.AbortTx?
  }

  ghost predicate Enabled(n: Node, e: Event) {
    match e
    case Wrote(tx, a) => (a.BeginTx? || a.WritePage?) && Plain(Entry(n.next, tx, a))
    case Forced(tx, a, _) =>
      && (a.AllocatePage? || (Terminates(a) && tx in n.locks.states && !L.Terminal(n.locks, tx)))
      && Plain(Entry(n.next, tx, a))
    case Flushed(_) => true
    case Locked(_) => true
  }

  function Released(l: L.Locks, tx: nat, a: Action): L.Locks {
    match a
    case CommitTx => L.Next(l, L.Commit(tx))
    case AbortTx => L.Next(l, L.Abort(tx))
    case _ => l
  }

  function Next(n: Node, e: Event): Node {
    match e
    case Wrote(tx, a) => n.(es := n.es + [Entry(n.next, tx, a)], next := n.next + 1)
    case Forced(tx, a, ok) =>
      Node(n.es + [Entry(n.next, tx, a)], n.next + 1, if ok then n.next
        else n.durable, if ok then Released(n.locks, tx, a) else n.locks)
    case Flushed(ok) => if ok && n.next > 0 then n.(durable := n.next - 1) else n
    case Locked(call) => n.(locks := L.Next(n.locks, call))
  }

  ghost predicate Initial(n: Node) {
    n.es == [] && n.next == 1 && n.durable == 0
  }

  ghost predicate IsRun(nodes: seq<Node>, events: seq<Event>) {
    && |nodes| == |events| + 1 && Initial(nodes[0])
    && forall i :: 0 <= i < |events| ==> Enabled(nodes[i], events[i]) && nodes[i + 1] == Next(nodes[i], events[i])
  }

  // ---- The log of a run -----------------------------------------------------------------

  ghost predicate LogOk(n: Node) {
    && Ordered(n.es) && (forall i :: 0 <= i < |n.es| ==> Plain(n.es[i]) && n.es[i].lsn < n.next) && n.durable < n.next
  }

  lemma {:induction false} RunLogOk(nodes: seq<Node>, events: seq<Event>, k: nat)
    requires IsRun(nodes, events) && k < |nodes|
    ensures LogOk(nodes[k])
  {
    if k > 0 { RunLogOk(nodes, events, k - 1); }
  }

  /** A later log extends an earlier one, and what was durable stays so. */
  lemma {:induction false} LogGrows(nodes: seq<Node>, events: seq<Event>, i: nat, k: nat)
    requires IsRun(nodes, events) && i <= k < |nodes|
    ensures nodes[i].es <= nodes[k].es && nodes[i].durable <= nodes[k].durable
  {
    if i < k {
      LogGrows(nodes, events, i, k - 1);
      RunLogOk(nodes, events, k - 1);
    }
  }

  /** The event that wrote an entry. */
  ghost predicate Writes(nodes: seq<Node>, events: seq<Event>, i: nat, x: nat, e: Entry) {
    && i < |events| && i < |nodes| && x == |nodes[i].es| && e.lsn == nodes[i].next
    && ((events[i].Wrote? && e.tx == events[i].tx && e.action == events[i].action)
        || (events[i].Forced? && e.tx == events[i].tx && e.action == events[i].action))
  }

  lemma {:induction false} EntryFrom(nodes: seq<Node>, events: seq<Event>, k: nat, x: nat) returns (i: nat)
    requires IsRun(nodes, events) && k < |nodes| && x < |nodes[k].es|
    ensures i < k && Writes(nodes, events, i, x, nodes[k].es[x])
  {
    if x < |nodes[k - 1].es| {
      i := EntryFrom(nodes, events, k - 1, x);
      LogGrows(nodes, events, k - 1, k);
    } else {
      i := k - 1;
    }
  }

  lemma WrittenEntry(nodes: seq<Node>, events: seq<Event>, k: nat, i: nat)
    requires IsRun(nodes, events) && i < k < |nodes| && (events[i].Wrote? || events[i].Forced?)
    ensures var x := |nodes[i].es|;
      x < |nodes[k].es| && nodes[k].es[x] == Entry(nodes[i].next, events[i].tx, events[i].action)
  {
    LogGrows(nodes, events, i + 1, k);
  }

  // ---- When both terminal records meet --------------------------------------------------

  lemma TerminalStays(l: L.Locks, call: L.Event, tx: nat)
    requires L.Terminal(l, tx)
    ensures L.Terminal(L.Next(l, call), tx)
  {
  }

  lemma StepStaysOver(n: Node, e: Event, tx: nat)
    requires L.Terminal(n.locks, tx)
    ensures L.Terminal(Next(n, e).locks, tx)
  {
    match e
    case Locked(call) => TerminalStays(n.locks, call, tx);
    case Forced(other, a, ok) =>
      TerminalStays(n.locks, L.Commit(other), tx);
      TerminalStays(n.locks, L.Abort(other), tx);
    case _ =>
  }

  lemma {:induction false} StaysOver(nodes: seq<Node>, events: seq<Event>, i: nat, k: nat, tx: nat)
    requires IsRun(nodes, events) && i <= k < |nodes| && L.Terminal(nodes[i].locks, tx)
    ensures L.Terminal(nodes[k].locks, tx)
  {
    if i < k {
      StaysOver(nodes, events, i, k - 1, tx);
      StepStaysOver(nodes[k - 1], events[k - 1], tx);
    }
  }

  /** After a terminal record whose flush succeeded there is no other. */
  lemma EndsOnce(nodes: seq<Node>, events: seq<Event>, i: nat, j: nat)
    requires IsRun(nodes, events) && i < j < |events| && events[i].Forced? && Terminates(events[i].action)
    requires events[j].Forced? && Terminates(events[j].action) && events[j].tx == events[i].tx
    ensures !events[i].ok
  {
    if events[i].ok { StaysOver(nodes, events, i + 1, j, events[i].tx); }
  }

  /**
   * Event i logged a terminal record of a transaction but failed to flush it, and event j logged its other terminal
   * record, among the first x entries.
   */
  ghost predicate Wavers(nodes: seq<Node>, events: seq<Event>, i: nat, j: nat, x: nat) {
    && i < j < |events| && j < |nodes| && events[i].Forced? && events[j].Forced? && !events[i].ok
    && events[i].tx == events[j].tx
    && Terminates(events[i].action) && Terminates(events[j].action) && events[i].action != events[j].action
    && |nodes[j].es| < x
  }

  /**
   * Whatever prefix of the log survives, analysis finds a transaction with both terminal records if and only if one
   * had the flush of its commit fail and then aborted, or had the flush of its abort fail and then committed.
   */
  lemma RejectedIff(nodes: seq<Node>, events: seq<Event>, k: nat, x: nat)
    requires IsRun(nodes, events) && k < |nodes| && x <= |nodes[k].es|
    ensures var es := nodes[k].es[..x]; Winners(es) !! Quitters(es) <==> !exists i, j :: Wavers(nodes, events, i, j, x)
  {
    var es := nodes[k].es[..x];
    if tx :| tx in Winners(es) && tx in Quitters(es) {
      BothEnds(nodes, events, k, x, tx);
    }
    if i, j :| Wavers(nodes, events, i, j, x) {
      WaverClashes(nodes, events, k, x, i, j);
    }
  }

  lemma BothEnds(nodes: seq<Node>, events: seq<Event>, k: nat, x: nat, tx: nat)
    requires IsRun(nodes, events) && k < |nodes| && x <= |nodes[k].es|
    requires tx in Winners(nodes[k].es[..x]) && tx in Quitters(nodes[k].es[..x])
    ensures exists i, j :: Wavers(nodes, events, i, j, x)
  {
    var es := nodes[k].es;
    var a: nat :| a < x && es[..x][a].action.CommitTx? && es[..x][a].tx == tx;
    var b: nat :| b < x && es[..x][b].action.AbortTx? && es[..x][b].tx == tx;
    var i := EntryFrom(nodes, events, k, a);
    var j := EntryFrom(nodes, events, k, b);
    if i < j {
      EndsOnce(nodes, events, i, j);
      assert Wavers(nodes, events, i, j, x);
    } else {
      EndsOnce(nodes, events, j, i);
      assert Wavers(nodes, events, j, i, x);
    }
  }

  lemma WaverClashes(nodes: seq<Node>, events: seq<Event>, k: nat, x: nat, i: nat, j: nat)
    requires IsRun(nodes, events) && k < |nodes| && x <= |nodes[k].es| && Wavers(nodes, events, i, j, x)
    ensures var es := nodes[k].es[..x]; events[i].tx in Winners(es) && events[i].tx in Quitters(es)
  {
    if j >= k {
      LogGrows(nodes, events, k, j);
      assert false;
    }
    WrittenEntry(nodes, events, k, i);
    WrittenEntry(nodes, events, k, j);
    LogGrows(nodes, events, i, j);
    var es := nodes[k].es[..x];
    assert es[|nodes[i].es|] == nodes[k].es[|nodes[i].es|] && es[|nodes[j].es|] == nodes[k].es[|nodes[j].es|];
  }

  /** Transaction 1 logs one terminal record without flushing it, and then the other. */
  function WaveringEvents(commitFirst: bool): seq<Event> {
    var first, second := if commitFirst then CommitTx else AbortTx, if commitFirst then AbortTx else CommitTx;
    [Locked(L.Begin(1)), Wrote(1, BeginTx), Forced(1, first, false), Forced(1, second, true)]
  }

  /** There are such runs, of either kind, and analysis rejects what they leave. */
  lemma WaveringRun(commitFirst: bool) returns (nodes: seq<Node>)
    ensures var events := WaveringEvents(commitFirst);
      IsRun(nodes, events) && Wavers(nodes, events, 2, 3, 3) && |nodes[4].es| == 3
        && !(Winners(nodes[4].es) !! Quitters(nodes[4].es))
  {
    var events := WaveringEvents(commitFirst);
    var n0 := Node([], 1, 0, L.EMPTY);
    var n1 := Next(n0, events[0]);
    var n2 := Next(n1, events[1]);
    var n3 := Next(n2, events[2]);
    var n4 := Next(n3, events[3]);
    nodes := [n0, n1, n2, n3, n4];
    assert Enabled(n0, events[0]) && Enabled(n1, events[1]) && Enabled(n2, events[2]) && Enabled(n3, events[3]);
    assert n4.es[..3] == n4.es;
    WaverClashes(nodes, events, 4, 3, 2, 3);
  }

  // ---- What a crash leaves --------------------------------------------------------------

  /** The entries of a log file cut at byte m are those written completely. */
  lemma CutReadsBack(es: seq<Entry>, m: nat)
    requires Ordered(es) && (forall i :: 0 <= i < |es| ==> Plain(es[i])) && m <= |Log(Records(es))|
    ensures var rs, x := Records(es), Whole(Records(es), m);
      Scan(Log(rs)[..m], 0) == Good(rs[..x]) && ParsesTo(rs[..x], es[..x]) && rs[..x] == Records(es[..x])
  {
    var rs := Records(es);
    forall i | 0 <= i < |es|
      ensures Parse(rs[i]) == Some(es[i]) && Fits(rs[i]) && Encodable(rs[i]) && rs[i].lsn == es[i].lsn
    {
      RecordParses(es[i]);
    }
    TornTail(rs, 0, m);
  }

  /** A record whose flush succeeded is durable from then on. */
  lemma ForcedIsDurable(nodes: seq<Node>, events: seq<Event>, i: nat, k: nat)
    requires IsRun(nodes, events) && i < k < |nodes| && events[i].Forced? && events[i].ok
    ensures var x := |nodes[i].es|;
      x < |nodes[k].es| && nodes[k].es[x] == Entry(nodes[i].next, events[i].tx, events[i].action)
        && nodes[k].es[x].lsn <= nodes[k].durable
  {
    WrittenEntry(nodes, events, k, i);
    LogGrows(nodes, events, i + 1, k);
  }

  /** The surviving bytes hold every durable record. */
  ghost predicate HoldsDurable(n: Node, m: nat) {
    && m <= |Log(Records(n.es))|
    && forall x: nat {:trigger n.es[x]} :: x < |n.es| && n.es[x].lsn <= n.durable ==>
         TotalSize(Records(n.es)[..x + 1]) <= m
  }

  /** Every record that was flushed survives, so its transaction's end does. */
  lemma EndSurvives(nodes: seq<Node>, events: seq<Event>, k: nat, m: nat, i: nat)
    requires IsRun(nodes, events) && i < k < |nodes| && HoldsDurable(nodes[k], m) && events[i].Forced? && events[i].ok
    ensures var x := Whole(Records(nodes[k].es), m); var es := nodes[k].es[..x];
      && |nodes[i].es| < x
      && (events[i].action.CommitTx? ==> events[i].tx in Winners(es))
      && (events[i].action.AbortTx? ==> events[i].tx in Quitters(es))
  {
    ForcedIsDurable(nodes, events, i, k);
    var rs, y := Records(nodes[k].es), |nodes[i].es|;
    WholeIsLongest(rs, m);
    assert nodes[k].es[y].lsn <= nodes[k].durable;
    assert nodes[k].es[..Whole(rs, m)][y] == nodes[k].es[y];
  }

  /**
   * At any point of any run and for every cut of the log file behind the durable bytes: the file is read back, and
   * analysis accepts it if and only if no transaction wavered within it. Where no flush of a terminal record failed,
   * it is accepted.
   */
  lemma CrashIsJudged(nodes: seq<Node>, events: seq<Event>, k: nat, m: nat)
    requires IsRun(nodes, events) && k < |nodes| && HoldsDurable(nodes[k], m)
    ensures var rs, x := Records(nodes[k].es), Whole(Records(nodes[k].es), m); var es := nodes[k].es[..x];
      && Scan(Log(rs)[..m], 0) == Good(rs[..x]) && ParsesTo(rs[..x], es)
      && (Winners(es) !! Quitters(es) <==> !exists i, j :: Wavers(nodes, events, i, j, x))
      && ((forall i :: 0 <= i < |events| && events[i].Forced? && Terminates(events[i].action) ==> events[i].ok) ==>
      Winners(es) !! Quitters(es))
  {
    RunLogOk(nodes, events, k);
    CutReadsBack(nodes[k].es, m);
    RejectedIff(nodes, events, k, Whole(Records(nodes[k].es), m));
  }
}
