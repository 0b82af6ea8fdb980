/** The lock table: two-phase shared/exclusive locks with upgrades and WAIT-DIE, as atomic steps under one mutex. */
module LockTable {

  type Tx = nat
  type Resource = nat
  type Thread = nat

  datatype Mode = Shared | Exclusive
  datatype TxState = Growing | Shrinking | Committed | Aborted
  datatype Holder = Holder(tx: Tx, mode: Mode)

  /** A thread asleep in `lock`, with the time at which it fell asleep. */
  datatype Waiter = Waiter(tx: Tx, res: Resource, mode: Mode, since: nat)

  /** The lock manager's state. `clock` counts steps and `grantedAt` remembers when a holder last
      obtained or upgraded its lock; both serve only to state what happens over time.
      `signalled` holds the sleepers that a notification has reached. */
  datatype Locks = Locks(
    table: map<Resource, seq<Holder>>,
    held: map<Tx, set<Resource>>,
    states: map<Tx, TxState>,
    sleepers: map<Thread, Waiter>,
    signalled: set<Thread>,
    clock: nat,
    grantedAt: map<(Resource, Tx), nat>)

  const EMPTY := Locks(map[], map[], map[], map[], {}, 0, map[])

  predicate Conflicts(requested: Mode, held: Mode) {
    requested == Exclusive || held == Exclusive
  }

  function Row(l: Locks, r: Resource): seq<Holder> {
    if r in l.table then l.table[r] else []
  }

  predicate Growth(l: Locks, tx: Tx) {
    tx in l.states && l.states[tx] == Growing
  }

  predicate Compatible(row: seq<Holder>, tx: Tx, mode: Mode) {
    forall h :: h in row && h.tx != tx ==> !Conflicts(mode, h.mode)
  }

  /** The requester has a larger identifier than some conflicting holder. */
  predicate YoungerThanConflict(row: seq<Holder>, tx: Tx, mode: Mode) {
    exists h :: h in row && h.tx != tx && Conflicts(mode, h.mode) && tx > h.tx
  }

  predicate HeldBy(row: seq<Holder>, tx: Tx) {
    exists h :: h in row && h.tx == tx
  }

  function Strip(row: seq<Holder>, tx: Tx): (r: seq<Holder>)
    ensures forall h :: h in r <==> h in row && h.tx != tx
    ensures |r| <= |row|
  {
    if row == [] then []
    else if row[0].tx == tx then Strip(row[1..], tx)
    else [row[0]] + Strip(row[1..], tx)
  }

  function Upgrade(row: seq<Holder>, tx: Tx): (r: seq<Holder>)
    ensures |r| == |row|
    ensures forall i :: 0 <= i < |row| ==> r[i] == if row[i].tx == tx then Holder(tx, Exclusive) else row[i]
  {
    if row == [] then []
    else [if row[0].tx == tx then Holder(tx, Exclusive) else row[0]] + Upgrade(row[1..], tx)
  }

  // ---- Atomic steps ------------------------------------------------------------------

  /** The table without the transaction's entries in the given rows; rows that become empty disappear. */
  function Without(table: map<Resource, seq<Holder>>, tx: Tx, rs: set<Resource>): map<Resource, seq<Holder>> {
    map r | r in table && (r !in rs || Strip(table[r], tx) != []) :: if r in rs then Strip(table[r], tx) else table[r]
  }

  /** Releasing every lock that the held-table lists for a transaction. */
  function ReleaseAll(l: Locks, tx: Tx): Locks {
    if tx !in l.held then l
    else l.(table := Without(l.table, tx, l.held[tx]), held := l.held - {tx})
  }

  /** A notification reaches every thread that is asleep. */
  function Notify(l: Locks): Locks {
    l.(signalled := l.sleepers.Keys)
  }

  function Finish(l: Locks, tx: Tx, state: TxState): Locks {
    Notify(ReleaseAll(l, tx).(states := l.states[tx := state]))
  }

  function Grant(l: Locks, tx: Tx, r: Resource, mode: Mode): Locks {
    var row := Row(l, r);
    if HeldBy(row, tx) then
      l.(table := l.table[r := Upgrade(row, tx)], grantedAt := l.grantedAt[(r, tx) := l.clock])
    else
      l.(table := l.table[r := row + [Holder(tx, mode)]],
         held := l.held[tx := (if tx in l.held then l.held[tx] else {}) + {r}],
         grantedAt := l.grantedAt[(r, tx) := l.clock])
  }

  datatype Reply = Granted | Refused | Died | Sleeping

  /** One pass through the loop of `lock`: what the mutex-protected section decides. */
  function Decide(l: Locks, tx: Tx, r: Resource, mode: Mode): Reply {
    var row := Row(l, r);
    if !Growth(l, tx) then Refused
    else if Holder(tx, mode) in row then Granted
    else if mode == Shared && HeldBy(row, tx) then Refused
    else if Compatible(row, tx, mode) then Granted
    else if YoungerThanConflict(row, tx, mode) then Died
    else Sleeping
  }

  function Attempt(l: Locks, thread: Thread, tx: Tx, r: Resource, mode: Mode): Locks {
    match Decide(l, tx, r, mode)
    case Refused => l
    case Granted => if Holder(tx, mode) in Row(l, r) then l else Grant(l, tx, r, mode)
    case Died => Finish(l, tx, Aborted)
    case Sleeping => l.(sleepers := l.sleepers[thread := Waiter(tx, r, mode, l.clock)],
      signalled := l.signalled - {thread})
  }

  /** The condition a sleeper waits for; it looks at compatibility and abortion, not at age. */
  predicate MayWake(l: Locks, w: Waiter) {
    (w.tx in l.states && l.states[w.tx] == Aborted) || Compatible(Row(l, w.res), w.tx, w.mode)
  }

  predicate CanUnlock(l: Locks, tx: Tx, r: Resource) {
    tx in l.states && l.states[tx] in {Growing, Shrinking} && HeldBy(Row(l, r), tx)
  }

  function Unlock(l: Locks, tx: Tx, r: Resource): Locks {
    if !CanUnlock(l, tx, r) then l
    else
      var row := Strip(Row(l, r), tx);
      var held := if tx in l.held then l.held[tx] - {r} else {};
      Notify(l.(table := if row == [] then l.table - {r} else l.table[r := row],
                held := if held == {} then l.held - {tx} else l.held[tx := held],
                states := l.states[tx := Shrinking]))
  }

  predicate Terminal(l: Locks, tx: Tx) {
    tx in l.states && l.states[tx] in {Committed, Aborted}
  }

  datatype Event =
    | Begin(tx: Tx)
    | Lock(thread: Thread, tx: Tx, res: Resource, mode: Mode)
    | Wake(thread: Thread)
    | Release(tx: Tx, res: Resource)
    | Commit(tx: Tx)
    | Abort(tx: Tx)

  function Tick(l: Locks): Locks {
    l.(clock := l.clock + 1)
  }

  /** The effect of a step; a call that is not possible in the state leaves it as it is. Any sleeper
      may wake at any time, spuriously or not; it goes back to sleep unless its condition holds. */
  function Effect(l: Locks, e: Event): Locks {
    match e
    case Begin(tx) => if tx in l.states then l else l.(states := l.states[tx := Growing])
    case Lock(thread, tx, r, mode) =>
      if thread in l.sleepers || tx !in l.states then l else Attempt(l, thread, tx, r, mode)
    case Wake(thread) =>
      if thread !in l.sleepers then l
      else
        var w := l.sleepers[thread];
        if !MayWake(l, w) then l.(signalled := l.signalled - {thread})
        else Attempt(l.(sleepers := l.sleepers - {thread}, signalled := l.signalled - {thread}), thread, w.tx, w.res,
          w.mode)
    case Release(tx, r) => Unlock(l, tx, r)
    case Commit(tx) => if tx !in l.states || Terminal(l, tx) then l else Finish(l, tx, Committed)
    case Abort(tx) => if tx !in l.states || Terminal(l, tx) then l else Finish(l, tx, Aborted)
  }

  function Next(l: Locks, e: Event): Locks {
    Tick(Effect(l, e))
  }

  // ---- Invariant ---------------------------------------------------------------------

  /** A row lists a transaction once and its members do not conflict. */
  ghost predicate RowOk(row: seq<Holder>) {
    && (forall h, g :: h in row && g in row && h.tx == g.tx ==> h == g)
    && (forall h, g :: h in row && g in row && h.tx != g.tx ==> !Conflicts(h.mode, g.mode))
  }

  ghost predicate Holds(l: Locks, tx: Tx, r: Resource) {
    HeldBy(Row(l, r), tx)
  }

  ghost predicate Lists(l: Locks, tx: Tx, r: Resource) {
    tx in l.held && r in l.held[tx]
  }

  /** Conflicting locks never coexist, and the table has no empty rows. */
  ghost predicate RowsOk(l: Locks) {
    && (forall r {:trigger Row(l, r)} :: RowOk(Row(l, r)))
    && (forall r :: r in l.table ==> l.table[r] != [])
  }

  /** The table of holders and the table of held resources are inverse to each other. */
  ghost predicate Inverse(l: Locks) {
    forall tx, r {:trigger Holds(l, tx, r)} {:trigger Lists(l, tx, r)} :: Holds(l, tx, r) <==> Lists(l, tx, r)
  }

  /** Only transactions that have not ended hold locks, and no empty set of resources is kept. */
  ghost predicate HeldOk(l: Locks) {
    forall tx :: tx in l.held ==> l.held[tx] != {} && tx in l.states && l.states[tx] in {Growing, Shrinking}
  }

  ghost predicate Inv(l: Locks) {
    RowsOk(l) && Inverse(l) && HeldOk(l)
  }

  lemma StripOthers(row: seq<Holder>, tx: Tx)
    ensures !HeldBy(row, tx) ==> Strip(row, tx) == row
  {
    if row != [] && !HeldBy(row, tx) {
      assert row[0] in row;
      assert forall h :: h in row[1..] ==> h in row;
      StripOthers(row[1..], tx);
    }
  }

  lemma StripOk(row: seq<Holder>, tx: Tx)
    requires RowOk(row)
    ensures RowOk(Strip(row, tx)) && !HeldBy(Strip(row, tx), tx)
    ensures forall t :: t != tx ==> (HeldBy(Strip(row, tx), t) <==> HeldBy(row, t))
  {
    forall t | t != tx && HeldBy(row, t) ensures HeldBy(Strip(row, tx), t) {
      var h :| h in row && h.tx == t;
      assert h in Strip(row, tx);
    }
  }

  /** Releasing everything removes the transaction from every row. */
  lemma ReleaseRow(l: Locks, tx: Tx, r: Resource)
    requires Inverse(l)
    ensures Row(ReleaseAll(l, tx), r) == Strip(Row(l, r), tx)
  {
    StripOthers(Row(l, r), tx);
    assert Holds(l, tx, r) <==> Lists(l, tx, r);
  }

  lemma ReleaseAllInv(l: Locks, tx: Tx)
    requires Inv(l)
    ensures var m := ReleaseAll(l, tx); Inv(m) && tx !in m.held
  {
    var m := ReleaseAll(l, tx);
    forall r ensures RowOk(Row(m, r)) {
      ReleaseRow(l, tx, r);
      StripOk(Row(l, r), tx);
    }
    forall t, r ensures Holds(m, t, r) <==> Lists(m, t, r) {
      ReleaseRow(l, tx, r);
      StripOk(Row(l, r), tx);
      assert Holds(l, t, r) <==> Lists(l, t, r);
    }
    forall r | r in m.table ensures m.table[r] != [] {
    }
  }

  lemma FinishInv(l: Locks, tx: Tx, state: TxState)
    requires Inv(l)
    ensures Inv(Finish(l, tx, state))
  {
    ReleaseAllInv(l, tx);
    SameTables(ReleaseAll(l, tx), Finish(l, tx, state));
  }

  /** The row and inverse clauses depend on the two tables only. */
  lemma SameTables(l: Locks, m: Locks)
    requires RowsOk(l) && Inverse(l) && m.table == l.table && m.held == l.held
    ensures RowsOk(m) && Inverse(m)
  {
    forall r ensures RowOk(Row(m, r)) { assert Row(m, r) == Row(l, r); }
    forall t, r ensures Holds(m, t, r) <==> Lists(m, t, r) {
      assert Row(m, r) == Row(l, r);
      assert Holds(l, t, r) <==> Lists(l, t, r);
    }
  }

  lemma UpgradeRow(row: seq<Holder>, tx: Tx)
    ensures forall h :: h in Upgrade(row, tx) <==>
      if h.tx == tx then HeldBy(row, tx) && h == Holder(tx, Exclusive) else h in row
  {
    var u := Upgrade(row, tx);
    forall h | h in row ensures (if h.tx == tx then Holder(tx, Exclusive) else h) in u {
      var i :| 0 <= i < |row| && row[i] == h;
      assert u[i] == if h.tx == tx then Holder(tx, Exclusive) else h;
    }
    forall h | h in u ensures if h.tx == tx then HeldBy(row, tx) && h == Holder(tx, Exclusive) else h in row {
      var i :| 0 <= i < |u| && u[i] == h;
      assert row[i] in row;
    }
  }

  /** The row of a granted resource: exactly the old holders, with the requester in the requested mode. */
  lemma GrantRow(l: Locks, tx: Tx, r: Resource, mode: Mode)
    requires HeldBy(Row(l, r), tx) ==> mode == Exclusive
    ensures forall h :: h in Row(Grant(l, tx, r, mode), r) <==> if h.tx == tx then h.mode == mode else h in Row(l, r)
    ensures forall q :: q != r ==> Row(Grant(l, tx, r, mode), q) == Row(l, q)
    ensures Row(Grant(l, tx, r, mode), r) != []
  {
    var row := Row(l, r);
    UpgradeRow(row, tx);
    if HeldBy(row, tx) {
      var h :| h in row && h.tx == tx;
      assert |Upgrade(row, tx)| == |row| > 0;
    } else {
      assert forall h :: h in row + [Holder(tx, mode)] <==> h in row || h == Holder(tx, mode);
    }
  }

  lemma GrantInv(l: Locks, tx: Tx, r: Resource, mode: Mode)
    requires Inv(l) && Growth(l, tx) && Compatible(Row(l, r), tx, mode)
    requires HeldBy(Row(l, r), tx) ==> mode == Exclusive
    ensures Inv(Grant(l, tx, r, mode))
  {
    var m := Grant(l, tx, r, mode);
    GrantRow(l, tx, r, mode);
    forall q ensures RowOk(Row(m, q)) { assert RowOk(Row(l, q)); }
    forall t, q ensures Holds(m, t, q) <==> Lists(m, t, q) {
      assert Holds(l, t, q) <==> Lists(l, t, q);
      if q == r && t == tx {
        assert Holder(tx, mode) in Row(m, r);
      } else if q == r {
        GrantKeepsOthers(l, tx, r, mode, t);
      }
    }
  }

  lemma GrantKeepsOthers(l: Locks, tx: Tx, r: Resource, mode: Mode, t: Tx)
    requires (HeldBy(Row(l, r), tx) ==> mode == Exclusive) && t != tx
    ensures HeldBy(Row(Grant(l, tx, r, mode), r), t) <==> HeldBy(Row(l, r), t)
  {
    GrantRow(l, tx, r, mode);
    var m := Grant(l, tx, r, mode);
    if HeldBy(Row(l, r), t) {
      var h :| h in Row(l, r) && h.tx == t;
      assert h in Row(m, r);
    }
    if HeldBy(Row(m, r), t) {
      var h :| h in Row(m, r) && h.tx == t;
      assert h in Row(l, r);
    }
  }

  lemma AttemptInv(l: Locks, thread: Thread, tx: Tx, r: Resource, mode: Mode)
    requires Inv(l)
    ensures Inv(Attempt(l, thread, tx, r, mode))
  {
    match Decide(l, tx, r, mode)
    case Refused =>
    case Granted => if Holder(tx, mode) !in Row(l, r) { GrantInv(l, tx, r, mode); }
    case Died => FinishInv(l, tx, Aborted);
    case Sleeping => SameTables(l, Attempt(l, thread, tx, r, mode));
  }

  lemma UnlockRow(l: Locks, tx: Tx, r: Resource, q: Resource)
    requires CanUnlock(l, tx, r)
    ensures Row(Unlock(l, tx, r), q) == if q == r then Strip(Row(l, r), tx) else Row(l, q)
  {
  }

  lemma UnlockInv(l: Locks, tx: Tx, r: Resource)
    requires Inv(l)
    ensures Inv(Unlock(l, tx, r))
  {
    if CanUnlock(l, tx, r) {
      var m := Unlock(l, tx, r);
      assert Holds(l, tx, r) <==> Lists(l, tx, r);
      forall q ensures RowOk(Row(m, q)) {
        UnlockRow(l, tx, r, q);
        StripOk(Row(l, q), tx);
      }
      forall t, q ensures Holds(m, t, q) <==> Lists(m, t, q) {
        UnlockRow(l, tx, r, q);
        StripOk(Row(l, q), tx);
        assert Holds(l, t, q) <==> Lists(l, t, q);
      }
    }
  }

  /** Every step keeps conflicting locks apart and the two tables inverse to each other. */
  lemma StepInv(l: Locks, e: Event)
    requires Inv(l)
    ensures Inv(Next(l, e))
  {
    match e {
      case Begin(tx) => SameTables(l, Effect(l, e));
      case Lock(thread, tx, r, mode) => AttemptInv(l, thread, tx, r, mode);
      case Wake(thread) =>
        if thread in l.sleepers {
          var m := l.(sleepers := l.sleepers - {thread}, signalled := l.signalled - {thread});
          SameTables(l, m);
          SameTables(l, l.(signalled := l.signalled - {thread}));
          AttemptInv(m, thread, l.sleepers[thread].tx, l.sleepers[thread].res, l.sleepers[thread].mode);
        }
      case Release(tx, r) => UnlockInv(l, tx, r);
      case Commit(tx) => FinishInv(l, tx, Committed);
      case Abort(tx) => FinishInv(l, tx, Aborted);
    }
    SameTables(Effect(l, e), Next(l, e));
  }
}
