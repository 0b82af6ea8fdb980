/** The lock manager as an object; each method performs one atomic step of the lock table. */
module LockManagers {
  import opened LockTable

  /** Taking the transaction out of one more row. */
  lemma WithoutOneMore(table: map<Resource, seq<Holder>>, tx: Tx, rs: set<Resource>, r: Resource)
    requires r !in rs
    ensures var t := Without(table, tx, rs);
      Without(table, tx, rs + {r}) == if r !in t then t else if Strip(t[r], tx) == [] then t - {r}
        else t[r := Strip(t[r], tx)]
  {
  }

  class LockManager {
    var table: map<Resource, seq<Holder>>
    var held: map<Tx, set<Resource>>
    var states: map<Tx, TxState>
    var sleepers: map<Thread, Waiter>
    var signalled: set<Thread>
    var clock: nat
    ghost var grantedAt: map<(Resource, Tx), nat>

    ghost function State(): Locks
      reads this
    {
      Locks(table, held, states, sleepers, signalled, clock, grantedAt)
    }

    constructor ()
      ensures State() == EMPTY
    {
      table, held, states, sleepers, signalled := map[], map[], map[], map[], {};
      clock, grantedAt := 0, map[];
    }

    method BeginTransaction(tx: Tx)
      modifies this
      ensures State() == Next(old(State()), Begin(tx))
    {
      if tx !in states {
        states := states[tx := Growing];
      }
      clock := clock + 1;
    }

    /** Walks over the resources listed for the transaction and takes it out of their rows. */
    method ReleaseAllLocks(tx: Tx)
      modifies this`table, this`held
      ensures State() == ReleaseAll(old(State()), tx)
    {
      if tx !in held {
        return;
      }
      var todo := held[tx];
      ghost var done: set<Resource> := {};
      assert table == Without(table, tx, {});
      while todo != {}
        invariant held == old(held) && tx in held && done + todo == held[tx] && done !! todo
        invariant table == Without(old(table), tx, done)
        decreases todo
      {
        var r :| r in todo;
        todo := todo - {r};
        if r in table {
          var row := Strip(table[r], tx);
          table := if row == [] then table - {r} else table[r := row];
        }
        WithoutOneMore(old(table), tx, done, r);
        done := done + {r};
      }
      assert done == held[tx];
      held := held - {tx};
    }

    method EndTransaction(tx: Tx, state: TxState)
      modifies this`table, this`held, this`states, this`signalled
      ensures State() == Finish(old(State()), tx, state)
    {
      ReleaseAllLocks(tx);
      states := states[tx := state];
      signalled := sleepers.Keys;
    }

    method GrantLock(tx: Tx, r: Resource, mode: Mode)
      modifies this`table, this`held, this`grantedAt
      ensures State() == Grant(old(State()), tx, r, mode)
    {
      var row := if r in table then table[r] else [];
      if HeldBy(row, tx) {
        table := table[r := Upgrade(row, tx)];
      } else {
        table := table[r := row + [Holder(tx, mode)]];
        held := held[tx := (if tx in held then held[tx] else {}) + {r}];
      }
      grantedAt := grantedAt[(r, tx) := clock];
    }

    /** One pass through the request loop: grant, refuse, die, or fall asleep. */
    method Request(thread: Thread, tx: Tx, r: Resource, mode: Mode) returns (reply: Reply)
      modifies this`table, this`held, this`states, this`sleepers, this`signalled, this`grantedAt
      ensures reply == Decide(old(State()), tx, r, mode)
      ensures State() == Attempt(old(State()), thread, tx, r, mode)
    {
      if tx !in states || states[tx] != Growing {
        return Refused;
      }
      var row := if r in table then table[r] else [];
      if Holder(tx, mode) in row {
        return Granted;
      }
      if mode == Shared && HeldBy(row, tx) {
        return Refused;
      }
      if Compatible(row, tx, mode) {
        GrantLock(tx, r, mode);
        return Granted;
      }
      if YoungerThanConflict(row, tx, mode) {
        EndTransaction(tx, Aborted);
        return Died;
      }
      sleepers := sleepers[thread := Waiter(tx, r, mode, clock)];
      signalled := signalled - {thread};
      return Sleeping;
    }

    method LockResource(thread: Thread, tx: Tx, r: Resource, mode: Mode) returns (reply: Reply)
      requires thread !in sleepers && tx in states
      modifies this
      ensures reply == Decide(old(State()), tx, r, mode)
      ensures State() == Next(old(State()), Lock(thread, tx, r, mode))
    {
      reply := Request(thread, tx, r, mode);
      clock := clock + 1;
    }

    /** A sleeper looks again; it goes on only when its condition holds. */
    method Resume(thread: Thread) returns (reply: Reply)
      requires thread in sleepers
      modifies this
      ensures State() == Next(old(State()), Wake(thread))
      ensures reply == Sleeping <==> thread in sleepers
      ensures var w := old(sleepers)[thread];
        reply == Granted <==>
          && thread !in sleepers && w.tx in old(states) && old(states)[w.tx] == Growing
          && Holder(w.tx, w.mode) in Row(State(), w.res)
      ensures reply != Died
    {
      var w := sleepers[thread];
      var row := if w.res in table then table[w.res] else [];
      signalled := signalled - {thread};
      if !((w.tx in states && states[w.tx] == Aborted) || Compatible(row, w.tx, w.mode)) {
        reply := Sleeping;
      } else {
        sleepers := sleepers - {thread};
        reply := Request(thread, w.tx, w.res, w.mode);
      }
      clock := clock + 1;
    }

    method UnlockResource(tx: Tx, r: Resource) returns (ok: bool)
      modifies this
      ensures ok == CanUnlock(old(State()), tx, r)
      ensures State() == Next(old(State()), Release(tx, r))
    {
      var row := if r in table then table[r] else [];
      ok := tx in states && states[tx] in {Growing, Shrinking} && HeldBy(row, tx);
      if ok {
        var rest := Strip(row, tx);
        table := if rest == [] then table - {r} else table[r := rest];
        var mine := if tx in held then held[tx] - {r} else {};
        held := if mine == {} then held - {tx} else held[tx := mine];
        states := states[tx := Shrinking];
        signalled := sleepers.Keys;
      }
      clock := clock + 1;
    }

    method CommitTransaction(tx: Tx)
      requires tx in states
      modifies this
      ensures State() == Next(old(State()), Commit(tx))
      ensures states == if old(states)[tx] in {Committed, Aborted} then old(states) else old(states)[tx := Committed]
    {
      if states[tx] !in {Committed, Aborted} {
        EndTransaction(tx, Committed);
      }
      clock := clock + 1;
    }

    method AbortTransaction(tx: Tx)
      requires tx in states
      modifies this
      ensures State() == Next(old(State()), Abort(tx))
      ensures states == if old(states)[tx] in {Committed, Aborted} then old(states) else old(states)[tx := Aborted]
    {
      if states[tx] !in {Committed, Aborted} {
        EndTransaction(tx, Aborted);
      }
      clock := clock + 1;
    }
  }
}
