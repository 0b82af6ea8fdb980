/** Scan, analysis, REDO and UNDO in sequence, from the bytes of the log to the recovered store. */
module RecoveryPasses {
  import opened StorageTypes
  import opened PageManagers
  import opened BufferPools
  import opened LittleEndian
  import opened WalCodec
  import opened WalLog
  import opened RecoveryAnalysis
  import opened Redos
  import opened Undos
  import opened RecoveryHistory
  import opened RealLogs
  import opened CrashRuns
  import opened CrashRecovery
  import opened CrashTheorems
  import opened NumberedRuns
  import opened Replay
  import opened RecoveryEngines
  import opened UndoEngines

  /** A scanned log has strictly increasing LSNs above the given one. */
  lemma {:induction false} ScanIncreasing(b: Bytes, last: nat)
    requires Scan(b, last).Good?
    ensures Increasing(Scan(b, last).records, last)
    decreases |b|
  {
    if |b| >= HEADER && OVERHEAD <= Un(b[8..12]) <= |b| {
      var length := Un(b[8..12]);
      ScanIncreasing(b[length..], Decode(b[..length]).value.lsn);
    }
  }

  lemma ParsedOrdered(rs: seq<WalRecord>, es: seq<Entry>)
    requires ParsesTo(rs, es) && Increasing(rs, 0)
    ensures Ascending(es)
  {
    forall i | 0 <= i < |es| ensures es[i].lsn == rs[i].lsn { ParsedFields(rs[i], es[i]); }
  }

  lemma ParsedDurable(rs: seq<WalRecord>, es: seq<Entry>, durable: Option<nat>)
    requires ParsesTo(rs, es) && forall i :: 0 <= i < |rs| ==> LsnDurable(durable, rs[i].lsn)
    ensures AllDurable(es, durable)
  {
    forall i | 0 <= i < |es| ensures LsnDurable(durable, es[i].lsn) { ParsedFields(rs[i], es[i]); }
  }

  ghost predicate LogReadable(file: Bytes, es: seq<Entry>) {
    Scan(file, 0).Good? && ParsesTo(Scan(file, 0).records, es) && Winners(es) !! Quitters(es)
  }

  /** The entries of a readable log are determined by its bytes. */
  lemma ReadableOnce(file: Bytes, es: seq<Entry>, fs: seq<Entry>)
    requires LogReadable(file, es) && ParsesTo(Scan(file, 0).records, fs)
    ensures fs == es
  {
    ParsedOnce(Scan(file, 0).records, es, fs);
  }

  /** Recovery as the passes perform it is recovery as it is specified; false stands for an exception. */
  method RecoverDatabase(file: Bytes, ctx: ReplayContext) returns (ok: bool, ghost es: seq<Entry>)
    requires ctx.Valid() && ctx.reconstructed == {}
    requires Scan(file, 0).Good? ==>
      forall i :: 0 <= i < |Scan(file, 0).records| ==> LsnDurable(ctx.pool.durable, Scan(file, 0).records[i].lsn)
    modifies ctx`reconstructed, ctx.pool`frames, ctx.pool`table, ctx.pool`free, ctx.pool`lru, ctx.pool`touched
    modifies ctx.pool.pm`pages, ctx.pool.pm`count, ctx.pool.pm`live, ctx.pool.pm`liveCount
    ensures ctx.Valid()
    ensures Scan(file, 0).Good? && Parses(Scan(file, 0).records) ==> ParsesTo(Scan(file, 0).records, es)
    ensures ok <==> LogReadable(file, es) && Recover(old(ctx.Contents()), es).Some?
    ensures ok ==> Recover(old(ctx.Contents()), es) == Some(ctx.Contents())
    ensures !LogReadable(file, es) ==> ctx.Contents() == old(ctx.Contents())
  {
    var scanned := ReadRecords(file);
    if scanned.Bad? { return false, []; }
    var st;
    st, es := Analyze(scanned.records);
    if st.None? { return false, es; }
    ScanIncreasing(file, 0);
    ParsedOrdered(scanned.records, es);
    ParsedDurable(scanned.records, es, ctx.pool.durable);
    ghost var done, rebuilt;
    ok, done := RedoRun(st.value, ctx, es);
    if !ok { return; }
    ok, rebuilt := UndoRun(st.value, ctx, es);
  }

  // ---- From runs to bytes and back ----------------------------------------------------

  /** A log cut at any byte parses to the entries that were written completely. */
  lemma CutParses(es: seq<Entry>, m: nat)
    requires Ascending(es) && (forall i :: 0 <= i < |es| ==> Plain(es[i])) && m <= |Log(Records(es))|
    ensures var file := Log(Records(es))[..m];
      Scan(file, 0).Good? && ParsesTo(Scan(file, 0).records, es[..Whole(Records(es), m)])
  {
    var rs := Records(es);
    forall i | 0 <= i < |es|
      ensures Parse(rs[i]) == Some(es[i]) && Fits(rs[i]) && Encodable(rs[i]) && rs[i].lsn == es[i].lsn
    {
      RecordParses(es[i]);
    }
    TornTail(rs, 0, m);
  }

  /** The log of a run, cut at any byte, is read back as the entries that were written completely. */
  lemma CutRunReadable(es: seq<Entry>, m: nat)
    requires Ascending(es) && EndsLast(es) && (forall i :: 0 <= i < |es| ==> Plain(es[i])) && m <= |Log(Records(es))|
    ensures LogReadable(Log(Records(es))[..m], es[..Whole(Records(es), m)])
  {
    CutParses(es, m);
    WinnersJudge(es[..Whole(Records(es), m)]);
  }

  /** The log file of a history when its first m bytes survive. */
  function RunFile(log: seq<Entry>, m: nat): Bytes
    requires m <= |Log(Records(Real(log)))|
  {
    Log(Records(Real(log)))[..m]
  }

  /** A crash keeps at least the bytes of the durable records. */
  ghost predicate BytesSurvive(s: Sys, m: nat) {
    s.durable <= |s.log| && TotalSize(Records(Real(s.log[..s.durable]))) <= m <= |Log(Records(Real(s.log)))|
  }

  /** Bytes that survive hold whole records, the durable ones among them: the file of some surviving history. */
  lemma WholeSurvives(s: Sys, m: nat) returns (n: nat)
    requires BytesSurvive(s, m)
    ensures Survives(s, n) && Real(s.log[..n]) == Real(s.log)[..Whole(Records(Real(s.log)), m)]
  {
    var rs, k := Records(Real(s.log)), |Real(s.log[..s.durable])|;
    WholeIsLongest(rs, m);
    RealGrows(s.log, s.durable, |s.log|);
    assert s.log[..|s.log|] == s.log;
    assert rs[..k] == Records(Real(s.log[..s.durable]));
    n := RealCut(s.log, s.durable, Whole(rs, m));
  }

  lemma RealEndsLast(es: seq<Entry>)
    requires EndsLast(es)
    ensures EndsLast(Real(es))
  {
    var r := Real(es);
    forall i: nat, k: nat | i < k < |r| ensures !Ends(r[i], r[k].tx) {
      var a := RealFrom(es, i);
      var b := RealFrom(es, k);
      EarlierReal(es, i, k, a, b);
    }
  }

  lemma RealPlain(es: seq<Entry>)
    requires AllPlain(es)
    ensures forall i :: 0 <= i < |Real(es)| ==> Plain(Real(es)[i])
  {
    forall i: nat | i < |Real(es)| ensures Plain(Real(es)[i]) { var j := RealFrom(es, i); }
  }

  /** The bytes of the log of any reachable state, cut anywhere behind the durable ones, are readable. */
  lemma RunFileReadable(s: Sys, m: nat) returns (n: nat)
    requires Inv(s) && BytesSurvive(s, m)
    ensures Survives(s, n) && Real(s.log[..n]) == Real(s.log)[..Whole(Records(Real(s.log)), m)]
    ensures LogReadable(RunFile(s.log, m), Real(s.log[..n]))
  {
    n := WholeSurvives(s, m);
    RealAscending(s.log);
    RealEndsLast(s.log);
    RealPlain(s.log);
    CutRunReadable(Real(s.log), m);
  }

  /** The reopened log counts as durable what survived in it, and nothing is asked of the records that were lost. */
  ghost predicate SurvivorsDurable(log: seq<Entry>, m: nat, durable: Option<nat>) {
    var es := Real(log);
    forall i :: 0 <= i < |es| && i < Whole(Records(es), m) ==> LsnDurable(durable, es[i].lsn)
  }

  /**
   * From bytes to the committed store: for every run with any number of crashes and recoveries, every point of it and
   * every cut of the log file behind the durable bytes, the recovery passes end, over the buffer pool, in exactly the
   * committed store, if and only if no surviving change is to a page whose allocator had rolled back or been cut off.
   */
  method RecoverRun(ghost states: seq<Sys>, ghost steps: seq<Step>, ghost at: nat, file: Bytes, ghost m: nat,
      ctx: ReplayContext)
    returns (ok: bool, ghost n: nat)
    requires IsRun(states, steps) && at <= |steps| && BytesSurvive(states[at], m) && file == RunFile(states[at].log, m)
    requires ctx.Valid() && ctx.reconstructed == {} && ctx.Contents() == Crashed(states[at])
    requires SurvivorsDurable(states[at].log, m, ctx.pool.durable)
    modifies ctx`reconstructed, ctx.pool`frames, ctx.pool`table, ctx.pool`free, ctx.pool`lru, ctx.pool`touched
    modifies ctx.pool.pm`pages, ctx.pool.pm`count, ctx.pool.pm`live, ctx.pool.pm`liveCount
    ensures ctx.Valid() && Survives(states[at], n)
      && Real(states[at].log[..n]) == Real(states[at].log)[..Whole(Records(Real(states[at].log)), m)]
    ensures var s := states[at];
      ok <==> forall i: nat, p: PageId :: i < n && OnPage(s.log[i], p) ==> !Orphaned(s.log, p)
    ensures ok ==> IsRecovered(states[at], n, ctx.Contents())
  {
    ghost var s := states[at];
    n := WholeSurvives(s, m);
    ReadableAt(states, steps, at, m, n, ctx.pool.durable);
    CrashAnywhere(states, steps, at, n);
    ghost var es;
    ok, es := RecoverDatabase(file, ctx);
    ReadableOnce(file, Real(s.log[..n]), es);
  }

  /** The surviving bytes are read as that history's file, and all their LSNs are durable. */
  lemma ReadableAt(states: seq<Sys>, steps: seq<Step>, at: nat, m: nat, n: nat, durable: Option<nat>)
    requires IsRun(states, steps) && at <= |steps| && BytesSurvive(states[at], m) && n <= |states[at].log|
    requires Real(states[at].log[..n]) == Real(states[at].log)[..Whole(Records(Real(states[at].log)), m)]
    requires SurvivorsDurable(states[at].log, m, durable)
    ensures var file := RunFile(states[at].log, m);
      && LogReadable(file, Real(states[at].log[..n]))
      && forall i :: 0 <= i < |Scan(file, 0).records| ==> LsnDurable(durable, Scan(file, 0).records[i].lsn)
  {
    var s := states[at];
    RunInv(states, steps, at);
    var k := RunFileReadable(s, m);
    var rs, es := Scan(RunFile(s.log, m), 0).records, Real(s.log[..k]);
    forall i | 0 <= i < |rs| ensures LsnDurable(durable, rs[i].lsn) {
      assert Parse(rs[i]) == Some(es[i]);
      ParsedFields(rs[i], es[i]);
      assert es[i] == Real(s.log)[i];
    }
  }

  // ---- The same with numbers that are used again ------------------------------------------------

  lemma {:induction false} WholeSame(rs: seq<WalRecord>, qs: seq<WalRecord>, m: nat)
    requires |rs| == |qs| && forall i :: 0 <= i < |rs| ==> Size(rs[i]) == Size(qs[i])
    ensures Whole(rs, m) == Whole(qs, m)
  {
    if rs != [] && m >= Size(rs[0]) { WholeSame(rs[1..], qs[1..], m - Size(rs[0])); }
  }

  /** Numbers take the same room, whatever they are. */
  lemma NumberedWhole(es: seq<Entry>, f: nat -> nat, m: nat)
    ensures Whole(Records(Numbered(es, f)), m) == Whole(Records(es), m)
  {
    var rs, qs := Records(es), Records(Numbered(es, f));
    forall i | 0 <= i < |rs| ensures Size(rs[i]) == Size(qs[i]) {
      assert rs[i] == RecordOf(es[i]) && qs[i] == RecordOf(Numbered(es, f)[i]);
    }
    WholeSame(rs, qs, m);
  }

  ghost function NumberedFile(log: seq<Entry>, f: nat -> nat): Bytes {
    Log(Records(Numbered(Real(log), f)))
  }

  lemma NumberedPlain(log: seq<Entry>, f: nat -> nat)
    requires Ordered(log) && AllPlain(log) && forall i :: 0 <= i < |log| ==> f(log[i].tx) < U64
    ensures var fs := Numbered(Real(log), f); Ascending(fs) && forall i :: 0 <= i < |fs| ==> Plain(fs[i])
  {
    var fs := Numbered(Real(log), f);
    RealAscending(log);
    RealPlain(log);
    forall i: nat | i < |fs| ensures Plain(fs[i]) { var j := RealFrom(log, i); }
  }

  /** The surviving bytes parse to the surviving entries with their numbers, and all their LSNs are durable. */
  lemma NumberedReadable(s: Sys, f: nat -> nat, m: nat, n: nat, durable: Option<nat>)
    requires CrashRuns.Inv(s) && m <= |NumberedFile(s.log, f)| && n <= |s.log|
      && Real(s.log[..n]) == Real(s.log)[..Whole(Records(Real(s.log)), m)]
    requires SurvivorsDurable(s.log, m, durable) && forall i :: 0 <= i < |s.log| ==> f(s.log[i].tx) < U64
    ensures var r := Scan(NumberedFile(s.log, f)[..m], 0);
      r.Good? && ParsesTo(r.records, FileOf(s, n, f)) && forall i :: 0 <= i < |r.records| ==>
        LsnDurable(durable, r.records[i].lsn)
  {
    var es := Real(s.log);
    var fs := Numbered(es, f);
    NumberedPlain(s.log, f);
    CutParses(fs, m);
    NumberedWhole(es, f, m);
    assert fs[..Whole(Records(fs), m)] == FileOf(s, n, f);
    var rs := Scan(NumberedFile(s.log, f)[..m], 0).records;
    forall i | 0 <= i < |rs| ensures LsnDurable(durable, rs[i].lsn) {
      assert Parse(rs[i]) == Some(fs[i]);
      ParsedFields(rs[i], fs[i]);
    }
  }

  /**
   * From bytes to the store when numbers are used again after restarts: the passes end in the store that treats as
   * winners all transactions whose number committed, if no number both committed and aborted; and in the committed
   * store if no other transaction has the number of one that committed.
   */
  method RecoverNumberedRun(ghost states: seq<Sys>, ghost steps: seq<Step>, ghost f: nat -> nat, ghost at: nat,
      file: Bytes, ghost m: nat,
                            ctx: ReplayContext)
    returns (ok: bool, ghost n: nat)
    requires IsNumberedRun(states, steps, f) && at <= |steps| && Harmless(states, steps, f, at)
      && BytesSurvive(states[at], m)
    requires m <= |NumberedFile(states[at].log, f)| && file == NumberedFile(states[at].log, f)[..m]
    requires SurvivorsDurable(states[at].log, m, ctx.pool.durable) && forall i :: 0 <= i < |states[at].log| ==>
      f(states[at].log[i].tx) < U64
    requires ctx.Valid() && ctx.reconstructed == {} && ctx.Contents() == Crashed(states[at])
    modifies ctx`reconstructed, ctx.pool`frames, ctx.pool`table, ctx.pool`free, ctx.pool`lru, ctx.pool`touched
    modifies ctx.pool.pm`pages, ctx.pool.pm`count, ctx.pool.pm`live, ctx.pool.pm`liveCount
    ensures ctx.Valid() && Survives(states[at], n)
      && Real(states[at].log[..n]) == Real(states[at].log)[..Whole(Records(Real(states[at].log)), m)]
    ensures var s, es := states[at], Real(states[at].log[..n]);
      && (ok <==> Unmixed(es, f) && RecoverAs(Crashed(s), es, Revived(es, f)).Some?)
      && (ok ==> RecoverAs(Crashed(s), es, Revived(es, f)) == Some(ctx.Contents()))
      && (Apart(es, f) ==>
            && (ok <==> forall i: nat, p: PageId :: i < n && OnPage(s.log[i], p) ==> !Orphaned(s.log, p))
            && (ok ==> IsRecovered(s, n, ctx.Contents())))
  {
    ghost var s := states[at];
    n := WholeSurvives(s, m);
    CrashAnywhereNumbered(states, steps, f, at, n);
    HarmlessInv(states, steps, f, at);
    NumberedReadable(s, f, m, n, ctx.pool.durable);
    ghost var es;
    ok, es := RecoverDatabase(file, ctx);
    ParsedOnce(Scan(file, 0).records, FileOf(s, n, f), es);
  }

  lemma HarmlessInv(states: seq<Sys>, steps: seq<Step>, f: nat -> nat, at: nat)
    requires IsNumberedRun(states, steps, f) && at <= |steps| && Harmless(states, steps, f, at)
    ensures CrashRuns.Inv(states[at])
  {
    HarmlessRun(states, steps, f, at);
    RunInv(states[..at + 1], steps[..at], at);
  }
}
