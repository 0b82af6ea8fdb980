/** The log manager over a file that a crash may cut anywhere behind the last flushed byte. */
module LogManagers {
  import opened StorageTypes
  import opened LittleEndian
  import opened WalCodec
  import opened WalLog

  /** The byte behind record k. */
  ghost function End(rs: seq<WalRecord>, k: nat): nat
    requires k < |rs|
  {
    TotalSize(rs[..k + 1])
  }

  /** Every record numbered up to `durable` lies within the first `flushed` bytes. */
  ghost predicate Flushed(rs: seq<WalRecord>, durable: nat, flushed: nat) {
    forall k: nat :: k < |rs| && rs[k].lsn <= durable ==> End(rs, k) <= flushed
  }

  ghost predicate IsLog(rs: seq<WalRecord>, file: Bytes, next: nat) {
    && Storable(rs) && Increasing(rs, 0) && file == Log(rs)
    && forall k :: 0 <= k < |rs| ==> rs[k].lsn < next
  }

  lemma AppendKeeps(rs: seq<WalRecord>, file: Bytes, r: WalRecord, durable: nat, flushed: nat)
    requires IsLog(rs, file, r.lsn) && Fits(r) && Encodable(r)
    requires Flushed(rs, durable, flushed) && durable < r.lsn
    ensures IsLog(rs + [r], file + Encode(r).value, r.lsn + 1)
    ensures Flushed(rs + [r], durable, flushed)
  {
    LogAppend(rs, r);
    var all := rs + [r];
    forall k: nat | k < |all| && all[k].lsn <= durable ensures End(all, k) <= flushed {
      assert k < |rs| && all[..k + 1] == rs[..k + 1];
      assert End(rs, k) <= flushed;
    }
  }

  /** With the whole file flushed, any record may be reported durable. */
  lemma AllFlushed(rs: seq<WalRecord>, durable: nat)
    requires Storable(rs)
    ensures Flushed(rs, durable, |Log(rs)|)
  {
    forall k: nat | k < |rs| ensures End(rs, k) <= |Log(rs)| {
      LogPrefix(rs, k + 1);
    }
  }

  /** What a scan finds fits in the bytes scanned. */
  lemma {:induction false} ScanFits(b: Bytes, last: nat)
    requires Scan(b, last).Good?
    ensures TotalSize(Scan(b, last).records) <= |b|
    decreases |b|
  {
    if |b| >= HEADER {
      var length := Un(b[8..12]);
      if OVERHEAD <= length <= |b| {
        var r := Decode(b[..length]).value;
        DecodedFields(b[..length]);
        ScanFits(b[length..], r.lsn);
      }
    }
  }

  /** After a cut at n, a scan finds a log that is a prefix of the old one and holds every flushed record. */
  lemma CutKeeps(rs: seq<WalRecord>, file: Bytes, next: nat, durable: nat, flushed: nat, n: nat)
      returns (kept: seq<WalRecord>)
    requires IsLog(rs, file, next) && Flushed(rs, durable, flushed) && flushed <= n <= |file|
    ensures kept == rs[..Whole(rs, n)] && Scan(file[..n], 0) == Good(kept)
    ensures TotalSize(kept) <= n && IsLog(kept, file[..n][..TotalSize(kept)], next)
    ensures forall k: nat :: k < |rs| && rs[k].lsn <= durable ==> k < |kept|
  {
    TornTail(rs, 0, n);
    WholeIsLongest(rs, n);
    LogPrefix(rs, Whole(rs, n));
    kept := rs[..Whole(rs, n)];
    assert file[..n][..TotalSize(kept)] == file[..TotalSize(kept)];
    forall k: nat | k < |rs| && rs[k].lsn <= durable ensures k < |kept| {
      assert End(rs, k) <= flushed;
    }
  }

  lemma {:induction false} TotalAppend(rs: seq<WalRecord>, r: WalRecord)
    ensures TotalSize(rs + [r]) == TotalSize(rs) + Size(r)
  {
    if rs == [] {
      assert [] + [r] == [r];
      assert [r][1..] == [];
    } else {
      TotalAppend(rs[1..], r);
      assert (rs + [r])[1..] == rs[1..] + [r];
    }
  }

  /** The next value of a 64-bit counter. */
  function Following(lsn: nat): nat {
    if lsn + 1 < U64 then lsn + 1 else 0
  }

  /** The loop that adds up the encoded sizes. */
  method ValidBytes(rs: seq<WalRecord>) returns (size: nat)
    ensures size == TotalSize(rs)
  {
    size := 0;
    for i := 0 to |rs|
      invariant size == TotalSize(rs[..i])
    {
      assert rs[..i + 1] == rs[..i] + [rs[i]];
      TotalAppend(rs[..i], rs[i]);
      size := size + Size(rs[i]);
    }
    assert rs[..|rs|] == rs;
  }

  /** What callers see of a log; `fault` makes the next flush fail. */
  datatype LogView = LogView(records: seq<WalRecord>, next: nat, durable: nat, fault: bool)

  class LogManager {
    var file: Bytes
    var nextLsn: nat
    var durableLsn: nat
    var failNextFlush: bool
    ghost var records: seq<WalRecord>
    ghost var flushed: nat

    ghost predicate Valid()
      reads this
    {
      && IsLog(records, file, nextLsn) && Flushed(records, durableLsn, flushed)
      && 1 <= nextLsn < U64 && durableLsn < nextLsn && flushed <= |file|
    }

    ghost function View(): LogView
      reads this
    {
      LogView(records, nextLsn, durableLsn, failNextFlush)
    }

    /** A new, empty log. */
    constructor ()
      ensures Valid() && View() == LogView([], 1, 0, false)
    {
      file, nextLsn, durableLsn, failNextFlush, records, flushed := [], 1, 0, false, [], 0;
    }

    /**
     * Numbers the record and writes it behind the others; a payload that is too long is refused but uses up its LSN.
     * The counter wraps around, and the log can be continued exactly if it did not.
     */
    method Append(kind: WalKind, tx: nat, payload: Bytes) returns (lsn: Option<nat>)
      requires Valid() && tx < U64
      modifies this
      ensures nextLsn == Following(old(nextLsn)) && (Valid() <==> old(nextLsn) + 1 < U64)
      ensures IsLog(records, file, old(nextLsn) + 1)
      ensures durableLsn == old(durableLsn) && flushed == old(flushed) && failNextFlush == old(failNextFlush)
      ensures lsn.Some? <==> |payload| <= MAX_RECORD - OVERHEAD
      ensures lsn.None? ==> records == old(records)
      ensures lsn.Some? ==>
        lsn.value == old(nextLsn) && records == old(records) + [WalRecord(lsn.value, tx, kind, payload)]
    {
      var r := WalRecord(nextLsn, tx, kind, payload);
      nextLsn := Following(nextLsn);
      var encoded := Encode(r);
      if encoded.None? { return None; }
      AppendKeeps(records, file, r, durableLsn, flushed);
      file, records := file + encoded.value, records + [r];
      lsn := Some(r.lsn);
    }

    /** Makes everything appended so far durable, or fails and changes nothing but the injected fault. */
    method Flush() returns (ok: bool)
      requires Valid()
      modifies this
      ensures Valid() && records == old(records) && file == old(file) && nextLsn == old(nextLsn)
      ensures ok <==> !old(failNextFlush)
      ensures ok ==> durableLsn == nextLsn - 1 && flushed == |file|
      ensures !ok ==> durableLsn == old(durableLsn) && flushed == old(flushed)
      ensures !failNextFlush
    {
      if failNextFlush {
        failNextFlush := false;
        return false;
      }
      AllFlushed(records, nextLsn - 1);
      durableLsn, flushed := nextLsn - 1, |file|;
      ok := true;
    }

    /** Reads the file back, drops an incomplete tail and continues behind the last complete record. */
    method OpenAndScan() returns (ok: bool)
      modifies this
      ensures ok <==> Scan(old(file), 0).Good?
      ensures ok ==> records == Scan(old(file), 0).records
      ensures ok ==> TotalSize(records) <= |old(file)| && file == old(file)[..TotalSize(records)]
      ensures ok ==>
        nextLsn == (if records == [] then 1 else records[|records| - 1].lsn + 1) && durableLsn == nextLsn - 1
      ensures ok ==> flushed == |file|
    {
      var scanned := ReadRecords(file);
      if scanned.Bad? { return false; }
      var out := scanned.records;
      nextLsn, durableLsn := 1, 0;
      if out != [] { nextLsn, durableLsn := out[|out| - 1].lsn + 1, out[|out| - 1].lsn; }
      var size := ValidBytes(out);
      ScanFits(file, 0);
      file := file[..size];
      records, flushed := out, |file|;
      ok := true;
    }

    /**
     * A crash keeps the flushed bytes and any part of what follows them. Reopening always succeeds, keeps a prefix of
     * the records that includes every durable one, and hands out only LSNs above all records kept.
     */
    method CrashAndReopen(n: nat) returns (ok: bool)
      requires Valid() && flushed <= n <= |file|
      modifies this
      ensures ok && Valid()
      ensures records == old(records)[..Whole(old(records), n)]
      ensures forall k :: 0 <= k < |old(records)| && old(records)[k].lsn <= old(durableLsn) ==> k < |records|
      ensures records != [] ==> durableLsn == records[|records| - 1].lsn
    {
      ghost var kept := CutKeeps(records, file, nextLsn, durableLsn, flushed, n);
      file := file[..n];
      ok := OpenAndScan();
      AllFlushed(records, durableLsn);
    }
  }
}
