/** The log file: appending, flushing, crashing and reopening. */
module WalLog {
  import opened StorageTypes
  import opened LittleEndian
  import opened WalCodec

  datatype Scanned = Good(records: seq<WalRecord>) | Bad

  /** Reads records until the bytes run out in the middle of one; a complete but malformed record is an error. */
  function Scan(b: Bytes, last: nat): Scanned
    decreases |b|
  {
    if |b| < HEADER then Good([])
    else
      var length := Un(b[8..12]);
      if length < OVERHEAD || length > MAX_RECORD then Bad
      else if |b| < length then Good([])
      else
        var r := Decode(b[..length]);
        if r.None? || r.value.lsn <= last then Bad
        else
          match Scan(b[length..], r.value.lsn)
          case Bad => Bad
          case Good(rest) => Good([r.value] + rest)
  }

  /** The scanning loop. */
  method ReadRecords(b: Bytes) returns (r: Scanned)
    ensures r == Scan(b, 0)
  {
    var out: seq<WalRecord>, at, last := [], 0, 0;
    while true
      invariant at <= |b|
      invariant Scan(b, 0) == (match Scan(b[at..], last) case Bad => Bad case Good(rest) => Good(out + rest))
      decreases |b| - at
    {
      var rest := b[at..];
      if |rest| < HEADER {
        assert out + [] == out;
        return Good(out);
      }
      var length := Un(rest[8..12]);
      if length < OVERHEAD || length > MAX_RECORD {
        return Bad;
      }
      if |rest| < length {
        assert out + [] == out;
        return Good(out);
      }
      var d := Decode(rest[..length]);
      if d.None? || d.value.lsn <= last {
        return Bad;
      }
      assert b[at + length..] == rest[length..];
      assert forall tail: seq<WalRecord> :: out + ([d.value] + tail) == (out + [d.value]) + tail;
      out, at, last := out + [d.value], at + length, d.value.lsn;
    }
  }

  ghost predicate Storable(rs: seq<WalRecord>) {
    forall i :: 0 <= i < |rs| ==> Fits(rs[i]) && Encodable(rs[i])
  }

  ghost predicate Increasing(rs: seq<WalRecord>, last: nat) {
    && (forall i :: 0 <= i < |rs| ==> rs[i].lsn > last)
    && forall i, j :: 0 <= i < j < |rs| ==> rs[i].lsn < rs[j].lsn
  }

  function Size(r: WalRecord): nat {
    OVERHEAD + |r.payload|
  }

  function Join(parts: seq<Bytes>): Bytes {
    if parts == [] then [] else parts[0] + Join(parts[1..])
  }

  function Encoded(r: WalRecord): Bytes {
    if Encodable(r) then Encode(r).value else []
  }

  function Encodings(rs: seq<WalRecord>): (parts: seq<Bytes>)
    ensures |parts| == |rs| && forall i :: 0 <= i < |rs| ==> parts[i] == Encoded(rs[i])
  {
    if rs == [] then [] else [Encoded(rs[0])] + Encodings(rs[1..])
  }

  /** The bytes of a log that holds these records. */
  function Log(rs: seq<WalRecord>): Bytes {
    Join(Encodings(rs))
  }

  function TotalSize(rs: seq<WalRecord>): nat {
    if rs == [] then 0 else Size(rs[0]) + TotalSize(rs[1..])
  }

  lemma {:induction false} JoinAppend(parts: seq<Bytes>, e: Bytes)
    ensures Join(parts + [e]) == Join(parts) + e
  {
    if parts == [] {
      assert [] + [e] == [e];
      assert [e][1..] == [];
    } else {
      JoinAppend(parts[1..], e);
      assert (parts + [e])[1..] == parts[1..] + [e];
      assert parts[0] + (Join(parts[1..]) + e) == (parts[0] + Join(parts[1..])) + e;
    }
  }

  lemma {:induction false} JoinPrefix(parts: seq<Bytes>, k: nat)
    requires k <= |parts|
    ensures |Join(parts[..k])| <= |Join(parts)| && Join(parts[..k]) == Join(parts)[..|Join(parts[..k])|]
  {
    if k > 0 {
      JoinPrefix(parts[1..], k - 1);
      assert parts[..k][1..] == parts[1..][..k - 1];
    } else {
      assert parts[..0] == [];
    }
  }

  lemma {:induction false} JoinLength(parts: seq<Bytes>, rs: seq<WalRecord>)
    requires |parts| == |rs| && forall i :: 0 <= i < |rs| ==> |parts[i]| == Size(rs[i])
    ensures |Join(parts)| == TotalSize(rs)
  {
    if rs != [] { JoinLength(parts[1..], rs[1..]); }
  }

  lemma LogLength(rs: seq<WalRecord>)
    requires Storable(rs)
    ensures |Log(rs)| == TotalSize(rs)
  {
    JoinLength(Encodings(rs), rs);
  }

  lemma LogAppend(rs: seq<WalRecord>, r: WalRecord)
    requires Encodable(r)
    ensures Log(rs + [r]) == Log(rs) + Encode(r).value
  {
    JoinAppend(Encodings(rs), Encoded(r));
    assert Encodings(rs + [r]) == Encodings(rs) + [Encoded(r)];
  }

  /** The log of a prefix of the records is a prefix of the log. */
  lemma LogPrefix(rs: seq<WalRecord>, k: nat)
    requires Storable(rs) && k <= |rs|
    ensures TotalSize(rs[..k]) <= |Log(rs)| && Log(rs[..k]) == Log(rs)[..TotalSize(rs[..k])]
  {
    JoinPrefix(Encodings(rs), k);
    assert Encodings(rs[..k]) == Encodings(rs)[..k];
    LogLength(rs[..k]);
  }

  /** How many records lie completely within the first n bytes. */
  function Whole(rs: seq<WalRecord>, n: nat): (k: nat)
    ensures k <= |rs|
  {
    if rs == [] || n < Size(rs[0]) then 0 else 1 + Whole(rs[1..], n - Size(rs[0]))
  }

  /** It is the longest prefix of records that fits. */
  lemma {:induction false} WholeIsLongest(rs: seq<WalRecord>, n: nat)
    ensures TotalSize(rs[..Whole(rs, n)]) <= n
    ensures forall k :: 0 <= k <= |rs| && TotalSize(rs[..k]) <= n ==> k <= Whole(rs, n)
  {
    if rs != [] {
      var w := Whole(rs, n);
      forall k | 0 < k <= |rs| ensures TotalSize(rs[..k]) == Size(rs[0]) + TotalSize(rs[1..][..k - 1]) {
        assert rs[..k][1..] == rs[1..][..k - 1];
      }
      if n >= Size(rs[0]) {
        WholeIsLongest(rs[1..], n - Size(rs[0]));
        assert rs[..w][1..] == rs[1..][..w - 1];
      }
    }
  }

  /** The bytes e are read as the record r. */
  ghost predicate Reads(e: Bytes, r: WalRecord) {
    OVERHEAD <= |e| <= MAX_RECORD && |e| == Size(r) && Un(e[8..12]) == |e| && Decode(e) == Some(r)
  }

  lemma EncodingReads(r: WalRecord)
    requires Fits(r) && Encodable(r)
    ensures Reads(Encode(r).value, r)
  {
    FieldValues(r);
    RoundTrip(r);
  }

  /** A record cut short ends the scan quietly. */
  lemma CutShort(e: Bytes, r: WalRecord, tail: Bytes, last: nat, n: nat)
    requires Reads(e, r) && n < |e|
    ensures Scan((e + tail)[..n], last) == Good([])
  {
    assert (e + tail)[..n] == e[..n];
    if n >= HEADER {
      assert e[..n][8..12] == e[8..12];
    }
  }

  /** A complete record is read and the scan goes on behind it. */
  lemma ReadOne(e: Bytes, r: WalRecord, tail: Bytes, last: nat)
    requires Reads(e, r) && r.lsn > last
    ensures var rest := Scan(tail, r.lsn);
            Scan(e + tail, last) == if rest.Bad? then Bad else Good([r] + rest.records)
  {
    var b := e + tail;
    assert b[8..12] == e[8..12] && b[..|e|] == e && b[|e|..] == tail;
  }

  ghost predicate AllRead(parts: seq<Bytes>, rs: seq<WalRecord>) {
    |parts| == |rs| && forall i :: 0 <= i < |rs| ==> Reads(parts[i], rs[i])
  }

  lemma HeadAndRest(rs: seq<WalRecord>, k: nat)
    requires 0 < k <= |rs|
    ensures [rs[0]] + rs[1..][..k - 1] == rs[..k]
  {
  }

  lemma CutBehind(e: Bytes, tail: Bytes, n: nat)
    requires |e| <= n <= |e + tail|
    ensures (e + tail)[..n] == e + tail[..n - |e|]
  {
  }

  lemma {:induction false} TornJoin(parts: seq<Bytes>, rs: seq<WalRecord>, last: nat, n: nat)
    requires AllRead(parts, rs) && Increasing(rs, last) && n <= |Join(parts)|
    ensures Scan(Join(parts)[..n], last) == Good(rs[..Whole(rs, n)])
  {
    if rs == [] {
      assert rs[..0] == [];
    } else {
      var e, r, tail := parts[0], rs[0], Join(parts[1..]);
      if n < |e| {
        CutShort(e, r, tail, last, n);
        assert rs[..0] == [];
      } else {
        TornJoin(parts[1..], rs[1..], r.lsn, n - |e|);
        CutBehind(e, tail, n);
        ReadOne(e, r, tail[..n - |e|], last);
        HeadAndRest(rs, Whole(rs, n));
      }
    }
  }

  /** A log cut at any byte is read as its longest complete prefix of records. */
  lemma TornTail(rs: seq<WalRecord>, last: nat, n: nat)
    requires Storable(rs) && Increasing(rs, last) && n <= |Log(rs)|
    ensures Scan(Log(rs)[..n], last) == Good(rs[..Whole(rs, n)])
  {
    forall i | 0 <= i < |rs| ensures Reads(Encodings(rs)[i], rs[i]) { EncodingReads(rs[i]); }
    TornJoin(Encodings(rs), rs, last, n);
  }
}
