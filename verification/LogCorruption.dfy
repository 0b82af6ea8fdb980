/** What a scan makes of a log file that is not as it was written. */
module LogCorruption {
  import opened StorageTypes
  import opened LittleEndian
  import opened WalCodec
  import opened WalLog

  // ---- Records out of order ----------------------------------------------------------

  lemma IncreasingRest(rs: seq<WalRecord>, last: nat)
    requires rs != []
    ensures Increasing(rs, last) <==> rs[0].lsn > last && Increasing(rs[1..], rs[0].lsn)
  {
    if rs[0].lsn > last && Increasing(rs[1..], rs[0].lsn) {
      forall i | 0 <= i < |rs| ensures rs[i].lsn > last && (i > 0 ==> rs[i].lsn > rs[0].lsn) {
        if i > 0 { assert rs[i] == rs[1..][i - 1]; }
      }
      forall i, j | 0 <= i < j < |rs| ensures rs[i].lsn < rs[j].lsn {
        assert i > 0 ==> rs[i] == rs[1..][i - 1] && rs[j] == rs[1..][j - 1];
      }
    }
  }

  /** A record that is not newer than the one before ends the scan with an error. */
  lemma NotNewer(e: Bytes, r: WalRecord, tail: Bytes, last: nat)
    requires Reads(e, r) && r.lsn <= last
    ensures Scan(e + tail, last) == Bad
  {
    assert (e + tail)[8..12] == e[8..12] && (e + tail)[..|e|] == e;
  }

  lemma {:induction false} ScanJoin(parts: seq<Bytes>, rs: seq<WalRecord>, last: nat)
    requires AllRead(parts, rs)
    ensures Scan(Join(parts), last) == if Increasing(rs, last) then Good(rs) else Bad
  {
    if rs != [] {
      IncreasingRest(rs, last);
      var e, r, tail := parts[0], rs[0], Join(parts[1..]);
      ScanJoin(parts[1..], rs[1..], r.lsn);
      if r.lsn > last {
        ReadOne(e, r, tail, last);
        assert [r] + rs[1..] == rs;
      } else {
        NotNewer(e, r, tail, last);
      }
    }
  }

  /** A file of complete records is accepted exactly if their LSNs increase, and is then read as these records. */
  lemma AcceptedIffIncreasing(rs: seq<WalRecord>, last: nat)
    requires Storable(rs)
    ensures Scan(Log(rs), last) == if Increasing(rs, last) then Good(rs) else Bad
  {
    forall i | 0 <= i < |rs| ensures Reads(Encodings(rs)[i], rs[i]) { EncodingReads(rs[i]); }
    ScanJoin(Encodings(rs), rs, last);
  }

  // ---- One byte wrong ----------------------------------------------------------------

  /** The record that begins here claims to end behind the end of the file, but not to be longer than any may be. */
  ghost predicate Swallows(file: Bytes, start: nat) {
    start + 12 <= |file| && |file| - start < Un(file[start + 8..start + 12]) <= MAX_RECORD
  }

  /** A wrong byte outside the length field is noticed. */
  lemma WrongContent(e: Bytes, r: WalRecord, tail: Bytes, last: nat, o: nat, b: Byte)
    requires Reads(e, r) && o < |e| && b != e[o] && !(8 <= o < 12)
    ensures Scan(e[o := b] + tail, last) == Bad && !Swallows(e[o := b] + tail, 0)
  {
    var f := e[o := b] + tail;
    assert f[8..12] == e[8..12] && f[..|e|] == e[o := b];
    OneByteRejected(e, o, b);
  }

  /** A wrong length is noticed unless it points behind the end of the file. */
  lemma WrongLength(e: Bytes, r: WalRecord, tail: Bytes, last: nat, o: nat, b: Byte)
    requires Reads(e, r) && 8 <= o < 12 && b != e[o]
    ensures var f := e[o := b] + tail; Scan(f, last) == if Swallows(f, 0) then Good([]) else Bad
  {
    var f := e[o := b] + tail;
    assert f[8..12][o - 8] == b && e[8..12][o - 8] != b;
    UnInjective(f[8..12], e[8..12]);
    assert f[32..36] == e[32..36];
    if Un(f[8..12]) <= |f| { LengthFails(e, r, f); }
  }

  lemma LengthFails(e: Bytes, r: WalRecord, f: Bytes)
    requires Reads(e, r) && |f| >= |e| && f[32..36] == e[32..36] && Un(f[8..12]) != |e| && Un(f[8..12]) <= |f|
    ensures Decode(f[..Un(f[8..12])]).None?
  {
    var length := Un(f[8..12]);
    if length >= OVERHEAD {
      assert f[..length][8..12] == f[8..12];
      assert f[..length][32..36] == f[32..36];
    }
  }

  lemma ChangeBehind(e: Bytes, tail: Bytes, p: nat, b: Byte)
    requires |e| <= p < |e + tail|
    ensures (e + tail)[p := b] == e + tail[p - |e| := b]
  {
  }

  lemma ChangeWithin(e: Bytes, tail: Bytes, p: nat, b: Byte)
    requires p < |e|
    ensures (e + tail)[p := b] == e[p := b] + tail
  {
  }

  lemma SwallowsBehind(e: Bytes, file: Bytes, start: nat)
    ensures Swallows(e + file, |e| + start) <==> Swallows(file, start)
  {
    if start + 12 <= |file| {
      assert (e + file)[|e| + start + 8..|e| + start + 12] == file[start + 8..start + 12];
    }
  }

  /** What a scan makes of the file of these records once a byte of record k, is wrong. */
  ghost function Misread(rs: seq<WalRecord>, file: Bytes, k: nat): Scanned
    requires k <= |rs|
  {
    if Swallows(file, TotalSize(rs[..k])) then Good(rs[..k]) else Bad
  }

  lemma TotalSplit(rs: seq<WalRecord>, k: nat)
    requires 0 < k <= |rs|
    ensures TotalSize(rs[..k]) == Size(rs[0]) + TotalSize(rs[1..][..k - 1])
  {
    assert rs[..k][1..] == rs[1..][..k - 1];
  }

  /** A good record in front of the wrong byte. */
  lemma MisreadBehind(e: Bytes, rs: seq<WalRecord>, more: Bytes, last: nat, k: nat)
    requires 0 < k <= |rs| && Reads(e, rs[0]) && rs[0].lsn > last
    requires Scan(more, rs[0].lsn) == Misread(rs[1..], more, k - 1)
    ensures Scan(e + more, last) == Misread(rs, e + more, k)
  {
    ReadOne(e, rs[0], more, last);
    HeadAndRest(rs, k);
    TotalSplit(rs, k);
    SwallowsBehind(e, more, TotalSize(rs[1..][..k - 1]));
  }

  lemma {:induction false} OneWrongJoin(parts: seq<Bytes>, rs: seq<WalRecord>, last: nat, p: nat, b: Byte)
    requires AllRead(parts, rs) && Increasing(rs, last) && p < |Join(parts)| && b != Join(parts)[p]
    ensures Scan(Join(parts)[p := b], last) == Misread(rs, Join(parts)[p := b], Whole(rs, p))
  {
    var e, tail := parts[0], Join(parts[1..]);
    if p < |e| {
      assert rs[..0] == [];
      ChangeWithin(e, tail, p, b);
      if 8 <= p < 12 { WrongLength(e, rs[0], tail, last, p, b); } else { WrongContent(e, rs[0], tail, last, p, b); }
    } else {
      IncreasingRest(rs, last);
      OneWrongJoin(parts[1..], rs[1..], rs[0].lsn, p - |e|, b);
      ChangeBehind(e, tail, p, b);
      MisreadBehind(e, rs, tail[p - |e| := b], last, Whole(rs, p));
    }
  }

  /**
   * If one byte of a log file is wrong, opening the log fails, except in one case: the byte belongs to the length of a
   * record and makes it reach behind the end of the file. Then the log is opened without that record and all later
   * ones, durable or not.
   */
  lemma OneWrongByte(rs: seq<WalRecord>, p: nat, b: Byte)
    requires Storable(rs) && Increasing(rs, 0) && p < |Log(rs)| && b != Log(rs)[p]
    ensures Whole(rs, p) < |rs|
    ensures Scan(Log(rs)[p := b], 0) == Misread(rs, Log(rs)[p := b], Whole(rs, p))
  {
    forall i | 0 <= i < |rs| ensures Reads(Encodings(rs)[i], rs[i]) { EncodingReads(rs[i]); }
    OneWrongJoin(Encodings(rs), rs, 0, p, b);
    LogLength(rs);
    WholeIsLongest(rs, p);
    assert rs[..|rs|] == rs;
  }

  lemma LengthBytes(r: WalRecord)
    requires Encodable(r) && r.payload == []
    ensures Encode(r).value[8..12] == [40, 0, 0, 0]
  {
    HeaderFields(r);
    EncodedFields(r);
    ShortLength();
  }

  lemma ShortLength()
    ensures Le(40, FOUR) == [40, 0, 0, 0]
  {
    assert Le(0, 1) == [0] && Le(0, 2) == [0, 0] && Le(0, 3) == [0, 0, 0];
  }

  lemma LongLength()
    ensures Un([40, 1, 0, 0]) == 296
  {
    assert [40, 1, 0, 0][1..] == [1, 0, 0] && [1, 0, 0][1..] == [0, 0] && [0, 0][1..] == [0] && [0][1..] == [];
    assert Un([0]) == 0 && Un([0, 0]) == 0 && Un([1, 0, 0]) == 1;
  }

  /**
   * Such a byte exists, in front of valid records: a log of two records without payloads is read as empty once its
   * tenth byte is changed.
   */
  lemma OneByteEmpties(r: WalRecord, later: WalRecord)
    requires Fits(r) && Encodable(r) && r.payload == [] && Fits(later) && Encodable(later) && later.payload == []
    requires r.lsn < later.lsn
    ensures var file := Log([r, later]);
      |file| == 80 && file[9] == 0 && Scan(file, 0) == Good([r, later]) && Scan(file[9 := 1], 0) == Good([])
  {
    var rs, e := [r, later], Encode(r).value;
    LogOfTwo(r, later);
    LengthBytes(r);
    var file := Log(rs);
    assert file[8..12] == e[8..12] && file[8..12][1] == file[9];
    AcceptedIffIncreasing(rs, 0);
    OneWrongByte(rs, 9, 1);
    assert rs[..0] == [];
    assert file[9 := 1][8..12] == [40, 1, 0, 0];
    LongLength();
  }

  lemma LogOfTwo(r: WalRecord, later: WalRecord)
    requires Encodable(r) && Encodable(later)
    ensures Log([r, later]) == Encode(r).value + Encode(later).value
  {
    assert Log([]) == [] && [] + [r] == [r] && [r] + [later] == [r, later];
    LogAppend([], r);
    assert Log([]) + Encode(r).value == Encode(r).value;
    LogAppend([r], later);
  }
}
