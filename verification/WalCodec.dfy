/** The write-ahead log's record format and its payloads. */
module WalCodec {
  import opened StorageTypes
  import opened LittleEndian

  datatype WalKind = Begin | Mutation | Commit | Abort | Allocate

  datatype WalRecord = WalRecord(lsn: nat, tx: nat, kind: WalKind, payload: Bytes)

  /** A captured page change. `previousLsn` lives in memory only; it is not logged. */
  datatype PhysicalMutation = PhysicalMutation(page: PageId, sequence: nat, before: Bytes, after: Bytes,
      previousLsn: nat)

  const MAGIC: Bytes := [68, 87, 65, 76]
  const VERSION: nat := 1
  const HEADER: nat := 36
  const OVERHEAD: nat := 40
  const MAX_RECORD: nat := 33554432
  const U64: nat := 0x1_0000_0000_0000_0000
  const TWO: nat := 2
  const FOUR: nat := 4
  const EIGHT: nat := 8

  function Code(k: WalKind): Byte {
    match k
    case Begin => 1
    case Mutation => 2
    case Commit => 3
    case Abort => 4
    case Allocate => 5
  }

  function KindOf(b: Byte): (k: Option<WalKind>)
    ensures k.Some? ==> Code(k.value) == b
    ensures k.None? ==> forall w :: Code(w) != b
  {
    if b == 1 then Some(Begin) else if b == 2 then Some(Mutation) else if b == 3 then Some(Commit)
    else if b == 4 then Some(Abort) else if b == 5 then Some(Allocate) else None
  }

  /** The fields of the record fit their 64-bit types. */
  predicate Fits(r: WalRecord) {
    r.lsn < U64 && r.tx < U64
  }

  /** What encoding accepts. */
  predicate Encodable(r: WalRecord) {
    r.lsn != 0 && |r.payload| <= MAX_RECORD - OVERHEAD
  }

  function Header(r: WalRecord): (h: Bytes)
    ensures |h| == HEADER
  {
    MAGIC + Le(VERSION, TWO) + Le(HEADER, TWO) + Le(OVERHEAD + |r.payload|, FOUR) + Le(r.lsn, EIGHT) + Le(r.tx, EIGHT)
      + [Code(r.kind)] + [0, 0, 0] + Le(|r.payload|, FOUR)
  }

  function Body(r: WalRecord): (b: Bytes)
    ensures |b| == HEADER + |r.payload|
  {
    Header(r) + r.payload
  }

  function Encode(r: WalRecord): (e: Option<Bytes>)
    ensures e.Some? <==> Encodable(r)
    ensures e.Some? ==> |e.value| == OVERHEAD + |r.payload|
  {
    if Encodable(r) then Some(Body(r) + Le(Checksum(Body(r)), FOUR)) else None
  }

  function Decode(b: Bytes): Option<WalRecord> {
    if |b| < OVERHEAD then None
    else if b[..4] != MAGIC || Un(b[4..6]) != VERSION || Un(b[6..8]) != HEADER then None
    else
      var length, plen := Un(b[8..12]), Un(b[32..36]);
      if length != |b| || length > MAX_RECORD || plen != length - OVERHEAD then None
      else if Checksum(b[..|b| - 4]) != Un(b[|b| - 4..]) then None
      else if KindOf(b[28]).None? || Un(b[12..20]) == 0 then None
      else Some(WalRecord(Un(b[12..20]), Un(b[20..28]), KindOf(b[28]).value, b[36..|b| - 4]))
  }

  /** Where the fields lie in an encoded header. */
  lemma HeaderFields(r: WalRecord)
    ensures var h := Header(r);
      && h[..4] == MAGIC && h[4..6] == Le(VERSION, TWO) && h[6..8] == Le(HEADER, TWO)
      && h[8..12] == Le(OVERHEAD + |r.payload|, FOUR) && h[12..20] == Le(r.lsn, EIGHT) && h[20..28] == Le(r.tx, EIGHT)
      && h[28] == Code(r.kind) && h[29..32] == [0, 0, 0] && h[32..36] == Le(|r.payload|, FOUR)
  {
  }

  lemma EncodedFields(r: WalRecord)
    requires Encodable(r)
    ensures var e := Encode(r).value;
      && e[..36] == Header(r) && e[36..|e| - 4] == r.payload && e[..|e| - 4] == Body(r)
      && e[|e| - 4..] == Le(Checksum(Body(r)), FOUR)
      && e[..4] == Header(r)[..4] && e[4..6] == Header(r)[4..6] && e[6..8] == Header(r)[6..8]
      && e[8..12] == Header(r)[8..12]
      && e[12..20] == Header(r)[12..20] && e[20..28] == Header(r)[20..28] && e[28] == Header(r)[28]
      && e[32..36] == Header(r)[32..36]
  {
  }

  /** What the fields of an encoded record are read back as. */
  lemma FieldValues(r: WalRecord)
    requires Fits(r) && Encodable(r)
    ensures var e := Encode(r).value;
      && Un(e[4..6]) == VERSION && Un(e[6..8]) == HEADER && Un(e[8..12]) == OVERHEAD + |r.payload|
      && Un(e[12..20]) == r.lsn && Un(e[20..28]) == r.tx && Un(e[32..36]) == |r.payload|
      && Un(e[|e| - 4..]) == Checksum(Body(r))
  {
    Powers();
    HeaderFields(r);
    EncodedFields(r);
    UnLe(VERSION, TWO);
    UnLe(HEADER, TWO);
    UnLe(OVERHEAD + |r.payload|, FOUR);
    UnLe(|r.payload|, FOUR);
    UnLe(r.lsn, EIGHT);
    UnLe(r.tx, EIGHT);
    UnLe(Checksum(Body(r)), FOUR);
  }

  /**
   * A record can be written exactly if its LSN is not zero and it is not longer than 32 MB. The file has magic bytes,
   * version, header length, record length, LSN, transaction, kind, padding, payload length, payload and checksum, in
   * this order.
   */
  lemma RecordLayout(r: WalRecord)
    requires Fits(r)
    ensures Encode(r).Some? <==> r.lsn != 0 && 40 + |r.payload| <= 32 * 1024 * 1024
    ensures Encode(r).Some? ==> var e := Encode(r).value;
      && |e| == 40 + |r.payload| && e[..4] == [68, 87, 65, 76] && Un(e[4..6]) == 1 && Un(e[6..8]) == 36
      && Un(e[8..12]) == |e| && Un(e[12..20]) == r.lsn && Un(e[20..28]) == r.tx && e[29..32] == [0, 0, 0]
      && Un(e[32..36]) == |r.payload| && e[36..|e| - 4] == r.payload && Un(e[|e| - 4..]) == Checksum(e[..|e| - 4])
    ensures Encode(r).Some? ==>
      Encode(r).value[28] == if r.kind.Begin? then 1 else if r.kind.Mutation? then 2 else if r.kind.Commit? then 3
        else if r.kind.Abort? then 4 else 5
  {
    if Encodable(r) {
      FieldValues(r);
      HeaderFields(r);
      EncodedFields(r);
      assert Encode(r).value[29..32] == Header(r)[29..32];
    }
  }

  /** Every encodable record is decoded to itself. */
  lemma RoundTrip(r: WalRecord)
    requires Fits(r) && Encodable(r)
    ensures Decode(Encode(r).value) == Some(r)
  {
    HeaderFields(r);
    EncodedFields(r);
    FieldValues(r);
  }

  /** No accepted byte string stays accepted when exactly one byte changes. */
  lemma OneByteRejected(s: Bytes, i: nat, b: Byte)
    requires Decode(s).Some? && i < |s| && b != s[i]
    ensures Decode(s[i := b]).None?
  {
    var t, n := s[i := b], |s| - 4;
    if i < n {
      ChecksumDetects(s[..n], t[..n], i);
      assert t[n..] == s[n..];
    } else {
      assert t[..n] == s[..n];
      assert s[n..][i - n] != t[n..][i - n];
      UnInjective(s[n..], t[n..]);
    }
  }

  /** What a decoded record says about the bytes it came from. */
  lemma DecodedFields(s: Bytes)
    requires Decode(s).Some?
    ensures var r := Decode(s).value;
      && Fits(r) && Encodable(r) && |s| == OVERHEAD + |r.payload|
      && s[..4] == MAGIC && s[4..6] == Le(VERSION, TWO) && s[6..8] == Le(HEADER, TWO)
      && s[8..12] == Le(OVERHEAD + |r.payload|, FOUR) && s[12..20] == Le(r.lsn, EIGHT) && s[20..28] == Le(r.tx, EIGHT)
      && s[28] == Code(r.kind) && s[32..36] == Le(|r.payload|, FOUR) && s[36..|s| - 4] == r.payload
      && s[|s| - 4..] == Le(Checksum(s[..|s| - 4]), FOUR)
  {
    Powers();
    LeUn(s[4..6]);
    LeUn(s[6..8]);
    LeUn(s[8..12]);
    LeUn(s[12..20]);
    LeUn(s[20..28]);
    LeUn(s[32..36]);
    LeUn(s[|s| - 4..]);
  }

  lemma SlicesOfHeader(s: Bytes)
    requires |s| >= OVERHEAD
    ensures s[..36] == s[..4] + s[4..6] + s[6..8] + s[8..12] + s[12..20] + s[20..28] + [s[28]] + s[29..32] + s[32..36]
    ensures s == s[..36] + s[36..|s| - 4] + s[|s| - 4..] && s[..|s| - 4] == s[..36] + s[36..|s| - 4]
  {
  }

  /**
   * Encoding a decoded record gives back as many bytes, and the same bytes exactly when the reserved ones were zero.
   */
  lemma DecodeThenEncode(s: Bytes)
    requires Decode(s).Some?
    ensures var e := Encode(Decode(s).value);
      e.Some? && |e.value| == |s| && (e.value == s <==> s[29..32] == [0, 0, 0])
  {
    DecodedFields(s);
    SlicesOfHeader(s);
    var r := Decode(s).value;
    if s[29..32] == [0, 0, 0] {
      assert s[..36] == Header(r);
      assert Encode(r).value == s;
    } else {
      HeaderFields(r);
      EncodedFields(r);
      SlicesOfHeader(Encode(r).value);
      assert Encode(r).value[29..32] == Header(r)[29..32];
    }
  }

  // ---- Payloads ----------------------------------------------------------------------

  const MUTATION_HEADER: nat := 25
  const PAYLOAD_WRITE: Byte := 0

  predicate Loggable(m: PhysicalMutation) {
    m.page != INVALID && |m.before| == PAYLOAD_SIZE && |m.after| == PAYLOAD_SIZE
  }

  function EncodeMutation(m: PhysicalMutation): (e: Option<Bytes>)
    ensures e.Some? <==> Loggable(m)
    ensures e.Some? ==> |e.value| == MUTATION_HEADER + 2 * PAYLOAD_SIZE
  {
    if Loggable(m) then
      Some(Le(m.page, EIGHT) + [PAYLOAD_WRITE] + Le(m.sequence, EIGHT) + Le(PAYLOAD_SIZE, FOUR)
        + Le(PAYLOAD_SIZE, FOUR) + m.before + m.after)
    else None
  }

  function DecodeMutation(b: Bytes): Option<PhysicalMutation> {
    if |b| < MUTATION_HEADER then None
    else if Un(b[17..21]) != PAYLOAD_SIZE || Un(b[21..25]) != PAYLOAD_SIZE || |b| != MUTATION_HEADER + 2 * PAYLOAD_SIZE
      then None
    else if b[8] != PAYLOAD_WRITE || Un(b[..8]) == INVALID then None
    else Some(PhysicalMutation(Un(b[..8]), Un(b[9..17]), b[25..25 + PAYLOAD_SIZE], b[25 + PAYLOAD_SIZE..], 0))
  }

  lemma MutationFields(m: PhysicalMutation)
    requires Loggable(m)
    ensures var e := EncodeMutation(m).value;
      && |e| == MUTATION_HEADER + 2 * PAYLOAD_SIZE
      && e[..8] == Le(m.page, EIGHT) && e[8] == PAYLOAD_WRITE && e[9..17] == Le(m.sequence, EIGHT)
      && e[17..21] == Le(PAYLOAD_SIZE, FOUR) && e[21..25] == Le(PAYLOAD_SIZE, FOUR)
      && e[25..25 + PAYLOAD_SIZE] == m.before && e[25 + PAYLOAD_SIZE..] == m.after
  {
  }

  /** A mutation survives the log up to the field that is kept in memory only. */
  lemma MutationRoundTrip(m: PhysicalMutation)
    requires Loggable(m) && m.page < U64 && m.sequence < U64
    ensures DecodeMutation(EncodeMutation(m).value) == Some(m.(previousLsn := 0))
  {
    Powers();
    UnLe(m.page, EIGHT);
    UnLe(m.sequence, EIGHT);
    UnLe(PAYLOAD_SIZE, FOUR);
    MutationFields(m);
  }

  /**
   * A change can be logged exactly if its page is valid and both images are whole payloads; page, kind, sequence
   * number, the two lengths and the two images, the earlier one first, follow each other.
   */
  lemma MutationLayout(m: PhysicalMutation)
    requires m.page < U64 && m.sequence < U64
    ensures EncodeMutation(m).Some? <==> m.page != INVALID && |m.before| == PAYLOAD_SIZE && |m.after| == PAYLOAD_SIZE
    ensures EncodeMutation(m).Some? ==> var e := EncodeMutation(m).value;
      && |e| == 25 + 2 * PAYLOAD_SIZE && Un(e[..8]) == m.page && e[8] == 0 && Un(e[9..17]) == m.sequence
      && Un(e[17..21]) == PAYLOAD_SIZE && Un(e[21..25]) == PAYLOAD_SIZE
      && e[25..25 + PAYLOAD_SIZE] == m.before && e[25 + PAYLOAD_SIZE..] == m.after
  {
    if Loggable(m) {
      Powers();
      UnLe(m.page, EIGHT);
      UnLe(m.sequence, EIGHT);
      UnLe(PAYLOAD_SIZE, FOUR);
      MutationFields(m);
    }
  }

  /** Only encodings of loggable mutations are accepted. */
  lemma MutationDecodeExact(b: Bytes)
    requires DecodeMutation(b).Some?
    ensures EncodeMutation(DecodeMutation(b).value) == Some(b)
  {
    Powers();
    LeUn(b[..8]);
    LeUn(b[9..17]);
    LeUn(b[17..21]);
    LeUn(b[21..25]);
    assert b == b[..8] + [b[8]] + b[9..17] + b[17..21] + b[21..25] + b[25..25 + PAYLOAD_SIZE] + b[25 + PAYLOAD_SIZE..];
  }

  function EncodeAllocate(page: PageId): (e: Option<Bytes>)
    ensures e.Some? <==> page != INVALID
  {
    if page != INVALID then Some(Le(page, EIGHT)) else None
  }

  function DecodeAllocate(b: Bytes): Option<PageId> {
    if |b| != 8 || Un(b) == INVALID then None else Some(Un(b))
  }

  /** Page numbers survive the log, and only their encodings are accepted. */
  lemma AllocateRoundTrip(page: PageId, b: Bytes)
    requires page < INVALID
    ensures DecodeAllocate(EncodeAllocate(page).value) == Some(page)
    ensures DecodeAllocate(b).Some? ==> EncodeAllocate(DecodeAllocate(b).value) == Some(b)
  {
    Powers();
    UnLe(page, EIGHT);
    LeUn(b);
  }
}
