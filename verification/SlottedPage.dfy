/** A data page of a table: a slot directory growing from the front, tuples growing from the back. */
module SlottedPage {
  import opened StorageTypes
  import opened LittleEndian
  import opened PageManagers
  import opened WalCodec

  const DATA_MAGIC: Bytes := [68, 68, 66, 68, 80, 52]
  const PAGE_HEADER: nat := 24
  const SLOT_SIZE: nat := 6

  // ---- Bytes --------------------------------------------------------------------------

  function Write(d: Bytes, at: nat, b: Bytes): (r: Bytes)
    requires at + |b| <= |d|
    ensures |r| == |d|
  {
    d[..at] + b + d[at + |b|..]
  }

  function U16(d: Bytes, at: nat): nat
    requires at + 2 <= |d|
  {
    Un(d[at..at + 2])
  }

  lemma WriteHere(d: Bytes, at: nat, b: Bytes)
    requires at + |b| <= |d|
    ensures Write(d, at, b)[at..at + |b|] == b
  {
  }

  lemma WriteElsewhere(d: Bytes, at: nat, b: Bytes, lo: nat, hi: nat)
    requires at + |b| <= |d| && lo <= hi <= |d| && (hi <= at || at + |b| <= lo)
    ensures Write(d, at, b)[lo..hi] == d[lo..hi]
  {
  }

  /** Writing next to what was just written is one write. */
  lemma WriteOn(d: Bytes, at: nat, a: Bytes, b: Bytes)
    requires at + |a| + |b| <= |d|
    ensures Write(Write(d, at, a), at + |a|, b) == Write(d, at, a + b)
  {
  }

  lemma Read16(d: Bytes, at: nat, v: nat)
    requires at + 2 <= |d| && d[at..at + 2] == Le(v, TWO) && v < 0x1_0000
    ensures U16(d, at) == v
  {
    Powers();
    UnLe(v, TWO);
  }

  // ---- Layout -------------------------------------------------------------------------

  datatype Row = Row(live: bool, bytes: Bytes)

  function SlotAt(i: nat): nat {
    PAGE_HEADER + SLOT_SIZE * i
  }

  function Slots(d: Bytes): nat
    requires |d| == PAYLOAD_SIZE
  {
    U16(d, 16)
  }

  function DirectoryEnd(d: Bytes): nat
    requires |d| == PAYLOAD_SIZE
  {
    U16(d, 18)
  }

  function TuplesStart(d: Bytes): nat
    requires |d| == PAYLOAD_SIZE
  {
    U16(d, 20)
  }

  function NextPage(d: Bytes): nat
    requires |d| == PAYLOAD_SIZE
  {
    Un(d[8..16])
  }

  function Offset(d: Bytes, i: nat): nat
    requires |d| == PAYLOAD_SIZE && SlotAt(i + 1) <= PAYLOAD_SIZE
  {
    U16(d, SlotAt(i))
  }

  function Length(d: Bytes, i: nat): nat
    requires |d| == PAYLOAD_SIZE && SlotAt(i + 1) <= PAYLOAD_SIZE
  {
    U16(d, SlotAt(i) + 2)
  }

  function Flag(d: Bytes, i: nat): nat
    requires |d| == PAYLOAD_SIZE && SlotAt(i + 1) <= PAYLOAD_SIZE
  {
    U16(d, SlotAt(i) + 4)
  }

  /** Where the tuple region before slot i begins: tuples lie back to back from the end of the page. */
  function Edge(d: Bytes, i: nat): nat
    requires |d| == PAYLOAD_SIZE && SlotAt(i) <= PAYLOAD_SIZE
  {
    if i == 0 then PAYLOAD_SIZE else Offset(d, i - 1)
  }

  ghost predicate SlotOk(d: Bytes, i: nat)
    requires |d| == PAYLOAD_SIZE
  {
    SlotAt(i + 1) <= PAYLOAD_SIZE && Offset(d, i) + Length(d, i) == Edge(d, i) && TuplesStart(d) <= Offset(d, i)
  }

  ghost predicate PageOk(d: Bytes) {
    && |d| == PAYLOAD_SIZE && d[..6] == DATA_MAGIC
    && DirectoryEnd(d) == SlotAt(Slots(d)) <= TuplesStart(d) <= PAYLOAD_SIZE
    && TuplesStart(d) == Edge(d, Slots(d))
    && forall i: nat {:trigger SlotOk(d, i)} :: i < Slots(d) ==> SlotOk(d, i)
  }

  function RowAt(d: Bytes, i: nat): Row
    requires |d| == PAYLOAD_SIZE && SlotAt(i + 1) <= PAYLOAD_SIZE && Offset(d, i) + Length(d, i) <= PAYLOAD_SIZE
  {
    Row(Flag(d, i) != 0, d[Offset(d, i)..Offset(d, i) + Length(d, i)])
  }

  lemma {:induction false} SlotBounds(d: Bytes, i: nat)
    requires PageOk(d) && i < Slots(d)
    ensures SlotAt(i + 1) <= DirectoryEnd(d) && TuplesStart(d) <= Offset(d, i)
      && Offset(d, i) + Length(d, i) <= PAYLOAD_SIZE
  {
    assert SlotOk(d, i);
    if i > 0 { SlotBounds(d, i - 1); }
  }

  /** The rows of a page, oldest first. */
  ghost function Rows(d: Bytes): (rows: seq<Row>)
    requires PageOk(d)
    ensures |rows| == Slots(d)
  {
    RowsUpTo(d, Slots(d))
  }

  ghost function RowsUpTo(d: Bytes, n: nat): (rows: seq<Row>)
    requires PageOk(d) && n <= Slots(d)
    ensures |rows| == n
  {
    if n == 0 then []
    else
      (SlotBounds(d, n - 1);
       RowsUpTo(d, n - 1) + [RowAt(d, n - 1)])
  }

  lemma {:induction false} RowsAt(d: Bytes, n: nat, i: nat)
    requires PageOk(d) && i < n <= Slots(d)
    ensures SlotAt(i + 1) <= PAYLOAD_SIZE && Offset(d, i) + Length(d, i) <= PAYLOAD_SIZE
      && RowsUpTo(d, n)[i] == RowAt(d, i)
  {
    SlotBounds(d, i);
    if i < n - 1 { RowsAt(d, n - 1, i); }
  }

  /** Tuples of different slots never overlap, and none reaches into the slot directory. */
  lemma {:induction false} RegionsDisjoint(d: Bytes, i: nat, j: nat)
    requires PageOk(d) && i < j < Slots(d)
    ensures SlotAt(j + 1) <= DirectoryEnd(d) <= TuplesStart(d) <= Offset(d, j)
    ensures SlotAt(i + 1) <= PAYLOAD_SIZE && Offset(d, j) + Length(d, j) <= Offset(d, i)
  {
    SlotBounds(d, i);
    SlotBounds(d, j);
    assert SlotOk(d, j);
    if i + 1 < j {
      RegionsDisjoint(d, i, j - 1);
    }
  }

  // ---- Adding a row -------------------------------------------------------------------

  predicate HasRoom(d: Bytes, b: Bytes)
    requires |d| == PAYLOAD_SIZE
  {
    DirectoryEnd(d) + SLOT_SIZE + |b| <= TuplesStart(d)
  }

  /** The bytes that the rows take, dead or alive. */
  ghost function Used(rows: seq<Row>): nat {
    if rows == [] then 0 else Used(rows[..|rows| - 1]) + |rows[|rows| - 1].bytes|
  }

  lemma {:induction false} EdgeUsed(d: Bytes, n: nat)
    requires PageOk(d) && n <= Slots(d)
    ensures SlotAt(n) <= PAYLOAD_SIZE && Edge(d, n) + Used(RowsUpTo(d, n)) == PAYLOAD_SIZE
  {
    if n > 0 {
      EdgeUsed(d, n - 1);
      SlotBounds(d, n - 1);
      assert SlotOk(d, n - 1);
      assert RowsUpTo(d, n)[..n - 1] == RowsUpTo(d, n - 1);
    }
  }

  /** A page has room for a row exactly if header, slots and row bytes, those of erased rows included, fit with it. */
  lemma RoomIff(d: Bytes, b: Bytes)
    requires PageOk(d)
    ensures HasRoom(d, b) <==> 24 + 6 * (|Rows(d)| + 1) + Used(Rows(d)) + |b| <= PAYLOAD_SIZE
  {
    EdgeUsed(d, Slots(d));
  }

  function SlotEntry(offset: nat, length: nat, flag: nat): (b: Bytes)
    ensures |b| == SLOT_SIZE
  {
    Le(offset, TWO) + Le(length, TWO) + Le(flag, TWO)
  }

  /** The page with the tuple below the others, its slot behind the others, and the header brought up to date. */
  function PutRow(d: Bytes, b: Bytes): (r: Bytes)
    requires |d| == PAYLOAD_SIZE && HasRoom(d, b) && TuplesStart(d) <= PAYLOAD_SIZE
    ensures |r| == PAYLOAD_SIZE
  {
    var e, s := TuplesStart(d) - |b|, DirectoryEnd(d);
    Write(Write(Write(d, e, b), s, SlotEntry(e, |b|, 1)), 16, SlotEntry(Slots(d) + 1, s + SLOT_SIZE, e))
  }

  lemma PutElsewhere(d: Bytes, b: Bytes, lo: nat, hi: nat)
    requires |d| == PAYLOAD_SIZE && HasRoom(d, b) && TuplesStart(d) <= PAYLOAD_SIZE && lo <= hi <= PAYLOAD_SIZE
    requires hi <= 16 || 22 <= lo
    requires hi <= DirectoryEnd(d) || DirectoryEnd(d) + SLOT_SIZE <= lo
    requires hi <= TuplesStart(d) - |b| || TuplesStart(d) <= lo
    ensures PutRow(d, b)[lo..hi] == d[lo..hi]
  {
    var e, s := TuplesStart(d) - |b|, DirectoryEnd(d);
    var d1 := Write(d, e, b);
    var d2 := Write(d1, s, SlotEntry(e, |b|, 1));
    WriteElsewhere(d, e, b, lo, hi);
    WriteElsewhere(d1, s, SlotEntry(e, |b|, 1), lo, hi);
    WriteElsewhere(d2, 16, SlotEntry(Slots(d) + 1, s + SLOT_SIZE, e), lo, hi);
  }

  lemma EntryFields(x: nat, y: nat, z: nat)
    ensures var b := SlotEntry(x, y, z); b[..2] == Le(x, TWO) && b[2..4] == Le(y, TWO) && b[4..6] == Le(z, TWO)
  {
  }

  lemma Within(d: Bytes, at: nat, lo: nat, hi: nat)
    requires at + SLOT_SIZE <= |d| && lo <= hi <= SLOT_SIZE
    ensures d[at..at + SLOT_SIZE][lo..hi] == d[at + lo..at + hi]
  {
    var x, y := d[at..at + SLOT_SIZE][lo..hi], d[at + lo..at + hi];
    forall k | 0 <= k < hi - lo ensures x[k] == y[k] { assert x[k] == d[at + (lo + k)]; }
  }

  /** Three numbers written next to each other are read back. */
  lemma EntryRead(d: Bytes, at: nat, x: nat, y: nat, z: nat)
    requires at + SLOT_SIZE <= |d| && d[at..at + SLOT_SIZE] == SlotEntry(x, y, z) && x < 0x1_0000 && y < 0x1_0000
      && z < 0x1_0000
    ensures U16(d, at) == x && U16(d, at + 2) == y && U16(d, at + 4) == z
  {
    EntryFields(x, y, z);
    Within(d, at, 0, 2);
    Within(d, at, 2, 4);
    Within(d, at, 4, 6);
    Read16(d, at, x);
    Read16(d, at + 2, y);
    Read16(d, at + 4, z);
  }

  lemma PutHeader(d: Bytes, b: Bytes)
    requires PageOk(d) && HasRoom(d, b)
    ensures var r := PutRow(d, b);
      && Slots(r) == Slots(d) + 1 && DirectoryEnd(r) == DirectoryEnd(d) + SLOT_SIZE
      && TuplesStart(r) == TuplesStart(d) - |b|
      && r[..6] == d[..6] && NextPage(r) == NextPage(d)
  {
    var e, s := TuplesStart(d) - |b|, DirectoryEnd(d);
    var d2 := Write(Write(d, e, b), s, SlotEntry(e, |b|, 1));
    WriteHere(d2, 16, SlotEntry(Slots(d) + 1, s + SLOT_SIZE, e));
    EntryRead(PutRow(d, b), 16, Slots(d) + 1, s + SLOT_SIZE, e);
    PutElsewhere(d, b, 0, 6);
    PutElsewhere(d, b, 8, 16);
  }

  lemma PutNewSlot(d: Bytes, b: Bytes)
    requires PageOk(d) && HasRoom(d, b)
    ensures var r, n := PutRow(d, b), Slots(d);
      && SlotAt(n + 1) <= PAYLOAD_SIZE && Offset(r, n) == TuplesStart(d) - |b| && Length(r, n) == |b| && Flag(r, n) == 1
      && r[TuplesStart(d) - |b|..TuplesStart(d)] == b
  {
    var e, s := TuplesStart(d) - |b|, DirectoryEnd(d);
    var d1 := Write(d, e, b);
    var d2 := Write(d1, s, SlotEntry(e, |b|, 1));
    var header := SlotEntry(Slots(d) + 1, s + SLOT_SIZE, e);
    WriteHere(d, e, b);
    WriteElsewhere(d1, s, SlotEntry(e, |b|, 1), e, e + |b|);
    WriteElsewhere(d2, 16, header, e, e + |b|);
    WriteHere(d1, s, SlotEntry(e, |b|, 1));
    WriteElsewhere(d2, 16, header, s, s + SLOT_SIZE);
    EntryRead(PutRow(d, b), s, e, |b|, 1);
  }

  /** Old slots and old tuples stay as they are. */
  lemma PutOldSlot(d: Bytes, b: Bytes, i: nat)
    requires PageOk(d) && HasRoom(d, b) && i < Slots(d)
    ensures var r := PutRow(d, b);
      && SlotAt(i + 1) <= PAYLOAD_SIZE && Offset(r, i) == Offset(d, i) && Length(r, i) == Length(d, i)
      && Flag(r, i) == Flag(d, i)
      && Offset(d, i) + Length(d, i) <= PAYLOAD_SIZE && RowAt(r, i) == RowAt(d, i)
  {
    SlotBounds(d, i);
    PutElsewhere(d, b, SlotAt(i), SlotAt(i) + 2);
    PutElsewhere(d, b, SlotAt(i) + 2, SlotAt(i) + 4);
    PutElsewhere(d, b, SlotAt(i) + 4, SlotAt(i) + 6);
    PutElsewhere(d, b, Offset(d, i), Offset(d, i) + Length(d, i));
  }

  lemma PutOldSlotOk(d: Bytes, b: Bytes, i: nat)
    requires PageOk(d) && HasRoom(d, b) && i < Slots(d)
    ensures SlotOk(PutRow(d, b), i)
  {
    PutHeader(d, b);
    assert SlotOk(d, i);
    PutOldSlot(d, b, i);
    if i > 0 { PutOldSlot(d, b, i - 1); }
  }

  lemma PutNewSlotOk(d: Bytes, b: Bytes)
    requires PageOk(d) && HasRoom(d, b)
    ensures SlotOk(PutRow(d, b), Slots(d))
  {
    PutHeader(d, b);
    PutNewSlot(d, b);
    if Slots(d) > 0 { PutOldSlot(d, b, Slots(d) - 1); }
  }

  lemma PutSlotOk(d: Bytes, b: Bytes, i: nat)
    requires PageOk(d) && HasRoom(d, b) && i <= Slots(d)
    ensures SlotOk(PutRow(d, b), i)
  {
    if i < Slots(d) { PutOldSlotOk(d, b, i); } else { PutNewSlotOk(d, b); }
  }

  lemma PutPageOk(d: Bytes, b: Bytes)
    requires PageOk(d) && HasRoom(d, b)
    ensures PageOk(PutRow(d, b))
  {
    PutHeader(d, b);
    PutNewSlot(d, b);
    forall i: nat | i <= Slots(d) ensures SlotOk(PutRow(d, b), i) { PutSlotOk(d, b, i); }
  }

  lemma PutOldRow(d: Bytes, b: Bytes, i: nat)
    requires PageOk(d) && HasRoom(d, b) && PageOk(PutRow(d, b)) && i < Slots(d) && Slots(PutRow(d, b)) == Slots(d) + 1
    ensures Rows(PutRow(d, b))[i] == Rows(d)[i]
  {
    RowsAt(PutRow(d, b), Slots(d) + 1, i);
    RowsAt(d, Slots(d), i);
    PutOldSlot(d, b, i);
  }

  lemma PutNewRow(d: Bytes, b: Bytes)
    requires PageOk(d) && HasRoom(d, b) && PageOk(PutRow(d, b)) && Slots(PutRow(d, b)) == Slots(d) + 1
    ensures Rows(PutRow(d, b))[Slots(d)] == Row(true, b)
  {
    RowsAt(PutRow(d, b), Slots(d) + 1, Slots(d));
    PutNewSlot(d, b);
  }

  /** Adding a row adds one live row to the list and changes nothing else that can be seen. */
  lemma PutRows(d: Bytes, b: Bytes)
    requires PageOk(d) && HasRoom(d, b)
    ensures PageOk(PutRow(d, b)) && Rows(PutRow(d, b)) == Rows(d) + [Row(true, b)]
      && NextPage(PutRow(d, b)) == NextPage(d)
  {
    var r := PutRow(d, b);
    PutHeader(d, b);
    PutPageOk(d, b);
    forall i: nat | i < Slots(d) ensures Rows(r)[i] == Rows(d)[i] { PutOldRow(d, b, i); }
    PutNewRow(d, b);
  }

  // ---- Erasing a row ------------------------------------------------------------------

  function ClearFlag(d: Bytes, i: nat): (r: Bytes)
    requires |d| == PAYLOAD_SIZE && SlotAt(i + 1) <= PAYLOAD_SIZE
    ensures |r| == PAYLOAD_SIZE
  {
    Write(d, SlotAt(i) + 4, Le(0, TWO))
  }

  lemma ClearHeader(d: Bytes, i: nat)
    requires PageOk(d) && i < Slots(d)
    ensures SlotAt(i + 1) <= PAYLOAD_SIZE
    ensures var r := ClearFlag(d, i);
      Slots(r) == Slots(d) && DirectoryEnd(r) == DirectoryEnd(d) && TuplesStart(r) == TuplesStart(d)
        && r[..6] == d[..6] && NextPage(r) == NextPage(d)
  {
    SlotBounds(d, i);
    var at := SlotAt(i) + 4;
    WriteElsewhere(d, at, Le(0, TWO), 0, 6);
    WriteElsewhere(d, at, Le(0, TWO), 8, 16);
    WriteElsewhere(d, at, Le(0, TWO), 16, 18);
    WriteElsewhere(d, at, Le(0, TWO), 18, 20);
    WriteElsewhere(d, at, Le(0, TWO), 20, 22);
  }

  lemma ClearPlace(d: Bytes, i: nat, j: nat)
    requires PageOk(d) && i < Slots(d) && j < Slots(d)
    ensures SlotAt(i + 1) <= PAYLOAD_SIZE && SlotAt(j + 1) <= PAYLOAD_SIZE
      && Offset(d, j) + Length(d, j) <= PAYLOAD_SIZE
    ensures var r := ClearFlag(d, i);
      && Offset(r, j) == Offset(d, j) && Length(r, j) == Length(d, j)
      && r[Offset(d, j)..Offset(d, j) + Length(d, j)] == d[Offset(d, j)..Offset(d, j) + Length(d, j)]
  {
    SlotBounds(d, i);
    SlotBounds(d, j);
    var at := SlotAt(i) + 4;
    WriteElsewhere(d, at, Le(0, TWO), SlotAt(j), SlotAt(j) + 2);
    WriteElsewhere(d, at, Le(0, TWO), SlotAt(j) + 2, SlotAt(j) + 4);
    WriteElsewhere(d, at, Le(0, TWO), Offset(d, j), Offset(d, j) + Length(d, j));
  }

  lemma ClearedFlag(d: Bytes, i: nat, j: nat)
    requires PageOk(d) && i < Slots(d) && j < Slots(d)
    ensures SlotAt(i + 1) <= PAYLOAD_SIZE && SlotAt(j + 1) <= PAYLOAD_SIZE
    ensures Flag(ClearFlag(d, i), j) == if i == j then 0 else Flag(d, j)
  {
    SlotBounds(d, i);
    SlotBounds(d, j);
    var at := SlotAt(i) + 4;
    if i == j {
      WriteHere(d, at, Le(0, TWO));
      Read16(ClearFlag(d, i), at, 0);
    } else {
      WriteElsewhere(d, at, Le(0, TWO), SlotAt(j) + 4, SlotAt(j) + 6);
    }
  }

  lemma ClearSlot(d: Bytes, i: nat, j: nat)
    requires PageOk(d) && i < Slots(d) && j < Slots(d)
    ensures SlotAt(i + 1) <= PAYLOAD_SIZE && SlotAt(j + 1) <= PAYLOAD_SIZE
      && Offset(d, j) + Length(d, j) <= PAYLOAD_SIZE
    ensures var r := ClearFlag(d, i);
      Offset(r, j) == Offset(d, j) && Length(r, j) == Length(d, j) && RowAt(r, j) == if j == i
        then Row(false, RowAt(d, i).bytes) else RowAt(d, j)
  {
    ClearPlace(d, i, j);
    ClearedFlag(d, i, j);
  }

  lemma ClearSlotOk(d: Bytes, i: nat, j: nat)
    requires PageOk(d) && i < Slots(d) && j < Slots(d)
    ensures SlotAt(i + 1) <= PAYLOAD_SIZE && SlotOk(ClearFlag(d, i), j)
  {
    ClearHeader(d, i);
    ClearSlot(d, i, j);
    assert SlotOk(d, j);
    if j > 0 { ClearSlot(d, i, j - 1); }
  }

  lemma ClearPageOk(d: Bytes, i: nat)
    requires PageOk(d) && i < Slots(d)
    ensures SlotAt(i + 1) <= PAYLOAD_SIZE && PageOk(ClearFlag(d, i))
  {
    ClearHeader(d, i);
    ClearSlot(d, i, Slots(d) - 1);
    forall j: nat | j < Slots(d) ensures SlotOk(ClearFlag(d, i), j) { ClearSlotOk(d, i, j); }
  }

  /** Erasing a row clears its flag and nothing else. */
  lemma ClearRows(d: Bytes, i: nat)
    requires PageOk(d) && i < Slots(d)
    ensures SlotAt(i + 1) <= PAYLOAD_SIZE && PageOk(ClearFlag(d, i)) && NextPage(ClearFlag(d, i)) == NextPage(d)
    ensures Rows(ClearFlag(d, i)) == Rows(d)[i := Row(false, Rows(d)[i].bytes)]
  {
    ClearHeader(d, i);
    ClearPageOk(d, i);
    var r := ClearFlag(d, i);
    RowsAt(d, Slots(d), i);
    forall j: nat | j < Slots(d) ensures Rows(r)[j] == Rows(d)[i := Row(false, Rows(d)[i].bytes)][j] {
      RowsAt(r, Slots(r), j);
      RowsAt(d, Slots(d), j);
      ClearSlot(d, i, j);
    }
  }

  // ---- New pages and links ------------------------------------------------------------

  function SetNext(d: Bytes, next: PageId): (r: Bytes)
    requires |d| == PAYLOAD_SIZE
    ensures |r| == PAYLOAD_SIZE
  {
    Write(d, 8, Le(next, EIGHT))
  }

  /** Linking a page leaves its rows alone. */
  lemma LinkRows(d: Bytes, next: PageId)
    requires PageOk(d) && next < U64
    ensures PageOk(SetNext(d, next)) && Rows(SetNext(d, next)) == Rows(d) && NextPage(SetNext(d, next)) == next
  {
    LinkHeader(d, next);
    var r := SetNext(d, next);
    LinkPageOk(d, next);
    forall j: nat | j < Slots(d) ensures Rows(r)[j] == Rows(d)[j] {
      RowsAt(r, Slots(r), j);
      RowsAt(d, Slots(d), j);
      LinkSlot(d, next, j);
    }
  }

  lemma LinkHeader(d: Bytes, next: PageId)
    requires |d| == PAYLOAD_SIZE && next < U64
    ensures var r := SetNext(d, next);
      Slots(r) == Slots(d) && DirectoryEnd(r) == DirectoryEnd(d) && TuplesStart(r) == TuplesStart(d)
        && r[..6] == d[..6] && NextPage(r) == next
  {
    Powers();
    UnLe(next, EIGHT);
    WriteHere(d, 8, Le(next, EIGHT));
    WriteElsewhere(d, 8, Le(next, EIGHT), 0, 6);
    WriteElsewhere(d, 8, Le(next, EIGHT), 16, 18);
    WriteElsewhere(d, 8, Le(next, EIGHT), 18, 20);
    WriteElsewhere(d, 8, Le(next, EIGHT), 20, 22);
  }

  lemma LinkSlot(d: Bytes, next: PageId, j: nat)
    requires PageOk(d) && next < U64 && j < Slots(d)
    ensures SlotAt(j + 1) <= PAYLOAD_SIZE && Offset(d, j) + Length(d, j) <= PAYLOAD_SIZE
    ensures var r := SetNext(d, next);
      Offset(r, j) == Offset(d, j) && Length(r, j) == Length(d, j) && RowAt(r, j) == RowAt(d, j)
  {
    SlotBounds(d, j);
    WriteElsewhere(d, 8, Le(next, EIGHT), SlotAt(j), SlotAt(j) + 2);
    WriteElsewhere(d, 8, Le(next, EIGHT), SlotAt(j) + 2, SlotAt(j) + 4);
    WriteElsewhere(d, 8, Le(next, EIGHT), SlotAt(j) + 4, SlotAt(j) + 6);
    WriteElsewhere(d, 8, Le(next, EIGHT), Offset(d, j), Offset(d, j) + Length(d, j));
  }

  lemma LinkSlotOk(d: Bytes, next: PageId, j: nat)
    requires PageOk(d) && next < U64 && j < Slots(d)
    ensures SlotOk(SetNext(d, next), j)
  {
    LinkHeader(d, next);
    assert SlotOk(d, j);
    LinkSlot(d, next, j);
    if j > 0 { LinkSlot(d, next, j - 1); }
  }

  lemma LinkPageOk(d: Bytes, next: PageId)
    requires PageOk(d) && next < U64
    ensures PageOk(SetNext(d, next))
  {
    LinkHeader(d, next);
    if Slots(d) > 0 { LinkSlot(d, next, Slots(d) - 1); }
    forall j: nat | j < Slots(d) ensures SlotOk(SetNext(d, next), j) { LinkSlotOk(d, next, j); }
  }

  /** An empty data page: cleared, stamped, unlinked, without slots. */
  function EmptyPage(): (r: Bytes)
    ensures |r| == PAYLOAD_SIZE
  {
    Write(Write(Write(Zeros(PAYLOAD_SIZE), 0, DATA_MAGIC), 8, Le(INVALID, EIGHT)), 16,
      SlotEntry(0, PAGE_HEADER, PAYLOAD_SIZE))
  }

  lemma EmptyRows()
    ensures PageOk(EmptyPage()) && Rows(EmptyPage()) == [] && NextPage(EmptyPage()) == INVALID
  {
    var d0 := Zeros(PAYLOAD_SIZE);
    var d1 := Write(d0, 0, DATA_MAGIC);
    var d2 := Write(d1, 8, Le(INVALID, EIGHT));
    var entry := SlotEntry(0, PAGE_HEADER, PAYLOAD_SIZE);
    WriteHere(d0, 0, DATA_MAGIC);
    WriteElsewhere(d1, 8, Le(INVALID, EIGHT), 0, 6);
    WriteElsewhere(d2, 16, entry, 0, 6);
    WriteHere(d1, 8, Le(INVALID, EIGHT));
    WriteElsewhere(d2, 16, entry, 8, 16);
    WriteHere(d2, 16, entry);
    EntryRead(EmptyPage(), 16, 0, PAGE_HEADER, PAYLOAD_SIZE);
    Powers();
    UnLe(INVALID, EIGHT);
  }

  function Number(low: nat, high: nat): nat {
    low + 256 * high
  }

  lemma TwoBytes(d: Bytes, at: nat)
    requires at + 2 <= |d|
    ensures U16(d, at) == Number(d[at], d[at + 1])
  {
    var s := d[at..at + 2];
    assert s[1..] == [d[at + 1]] && [d[at + 1]][1..] == [];
    assert Un([d[at + 1]]) == d[at + 1];
  }

  /** Where a data page keeps its numbers and its next page. */
  lemma HeaderLayout(d: Bytes)
    requires PageOk(d)
    ensures |d| == PAYLOAD_SIZE && d[..6] == [68, 68, 66, 68, 80, 52] && NextPage(d) == Un(d[8..16])
    ensures |Rows(d)| == Number(d[16], d[17]) && 24 + 6 * |Rows(d)| == Number(d[18], d[19]) <= Number(d[20], d[21])
  {
    TwoBytes(d, 16);
    TwoBytes(d, 18);
    TwoBytes(d, 20);
  }

  /** Where it keeps a row: a slot has offset, length and flag, which is zero for an erased row. */
  lemma SlotLayout(d: Bytes, i: nat)
    requires PageOk(d) && i < |Rows(d)|
    ensures 24 + 6 * i + 6 <= |d|
    ensures var at := 24 + 6 * i;
      var offset, length, flag := Number(d[at], d[at + 1]), Number(d[at + 2], d[at + 3]), Number(d[at + 4], d[at + 5]);
      && Number(d[20], d[21]) <= offset && offset + length <= |d|
      && Rows(d)[i] == Row(flag != 0, d[offset..offset + length])
  {
    SlotBounds(d, i);
    RowsAt(d, Slots(d), i);
    TwoBytes(d, 20);
    TwoBytes(d, SlotAt(i));
    TwoBytes(d, SlotAt(i) + 2);
    TwoBytes(d, SlotAt(i) + 4);
  }
}
