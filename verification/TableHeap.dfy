/** A table: a chain of data pages behind a metadata page. */
module TableHeaps {
  import opened StorageTypes
  import opened LittleEndian
  import opened WalCodec
  import opened PageManagers
  import opened TupleCodec
  import opened SlottedPage
  import opened HeapListing

  const META_MAGIC: Bytes := [68, 68, 66, 84, 72, 52]

  /** Copies bytes into a page buffer. */
  method WriteBytes(a: array<Byte>, at: nat, b: Bytes)
    requires at + |b| <= a.Length
    modifies a
    ensures a[..] == Write(old(a[..]), at, b)
  {
    for i := 0 to |b|
      invariant a[at + i..] == old(a[at + i..]) && a[..at] == old(a[..at]) && a[at..at + i] == b[..i]
    {
      a[at + i] := b[i];
    }
    assert a[..] == a[..at] + a[at..at + |b|] + a[at + |b|..];
  }

  /** Writes three 16-bit numbers next to each other. */
  method WriteNumbers(a: array<Byte>, at: nat, x: nat, y: nat, z: nat)
    requires at + SLOT_SIZE <= a.Length
    modifies a
    ensures a[..] == Write(old(a[..]), at, SlotEntry(x, y, z))
  {
    ghost var d := a[..];
    WriteBytes(a, at, Le(x, TWO));
    WriteBytes(a, at + 2, Le(y, TWO));
    WriteBytes(a, at + 4, Le(z, TWO));
    ThreeWrites(d, at, x, y, z);
  }

  /** Copies the tuple below the others, fills its slot and updates the header. */
  method InsertRow(a: array<Byte>, b: Bytes)
    requires a.Length == PAYLOAD_SIZE && HasRoom(a[..], b) && TuplesStart(a[..]) <= PAYLOAD_SIZE
    modifies a
    ensures a[..] == PutRow(old(a[..]), b)
  {
    var slots, start, end := Slots(a[..]), DirectoryEnd(a[..]), TuplesStart(a[..]) - |b|;
    WriteBytes(a, end, b);
    WriteNumbers(a, start, end, |b|, 1);
    WriteNumbers(a, 16, slots + 1, start + SLOT_SIZE, end);
  }

  lemma ThreeWrites(d: Bytes, at: nat, x: nat, y: nat, z: nat)
    requires at + SLOT_SIZE <= |d|
    ensures Write(Write(Write(d, at, Le(x, TWO)), at + 2, Le(y, TWO)), at + 4, Le(z, TWO)) ==
      Write(d, at, SlotEntry(x, y, z))
  {
    WriteOn(d, at, Le(x, TWO), Le(y, TWO));
    WriteOn(d, at, Le(x, TWO) + Le(y, TWO), Le(z, TWO));
  }

  datatype Inserted = Stored(rid: RecordId) | TooLarge | InsertThrew

  datatype Answer<T> = Answer(value: T) | Threw

  predicate IsMeta(d: Bytes) {
    |d| == PAYLOAD_SIZE && d[..6] == META_MAGIC
  }

  /** The metadata page names both ends of the chain. */
  predicate MetaOk(d: Bytes, first: PageId, last: PageId) {
    IsMeta(d) && Un(d[8..16]) == first && Un(d[16..24]) == last
  }

  /**
   * Which of the pages that an insertion fetches can be pinned: the last one, a new one, the last one again to link
   * it, the metadata page, and the new one again.
   */
  datatype Pins = Pins(last: bool, added: bool, link: bool, meta: bool, again: bool)

  function PutEnds(d: Bytes, first: PageId, last: PageId): (r: Bytes)
    requires |d| == PAYLOAD_SIZE
    ensures |r| == PAYLOAD_SIZE
  {
    Write(Write(d, 8, Le(first, EIGHT)), 16, Le(last, EIGHT))
  }

  lemma EndsRead(d: Bytes, first: PageId, last: PageId)
    requires |d| == PAYLOAD_SIZE && d[..6] == META_MAGIC && first < U64 && last < U64
    ensures MetaOk(PutEnds(d, first, last), first, last)
  {
    var d1 := Write(d, 8, Le(first, EIGHT));
    Powers();
    UnLe(first, EIGHT);
    UnLe(last, EIGHT);
    WriteHere(d, 8, Le(first, EIGHT));
    WriteElsewhere(d, 8, Le(first, EIGHT), 0, 6);
    WriteElsewhere(d1, 16, Le(last, EIGHT), 0, 6);
    WriteElsewhere(d1, 16, Le(last, EIGHT), 8, 16);
    WriteHere(d1, 16, Le(last, EIGHT));
  }

  /** Data page k of the chain holds the rows the book says and links to the next page. */
  ghost predicate Linked(pages: map<PageId, Bytes>, chain: seq<PageId>, book: Book, k: nat) {
    k < |chain| ==>
      && chain[k] in pages && chain[k] in book && PageOk(pages[chain[k]]) && Rows(pages[chain[k]]) == book[chain[k]]
      && NextPage(pages[chain[k]]) == if k + 1 < |chain| then chain[k + 1] else INVALID
  }

  /** Every live row decodes. */
  ghost predicate Decodable(schema: Schema, book: Book, p: PageId) {
    p in book ==> forall i :: 0 <= i < |book[p]| && book[p][i].live ==> Deserialize(schema, book[p][i].bytes).Some?
  }

  /** A table and the store it lives in. `pages` holds the payloads of the allocated pages. The metadata page is stale,
      not `synced`, after an insertion could not pin it. */
  datatype Table = Table(
    schema: Schema, meta: PageId, pages: map<PageId, Bytes>, count: nat, first: PageId, last: PageId,
      chain: seq<PageId>, book: Book,
    synced: bool)

  ghost predicate StoreShaped(t: Table) {
    (forall p :: p in t.pages ==> p < t.count && |t.pages[p]| == PAYLOAD_SIZE) && t.count <= CATALOG_BITS
  }

  ghost predicate EndsOk(t: Table) {
    && t.meta in t.pages && t.meta !in t.chain && IsMeta(t.pages[t.meta])
    && (t.synced ==> MetaOk(t.pages[t.meta], t.first, t.last))
    && t.first == (if t.chain == [] then INVALID else t.chain[0])
    && t.last == (if t.chain == [] then INVALID else t.chain[|t.chain| - 1])
    && Distinct(t.chain) && ChainOk(t.book, t.chain)
  }

  /** Whatever carries the data page stamp is a data page, of this table or of another. */
  ghost predicate Sound(pages: map<PageId, Bytes>, p: PageId) {
    p in pages && |pages[p]| == PAYLOAD_SIZE && pages[p][..6] == DATA_MAGIC ==> PageOk(pages[p])
  }

  ghost predicate TableOk(t: Table) {
    && StoreShaped(t) && EndsOk(t)
    && (forall p: PageId {:trigger Sound(t.pages, p)} :: Sound(t.pages, p))
    && (forall k: nat {:trigger Linked(t.pages, t.chain, t.book, k)} :: Linked(t.pages, t.chain, t.book, k))
    && forall p: PageId {:trigger Decodable(t.schema, t.book, p)} :: Decodable(t.schema, t.book, p)
  }

  /** The table's rows, oldest first. */
  ghost function All(t: Table): seq<Item>
    requires ChainOk(t.book, t.chain)
  {
    Listing(t.book, t.chain, |t.chain|)
  }

  // ---- Adding a page ------------------------------------------------------------------

  /** The pages after an empty data page was linked behind the last one. */
  function LinkedPages(pages: map<PageId, Bytes>, meta: PageId, first: PageId, last: PageId, id: PageId,
      synced: bool): map<PageId, Bytes>
    requires meta in pages && |pages[meta]| == PAYLOAD_SIZE
      && (last != INVALID ==> last in pages && |pages[last]| == PAYLOAD_SIZE)
  {
    var chained := if last == INVALID then pages else pages[last := SetNext(pages[last], id)];
    if synced then chained[meta := PutEnds(pages[meta], if last == INVALID then id else first, id)] else chained
  }

  /** The empty page id, which nobody uses, becomes the last one of the chain. */
  ghost predicate AddsPage(t: Table, u: Table, id: PageId) {
    && t.meta in t.pages && |t.pages[t.meta]| == PAYLOAD_SIZE
    && (t.last != INVALID ==> t.last in t.pages && |t.pages[t.last]| == PAYLOAD_SIZE)
    && id in t.pages && t.pages[id] == EmptyPage() && id !in t.chain && id != t.meta
    && u.schema == t.schema && u.meta == t.meta && u.count == t.count
    && u.pages == LinkedPages(t.pages, t.meta, t.first, t.last, id, u.synced)
    && u.first == (if t.last == INVALID then id else t.first) && u.last == id
    && u.chain == t.chain + [id] && u.book == t.book[id := []]
  }

  lemma ChainInStore(t: Table)
    requires TableOk(t)
    ensures forall k :: 0 <= k < |t.chain| ==> t.chain[k] in t.pages && t.chain[k] < t.count && t.chain[k] != t.meta
  {
    forall k: nat | k < |t.chain| ensures t.chain[k] in t.pages { assert Linked(t.pages, t.chain, t.book, k); }
  }

  lemma AddPageEnds(t: Table, u: Table, id: PageId)
    requires TableOk(t) && AddsPage(t, u, id)
    ensures StoreShaped(u) && EndsOk(u)
  {
    ChainInStore(t);
    if u.synced { EndsRead(t.pages[t.meta], u.first, u.last); }
  }

  lemma AddPageLinked(t: Table, u: Table, id: PageId, k: nat)
    requires TableOk(t) && AddsPage(t, u, id)
    ensures Linked(u.pages, u.chain, u.book, k)
  {
    ChainInStore(t);
    if k < |t.chain| {
      assert Linked(t.pages, t.chain, t.book, k);
      if k + 1 == |t.chain| { LinkRows(t.pages[t.last], id); }
    } else if k == |t.chain| {
      EmptyRows();
    }
  }

  lemma AddPageSound(t: Table, u: Table, id: PageId, p: PageId)
    requires TableOk(t) && AddsPage(t, u, id)
    ensures Sound(u.pages, p)
  {
    assert Sound(t.pages, p);
    AddPageEnds(t, u, id);
    if p == id {
      EmptyRows();
    } else if t.chain != [] && p == t.last {
      assert Linked(t.pages, t.chain, t.book, |t.chain| - 1);
      LinkRows(t.pages[p], id);
    }
  }

  /** A page that nobody uses may be anything but a broken data page. */
  lemma SparePage(t: Table, u: Table, id: PageId)
    requires TableOk(t) && id !in t.chain && id != t.meta && id < u.count <= CATALOG_BITS && t.count <= u.count
    requires u == t.(pages := u.pages, count := u.count) && id in u.pages && u.pages == t.pages[id := u.pages[id]]
      && Sound(u.pages, id)
    requires |u.pages[id]| == PAYLOAD_SIZE
    ensures TableOk(u) && All(u) == All(t)
  {
    forall k: nat ensures Linked(u.pages, u.chain, u.book, k) { assert Linked(t.pages, t.chain, t.book, k); }
    forall p: PageId ensures Sound(u.pages, p) { assert Sound(t.pages, p); }
    forall p: PageId ensures Decodable(u.schema, u.book, p) { assert Decodable(t.schema, t.book, p); }
  }

  /** A new, empty page changes no row. */
  lemma AddPageKeeps(t: Table, u: Table, id: PageId)
    requires TableOk(t) && AddsPage(t, u, id)
    ensures TableOk(u) && All(u) == All(t) && id in u.pages && u.pages[id] == EmptyPage()
  {
    AddPageEnds(t, u, id);
    ChainInStore(t);
    forall k: nat ensures Linked(u.pages, u.chain, u.book, k) { AddPageLinked(t, u, id, k); }
    forall p: PageId ensures Sound(u.pages, p) { AddPageSound(t, u, id, p); }
    forall p: PageId ensures Decodable(u.schema, u.book, p) { assert Decodable(t.schema, t.book, p); }
    ListingStays(t.book, u.book, t.chain, u.chain, |t.chain|);
  }

  // ---- Adding a row -------------------------------------------------------------------

  ghost predicate AddsRow(t: Table, u: Table, b: Bytes) {
    && t.last in t.pages && |t.pages[t.last]| == PAYLOAD_SIZE && HasRoom(t.pages[t.last], b)
    && TuplesStart(t.pages[t.last]) <= PAYLOAD_SIZE
    && t.last in t.book
    && u == t.(pages := t.pages[t.last := PutRow(t.pages[t.last], b)],
    book := t.book[t.last := t.book[t.last] + [Row(true, b)]])
  }

  lemma AddRowLinked(t: Table, u: Table, b: Bytes, k: nat)
    requires TableOk(t) && AddsRow(t, u, b) && t.chain != []
    ensures Linked(u.pages, u.chain, u.book, k)
  {
    assert Linked(t.pages, t.chain, t.book, k);
    if k + 1 == |t.chain| { PutRows(t.pages[t.last], b); }
  }

  lemma AddRowSound(t: Table, u: Table, b: Bytes, p: PageId)
    requires TableOk(t) && AddsRow(t, u, b) && t.chain != []
    ensures Sound(u.pages, p)
  {
    assert Sound(t.pages, p) && Linked(t.pages, t.chain, t.book, |t.chain| - 1);
    if p == t.last { PutRows(t.pages[p], b); }
  }

  lemma AddRowDecodable(t: Table, u: Table, b: Bytes, p: PageId)
    requires TableOk(t) && AddsRow(t, u, b) && Deserialize(t.schema, b).Some?
    ensures Decodable(u.schema, u.book, p)
  {
    assert Decodable(t.schema, t.book, p);
  }

  /** The row is appended under a record id that was not there before. */
  lemma AddRowKeeps(t: Table, u: Table, b: Bytes)
    requires TableOk(t) && t.chain != [] && AddsRow(t, u, b) && Deserialize(t.schema, b).Some?
    ensures TableOk(u) && All(u) == All(t) + [Item(RecordId(t.last, |t.book[t.last]|), Row(true, b))]
  {
    ChainInStore(t);
    forall k: nat ensures Linked(u.pages, u.chain, u.book, k) { AddRowLinked(t, u, b, k); }
    forall p: PageId ensures Sound(u.pages, p) { AddRowSound(t, u, b, p); }
    forall p: PageId ensures Decodable(u.schema, u.book, p) { AddRowDecodable(t, u, b, p); }
    var n := |t.chain| - 1;
    ListingStays(t.book, u.book, t.chain, u.chain, n);
    TaggedGrows(t.last, t.book[t.last], Row(true, b));
  }

  lemma TaggedGrows(p: PageId, rows: seq<Row>, r: Row)
    ensures Tagged(p, rows + [r], |rows| + 1) == Tagged(p, rows, |rows|) + [Item(RecordId(p, |rows|), r)]
  {
  }

  // ---- Erasing a row ------------------------------------------------------------------

  ghost predicate ErasesRow(t: Table, u: Table, rid: RecordId) {
    && rid.page in t.pages && PageOk(t.pages[rid.page]) && rid.slot < Slots(t.pages[rid.page])
    && SlotAt(rid.slot + 1) <= PAYLOAD_SIZE
    && u == t.(pages := t.pages[rid.page := ClearFlag(t.pages[rid.page], rid.slot)], book := u.book)
    && u.book == (if rid.page in t.book && rid.slot < |t.book[rid.page]|
                  then t.book[rid.page := t.book[rid.page][rid.slot := Row(false, t.book[rid.page][rid.slot].bytes)]]
                    else t.book)
  }

  lemma EraseLinked(t: Table, u: Table, rid: RecordId, k: nat)
    requires TableOk(t) && ErasesRow(t, u, rid)
    ensures Linked(u.pages, u.chain, u.book, k)
  {
    assert Linked(t.pages, t.chain, t.book, k);
    ClearRows(t.pages[rid.page], rid.slot);
  }

  lemma EraseSound(t: Table, u: Table, rid: RecordId, p: PageId)
    requires TableOk(t) && ErasesRow(t, u, rid)
    ensures Sound(u.pages, p)
  {
    assert Sound(t.pages, p);
    if p == rid.page { ClearRows(t.pages[p], rid.slot); }
  }

  lemma EraseListed(t: Table, u: Table, rid: RecordId)
    requires TableOk(t) && ErasesRow(t, u, rid)
    ensures ChainOk(u.book, u.chain) && All(u) == if rid.page in t.chain then Cleared(All(t), rid) else All(t)
  {
    if rid.page in t.chain {
      var k: nat :| k < |t.chain| && t.chain[k] == rid.page;
      assert Linked(t.pages, t.chain, t.book, k);
      ClearedListing(t.book, u.book, t.chain, |t.chain|, rid);
    } else {
      ListingStays(t.book, u.book, t.chain, u.chain, |t.chain|);
    }
  }

  /** Exactly one flag is cleared if the record is one of the table's, none otherwise. */
  lemma EraseKeeps(t: Table, u: Table, rid: RecordId)
    requires TableOk(t) && ErasesRow(t, u, rid) && rid.page != t.meta
    ensures TableOk(u) && All(u) == if rid.page in t.chain then Cleared(All(t), rid) else All(t)
  {
    forall k: nat ensures Linked(u.pages, u.chain, u.book, k) { EraseLinked(t, u, rid, k); }
    forall p: PageId ensures Sound(u.pages, p) { EraseSound(t, u, rid, p); }
    forall p: PageId ensures Decodable(u.schema, u.book, p) { assert Decodable(t.schema, t.book, p); }
    EraseListed(t, u, rid);
  }

  /** An empty table whose metadata page is the next page of the store. */
  ghost function NewTable(schema: Schema, pages: map<PageId, Bytes>, count: nat): Table {
    Table(schema, count, pages[count := MetaPage()], count + 1, INVALID, INVALID, [], map[], true)
  }

  lemma NewTableOk(schema: Schema, pages: map<PageId, Bytes>, count: nat)
    requires (forall p :: p in pages ==> p < count && |pages[p]| == PAYLOAD_SIZE) && count < CATALOG_BITS
    requires forall p: PageId {:trigger Sound(pages, p)} :: Sound(pages, p)
    ensures TableOk(NewTable(schema, pages, count)) && All(NewTable(schema, pages, count)) == []
  {
    MetaRead();
    var more := pages[count := MetaPage()];
    forall p: PageId ensures Sound(more, p) { assert Sound(pages, p); }
    forall k: nat ensures Linked(more, [], map[], k) {}
  }

  /** The page with these rows has room for one more: header, slots and bytes fit the page. */
  ghost predicate Takes(book: Book, p: PageId, b: Bytes) {
    p in book && 24 + 6 * (|book[p]| + 1) + Used(book[p]) + |b| <= PAYLOAD_SIZE
  }

  lemma LastTakes(t: Table, b: Bytes)
    requires TableOk(t) && t.chain != []
    ensures t.last in t.pages && |t.pages[t.last]| == PAYLOAD_SIZE
      && (HasRoom(t.pages[t.last], b) <==> Takes(t.book, t.last, b))
  {
    assert Linked(t.pages, t.chain, t.book, |t.chain| - 1);
    RoomIff(t.pages[t.last], b);
  }

  // ---- The table object ---------------------------------------------------------------

  class TableHeap {
    const schema: Schema
    const meta: PageId
    var pages: map<PageId, Bytes>
    var count: nat
    var first: PageId
    var last: PageId
    ghost var chain: seq<PageId>
    ghost var book: Book
    ghost var synced: bool

    ghost function State(): Table
      reads this
    {
      Table(schema, meta, pages, count, first, last, chain, book, synced)
    }

    ghost predicate Valid()
      reads this
    {
      TableOk(State())
    }

    /** The table: an append-only list of rows with live flags. */
    ghost function Contents(): seq<Item>
      requires Valid()
      reads this
    {
      All(State())
    }

    /** Creates the metadata page of an empty table in a store that has room for it. */
    constructor (schema: Schema, pages: map<PageId, Bytes>, count: nat)
      requires (forall p :: p in pages ==> p < count && |pages[p]| == PAYLOAD_SIZE) && count < CATALOG_BITS
      requires forall p: PageId {:trigger Sound(pages, p)} :: Sound(pages, p)
      ensures State() == NewTable(schema, pages, count)
      ensures Valid() && Contents() == []
    {
      this.schema, this.meta := schema, count;
      this.pages := pages[count := MetaPage()];
      this.count, first, last, chain, book, synced := count + 1, INVALID, INVALID, [], map[], true;
      new;
      NewTableOk(schema, pages, count);
      assert State() == NewTable(schema, pages, count);
    }

    /** Allocates and initializes a data page; false stands for an exception, which may leave the page unused. */
    method NewPage(pins: Pins) returns (ok: bool, id: PageId)
      requires Valid()
      modifies this`pages, this`count
      ensures Valid() && Contents() == old(Contents()) && (ok <==> old(count) < CATALOG_BITS && pins.added)
        && id == old(count)
      ensures count == if old(count) < CATALOG_BITS then old(count) + 1 else old(count)
      ensures ok ==> pages == old(pages)[id := EmptyPage()] && id !in chain && id != meta
    {
      id := count;
      if count >= CATALOG_BITS { return false, id; }
      ghost var t := State();
      ChainInStore(t);
      var page := Zeros(PAYLOAD_SIZE);
      if pins.added { page := EmptyPage(); }
      SpareSound(pages, id, pins.added);
      count, pages := count + 1, pages[id := page];
      SparePage(t, State(), id);
      ok := pins.added;
    }

    /** Links the new page behind the last one and records the new ends; false stands for an exception. */
    method LinkPage(id: PageId, pins: Pins) returns (ok: bool)
      requires Valid() && id in pages && pages[id] == EmptyPage() && id + 1 == count && id !in chain && id != meta
      modifies this
      ensures Valid() && Contents() == old(Contents()) && count == old(count)
      ensures ok <==> (old(last) == INVALID || pins.link) && pins.meta
      ensures if old(last) == INVALID || pins.link then chain == old(chain) + [id] && last == id && synced == pins.meta
        else State() == old(State())
      ensures ok ==> id in pages && pages[id] == EmptyPage() && book == old(book)[id := []]
    {
      ghost var t := State();
      ChainInStore(t);
      if last != INVALID && !pins.link { return false; }
      assert chain != [] ==> Linked(pages, chain, book, |chain| - 1);
      pages := LinkedPages(pages, meta, first, last, id, pins.meta);
      first, last := if last == INVALID then id else first, id;
      chain, book, synced := chain + [id], book[id := []], pins.meta;
      AddPageKeeps(t, State(), id);
      ok := pins.meta;
    }

    /** There is no page yet, or the last one cannot be pinned, or its rows leave no room for the new one. */
    ghost predicate NeedsPage(b: Bytes, pins: Pins)
      reads this
    {
      chain == [] || !pins.last || !Takes(book, last, b)
    }

    /** A new page can be linked into the chain. */
    ghost predicate CanLink(pins: Pins)
      reads this
    {
      count < CATALOG_BITS && pins.added && (last == INVALID || pins.link)
    }

    /** A new page can be had: the catalog has one, and everything on the way can be pinned. */
    ghost predicate CanAddPage(pins: Pins)
      reads this
    {
      CanLink(pins) && pins.meta && pins.again
    }

    /** Adds an empty data page to the table; false stands for an exception. */
    method AddPage(pins: Pins) returns (ok: bool)
      requires Valid()
      modifies this
      ensures Valid() && Contents() == old(Contents()) && (ok <==> old(CanAddPage(pins)))
      ensures ok ==>
        last == old(count) && last in pages && pages[last] == EmptyPage() && book == old(book)[last := []]
      ensures if old(CanLink(pins)) then chain == old(chain) + [last] && synced == pins.meta
        else chain == old(chain) && synced == old(synced)
      ensures count <= old(count) + 1
    {
      var id;
      ok, id := NewPage(pins);
      if !ok { return; }
      ChainInStore(State());
      ok := LinkPage(id, pins);
      ok := ok && pins.again;
    }

    /**
     * The tuple goes behind all others, on the last page or on a new one. An exception loses no row, but may leave an
     * unused page, or a new page that the metadata does not name yet.
     */
    method Insert(values: seq<Value>, pins: Pins) returns (r: Inserted)
      requires Valid()
      modifies this
      ensures Valid() && count <= old(count) + 1
      ensures r == TooLarge <==>
        Validates(schema, values) && |Serialize(values)| + PAGE_HEADER + SLOT_SIZE > PAYLOAD_SIZE
      ensures r == InsertThrew <==> (!Validates(schema, values)
        || (|Serialize(values)| + PAGE_HEADER + SLOT_SIZE <= PAYLOAD_SIZE && old(NeedsPage(Serialize(values), pins))
        && !old(CanAddPage(pins))))
      ensures !r.Stored? ==> Contents() == old(Contents())
      ensures r.Stored? ==>
        Validates(schema, values) && Contents() == old(Contents()) + [Item(r.rid, Row(true, Serialize(values)))]
      ensures r.Stored? ==> forall i :: 0 <= i < |old(Contents())| ==> old(Contents())[i].rid != r.rid
      ensures r.Stored? ==> Deserialize(schema, Serialize(values)) == Some(values)
      ensures r.Stored? ==> if old(NeedsPage(Serialize(values), pins))
        then r.rid == RecordId(old(count), 0) && chain == old(chain) + [old(count)]
        else chain == old(chain) && old(last) in old(book) && r.rid == RecordId(old(last), |old(book)[old(last)]|)
      ensures Validates(schema, values) && r != TooLarge ==>
        synced == if old(NeedsPage(Serialize(values), pins) && CanLink(pins)) then pins.meta else old(synced)
    {
      var bytes := SerializeTuple(schema, values);
      if bytes.None? { return InsertThrew; }
      var b := bytes.value;
      if |b| + PAGE_HEADER + SLOT_SIZE > PAYLOAD_SIZE { return TooLarge; }
      FittingRoundTrip(schema, values);
      var ok := MakeRoom(b, pins);
      if !ok { return InsertThrew; }
      var rid := AppendRow(b);
      r := Stored(rid);
    }

    /** Adds a page if the last one cannot take the row; false stands for an exception. */
    method MakeRoom(b: Bytes, pins: Pins) returns (ok: bool)
      requires Valid() && |b| + PAGE_HEADER + SLOT_SIZE <= PAYLOAD_SIZE
      modifies this
      ensures Valid() && Contents() == old(Contents()) && count <= old(count) + 1
      ensures ok <==> !old(NeedsPage(b, pins)) || old(CanAddPage(pins))
      ensures ok ==> if old(NeedsPage(b, pins))
        then chain == old(chain) + [old(count)] && last == old(count) && book == old(book)[last := []]
        else State() == old(State())
      ensures ok ==> chain != [] && last in pages && |pages[last]| == PAYLOAD_SIZE && HasRoom(pages[last], b)
      ensures synced == if old(NeedsPage(b, pins) && CanLink(pins)) then pins.meta else old(synced)
    {
      LastPage(State());
      if chain != [] { LastTakes(State(), b); }
      if last == INVALID || !pins.last || !HasRoom(pages[last], b) {
        ok := AddPage(pins);
        if ok { EmptyHasRoom(b); }
        return;
      }
      ok := true;
    }

    /** Writes the row into the last page, which has room for it. */
    method AppendRow(b: Bytes) returns (rid: RecordId)
      requires Valid() && chain != [] && Deserialize(schema, b).Some? && last in pages && |pages[last]| == PAYLOAD_SIZE
        && HasRoom(pages[last], b)
      modifies this`pages, this`book
      ensures Valid() && Contents() == old(Contents()) + [Item(rid, Row(true, b))]
      ensures last in old(book) && rid == RecordId(last, |old(book)[last]|)
      ensures forall i :: 0 <= i < |old(Contents())| ==> old(Contents())[i].rid != rid
    {
      ghost var t := State();
      LastPage(t);
      rid := RecordId(last, Slots(pages[last]));
      var page := PageWithRow(pages[last], b);
      pages, book := pages[last := page], book[last := book[last] + [Row(true, b)]];
      AddRowKeeps(t, State(), b);
      AddRowFresh(t, State(), b);
    }

    /**
     * Clears the flag of a live slot, whoever's page it is on. A page that is not allocated stands for an exception.
     */
    method EraseRecord(rid: RecordId) returns (r: Answer<bool>)
      requires Valid()
      modifies this`pages, this`book
      ensures Valid() && (r == Threw <==> rid.page != INVALID && rid.page !in old(pages))
        && (r == Answer(true) <==> LiveSlot(old(pages), rid))
      ensures pages == if LiveSlot(old(pages), rid)
        then old(pages)[rid.page := ClearFlag(old(pages)[rid.page], rid.slot)] else old(pages)
      ensures Contents() == if r == Answer(true) && rid.page in chain then Cleared(old(Contents()), rid)
        else old(Contents())
    {
      ghost var t := State();
      if rid.page == INVALID { return Answer(false); }
      if rid.page !in pages { return Threw; }
      var d := pages[rid.page];
      if d[..6] != DATA_MAGIC || rid.slot >= Slots(d) { return Answer(false); }
      assert Sound(pages, rid.page);
      SlotBounds(d, rid.slot);
      if Flag(d, rid.slot) == 0 { return Answer(false); }
      pages := pages[rid.page := ClearFlag(d, rid.slot)];
      if rid.page in book && rid.slot < |book[rid.page]| {
        book := book[rid.page := book[rid.page][rid.slot := Row(false, book[rid.page][rid.slot].bytes)]];
      }
      MetaIsNoDataPage(t);
      EraseKeeps(t, State(), rid);
      r := Answer(true);
    }

    /** The tuple in a live slot, whoever's page it is on. A page that is not allocated stands for an exception. */
    method GetRecord(rid: RecordId) returns (r: Answer<Option<seq<Value>>>)
      requires Valid()
      ensures r == Threw <==> rid.page != INVALID && rid.page !in pages
      ensures r.Answer? ==> r.value == if LiveSlot(pages, rid) then Deserialize(schema, BytesIn(pages, rid)) else None
    {
      if rid.page == INVALID { return Answer(None); }
      if rid.page !in pages { return Threw; }
      var d := pages[rid.page];
      if d[..6] != DATA_MAGIC || rid.slot >= Slots(d) { return Answer(None); }
      assert Sound(pages, rid.page);
      SlotBounds(d, rid.slot);
      var offset, length := Offset(d, rid.slot), Length(d, rid.slot);
      if Flag(d, rid.slot) == 0 || offset + length > PAYLOAD_SIZE { return Answer(None); }
      var out := DeserializeTuple(schema, d[offset..offset + length]);
      r := Answer(out);
    }

    /**
     * Erasing succeeds exactly on live slots of data pages, and clears exactly that flag. It agrees with the table's
     * list exactly when the page is the table's own, or is no data page with that slot live.
     */
    method Erase(rid: RecordId) returns (r: Answer<bool>)
      requires Valid()
      modifies this`pages, this`book
      ensures Valid() && (r == Threw <==> rid.page != INVALID && rid.page !in old(pages))
        && (r == Answer(true) <==> LiveSlot(old(pages), rid))
      ensures pages == if LiveSlot(old(pages), rid)
        then old(pages)[rid.page := ClearFlag(old(pages)[rid.page], rid.slot)] else old(pages)
      ensures Contents() == if LiveIn(old(Contents()), rid) then Cleared(old(Contents()), rid) else old(Contents())
      ensures (r == Answer(true) <==> LiveIn(old(Contents()), rid)) <==> rid.page in chain || !LiveSlot(old(pages), rid)
    {
      ListedLive(State(), rid);
      if rid.page in chain && !LiveIn(Contents(), rid) { ClearedDead(Contents(), rid); }
      r := EraseRecord(rid);
    }

    /**
     * Getting a record returns the tuple in a live slot of a data page. It agrees with the table's list exactly when
     * the page is the table's own, or is no data page with that slot live, or its bytes do not decode under this
     * schema.
     */
    method Get(rid: RecordId) returns (r: Answer<Option<seq<Value>>>)
      requires Valid()
      ensures r == Threw <==> rid.page != INVALID && rid.page !in pages
      ensures r.Answer? ==> r.value == if LiveSlot(pages, rid) then Deserialize(schema, BytesIn(pages, rid)) else None
      ensures r.Answer? ==>
        (r.value == Listed(schema, Contents(), rid) <==>
          rid.page in chain || !LiveSlot(pages, rid) || Deserialize(schema, BytesIn(pages, rid)).None?)
    {
      ListedLive(State(), rid);
      r := GetRecord(rid);
    }

    /** Follows the chain and returns the live tuples in insertion order. No exception is possible. */
    method Scan() returns (out: seq<(RecordId, seq<Value>)>)
      requires Valid()
      ensures out == LiveTuples(schema, Contents())
    {
      out := ScanFrom(schema, first, pages, State());
    }
  }

  /** A table with one record, in a store of its own. */
  method OneRecord(schema: Schema, values: seq<Value>) returns (a: TableHeap, rid: RecordId)
    requires Validates(schema, values) && |Serialize(values)| + PAGE_HEADER + SLOT_SIZE <= PAYLOAD_SIZE
    ensures fresh(a) && a.Valid() && LiveIn(a.Contents(), rid) && a.count < CATALOG_BITS
    ensures Listed(schema, a.Contents(), rid) == Some(values)
  {
    a := new TableHeap(schema, map[], 0);
    var r := a.Insert(values, Pins(true, true, true, true, true));
    rid := r.rid;
    assert a.Contents()[0] == Item(rid, Row(true, Serialize(values)));
    ListedLive(a.State(), rid);
  }

  /**
   * Two tables in one store: any live record of the first is returned and erased through a new one, whose list is
   * empty. The new table's store is a copy of the first one's, as of the moment it is created.
   */
  method ForeignRecord(a: TableHeap, rid: RecordId)
      returns (b: TableHeap, got: Answer<Option<seq<Value>>>, erased: Answer<bool>)
    requires a.Valid() && LiveIn(a.Contents(), rid) && a.count < CATALOG_BITS
    ensures b.Valid() && b.Contents() == [] && LiveSlot(a.pages, rid) && !LiveSlot(b.pages, rid)
    ensures got == Answer(Listed(a.schema, a.Contents(), rid)) && got.value.Some? && erased == Answer(true)
  {
    BesideTable(a.State(), rid);
    b := new TableHeap(a.schema, a.pages, a.count);
    got, erased := GetThenErase(b, rid);
  }

  /** Reading and erasing a live slot of a page that is not the table's. */
  method GetThenErase(b: TableHeap, rid: RecordId) returns (got: Answer<Option<seq<Value>>>, erased: Answer<bool>)
    requires b.Valid() && LiveSlot(b.pages, rid) && rid.page !in b.chain
    modifies b`pages, b`book
    ensures b.Valid() && b.Contents() == old(b.Contents()) && !LiveSlot(b.pages, rid) && erased == Answer(true)
    ensures got == Answer(Deserialize(b.schema, BytesIn(old(b.pages), rid)))
  {
    got := b.Get(rid);
    assert Sound(b.pages, rid.page);
    ClearedFlag(b.pages[rid.page], rid.slot, rid.slot);
    ListedLive(b.State(), rid);
    erased := b.Erase(rid);
  }

  /** The loop over the chain. */
  method ScanFrom(schema: Schema, first: PageId, pages: map<PageId, Bytes>, ghost t: Table)
      returns (out: seq<(RecordId, seq<Value>)>)
    requires TableOk(t) && schema == t.schema && first == t.first && pages == t.pages
    ensures out == LiveTuples(schema, All(t))
  {
    out := [];
    var id := first;
    ghost var k := 0;
    ChainNumbered(t);
    while id != INVALID
      invariant k <= |t.chain| && id == (if k < |t.chain| then t.chain[k] else INVALID)
      invariant out == LiveTuples(schema, Listing(t.book, t.chain, k))
      decreases |t.chain| - k
    {
      var rows, next := ScanNext(schema, id, pages, t, k);
      out, id, k := out + rows, next, k + 1;
    }
  }

  lemma ChainNumbered(t: Table)
    requires TableOk(t)
    ensures t.first == (if t.chain == [] then INVALID else t.chain[0]) && forall k :: 0 <= k < |t.chain| ==>
      t.chain[k] != INVALID
  {
    ChainInStore(t);
  }

  /** The live tuples of page k of the chain, and the page behind it. */
  method ScanNext(schema: Schema, id: PageId, pages: map<PageId, Bytes>, ghost t: Table, ghost k: nat)
    returns (rows: seq<(RecordId, seq<Value>)>, next: PageId)
    requires TableOk(t) && schema == t.schema && pages == t.pages && k < |t.chain| && id == t.chain[k]
    ensures next == (if k + 1 < |t.chain| then t.chain[k + 1] else INVALID)
    ensures LiveTuples(schema, Listing(t.book, t.chain, k + 1)) ==
      LiveTuples(schema, Listing(t.book, t.chain, k)) + rows
  {
    ScanStep(t, k);
    rows := ScanPage(schema, id, pages[id], t.book[id]);
    next := NextPage(pages[id]);
  }

  /** The next page of the chain and what it adds to the list. */
  lemma ScanStep(t: Table, k: nat)
    requires TableOk(t) && k < |t.chain|
    ensures var id := t.chain[k];
      && id in t.pages && PageOk(t.pages[id]) && id in t.book && Rows(t.pages[id]) == t.book[id]
      && NextPage(t.pages[id]) == (if k + 1 < |t.chain| then t.chain[k + 1] else INVALID)
      && (forall i :: 0 <= i < |t.book[id]| && t.book[id][i].live ==> Deserialize(t.schema, t.book[id][i].bytes).Some?)
      && LiveTuples(t.schema, Listing(t.book, t.chain, k + 1)) ==
      LiveTuples(t.schema, Listing(t.book, t.chain, k)) + LiveTuples(t.schema, PageItems(t.book, id))
  {
    assert Linked(t.pages, t.chain, t.book, k) && Decodable(t.schema, t.book, t.chain[k]);
    LiveConcat(t.schema, Listing(t.book, t.chain, k), PageItems(t.book, t.chain[k]));
  }

  /** The tuple in a slot, unless it was erased. */
  method ReadSlot(schema: Schema, d: Bytes, i: nat, ghost rows: seq<Row>) returns (v: Option<seq<Value>>)
    requires PageOk(d) && rows == Rows(d) && i < Slots(d)
    ensures v == if rows[i].live then Deserialize(schema, rows[i].bytes) else None
  {
    SlotBounds(d, i);
    RowsAt(d, Slots(d), i);
    if Flag(d, i) == 0 { return None; }
    v := DeserializeTuple(schema, d[Offset(d, i)..Offset(d, i) + Length(d, i)]);
  }

  /** The live tuples of one page. */
  method ScanPage(schema: Schema, id: PageId, d: Bytes, ghost rows: seq<Row>) returns (out: seq<(RecordId, seq<Value>)>)
    requires PageOk(d) && rows == Rows(d) && forall i :: 0 <= i < |rows| && rows[i].live ==>
      Deserialize(schema, rows[i].bytes).Some?
    ensures out == LiveTuples(schema, Tagged(id, rows, |rows|))
  {
    out := [];
    for i := 0 to Slots(d)
      invariant out == LiveTuples(schema, Tagged(id, rows, i))
    {
      LiveStep(schema, id, rows, i);
      var v := ReadSlot(schema, d, i, rows);
      if v.Some? { out := out + [(RecordId(id, i), v.value)]; }
    }
  }

  lemma LiveStep(schema: Schema, id: PageId, rows: seq<Row>, i: nat)
    requires i < |rows| && (rows[i].live ==> Deserialize(schema, rows[i].bytes).Some?)
    ensures LiveTuples(schema, Tagged(id, rows, i + 1)) ==
      LiveTuples(schema, Tagged(id, rows, i))
        + (if rows[i].live then [(RecordId(id, i), Deserialize(schema, rows[i].bytes).value)] else [])
  {
    var items := Tagged(id, rows, i + 1);
    assert items[..|items| - 1] == Tagged(id, rows, i);
  }

  /** The row of a record of the chain. */
  ghost function RowOf(t: Table, rid: RecordId): Option<Row> {
    if rid.page in t.chain && rid.page in t.book && rid.slot < |t.book[rid.page]| then Some(t.book[rid.page][rid.slot])
      else None
  }

  /** A slot of a data page, of any table, whose flag is set. */
  predicate LiveSlot(pages: map<PageId, Bytes>, rid: RecordId) {
    && rid.page != INVALID && rid.page in pages && |pages[rid.page]| == PAYLOAD_SIZE
    && pages[rid.page][..6] == DATA_MAGIC
    && rid.slot < Slots(pages[rid.page]) && SlotAt(rid.slot + 1) <= PAYLOAD_SIZE && Flag(pages[rid.page], rid.slot) != 0
  }

  /** The bytes that the slot points to. */
  function BytesIn(pages: map<PageId, Bytes>, rid: RecordId): Bytes
    requires LiveSlot(pages, rid)
  {
    var d := pages[rid.page];
    if Offset(d, rid.slot) + Length(d, rid.slot) <= PAYLOAD_SIZE
      then d[Offset(d, rid.slot)..Offset(d, rid.slot) + Length(d, rid.slot)] else []
  }

  lemma SameSlot(pages: map<PageId, Bytes>, more: map<PageId, Bytes>, rid: RecordId)
    requires LiveSlot(pages, rid) && rid.page in more && more[rid.page] == pages[rid.page]
    ensures LiveSlot(more, rid) && BytesIn(more, rid) == BytesIn(pages, rid)
  {
  }

  /** A live record's slot is as live for a new table in the same store. */
  lemma BesideTable(t: Table, rid: RecordId)
    requires TableOk(t) && LiveIn(All(t), rid)
    ensures var more := NewTable(t.schema, t.pages, t.count).pages;
      LiveSlot(t.pages, rid) && LiveSlot(more, rid)
        && Listed(t.schema, All(t), rid) == Deserialize(t.schema, BytesIn(more, rid))
    ensures Listed(t.schema, All(t), rid).Some?
  {
    ListedLive(t, rid);
    SameSlot(t.pages, NewTable(t.schema, t.pages, t.count).pages, rid);
  }

  /** The list has a live row under this record id. */
  ghost predicate LiveIn(items: seq<Item>, rid: RecordId) {
    exists i :: 0 <= i < |items| && items[i].rid == rid && items[i].row.live
  }

  /** What the list says about a record: the tuple of its live row, or nothing. */
  ghost function Listed(schema: Schema, items: seq<Item>, rid: RecordId): Option<seq<Value>> {
    if LiveIn(items, rid) then
      var i :| 0 <= i < |items| && items[i].rid == rid && items[i].row.live;
      Deserialize(schema, items[i].row.bytes)
    else None
  }

  /**
   * A record is live in the list exactly when its slot is live and on a page of the chain, and then with the same
   * bytes.
   */
  lemma ListedLive(t: Table, rid: RecordId)
    requires TableOk(t)
    ensures LiveIn(All(t), rid) <==> rid.page in t.chain && LiveSlot(t.pages, rid)
    ensures LiveIn(All(t), rid) ==>
      forall i :: 0 <= i < |All(t)| && All(t)[i].rid == rid ==> All(t)[i].row.bytes == BytesIn(t.pages, rid)
    ensures LiveIn(All(t), rid) ==>
      Listed(t.schema, All(t), rid) == Deserialize(t.schema, BytesIn(t.pages, rid))
      && Deserialize(t.schema, BytesIn(t.pages, rid)).Some?
  {
    ListedIff(t, rid);
    if rid.page in t.chain {
      PageRow(t, rid);
      if RowOf(t, rid).Some? {
        assert Decodable(t.schema, t.book, rid.page);
        var i :| 0 <= i < |All(t)| && All(t)[i] == Item(rid, RowOf(t, rid).value);
      }
    }
  }

  /** Clearing a row that is not live changes nothing. */
  lemma ClearedDead(items: seq<Item>, rid: RecordId)
    requires !LiveIn(items, rid)
    ensures Cleared(items, rid) == items
  {
  }

  /** The list holds exactly the rows of the records of the chain. */
  lemma ListedIff(t: Table, rid: RecordId)
    requires ChainOk(t.book, t.chain)
    ensures forall i :: 0 <= i < |All(t)| && All(t)[i].rid == rid ==> RowOf(t, rid) == Some(All(t)[i].row)
    ensures RowOf(t, rid).Some? ==> exists i :: 0 <= i < |All(t)| && All(t)[i] == Item(rid, RowOf(t, rid).value)
  {
    forall i | 0 <= i < |All(t)| && All(t)[i].rid == rid ensures RowOf(t, rid) == Some(All(t)[i].row) {
      var k := ListedOnChain(t.book, t.chain, |t.chain|, i);
    }
    if RowOf(t, rid).Some? {
      var k: nat :| k < |t.chain| && t.chain[k] == rid.page;
      var j := ChainListed(t.book, t.chain, |t.chain|, k, rid.slot);
      assert All(t)[j] == Item(rid, RowOf(t, rid).value);
    }
  }

  /** What the bytes of a chain page say about a record. */
  lemma PageRow(t: Table, rid: RecordId)
    requires TableOk(t) && rid.page in t.chain
    ensures rid.page in t.pages && PageOk(t.pages[rid.page]) && rid.page != INVALID
    ensures RowOf(t, rid).Some? <==> rid.slot < Slots(t.pages[rid.page])
    ensures RowOf(t, rid).Some? ==> var d := t.pages[rid.page];
      SlotAt(rid.slot + 1) <= PAYLOAD_SIZE && Offset(d, rid.slot) + Length(d, rid.slot) <= PAYLOAD_SIZE
        && RowOf(t, rid).value == RowAt(d, rid.slot)
  {
    ChainInStore(t);
    var k: nat :| k < |t.chain| && t.chain[k] == rid.page;
    assert Linked(t.pages, t.chain, t.book, k);
    if rid.slot < Slots(t.pages[rid.page]) { RowsAt(t.pages[rid.page], Slots(t.pages[rid.page]), rid.slot); }
  }

  /** A zeroed page is no data page, and an empty one is sound. */
  lemma SpareSound(pages: map<PageId, Bytes>, id: PageId, empty: bool)
    ensures var page := if empty then EmptyPage() else Zeros(PAYLOAD_SIZE);
      |page| == PAYLOAD_SIZE && Sound(pages[id := page], id)
  {
    EmptyRows();
    assert Zeros(PAYLOAD_SIZE)[..6][0] == 0;
  }

  lemma MetaIsNoDataPage(t: Table)
    requires TableOk(t)
    ensures t.pages[t.meta][..6] != DATA_MAGIC
  {
    assert META_MAGIC[3] != DATA_MAGIC[3];
  }

  /** The pinned page's buffer after the insertion. */
  method PageWithRow(page: Bytes, b: Bytes) returns (r: Bytes)
    requires |page| == PAYLOAD_SIZE && HasRoom(page, b) && TuplesStart(page) <= PAYLOAD_SIZE
    ensures r == PutRow(page, b)
  {
    var buffer := new Byte[PAYLOAD_SIZE](i requires 0 <= i < |page| => page[i]);
    assert buffer[..] == page;
    InsertRow(buffer, b);
    r := buffer[..];
  }

  /** The new record id is none of the old ones. */
  lemma AddRowFresh(t: Table, u: Table, b: Bytes)
    requires TableOk(t) && t.chain != [] && AddsRow(t, u, b) && Deserialize(t.schema, b).Some?
    ensures forall i :: 0 <= i < |All(t)| ==> All(t)[i].rid != RecordId(t.last, |t.book[t.last]|)
  {
    AddRowKeeps(t, u, b);
    ListingDistinct(u.book, u.chain, |u.chain|);
    forall i | 0 <= i < |All(t)| ensures All(t)[i].rid != RecordId(t.last, |t.book[t.last]|) {
      assert All(u)[i] == All(t)[i] && All(u)[|All(t)|].rid == RecordId(t.last, |t.book[t.last]|);
    }
  }

  lemma LastPage(t: Table)
    requires TableOk(t)
    ensures t.last != INVALID <==> t.chain != []
    ensures t.chain != [] ==>
      t.last in t.pages && t.last in t.book && PageOk(t.pages[t.last]) && |t.book[t.last]| == Slots(t.pages[t.last])
  {
    ChainInStore(t);
    if t.chain != [] { assert Linked(t.pages, t.chain, t.book, |t.chain| - 1); }
  }

  lemma EmptyHasRoom(b: Bytes)
    requires |b| + PAGE_HEADER + SLOT_SIZE <= PAYLOAD_SIZE
    ensures HasRoom(EmptyPage(), b)
  {
    EmptyRows();
  }

  /** A metadata page whose table has no data pages. */
  function MetaPage(): (r: Bytes)
    ensures |r| == PAYLOAD_SIZE
  {
    PutEnds(Write(Zeros(PAYLOAD_SIZE), 0, META_MAGIC), INVALID, INVALID)
  }

  lemma MetaRead()
    ensures MetaOk(MetaPage(), INVALID, INVALID)
  {
    var d := Write(Zeros(PAYLOAD_SIZE), 0, META_MAGIC);
    WriteHere(Zeros(PAYLOAD_SIZE), 0, META_MAGIC);
    EndsRead(d, INVALID, INVALID);
  }
}
