/** The rows of a table in the order of its page chain. */
module HeapListing {
  import opened StorageTypes
  import opened SlottedPage
  import opened TupleCodec

  datatype Item = Item(rid: RecordId, row: Row)

  /** The rows of each data page. */
  type Book = map<PageId, seq<Row>>

  /** The first n rows with their record ids. */
  function Tagged(p: PageId, rows: seq<Row>, n: nat): (items: seq<Item>)
    requires n <= |rows|
    ensures |items| == n
    ensures forall i :: 0 <= i < n ==> items[i] == Item(RecordId(p, i), rows[i])
  {
    if n == 0 then [] else Tagged(p, rows, n - 1) + [Item(RecordId(p, n - 1), rows[n - 1])]
  }

  ghost predicate ChainOk(book: Book, chain: seq<PageId>) {
    forall k :: 0 <= k < |chain| ==> chain[k] in book
  }

  ghost function PageItems(book: Book, p: PageId): seq<Item>
    requires p in book
  {
    Tagged(p, book[p], |book[p]|)
  }

  /** The rows on the first n pages of the chain. */
  ghost function Listing(book: Book, chain: seq<PageId>, n: nat): seq<Item>
    requires n <= |chain| && ChainOk(book, chain)
  {
    if n == 0 then [] else Listing(book, chain, n - 1) + PageItems(book, chain[n - 1])
  }

  ghost predicate Distinct(chain: seq<PageId>) {
    forall i, j :: 0 <= i < j < |chain| ==> chain[i] != chain[j]
  }

  /** Pages that stay, stay listed. */
  lemma {:induction false} ListingStays(book: Book, more: Book, chain: seq<PageId>, longer: seq<PageId>, n: nat)
    requires n <= |chain| && n <= |longer| && ChainOk(book, chain) && ChainOk(more, longer)
    requires forall k :: 0 <= k < n ==> longer[k] == chain[k] && more[chain[k]] == book[chain[k]]
    ensures Listing(more, longer, n) == Listing(book, chain, n)
  {
    if n > 0 { ListingStays(book, more, chain, longer, n - 1); }
  }

  lemma {:induction false} ListedOnChain(book: Book, chain: seq<PageId>, n: nat, j: nat) returns (k: nat)
    requires n <= |chain| && ChainOk(book, chain) && j < |Listing(book, chain, n)|
    ensures k < n && var it := Listing(book, chain, n)[j];
      it.rid.page == chain[k] && it.rid.slot < |book[chain[k]]| && it.row == book[chain[k]][it.rid.slot]
  {
    if j < |Listing(book, chain, n - 1)| {
      k := ListedOnChain(book, chain, n - 1, j);
    } else {
      k := n - 1;
    }
  }

  /** Every row of every page of the chain is listed. */
  lemma {:induction false} ChainListed(book: Book, chain: seq<PageId>, n: nat, k: nat, i: nat) returns (j: nat)
    requires k < n <= |chain| && ChainOk(book, chain) && i < |book[chain[k]]|
    ensures j < |Listing(book, chain, n)|
      && Listing(book, chain, n)[j] == Item(RecordId(chain[k], i), book[chain[k]][i])
  {
    if k == n - 1 {
      j := |Listing(book, chain, n - 1)| + i;
    } else {
      j := ChainListed(book, chain, n - 1, k, i);
    }
  }

  /** No record id is listed twice. */
  ghost predicate DistinctIds(items: seq<Item>) {
    forall i, j :: 0 <= i < j < |items| ==> items[i].rid != items[j].rid
  }

  lemma {:induction false} ListingDistinct(book: Book, chain: seq<PageId>, n: nat)
    requires n <= |chain| && ChainOk(book, chain) && Distinct(chain)
    ensures DistinctIds(Listing(book, chain, n))
  {
    if n > 0 {
      ListingDistinct(book, chain, n - 1);
      var front := Listing(book, chain, n - 1);
      forall i | 0 <= i < |front| ensures front[i].rid.page != chain[n - 1] {
        var k := ListedOnChain(book, chain, n - 1, i);
      }
    }
  }

  // ---- Erasing ------------------------------------------------------------------------

  function ClearedItem(it: Item, rid: RecordId): Item {
    if it.rid == rid then Item(rid, Row(false, it.row.bytes)) else it
  }

  /** The list with the live flag of one record cleared. */
  function Cleared(items: seq<Item>, rid: RecordId): (r: seq<Item>)
    ensures |r| == |items| && forall i :: 0 <= i < |items| ==> r[i] == ClearedItem(items[i], rid)
  {
    if items == [] then [] else Cleared(items[..|items| - 1], rid) + [ClearedItem(items[|items| - 1], rid)]
  }

  lemma ClearedPage(book: Book, more: Book, p: PageId, rid: RecordId)
    requires p in book && p in more
    requires if p != rid.page then more[p] == book[p]
             else rid.slot < |book[p]| && more[p] == book[p][rid.slot := Row(false, book[p][rid.slot].bytes)]
    ensures PageItems(more, p) == Cleared(PageItems(book, p), rid)
  {
  }

  lemma ClearedConcat(a: seq<Item>, b: seq<Item>, rid: RecordId)
    ensures Cleared(a + b, rid) == Cleared(a, rid) + Cleared(b, rid)
  {
  }

  lemma {:induction false} ClearedListing(book: Book, more: Book, chain: seq<PageId>, n: nat, rid: RecordId)
    requires n <= |chain| && ChainOk(book, chain) && ChainOk(more, chain)
    requires forall p :: p in chain && p != rid.page ==> more[p] == book[p]
    requires rid.page in chain ==> rid.slot < |book[rid.page]|
    requires rid.page in chain ==>
      more[rid.page] == book[rid.page][rid.slot := Row(false, book[rid.page][rid.slot].bytes)]
    ensures Listing(more, chain, n) == Cleared(Listing(book, chain, n), rid)
  {
    if n > 0 {
      ClearedListing(book, more, chain, n - 1, rid);
      ClearedPage(book, more, chain[n - 1], rid);
      ClearedConcat(Listing(book, chain, n - 1), PageItems(book, chain[n - 1]), rid);
    }
  }

  // ---- Scanning -----------------------------------------------------------------------

  /** The live rows, decoded. */
  function LiveTuples(schema: Schema, items: seq<Item>): seq<(RecordId, seq<Value>)> {
    if items == [] then []
    else
      var it := items[|items| - 1];
      var front := LiveTuples(schema, items[..|items| - 1]);
      if it.row.live && Deserialize(schema, it.row.bytes).Some?
        then front + [(it.rid, Deserialize(schema, it.row.bytes).value)] else front
  }

  lemma {:induction false} LiveConcat(schema: Schema, a: seq<Item>, b: seq<Item>)
    ensures LiveTuples(schema, a + b) == LiveTuples(schema, a) + LiveTuples(schema, b)
  {
    if b == [] {
      assert a + b == a;
    } else {
      LiveConcat(schema, a, b[..|b| - 1]);
      assert (a + b)[..|a + b| - 1] == a + b[..|b| - 1];
    }
  }

  ghost predicate Shown(schema: Schema, it: Item) {
    it.row.live && Deserialize(schema, it.row.bytes).Some?
  }

  /** How many of the first n rows are shown. */
  ghost function Rank(schema: Schema, items: seq<Item>, n: nat): nat
    requires n <= |items|
  {
    if n == 0 then 0 else Rank(schema, items, n - 1) + if Shown(schema, items[n - 1]) then 1 else 0
  }

  lemma {:induction false} RankOfPrefix(schema: Schema, items: seq<Item>, k: nat, n: nat)
    requires n <= k <= |items|
    ensures Rank(schema, items[..k], n) == Rank(schema, items, n)
  {
    if n > 0 { RankOfPrefix(schema, items, k, n - 1); }
  }

  /** A scan yields each shown row, with its record id, behind exactly the shown rows before it, and nothing else. */
  lemma {:induction false} ShownInOrder(schema: Schema, items: seq<Item>, i: nat)
    requires i < |items|
    ensures |LiveTuples(schema, items)| == Rank(schema, items, |items|)
    ensures Shown(schema, items[i]) ==>
      && Rank(schema, items, i) < |LiveTuples(schema, items)|
      && LiveTuples(schema, items)[Rank(schema, items, i)] ==
           (items[i].rid, Deserialize(schema, items[i].row.bytes).value)
  {
    var n := |items| - 1;
    var front := items[..n];
    RankOfPrefix(schema, items, n, n);
    RankOfPrefix(schema, items, n, if i < n then i else n);
    if n > 0 { ShownInOrder(schema, front, if i < n then i else 0); }
  }
}
