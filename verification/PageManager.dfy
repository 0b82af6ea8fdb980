/** The database file as far as its users can tell: physical pages and the catalog of logically allocated ones. */
module PageManagers {
  import opened StorageTypes

  function Zeros(n: nat): (z: Bytes)
    ensures |z| == n && forall i :: 0 <= i < n ==> z[i] == 0
  {
    seq(n, i => 0)
  }

  const NEW_PAGE := Page(Zeros(PAYLOAD_SIZE), 0)

  class PageManager {
    /** Pages 0 .. count - 1 exist physically; those in `live` exist logically. */
    var pages: map<PageId, Page>
    var count: nat
    var live: set<PageId>
    var liveCount: nat
    /** Pages on which the file system reports an error when they are read or written. */
    var faulty: set<PageId>

    ghost predicate Valid()
      reads this
    {
      && count <= CATALOG_BITS
      && (forall id: PageId :: id in pages <==> id < count)
      && live <= pages.Keys && liveCount == |live|
    }

    constructor ()
      ensures Valid() && count == 0 && pages == map[] && live == {} && faulty == {}
    {
      pages, count, live, liveCount, faulty := map[], 0, {}, 0, {};
    }

    predicate IsAllocated(id: PageId)
      reads this
    {
      id != INVALID && id < count && id in live
    }

    /** Appends a zeroed physical page and leaves it logically free. */
    method ReservePage() returns (r: Option<PageId>)
      requires Valid()
      modifies this`pages, this`count
      ensures Valid()
      ensures r.Some? <==> old(count) < CATALOG_BITS
      ensures r.Some? ==> r.value == old(count) && count == old(count) + 1 && pages == old(pages)[r.value := NEW_PAGE]
                          && !IsAllocated(r.value)
      ensures r.None? ==> pages == old(pages) && count == old(count)
    {
      if count >= CATALOG_BITS {
        return None;
      }
      pages := pages[count := NEW_PAGE];
      count := count + 1;
      return Some(count - 1);
    }

    /** Sets the allocation bit of a physical page that is logically free. */
    method ActivateReservedPage(id: PageId) returns (ok: bool)
      requires Valid()
      modifies this`live, this`liveCount
      ensures Valid()
      ensures ok <==> id < count && id !in old(live)
      ensures live == if ok then old(live) + {id} else old(live)
    {
      ok := id < count && id !in live;
      if ok {
        live := live + {id};
        liveCount := liveCount + 1;
      }
    }

    method AllocatePage() returns (r: Option<PageId>)
      requires Valid()
      modifies this`pages, this`count, this`live, this`liveCount
      ensures Valid() && faulty == old(faulty)
      ensures r.Some? <==> old(count) < CATALOG_BITS
      ensures r.Some? ==> r.value == old(count) && IsAllocated(r.value) && live == old(live) + {r.value}
      ensures r.Some? ==> count == old(count) + 1 && pages == old(pages)[r.value := NEW_PAGE]
      ensures r.None? ==> live == old(live) && pages == old(pages) && count == old(count)
    {
      r := ReservePage();
      if r.Some? {
        var ok := ActivateReservedPage(r.value);
      }
    }

    /** Clears the allocation bit; the bytes stay and the slot is never reused. */
    method DeallocatePage(id: PageId) returns (ok: bool)
      requires Valid()
      modifies this`live, this`liveCount
      ensures Valid()
      ensures ok <==> id in old(live)
      ensures live == old(live) - {id}
    {
      ok := id in live;
      if ok {
        live := live - {id};
        liveCount := liveCount - 1;
      }
    }

    method ReadPage(id: PageId) returns (r: Option<Page>)
      requires Valid()
      ensures r == if id in live && id !in faulty then Some(pages[id]) else None
    {
      if id in live && id !in faulty {
        return Some(pages[id]);
      }
      return None;
    }

    method WritePage(id: PageId, page: Page) returns (ok: bool)
      requires Valid()
      modifies this`pages
      ensures Valid()
      ensures ok <==> id in live && id !in faulty
      ensures pages == if ok then old(pages)[id := page] else old(pages)
    {
      ok := id in live && id !in faulty;
      if ok {
        pages := pages[id := page];
      }
    }
  }
}
