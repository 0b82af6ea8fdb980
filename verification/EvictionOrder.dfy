/** The order in which cached pages are evicted, in terms of pages and pins. */
module EvictionOrder {
  import opened StorageTypes
  import opened FrameTable
  import opened BufferPools

  /** The page is cached and nobody uses it. */
  ghost predicate Idle(s: Frames, p: PageId) {
    p in s.table && s.table[p] < |s.frames| && s.frames[s.table[p]].pin == 0
  }

  /** Page a is to be evicted before page b. */
  ghost predicate Earlier(s: Frames, a: PageId, b: PageId) {
    a in s.table && b in s.table && Ahead(s.lru, s.table[a], s.table[b])
  }

  lemma IdleListed(s: Frames, p: PageId)
    requires Core(s, NO_HOLE)
    ensures Idle(s, p) <==> p in s.table && s.table[p] in s.lru
  {
    assert EntryOk(s, p);
  }

  /** Of two idle pages, exactly one comes first. */
  lemma OneIsEarlier(s: Frames, a: PageId, b: PageId)
    requires Core(s, NO_HOLE) && Idle(s, a) && Idle(s, b) && a != b
    ensures Earlier(s, a, b) <==> !Earlier(s, b, a)
  {
    IdleListed(s, a);
    IdleListed(s, b);
    assert EntryOk(s, a) && EntryOk(s, b);
    var i :| 0 <= i < |s.lru| && s.lru[i] == s.table[a];
    var j :| 0 <= j < |s.lru| && s.lru[j] == s.table[b];
    if i < j { assert Earlier(s, a, b); } else { assert Earlier(s, b, a); }
  }

  /** The idle pages keep their order, and a page that becomes idle comes last. */
  ghost predicate OrderKept(s: Frames, t: Frames, a: PageId, b: PageId) {
    Idle(t, a) && Idle(t, b) && a != b && Idle(s, a) && (Idle(s, b) ==> Earlier(s, a, b)) ==> Earlier(t, a, b)
  }

  /** Page a may leave the cache for another one: there is no free frame, and no idle page is to go before it. */
  ghost predicate IsVictim(s: Frames, a: PageId) {
    Idle(s, a) && s.free == [] && forall b :: Idle(s, b) && b != a ==> Earlier(s, a, b)
  }

  /** Only page `given`, if any, becomes idle, and it had one pin. */
  ghost predicate BecomesIdle(s: Frames, t: Frames, given: Option<PageId>, a: PageId) {
    Idle(t, a) && !Idle(s, a) ==> given == Some(a) && PinOf(s, a) == 1
  }

  ghost predicate Reordered(s: Frames, t: Frames, given: Option<PageId>) {
    && (forall a: PageId, b: PageId {:trigger OrderKept(s, t, a, b)} :: OrderKept(s, t, a, b))
    && forall a: PageId {:trigger BecomesIdle(s, t, given, a)} :: BecomesIdle(s, t, given, a)
  }

  /** Whatever leaves the list or does not change it keeps the order of the rest. */
  lemma LeavesList(s: Frames, t: Frames, x: FrameId, a: PageId, b: PageId)
    requires Core(s, NO_HOLE) && Core(t, NO_HOLE) && (t.lru == s.lru || t.lru == Without(s.lru, x))
    requires forall p: PageId :: Idle(t, p) ==> p in s.table && s.table[p] == t.table[p]
    ensures OrderKept(s, t, a, b) && (Idle(t, a) ==> Idle(s, a))
  {
    IdleListed(t, a);
    IdleListed(t, b);
    IdleListed(s, a);
    IdleListed(s, b);
    if Idle(t, a) && Idle(t, b) && Earlier(s, a, b) && t.lru == Without(s.lru, x) && t.lru != s.lru {
      WithoutAhead(s.lru, x, s.table[a], s.table[b]);
    }
  }

  lemma LeavingReorders(s: Frames, t: Frames, x: FrameId)
    requires Core(s, NO_HOLE) && Core(t, NO_HOLE) && (t.lru == s.lru || t.lru == Without(s.lru, x))
    requires forall p: PageId :: Idle(t, p) ==> p in s.table && s.table[p] == t.table[p]
    ensures Reordered(s, t, None)
  {
    forall a: PageId, b: PageId ensures OrderKept(s, t, a, b) { LeavesList(s, t, x, a, b); }
    forall a: PageId ensures BecomesIdle(s, t, None, a) { LeavesList(s, t, x, a, a); }
  }

  /** Giving back a pin that is not the last one changes no order; the last one makes the page the last to go. */
  lemma UnpinReorders(s: Frames, id: PageId, dirty: bool)
    requires Core(s, NO_HOLE) && id in s.table && PinOf(s, id) > 0
    ensures s.table[id] < |s.frames| && s.frames[s.table[id]].pin > 0
    ensures Reordered(s, Unpin(s, s.table[id], dirty), Some(id))
  {
    assert EntryOk(s, id);
    var f := s.table[id];
    var t := Unpin(s, f, dirty);
    UnpinKeeps(s, f, dirty);
    forall a: PageId ensures BecomesIdle(s, t, Some(id), a) { assert EntryOk(s, a); }
    forall a: PageId, b: PageId ensures OrderKept(s, t, a, b) { UnpinOrder(s, id, dirty, a, b); }
  }

  lemma UnpinOrder(s: Frames, id: PageId, dirty: bool, a: PageId, b: PageId)
    requires Core(s, NO_HOLE) && id in s.table && s.table[id] < |s.frames| && PinOf(s, id) > 0
    requires Core(Unpin(s, s.table[id], dirty), NO_HOLE)
    ensures OrderKept(s, Unpin(s, s.table[id], dirty), a, b)
  {
    var f := s.table[id];
    var t := Unpin(s, f, dirty);
    assert EntryOk(s, id) && EntryOk(s, a) && EntryOk(s, b);
    IdleListed(s, a);
    if Idle(t, a) && Idle(t, b) && a != b && Idle(s, a) && s.frames[f].pin == 1 {
      var rest := Without(s.lru, f);
      if b == id {
        var i :| 0 <= i < |rest| && rest[i] == s.table[a];
        assert t.lru[i] == s.table[a] && t.lru[|rest|] == f;
      } else if Earlier(s, a, b) {
        WithoutAhead(s.lru, f, s.table[a], s.table[b]);
        var i, j :| 0 <= i < j < |rest| && rest[i] == s.table[a] && rest[j] == s.table[b];
        assert t.lru[i] == s.table[a] && t.lru[j] == s.table[b];
      }
    }
  }

  /** The first frame of the list belongs to a page that goes before all others. */
  lemma FirstIsVictim(s: Frames, a: PageId)
    requires Core(s, NO_HOLE) && s.free == [] && a in s.table && s.lru != [] && s.table[a] == s.lru[0]
    ensures IsVictim(s, a)
  {
    IdleListed(s, a);
    forall b | Idle(s, b) && b != a ensures Earlier(s, a, b) {
      IdleListed(s, b);
      assert EntryOk(s, a) && EntryOk(s, b);
      var j :| 0 <= j < |s.lru| && s.lru[j] == s.table[b];
      assert s.lru[0] == s.table[a];
    }
  }

  /** A fetch keeps the order, and if a page leaves the cache for it, it is the one whose turn it was. */
  lemma FetchReorders(s: Frames, t: Frames, durable: Option<nat>, live: set<PageId>, faulty: set<PageId>, id: PageId,
      view: map<PageId, Page>)
    requires Core(s, NO_HOLE) && Core(t, NO_HOLE) && t == AfterFetch(s, durable, live, faulty, id, view)
    ensures Reordered(s, t, None)
    ensures forall a :: a in s.table && a !in t.table ==> IsVictim(s, a)
  {
    if id in s.table {
      LeavingReorders(s, t, s.table[id]);
    } else {
      forall p: PageId | p in t.table && p != id ensures p in s.table && s.table[p] == t.table[p] {}
      LeavingReorders(s, t, Spare(s));
      forall a | a in s.table && a !in t.table ensures IsVictim(s, a) {
        assert s.lru[0] in s.lru && FrameOk(s, s.lru[0]) && EntryOk(s, a);
        FirstIsVictim(s, a);
      }
    }
  }
}
