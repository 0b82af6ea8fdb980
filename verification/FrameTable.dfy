/** The buffer pool's bookkeeping: frames, page table, free list and LRU list, and what every step keeps. */
module FrameTable {
  import opened StorageTypes

  type FrameId = nat

  const MAX_COUNT: nat := 0xFFFF_FFFF

  const NO_PAGE := Page([], 0)

  datatype Frame = Frame(id: PageId, page: Page, pin: nat, dirty: bool, occupied: bool, pending: nat)

  const EMPTY_FRAME := Frame(INVALID, NO_PAGE, 0, false, false, 0)

  datatype Frames = Frames(frames: seq<Frame>, table: map<PageId, FrameId>, free: seq<FrameId>, lru: seq<FrameId>)

  ghost predicate Distinct(q: seq<FrameId>) {
    forall i, j :: 0 <= i < j < |q| ==> q[i] != q[j]
  }

  function Without(q: seq<FrameId>, f: FrameId): (r: seq<FrameId>)
    ensures forall g :: g in r <==> g in q && g != f
    ensures Distinct(q) ==> Distinct(r)
  {
    if q == [] then []
    else if q[0] == f then Without(q[1..], f)
    else
      assert forall g :: g in q[1..] ==> g in q;
      var rest := Without(q[1..], f);
      assert Distinct(q) ==> q[0] !in q[1..];
      [q[0]] + rest
  }

  /** An occupied frame is the one the page table names for its page. */
  ghost predicate FrameOk(s: Frames, f: FrameId) {
    f < |s.frames| && s.frames[f].occupied ==>
      s.frames[f].id in s.table && s.table[s.frames[f].id] == f && s.frames[f].pin <= MAX_COUNT
  }

  /** A page-table entry names an occupied frame that holds its page. */
  ghost predicate EntryOk(s: Frames, id: PageId) {
    id in s.table ==> s.table[id] < |s.frames| && s.frames[s.table[id]].occupied && s.frames[s.table[id]].id == id
  }

  /** The free list is exactly the unoccupied frames, except a frame that is being filled. */
  ghost predicate FreeOk(s: Frames, hole: int) {
    && Distinct(s.free)
    && forall f: FrameId {:trigger f in s.free} :: f in s.free <==> f < |s.frames| && !s.frames[f].occupied && f != hole
  }

  /** The LRU list is exactly the unpinned occupied frames. */
  ghost predicate LruOk(s: Frames) {
    && Distinct(s.lru)
    && forall f: FrameId {:trigger f in s.lru} :: f in s.lru <==>
         f < |s.frames| && s.frames[f].occupied && s.frames[f].pin == 0
  }

  ghost predicate Core(s: Frames, hole: int) {
    && (forall f: FrameId {:trigger FrameOk(s, f)} :: FrameOk(s, f))
    && (forall id {:trigger EntryOk(s, id)} :: EntryOk(s, id))
    && FreeOk(s, hole) && LruOk(s)
  }

  const NO_HOLE: int := -1

  // ---- Steps -------------------------------------------------------------------------

  /** Replaces a frame by one for the same page, pinned as before. */
  function Update(s: Frames, f: FrameId, frame: Frame): Frames
    requires f < |s.frames|
  {
    s.(frames := s.frames[f := frame])
  }

  lemma UpdateKeeps(s: Frames, f: FrameId, frame: Frame, hole: int)
    requires Core(s, hole) && f < |s.frames|
    requires frame.id == s.frames[f].id && frame.occupied == s.frames[f].occupied && frame.pin == s.frames[f].pin
    ensures Core(Update(s, f, frame), hole)
  {
    var t := Update(s, f, frame);
    forall g: FrameId ensures FrameOk(t, g) { assert FrameOk(s, g); }
    forall id ensures EntryOk(t, id) { assert EntryOk(s, id); }
  }

  function Pin(s: Frames, f: FrameId): Frames
    requires f < |s.frames|
  {
    s.(frames := s.frames[f := s.frames[f].(pin := s.frames[f].pin + 1)], lru := Without(s.lru, f))
  }

  lemma PinKeeps(s: Frames, f: FrameId)
    requires Core(s, NO_HOLE) && f < |s.frames| && s.frames[f].occupied && s.frames[f].pin < MAX_COUNT
    ensures Core(Pin(s, f), NO_HOLE)
  {
    var t := Pin(s, f);
    forall g: FrameId ensures FrameOk(t, g) { assert FrameOk(s, g); }
    forall id ensures EntryOk(t, id) { assert EntryOk(s, id); }
  }

  /** Frame f comes before frame g. */
  ghost predicate Ahead(q: seq<FrameId>, f: FrameId, g: FrameId) {
    exists i, j :: 0 <= i < j < |q| && q[i] == f && q[j] == g
  }

  /** Taking a frame out of a list leaves the order of the others. */
  lemma {:induction false} WithoutAhead(q: seq<FrameId>, x: FrameId, f: FrameId, g: FrameId)
    requires Ahead(q, f, g) && f != x && g != x
    ensures Ahead(Without(q, x), f, g)
  {
    var i, j :| 0 <= i < j < |q| && q[i] == f && q[j] == g;
    var r := Without(q, x);
    if i == 0 {
      assert q[1..][j - 1] == g && g in Without(q[1..], x);
      var k :| 0 <= k < |Without(q[1..], x)| && Without(q[1..], x)[k] == g;
      assert r == [f] + Without(q[1..], x) && r[0] == f && r[k + 1] == g;
    } else {
      assert q[1..][i - 1] == f && q[1..][j - 1] == g;
      WithoutAhead(q[1..], x, f, g);
      var k, m :| 0 <= k < m < |Without(q[1..], x)| && Without(q[1..], x)[k] == f && Without(q[1..], x)[m] == g;
      assert q[0] != x ==> r[k + 1] == f && r[m + 1] == g;
    }
  }

  /** Gives back one pin; the last one puts the frame at the recently used end. */
  function Unpin(s: Frames, f: FrameId, dirty: bool): Frames
    requires f < |s.frames| && s.frames[f].pin > 0
  {
    var frame := s.frames[f].(pin := s.frames[f].pin - 1, dirty := s.frames[f].dirty || dirty);
    var t := s.(frames := s.frames[f := frame]);
    if frame.pin == 0 then
      t.(lru := Without(s.lru, f) + [f])
    else t
  }

  lemma UnpinKeeps(s: Frames, f: FrameId, dirty: bool)
    requires Core(s, NO_HOLE) && f < |s.frames| && s.frames[f].occupied && s.frames[f].pin > 0
    ensures Core(Unpin(s, f, dirty), NO_HOLE)
  {
    var t := Unpin(s, f, dirty);
    forall g: FrameId ensures FrameOk(t, g) { assert FrameOk(s, g); }
    forall id ensures EntryOk(t, id) { assert EntryOk(s, id); }
    assert f !in s.lru;
  }

  /** Takes a page out of its frame. */
  function Detach(s: Frames, f: FrameId): Frames
    requires f < |s.frames|
  {
    s.(frames := s.frames[f := EMPTY_FRAME], table := s.table - {s.frames[f].id}, lru := Without(s.lru, f))
  }

  lemma DetachKeeps(s: Frames, f: FrameId)
    requires Core(s, NO_HOLE) && f < |s.frames| && s.frames[f].occupied && s.frames[f].pin == 0
    ensures Core(Detach(s, f), f)
  {
    var t := Detach(s, f);
    assert FrameOk(s, f);
    forall g: FrameId ensures FrameOk(t, g) { assert FrameOk(s, g); assert EntryOk(s, s.frames[f].id); }
    forall id ensures EntryOk(t, id) { assert EntryOk(s, id); }
  }

  function TakeFree(s: Frames): Frames
    requires s.free != []
  {
    s.(free := s.free[..|s.free| - 1])
  }

  lemma TakeFreeKeeps(s: Frames)
    requires Core(s, NO_HOLE) && s.free != []
    ensures var f := s.free[|s.free| - 1]; f < |s.frames| && !s.frames[f].occupied && Core(TakeFree(s), f)
  {
    var t := TakeFree(s);
    var n := |s.free|;
    assert s.free[n - 1] in s.free;
    forall g: FrameId ensures FrameOk(t, g) { assert FrameOk(s, g); }
    forall id ensures EntryOk(t, id) { assert EntryOk(s, id); }
    forall f: FrameId ensures f in t.free <==> f in s.free && f != s.free[n - 1] {
      if f in s.free && f != s.free[n - 1] {
        var i :| 0 <= i < n && s.free[i] == f;
        assert t.free[i] == f;
      }
    }
  }

  /** Returns an empty frame to the free list. */
  function GiveFree(s: Frames, f: FrameId): Frames
    requires f < |s.frames|
  {
    s.(frames := s.frames[f := EMPTY_FRAME], free := s.free + [f])
  }

  lemma GiveFreeKeeps(s: Frames, f: FrameId)
    requires f < |s.frames| && !s.frames[f].occupied && Core(s, f)
    ensures Core(GiveFree(s, f), NO_HOLE)
  {
    var t := GiveFree(s, f);
    forall i | 0 <= i < |s.free| ensures s.free[i] != f { assert s.free[i] in s.free; }
    forall g: FrameId ensures FrameOk(t, g) { assert FrameOk(s, g); }
    forall id ensures EntryOk(t, id) { assert EntryOk(s, id); }
  }

  /** Puts a page into an empty frame, pinned once. */
  function Install(s: Frames, f: FrameId, id: PageId, page: Page): Frames
    requires f < |s.frames|
  {
    s.(frames := s.frames[f := Frame(id, page, 1, false, true, 0)], table := s.table[id := f])
  }

  lemma InstallKeeps(s: Frames, f: FrameId, id: PageId, page: Page)
    requires f < |s.frames| && !s.frames[f].occupied && Core(s, f) && id !in s.table
    ensures Core(Install(s, f, id, page), NO_HOLE)
  {
    var t := Install(s, f, id, page);
    forall g: FrameId ensures FrameOk(t, g) { assert FrameOk(s, g); }
    forall x ensures EntryOk(t, x) { assert EntryOk(s, x); }
    assert f !in s.lru;
  }
}
