/** The recovery-only operations, over the buffer pool and the page manager. */
module Replay {
  import opened StorageTypes
  import opened FrameTable
  import opened PageManagers
  import opened BufferPools
  import opened WalCodec
  import opened Redos

  /** The frame is unpinned, has no unlogged change, and can be written back whenever its place is needed. */
  ghost predicate FrameQuiet(frame: Frame, durable: Option<nat>, live: set<PageId>) {
    frame.occupied ==>
      frame.pin == 0 && frame.pending == 0 && (frame.dirty ==> LsnDurable(durable, frame.page.lsn) && frame.id in live)
  }

  ghost predicate FramesQuiet(s: Frames, durable: Option<nat>, live: set<PageId>) {
    |s.frames| > 0 && forall f :: 0 <= f < |s.frames| ==> FrameQuiet(s.frames[f], durable, live)
  }

  /** The frame will be quiet without its one pin. */
  ghost predicate Settles(frame: Frame, dirty: bool, durable: Option<nat>, live: set<PageId>) {
    frame.pin == 1 && FrameQuiet(frame.(pin := 0, dirty := frame.dirty || dirty), durable, live)
  }

  lemma QuietAcquires(s: Frames, durable: Option<nat>, live: set<PageId>)
    requires Core(s, NO_HOLE) && FramesQuiet(s, durable, live)
    ensures CanAcquire(s, durable, live, {})
  {
    if s.free == [] {
      var f: FrameId := 0;
      assert f !in s.free && f in s.lru;
      assert s.lru[0] in s.lru;
    }
  }

  /** A page is never seen through two frames, so pinning it leaves the others quiet. */
  lemma StillQuiet(s: Frames, t: Frames, f: FrameId, durable: Option<nat>, live: set<PageId>)
    requires FramesQuiet(s, durable, live) && OnlyFrame(s, t, f) && FrameQuiet(t.frames[f], durable, live)
    ensures FramesQuiet(t, durable, live)
  {
  }

  class ReplayContext {
    const pool: BufferPool
    var reconstructed: set<PageId>

    ghost predicate Valid()
      reads this, pool, pool.pm
    {
      pool.Valid() && pool.pm.faulty == {} && FramesQuiet(pool.S(), pool.durable, pool.pm.live)
    }

    /** The store that recovery works on. */
    ghost function Contents(): Store
      reads this, pool, pool.pm
    {
      Store(pool.View(), pool.pm.live, pool.pm.count)
    }

    constructor (pool: BufferPool)
      ensures this.pool == pool && reconstructed == {}
    {
      this.pool := pool;
      reconstructed := {};
    }

    /** Pins a page; None stands for an exception. In a quiet pool only an unallocated page causes one. */
    method Pin(id: PageId) returns (r: Option<FrameId>)
      requires pool.Valid()
      modifies pool`frames, pool`table, pool`free, pool`lru, pool`touched, pool.pm`pages
      ensures pool.Valid() && pool.View() == old(pool.View())
      ensures r.Some? <==> CanFetch(old(pool.S()), pool.durable, pool.pm.live, pool.pm.faulty, id)
      ensures r.Some? ==> Holds(pool.S(), id, r.value, pool.View()) && OnlyFrame(old(pool.S()), pool.S(), r.value)
      ensures r.Some? ==>
        pool.frames[r.value].id == id && id in pool.pm.live
        && (pool.frames[r.value].pin == 1 ==> r.value !in pool.touched)
      ensures old(Valid()) ==> (r.Some? <==> id != INVALID && id in pool.pm.live)
      ensures old(Valid()) && r.None? ==> Valid()
      ensures old(Valid()) && r.Some? ==>
        pool.frames[r.value].pin == 1 && FrameQuiet(pool.frames[r.value].(pin := 0), pool.durable, pool.pm.live)
    {
      ghost var was := pool.S();
      assert EntryOk(was, id);
      if Valid() && id in pool.pm.live && id != INVALID { QuietFetches(was, pool.durable, pool.pm.live, id); }
      var f := pool.FetchPage(id);
      r := if f.Pinned? then Some(f.frame) else None;
    }

    /**
     * Gives a pinned page back, changed or not. If this was its only pin and all other frames are quiet, all are
     * quiet again.
     */
    method GiveBack(id: PageId, f: FrameId, dirty: bool, ghost was: Frames)
      requires pool.Valid() && OnlyFrame(was, pool.S(), f) && id in pool.table && pool.table[id] == f
        && pool.frames[f].pin > 0
      requires pool.frames[f].pin == 1 && f in pool.touched ==> dirty || pool.frames[f].dirty
      modifies pool`frames, pool`lru, pool`touched
      ensures pool.Valid() && pool.View() == old(pool.View())
      ensures
          FramesQuiet(was, pool.durable, pool.pm.live)
          && Settles(old(pool.frames)[f], dirty, pool.durable, pool.pm.live) ==>
        FramesQuiet(pool.S(), pool.durable, pool.pm.live)
    {
      assert EntryOk(pool.S(), id);
      var ok := pool.UnpinPage(id, dirty);
      if FramesQuiet(was, pool.durable, pool.pm.live) && FrameQuiet(pool.frames[f], pool.durable, pool.pm.live) {
        StillQuiet(was, pool.S(), f, pool.durable, pool.pm.live);
      }
    }

    /** Copies an image and an LSN into a pinned page and gives it back. */
    method Put(id: PageId, f: FrameId, page: Page, ghost was: Frames)
      requires pool.Valid() && OnlyFrame(was, pool.S(), f) && id in pool.table && pool.table[id] == f
        && pool.frames[f].pin > 0 && pool.frames[f].id == id
      modifies pool`frames, pool`lru, pool`touched
      ensures pool.Valid() && pool.View() == old(pool.View())[id := page]
      ensures
          FramesQuiet(was, pool.durable, pool.pm.live)
          && Settles(old(pool.frames)[f].(page := page), true, pool.durable, pool.pm.live) ==>
        FramesQuiet(pool.S(), pool.durable, pool.pm.live)
    {
      pool.ModifyPage(id, page);
      GiveBack(id, f, true, was);
    }

    /** Copies an image and an LSN into a page; false stands for an exception. */
    method Overwrite(id: PageId, page: Page) returns (ok: bool)
      requires pool.Valid()
      modifies pool`frames, pool`table, pool`free, pool`lru, pool`touched, pool.pm`pages
      ensures pool.Valid() && (ok <==> CanFetch(old(pool.S()), pool.durable, pool.pm.live, pool.pm.faulty, id))
        && (ok ==> id in old(pool.View()))
      ensures pool.View() == if ok then old(pool.View())[id := page] else old(pool.View())
      ensures old(Valid()) && LsnDurable(pool.durable, page.lsn) ==>
        Valid() && (ok <==> id != INVALID && id in pool.pm.live)
    {
      ghost var was := pool.S();
      var r := Pin(id);
      if r.None? { return false; }
      Put(id, r.value, page, was);
      ok := true;
    }

    /** Creates the next physical page. */
    method Materialize() returns (ok: bool)
      requires pool.Valid()
      modifies pool.pm`pages, pool.pm`count
      ensures pool.Valid() && (old(Valid()) ==> Valid()) && (ok <==> old(pool.pm.count) < CATALOG_BITS)
      ensures Contents() == if ok
        then Store(old(pool.View())[old(pool.pm.count) := NEW_PAGE], pool.pm.live, old(pool.pm.count) + 1)
        else old(Contents())
    {
      ghost var disk := pool.pm.pages;
      var r := pool.pm.ReservePage();
      ok := r.Some?;
      if ok {
        SyncedGrows(pool.S(), pool.touched, disk, pool.pm.pages);
        ViewGrows(pool.S(), pool.touched, disk, r.value, NEW_PAGE);
      }
    }

    /** Sets the allocation bit of a physical page, if it is not set. */
    method Allocate(id: PageId)
      requires pool.Valid() && id < pool.pm.count
      modifies pool.pm`live, pool.pm`liveCount
      ensures pool.Valid() && (old(Valid()) ==> Valid())
      ensures Contents() == Store(pool.View(), old(pool.pm.live) + {id}, pool.pm.count)
        && pool.View() == old(pool.View())
    {
      if !pool.pm.IsAllocated(id) {
        var ok := pool.pm.ActivateReservedPage(id);
      } else {
        assert pool.pm.live + {id} == pool.pm.live;
      }
    }

    /** Makes a committed allocation true again; false stands for an exception. */
    method RedoPageAllocate(id: PageId) returns (ok: bool)
      requires pool.Valid()
      modifies pool.pm`pages, pool.pm`count, pool.pm`live, pool.pm`liveCount
      ensures pool.Valid() && (old(Valid()) ==> Valid())
      ensures ok <==> RedoAllocate(old(Contents()), id).Some?
      ensures ok ==> RedoAllocate(old(Contents()), id) == Some(Contents())
      ensures !ok ==> Contents() == old(Contents())
    {
      if id == INVALID || id > pool.pm.count { return false; }
      if id == pool.pm.count {
        ok := Materialize();
        if !ok { return; }
      }
      Allocate(id);
      ok := true;
    }

    /**
     * Applies a committed after-image unless the page is already that recent; false stands for an exception. In a
     * quiet pool it can only be a mutation that REDO rejects.
     */
    method RedoPhysicalMutation(lsn: nat, m: PhysicalMutation) returns (ok: bool, applied: bool)
      requires pool.Valid()
      modifies pool`frames, pool`table, pool`free, pool`lru, pool`touched, pool.pm`pages
      ensures pool.Valid()
      ensures ok <==>
        lsn != 0 && Sized(m) && CanFetch(old(pool.S()), pool.durable, pool.pm.live, pool.pm.faulty, m.page)
      ensures ok ==> RedoMutation(old(Contents()), lsn, m) == Some(Contents())
      ensures !ok ==> Contents() == old(Contents())
      ensures applied <==> ok && old(pool.View())[m.page].lsn < lsn
      ensures old(Valid()) && LsnDurable(pool.durable, lsn) ==>
        Valid() && (ok <==> RedoMutation(old(Contents()), lsn, m).Some?)
    {
      if lsn == 0 || !Sized(m) { return false, false; }
      ghost var was := pool.S();
      var r := Pin(m.page);
      if r.None? { return false, false; }
      if pool.frames[r.value].page.lsn >= lsn {
        GiveBack(m.page, r.value, false, was);
        return true, false;
      }
      Put(m.page, r.value, Page(m.after, lsn), was);
      return true, true;
    }

    /** Replaces a page by its rebuilt image, once per context; false stands for an exception. */
    method ReconstructPage(id: PageId, payload: Bytes, lsn: nat) returns (ok: bool)
      requires pool.Valid()
      modifies this`reconstructed, pool`frames, pool`table, pool`free, pool`lru, pool`touched, pool.pm`pages
      ensures pool.Valid()
      ensures ok <==> (id != INVALID && |payload| == PAYLOAD_SIZE
                       && (id in old(reconstructed)
                       || CanFetch(old(pool.S()), pool.durable, pool.pm.live, pool.pm.faulty, id)))
      ensures reconstructed == if ok then old(reconstructed) + {id} else old(reconstructed)
      ensures ok && id !in old(reconstructed) ==> id in old(pool.View())
      ensures Contents() == if ok && id !in old(reconstructed)
        then Store(old(pool.View())[id := Page(payload, lsn)], pool.pm.live, pool.pm.count)
                            else old(Contents())
      ensures old(Valid()) && LsnDurable(pool.durable, lsn) ==>
        Valid() && (ok <==>
          id != INVALID && |payload| == PAYLOAD_SIZE && (id in old(reconstructed) || id in pool.pm.live))
    {
      if id == INVALID || |payload| != PAYLOAD_SIZE { return false; }
      if id in reconstructed { return true; }
      ok := Overwrite(id, Page(payload, lsn));
      if ok { reconstructed := reconstructed + {id}; }
    }

    /** Releases a loser's page, if it is allocated; false stands for an exception. */
    method UndoPageAllocate(id: PageId) returns (ok: bool)
      requires pool.Valid()
      modifies pool`frames, pool`table, pool`free, pool`lru, pool.pm`pages, pool.pm`live, pool.pm`liveCount
      ensures pool.Valid()
      ensures ok <==>
        id != INVALID
        && (id in old(pool.pm.live) ==> CanDrop(old(pool.S()), pool.durable, old(pool.pm.live), pool.pm.faulty, id))
      ensures Contents() == if ok then Store(old(pool.View()), old(pool.pm.live) - {id}, pool.pm.count)
        else old(Contents())
      ensures old(Valid()) ==> Valid() && (ok <==> id != INVALID)
    {
      if id == INVALID { return false; }
      if !pool.pm.IsAllocated(id) {
        assert pool.pm.live - {id} == pool.pm.live;
        return true;
      }
      ghost var was := pool.S();
      assert EntryOk(was, id);
      var r := pool.DeletePage(id);
      if r != Gone(true) { return false; }
      var freed := pool.pm.DeallocatePage(id);
      if old(Valid()) {
        if id in was.table { StillQuiet(was, pool.S(), was.table[id], pool.durable, old(pool.pm.live)); }
        StillLive(pool.S(), pool.durable, old(pool.pm.live), id);
      }
      ok := true;
    }
  }

  /** In a quiet pool every allocated page can be pinned. */
  lemma QuietFetches(s: Frames, durable: Option<nat>, live: set<PageId>, id: PageId)
    requires Core(s, NO_HOLE) && FramesQuiet(s, durable, live) && id in live && id != INVALID
    ensures CanFetch(s, durable, live, {}, id)
  {
    QuietAcquires(s, durable, live);
    assert EntryOk(s, id);
  }

  lemma StillLive(s: Frames, durable: Option<nat>, live: set<PageId>, id: PageId)
    requires Core(s, NO_HOLE) && FramesQuiet(s, durable, live) && id !in s.table
    ensures FramesQuiet(s, durable, live - {id})
  {
    forall f | 0 <= f < |s.frames| ensures FrameQuiet(s.frames[f], durable, live - {id}) { assert FrameOk(s, f); }
  }
}
