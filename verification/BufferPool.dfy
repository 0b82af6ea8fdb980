/** The buffer pool: a pinned LRU cache over the page manager that keeps the log ahead of the data. */
module BufferPools {
  import opened StorageTypes
  import opened FrameTable
  import opened PageManagers

  datatype Error = StorageError | WalNotDurable | MutationsPending | LogicError

  datatype Fetched = Pinned(frame: FrameId) | NoFrame | Threw(error: Error)

  datatype Flushed = Written | Absent | FlushThrew(error: Error)

  datatype Deleted = Gone(ok: bool) | DeleteThrew(error: Error)

  datatype Acquired = Got(frame: FrameId) | AllPinned | Failed(error: Error)

  /** The log is durable through the LSN; LSN zero needs no log. */
  predicate LsnDurable(durable: Option<nat>, lsn: nat) {
    lsn == 0 || (durable.Some? && lsn <= durable.value)
  }

  /** A write-back succeeds: nothing to write, or the gates are open and the page still exists and works. */
  ghost predicate CanWriteBack(frame: Frame, durable: Option<nat>, live: set<PageId>, faulty: set<PageId>) {
    !frame.dirty || (frame.pending == 0 && LsnDurable(durable, frame.page.lsn) && frame.id in live
      && frame.id !in faulty)
  }

  /** A frame that is clean and that no client has touched holds what is on disk. */
  ghost predicate FrameSynced(s: Frames, touched: set<FrameId>, disk: map<PageId, Page>, f: FrameId) {
    f < |s.frames| && s.frames[f].occupied ==>
      && s.frames[f].id in disk
      && (s.frames[f].dirty || f in touched || s.frames[f].page == disk[s.frames[f].id])
      && (f in touched ==> s.frames[f].pin > 0)
      && (s.frames[f].pending > 0 ==> s.frames[f].dirty || f in touched)
  }

  ghost predicate Synced(s: Frames, touched: set<FrameId>, disk: map<PageId, Page>) {
    forall f: FrameId {:trigger FrameSynced(s, touched, disk, f)} :: FrameSynced(s, touched, disk, f)
  }

  /** The store that clients see: the frame of a resident page, the disk otherwise. */
  ghost function ViewOf(s: Frames, disk: map<PageId, Page>): map<PageId, Page> {
    map id | id in disk :: if id in s.table && s.table[id] < |s.frames| then s.frames[s.table[id]].page else disk[id]
  }

  /**
   * Disk pages change only to the content of resident frames whose mutations all have LSNs covered by the durable
   * log.
   */
  ghost predicate DiskStep(s: Frames, durable: Option<nat>, before: map<PageId, Page>, after: map<PageId, Page>) {
    && after.Keys == before.Keys
    && forall id :: id in after && after[id] != before[id] ==>
         && id in s.table && s.table[id] < |s.frames|
         && var frame := s.frames[s.table[id]];
         && frame.pending == 0 && LsnDurable(durable, frame.page.lsn) && after[id] == frame.page
  }

  /** Disk pages change only to what the view shows of them, and only as far as the log is durable. */
  ghost predicate Flowed(view: map<PageId, Page>, durable: Option<nat>,
                         before: map<PageId, Page>, after: map<PageId, Page>)
  {
    && after.Keys == before.Keys
    && forall id :: id in after ==>
         after[id] == before[id] || (id in view && after[id] == view[id] && LsnDurable(durable, view[id].lsn))
  }

  lemma DiskStepFlows(s: Frames, durable: Option<nat>, before: map<PageId, Page>, after: map<PageId, Page>)
    requires DiskStep(s, durable, before, after)
    ensures Flowed(ViewOf(s, before), durable, before, after)
  {
  }

  lemma FlowsAgain(view: map<PageId, Page>, durable: Option<nat>, a: map<PageId, Page>, b: map<PageId, Page>,
      c: map<PageId, Page>)
    requires Flowed(view, durable, a, b) && Flowed(view, durable, b, c)
    ensures Flowed(view, durable, a, c)
  {
  }

  /** No disk page is ahead of the durable log. */
  ghost predicate LogAhead(durable: Option<nat>, disk: map<PageId, Page>) {
    forall id :: id in disk ==> LsnDurable(durable, disk[id].lsn)
  }

  lemma DiskStepKeepsLogAhead(s: Frames, durable: Option<nat>, before: map<PageId, Page>, after: map<PageId, Page>)
    requires DiskStep(s, durable, before, after) && LogAhead(durable, before)
    ensures LogAhead(durable, after)
  {
  }

  class BufferPool {
    const pm: PageManager
    var frames: seq<Frame>
    var table: map<PageId, FrameId>
    var free: seq<FrameId>
    var lru: seq<FrameId>
    var durable: Option<nat>
    /** Pinned frames that a client has written to since the frame was last clean. */
    ghost var touched: set<FrameId>

    ghost function S(): Frames
      reads this
    {
      Frames(frames, table, free, lru)
    }

    ghost predicate Holding(hole: int)
      reads this, pm
    {
      pm.Valid() && Core(S(), hole) && Synced(S(), touched, pm.pages)
    }

    ghost predicate Valid()
      reads this, pm
    {
      Holding(NO_HOLE)
    }

    ghost function View(): map<PageId, Page>
      reads this, pm
    {
      ViewOf(S(), pm.pages)
    }

    constructor (pm: PageManager, capacity: nat, durable: Option<nat>)
      requires pm.Valid()
      ensures Valid() && this.pm == pm && this.durable == durable && View() == pm.pages
        && |frames| == |free| == capacity && table == map[]
    {
      this.pm := pm;
      frames := seq(capacity, i => EMPTY_FRAME);
      table, lru, touched := map[], [], {};
      free := seq(capacity, i requires 0 <= i < capacity => capacity - i - 1);
      this.durable := durable;
      new;
      forall f: FrameId | f < capacity ensures f in free { assert free[capacity - f - 1] == f; }
    }

    /** The log reports its durable LSN. */
    method AdvanceDurable(lsn: nat)
      requires Valid()
      modifies this`durable
      ensures Valid() && durable == Some(lsn) && S() == old(S()) && View() == old(View())
    {
      durable := Some(lsn);
    }

    /** Writes a frame back if it is dirty, once both gates let it through. */
    method WriteDirtyFrame(f: FrameId) returns (e: Option<Error>)
      requires Valid() && f < |frames| && frames[f].occupied
      modifies this`frames, pm`pages
      ensures Valid() && View() == old(View()) && DiskStep(old(S()), durable, old(pm.pages), pm.pages)
      ensures e.None? <==> CanWriteBack(old(frames)[f], durable, pm.live, pm.faulty)
      ensures e.Some? ==> frames == old(frames) && pm.pages == old(pm.pages)
      ensures e.None? ==> frames == old(frames)[f := old(frames)[f].(dirty := false)]
    {
      assert FrameOk(S(), f) && FrameSynced(S(), touched, pm.pages, f);
      if !frames[f].dirty {
        assert frames[f := frames[f].(dirty := false)] == frames;
        return None;
      }
      if frames[f].pending != 0 {
        return Some(MutationsPending);
      }
      if !LsnDurable(durable, frames[f].page.lsn) {
        return Some(WalNotDurable);
      }
      var ok := pm.WritePage(frames[f].id, frames[f].page);
      if !ok {
        return Some(StorageError);
      }
      UpdateKeeps(S(), f, frames[f].(dirty := false), NO_HOLE);
      frames := frames[f := frames[f].(dirty := false)];
      WroteBack(old(S()), touched, old(pm.pages), f);
      return None;
    }

    /** Takes a clean page out of its frame. */
    method DropFrame(f: FrameId)
      requires Valid() && f < |frames| && frames[f].occupied && frames[f].pin == 0 && !frames[f].dirty
      modifies this`frames, this`table, this`lru
      ensures Holding(f) && View() == old(View()) && S() == Detach(old(S()), f)
    {
      DetachKeeps(S(), f);
      DetachView(S(), touched, pm.pages, f);
      lru := Without(lru, f);
      table := table - {frames[f].id};
      frames := frames[f := EMPTY_FRAME];
      assert S() == Detach(old(S()), f);
    }

    /** Frees the least recently released frame, after writing it back. */
    method Evict() returns (e: Option<Error>)
      requires Valid() && lru != []
      modifies this`frames, this`table, this`lru, pm`pages
      ensures View() == old(View()) && DiskStep(old(S()), durable, old(pm.pages), pm.pages)
      ensures e.Some? ==> Valid() && S() == old(S()) && pm.pages == old(pm.pages)
      ensures var f := old(lru)[0];
        && f < |old(frames)| && old(frames)[f].occupied && old(frames)[f].pin == 0
        && (e.None? <==> CanWriteBack(old(frames)[f], durable, pm.live, pm.faulty))
        && (e.None? ==>
              && Holding(f) && frames == old(frames)[f := EMPTY_FRAME] && table == old(table) - {old(frames)[f].id}
              && lru == Without(old(lru), f))
    {
      var victim := lru[0];
      assert victim in lru;
      e := WriteDirtyFrame(victim);
      if e.None? {
        DropFrame(victim);
      }
    }

    /** A frame for a new page: a free one if there is one, the least recently released one otherwise. */
    method AcquireFrame() returns (r: Acquired)
      requires Valid()
      modifies this`frames, this`table, this`free, this`lru, pm`pages
      ensures View() == old(View()) && DiskStep(old(S()), durable, old(pm.pages), pm.pages)
      ensures r.Got? ==> Holding(r.frame) && r.frame < |frames| == |old(frames)| && !frames[r.frame].occupied
      ensures !r.Got? ==> Valid() && S() == old(S()) && pm.pages == old(pm.pages)
      ensures SameGates(old(S()), S())
      ensures r.AllPinned? <==> old(free) == [] && old(lru) == []
      ensures r.Got? <==> CanAcquire(old(S()), durable, pm.live, pm.faulty)
      ensures r.Got? ==> r.frame == Spare(old(S())) && S() == Taken(old(S()))
      ensures old(free) != [] ==> r.Got? && table == old(table) && frames == old(frames)
      ensures r.Got? && old(free) == [] ==>
        && old(lru) != [] && r.frame == old(lru)[0] && old(frames)[r.frame].pin == 0
        && frames == old(frames)[r.frame := EMPTY_FRAME] && table == old(table) - {old(frames)[r.frame].id}
    {
      if free != [] {
        var f := free[|free| - 1];
        TakeFreeKeeps(S());
        SameFrames(S(), TakeFree(S()), touched, pm.pages);
        free := free[..|free| - 1];
        assert S() == TakeFree(old(S()));
        return Got(f);
      }
      if lru == [] {
        return AllPinned;
      }
      var victim := lru[0];
      var e := Evict();
      if e.None? { EvictGates(old(S()), old(touched), old(pm.pages), victim, S()); }
      r := if e.Some? then Failed(e.value) else Got(victim);
    }

    /** Pins a page and yields the frame that holds it. */
    method FetchPage(id: PageId) returns (r: Fetched)
      requires Valid()
      modifies this`frames, this`table, this`free, this`lru, this`touched, pm`pages
      ensures Valid() && View() == old(View()) && DiskStep(old(S()), durable, old(pm.pages), pm.pages)
      ensures r.Pinned? ==> Holds(S(), id, r.frame, old(View())) && PinnedOnce(old(S()), S(), id, r.frame)
      ensures r.Pinned? && PinOf(old(S()), id) == 0 ==> r.frame !in touched
      ensures SameGates(old(S()), S())
      ensures r.Pinned? <==> CanFetch(old(S()), durable, pm.live, pm.faulty, id)
      ensures id == INVALID ==> r == NoFrame && S() == old(S())
      ensures id != INVALID && !pm.IsAllocated(id) ==> r == Threw(StorageError) && S() == old(S())
      ensures pm.IsAllocated(id) && id in old(table) ==>
        table == old(table) && r == if PinOf(old(S()), id) == MAX_COUNT then NoFrame else Pinned(old(table)[id])
      ensures pm.IsAllocated(id) && id !in old(table) ==>
        && (r == NoFrame <==> old(free) == [] && old(lru) == [])
        && (r.Pinned? <==> CanAcquire(old(S()), durable, pm.live, pm.faulty) && id !in pm.faulty)
      ensures forall p {:trigger Undisturbed(old(S()), S(), p)} :: p != id && Kept(old(S()), p) ==>
        Undisturbed(old(S()), S(), p)
      ensures S() == AfterFetch(old(S()), durable, pm.live, pm.faulty, id, old(View()))
      ensures !r.Pinned? && (id in old(table) || !CanAcquire(old(S()), durable, pm.live, pm.faulty)) ==> S() == old(S())
    {
      if id == INVALID {
        r := NoFrame;
      } else if !pm.IsAllocated(id) {
        r := Threw(StorageError);
      } else if id in table {
        assert EntryOk(S(), id) && FrameOk(S(), table[id]) && FrameSynced(S(), touched, pm.pages, table[id]);
        r := PinResident(table[id]);
        forall p | p != id && p in table ensures Undisturbed(old(S()), S(), p) { assert EntryOk(old(S()), p); }
        if r.Pinned? { FrameGates(old(S()), r.frame, frames[r.frame], S()); }
      } else {
        r := FetchMissing(id);
      }
    }

    method FetchMissing(id: PageId) returns (r: Fetched)
      requires Valid() && pm.IsAllocated(id) && id !in table
      modifies this`frames, this`table, this`free, this`lru, this`touched, pm`pages
      ensures Valid() && View() == old(View()) && DiskStep(old(S()), durable, old(pm.pages), pm.pages)
      ensures r.Pinned? ==> Holds(S(), id, r.frame, old(View())) && PinnedOnce(old(S()), S(), id, r.frame)
      ensures r.Pinned? ==> r.frame !in touched
      ensures SameGates(old(S()), S())
      ensures r == NoFrame <==> old(free) == [] && old(lru) == []
      ensures r.Pinned? <==> CanAcquire(old(S()), durable, pm.live, pm.faulty) && id !in pm.faulty
      ensures forall p {:trigger Undisturbed(old(S()), S(), p)} :: p != id && Kept(old(S()), p) ==>
        Undisturbed(old(S()), S(), p)
      ensures S() == AfterFetch(old(S()), durable, pm.live, pm.faulty, id, old(View()))
    {
      var a := AcquireFrame();
      match a {
        case AllPinned => r := NoFrame;
        case Failed(e) => r := Threw(e);
        case Got(f) =>
          ghost var s := S();
          r := Fill(f, id);
          forall p | p != id && Kept(old(S()), p) ensures Undisturbed(old(S()), S(), p) {
            AcquireSpares(old(S()), s, f, p);
          }
      }
    }

    method PinResident(f: FrameId) returns (r: Fetched)
      requires Valid() && f < |frames| && frames[f].occupied
      modifies this`frames, this`lru
      ensures Valid() && View() == old(View())
      ensures r == if old(frames)[f].pin == MAX_COUNT then NoFrame else Pinned(f)
      ensures S() == if r == NoFrame then old(S()) else Pin(old(S()), f)
    {
      assert FrameOk(S(), f) && FrameSynced(S(), touched, pm.pages, f);
      if frames[f].pin == MAX_COUNT {
        return NoFrame;
      }
      PinKeeps(S(), f);
      frames := frames[f := frames[f].(pin := frames[f].pin + 1)];
      lru := Without(lru, f);
      assert S() == Pin(old(S()), f);
      assert FrameSynced(S(), touched, pm.pages, f);
      Tweaked(old(S()), S(), touched, touched, pm.pages, f);
      return Pinned(f);
    }

    /** Reads a page into an acquired frame; a failed read returns the frame to the free list. */
    method Fill(f: FrameId, id: PageId) returns (r: Fetched)
      requires Holding(f) && f < |frames| && !frames[f].occupied && id !in table && pm.IsAllocated(id)
      modifies this`frames, this`table, this`free, this`touched
      ensures Valid() && View() == old(View())
      ensures r == if id in pm.faulty then Threw(StorageError) else Pinned(f)
      ensures r == Pinned(f) ==> S() == Install(old(S()), f, id, pm.pages[id]) && pm.pages[id] == View()[id]
      ensures r != Pinned(f) ==> S() == GiveFree(old(S()), f)
      ensures f !in touched
      ensures SameGates(old(S()), S())
    {
      touched := touched - {f};
      var page := pm.ReadPage(id);
      if page.None? {
        GiveFreeKeeps(S(), f);
        frames := frames[f := EMPTY_FRAME];
        free := free + [f];
        assert S() == GiveFree(old(S()), f);
        FillGates(old(S()), f, id, EMPTY_FRAME, S());
        Emptied(old(S()), old(touched), pm.pages, f);
        return Threw(StorageError);
      }
      InstallKeeps(S(), f, id, page.value);
      frames := frames[f := Frame(id, page.value, 1, false, true, 0)];
      table := table[id := f];
      assert S() == Install(old(S()), f, id, page.value);
      FillGates(old(S()), f, id, frames[f], S());
      Installed(old(S()), old(touched), pm.pages, f, id);
      return Pinned(f);
    }

    /** A client writes through the pointer it was given. */
    method ModifyPage(id: PageId, page: Page)
      requires Valid() && id in table && PinOf(S(), id) > 0
      modifies this`frames, this`touched
      ensures Valid() && View() == old(View())[id := page]
      ensures PageOf(S(), id) == page && DirtyOf(S(), id) == DirtyOf(old(S()), id)
      ensures old(table)[id] < |old(frames)|
        && frames == old(frames)[table[id] := old(frames)[table[id]].(page := page)]
      ensures SameGates(old(S()), S())
    {
      assert EntryOk(S(), id);
      FrameGates(S(), table[id], frames[table[id]].(page := page),
        Update(S(), table[id], frames[table[id]].(page := page)));
      SetPage(table[id], frames[table[id]].(page := page));
      ghost var were := touched;
      touched := touched + {table[id]};
      forall f: FrameId ensures FrameSynced(S(), touched, pm.pages, f) { assert FrameSynced(S(), were, pm.pages, f); }
    }

    /** Replaces the page of a resident frame; the client has it pinned, or the frame is dirty anyway. */
    method SetPage(f: FrameId, frame: Frame)
      requires Valid() && f < |frames| && frames[f].occupied && frame.id == frames[f].id && frame.occupied
        && frame.pin == frames[f].pin
      requires frame.dirty == frames[f].dirty && (frame.dirty || frame.pin > 0)
      modifies this`frames, this`touched
      ensures Valid() && View() == old(View())[frame.id := frame.page]
      ensures frames == old(frames)[f := frame] && touched == if frame.dirty then old(touched) else old(touched) + {f}
    {
      assert FrameOk(S(), f) && FrameSynced(S(), touched, pm.pages, f);
      UpdateKeeps(S(), f, frame, NO_HOLE);
      if !frame.dirty {
        touched := touched + {f};
      }
      frames := frames[f := frame];
      assert S() == Update(old(S()), f, frame);
      Replaced(old(S()), old(touched), touched, pm.pages, f, frame);
    }

    /**
     * Gives back a pin. The cache stays coherent exactly if a client that has written to the page says so at the
     * latest with its last pin, or has changed nothing after all.
     */
    method UnpinPage(id: PageId, isDirty: bool) returns (ok: bool)
      requires Valid()
      modifies this`frames, this`lru, this`touched
      ensures pm.Valid() && Core(S(), NO_HOLE) && View() == old(View())
      ensures Valid() <==>
        !ok || PinOf(S(), id) > 0 || DirtyOf(S(), id)
        || (id in pm.pages && PageOf(S(), id) == pm.pages[id] && PendingOf(S(), id) == 0)
      ensures Reported(old(S()), old(touched), id, isDirty) ==> Valid()
      ensures ok <==> id in old(table) && PinOf(old(S()), id) > 0
      ensures ok ==> PinOf(S(), id) == PinOf(old(S()), id) - 1
      ensures ok ==> (DirtyOf(S(), id) <==> DirtyOf(old(S()), id) || isDirty)
      ensures S() == if ok then Unpin(old(S()), old(table)[id], isDirty) else old(S())
      ensures SameGates(old(S()), S())
    {
      if id !in table {
        return false;
      }
      var f := table[id];
      assert EntryOk(S(), id) && FrameOk(S(), f);
      if frames[f].pin == 0 {
        return false;
      }
      UnpinKeeps(S(), f, isDirty);
      frames := frames[f := frames[f].(pin := frames[f].pin - 1, dirty := frames[f].dirty || isDirty)];
      if frames[f].pin == 0 {
        lru := Without(lru, f) + [f];
        touched := touched - {f};
      }
      assert S() == Unpin(old(S()), f, isDirty);
      FrameGates(old(S()), f, frames[f], S());
      UnpinCoherent(old(S()), old(touched), pm.pages, id, isDirty);
      return true;
    }

    /** Writes a cached page. The gates are consulted only for a frame that is marked dirty, so a page that
        was changed but not yet reported dirty passes them unchecked. */
    method FlushPage(id: PageId) returns (r: Flushed)
      requires Valid()
      modifies this`frames, pm`pages
      ensures Valid() && View() == old(View())
      ensures r == Absent <==> id !in old(table)
      ensures r == Written <==>
        && id in old(table) && id in pm.live && id !in pm.faulty
        && (DirtyOf(old(S()), id) ==> PendingOf(old(S()), id) == 0 && LsnDurable(durable, PageOf(old(S()), id).lsn))
      ensures r == Written ==> pm.pages == old(pm.pages)[id := PageOf(old(S()), id)]
      ensures r != Written ==> S() == old(S()) && pm.pages == old(pm.pages)
      ensures r == Written ==> id in old(pm.pages) && OnlyFrame(old(S()), S(), old(table)[id])
      ensures r == Written ==>
        (DiskStep(old(S()), durable, old(pm.pages), pm.pages) <==> FlushAllowed(old(S()), durable, old(pm.pages), id))
      ensures r == Written && (DirtyOf(old(S()), id) || old(table)[id] !in touched) ==>
        DiskStep(old(S()), durable, old(pm.pages), pm.pages)
    {
      if id !in table {
        return Absent;
      }
      var f := table[id];
      assert EntryOk(S(), id) && FrameOk(S(), f) && FrameSynced(S(), touched, pm.pages, f);
      if frames[f].dirty {
        if frames[f].pending != 0 {
          return FlushThrew(MutationsPending);
        }
        if !LsnDurable(durable, frames[f].page.lsn) {
          return FlushThrew(WalNotDurable);
        }
      }
      var ok := pm.WritePage(id, frames[f].page);
      if !ok {
        return FlushThrew(StorageError);
      }
      UpdateKeeps(S(), f, frames[f].(dirty := false), NO_HOLE);
      frames := frames[f := frames[f].(dirty := false)];
      WroteBack(old(S()), touched, old(pm.pages), f);
      return Written;
    }

    /** Drops the cached copy of a page; only pinned pages and failed write-backs prevent it. */
    method DeletePage(id: PageId) returns (r: Deleted)
      requires Valid()
      modifies this`frames, this`table, this`lru, this`free, pm`pages
      ensures Valid() && View() == old(View()) && DiskStep(old(S()), durable, old(pm.pages), pm.pages)
      ensures r == Gone(true) ==>
        table == old(table) - {id} && lru == if id in old(table) then Without(old(lru), old(table)[id]) else old(lru)
      ensures r == Gone(true) <==> CanDrop(old(S()), durable, pm.live, pm.faulty, id)
      ensures r == Gone(false) <==> id in old(table) && PinOf(old(S()), id) > 0
      ensures r != Gone(true) ==> S() == old(S()) && pm.pages == old(pm.pages)
      ensures r == Gone(true) ==>
        if id in old(table) then OnlyFrame(old(S()), S(), old(table)[id])
        && !frames[old(table)[id]].occupied else S() == old(S())
      ensures r.DeleteThrew? ==>
        id in old(table) && old(table)[id] < |frames|
        && !CanWriteBack(old(frames)[old(table)[id]], durable, pm.live, pm.faulty)
    {
      if id !in table {
        return Gone(true);
      }
      var f := table[id];
      assert EntryOk(S(), id);
      if frames[f].pin != 0 {
        return Gone(false);
      }
      var e := WriteDirtyFrame(f);
      if e.Some? {
        return DeleteThrew(e.value);
      }
      DropFrame(f);
      ghost var s := S();
      GiveFreeKeeps(s, f);
      Emptied(s, touched, pm.pages, f);
      free := free + [f];
      assert frames[f := EMPTY_FRAME] == frames;
      assert S() == GiveFree(s, f);
      UntouchedKeep(S(), touched, pm.pages, f);
      return Gone(true);
    }

    /** Writes all dirty pages and then marks everything clean. If a gate or the file stops it half-way, the pages
        written so far stay marked dirty. */
    method FlushAllPages() returns (e: Option<Error>)
      requires Valid()
      modifies this`frames, pm`pages
      ensures Valid() && View() == old(View()) && DiskStep(old(S()), durable, old(pm.pages), pm.pages)
      ensures table == old(table) && free == old(free) && lru == old(lru)
      ensures e.None? <==> AllWritable(old(S()), durable, pm.live, pm.faulty)
      ensures e.Some? ==> frames == old(frames)
      ensures e.None? ==> (forall f :: 0 <= f < |frames| && frames[f].occupied ==> !frames[f].dirty)
      ensures e.None? ==>
        (forall id :: DirtyOf(old(S()), id) ==> id in pm.pages && pm.pages[id] == PageOf(old(S()), id))
    {
      e := WriteAllDirty();
      if e.None? {
        forall id | DirtyOf(old(S()), id) ensures id in pm.pages && pm.pages[id] == PageOf(old(S()), id) {
          assert EntryOk(old(S()), id);
        }
        CleanAll();
      }
    }

    method WriteAllDirty() returns (e: Option<Error>)
      requires Valid()
      modifies pm`pages
      ensures Valid() && View() == old(View()) && DiskStep(S(), durable, old(pm.pages), pm.pages)
      ensures e.None? ==> WrittenUpTo(S(), durable, pm.pages, pm.pages, |frames|)
      ensures e.None? <==> AllWritable(S(), durable, pm.live, pm.faulty)
    {
      e := None;
      for f := 0 to |frames|
        invariant pm.Valid() && e.None?
        invariant forall g :: 0 <= g < f && frames[g].occupied ==> CanWriteBack(frames[g], durable, pm.live, pm.faulty)
        invariant WrittenUpTo(S(), durable, old(pm.pages), pm.pages, f)
      {
        if frames[f].occupied && frames[f].dirty {
          e := WriteFrame(f, old(pm.pages));
          if e.Some? {
            WrittenKeeps(S(), durable, touched, old(pm.pages), pm.pages, f);
            return;
          }
        }
      }
      WrittenKeeps(S(), durable, touched, old(pm.pages), pm.pages, |frames|);
    }

    method WriteFrame(f: FrameId, ghost before: map<PageId, Page>) returns (e: Option<Error>)
      requires pm.Valid() && Core(S(), NO_HOLE) && Synced(S(), touched, before) && before.Keys == pm.pages.Keys
      requires f < |frames| && frames[f].occupied && frames[f].dirty && WrittenUpTo(S(), durable, before, pm.pages, f)
      modifies pm`pages
      ensures pm.Valid() && WrittenUpTo(S(), durable, before, pm.pages, if e.None? then f + 1 else f)
      ensures e.None? <==> CanWriteBack(frames[f], durable, pm.live, pm.faulty)
      ensures e.Some? ==> pm.pages == old(pm.pages)
    {
      assert FrameOk(S(), f) && FrameSynced(S(), touched, before, f);
      if frames[f].pending != 0 {
        return Some(MutationsPending);
      }
      if !LsnDurable(durable, frames[f].page.lsn) {
        return Some(WalNotDurable);
      }
      WriteOne(S(), durable, before, pm.pages, f);
      var ok := pm.WritePage(frames[f].id, frames[f].page);
      e := if ok then None else Some(StorageError);
    }

    /** Marks every occupied frame clean, once all dirty ones have been written. */
    method CleanAll()
      requires Valid() && WrittenUpTo(S(), durable, pm.pages, pm.pages, |frames|)
      modifies this`frames
      ensures Valid() && View() == old(View()) && S() == Cleaned(old(S()))
    {
      ghost var s := S();
      for f := 0 to |frames|
        invariant |frames| == |s.frames|
        invariant forall g :: 0 <= g < |frames| ==> frames[g] == if g < f then Cleaned(s).frames[g] else s.frames[g]
      {
        if frames[f].occupied {
          frames := frames[f := frames[f].(dirty := false)];
        }
      }
      assert frames == Cleaned(s).frames;
      CleanedKeeps(s, durable, touched, pm.pages);
    }

    /** A captured mutation blocks write-back until it has an LSN. */
    method MarkMutationPending(id: PageId) returns (e: Option<Error>)
      requires Valid()
      modifies this`frames, this`touched
      ensures Valid() && View() == old(View())
      ensures e.None? <==> id in old(table) && PinOf(old(S()), id) > 0 && PendingOf(old(S()), id) < MAX_COUNT
      ensures e.Some? ==> S() == old(S())
      ensures e.None? ==> PendingOf(S(), id) == PendingOf(old(S()), id) + 1 && OtherGates(old(S()), S(), id)
      ensures SameDirty(old(S()), S())
    {
      assert EntryOk(S(), id);
      if id !in table || frames[table[id]].pin == 0 {
        return Some(LogicError);
      }
      var f := table[id];
      if frames[f].pending >= MAX_COUNT {
        return Some(LogicError);
      }
      ghost var v := View();
      FrameGates(S(), f, frames[f].(pending := frames[f].pending + 1),
        Update(S(), f, frames[f].(pending := frames[f].pending + 1)));
      SetPage(f, frames[f].(pending := frames[f].pending + 1));
      assert v[id := v[id]] == v;
      return None;
    }

    /** Gives a captured mutation its LSN and opens its gate; a rollback may restore LSN zero. */
    method ReleasePending(id: PageId, lsn: nat, undo: bool) returns (e: Option<Error>)
      requires Valid()
      modifies this`frames, this`touched
      ensures Valid()
      ensures e.None? <==> id in old(table) && PendingOf(old(S()), id) > 0 && (undo || lsn != 0)
      ensures e.Some? ==> S() == old(S()) && View() == old(View())
      ensures e.None? ==> PendingOf(S(), id) == PendingOf(old(S()), id) - 1 && OtherGates(old(S()), S(), id)
                          && id in old(View()) && View() == old(View())[id := old(View())[id].(lsn := lsn)]
      ensures e.None? ==> OnlyFrame(old(S()), S(), table[id]) && PinOf(S(), id) == PinOf(old(S()), id)
      ensures SameDirty(old(S()), S())
    {
      if id !in table {
        return Some(LogicError);
      }
      assert EntryOk(S(), id);
      var f := table[id];
      assert FrameSynced(S(), touched, pm.pages, f);
      if frames[f].pending == 0 || (lsn == 0 && !undo) {
        return Some(LogicError);
      }
      var frame := frames[f].(page := frames[f].page.(lsn := lsn), pending := frames[f].pending - 1);
      FrameGates(S(), f, frame, Update(S(), f, frame));
      SetPage(f, frame);
      return None;
    }

    /**
     * Restores an earlier LSN after a before-image was put back. The cache stays coherent exactly if the page is
     * dirty or pinned, or has that LSN already: a clean page that nobody uses is not written back any more.
     */
    method RestorePageLsn(id: PageId, lsn: nat) returns (e: Option<Error>)
      requires Valid()
      modifies this`frames, this`touched
      ensures pm.Valid() && Core(S(), NO_HOLE)
      ensures Valid() <==>
        e.Some? || DirtyOf(old(S()), id) || PinOf(old(S()), id) > 0 || PageOf(old(S()), id).lsn == lsn
      ensures e.None? <==> id in old(table) && PendingOf(old(S()), id) == 0
      ensures e.Some? ==> S() == old(S()) && View() == old(View())
      ensures e.None? ==>
        id in old(View()) && View() == old(View())[id := old(View())[id].(lsn := lsn)] && SameGates(old(S()), S())
      ensures e.None? ==> OnlyFrame(old(S()), S(), table[id]) && PinOf(S(), id) == PinOf(old(S()), id)
      ensures SameDirty(old(S()), S())
    {
      if id !in table {
        return Some(LogicError);
      }
      assert EntryOk(S(), id);
      var f := table[id];
      assert FrameSynced(S(), touched, pm.pages, f);
      if frames[f].pending != 0 {
        return Some(LogicError);
      }
      var frame := frames[f].(page := frames[f].page.(lsn := lsn));
      FrameGates(S(), f, frame, Update(S(), f, frame));
      if frame.dirty || frame.pin > 0 {
        SetPage(f, frame);
      } else {
        UpdateKeeps(S(), f, frame, NO_HOLE);
        assert FrameSynced(S(), touched, pm.pages, f) && FrameOk(S(), f);
        SetView(S(), pm.pages, f, frame);
        frames := frames[f := frame];
        assert S() == Update(old(S()), f, frame);
        if lsn == old(frames)[f].page.lsn {
          assert frame == old(frames)[f] && S() == old(S());
        } else {
          assert !FrameSynced(S(), touched, pm.pages, f);
        }
      }
      return None;
    }
  }

  /** Writing a frame back and marking it clean changes no view. */
  lemma WroteBack(s: Frames, touched: set<FrameId>, disk: map<PageId, Page>, f: FrameId)
    requires Core(s, NO_HOLE) && Synced(s, touched, disk) && f < |s.frames| && s.frames[f].occupied
    requires s.frames[f].pending == 0 || f in touched
    ensures s.frames[f].id in disk
    ensures var s' := Update(s, f, s.frames[f].(dirty := false));
      var disk' := disk[s.frames[f].id := s.frames[f].page];
      Synced(s', touched, disk') && ViewOf(s', disk') == ViewOf(s, disk)
  {
    assert FrameSynced(s, touched, disk, f) && FrameOk(s, f);
    var s' := Update(s, f, s.frames[f].(dirty := false));
    var disk' := disk[s.frames[f].id := s.frames[f].page];
    forall g: FrameId ensures FrameSynced(s', touched, disk', g) {
      assert FrameSynced(s, touched, disk, g) && FrameOk(s, g);
    }
    forall id | id in disk ensures ViewOf(s', disk')[id] == ViewOf(s, disk)[id] { assert EntryOk(s, id); }
  }

  /** A client that gives back its last pin on a page it has written to says so, if nobody has before. */
  ghost predicate Reported(s: Frames, touched: set<FrameId>, id: PageId, isDirty: bool) {
    id in s.table && PinOf(s, id) == 1 && s.table[id] in touched ==> isDirty || DirtyOf(s, id)
  }

  /** Giving back a pin keeps the view, and the cache coherent exactly if no change goes unreported. */
  lemma UnpinCoherent(s: Frames, touched: set<FrameId>, disk: map<PageId, Page>, id: PageId, isDirty: bool)
    requires Core(s, NO_HOLE) && Synced(s, touched, disk) && id in s.table && PinOf(s, id) > 0
    ensures var f := s.table[id]; f < |s.frames| && s.frames[f].pin > 0
    ensures var f := s.table[id]; var t := Unpin(s, f, isDirty);
      var left := if s.frames[f].pin == 1 then touched - {f} else touched;
      && ViewOf(t, disk) == ViewOf(s, disk)
      && (Synced(t, left, disk) <==>
      PinOf(t, id) > 0 || DirtyOf(t, id) || (id in disk && PageOf(t, id) == disk[id] && PendingOf(t, id) == 0))
      && (Reported(s, touched, id, isDirty) ==> Synced(t, left, disk))
  {
    assert EntryOk(s, id);
    var f := s.table[id];
    assert FrameSynced(s, touched, disk, f);
    var t := Unpin(s, f, isDirty);
    var left := if s.frames[f].pin == 1 then touched - {f} else touched;
    FlagsView(s, t, disk, f);
    if FrameSynced(t, left, disk, f) { Tweaked(s, t, touched, left, disk, f); }
  }

  /** Changing the flags of a frame changes no view. */
  lemma FlagsView(s: Frames, t: Frames, disk: map<PageId, Page>, f: FrameId)
    requires f < |s.frames| == |t.frames| && t.table == s.table && t.frames == s.frames[f := t.frames[f]]
      && t.frames[f].page == s.frames[f].page
    ensures ViewOf(t, disk) == ViewOf(s, disk)
  {
  }

  /** Writing to a resident page changes the view of that page only. */
  lemma SetView(s: Frames, disk: map<PageId, Page>, f: FrameId, frame: Frame)
    requires Core(s, NO_HOLE) && f < |s.frames| && s.frames[f].occupied && s.frames[f].id in disk
      && frame.id == s.frames[f].id
    ensures ViewOf(Update(s, f, frame), disk) == ViewOf(s, disk)[frame.id := frame.page]
  {
    assert FrameOk(s, f);
    forall id | id in disk ensures ViewOf(Update(s, f, frame), disk)[id] == ViewOf(s, disk)[frame.id := frame.page][id]
    {
      assert EntryOk(s, id);
    }
  }

  /** Views and synchronisation depend on frames and page table only. */
  lemma SameFrames(s: Frames, t: Frames, touched: set<FrameId>, disk: map<PageId, Page>)
    requires Synced(s, touched, disk) && t.frames == s.frames && t.table == s.table
    ensures Synced(t, touched, disk) && ViewOf(t, disk) == ViewOf(s, disk)
  {
    forall f: FrameId ensures FrameSynced(t, touched, disk, f) { assert FrameSynced(s, touched, disk, f); }
  }

  /** Dropping a clean, untouched frame changes no view. */
  lemma DetachView(s: Frames, touched: set<FrameId>, disk: map<PageId, Page>, f: FrameId)
    requires Core(s, NO_HOLE) && Synced(s, touched, disk) && f < |s.frames| && s.frames[f].occupied
    requires s.frames[f].pin == 0 && !s.frames[f].dirty
    ensures Synced(Detach(s, f), touched, disk) && ViewOf(Detach(s, f), disk) == ViewOf(s, disk)
  {
    var t := Detach(s, f);
    assert FrameSynced(s, touched, disk, f) && FrameOk(s, f);
    forall g: FrameId ensures FrameSynced(t, touched, disk, g) { assert FrameSynced(s, touched, disk, g); }
    forall id | id in disk ensures ViewOf(t, disk)[id] == ViewOf(s, disk)[id] { assert EntryOk(s, id); }
  }

  /** Dropping an unpinned frame keeps the view exactly if the disk has its content: an unreported change is lost. */
  lemma DropKeepsView(s: Frames, disk: map<PageId, Page>, f: FrameId)
    requires Core(s, NO_HOLE) && f < |s.frames| && s.frames[f].occupied && s.frames[f].pin == 0
      && s.frames[f].id in disk
    ensures ViewOf(Detach(s, f), disk) == ViewOf(s, disk)[s.frames[f].id := disk[s.frames[f].id]]
    ensures ViewOf(Detach(s, f), disk) == ViewOf(s, disk) <==> s.frames[f].page == disk[s.frames[f].id]
  {
    assert FrameOk(s, f);
    var v, w := ViewOf(s, disk), ViewOf(Detach(s, f), disk);
    forall id | id in disk ensures w[id] == v[s.frames[f].id := disk[s.frames[f].id]][id] { assert EntryOk(s, id); }
    assert v[s.frames[f].id] == s.frames[f].page;
  }

  /** A page that an eviction cannot take: it is pinned, or a free frame exists, or another frame is older. */
  ghost predicate Kept(s: Frames, p: PageId) {
    p in s.table && s.table[p] < |s.frames|
    && (s.frames[s.table[p]].pin > 0 || s.free != [] || (s.lru != [] && s.lru[0] != s.table[p]))
  }

  /** There is a free frame, or the least recently released one can be written back. */
  ghost predicate CanAcquire(s: Frames, durable: Option<nat>, live: set<PageId>, faulty: set<PageId>) {
    s.free != [] || (s.lru != [] && s.lru[0] < |s.frames| && CanWriteBack(s.frames[s.lru[0]], durable, live, faulty))
  }

  /**
   * The page can be pinned: it is allocated, and cached with a pin to spare or readable into a frame that can be had.
   */
  ghost predicate CanFetch(s: Frames, durable: Option<nat>, live: set<PageId>, faulty: set<PageId>, id: PageId) {
    && id != INVALID && id in live
    && if id in s.table then PinOf(s, id) != MAX_COUNT else CanAcquire(s, durable, live, faulty) && id !in faulty
  }

  /** The frame that a missing page would get: the last free one, or else the first of the LRU list. */
  ghost function Spare(s: Frames): FrameId {
    if s.free != [] then s.free[|s.free| - 1] else if s.lru != [] then s.lru[0] else 0
  }

  /** The bookkeeping with that frame taken. */
  ghost function Taken(s: Frames): Frames
    requires s.free == [] ==> Spare(s) < |s.frames|
  {
    if s.free != [] then TakeFree(s) else Detach(s, Spare(s))
  }

  /** The whole bookkeeping after a fetch; a failed read leaves the frame it was meant for free. */
  ghost function AfterFetch(s: Frames, durable: Option<nat>, live: set<PageId>, faulty: set<PageId>, id: PageId,
      view: map<PageId, Page>): Frames
  {
    if id == INVALID || id !in live then s
    else if id in s.table then if s.table[id] < |s.frames| && PinOf(s, id) < MAX_COUNT then Pin(s, s.table[id]) else s
    else if !CanAcquire(s, durable, live, faulty) || Spare(s) >= |s.frames| || id !in view then s
    else if id in faulty then GiveFree(Taken(s), Spare(s))
    else Install(Taken(s), Spare(s), id, view[id])
  }

  /** The page can be taken out of the cache: it is not there, or is unpinned and can be written back. */
  ghost predicate CanDrop(s: Frames, durable: Option<nat>, live: set<PageId>, faulty: set<PageId>, id: PageId) {
    id in s.table && s.table[id] < |s.frames| ==>
      PinOf(s, id) == 0 && CanWriteBack(s.frames[s.table[id]], durable, live, faulty)
  }

  /** The page stays where it is, as it is. */
  ghost predicate Undisturbed(s: Frames, t: Frames, p: PageId) {
    p in s.table && s.table[p] < |s.frames| && p in t.table && t.table[p] == s.table[p] && t.table[p] < |t.frames|
    && t.frames[t.table[p]] == s.frames[s.table[p]]
  }

  /** Acquiring a frame, free or evicted, leaves every other kept page alone. */
  lemma AcquireSpares(s: Frames, t: Frames, f: FrameId, p: PageId)
    requires Core(s, NO_HOLE) && Kept(s, p) && f < |s.frames|
    requires if s.free != [] then t.frames == s.frames && t.table == s.table && !s.frames[f].occupied
             else
               && s.lru != [] && f == s.lru[0] && t.frames == s.frames[f := EMPTY_FRAME]
               && t.table == s.table - {s.frames[f].id}
    ensures Undisturbed(s, t, p) && s.table[p] != f
  {
    assert EntryOk(s, p);
    if s.free == [] {
      assert s.lru[0] in s.lru;
      assert FrameOk(s, f);
    }
  }

  ghost function PinOf(s: Frames, id: PageId): nat {
    if id in s.table && s.table[id] < |s.frames| then s.frames[s.table[id]].pin else 0
  }

  /** Every page has as many unlogged mutations as before. */
  ghost predicate SameGates(s: Frames, t: Frames) {
    forall p: PageId {:trigger PendingOf(t, p)} :: PendingOf(t, p) == PendingOf(s, p)
  }

  /** The same pages are marked dirty. */
  ghost predicate SameDirty(s: Frames, t: Frames) {
    forall p: PageId {:trigger DirtyOf(t, p)} :: DirtyOf(t, p) <==> DirtyOf(s, p)
  }

  ghost predicate OtherGates(s: Frames, t: Frames, id: PageId) {
    forall p: PageId {:trigger PendingOf(t, p)} :: p != id ==> PendingOf(t, p) == PendingOf(s, p)
  }

  /** Replacing one frame changes the gate of its own page only. */
  lemma FrameGates(s: Frames, f: FrameId, frame: Frame, t: Frames)
    requires Core(s, NO_HOLE) && f < |s.frames| && s.frames[f].occupied && t.frames == s.frames[f := frame]
      && t.table == s.table
    ensures OtherGates(s, t, s.frames[f].id) && PendingOf(t, s.frames[f].id) == frame.pending
    ensures frame.pending == s.frames[f].pending ==> SameGates(s, t)
  {
    assert FrameOk(s, f);
    forall p: PageId | p != s.frames[f].id ensures PendingOf(t, p) == PendingOf(s, p) { assert EntryOk(s, p); }
  }

  /** A frame that can be evicted has no unlogged mutations, so that evicting it loses no gate. */
  lemma EvictGates(s: Frames, touched: set<FrameId>, disk: map<PageId, Page>, f: FrameId, t: Frames)
    requires Core(s, NO_HOLE) && Synced(s, touched, disk) && f < |s.frames| && s.frames[f].occupied
      && s.frames[f].pin == 0
    requires !s.frames[f].dirty || s.frames[f].pending == 0
    requires t.frames == s.frames[f := EMPTY_FRAME] && t.table == s.table - {s.frames[f].id}
    ensures SameGates(s, t)
  {
    assert FrameOk(s, f) && FrameSynced(s, touched, disk, f);
    forall p: PageId ensures PendingOf(t, p) == PendingOf(s, p) { assert EntryOk(s, p); }
  }

  /** Filling or giving back an unoccupied frame touches no gate. */
  lemma FillGates(s: Frames, f: FrameId, id: PageId, frame: Frame, t: Frames)
    requires Core(s, f) && f < |s.frames| && !s.frames[f].occupied && id !in s.table
    requires t.frames == s.frames[f := frame] && frame.pending == 0
      && (t.table == s.table || t.table == s.table[id := f])
    ensures SameGates(s, t)
  {
    forall p: PageId ensures PendingOf(t, p) == PendingOf(s, p) { assert EntryOk(s, p); }
  }

  /** No frame but f differs. */
  ghost predicate OnlyFrame(s: Frames, t: Frames, f: FrameId) {
    |t.frames| == |s.frames| && f < |s.frames| && forall g :: 0 <= g < |s.frames| && g != f ==>
      t.frames[g] == s.frames[g]
  }

  /** Frame f holds the page with one pin more than before; the other frames are as they were. */
  ghost predicate PinnedOnce(s: Frames, t: Frames, id: PageId, f: FrameId) {
    && OnlyFrame(s, t, f) && t.frames[f].occupied && t.frames[f].id == id
    && t.frames[f].pin == PinOf(s, id) + 1 && t.frames[f].pending == PendingOf(s, id)
    && t.frames[f].dirty == DirtyOf(s, id)
  }

  /** The frame is pinned and holds what the view says about the page. */
  ghost predicate Holds(s: Frames, id: PageId, f: FrameId, view: map<PageId, Page>) {
    id in s.table && s.table[id] == f && f < |s.frames| && s.frames[f].pin > 0 && id in view
      && s.frames[f].page == view[id]
  }

  ghost function PageOf(s: Frames, id: PageId): Page {
    if id in s.table && s.table[id] < |s.frames| then s.frames[s.table[id]].page else NO_PAGE
  }

  ghost function PendingOf(s: Frames, id: PageId): nat {
    if id in s.table && s.table[id] < |s.frames| then s.frames[s.table[id]].pending else 0
  }

  ghost predicate DirtyOf(s: Frames, id: PageId) {
    id in s.table && s.table[id] < |s.frames| && s.frames[s.table[id]].dirty
  }

  /**
   * A flush of the page respects the gates: its frame equals the disk copy, or its mutations are all logged durably.
   */
  ghost predicate FlushAllowed(s: Frames, durable: Option<nat>, disk: map<PageId, Page>, id: PageId)
    requires id in disk
  {
    PageOf(s, id) == disk[id] || (PendingOf(s, id) == 0 && LsnDurable(durable, PageOf(s, id).lsn))
  }

  /** Every frame can be written back. */
  ghost predicate AllWritable(s: Frames, durable: Option<nat>, live: set<PageId>, faulty: set<PageId>) {
    forall f :: 0 <= f < |s.frames| && s.frames[f].occupied ==> CanWriteBack(s.frames[f], durable, live, faulty)
  }

  /** The dirty frames below n have been written, and nothing else. */
  ghost predicate WrittenUpTo(s: Frames, durable: Option<nat>, before: map<PageId, Page>, disk: map<PageId, Page>,
      n: nat)
  {
    && DiskStep(s, durable, before, disk)
    && (forall id :: id in disk && disk[id] != before[id] ==> DirtyOf(s, id))
    && forall f: FrameId :: f < n && f < |s.frames| && s.frames[f].occupied && s.frames[f].dirty ==>
         s.frames[f].id in disk && disk[s.frames[f].id] == s.frames[f].page && s.frames[f].pending == 0
  }

  lemma WriteOne(s: Frames, durable: Option<nat>, before: map<PageId, Page>, disk: map<PageId, Page>, f: FrameId)
    requires Core(s, NO_HOLE) && WrittenUpTo(s, durable, before, disk, f) && f < |s.frames| && s.frames[f].occupied
      && s.frames[f].dirty
    requires s.frames[f].pending == 0 && LsnDurable(durable, s.frames[f].page.lsn) && s.frames[f].id in disk
    ensures WrittenUpTo(s, durable, before, disk[s.frames[f].id := s.frames[f].page], f + 1)
  {
    assert FrameOk(s, f);
    forall g: FrameId | g < f && s.frames[g].occupied ensures s.frames[g].id != s.frames[f].id { assert FrameOk(s, g); }
  }

  /** Writing dirty frames out changes no view and loses no synchronisation. */
  lemma WrittenKeeps(s: Frames, durable: Option<nat>, touched: set<FrameId>, before: map<PageId, Page>,
      disk: map<PageId, Page>, n: nat)
    requires Core(s, NO_HOLE) && Synced(s, touched, before) && WrittenUpTo(s, durable, before, disk, n)
    ensures Synced(s, touched, disk) && ViewOf(s, disk) == ViewOf(s, before)
  {
    forall f: FrameId ensures FrameSynced(s, touched, disk, f) {
      assert FrameSynced(s, touched, before, f) && FrameOk(s, f);
    }
    forall id | id in disk ensures ViewOf(s, disk)[id] == ViewOf(s, before)[id] { assert EntryOk(s, id); }
  }

  ghost function Cleaned(s: Frames): Frames {
    s.(frames := seq(|s.frames|, i requires 0 <= i < |s.frames| =>
                   if s.frames[i].occupied then s.frames[i].(dirty := false) else s.frames[i]))
  }

  lemma CleanedKeeps(s: Frames, durable: Option<nat>, touched: set<FrameId>, disk: map<PageId, Page>)
    requires Core(s, NO_HOLE) && Synced(s, touched, disk) && WrittenUpTo(s, durable, disk, disk, |s.frames|)
    ensures Core(Cleaned(s), NO_HOLE) && Synced(Cleaned(s), touched, disk)
      && ViewOf(Cleaned(s), disk) == ViewOf(s, disk)
  {
    var t := Cleaned(s);
    forall f: FrameId ensures FrameOk(t, f) { assert FrameOk(s, f); }
    forall id ensures EntryOk(t, id) { assert EntryOk(s, id); }
    forall f: FrameId ensures FrameSynced(t, touched, disk, f) { assert FrameSynced(s, touched, disk, f); }
    forall id | id in disk ensures ViewOf(t, disk)[id] == ViewOf(s, disk)[id] { assert EntryOk(s, id); }
  }

  /** Nothing is asked of an empty frame. */
  lemma UntouchedKeep(s: Frames, touched: set<FrameId>, disk: map<PageId, Page>, f: FrameId)
    requires Synced(s, touched - {f}, disk) && f < |s.frames| && !s.frames[f].occupied
    ensures Synced(s, touched, disk)
  {
    forall g: FrameId ensures FrameSynced(s, touched, disk, g) { assert FrameSynced(s, touched - {f}, disk, g); }
  }

  /** Writing to a resident page changes the view of that page only. */
  lemma Replaced(s: Frames, touched: set<FrameId>, touched': set<FrameId>, disk: map<PageId, Page>, f: FrameId,
      frame: Frame)
    requires Core(s, NO_HOLE) && Synced(s, touched, disk) && f < |s.frames| && s.frames[f].occupied
    requires frame.id == s.frames[f].id && frame.occupied && frame.pin == s.frames[f].pin
      && frame.dirty == s.frames[f].dirty
    requires frame.dirty || frame.pin > 0
    requires touched' == if frame.dirty then touched else touched + {f}
    ensures Synced(Update(s, f, frame), touched', disk)
    ensures s.frames[f].id in disk && ViewOf(Update(s, f, frame), disk) == ViewOf(s, disk)[s.frames[f].id := frame.page]
  {
    var t := Update(s, f, frame);
    assert FrameOk(s, f) && FrameSynced(s, touched, disk, f);
    forall g: FrameId ensures FrameSynced(t, touched', disk, g) { assert FrameSynced(s, touched, disk, g); }
    forall id | id in disk ensures ViewOf(t, disk)[id] == ViewOf(s, disk)[s.frames[f].id := frame.page][id] {
      assert EntryOk(s, id);
    }
  }

  /** Changing pins and flags of one frame changes no view. */
  lemma Tweaked(s: Frames, t: Frames, touched: set<FrameId>, touched': set<FrameId>, disk: map<PageId, Page>,
      f: FrameId)
    requires Synced(s, touched, disk) && f < |s.frames| == |t.frames| && t.table == s.table
    requires t.frames == s.frames[f := t.frames[f]] && t.frames[f].page == s.frames[f].page
    requires touched' - {f} == touched - {f} && FrameSynced(t, touched', disk, f)
    ensures Synced(t, touched', disk) && ViewOf(t, disk) == ViewOf(s, disk)
  {
    forall g: FrameId ensures FrameSynced(t, touched', disk, g) {
      assert FrameSynced(s, touched, disk, g);
      assert g != f ==> (g in touched' <==> g in touched' - {f}) && (g in touched <==> g in touched - {f});
    }
  }

  lemma Emptied(s: Frames, touched: set<FrameId>, disk: map<PageId, Page>, f: FrameId)
    requires Core(s, f) && Synced(s, touched, disk) && f < |s.frames| && !s.frames[f].occupied
    ensures Synced(GiveFree(s, f), touched - {f}, disk) && ViewOf(GiveFree(s, f), disk) == ViewOf(s, disk)
  {
    var t := GiveFree(s, f);
    forall g: FrameId ensures FrameSynced(t, touched - {f}, disk, g) { assert FrameSynced(s, touched, disk, g); }
    forall id | id in disk ensures ViewOf(t, disk)[id] == ViewOf(s, disk)[id] { assert EntryOk(s, id); }
  }

  /** Bringing in the disk copy of a page that is not resident changes no view. */
  lemma Installed(s: Frames, touched: set<FrameId>, disk: map<PageId, Page>, f: FrameId, id: PageId)
    requires Core(s, f) && Synced(s, touched, disk) && f < |s.frames| && !s.frames[f].occupied && id !in s.table
      && id in disk
    ensures var t := Install(s, f, id, disk[id]);
      Synced(t, touched - {f}, disk) && ViewOf(t, disk) == ViewOf(s, disk)
  {
    var t := Install(s, f, id, disk[id]);
    forall g: FrameId ensures FrameSynced(t, touched - {f}, disk, g) { assert FrameSynced(s, touched, disk, g); }
    forall x | x in disk ensures ViewOf(t, disk)[x] == ViewOf(s, disk)[x] { assert EntryOk(s, x); }
  }

  /** New pages at the end of the file are invisible to the cache. */
  lemma SyncedGrows(s: Frames, touched: set<FrameId>, disk: map<PageId, Page>, more: map<PageId, Page>)
    requires Synced(s, touched, disk) && forall id :: id in disk ==> id in more && more[id] == disk[id]
    ensures Synced(s, touched, more)
  {
    forall f: FrameId ensures FrameSynced(s, touched, more, f) { assert FrameSynced(s, touched, disk, f); }
  }

  lemma ViewGrows(s: Frames, touched: set<FrameId>, disk: map<PageId, Page>, id: PageId, page: Page)
    requires Core(s, NO_HOLE) && Synced(s, touched, disk) && id !in disk
    ensures ViewOf(s, disk[id := page]) == ViewOf(s, disk)[id := page]
  {
    CachedOnDisk(s, touched, disk);
  }

  /** Only pages of the file are cached. */
  lemma CachedOnDisk(s: Frames, touched: set<FrameId>, disk: map<PageId, Page>)
    requires Core(s, NO_HOLE) && Synced(s, touched, disk)
    ensures s.table.Keys <= disk.Keys
  {
    forall id | id in s.table ensures id in disk {
      assert EntryOk(s, id) && FrameSynced(s, touched, disk, s.table[id]);
    }
  }
}
