/** What a valid B+ tree looks like from the outside, against definitions that know nothing of fences. */
module BTreeTheorems {
  import opened StorageTypes
  import opened BTreeShape

  ghost predicate Sound(t: Tree) {
    Dom(t) && Ups(t) && Inners(t) && Leaves(t, INVALID)
  }

  /** The leaf reached by always taking the first child. */
  ghost function FirstLeaf(t: Tree, id: PageId): (leaf: PageId)
    requires Sound(t) && id in t.shape
    ensures leaf in t.shape && t.pages[leaf].Leaf? && t.shape[leaf].lo == t.shape[id].lo
    decreases t.shape[id].height
  {
    if t.pages[id].Leaf? then id
    else
      assert InnerOk(t, id) && ChildOk(t, id, 0);
      FirstLeaf(t, t.pages[id].children[0])
  }

  /** Every separator is the first key of the subtree to its right. */
  lemma SeparatorIsFirstKey(t: Tree, id: PageId, i: nat)
    requires Sound(t) && id in t.shape && t.pages[id].Inner? && i < |t.pages[id].keys|
    ensures i + 1 < |t.pages[id].children| && t.pages[id].children[i + 1] in t.shape
    ensures var first := t.pages[FirstLeaf(t, t.pages[id].children[i + 1])];
      |first.keys| > 0 && first.keys[0] == t.pages[id].keys[i]
  {
    assert InnerOk(t, id) && UpOk(t, id);
    assert ChildOk(t, id, i + 1);
    assert LeafOk(t, FirstLeaf(t, t.pages[id].children[i + 1]), INVALID);
  }

  /** The leaves below a page from left to right, by recursive descent. */
  ghost function InOrder(t: Tree, id: PageId): seq<PageId>
    requires Sound(t) && id in t.shape
    decreases t.shape[id].height, 0
  {
    if t.pages[id].Leaf? then [id]
    else
      assert InnerOk(t, id);
      InOrderUpTo(t, id, |t.pages[id].children|)
  }

  ghost function InOrderUpTo(t: Tree, id: PageId, n: nat): seq<PageId>
    requires Sound(t) && id in t.shape && t.pages[id].Inner? && n <= |t.pages[id].children|
    decreases t.shape[id].height, 0, n
  {
    if n == 0 then []
    else
      assert InnerOk(t, id) && ChildOk(t, id, n - 1);
      InOrderUpTo(t, id, n - 1) + InOrder(t, t.pages[id].children[n - 1])
  }

  /** The leaves met by following links from a leaf until one ends at the fence hi. */
  ghost function Chain(t: Tree, leaf: PageId, hi: int): seq<PageId>
    requires Sound(t) && leaf in t.shape && t.pages[leaf].Leaf?
    decreases POS - t.shape[leaf].lo
  {
    assert LeafOk(t, leaf, INVALID) && UpOk(t, leaf);
    if t.shape[leaf].hi == hi || t.shape[leaf].hi == POS then [leaf]
    else
      assert UpOk(t, t.pages[leaf].next);
      [leaf] + Chain(t, t.pages[leaf].next, hi)
  }

  /** A chain up to a middle fence continues with the chain from the leaf that starts there. */
  lemma {:induction false} ChainContinues(t: Tree, leaf: PageId, mid: PageId, hi: int)
    requires Sound(t) && leaf in t.shape && t.pages[leaf].Leaf? && mid in t.shape && t.pages[mid].Leaf?
    requires t.shape[leaf].lo < t.shape[mid].lo < hi
    ensures Chain(t, leaf, hi) == Chain(t, leaf, t.shape[mid].lo) + Chain(t, mid, hi)
    decreases POS - t.shape[leaf].lo
  {
    assert LeafOk(t, leaf, INVALID) && UpOk(t, leaf) && UpOk(t, mid);
    EndsBefore(t, leaf, mid);
    var next := t.pages[leaf].next;
    assert UpOk(t, next);
    if t.shape[leaf].hi == t.shape[mid].lo {
      LeafUnique(t, next, mid);
    } else {
      ChainContinues(t, next, mid, hi);
    }
  }

  /** A leaf that starts before another also ends before or where the other starts. */
  lemma EndsBefore(t: Tree, leaf: PageId, mid: PageId)
    requires Sound(t) && leaf in t.shape && t.pages[leaf].Leaf? && mid in t.shape && t.pages[mid].Leaf?
    requires t.shape[leaf].lo < t.shape[mid].lo
    ensures t.shape[leaf].hi <= t.shape[mid].lo
  {
    assert UpOk(t, mid);
    if t.shape[mid].lo < t.shape[leaf].hi {
      CoverUnique(t, leaf, mid, t.shape[mid].lo);
    }
  }

  /** Below every page, following the leaf links visits the leaves in order. */
  lemma {:induction false} ChainIsInOrder(t: Tree, id: PageId)
    requires Sound(t) && id in t.shape
    ensures InOrder(t, id) == Chain(t, FirstLeaf(t, id), t.shape[id].hi)
    decreases t.shape[id].height, 0
  {
    if t.pages[id].Inner? {
      assert InnerOk(t, id) && UpOk(t, id);
      assert ChildOk(t, id, |t.pages[id].children| - 1);
      ChainIsInOrderUpTo(t, id, |t.pages[id].children|);
    }
  }

  lemma {:induction false} ChainIsInOrderUpTo(t: Tree, id: PageId, n: nat)
    requires Sound(t) && id in t.shape && t.pages[id].Inner? && InnerOk(t, id) && UpOk(t, id)
      && 0 < n <= |t.pages[id].children|
    ensures InOrderUpTo(t, id, n)
         == Chain(t, FirstLeaf(t, id), Fence(t.pages[id].keys, t.shape[id].lo, t.shape[id].hi, n))
    decreases t.shape[id].height, 0, n
  {
    assert ChildOk(t, id, n - 1);
    var c := t.pages[id].children[n - 1];
    ChainIsInOrder(t, c);
    if n == 1 {
      assert InOrderUpTo(t, id, 0) == [];
    } else {
      ChainIsInOrderUpTo(t, id, n - 1);
      FenceIncreases(t, id, 0, n - 1);
      FenceIncreases(t, id, n - 1, n);
      ChainContinues(t, FirstLeaf(t, id), FirstLeaf(t, c), t.shape[c].hi);
    }
  }

  /** Number of parent links from a page to the root. */
  ghost function Depth(t: Tree, id: PageId): nat
    requires Sound(t) && id in t.shape
    decreases t.shape[t.root].height - t.shape[id].height
  {
    if id == t.root then 0
    else
      ParentCovers(t, id);
      assert UpOk(t, t.pages[id].parent);
      1 + Depth(t, t.pages[id].parent)
  }

  lemma {:induction false} DepthAddsUp(t: Tree, id: PageId)
    requires Sound(t) && id in t.shape
    ensures Depth(t, id) + t.shape[id].height == t.shape[t.root].height
    decreases t.shape[t.root].height - t.shape[id].height
  {
    if id != t.root {
      ParentCovers(t, id);
      assert UpOk(t, t.pages[id].parent);
      DepthAddsUp(t, t.pages[id].parent);
    }
  }

  /** All leaves are equally far from the root. */
  lemma LeavesAtOneDepth(t: Tree, x: PageId, y: PageId)
    requires Sound(t) && x in t.shape && y in t.shape && t.pages[x].Leaf? && t.pages[y].Leaf?
    ensures Depth(t, x) == Depth(t, y)
  {
    DepthAddsUp(t, x);
    DepthAddsUp(t, y);
  }
}
