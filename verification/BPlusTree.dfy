/** The B+ tree over a store of pages: lookups, insertion with splits, removal with rebalancing, range scans. */
module BPlusTrees {
  import opened StorageTypes
  import opened BTreeShape
  import opened BTreeSplit
  import opened BTreeTorn
  import opened BTreeJoin
  import opened BTreeRebalance

  /** Position of the first occurrence of x, or the length of s. */
  function IndexOf(s: seq<PageId>, x: PageId): (i: nat)
    ensures i <= |s|
    ensures i < |s| ==> s[i] == x
    ensures x in s ==> i < |s|
  {
    if s == [] || s[0] == x then 0 else 1 + IndexOf(s[1..], x)
  }

  /** How many pages the tree allocates above `id` when `id` splits: one for every full
      ancestor that splits in turn, and one for a new root if the splits reach the top. */
  ghost function SplitsAbove(t: Tree, c: Config, id: PageId): nat
    requires Dom(t) && Ups(t) && Inners(t) && id in t.shape
    decreases t.shape[t.root].height - t.shape[id].height
  {
    if id == t.root then 1
    else
      ParentCovers(t, id);
      var p := t.pages[id].parent;
      assert UpOk(t, p);
      if |t.pages[p].keys| < c.innerMax then 0 else 1 + SplitsAbove(t, c, p)
  }

  lemma {:induction false} SplitsAboveSame(t: Tree, t': Tree, c: Config, id: PageId)
    requires Dom(t) && Ups(t) && Inners(t) && Dom(t') && Ups(t') && Inners(t')
    requires id in t.shape && id in t'.shape && t'.root == t.root && t'.pages[id].parent == t.pages[id].parent
    requires forall y :: y in t.shape && t.shape[y].height > t.shape[id].height ==>
               y in t'.shape && |t'.pages[y].keys| == |t.pages[y].keys| && t'.pages[y].parent == t.pages[y].parent
    ensures SplitsAbove(t', c, id) == SplitsAbove(t, c, id)
    decreases t.shape[t.root].height - t.shape[id].height
  {
    if id != t.root {
      ParentCovers(t, id);
      var p := t.pages[id].parent;
      assert UpOk(t, p);
      if |t.pages[p].keys| >= c.innerMax { SplitsAboveSame(t, t', c, p); }
    }
  }

  /** A split leaves the ancestors of the page it reports to as they were. */
  lemma SplitsAboveSplit(t: Tree, t': Tree, c: Config, p: PageId, i: nat, m: nat, r: PageId)
    requires IsSplit(t, t', p, i, m, r) && Ups(t) && Inners(t) && Dom(t') && Ups(t') && Inners(t') && ChildOk(t, p, i)
    ensures SplitsAbove(t', c, p) == SplitsAbove(t, c, p)
  {
    var x := t.pages[p].children[i];
    forall y | y in t.shape && t.shape[y].height > t.shape[p].height
      ensures y in t'.shape && |t'.pages[y].keys| == |t.pages[y].keys| && t'.pages[y].parent == t.pages[y].parent
    {
      if y in Kids(RightHalf(t.pages[x], m)) { ParentCovers(t, y); }
    }
    SplitsAboveSame(t, t', c, p);
  }

  /** Splitting the root ends with a valid tree one level higher. */
  lemma RootSplit(t0: Tree, c: Config, m: nat, right: PageId, top: PageId, pages: map<PageId, Node>) returns (t2: Tree)
    requires Legal(c) && Inv(t0, c, Exempt(t0.root, INVALID, INVALID)) && CanHalve(t0, t0.root, m, right)
    requires Halves(c, t0.pages[t0.root], m) && top !in t0.shape && top != right && top != INVALID
    requires var h := Halved(t0, t0.root, m, right);
      && t0.root in h && right in h
      && pages == h[top := Inner(INVALID, [t0.pages[t0.root].keys[m]], [t0.root, right])]
                   [t0.root := h[t0.root].(parent := top)][right := h[right].(parent := top)]
    ensures Inv(t2, c, NOTHING) && Model(t2) == Model(t0)
    ensures t2.pages == pages && t2.root == top && t2.shape.Keys == t0.shape.Keys + {right, top}
  {
    var t1 := Grow(t0, top);
    GrowKeeps(t0, c, top, t0.root);
    assert LeafOk(t1, t0.root, INVALID) && InnerOk(t1, t0.root);
    SplitKeeps(t1, c, top, 0, m, right, top);
    HalvedToGrown(t0, m, right, top);
    t2 := Split(t1, top, 0, m, right);
    Tighten(t2, c, Exempt(top, INVALID, INVALID), NOTHING);
  }

  /** The page is as it was, except perhaps for its parent. */
  ghost predicate KeptAt(before: map<PageId, Node>, after: map<PageId, Node>, x: PageId) {
    x in before && x in after && after[x] == before[x].(parent := after[x].parent)
  }

  /** All pages of the tree up to this height are. */
  ghost predicate KeptUpTo(t: Tree, h: int, before: map<PageId, Node>, after: map<PageId, Node>) {
    forall x {:trigger KeptAt(before, after, x)} :: x in t.shape && t.shape[x].height <= h ==> KeptAt(before, after, x)
  }

  /** Dividing a page leaves all pages below it as they are. */
  lemma HalvedKeeps(t: Tree, id: PageId, n: Node, m: nat, sid: PageId, before: map<PageId, Node>)
    requires Dom(t) && Ups(t) && Inners(t) && CanHalve(t, id, m, sid) && t.pages == before[id := n]
    ensures KeptUpTo(t, t.shape[id].height - 1, before, Halved(t, id, m, sid))
  {
    var h := Halved(t, id, m, sid);
    forall x | x in t.shape && t.shape[x].height < t.shape[id].height ensures KeptAt(before, h, x) {
      assert x != id && x != sid && x in t.pages;
    }
  }

  /** What is kept below the parent is kept at the height of its child, the new sibling included. */
  lemma ParentKeeps(t0: Tree, t1: Tree, left: PageId, right: PageId, a: map<PageId, Node>, b: map<PageId, Node>)
    requires left in t0.shape && right in t1.shape && t0.shape.Keys <= t1.shape.Keys
    requires t1.shape[right].height == t0.shape[left].height && KeptUpTo(t1, t0.shape[left].height, a, b)
    requires forall x :: x in t0.shape ==> t1.shape[x].height == t0.shape[x].height
    ensures KeptUpTo(t0, t0.shape[left].height, a, b) && KeptAt(a, b, right)
  {
    assert KeptAt(a, b, right);
  }

  /** A new root changes the parents of its two children only. */
  lemma RootKeeps(t0: Tree, left: PageId, right: PageId, top: PageId, n: Node, a: map<PageId, Node>,
      b: map<PageId, Node>)
    requires left in a && right in a && top !in t0.shape && top != right && left != top
    requires forall x :: x in t0.shape ==> x in a
    requires b == a[top := n][left := a[left].(parent := top)][right := a[right].(parent := top)]
    ensures forall h :: KeptUpTo(t0, h, a, b)
    ensures KeptAt(a, b, right)
  {
  }

  /** The divided page and its sibling are there, and so are all others. */
  lemma HalvedHas(t0: Tree, left: PageId, m: nat, right: PageId)
    requires CanHalve(t0, left, m, right)
    ensures forall x :: x in t0.shape ==> x in Halved(t0, left, m, right)
  {
  }

  lemma KeptAgain(t: Tree, h: int, g: int, a: map<PageId, Node>, b: map<PageId, Node>, c: map<PageId, Node>)
    requires KeptUpTo(t, h, a, b) && KeptUpTo(t, g, b, c) && h <= g
    ensures KeptUpTo(t, h, a, c)
  {
    forall x | x in t.shape && t.shape[x].height <= h ensures KeptAt(a, c, x) {
      assert KeptAt(a, b, x) && KeptAt(b, c, x);
    }
  }

  /**
   * What an insertion does to its leaf: the key goes to its place, and a leaf that is then overfull keeps the lower
   * half of its keys and gives the others to the new page.
   */
  ghost predicate LeafGrows(c: Config, n: Node, key: Key, value: RecordId, after: map<PageId, Node>, leaf: PageId,
      added: PageId)
  {
    && n.Leaf? && Sorted(n.keys) && |n.values| == |n.keys| && leaf in after && after[leaf].Leaf?
    && var at := LowerBound(n.keys, key);
    && var keys, values := n.keys[..at] + [key] + n.keys[at..], n.values[..at] + [value] + n.values[at..];
    && var mid := |keys| / 2;
    && if |n.keys| < c.leafMax then after[leaf].keys == keys && after[leaf].values == values
       else
         && after[leaf].keys == keys[..mid] && after[leaf].values == values[..mid]
         && added in after && after[added].Leaf? && after[added].keys == keys[mid..]
         && after[added].values == values[mid..]
  }

  /** Telling a parent about its new child, as a step between trees. */
  lemma ParentSplit(t0: Tree, c: Config, left: PageId, m: nat, right: PageId, pid: PageId, pos: nat) returns (t1: Tree)
    requires Legal(c) && Inv(t0, c, Exempt(left, INVALID, INVALID)) && CanHalve(t0, left, m, right)
      && Halves(c, t0.pages[left], m)
    requires pid in t0.shape && t0.pages[pid].Inner? && pos < |t0.pages[pid].children| == |t0.pages[pid].keys| + 1
    requires t0.pages[pid].children[pos] == left && ChildOk(t0, pid, pos)
    ensures Inv(t1, c, Exempt(pid, INVALID, INVALID)) && Model(t1) == Model(t0)
    ensures t1.pages ==
      Halved(t0, left, m, right)[pid := InsertChild(t0.pages[pid], pos, t0.pages[left].keys[m], right)]
    ensures t1.root == t0.root && t1.shape.Keys == t0.shape.Keys + {right}
    ensures t1.shape[pid] == t0.shape[pid] && t1.shape[t1.root].height == t0.shape[t0.root].height
    ensures SplitsAbove(t1, c, pid) == SplitsAbove(t0, c, pid)
    ensures t1.shape[right].height == t0.shape[left].height == t1.shape[pid].height - 1
    ensures forall x :: x in t0.shape ==> t1.shape[x].height == t0.shape[x].height
  {
    assert LeafOk(t0, left, INVALID) && InnerOk(t0, left);
    SplitKeeps(t0, c, pid, pos, m, right, INVALID);
    HalvedToSplit(t0, pid, pos, m, right);
    t1 := Split(t0, pid, pos, m, right);
    SplitIs(t0, pid, pos, m, right);
    SplitsAboveSplit(t0, t1, c, pid, pos, m, right);
  }

  /** Writing both halves and adopting the moved children is what `Halved` describes. */
  lemma HalvesWritten(t1: Tree, c: Config, id: PageId, n: Node, m: nat, sid: PageId, pages: map<PageId, Node>)
    requires Inv(t1, c, Exempt(id, INVALID, INVALID)) && id in t1.shape && t1.pages == pages[id := n]
    requires CanHalve(t1, id, m, sid)
    ensures var p := pages[sid := RightHalf(n, m)][id := LeftHalf(n, m, sid)];
      && Reparent(p, Kids(RightHalf(n, m)), sid) == Halved(t1, id, m, sid)
      && forall x :: x in Kids(RightHalf(n, m)) ==> x in p && Writable(c, p[x])
  {
    HalvedFacts(t1, id, m, sid);
    forall x | x in Kids(RightHalf(n, m)) ensures x in pages && Writable(c, pages[x]) {
      PageWritable(t1, c, Exempt(id, INVALID, INVALID), x);
    }
    assert pages[sid := RightHalf(n, m)][id := LeftHalf(n, m, sid)] ==
      t1.pages[id := LeftHalf(n, m, sid)][sid := RightHalf(n, m)];
  }

  /** How many pages an insertion into this leaf allocates. */
  ghost function PagesNeeded(t: Tree, c: Config, leaf: PageId): nat
    requires Dom(t) && Ups(t) && Inners(t) && leaf in t.shape
  {
    if |t.pages[leaf].keys| < c.leafMax then 0 else 1 + SplitsAbove(t, c, leaf)
  }

  /** Adding an absent key, as a step between trees. */
  lemma KeyAdded(t: Tree, c: Config, leaf: PageId, k: Key, v: RecordId) returns (t1: Tree)
    requires Inv(t, c, NOTHING) && leaf in t.shape && t.pages[leaf].Leaf? && Covers(t, leaf, k)
    requires k !in t.pages[leaf].keys && LeafOk(t, leaf, INVALID)
    ensures Inv(t1, c, Exempt(leaf, INVALID, INVALID)) && Model(t1) == Model(t)[k := v]
    ensures t1.root == t.root && t1.shape == t.shape && SplitsAbove(t1, c, leaf) == SplitsAbove(t, c, leaf)
    ensures var n := t.pages[leaf]; var at := LowerBound(n.keys, k);
      t1.pages == t.pages[leaf := n.(keys := InsertAt(n.keys, at, k), values := InsertAt(n.values, at, v))]
    ensures LowerBound(t.pages[leaf].keys, k) == 0 ==> t.shape[leaf].lo == NEG
  {
    t1 := PutKey(t, leaf, LowerBound(t.pages[leaf].keys, k), k, v);
    PutKeyKeeps(t, c, leaf, k, v);
    assert UpOk(t, leaf);
    SplitsAboveSame(t, t1, c, leaf);
  }

  /** The first key of a leaf has changed and the separator for it, if there is one, has been rewritten. */
  lemma SeparatorMoved(t: Tree, c: Config, leaf: PageId, first: Key, under: PageId, a: PageId, j: nat,
      pages: map<PageId, Node>)
      returns (t': Tree)
    requires Inv(t, c, Exempt(INVALID, under, leaf)) && leaf in t.shape && t.pages[leaf].Leaf?
    requires |t.pages[leaf].keys| > 0 && t.pages[leaf].keys[0] == first
    requires SeparatorWritten(t, t.shape[leaf].lo, first, a, j, pages)
    ensures Inv(t', c, Exempt(INVALID, under, INVALID)) && Model(t') == Model(t)
    ensures t'.pages == pages && t'.root == t.root && t'.shape.Keys == t.shape.Keys
  {
    assert LeafOk(t, leaf, leaf) && UpOk(t, leaf);
    if t.shape[leaf].lo == NEG || t.shape[leaf].lo == first {
      t' := t;
      Tighten(t, c, Exempt(INVALID, under, leaf), Exempt(INVALID, under, INVALID));
      if t.shape[leaf].lo != NEG { assert t.pages[a].keys[j := first] == t.pages[a].keys; }
    } else {
      t' := Refence(t, a, j, first);
      RefenceKeeps(t, c, a, j, leaf, first, under);
    }
  }

  /** Separator j of page a is rewritten from lo to first; nothing happens at the bottom fence. */
  ghost predicate SeparatorWritten(t: Tree, lo: int, first: Key, a: PageId, j: nat, pages: map<PageId, Node>)
    requires Dom(t)
  {
    if lo == NEG then pages == t.pages
    else
      && a in t.shape && t.pages[a].Inner? && j < |t.pages[a].keys| && t.pages[a].keys[j] == lo
      && pages == t.pages[a := Inner(t.pages[a].parent, t.pages[a].keys[j := first], t.pages[a].children)]
  }

  /** Adopting first and rewriting afterwards gives the same store as the merge. */
  lemma MergePages(t: Tree, c: Config, p: PageId, i: nat, under: PageId, stale: PageId, t': Tree)
    requires Inv(t, c, Exempt(INVALID, under, stale)) && CanJoin(t, p, i)
    requires var x, r := t.pages[p].children[i], t.pages[p].children[i + 1];
      && t'.pages == Reparent(t.pages[x := Joined(t.pages[x], t.pages[r], t.pages[p].keys[i])][p :=
      EraseChild(t.pages[p], i)],
                              Kids(t.pages[r]), x)
      && x in t'.shape && t'.pages.Keys == t.pages.Keys
      && Inv(t', c, Exempt(INVALID, p, if stale == r then INVALID else stale)) && p in t'.shape
    ensures var x, r := t.pages[p].children[i], t.pages[p].children[i + 1];
      && t'.pages == Reparent(t.pages, Kids(t.pages[r]), x)
                       [x := Joined(t.pages[x], t.pages[r], t.pages[p].keys[i])][p := EraseChild(t.pages[p], i)]
      && Writable(c, Joined(t.pages[x], t.pages[r], t.pages[p].keys[i])) && Writable(c, EraseChild(t.pages[p], i))
      && forall k :: k in Kids(t.pages[r]) ==> k in t.pages && Writable(c, t.pages[k])
  {
    var x, r := t.pages[p].children[i], t.pages[p].children[i + 1];
    JoinIs(t, p, i);
    forall k | k in Kids(t.pages[r])
      ensures k in t.shape && k != x && k != p && Writable(c, t.pages[k])
    {
      assert InnerOk(t, p) && ChildOk(t, p, i + 1);
      KidsBelow(t, r);
      PageWritable(t, c, Exempt(INVALID, under, stale), k);
    }
    PageWritable(t', c, Exempt(INVALID, p, if stale == r then INVALID else stale), x);
    PageWritable(t', c, Exempt(INVALID, p, if stale == r then INVALID else stale), p);
  }

  /** Exactly the entries of m with keys in [low, high], ascending. */
  ghost predicate IsRange(m: map<Key, RecordId>, low: Key, high: Key, out: seq<(Key, RecordId)>) {
    && (forall i, j :: 0 <= i < j < |out| ==> out[i].0 < out[j].0)
    && forall k: Key, v: RecordId :: (k, v) in out <==> k in m && m[k] == v && low <= k <= high
  }

  /** The part of the range below the frontier f has been collected. */
  ghost predicate Collected(m: map<Key, RecordId>, low: Key, high: Key, out: seq<(Key, RecordId)>, f: int) {
    && (forall i, j :: 0 <= i < j < |out| ==> out[i].0 < out[j].0)
    && forall k: Key, v: RecordId :: (k, v) in out <==> k in m && m[k] == v && low <= k <= high && k < f
  }

  /** Between two consecutive keys of a leaf, or a key and a fence, the tree has no entry. */
  lemma NoEntryBetween(t: Tree, leaf: PageId, f: int, g: int)
    requires Dom(t) && Ups(t) && Inners(t) && Leaves(t, INVALID) && Listed(t) && Stored(t)
    requires leaf in t.shape && t.pages[leaf].Leaf? && t.shape[leaf].lo <= f && g <= t.shape[leaf].hi
    requires forall i :: 0 <= i < |t.pages[leaf].keys| ==> !(f <= t.pages[leaf].keys[i] < g)
    ensures forall k :: k in t.entries ==> !(f <= k < g)
  {
    forall k | k in t.entries && f <= k < g ensures false {
      EntryIffInLeaf(t, INVALID, leaf, k);
    }
  }

  datatype InsertOutcome = Inserted | Duplicate | OutOfPages

  class BPlusTree {
    const config: Config
    var pages: map<PageId, Node>
    var root: PageId
    var pageCount: nat
    ghost var shape: map<PageId, Info>
    ghost var entries: map<Key, Entry>

    ghost function State(): Tree
      reads this
    {
      Tree(pages, root, shape, entries)
    }

    /** Page identifiers are handed out in increasing order until the catalog is full. */
    ghost predicate Counted(ids: map<PageId, Info>)
      reads this
    {
      pageCount <= CATALOG_BITS && forall id :: id in ids ==> id < pageCount
    }

    ghost predicate Holds(e: Exempt)
      reads this
    {
      Legal(config) && Counted(shape) && Inv(State(), config, e)
    }

    ghost predicate Valid()
      reads this
    {
      Holds(NOTHING)
    }

    /** The finite map from keys to record identifiers that the tree represents. */
    ghost function Contents(): map<Key, RecordId>
      reads this
    {
      Model(State())
    }

    /** An empty root leaf after a metadata page, in a database that already uses some pages. */
    constructor (config: Config, used: nat)
      requires Legal(config) && used + 2 <= CATALOG_BITS
      ensures Valid() && Contents() == map[] && this.config == config && pageCount == used + 2
    {
      this.config := config;
      pages := map[used + 1 := Leaf(INVALID, INVALID, [], [])];
      root := used + 1;
      pageCount := used + 2;
      shape := map[used + 1 := Info(0, NEG, POS)];
      entries := map[];
    }

    method WriteNode(id: PageId, n: Node)
      requires Writable(config, n)
      modifies this`pages
      ensures pages == old(pages)[id := n]
    {
      pages := pages[id := n];
    }

    method AllocateNode(n: Node) returns (ok: bool, id: PageId)
      requires Writable(config, n) && pageCount <= CATALOG_BITS
      modifies this`pages, this`pageCount
      ensures ok <==> old(pageCount) < CATALOG_BITS
      ensures ok ==> id == old(pageCount) && pageCount == old(pageCount) + 1 && pages == old(pages)[id := n]
      ensures !ok ==> pages == old(pages) && pageCount == old(pageCount)
    {
      ok, id := pageCount < CATALOG_BITS, pageCount;
      if ok {
        pageCount := pageCount + 1;
        WriteNode(id, n);
      }
    }

    method SetParent(child: PageId, parent: PageId)
      requires child in pages && Writable(config, pages[child])
      modifies this`pages
      ensures pages == old(pages)[child := old(pages)[child].(parent := parent)]
    {
      WriteNode(child, pages[child].(parent := parent));
    }

    method Adopt(kids: seq<PageId>, parent: PageId)
      requires forall c :: c in kids ==> c in pages && Writable(config, pages[c])
      modifies this`pages
      ensures pages == Reparent(old(pages), kids, parent)
    {
      for i := 0 to |kids|
        invariant pages == Reparent(old(pages), kids[..i], parent)
      {
        assert kids[i] in kids;
        SetParent(kids[i], parent);
        assert forall c :: c in kids[..i + 1] <==> c in kids[..i] || c == kids[i];
      }
      assert kids[..|kids|] == kids;
    }

    /** Follows separators from the root down to the leaf whose range covers the key. */
    method FindLeaf(key: Key) returns (id: PageId)
      requires Dom(State()) && Ups(State()) && Inners(State())
      ensures id in shape && id in pages && pages[id].Leaf? && Covers(State(), id, key)
    {
      ghost var t := State();
      id := root;
      assert UpOk(t, root);
      while pages[id].Inner?
        invariant id in shape && Covers(t, id, key)
        decreases shape[id].height
      {
        assert InnerOk(t, id);
        var i := UpperBound(pages[id].keys, key);
        assert ChildOk(t, id, i);
        id := pages[id].children[i];
      }
    }

    method GetValue(key: Key) returns (r: Option<RecordId>)
      requires Valid()
      ensures r == if key in Contents() then Some(Contents()[key]) else None
    {
      var id := FindLeaf(key);
      ghost var t := State();
      assert LeafOk(t, id, INVALID) && LeafListed(t, id);
      EntryIffInLeaf(t, INVALID, id, key);
      var n := pages[id];
      var at := LowerBound(n.keys, key);
      if at == |n.keys| || n.keys[at] != key {
        return None;
      }
      return Some(n.values[at]);
    }

    /** The state in which a split has written both halves but not told the parent. */
    ghost predicate Halfway(t0: Tree, left: PageId, m: nat, sep: Key, right: PageId)
      reads this
    {
      && Legal(config) && Inv(t0, config, Exempt(left, INVALID, INVALID))
      && CanHalve(t0, left, m, right) && Halves(config, t0.pages[left], m)
      && root == t0.root && sep == t0.pages[left].keys[m]
      && Counted(t0.shape) && right < pageCount
      && pages == Halved(t0, left, m, right)
    }

    /** The catalog ran out while a split was under way. */
    ghost predicate Broken(torn: Torn)
      reads this
    {
      pageCount == CATALOG_BITS && IsTorn(torn, config, pages, root)
    }

    /** Attaches the right half of a split, splitting ancestors as far as needed. */
    method InsertIntoParent(left: PageId, sep: Key, right: PageId, ghost t0: Tree, ghost m: nat)
        returns (ok: bool, ghost torn: Torn)
      requires Halfway(t0, left, m, sep, right)
      modifies this
      ensures ok <==> old(pageCount) + SplitsAbove(t0, config, left) <= CATALOG_BITS
      ensures ok ==> Valid() && Contents() == Model(t0) && pageCount == old(pageCount) + SplitsAbove(t0, config, left)
      ensures ok ==> KeptUpTo(t0, t0.shape[left].height, old(pages), pages) && KeptAt(old(pages), pages, right)
      ensures !ok ==> Broken(torn) && OnTheWayTo(torn, t0)
      decreases t0.shape[t0.root].height - t0.shape[left].height, 2
    {
      HalvedFacts(t0, left, m, right);
      assert UpOk(t0, left);
      if pages[left].parent == INVALID {
        ok, torn := NewRoot(left, sep, right, t0, m);
        return;
      }
      ghost var idx := ParentIndex(t0, left);
      ParentCovers(t0, left);
      var pid := pages[left].parent;
      var pos := IndexOf(pages[pid].children, left);
      assert InnerOk(t0, pid) && UpOk(t0, pid) && ChildOk(t0, pid, pos);
      ok, torn := AttachToParent(left, sep, right, pid, pos, t0, m);
    }

    method NewRoot(left: PageId, sep: Key, right: PageId, ghost t0: Tree, ghost m: nat)
        returns (ok: bool, ghost torn: Torn)
      requires Halfway(t0, left, m, sep, right) && left == t0.root && left in pages && right in pages
      requires Writable(config, pages[left]) && Writable(config, pages[right]) && left != right
      modifies this
      ensures ok <==> old(pageCount) < CATALOG_BITS
      ensures ok ==> Valid() && Contents() == Model(t0) && pageCount == old(pageCount) + 1
      ensures ok ==> KeptUpTo(t0, t0.shape[left].height, old(pages), pages) && KeptAt(old(pages), pages, right)
      ensures !ok ==> Broken(torn) && OnTheWayTo(torn, t0)
    {
      var top;
      torn := Torn(t0, left, m, right);
      ok, top := AllocateNode(Inner(INVALID, [sep], [left, right]));
      if !ok {
        return;
      }
      SetParent(left, top);
      SetParent(right, top);
      HalvedHas(t0, left, m, right);
      RootKeeps(t0, left, right, top, Inner(INVALID, [sep], [left, right]), old(pages), pages);
      root := top;
      ghost var t2 := RootSplit(t0, config, m, right, top, pages);
      Become(t2, NOTHING);
    }

    method AttachToParent(left: PageId, sep: Key, right: PageId, pid: PageId, pos: nat, ghost t0: Tree, ghost m: nat)
      returns (ok: bool, ghost torn: Torn)
      requires Halfway(t0, left, m, sep, right) && left != t0.root && left in pages && right in pages
      requires pid == t0.pages[left].parent && pid in t0.shape && pid in pages && pages[pid] == t0.pages[pid]
      requires t0.pages[pid].Inner? && pos < |t0.pages[pid].children| == |t0.pages[pid].keys| + 1
      requires t0.pages[pid].children[pos] == left && ChildOk(t0, pid, pos)
      requires pages[right].parent == pid && Writable(config, pages[right])
      modifies this
      ensures ok <==> old(pageCount) + SplitsAbove(t0, config, left) <= CATALOG_BITS
      ensures ok ==> Valid() && Contents() == Model(t0) && pageCount == old(pageCount) + SplitsAbove(t0, config, left)
      ensures ok ==> KeptUpTo(t0, t0.shape[left].height, old(pages), pages) && KeptAt(old(pages), pages, right)
      ensures !ok ==> Broken(torn) && OnTheWayTo(torn, t0)
      decreases t0.shape[t0.root].height - t0.shape[left].height, 1
    {
      ghost var full := pageCount == CATALOG_BITS;
      torn := Torn(t0, left, m, right);
      var parent := InsertChild(pages[pid], pos, sep, right);
      SetParent(right, pid);
      assert pages == old(pages);
      ghost var t1 := ParentSplit(t0, config, left, m, right, pid, pos);
      if |parent.keys| <= config.innerMax {
        CompleteSplit(pid, parent, t1);
        ParentKeeps(t0, t1, left, right, old(pages), pages);
        return true, torn;
      }
      assert CapOk(t1, config, pid, pid, INVALID) && UpOk(t1, pid);
      ghost var above;
      ok, above := SplitPage(pid, parent, t1);
      if !full { torn := above; }
      if ok { ParentKeeps(t0, t1, left, right, old(pages), pages); }
    }

    /** Writes the parent that has room for its new child. */
    method CompleteSplit(pid: PageId, parent: Node, ghost t1: Tree)
      requires Legal(config) && Inv(t1, config, Exempt(pid, INVALID, INVALID)) && t1.pages == pages[pid := parent]
        && t1.root == root
      requires Counted(t1.shape) && Writable(config, parent) && |parent.keys| <= MaxKeys(config, parent)
      requires pid in t1.shape
      modifies this`pages, this`shape, this`entries
      ensures Valid() && State() == t1
      ensures KeptUpTo(t1, t1.shape[pid].height - 1, old(pages), pages)
    {
      WriteNode(pid, parent);
      shape, entries := t1.shape, t1.entries;
      Tighten(t1, config, Exempt(pid, INVALID, INVALID), NOTHING);
    }

    /** The page has the lower half of the keys and the new one the rest, without the separator if they are internal. */
    ghost predicate Parted(n: Node, after: map<PageId, Node>, id: PageId, added: PageId) {
      && id in after && added in after && (after[id].Leaf? <==> n.Leaf?) && (after[added].Leaf? <==> n.Leaf?)
      && var mid := |n.keys| / 2;
      && after[id].keys == n.keys[..mid]
      && if n.Leaf? then
           && |n.values| == |n.keys| && after[id].values == n.values[..mid]
           && after[added].keys == n.keys[mid..] && after[added].values == n.values[mid..]
         else
           && |n.keys| > 0 && |n.children| == |n.keys| + 1 && after[id].children == n.children[..mid + 1]
           && after[added].keys == n.keys[mid + 1..] && after[added].children == n.children[mid + 1..]
    }

    /** Divides an overfull page between itself and a newly allocated right sibling. */
    method SplitPage(id: PageId, n: Node, ghost t1: Tree) returns (ok: bool, ghost torn: Torn)
      requires Legal(config) && Inv(t1, config, Exempt(id, INVALID, INVALID)) && id in t1.shape
      requires |n.keys| == MaxKeys(config, n) + 1 && t1.pages == pages[id := n] && root == t1.root && Counted(t1.shape)
      requires if n.Leaf? then |n.values| == |n.keys| else |n.children| == |n.keys| + 1
      modifies this
      ensures ok <==> old(pageCount) + 1 + SplitsAbove(t1, config, id) <= CATALOG_BITS
      ensures ok ==> Valid() && Contents() == Model(t1) && pageCount == old(pageCount) + 1 + SplitsAbove(t1, config, id)
      ensures ok ==> KeptUpTo(t1, t1.shape[id].height - 1, old(pages), pages)
      ensures ok ==> Parted(n, pages, id, old(pageCount))
      ensures !ok && old(pageCount) == CATALOG_BITS ==>
        pages == old(pages) && pageCount == old(pageCount) && root == old(root) && shape == old(shape)
        && entries == old(entries)
      ensures !ok && old(pageCount) < CATALOG_BITS ==> Broken(torn) && OnTheWayTo(torn, t1)
      decreases t1.shape[t1.root].height - t1.shape[id].height, 3
    {
      var mid := |n.keys| / 2;
      torn := Torn(t1, id, mid, pageCount);
      var sid;
      ok, sid := AllocateNode(RightHalf(n, mid));
      if !ok {
        return;
      }
      WriteNode(id, LeftHalf(n, mid, sid));
      HalvesWritten(t1, config, id, n, mid, sid, old(pages));
      Adopt(Kids(RightHalf(n, mid)), sid);
      ghost var halved := pages;
      HalvedKeeps(t1, id, n, mid, sid, old(pages));
      HalvedFacts(t1, id, mid, sid);
      ok, torn := InsertIntoParent(id, n.keys[mid], sid, t1, mid);
      if ok {
        KeptAgain(t1, t1.shape[id].height - 1, t1.shape[id].height, old(pages), halved, pages);
        assert KeptAt(halved, pages, id);
      }
    }

    /** Rewrites the separator that equals the low fence of `child`, in the nearest ancestor that has one. */
    method UpdateParentSeparator(child: PageId, first: Key) returns (ghost a: PageId, ghost j: nat)
      requires Dom(State()) && Ups(State()) && Inners(State()) && child in shape
      requires forall id :: id in shape ==> Writable(config, pages[id])
      modifies this`pages
      ensures SeparatorWritten(old(State()), shape[child].lo, first, a, j, pages)
      decreases shape[root].height - shape[child].height
    {
      a, j := child, 0;
      assert UpOk(State(), child);
      if pages[child].parent == INVALID {
        return;
      }
      ghost var at := ParentIndex(State(), child);
      ParentCovers(State(), child);
      var pid := pages[child].parent;
      var idx := IndexOf(pages[pid].children, child);
      assert InnerOk(State(), pid) && UpOk(State(), pid);
      assert ChildOk(State(), pid, idx);
      if idx > 0 {
        a, j := pid, idx - 1;
        WriteNode(pid, Inner(pages[pid].parent, pages[pid].keys[idx - 1 := first], pages[pid].children));
      } else {
        a, j := UpdateParentSeparator(pid, first);
      }
    }

    /**
     * Adds an absent key. Fails exactly when the catalog cannot supply the pages that the splits need. A failure with
     * the catalog full from the start changes nothing; any other leaves the tree torn, with a range of keys lost.
     */
    method Insert(key: Key, value: RecordId) returns (r: InsertOutcome, ghost leaf: PageId, ghost torn: Torn)
      requires Valid()
      modifies this
      ensures leaf in old(shape) && old(pages[leaf].Leaf?) && Covers(old(State()), leaf, key)
      ensures r == Duplicate <==> key in old(Contents())
      ensures r == OutOfPages <==>
        key !in old(Contents()) && old(pageCount + PagesNeeded(State(), config, leaf)) > CATALOG_BITS
      ensures r == Inserted ==> Valid() && Contents() == old(Contents())[key := value]
      ensures r == Inserted ==> pageCount == old(pageCount + PagesNeeded(State(), config, leaf))
      ensures r == Inserted ==> LeafGrows(config, old(pages[leaf]), key, value, pages, leaf, old(pageCount))
      ensures r == Duplicate || (r == OutOfPages && old(pageCount) == CATALOG_BITS) ==>
        Valid() && State() == old(State()) && pageCount == old(pageCount)
      ensures r == OutOfPages && old(pageCount) < CATALOG_BITS ==>
        Broken(torn) && Model(torn.t) == old(Contents())[key := value]
          && torn.t.shape[root].height == old(shape[root].height)
      ensures r == OutOfPages ==> pageCount == CATALOG_BITS && root == old(root)
    {
      var id := FindLeaf(key);
      leaf := id;
      ghost var t := State();
      torn := Torn(t, id, 0, INVALID);
      assert LeafOk(t, id, INVALID);
      EntryIffInLeaf(t, INVALID, id, key);
      var n := pages[id];
      var at := LowerBound(n.keys, key);
      if at < |n.keys| && n.keys[at] == key {
        return Duplicate, leaf, torn;
      }
      ghost var t1 := KeyAdded(t, config, id, key, value);
      var n' := n.(keys := InsertAt(n.keys, at, key), values := InsertAt(n.values, at, value));
      if |n'.keys| <= config.leafMax {
        AddInPlace(id, n', at, key, t1);
        return Inserted, leaf, torn;
      }
      assert CapOk(t1, config, id, id, INVALID);
      var ok;
      ok, torn := SplitPage(id, n', t1);
      r := if ok then Inserted else OutOfPages;
    }

    method AddInPlace(id: PageId, n: Node, at: nat, key: Key, ghost t1: Tree)
      requires Valid() && id in shape && Inv(t1, config, Exempt(id, INVALID, INVALID))
      requires t1.pages == pages[id := n] && t1.root == root && t1.shape == shape && Writable(config, n) && n.Leaf?
      requires at == 0 ==> shape[id].lo == NEG
      modifies this`pages, this`entries
      ensures Valid() && Contents() == Model(t1) && id in pages && pages[id] == n
    {
      WriteNode(id, n);
      entries := t1.entries;
      assert State() == t1;
      Tighten(t1, config, Exempt(id, INVALID, INVALID), NOTHING);
      if at == 0 {
        forall x | x in shape ensures Writable(config, pages[x]) { PageWritable(t1, config, NOTHING, x); }
        ghost var a, j := UpdateParentSeparator(id, key);
        assert State() == t1;
      }
    }

    /** Moves the separator of a leaf whose first key changed; `from` is that leaf or an ancestor starting with it. */
    method FixSeparator(leaf: PageId, from: PageId, first: Key, ghost under: PageId)
      requires Holds(Exempt(INVALID, under, leaf)) && leaf in shape && pages[leaf].Leaf?
      requires |pages[leaf].keys| > 0 && pages[leaf].keys[0] == first
      requires from in shape && shape[from].lo == shape[leaf].lo
      modifies this`pages, this`shape, this`entries
      ensures Holds(Exempt(INVALID, under, INVALID)) && Contents() == old(Contents()) && shape.Keys == old(shape.Keys)
      ensures forall x :: x in shape && old(pages[x].Inner?) ==> pages[x].Inner?
    {
      ghost var t := State();
      forall x | x in shape ensures Writable(config, pages[x]) {
        PageWritable(t, config, Exempt(INVALID, under, leaf), x);
      }
      ghost var a, j := UpdateParentSeparator(from, first);
      ghost var t' := SeparatorMoved(t, config, leaf, first, under, a, j, pages);
      shape, entries := t'.shape, t'.entries;
      assert State() == t';
    }

    /** Children i and i + 1 of pid, one of which is short. */
    ghost predicate Site(pid: PageId, i: nat, under: PageId, stale: PageId)
      reads this
    {
      && Holds(Exempt(INVALID, under, stale))
      && CanJoin(State(), pid, i)
      && under in {pages[pid].children[i], pages[pid].children[i + 1]}
    }

    /** Writes three different pages, the parent last. */
    method WriteNodes(left: PageId, l: Node, right: PageId, r: Node, pid: PageId, p: Node)
      requires Writable(config, l) && Writable(config, r) && Writable(config, p)
      modifies this`pages
      ensures pages == old(pages)[left := l][right := r][pid := p]
    {
      WriteNode(left, l);
      WriteNode(right, r);
      WriteNode(pid, p);
    }

    /** The pages are those of t; so is the shape from now on. */
    ghost method Become(t: Tree, e: Exempt)
      requires Legal(config) && Inv(t, config, e) && Counted(t.shape) && t.pages == pages && t.root == root
      modifies this`shape, this`entries
      ensures State() == t && Holds(e)
    {
      shape, entries := t.shape, t.entries;
    }

    method BorrowLeafLeft(pid: PageId, i: nat, ghost stale: PageId)
      requires pid in pages && pages[pid].Inner? && i + 1 < |pages[pid].children|
      requires Site(pid, i, pages[pid].children[i + 1], stale) && stale in {pages[pid].children[i + 1], INVALID}
      requires var l, n := pages[pages[pid].children[i]], pages[pages[pid].children[i + 1]];
        l.Leaf? && |l.keys| > (config.leafMax + 1) / 2 && |n.keys| == (config.leafMax + 1) / 2 - 1
      modifies this`pages, this`shape, this`entries
      ensures Valid() && Contents() == old(Contents())
    {
      ghost var t := State();
      ghost var t' := LeafBorrowsLeft(t, config, pid, i, stale);
      var p := pages[pid];
      var lid, id := p.children[i], p.children[i + 1];
      var l, n := pages[lid], pages[id];
      n := Leaf(n.parent, n.next, [Last(l.keys)] + n.keys, [Last(l.values)] + n.values);
      assert n.keys[0] == Last(l.keys);
      l := Leaf(l.parent, l.next, l.keys[..|l.keys| - 1], l.values[..|l.keys| - 1]);
      p := Inner(p.parent, p.keys[i := n.keys[0]], p.children);
      PageWritable(t, config, Exempt(INVALID, id, stale), lid);
      PageWritable(t, config, Exempt(INVALID, id, stale), pid);
      WriteNodes(lid, l, id, n, pid, p);
      Become(t', NOTHING);
    }

    method BorrowLeafRight(pid: PageId, i: nat, ghost stale: PageId)
      requires pid in pages && pages[pid].Inner? && i + 1 < |pages[pid].children|
      requires Site(pid, i, pages[pid].children[i], stale) && stale == pages[pid].children[i]
      requires var n, r := pages[pages[pid].children[i]], pages[pages[pid].children[i + 1]];
        n.Leaf? && |r.keys| > (config.leafMax + 1) / 2 && |n.keys| == (config.leafMax + 1) / 2 - 1
      modifies this`pages, this`shape, this`entries
      ensures Holds(Exempt(INVALID, INVALID, stale)) && Contents() == old(Contents())
      ensures stale in shape && pages[stale].Leaf? && |pages[stale].keys| > 0 && shape.Keys == old(shape.Keys)
      ensures shape[stale].lo == old(shape[stale].lo) && shape[pid] == old(shape[pid])
    {
      ghost var t := State();
      ghost var t' := LeafBorrowsRight(t, config, pid, i, stale);
      var p := pages[pid];
      var id, rid := p.children[i], p.children[i + 1];
      var n, r := pages[id], pages[rid];
      n := Leaf(n.parent, n.next, n.keys + [r.keys[0]], n.values + [r.values[0]]);
      r := Leaf(r.parent, r.next, r.keys[1..], r.values[1..]);
      p := Inner(p.parent, p.keys[i := r.keys[0]], p.children);
      PageWritable(t, config, Exempt(INVALID, id, stale), rid);
      PageWritable(t, config, Exempt(INVALID, id, stale), pid);
      WriteNodes(id, n, rid, r, pid, p);
      Become(t', Exempt(INVALID, INVALID, stale));
    }

    method BorrowInnerLeft(pid: PageId, i: nat)
      requires pid in pages && pages[pid].Inner? && i + 1 < |pages[pid].children|
      requires Site(pid, i, pages[pid].children[i + 1], INVALID)
      requires var l, n := pages[pages[pid].children[i]], pages[pages[pid].children[i + 1]];
        l.Inner? && |l.keys| > config.innerMax / 2 && |n.keys| == config.innerMax / 2 - 1
      modifies this`pages, this`shape, this`entries
      ensures Valid() && Contents() == old(Contents())
    {
      ghost var t := State();
      ghost var t' := InnerBorrowsLeft(t, config, pid, i);
      var p := pages[pid];
      var lid, id := p.children[i], p.children[i + 1];
      ghost var e := Exempt(INVALID, id, INVALID);
      var l, n := pages[lid], pages[id];
      var moved := Last(l.children);
      n := Inner(n.parent, [p.keys[i]] + n.keys, [moved] + n.children);
      p := Inner(p.parent, p.keys[i := Last(l.keys)], p.children);
      l := Inner(l.parent, l.keys[..|l.keys| - 1], l.children[..|l.keys|]);
      PageWritable(t, config, e, lid);
      PageWritable(t, config, e, pid);
      PageWritable(t, config, e, moved);
      SetParent(moved, id);
      WriteNodes(lid, l, id, n, pid, p);
      Become(t', NOTHING);
    }

    method BorrowInnerRight(pid: PageId, i: nat)
      requires pid in pages && pages[pid].Inner? && i + 1 < |pages[pid].children|
      requires Site(pid, i, pages[pid].children[i], INVALID)
      requires var n, r := pages[pages[pid].children[i]], pages[pages[pid].children[i + 1]];
        n.Inner? && |r.keys| > config.innerMax / 2 && |n.keys| == config.innerMax / 2 - 1
      modifies this`pages, this`shape, this`entries
      ensures Valid() && Contents() == old(Contents())
    {
      ghost var t := State();
      ghost var t' := InnerBorrowsRight(t, config, pid, i);
      var p := pages[pid];
      var id, rid := p.children[i], p.children[i + 1];
      ghost var e := Exempt(INVALID, id, INVALID);
      var n, r := pages[id], pages[rid];
      var moved := r.children[0];
      n := Inner(n.parent, n.keys + [p.keys[i]], n.children + [moved]);
      p := Inner(p.parent, p.keys[i := r.keys[0]], p.children);
      r := Inner(r.parent, r.keys[1..], r.children[1..]);
      PageWritable(t, config, e, rid);
      PageWritable(t, config, e, pid);
      PageWritable(t, config, e, moved);
      SetParent(moved, id);
      WriteNodes(id, n, rid, r, pid, p);
      Become(t', NOTHING);
    }

    /** Merges child i + 1 of pid into child i; the children of an internal page move along. */
    method MergeChildren(pid: PageId, i: nat, ghost under: PageId, ghost stale: PageId)
      requires pid in pages && pages[pid].Inner? && i + 1 < |pages[pid].children| && Site(pid, i, under, stale)
      requires var l, r := pages[pages[pid].children[i]], pages[pages[pid].children[i + 1]];
        |l.keys| + |r.keys| < 2 * MinKeys(config, l)
      modifies this`pages, this`shape, this`entries
      ensures var stale' := if stale == old(pages[pid].children[i + 1]) then INVALID else stale;
        Holds(Exempt(INVALID, pid, stale'))
      ensures Contents() == old(Contents())
      ensures pid in shape && shape[pid] == old(shape[pid]) && pages[pid].Inner?
      ensures root == old(root) && shape[root].height == old(shape[root].height)
      ensures var x, r := old(pages[pid].children[i]), old(pages[pid].children[i + 1]);
        && x in shape && shape[x].lo == old(shape[x].lo)
        && (old(pages[x].Leaf?) ==> pages[x].Leaf? && pages[x].keys == old(pages[x].keys + pages[r].keys))
    {
      ghost var t := State();
      var p := pages[pid];
      var x, rid := p.children[i], p.children[i + 1];
      var l, r := pages[x], pages[rid];
      ghost var t' := Merged(t, config, pid, i, under, stale);
      MergePages(t, config, pid, i, under, stale, t');
      Adopt(Kids(r), x);
      WriteNode(x, Joined(l, r, p.keys[i]));
      WriteNode(pid, EraseChild(p, i));
      shape, entries := t'.shape, t'.entries;
      assert State() == t';
    }

    /** The parent of a short page, the page's position, and room for a neighbour. */
    method Locate(id: PageId, ghost stale: PageId) returns (pid: PageId, idx: nat)
      requires Holds(Exempt(INVALID, id, stale)) && id in shape && id != root
      ensures pid in shape && pid in pages && pages[pid].Inner? && pages[id].parent == pid
      ensures idx < |pages[pid].children| && pages[pid].children[idx] == id && |pages[pid].children| >= 2
      ensures shape[pid].height == shape[id].height + 1 <= shape[root].height
      ensures idx == 0 ==> shape[pid].lo == shape[id].lo
      ensures if idx > 0 then Site(pid, idx - 1, id, stale) else Site(pid, idx, id, stale)
    {
      ghost var t := State();
      ghost var at := ParentIndex(t, id);
      pid := pages[id].parent;
      idx := IndexOf(pages[pid].children, id);
      assert InnerOk(t, pid) && UpOk(t, pid) && CapOk(t, config, pid, INVALID, id);
      assert ChildOk(t, pid, idx);
      CanJoinHere(t, stale, pid, if idx > 0 then idx - 1 else idx);
    }

    /** Repairs a leaf that has just lost an entry it needed. */
    method RebalanceLeaf(id: PageId)
      requires Holds(Exempt(INVALID, id, id)) && id in shape && id != root
      requires pages[id].Leaf? && |pages[id].keys| < (config.leafMax + 1) / 2
      modifies this`pages, this`root, this`shape, this`entries
      ensures Valid() && Contents() == old(Contents())
    {
      assert CapOk(State(), config, id, INVALID, id);
      var min := (config.leafMax + 1) / 2;
      var pid, idx := Locate(id, id);
      if idx > 0 {
        assert CapOk(State(), config, pages[pid].children[idx - 1], INVALID, id);
        if |pages[pages[pid].children[idx - 1]].keys| > min {
          BorrowLeafLeft(pid, idx - 1, id);
        } else {
          MergeChildren(pid, idx - 1, id, id);
          RebalanceInternal(pid);
        }
      } else {
        ghost var c := pages[pid].children[1];
        assert CapOk(State(), config, c, INVALID, id) && LeafOk(State(), c, id);
        if |pages[pages[pid].children[1]].keys| > min {
          BorrowLeafRight(pid, 0, id);
          FixSeparator(id, pid, pages[id].keys[0], INVALID);
        } else {
          MergeChildren(pid, 0, id, id);
          FixSeparator(id, pid, pages[id].keys[0], pid);
          RebalanceInternal(pid);
        }
      }
    }

    /** Repairs an internal page that has just lost a child, up to the root if necessary. */
    method RebalanceInternal(id: PageId)
      requires Holds(Exempt(INVALID, id, INVALID)) && id in shape && pages[id].Inner?
      modifies this`pages, this`root, this`shape, this`entries
      ensures Valid() && Contents() == old(Contents())
      decreases shape[root].height - shape[id].height
    {
      ghost var t := State();
      assert CapOk(t, config, id, INVALID, id) && InnerOk(t, id) && UpOk(t, id);
      if id == root {
        if pages[id].keys == [] {
          ContractRoot();
        } else {
          Tighten(t, config, Exempt(INVALID, id, INVALID), NOTHING);
          WriteNode(id, pages[id]);
          assert State() == t;
        }
        return;
      }
      var min := config.innerMax / 2;
      if |pages[id].keys| >= min {
        Tighten(t, config, Exempt(INVALID, id, INVALID), NOTHING);
        WriteNode(id, pages[id]);
        assert State() == t;
        return;
      }
      var pid, idx := Locate(id, INVALID);
      if idx > 0 {
        assert CapOk(t, config, pages[pid].children[idx - 1], INVALID, id);
        if |pages[pages[pid].children[idx - 1]].keys| > min {
          BorrowInnerLeft(pid, idx - 1);
        } else {
          MergeChildren(pid, idx - 1, id, INVALID);
          RebalanceInternal(pid);
        }
      } else {
        assert CapOk(t, config, pages[pid].children[1], INVALID, id);
        if |pages[pages[pid].children[1]].keys| > min {
          BorrowInnerRight(pid, 0);
        } else {
          MergeChildren(pid, 0, id, INVALID);
          RebalanceInternal(pid);
        }
      }
    }

    method ContractRoot()
      requires Holds(Exempt(INVALID, root, INVALID)) && pages[root].Inner? && pages[root].keys == []
      modifies this`pages, this`root, this`shape, this`entries
      ensures Valid() && Contents() == old(Contents())
    {
      ghost var t := State();
      assert InnerOk(t, root) && ChildOk(t, root, 0);
      var child := pages[root].children[0];
      PageWritable(t, config, Exempt(INVALID, root, INVALID), child);
      SetParent(child, INVALID);
      root := child;
      ContractKeeps(t, config);
      shape := Contract(t).shape;
      assert State() == Contract(t);
    }

    /** Removes a key; the result says whether it was present. */
    method Remove(key: Key) returns (r: bool)
      requires Valid()
      modifies this`pages, this`root, this`shape, this`entries
      ensures Valid()
      ensures r <==> key in old(Contents())
      ensures Contents() == old(Contents()) - {key}
      ensures !r ==> pages == old(pages) && root == old(root)
    {
      var id := FindLeaf(key);
      ghost var t := State();
      assert LeafOk(t, id, INVALID);
      EntryIffInLeaf(t, INVALID, id, key);
      var n := pages[id];
      var at := LowerBound(n.keys, key);
      if at == |n.keys| || n.keys[at] != key {
        return false;
      }
      ghost var t1 := KeyRemoved(t, config, id, at);
      n := Leaf(n.parent, n.next, RemoveAt(n.keys, at), RemoveAt(n.values, at));
      PageWritable(t, config, NOTHING, id);
      WriteNode(id, n);
      entries := t1.entries;
      assert State() == t1;
      Settle(id, at);
      return true;
    }

    /** What follows the removal of entry `at`: nothing, a new separator, or rebalancing. */
    method Settle(id: PageId, at: nat)
      requires Holds(Exempt(INVALID, id, id)) && id in shape && pages[id].Leaf?
      requires at > 0 ==> LeafShape(pages[id], shape[id].lo, shape[id].hi, true)
      modifies this`pages, this`root, this`shape, this`entries
      ensures Valid() && Contents() == old(Contents())
    {
      ghost var t, e := State(), Exempt(INVALID, id, id);
      if id == root {
        assert UpOk(t, id) && LeafOk(t, id, id);
        Tighten(t, config, e, NOTHING);
      } else if |pages[id].keys| >= (config.leafMax + 1) / 2 {
        Tighten(t, config, e, Exempt(INVALID, INVALID, id));
        if at == 0 {
          FixSeparator(id, id, pages[id].keys[0], INVALID);
        } else {
          Tighten(t, config, Exempt(INVALID, INVALID, id), NOTHING);
        }
      } else {
        RebalanceLeaf(id);
      }
    }

    /** Every entry with a key in [low, high], in ascending order, found by following leaf links only. */
    method Scan(low: Key, high: Key) returns (out: seq<(Key, RecordId)>)
      requires Valid()
      ensures IsRange(Contents(), low, high, out)
    {
      out := [];
      if low > high {
        return;
      }
      ghost var t := State();
      var id := FindLeaf(low);
      while id != INVALID
        invariant id != INVALID ==>
          id in shape && pages[id].Leaf? && Collected(Contents(), low, high, out, shape[id].lo)
        invariant id == INVALID ==> Collected(Contents(), low, high, out, POS)
        decreases if id == INVALID then 0 else POS - shape[id].lo + 1
      {
        assert LeafOk(t, id, INVALID) && UpOk(t, id);
        var done;
        out, done := ScanLeaf(low, high, id, out);
        if done {
          return;
        }
        id := pages[id].next;
        if id != INVALID { assert UpOk(t, id); }
      }
    }

    method ScanLeaf(low: Key, high: Key, id: PageId, before: seq<(Key, RecordId)>)
        returns (out: seq<(Key, RecordId)>, done: bool)
      requires Valid() && id in shape && pages[id].Leaf? && Collected(Contents(), low, high, before, shape[id].lo)
      ensures Collected(Contents(), low, high, out, if done then POS else shape[id].hi)
    {
      out, done := before, false;
      ghost var t, f := State(), shape[id].lo;
      assert LeafOk(t, id, INVALID) && LeafListed(t, id);
      var n := pages[id];
      for i := 0 to |n.keys|
        invariant Collected(Contents(), low, high, out, f)
        invariant f == if i == 0 then shape[id].lo else (n.keys[i - 1] as int) + 1
      {
        NoEntryBetween(t, id, f, n.keys[i]);
        f := (n.keys[i] as int) + 1;
        if n.keys[i] < low {
          continue;
        }
        if n.keys[i] > high {
          done := true;
          return;
        }
        out := out + [(n.keys[i], n.values[i])];
      }
      NoEntryBetween(t, id, f, shape[id].hi);
    }
  }
}
