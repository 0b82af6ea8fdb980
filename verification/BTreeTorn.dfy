/** What lookups find in a tree whose split was cut short for want of a page: everything but the range split off. */
module BTreeTorn {
  import opened StorageTypes
  import opened BTreeShape
  import opened BTreeSplit

  /** The page that a descent of h levels from `id` ends in. */
  ghost function Descend(pages: map<PageId, Node>, id: PageId, k: Key, h: nat): PageId
    decreases h
  {
    if h == 0 || id !in pages || pages[id].Leaf? || !Sorted(pages[id].keys)
      || |pages[id].children| != |pages[id].keys| + 1 then id
    else Descend(pages, pages[id].children[UpperBound(pages[id].keys, k)], k, h - 1)
  }

  ghost function InLeaf(n: Node, k: Key): Option<RecordId> {
    if n.Inner? || !Sorted(n.keys) || |n.values| != |n.keys| then None
    else
      var at := LowerBound(n.keys, k);
      if at < |n.keys| && n.keys[at] == k then Some(n.values[at]) else None
  }

  /** What a lookup in these pages returns. */
  ghost function Lookup(pages: map<PageId, Node>, root: PageId, h: nat, k: Key): Option<RecordId> {
    var id := Descend(pages, root, k, h);
    if id in pages then InLeaf(pages[id], k) else None
  }

  function Get(m: map<Key, RecordId>, k: Key): Option<RecordId> {
    if k in m then Some(m[k]) else None
  }

  /** A split of page x of t at m has written both halves, but the parent does not know the right one. */
  datatype Torn = Torn(t: Tree, x: PageId, m: nat, r: PageId)

  ghost predicate Tearing(torn: Torn, c: Config) {
    && Legal(c) && Inv(torn.t, c, Exempt(torn.x, INVALID, INVALID)) && CanHalve(torn.t, torn.x, torn.m, torn.r)
    && Halves(c, torn.t.pages[torn.x], torn.m)
  }

  ghost predicate IsTorn(torn: Torn, c: Config, pages: map<PageId, Node>, root: PageId) {
    Tearing(torn, c) && root == torn.t.root && pages == Halved(torn.t, torn.x, torn.m, torn.r)
  }

  /** The tree was on its way to represent the same map as t, at the same height. */
  ghost predicate OnTheWayTo(torn: Torn, t: Tree) {
    && Model(torn.t) == Model(t) && torn.t.root == t.root && t.root in torn.t.shape && t.root in t.shape
    && torn.t.shape[t.root].height == t.shape[t.root].height
  }

  /** The key lies in the range that was split off. */
  ghost predicate Lost(torn: Torn, k: int)
    requires torn.x in torn.t.shape && torn.x in torn.t.pages && torn.m < |torn.t.pages[torn.x].keys|
  {
    Covers(torn.t, torn.x, k) && torn.t.pages[torn.x].keys[torn.m] <= k
  }

  /** The child that a descent takes, and its range. */
  lemma ChildTaken(t: Tree, id: PageId, k: Key) returns (i: nat)
    requires Dom(t) && Ups(t) && Inners(t) && id in t.shape && t.pages[id].Inner?
    ensures InnerShape(t.pages[id], t.shape[id].lo, t.shape[id].hi) && i == UpperBound(t.pages[id].keys, k)
      && ChildOk(t, id, i)
    ensures var d := t.pages[id].children[i];
      t.shape[id].lo <= t.shape[d].lo && t.shape[d].hi <= t.shape[id].hi && (Covers(t, id, k) ==> Covers(t, d, k))
  {
    assert InnerOk(t, id) && UpOk(t, id);
    i := UpperBound(t.pages[id].keys, k);
    assert ChildOk(t, id, i);
  }

  /** The child that a descent takes in the left half. */
  lemma LeftChildTaken(t: Tree, id: PageId, m: nat, k: Key) returns (i: nat)
    requires Dom(t) && Ups(t) && Inners(t) && id in t.shape && t.pages[id].Inner? && m < |t.pages[id].keys|
    ensures InnerShape(t.pages[id], t.shape[id].lo, t.shape[id].hi) && Sorted(t.pages[id].keys[..m])
    ensures i == UpperBound(t.pages[id].keys[..m], k) && ChildOk(t, id, i)
    ensures var d := t.pages[id].children[i];
      && t.shape[id].lo <= t.shape[d].lo && t.shape[d].hi <= t.pages[id].keys[m] && t.shape[d].hi <= t.shape[id].hi
      && (Covers(t, id, k) && k < t.pages[id].keys[m] ==> Covers(t, d, k))
  {
    assert InnerOk(t, id) && UpOk(t, id);
    i := UpperBound(t.pages[id].keys[..m], k);
    assert ChildOk(t, id, i);
  }

  /** Pages of the old shape keep their keys, children and values, except that x loses its right half. */
  lemma HalvedPage(t: Tree, x: PageId, m: nat, r: PageId, id: PageId)
    requires CanHalve(t, x, m, r) && Ups(t) && Inners(t) && id in t.shape
    ensures var h := Halved(t, x, m, r);
      && id in h && (id == x ==> h[id] == LeftHalf(t.pages[x], m, r))
      && (id != x ==> h[id] == t.pages[id].(parent := h[id].parent))
  {
    HalvedFacts(t, x, m, r);
  }

  /**
   * A descent through the torn tree stays below where it starts, and finds the covering leaf unless the key is lost.
   */
  lemma {:induction false} DescendEnds(torn: Torn, c: Config, id: PageId, k: Key)
    requires Tearing(torn, c) && id in torn.t.shape
    ensures var t := torn.t; var d := Descend(Halved(t, torn.x, torn.m, torn.r), id, k, t.shape[id].height);
      && d in t.shape && t.pages[d].Leaf? && t.shape[id].lo <= t.shape[d].lo && t.shape[d].hi <= t.shape[id].hi
      && (Covers(t, id, k) && !Lost(torn, k) ==> Covers(t, d, k))
    decreases torn.t.shape[id].height
  {
    var t, x, m := torn.t, torn.x, torn.m;
    HalvedPage(t, x, m, torn.r, id);
    if t.pages[id].Inner? {
      if id == x {
        var i := LeftChildTaken(t, id, m, k);
        DescendEnds(torn, c, t.pages[id].children[i], k);
      } else {
        var i := ChildTaken(t, id, k);
        DescendEnds(torn, c, t.pages[id].children[i], k);
      }
    }
  }

  /** A descent for a lost key ends in the left half. */
  lemma {:induction false} LostDescends(torn: Torn, c: Config, id: PageId, k: Key)
    requires Tearing(torn, c) && id in torn.t.shape
    requires Lost(torn, k) && Covers(torn.t, id, k) && torn.t.shape[torn.x].height <= torn.t.shape[id].height
    ensures var t := torn.t; var d := Descend(Halved(t, torn.x, torn.m, torn.r), id, k, t.shape[id].height);
      d in t.shape && t.pages[d].Leaf? && (d == torn.x || t.shape[d].hi <= k)
    decreases torn.t.shape[id].height
  {
    var t, x, m := torn.t, torn.x, torn.m;
    HalvedPage(t, x, m, torn.r, id);
    if t.shape[id].height == t.shape[x].height { CoverUnique(t, id, x, k); }
    if id != x {
      var i := ChildTaken(t, id, k);
      LostDescends(torn, c, t.pages[id].children[i], k);
    } else if t.pages[id].Inner? {
      var i := LeftChildTaken(t, id, m, k);
      DescendEnds(torn, c, t.pages[id].children[i], k);
    }
  }

  /** A leaf that covers the key answers for the tree. */
  lemma LeafAnswers(t: Tree, c: Config, e: Exempt, d: PageId, k: Key)
    requires Inv(t, c, e) && d in t.shape && t.pages[d].Leaf? && Covers(t, d, k)
    ensures InLeaf(t.pages[d], k) == Get(Model(t), k)
  {
    EntryIffInLeaf(t, e.stale, d, k);
    assert LeafOk(t, d, e.stale) && LeafListed(t, d);
  }

  lemma HalfLeafAnswers(n: Node, m: nat, r: PageId, lo: int, hi: int, k: Key)
    requires n.Leaf? && LeafShape(n, lo, hi, false) && m < |n.keys|
    ensures InLeaf(LeftHalf(n, m, r), k) == if k < n.keys[m] then InLeaf(n, k) else None
  {
    var half := LeftHalf(n, m, r);
    var at, ha := LowerBound(n.keys, k), LowerBound(half.keys, k);
    forall j | 0 <= j < m ensures half.keys[j] == n.keys[j] {}
    if k < n.keys[m] {
      assert at <= m;
      assert at < m ==> k <= half.keys[at];
      assert ha < m ==> k <= n.keys[ha];
      assert ha > 0 ==> half.keys[ha - 1] == n.keys[ha - 1] < k;
      assert at > 0 ==> half.keys[at - 1] == n.keys[at - 1] < k;
    }
  }

  /**
   * A torn tree answers every lookup like the tree it was to become, except that it has lost exactly the entries from
   * the new separator up to the end of the page that was split.
   */
  lemma TornLookup(torn: Torn, c: Config, k: Key)
    requires Tearing(torn, c)
    ensures var t := torn.t;
      Lookup(Halved(t, torn.x, torn.m, torn.r), t.root, t.shape[t.root].height, k) == if Lost(torn, k) then None
        else Get(Model(t), k)
  {
    var t, x, m, r := torn.t, torn.x, torn.m, torn.r;
    var d := Descend(Halved(t, x, m, r), t.root, k, t.shape[t.root].height);
    assert UpOk(t, t.root) && UpOk(t, x);
    DescendEnds(torn, c, t.root, k);
    HalvedPage(t, x, m, r, d);
    assert LeafOk(t, d, INVALID);
    if Lost(torn, k) {
      LostDescends(torn, c, t.root, k);
      if d == x { HalfLeafAnswers(t.pages[x], m, r, t.shape[x].lo, t.shape[x].hi, k); }
    } else {
      LeafAnswers(t, c, Exempt(x, INVALID, INVALID), d, k);
      if d == x { HalfLeafAnswers(t.pages[x], m, r, t.shape[x].lo, t.shape[x].hi, k); }
    }
  }

  /** The low end of a page other than the first is an entry. */
  lemma {:induction false} LowIsEntry(t: Tree, c: Config, over: PageId, id: PageId)
    requires Inv(t, c, Exempt(over, INVALID, INVALID)) && id in t.shape && t.shape[id].lo != NEG
    ensures t.shape[id].lo in t.entries
    decreases t.shape[id].height
  {
    if t.pages[id].Leaf? {
      assert LeafOk(t, id, INVALID) && LeafListed(t, id);
    } else {
      assert InnerOk(t, id) && ChildOk(t, id, 0);
      LowIsEntry(t, c, over, t.pages[id].children[0]);
    }
  }

  /** Every key of a page is an entry. */
  lemma KeyIsEntry(t: Tree, c: Config, over: PageId, id: PageId, j: nat)
    requires Inv(t, c, Exempt(over, INVALID, INVALID)) && id in t.shape && j < |t.pages[id].keys|
    ensures t.pages[id].keys[j] in t.entries && Covers(t, id, t.pages[id].keys[j])
  {
    assert LeafOk(t, id, INVALID) && LeafListed(t, id) && InnerOk(t, id) && UpOk(t, id);
    if t.pages[id].Inner? {
      assert ChildOk(t, id, j + 1);
      LowIsEntry(t, c, over, t.pages[id].children[j + 1]);
    }
  }

  /** At least two entries are lost, so at least one besides any given key. */
  lemma TornLoses(torn: Torn, c: Config, key: Key) returns (k: Key)
    requires Tearing(torn, c)
    ensures k != key && k in Model(torn.t) && Lost(torn, k)
  {
    var t, x, m := torn.t, torn.x, torn.m;
    KeyIsEntry(t, c, x, x, m);
    KeyIsEntry(t, c, x, x, m + 1);
    assert LeafOk(t, x, INVALID) && InnerOk(t, x);
    k := if t.pages[x].keys[m] != key then t.pages[x].keys[m] else t.pages[x].keys[m + 1];
  }

  /** Every lookup returns what the map says. */
  ghost predicate Serves(pages: map<PageId, Node>, root: PageId, h: nat, m: map<Key, RecordId>) {
    forall k: Key :: Lookup(pages, root, h, k) == Get(m, k)
  }

  /** A torn tree does not represent the map from before the insertion. */
  lemma TornIsWrong(torn: Torn, c: Config, pages: map<PageId, Node>, root: PageId, m: map<Key, RecordId>, key: Key,
      value: RecordId)
    requires IsTorn(torn, c, pages, root) && Model(torn.t) == m[key := value]
    ensures !Serves(pages, root, torn.t.shape[root].height, m)
  {
    var k := TornLoses(torn, c, key);
    TornLookup(torn, c, k);
  }

  /** A valid tree answers every lookup with its map. */
  lemma SoundLookup(t: Tree, c: Config, e: Exempt, k: Key)
    requires Inv(t, c, e)
    ensures Lookup(t.pages, t.root, t.shape[t.root].height, k) == Get(Model(t), k)
  {
    assert UpOk(t, t.root);
    SoundDescend(t, t.root, k);
    var d := Descend(t.pages, t.root, k, t.shape[t.root].height);
    LeafAnswers(t, c, e, d, k);
  }

  lemma {:induction false} SoundDescend(t: Tree, id: PageId, k: Key)
    requires Dom(t) && Ups(t) && Inners(t) && id in t.shape && Covers(t, id, k)
    ensures var d := Descend(t.pages, id, k, t.shape[id].height); d in t.shape && t.pages[d].Leaf? && Covers(t, d, k)
    decreases t.shape[id].height
  {
    if t.pages[id].Inner? {
      var i := ChildTaken(t, id, k);
      SoundDescend(t, t.pages[id].children[i], k);
    }
  }
}
