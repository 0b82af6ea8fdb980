/** Removal as steps between trees, with the page store each step writes spelled out. */
module BTreeRebalance {
  import opened StorageTypes
  import opened BTreeShape
  import opened BTreeSplit
  import opened BTreeJoin

  function Last<T>(s: seq<T>): T
    requires s != []
  {
    s[|s| - 1]
  }

  /** Removing a present key, as a step between trees. */
  lemma KeyRemoved(t: Tree, c: Config, leaf: PageId, at: nat) returns (t1: Tree)
    requires Inv(t, c, NOTHING) && leaf in t.shape && t.pages[leaf].Leaf? && LeafOk(t, leaf, INVALID)
    requires at < |t.pages[leaf].keys|
    ensures Inv(t1, c, Exempt(INVALID, leaf, leaf)) && Model(t1) == Model(t) - {t.pages[leaf].keys[at]}
    ensures t1.root == t.root && t1.shape == t.shape
    ensures var n := t.pages[leaf];
      t1.pages == t.pages[leaf := Leaf(n.parent, n.next, RemoveAt(n.keys, at), RemoveAt(n.values, at))]
    ensures at > 0 ==> LeafShape(t1.pages[leaf], t.shape[leaf].lo, t.shape[leaf].hi, true)
  {
    DropKeyKeeps(t, c, leaf, at);
    t1 := DropKey(t, leaf, at);
    assert LeafOk(t1, leaf, leaf);
  }

  /** Merging neighbours i and i + 1 below p, as a step between trees. */
  lemma Merged(t: Tree, c: Config, p: PageId, i: nat, under: PageId, stale: PageId) returns (t': Tree)
    requires Inv(t, c, Exempt(INVALID, under, stale)) && Legal(c)
    requires CanJoin(t, p, i)
    requires var x, r := t.pages[p].children[i], t.pages[p].children[i + 1];
      under in {x, r} && |t.pages[x].keys| + |t.pages[r].keys| < 2 * MinKeys(c, t.pages[x])
    ensures var stale' := if stale == t.pages[p].children[i + 1] then INVALID else stale;
      Inv(t', c, Exempt(INVALID, p, stale')) && Model(t') == Model(t)
    ensures var x, r := t.pages[p].children[i], t.pages[p].children[i + 1];
      && t'.pages == Reparent(t.pages[x := Joined(t.pages[x], t.pages[r], t.pages[p].keys[i])][p :=
      EraseChild(t.pages[p], i)],
                              Kids(t.pages[r]), x)
      && t'.root == t.root && t'.shape.Keys == t.shape.Keys - {r} && x in t'.shape && t'.shape[x].lo == t.shape[x].lo
      && p in t'.shape && t'.shape[p] == t.shape[p] && t'.shape[t'.root].height == t.shape[t.root].height
      && x in t'.pages && t'.pages[x] == Joined(t.pages[x], t.pages[r], t.pages[p].keys[i])
  {
    JoinKeeps(t, c, p, i, under, stale);
    JoinIs(t, p, i);
    t' := Join(t, p, i);
  }

  /** Neighbouring leaves are linked. */
  lemma NeighbourLinked(t: Tree, stale: PageId, p: PageId, i: nat)
    requires Dom(t) && Ups(t) && Inners(t) && Leaves(t, stale) && CanJoin(t, p, i)
    requires t.pages[t.pages[p].children[i]].Leaf?
    ensures t.pages[t.pages[p].children[i]].next == t.pages[p].children[i + 1]
  {
    var x, r := t.pages[p].children[i], t.pages[p].children[i + 1];
    assert LeafOk(t, x, stale) && UpOk(t, r);
    LeafUnique(t, t.pages[x].next, r);
  }

  lemma RotateParent(n: Node, i: nat, sep: Key)
    requires n.Inner? && i < |n.keys| && |n.children| == |n.keys| + 1
    ensures InsertChild(EraseChild(n, i), i, sep, n.children[i + 1]) == Inner(n.parent, n.keys[i := sep], n.children)
  {
    assert InsertAt(RemoveAt(n.keys, i), i, sep) == n.keys[i := sep];
    assert InsertAt(RemoveAt(n.children, i + 1), i + 1, n.children[i + 1]) == n.children;
  }

  /** Redistributing two leaves rewrites the two leaves and one separator. */
  lemma RotateLeafPages(t: Tree, stale: PageId, p: PageId, i: nat, m: nat)
    requires Dom(t) && Ups(t) && Inners(t) && Leaves(t, stale) && CanRotate(t, p, i, m)
    requires t.pages[t.pages[p].children[i]].Leaf?
    ensures var x, r := t.pages[p].children[i], t.pages[p].children[i + 1];
      var l, n := t.pages[x], t.pages[r];
      var ks, vs := l.keys + n.keys, l.values + n.values;
      Rotate(t, p, i, m).pages
        == t.pages[x := Leaf(l.parent, l.next, ks[..m], vs[..m])]
                  [r := Leaf(n.parent, n.next, ks[m..], vs[m..])]
                  [p := Inner(t.pages[p].parent, t.pages[p].keys[i := ks[m]], t.pages[p].children)]
  {
    var x, r := t.pages[p].children[i], t.pages[p].children[i + 1];
    NeighbourLinked(t, stale, p, i);
    JoinThenSplit(t, p, i, m);
    var t1 := Join(t, p, i);
    assert t1.pages[x] == Joined(t.pages[x], t.pages[r], t.pages[p].keys[i]);
    assert t1.pages[p] == EraseChild(t.pages[p], i);
    RotateParent(t.pages[p], i, t1.pages[x].keys[m]);
  }

  /** The three internal pages that a redistribution rewrites. */
  ghost function RotatedBase(t: Tree, p: PageId, i: nat, m: nat): map<PageId, Node>
    requires CanRotate(t, p, i, m) && t.pages[t.pages[p].children[i]].Inner?
  {
    var x, r := t.pages[p].children[i], t.pages[p].children[i + 1];
    var l, n := t.pages[x], t.pages[r];
    var ks, cs := l.keys + [t.pages[p].keys[i]] + n.keys, l.children + n.children;
    t.pages[x := Inner(l.parent, ks[..m], cs[..m + 1])]
           [r := Inner(l.parent, ks[m + 1..], cs[m + 1..])]
           [p := Inner(t.pages[p].parent, t.pages[p].keys[i := ks[m]], t.pages[p].children)]
  }

  lemma ReparentUpdate(q: map<PageId, Node>, kids: seq<PageId>, parent: PageId, id: PageId, n: Node)
    requires id !in kids
    ensures Reparent(q, kids, parent)[id := n] == Reparent(q[id := n], kids, parent)
  {
  }

  /** What a split of an internal page writes, given what the page and its parent hold. */
  lemma SplitInnerStore(t: Tree, p: PageId, i: nat, m: nat, r: PageId, up: PageId, ks: seq<Key>, cs: seq<PageId>)
    requires CanSplit(t, p, i, m, r) && t.pages[t.pages[p].children[i]] == Inner(up, ks, cs)
    ensures Split(t, p, i, m, r).pages
         == Reparent(t.pages[t.pages[p].children[i] := Inner(up, ks[..m], cs[..m + 1])][r :=
           Inner(up, ks[m + 1..], cs[m + 1..])]
                            [p := InsertChild(t.pages[p], i, ks[m], r)], cs[m + 1..], r)
  {
  }

  /** Rewriting three pages commutes with the adoption of children that are none of them. */
  lemma RewriteThree(q: map<PageId, Node>, kids: seq<PageId>, parent: PageId, x: PageId, nx: Node, r: PageId, nr: Node,
      p: PageId, np: Node)
    requires x !in kids && r !in kids && p !in kids
    ensures Reparent(q, kids, parent)[x := nx][r := nr][p := np] == Reparent(q[x := nx][r := nr][p := np], kids, parent)
  {
    ReparentUpdate(q, kids, parent, x, nx);
    ReparentUpdate(q[x := nx], kids, parent, r, nr);
    ReparentUpdate(q[x := nx][r := nr], kids, parent, p, np);
  }

  /** Where the children of the two internal pages end up. */
  lemma RotateInnerPages(t: Tree, p: PageId, i: nat, m: nat)
    requires Dom(t) && Ups(t) && Inners(t) && CanRotate(t, p, i, m) && t.pages[t.pages[p].children[i]].Inner?
    ensures var x, r := t.pages[p].children[i], t.pages[p].children[i + 1];
      Rotate(t, p, i, m).pages
        == Reparent(Reparent(RotatedBase(t, p, i, m), t.pages[r].children, x),
          (t.pages[x].children + t.pages[r].children)[m + 1..], r)
  {
    var x, r := t.pages[p].children[i], t.pages[p].children[i + 1];
    JoinThenSplit(t, p, i, m);
    RotateApart(t, p, i);
    RotateInnerStore(t, Join(t, p, i), p, i, m);
  }

  lemma RotateInnerStore(t: Tree, t1: Tree, p: PageId, i: nat, m: nat)
    requires CanRotate(t, p, i, m) && t.pages[t.pages[p].children[i]].Inner? && t1 == Join(t, p, i)
    requires var x, r := t.pages[p].children[i], t.pages[p].children[i + 1];
      && CanSplit(t1, p, i, m, r) && t1.pages[p].children[i] == x
      && x != p && r != p && forall c :: c in t.pages[r].children ==> c !in {x, r, p}
    ensures var x, r := t.pages[p].children[i], t.pages[p].children[i + 1];
      Split(t1, p, i, m, r).pages
        == Reparent(Reparent(RotatedBase(t, p, i, m), t.pages[r].children, x),
          (t.pages[x].children + t.pages[r].children)[m + 1..], r)
  {
    var x, r := t.pages[p].children[i], t.pages[p].children[i + 1];
    var n := t.pages[r];
    var ks, cs := t.pages[x].keys + [t.pages[p].keys[i]] + n.keys, t.pages[x].children + n.children;
    SplitInnerStore(t1, p, i, m, r, t.pages[x].parent, ks, cs);
    RotateParent(t.pages[p], i, ks[m]);
    var nx, nr := Inner(t.pages[x].parent, ks[..m], cs[..m + 1]), Inner(t.pages[x].parent, ks[m + 1..], cs[m + 1..]);
    var np := Inner(t.pages[p].parent, t.pages[p].keys[i := ks[m]], t.pages[p].children);
    var q := t.pages[x := Joined(t.pages[x], n, t.pages[p].keys[i])][p := EraseChild(t.pages[p], i)];
    RewriteThree(q, n.children, x, x, nx, r, nr, p, np);
    assert q[x := nx][r := nr][p := np] == RotatedBase(t, p, i, m);
  }

  lemma KidsBelow(t: Tree, x: PageId)
    requires Dom(t) && Inners(t) && x in t.shape && t.pages[x].Inner?
    ensures forall c :: c in t.pages[x].children ==>
      c in t.shape && t.shape[c].height < t.shape[x].height && t.pages[c].parent == x
  {
    assert InnerOk(t, x);
    forall c | c in t.pages[x].children
      ensures c in t.shape && t.shape[c].height < t.shape[x].height && t.pages[c].parent == x
    {
      var j :| 0 <= j < |t.pages[x].children| && t.pages[x].children[j] == c;
      assert ChildOk(t, x, j);
    }
  }

  ghost predicate Repairs(t: Tree, t': Tree, c: Config, stale': PageId) {
    && Inv(t', c, Exempt(INVALID, INVALID, stale')) && Model(t') == Model(t)
    && t'.root == t.root && t'.shape.Keys == t.shape.Keys
  }

  /** The left neighbour's last entry becomes the first entry of a short leaf. */
  lemma LeafBorrowsLeft(t: Tree, c: Config, p: PageId, i: nat, stale: PageId) returns (t': Tree)
    requires CanJoin(t, p, i) && Legal(c) && stale in {t.pages[p].children[i + 1], INVALID}
    requires Inv(t, c, Exempt(INVALID, t.pages[p].children[i + 1], stale))
    requires var x, r := t.pages[p].children[i], t.pages[p].children[i + 1];
      && t.pages[x].Leaf? && |t.pages[x].keys| > MinKeys(c, t.pages[x])
      && |t.pages[r].keys| == MinKeys(c, t.pages[r]) - 1
    ensures Repairs(t, t', c, INVALID)
    ensures var x, r := t.pages[p].children[i], t.pages[p].children[i + 1];
      var l, n := t.pages[x], t.pages[r];
      t'.pages == t.pages[x := Leaf(l.parent, l.next, l.keys[..|l.keys| - 1], l.values[..|l.keys| - 1])]
                         [r := Leaf(n.parent, n.next, [Last(l.keys)] + n.keys, [Last(l.values)] + n.values)]
                         [p := Inner(t.pages[p].parent, t.pages[p].keys[i := Last(l.keys)], t.pages[p].children)]
  {
    var x, r := t.pages[p].children[i], t.pages[p].children[i + 1];
    var l, n := t.pages[x], t.pages[r];
    var m := |l.keys| - 1;
    assert CapOk(t, c, x, INVALID, r);
    RotateKeeps(t, c, p, i, m, r, stale);
    RotateLeafPages(t, stale, p, i, m);
    t' := Rotate(t, p, i, m);
    RotateKeysKept(t, p, i, m);
    CutBeforeSeam(l.keys, n.keys);
    CutBeforeSeam(l.values, n.values);
  }

  /** The right neighbour's first entry becomes the last entry of a short leaf. */
  lemma LeafBorrowsRight(t: Tree, c: Config, p: PageId, i: nat, stale: PageId) returns (t': Tree)
    requires CanJoin(t, p, i) && Legal(c) && stale in {t.pages[p].children[i], INVALID}
    requires Inv(t, c, Exempt(INVALID, t.pages[p].children[i], stale))
    requires var x, r := t.pages[p].children[i], t.pages[p].children[i + 1];
      && t.pages[x].Leaf? && |t.pages[r].keys| > MinKeys(c, t.pages[r])
      && |t.pages[x].keys| == MinKeys(c, t.pages[x]) - 1
    ensures Repairs(t, t', c, stale)
    ensures var x, r := t.pages[p].children[i], t.pages[p].children[i + 1];
      var l, n := t.pages[x], t.pages[r];
      && t'.shape[x].lo == t.shape[x].lo && t'.shape[p] == t.shape[p]
      && t'.pages == t.pages[x := Leaf(l.parent, l.next, l.keys + [n.keys[0]], l.values + [n.values[0]])]
                         [r := Leaf(n.parent, n.next, n.keys[1..], n.values[1..])]
                         [p := Inner(t.pages[p].parent, t.pages[p].keys[i := n.keys[1]], t.pages[p].children)]
  {
    var x, r := t.pages[p].children[i], t.pages[p].children[i + 1];
    var l, n := t.pages[x], t.pages[r];
    var m := |l.keys| + 1;
    assert CapOk(t, c, r, INVALID, x);
    RotateKeeps(t, c, p, i, m, x, stale);
    RotateLeafPages(t, stale, p, i, m);
    t' := Rotate(t, p, i, m);
    RotateKeysKept(t, p, i, m);
    CutAfterSeam(l.keys, n.keys);
    CutAfterSeam(l.values, n.values);
  }

  lemma RotateKeysKept(t: Tree, p: PageId, i: nat, m: nat)
    requires Dom(t) && Ups(t) && Inners(t) && CanRotate(t, p, i, m)
    ensures Rotate(t, p, i, m).root == t.root && Rotate(t, p, i, m).shape.Keys == t.shape.Keys
    ensures Rotate(t, p, i, m).shape[t.pages[p].children[i]].lo == t.shape[t.pages[p].children[i]].lo
    ensures Rotate(t, p, i, m).shape[p] == t.shape[p]
  {
    JoinThenSplit(t, p, i, m);
  }

  /** Cutting a concatenation just before, or just after, the seam. */
  lemma CutBeforeSeam<T>(a: seq<T>, b: seq<T>)
    requires |a| > 0
    ensures (a + b)[..|a| - 1] == a[..|a| - 1] && (a + b)[|a| - 1..] == [Last(a)] + b
  {
  }

  lemma CutAfterSeam<T>(a: seq<T>, b: seq<T>)
    requires |b| > 0
    ensures (a + b)[..|a| + 1] == a + [b[0]] && (a + b)[|a| + 1..] == b[1..]
  {
  }

  /** Children that leave their parent and come back are unchanged; one more arrives with them. */
  lemma ReparentBack(base: map<PageId, Node>, kids: seq<PageId>, x: PageId, r: PageId, moved: PageId)
    requires forall c :: c in kids ==> c in base && base[c].parent == r
    requires moved in base && moved !in kids
    ensures Reparent(Reparent(base, kids, x), [moved] + kids, r) == base[moved := base[moved].(parent := r)]
  {
    var result := Reparent(Reparent(base, kids, x), [moved] + kids, r);
    forall id | id in base ensures result[id] == base[moved := base[moved].(parent := r)][id] {
      assert id in [moved] + kids <==> id == moved || id in kids;
    }
  }

  /** Of children that leave their parent, all but the first come back. */
  lemma ReparentFirst(base: map<PageId, Node>, kids: seq<PageId>, x: PageId, r: PageId)
    requires forall c :: c in kids ==> c in base && base[c].parent == r
    requires |kids| > 0 && kids[0] !in kids[1..]
    ensures Reparent(Reparent(base, kids, x), kids[1..], r) == base[kids[0] := base[kids[0]].(parent := x)]
  {
    var result := Reparent(Reparent(base, kids, x), kids[1..], r);
    forall id | id in base ensures result[id] == base[kids[0] := base[kids[0]].(parent := x)][id] {
      assert id in kids <==> id == kids[0] || id in kids[1..];
    }
  }

  /** The pages involved in moving a child between internal neighbours are all different. */
  lemma RotateApart(t: Tree, p: PageId, i: nat)
    requires Dom(t) && Ups(t) && Inners(t) && CanJoin(t, p, i) && t.pages[t.pages[p].children[i]].Inner?
    ensures var x, r := t.pages[p].children[i], t.pages[p].children[i + 1];
      && x != p && r != p
      && (forall c :: c in t.pages[x].children ==> c in t.shape && t.pages[c].parent == x && c !in {x, r, p})
      && (forall c :: c in t.pages[r].children ==> c in t.shape && t.pages[c].parent == r && c !in {x, r, p})
  {
    KidsBelow(t, t.pages[p].children[i]);
    KidsBelow(t, t.pages[p].children[i + 1]);
    assert InnerOk(t, p) && ChildOk(t, p, i) && ChildOk(t, p, i + 1);
  }

  /** Redistributing two internal pages, as a step between trees. */
  lemma InnerRotated(t: Tree, c: Config, p: PageId, i: nat, m: nat, under: PageId) returns (t': Tree)
    requires Inv(t, c, Exempt(INVALID, under, INVALID)) && CanRotate(t, p, i, m)
      && t.pages[t.pages[p].children[i]].Inner?
    requires var x, r := t.pages[p].children[i], t.pages[p].children[i + 1];
      && under in {x, r}
      && MinKeys(c, t.pages[x]) <= m <= MaxKeys(c, t.pages[x])
      && MinKeys(c, t.pages[x]) <= |t.pages[x].keys| + |t.pages[r].keys| - m <= MaxKeys(c, t.pages[x])
    ensures Repairs(t, t', c, INVALID)
    ensures var x, r := t.pages[p].children[i], t.pages[p].children[i + 1];
      t'.pages
        == Reparent(Reparent(RotatedBase(t, p, i, m), t.pages[r].children, x),
          (t.pages[x].children + t.pages[r].children)[m + 1..], r)
  {
    RotateKeeps(t, c, p, i, m, under, INVALID);
    RotateInnerPages(t, p, i, m);
    RotateKeysKept(t, p, i, m);
    t' := Rotate(t, p, i, m);
  }

  /** The left neighbour's last child moves to a short internal page, through the separator. */
  lemma InnerBorrowsLeft(t: Tree, c: Config, p: PageId, i: nat) returns (t': Tree)
    requires CanJoin(t, p, i) && Legal(c)
    requires Inv(t, c, Exempt(INVALID, t.pages[p].children[i + 1], INVALID))
    requires var x, r := t.pages[p].children[i], t.pages[p].children[i + 1];
      && t.pages[x].Inner? && |t.pages[x].keys| > MinKeys(c, t.pages[x])
      && |t.pages[r].keys| == MinKeys(c, t.pages[r]) - 1
    ensures Repairs(t, t', c, INVALID)
    ensures MovableLeft(t, p, i) && t'.pages == MovedLeft(t, p, i)
  {
    var x := t.pages[p].children[i];
    assert CapOk(t, c, x, INVALID, t.pages[p].children[i + 1]);
    t' := InnerRotated(t, c, p, i, |t.pages[x].keys| - 1, t.pages[p].children[i + 1]);
    InnerLeftPages(t, p, i);
  }

  /** Updates of different pages may be made in another order. */
  lemma WriteEarlier(base: map<PageId, Node>, x: PageId, a: Node, r: PageId, b: Node, p: PageId, c: Node,
      moved: PageId, d: Node)
    requires moved !in {x, r, p}
    ensures base[x := a][r := b][p := c][moved := d] == base[moved := d][x := a][r := b][p := c]
  {
  }

  /** Page i of p has a child to give to its right neighbour. */
  ghost predicate MovableLeft(t: Tree, p: PageId, i: nat) {
    && CanJoin(t, p, i)
    && var x, r := t.pages[p].children[i], t.pages[p].children[i + 1];
    && t.pages[x].Inner? && t.pages[r].Inner? && 0 < |t.pages[x].keys| && |t.pages[x].children| == |t.pages[x].keys| + 1
    && var moved := Last(t.pages[x].children); moved in t.shape && moved !in {x, r, p}
  }

  /** The pages after its last child has moved, through the separator. */
  ghost function MovedLeft(t: Tree, p: PageId, i: nat): map<PageId, Node>
    requires MovableLeft(t, p, i)
  {
    var x, r := t.pages[p].children[i], t.pages[p].children[i + 1];
    var l, n := t.pages[x], t.pages[r];
    var moved := Last(l.children);
    t.pages[moved := t.pages[moved].(parent := r)]
           [x := Inner(l.parent, l.keys[..|l.keys| - 1], l.children[..|l.keys|])]
           [r := Inner(n.parent, [t.pages[p].keys[i]] + n.keys, [moved] + n.children)]
           [p := Inner(t.pages[p].parent, t.pages[p].keys[i := Last(l.keys)], t.pages[p].children)]
  }

  lemma InnerLeftPages(t: Tree, p: PageId, i: nat)
    requires Dom(t) && Ups(t) && Inners(t) && CanJoin(t, p, i)
    requires t.pages[t.pages[p].children[i]].Inner? && |t.pages[t.pages[p].children[i]].keys| > 1
    ensures var x, r := t.pages[p].children[i], t.pages[p].children[i + 1];
      var l, n := t.pages[x], t.pages[r];
      && MovableLeft(t, p, i)
      && Reparent(Reparent(RotatedBase(t, p, i, |l.keys| - 1), n.children, x), (l.children + n.children)[|l.keys|..],
      r) == MovedLeft(t, p, i)
  {
    InnerLeftBase(t, p, i);
    InnerLeftKids(t, p, i);
    var x, r := t.pages[p].children[i], t.pages[p].children[i + 1];
    var l, n := t.pages[x], t.pages[r];
    var moved := Last(l.children);
    WriteEarlier(t.pages, x, Inner(l.parent, l.keys[..|l.keys| - 1], l.children[..|l.keys|]),
                 r, Inner(n.parent, [t.pages[p].keys[i]] + n.keys, [moved] + n.children),
                 p, Inner(t.pages[p].parent, t.pages[p].keys[i := Last(l.keys)], t.pages[p].children), moved,
                   t.pages[moved].(parent := r));
  }

  lemma InnerLeftBase(t: Tree, p: PageId, i: nat)
    requires CanJoin(t, p, i) && t.pages[t.pages[p].children[i]].Inner? && |t.pages[t.pages[p].children[i]].keys| > 1
    ensures var x, r := t.pages[p].children[i], t.pages[p].children[i + 1];
      var l, n := t.pages[x], t.pages[r];
      && RotatedBase(t, p, i, |l.keys| - 1)
         == t.pages[x := Inner(l.parent, l.keys[..|l.keys| - 1], l.children[..|l.keys|])]
                   [r := Inner(n.parent, [t.pages[p].keys[i]] + n.keys, [Last(l.children)] + n.children)]
                   [p := Inner(t.pages[p].parent, t.pages[p].keys[i := Last(l.keys)], t.pages[p].children)]
      && (l.children + n.children)[|l.keys|..] == [Last(l.children)] + n.children
  {
    var l, n := t.pages[t.pages[p].children[i]], t.pages[t.pages[p].children[i + 1]];
    var sep := t.pages[p].keys[i];
    assert l.keys + [sep] + n.keys == l.keys + ([sep] + n.keys);
    CutBeforeSeam(l.keys, [sep] + n.keys);
    CutBeforeSeam(l.children, n.children);
    assert (l.keys + [sep] + n.keys)[|l.keys|..] == [sep] + n.keys;
  }

  lemma InnerLeftKids(t: Tree, p: PageId, i: nat)
    requires Dom(t) && Ups(t) && Inners(t) && CanJoin(t, p, i)
    requires t.pages[t.pages[p].children[i]].Inner? && |t.pages[t.pages[p].children[i]].keys| > 1
    ensures var x, r := t.pages[p].children[i], t.pages[p].children[i + 1];
      var base, moved := RotatedBase(t, p, i, |t.pages[x].keys| - 1), Last(t.pages[x].children);
      && moved in t.shape && moved !in {x, r, p}
      && Reparent(Reparent(base, t.pages[r].children, x), [moved] + t.pages[r].children, r)
         == base[moved := t.pages[moved].(parent := r)]
  {
    var x, r := t.pages[p].children[i], t.pages[p].children[i + 1];
    RotateApart(t, p, i);
    assert Last(t.pages[x].children) in t.pages[x].children;
    ReparentBack(RotatedBase(t, p, i, |t.pages[x].keys| - 1), t.pages[r].children, x, r, Last(t.pages[x].children));
  }

  /** The right neighbour's first child moves to a short internal page, through the separator. */
  lemma InnerBorrowsRight(t: Tree, c: Config, p: PageId, i: nat) returns (t': Tree)
    requires CanJoin(t, p, i) && Legal(c)
    requires Inv(t, c, Exempt(INVALID, t.pages[p].children[i], INVALID))
    requires var x, r := t.pages[p].children[i], t.pages[p].children[i + 1];
      && t.pages[x].Inner? && |t.pages[r].keys| > MinKeys(c, t.pages[r])
      && |t.pages[x].keys| == MinKeys(c, t.pages[x]) - 1
    ensures Repairs(t, t', c, INVALID)
    ensures MovableRight(t, p, i) && t'.pages == MovedRight(t, p, i)
  {
    var x, r := t.pages[p].children[i], t.pages[p].children[i + 1];
    assert CapOk(t, c, r, INVALID, x);
    t' := InnerRotated(t, c, p, i, |t.pages[x].keys| + 1, x);
    InnerRightPages(t, p, i);
  }

  /** Page i + 1 of p has a child to give to its left neighbour. */
  ghost predicate MovableRight(t: Tree, p: PageId, i: nat) {
    && CanJoin(t, p, i)
    && var x, r := t.pages[p].children[i], t.pages[p].children[i + 1];
    && t.pages[x].Inner? && t.pages[r].Inner? && 0 < |t.pages[r].keys| && |t.pages[r].children| == |t.pages[r].keys| + 1
    && var moved := t.pages[r].children[0]; moved in t.shape && moved !in {x, r, p}
  }

  /** The pages after its first child has moved, through the separator. */
  ghost function MovedRight(t: Tree, p: PageId, i: nat): map<PageId, Node>
    requires MovableRight(t, p, i)
  {
    var x, r := t.pages[p].children[i], t.pages[p].children[i + 1];
    var l, n := t.pages[x], t.pages[r];
    var moved := n.children[0];
    t.pages[moved := t.pages[moved].(parent := x)]
           [x := Inner(l.parent, l.keys + [t.pages[p].keys[i]], l.children + [moved])]
           [r := Inner(n.parent, n.keys[1..], n.children[1..])]
           [p := Inner(t.pages[p].parent, t.pages[p].keys[i := n.keys[0]], t.pages[p].children)]
  }

  lemma InnerRightPages(t: Tree, p: PageId, i: nat)
    requires Dom(t) && Ups(t) && Inners(t) && CanJoin(t, p, i)
    requires t.pages[t.pages[p].children[i]].Inner? && |t.pages[t.pages[p].children[i + 1]].keys| > 0
    ensures var x, r := t.pages[p].children[i], t.pages[p].children[i + 1];
      var l, n := t.pages[x], t.pages[r];
      && MovableRight(t, p, i)
      && Reparent(Reparent(RotatedBase(t, p, i, |l.keys| + 1), n.children, x),
      (l.children + n.children)[|l.keys| + 2..], r) == MovedRight(t, p, i)
  {
    InnerRightBase(t, p, i);
    InnerRightKids(t, p, i);
    var x, r := t.pages[p].children[i], t.pages[p].children[i + 1];
    var l, n := t.pages[x], t.pages[r];
    var moved := n.children[0];
    WriteEarlier(t.pages, x, Inner(l.parent, l.keys + [t.pages[p].keys[i]], l.children + [moved]),
                 r, Inner(n.parent, n.keys[1..], n.children[1..]),
                 p, Inner(t.pages[p].parent, t.pages[p].keys[i := n.keys[0]], t.pages[p].children), moved,
                   t.pages[moved].(parent := x));
  }

  lemma InnerRightBase(t: Tree, p: PageId, i: nat)
    requires CanJoin(t, p, i) && t.pages[t.pages[p].children[i]].Inner?
      && |t.pages[t.pages[p].children[i + 1]].keys| > 0
    ensures var x, r := t.pages[p].children[i], t.pages[p].children[i + 1];
      var l, n := t.pages[x], t.pages[r];
      && RotatedBase(t, p, i, |l.keys| + 1)
         == t.pages[x := Inner(l.parent, l.keys + [t.pages[p].keys[i]], l.children + [n.children[0]])]
                   [r := Inner(n.parent, n.keys[1..], n.children[1..])]
                   [p := Inner(t.pages[p].parent, t.pages[p].keys[i := n.keys[0]], t.pages[p].children)]
      && (l.children + n.children)[|l.keys| + 2..] == n.children[1..]
  {
    var l, n := t.pages[t.pages[p].children[i]], t.pages[t.pages[p].children[i + 1]];
    var sep := t.pages[p].keys[i];
    CutAfterSeam(l.keys + [sep], n.keys);
    CutAfterSeam(l.children, n.children);
    assert (l.keys + [sep] + n.keys)[..|l.keys| + 1] == l.keys + [sep];
  }

  lemma InnerRightKids(t: Tree, p: PageId, i: nat)
    requires Dom(t) && Ups(t) && Inners(t) && CanJoin(t, p, i)
    requires t.pages[t.pages[p].children[i]].Inner? && |t.pages[t.pages[p].children[i + 1]].keys| > 0
    ensures var x, r := t.pages[p].children[i], t.pages[p].children[i + 1];
      var base, moved := RotatedBase(t, p, i, |t.pages[x].keys| + 1), t.pages[r].children[0];
      && moved in t.shape && moved !in {x, r, p}
      && Reparent(Reparent(base, t.pages[r].children, x), t.pages[r].children[1..], r)
         == base[moved := t.pages[moved].(parent := x)]
  {
    var x, r := t.pages[p].children[i], t.pages[p].children[i + 1];
    var n := t.pages[r];
    RotateApart(t, p, i);
    assert InnerOk(t, r) && UpOk(t, r);
    forall j | 1 <= j < |n.children| ensures n.children[j] != n.children[0] { ChildrenDistinct(t, r, 0, j); }
    ReparentFirst(RotatedBase(t, p, i, |t.pages[x].keys| + 1), n.children, x, r);
  }
}
