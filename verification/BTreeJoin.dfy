/** Deletion-side steps of the B+ tree: each keeps the invariant, up to the page it leaves short. */
module BTreeJoin {
  import opened StorageTypes
  import opened BTreeShape
  import opened BTreeSplit

  function RemoveAt<T>(s: seq<T>, i: nat): (r: seq<T>)
    requires i < |s|
    ensures |r| == |s| - 1
    ensures forall j :: 0 <= j < |r| ==> r[j] == s[if j < i then j else j + 1]
  {
    s[..i] + s[i + 1..]
  }

  // ---- Merging two neighbouring children ---------------------------------------------

  /** One page holding the keys of two neighbours; internal pages take the separator in between. */
  function Joined(n: Node, s: Node, sep: Key): Node
    requires n.Leaf? <==> s.Leaf?
  {
    if n.Leaf? then n.(next := s.next, keys := n.keys + s.keys, values := n.values + s.values)
    else n.(keys := n.keys + [sep] + s.keys, children := n.children + s.children)
  }

  function EraseChild(n: Node, i: nat): Node
    requires n.Inner? && i < |n.keys| && |n.children| == |n.keys| + 1
  {
    n.(keys := RemoveAt(n.keys, i), children := RemoveAt(n.children, i + 1))
  }

  ghost function MergeEntries(entries: map<Key, Entry>, x: PageId, r: PageId): map<Key, Entry> {
    map k | k in entries :: if entries[k].leaf == r then Entry(x, entries[k].value) else entries[k]
  }

  ghost predicate CanJoin(t: Tree, p: PageId, i: nat) {
    && Dom(t)
    && p in t.shape && t.pages[p].Inner? && i + 1 < |t.pages[p].children| == |t.pages[p].keys| + 1
    && var x, r := t.pages[p].children[i], t.pages[p].children[i + 1];
    && x in t.shape && r in t.shape && x != r && t.shape[x].height == t.shape[r].height
    && t.pages[x].parent == p && t.pages[r].parent == p
    && t.shape[x].hi == t.pages[p].keys[i] == t.shape[r].lo
    && t.shape[x].lo < t.shape[x].hi < t.shape[r].hi
    && (if t.pages[x].Leaf? then
          && LeafShape(t.pages[x], t.shape[x].lo, t.shape[x].hi, false)
          && LeafShape(t.pages[r], t.shape[r].lo, t.shape[r].hi, false)
        else
          && InnerShape(t.pages[x], t.shape[x].lo, t.shape[x].hi)
          && InnerShape(t.pages[r], t.shape[r].lo, t.shape[r].hi))
  }

  /** The tree after the children i and i + 1 of p were merged into child i. */
  ghost function Join(t: Tree, p: PageId, i: nat): Tree
    requires CanJoin(t, p, i)
  {
    var x, r := t.pages[p].children[i], t.pages[p].children[i + 1];
    var pages := t.pages[x := Joined(t.pages[x], t.pages[r], t.pages[p].keys[i])][p := EraseChild(t.pages[p], i)];
    Tree(Reparent(pages, Kids(t.pages[r]), x), t.root,
         (t.shape - {r})[x := t.shape[x].(hi := t.shape[r].hi)],
         MergeEntries(t.entries, x, r))
  }

  /** The merge, told page by page. */
  ghost predicate IsJoin(t: Tree, t': Tree, p: PageId, i: nat) {
    && CanJoin(t, p, i)
    && var x, r := t.pages[p].children[i], t.pages[p].children[i + 1];
    && x != p && r != p && t.pages[p].parent != x && t.pages[p].parent != r && t.root != r && t.root != x
    && t'.root == t.root
    && t'.shape == (t.shape - {r})[x := t.shape[x].(hi := t.shape[r].hi)]
    && x in t'.pages && t'.pages[x] == Joined(t.pages[x], t.pages[r], t.pages[p].keys[i])
    && p in t'.pages && t'.pages[p] == EraseChild(t.pages[p], i)
    && (forall c :: c in Kids(t.pages[r]) ==> c in t.shape && t.pages[c].parent == r && c != t.root)
    && (forall id :: id in t.shape && id != x && id != p ==>
          && id in t'.pages
          && t'.pages[id] == if id in Kids(t.pages[r]) then t.pages[id].(parent := x) else t.pages[id])
  }

  lemma CanJoinHere(t: Tree, stale: PageId, p: PageId, i: nat)
    requires Dom(t) && Ups(t) && Inners(t) && Leaves(t, stale)
    requires p in t.shape && t.pages[p].Inner? && i + 1 < |t.pages[p].children|
    ensures CanJoin(t, p, i)
  {
    assert InnerOk(t, p) && UpOk(t, p);
    assert ChildOk(t, p, i) && ChildOk(t, p, i + 1);
    var x, r := t.pages[p].children[i], t.pages[p].children[i + 1];
    ChildrenDistinct(t, p, i, i + 1);
    assert InnerOk(t, x) && InnerOk(t, r) && LeafOk(t, x, stale) && LeafOk(t, r, stale) && UpOk(t, x) && UpOk(t, r);
  }

  lemma JoinIs(t: Tree, p: PageId, i: nat)
    requires CanJoin(t, p, i) && Ups(t) && Inners(t)
    ensures IsJoin(t, Join(t, p, i), p, i)
  {
    var x, r := t.pages[p].children[i], t.pages[p].children[i + 1];
    assert InnerOk(t, p) && ChildOk(t, p, i) && ChildOk(t, p, i + 1) && InnerOk(t, r) && UpOk(t, t.root);
    assert UpOk(t, p);
    if p != t.root { ParentCovers(t, p); }
    var kids := Kids(t.pages[r]);
    forall c | c in kids
      ensures c in t.shape && t.pages[c].parent == r && t.shape[c].height < t.shape[r].height
    {
      var j :| 0 <= j < |kids| && kids[j] == c;
      assert ChildOk(t, r, j);
    }
  }

  lemma JoinDom(t: Tree, t': Tree, p: PageId, i: nat)
    requires IsJoin(t, t', p, i)
    ensures Dom(t')
  {
  }

  lemma JoinedShape(n: Node, s: Node, lo: int, sep: Key, hi: int, exact: bool)
    requires lo < sep < hi && (n.Leaf? <==> s.Leaf?)
    requires if n.Leaf? then LeafShape(n, lo, sep, exact) && LeafShape(s, sep, hi, false)
             else InnerShape(n, lo, sep) && InnerShape(s, sep, hi)
    ensures n.Leaf? ==> LeafShape(Joined(n, s, sep), lo, hi, exact)
    ensures n.Inner? ==> InnerShape(Joined(n, s, sep), lo, hi)
  {
  }

  lemma EraseShape(n: Node, i: nat, lo: int, hi: int)
    requires n.Inner? && InnerShape(n, lo, hi) && i < |n.keys|
    ensures InnerShape(EraseChild(n, i), lo, hi)
  {
  }

  lemma FenceRemove(keys: seq<Key>, lo: int, hi: int, i: nat, j: nat)
    requires i < |keys| && j <= |keys|
    ensures Fence(RemoveAt(keys, i), lo, hi, j) == Fence(keys, lo, hi, if j <= i then j else j + 1)
  {
  }

  lemma JoinListsChild(t: Tree, t': Tree, p: PageId, i: nat, id: PageId)
    requires IsJoin(t, t', p, i) && Dom(t') && id in t'.shape && id != t.root && UpOk(t, id)
    ensures id in t'.pages && t'.pages[id].parent in t'.shape && t'.pages[t'.pages[id].parent].Inner?
    ensures id in t'.pages[t'.pages[id].parent].children
  {
    var x, r := t.pages[p].children[i], t.pages[p].children[i + 1];
    var q := t.pages[id].parent;
    var j :| 0 <= j < |t.pages[q].children| && t.pages[q].children[j] == id;
    if q == p {
      assert t'.pages[p].children[if j <= i then j else j - 1] == id;
    } else if q == x {
      assert t'.pages[x].children[j] == id;
    } else if q == r {
      assert t'.pages[x].children[|t.pages[x].children| + j] == id;
    } else {
      assert t'.pages[q].children == t.pages[q].children;
    }
  }

  lemma JoinUp(t: Tree, t': Tree, p: PageId, i: nat, id: PageId)
    requires IsJoin(t, t', p, i) && Ups(t) && Dom(t') && id in t'.shape
    ensures UpOk(t', id)
  {
    assert UpOk(t, id) && UpOk(t, t.root) && UpOk(t, t.pages[p].children[i + 1]);
    if id != t.root { JoinListsChild(t, t', p, i, id); }
  }

  lemma JoinParentChild(t: Tree, t': Tree, p: PageId, i: nat, j: nat)
    requires IsJoin(t, t', p, i) && Dom(t') && InnerOk(t, p) && UpOk(t, p) && j < |t'.pages[p].children|
    ensures ChildOk(t', p, j)
  {
    var n := t.pages[p];
    FenceRemove(n.keys, t.shape[p].lo, t.shape[p].hi, i, j);
    FenceRemove(n.keys, t.shape[p].lo, t.shape[p].hi, i, j + 1);
    assert ChildOk(t, p, i) && ChildOk(t, p, i + 1);
    var o := if j <= i then j else j + 1;
    assert ChildOk(t, p, o);
    if o < i { ChildrenDistinct(t, p, o, i); }
    if i < o { ChildrenDistinct(t, p, i, o); ChildrenDistinct(t, p, i + 1, o); }
    if o < i + 1 { ChildrenDistinct(t, p, o, i + 1); }
  }

  lemma JoinParent(t: Tree, t': Tree, p: PageId, i: nat)
    requires IsJoin(t, t', p, i) && Dom(t') && InnerOk(t, p) && UpOk(t, p)
    ensures InnerOk(t', p)
  {
    EraseShape(t.pages[p], i, t.shape[p].lo, t.shape[p].hi);
    forall j | 0 <= j < |t'.pages[p].children| ensures ChildOk(t', p, j) { JoinParentChild(t, t', p, i, j); }
  }

  lemma FenceJoin(n: seq<Key>, sep: Key, s: seq<Key>, lo: int, hi: int, j: nat)
    requires j <= |n| + |s| + 2
    ensures Fence(n + [sep] + s, lo, hi, j)
         == if j <= |n| + 1 then Fence(n, lo, sep, j) else Fence(s, sep, hi, j - |n| - 1)
  {
  }

  lemma JoinedChild(t: Tree, t': Tree, p: PageId, i: nat, j: nat)
    requires IsJoin(t, t', p, i) && Dom(t')
    requires var x, r := t.pages[p].children[i], t.pages[p].children[i + 1];
      InnerOk(t, x) && InnerOk(t, r) && t.pages[x].Inner? && j < |t'.pages[x].children| == |t'.pages[x].keys| + 1
    ensures ChildOk(t', t.pages[p].children[i], j)
  {
    var x, r := t.pages[p].children[i], t.pages[p].children[i + 1];
    var n, s, sep := t.pages[x], t.pages[r], t.pages[p].keys[i];
    FenceJoin(n.keys, sep, s.keys, t.shape[x].lo, t.shape[r].hi, j);
    FenceJoin(n.keys, sep, s.keys, t.shape[x].lo, t.shape[r].hi, j + 1);
    if j < |n.children| {
      assert ChildOk(t, x, j);
      assert t'.pages[x].children[j] == n.children[j];
    } else {
      assert ChildOk(t, r, j - |n.children|);
      assert t'.pages[x].children[j] == s.children[j - |n.children|];
    }
  }

  lemma JoinOther(t: Tree, t': Tree, p: PageId, i: nat, id: PageId)
    requires IsJoin(t, t', p, i) && Dom(t')
    requires id in t'.shape && InnerOk(t, id) && id != p && id != t.pages[p].children[i]
    ensures InnerOk(t', id)
  {
    if t.pages[id].Inner? {
      assert t'.pages[id].keys == t.pages[id].keys && t'.pages[id].children == t.pages[id].children;
      forall j | 0 <= j < |t'.pages[id].children| ensures ChildOk(t', id, j) { assert ChildOk(t, id, j); }
    }
  }

  lemma JoinInner(t: Tree, t': Tree, p: PageId, i: nat, id: PageId)
    requires IsJoin(t, t', p, i) && Ups(t) && Inners(t) && Dom(t') && id in t'.shape
    ensures InnerOk(t', id)
  {
    var x, r := t.pages[p].children[i], t.pages[p].children[i + 1];
    assert InnerOk(t, p) && UpOk(t, p) && InnerOk(t, x) && InnerOk(t, r) && InnerOk(t, id);
    if id == p {
      JoinParent(t, t', p, i);
    } else if id == x {
      if t.pages[x].Inner? {
        JoinedShape(t.pages[x], t.pages[r], t.shape[x].lo, t.pages[p].keys[i], t.shape[r].hi, false);
        forall j | 0 <= j < |t'.pages[x].children| ensures ChildOk(t', x, j) { JoinedChild(t, t', p, i, j); }
      }
    } else {
      JoinOther(t, t', p, i, id);
    }
  }

  /** The merged leaf absorbs a stale right neighbour; a stale left one stays stale. */
  lemma JoinLeaf(t: Tree, t': Tree, p: PageId, i: nat, stale: PageId, id: PageId)
    requires IsJoin(t, t', p, i) && Ups(t) && Inners(t) && Leaves(t, stale) && Dom(t') && id in t'.shape
    ensures LeafOk(t', id, if stale == t.pages[p].children[i + 1] then INVALID else stale)
  {
    var x, r := t.pages[p].children[i], t.pages[p].children[i + 1];
    assert LeafOk(t, x, stale) && LeafOk(t, r, stale) && LeafOk(t, id, stale);
    JoinedShape(t.pages[x], t.pages[r], t.shape[x].lo, t.pages[p].keys[i], t.shape[r].hi, x != stale);
    if t.pages[id].Leaf? && id != x && t.pages[id].next == r && t.shape[id].hi != POS {
      LeafUnique(t, id, x);
    }
  }

  lemma JoinStructure(t: Tree, t': Tree, p: PageId, i: nat, stale: PageId)
    requires IsJoin(t, t', p, i) && Ups(t) && Inners(t) && Leaves(t, stale)
    ensures Dom(t') && Ups(t') && Inners(t')
    ensures Leaves(t', if stale == t.pages[p].children[i + 1] then INVALID else stale)
  {
    JoinDom(t, t', p, i);
    var stale' := if stale == t.pages[p].children[i + 1] then INVALID else stale;
    forall id | id in t'.shape ensures UpOk(t', id) { JoinUp(t, t', p, i, id); }
    forall id | id in t'.shape ensures InnerOk(t', id) { JoinInner(t, t', p, i, id); }
    forall id | id in t'.shape ensures LeafOk(t', id, stale') { JoinLeaf(t, t', p, i, stale, id); }
  }

  lemma JoinListed(t: Tree, t': Tree, p: PageId, i: nat, id: PageId)
    requires IsJoin(t, t', p, i) && Listed(t) && Dom(t') && id in t'.shape
    requires t'.entries == MergeEntries(t.entries, t.pages[p].children[i], t.pages[p].children[i + 1])
    ensures LeafListed(t', id)
  {
    var x, r := t.pages[p].children[i], t.pages[p].children[i + 1];
    if id == x {
      assert LeafListed(t, x) && LeafListed(t, r);
    } else {
      assert LeafListed(t, id);
    }
  }

  lemma JoinStored(t: Tree, t': Tree, p: PageId, i: nat, k: Key)
    requires IsJoin(t, t', p, i) && Stored(t) && Dom(t') && k in t.entries
    requires t'.entries == MergeEntries(t.entries, t.pages[p].children[i], t.pages[p].children[i + 1])
    ensures EntryStored(t', k)
  {
    var x, r := t.pages[p].children[i], t.pages[p].children[i + 1];
    assert EntryStored(t, k);
    var y := t.entries[k].leaf;
    var j :| 0 <= j < |t.pages[y].keys| && t.pages[y].keys[j] == k;
    if y == x {
      assert t'.pages[x].keys[j] == k;
    } else if y == r {
      assert t'.pages[x].keys[|t.pages[x].keys| + j] == k;
    }
  }

  lemma JoinEntries(t: Tree, t': Tree, p: PageId, i: nat)
    requires IsJoin(t, t', p, i) && Dom(t') && Listed(t) && Stored(t)
    requires t'.entries == MergeEntries(t.entries, t.pages[p].children[i], t.pages[p].children[i + 1])
    ensures Listed(t') && Stored(t')
  {
    forall id | id in t'.shape ensures LeafListed(t', id) { JoinListed(t, t', p, i, id); }
    forall k | k in t'.entries ensures EntryStored(t', k) { JoinStored(t, t', p, i, k); }
  }

  lemma JoinCap(t: Tree, t': Tree, c: Config, p: PageId, i: nat, under: PageId, id: PageId)
    requires IsJoin(t, t', p, i) && Dom(t') && id in t'.shape && Legal(c)
    requires var x, r := t.pages[p].children[i], t.pages[p].children[i + 1];
      && Caps(t, c, INVALID, under) && under in {x, r}
      && |t.pages[x].keys| + |t.pages[r].keys| < 2 * MinKeys(c, t.pages[x])
    ensures CapOk(t', c, id, INVALID, p)
  {
    var x, r := t.pages[p].children[i], t.pages[p].children[i + 1];
    if id == x {
      assert CapOk(t, c, x, INVALID, under) && CapOk(t, c, r, INVALID, under);
    } else {
      assert CapOk(t, c, id, INVALID, under);
    }
  }

  lemma JoinCaps(t: Tree, t': Tree, c: Config, p: PageId, i: nat, under: PageId)
    requires IsJoin(t, t', p, i) && Dom(t') && Legal(c)
    requires var x, r := t.pages[p].children[i], t.pages[p].children[i + 1];
      && Caps(t, c, INVALID, under) && under in {x, r}
      && |t.pages[x].keys| + |t.pages[r].keys| < 2 * MinKeys(c, t.pages[x])
    ensures Caps(t', c, INVALID, p)
  {
    forall id | id in t'.shape ensures CapOk(t', c, id, INVALID, p) { JoinCap(t, t', c, p, i, under, id); }
  }

  /** Merging two children that are jointly short moves the shortage, at most, to their parent. */
  lemma JoinKeeps(t: Tree, c: Config, p: PageId, i: nat, under: PageId, stale: PageId)
    requires CanJoin(t, p, i) && Legal(c) && Inv(t, c, Exempt(INVALID, under, stale))
    requires var x, r := t.pages[p].children[i], t.pages[p].children[i + 1];
      under in {x, r} && |t.pages[x].keys| + |t.pages[r].keys| < 2 * MinKeys(c, t.pages[x])
    ensures var stale' := if stale == t.pages[p].children[i + 1] then INVALID else stale;
      Inv(Join(t, p, i), c, Exempt(INVALID, p, stale'))
    ensures Model(Join(t, p, i)) == Model(t)
  {
    var t' := Join(t, p, i);
    JoinIs(t, p, i);
    JoinStructure(t, t', p, i, stale);
    JoinEntries(t, t', p, i);
    JoinCaps(t, t', c, p, i, under);
  }

  // ---- Moving one entry between two neighbouring children ----------------------------

  /** Redistribution: merge two neighbours and split them again elsewhere. */
  ghost predicate CanRotate(t: Tree, p: PageId, i: nat, m: nat) {
    && CanJoin(t, p, i)
    && var x, r := t.pages[p].children[i], t.pages[p].children[i + 1];
    && 0 < m < |t.pages[x].keys| + |t.pages[r].keys| + (if t.pages[x].Leaf? then 0 else 1)
  }

  lemma JoinThenSplit(t: Tree, p: PageId, i: nat, m: nat)
    requires CanRotate(t, p, i, m) && Ups(t) && Inners(t)
    ensures CanSplit(Join(t, p, i), p, i, m, t.pages[p].children[i + 1])
    ensures IsJoin(t, Join(t, p, i), p, i)
    ensures Join(t, p, i).pages[p].children[i] == t.pages[p].children[i]
  {
    var x, r := t.pages[p].children[i], t.pages[p].children[i + 1];
    JoinIs(t, p, i);
    JoinDom(t, Join(t, p, i), p, i);
    JoinedShape(t.pages[x], t.pages[r], t.shape[x].lo, t.pages[p].keys[i], t.shape[r].hi, false);
  }

  ghost function Rotate(t: Tree, p: PageId, i: nat, m: nat): Tree
    requires CanRotate(t, p, i, m) && Ups(t) && Inners(t)
  {
    JoinThenSplit(t, p, i, m);
    Split(Join(t, p, i), p, i, m, t.pages[p].children[i + 1])
  }

  lemma JoinCount(t: Tree, t': Tree, p: PageId, i: nat, id: PageId)
    requires IsJoin(t, t', p, i) && Dom(t') && id in t'.shape && id != t.pages[p].children[i]
    ensures t'.pages[id].Leaf? <==> t.pages[id].Leaf?
    ensures |t'.pages[id].keys| == |t.pages[id].keys| - (if id == p then 1 else 0)
  {
  }

  lemma SplitCount(t: Tree, t': Tree, p: PageId, i: nat, m: nat, r: PageId, id: PageId)
    requires IsSplit(t, t', p, i, m, r) && Dom(t') && id in t'.shape && id != r && id != t.pages[p].children[i]
    ensures t'.pages[id].Leaf? <==> t.pages[id].Leaf?
    ensures |t'.pages[id].keys| == |t.pages[id].keys| + (if id == p then 1 else 0)
  {
  }

  lemma RotateCap(t: Tree, t1: Tree, t2: Tree, c: Config, p: PageId, i: nat, m: nat, under: PageId, id: PageId)
    requires IsJoin(t, t1, p, i) && Dom(t1) && t1.pages[p].children[i] == t.pages[p].children[i]
    requires IsSplit(t1, t2, p, i, m, t.pages[p].children[i + 1]) && Dom(t2) && id in t2.shape
    requires var x, r := t.pages[p].children[i], t.pages[p].children[i + 1];
      && Caps(t, c, INVALID, under) && under in {x, r}
      && MinKeys(c, t.pages[x]) <= m <= MaxKeys(c, t.pages[x])
      && MinKeys(c, t.pages[x]) <= |t.pages[x].keys| + |t.pages[r].keys| - m <= MaxKeys(c, t.pages[x])
    ensures CapOk(t2, c, id, INVALID, INVALID)
  {
    var x, r := t.pages[p].children[i], t.pages[p].children[i + 1];
    if id == x {
      assert |t2.pages[x].keys| == m;
    } else if id == r {
      assert |t2.pages[r].keys| == |t.pages[x].keys| + |t.pages[r].keys| - m;
    } else {
      assert CapOk(t, c, id, INVALID, under);
      assert id in t1.shape;
      JoinCount(t, t1, p, i, id);
      SplitCount(t1, t2, p, i, m, r, id);
    }
  }

  /** Moving an entry from a rich neighbour repairs a short child. */
  lemma RotateKeeps(t: Tree, c: Config, p: PageId, i: nat, m: nat, under: PageId, stale: PageId)
    requires Inv(t, c, Exempt(INVALID, under, stale)) && CanRotate(t, p, i, m)
    requires var x, r := t.pages[p].children[i], t.pages[p].children[i + 1];
      && under in {x, r}
      && MinKeys(c, t.pages[x]) <= m <= MaxKeys(c, t.pages[x])
      && MinKeys(c, t.pages[x]) <= |t.pages[x].keys| + |t.pages[r].keys| - m <= MaxKeys(c, t.pages[x])
    ensures var stale' := if stale == t.pages[p].children[i + 1] then INVALID else stale;
      Inv(Rotate(t, p, i, m), c, Exempt(INVALID, INVALID, stale'))
    ensures Model(Rotate(t, p, i, m)) == Model(t)
  {
    var r := t.pages[p].children[i + 1];
    JoinThenSplit(t, p, i, m);
    var t1, t2 := Join(t, p, i), Rotate(t, p, i, m);
    JoinStructure(t, t1, p, i, stale);
    JoinEntries(t, t1, p, i);
    RotateSplit(t1, t2, p, i, m, r, if stale == r then INVALID else stale);
    RotateCaps(t, t1, t2, c, p, i, m, under);
  }

  lemma RotateCaps(t: Tree, t1: Tree, t2: Tree, c: Config, p: PageId, i: nat, m: nat, under: PageId)
    requires IsJoin(t, t1, p, i) && Dom(t1) && t1.pages[p].children[i] == t.pages[p].children[i]
    requires IsSplit(t1, t2, p, i, m, t.pages[p].children[i + 1]) && Dom(t2)
    requires var x, r := t.pages[p].children[i], t.pages[p].children[i + 1];
      && Caps(t, c, INVALID, under) && under in {x, r}
      && MinKeys(c, t.pages[x]) <= m <= MaxKeys(c, t.pages[x])
      && MinKeys(c, t.pages[x]) <= |t.pages[x].keys| + |t.pages[r].keys| - m <= MaxKeys(c, t.pages[x])
    ensures Caps(t2, c, INVALID, INVALID)
  {
    forall id | id in t2.shape ensures CapOk(t2, c, id, INVALID, INVALID) {
      RotateCap(t, t1, t2, c, p, i, m, under, id);
    }
  }

  lemma RotateSplit(t1: Tree, t2: Tree, p: PageId, i: nat, m: nat, r: PageId, stale: PageId)
    requires CanSplit(t1, p, i, m, r) && Ups(t1) && Inners(t1) && Leaves(t1, stale) && stale != r && Listed(t1)
      && Stored(t1)
    requires t2 == Split(t1, p, i, m, r)
    ensures IsSplit(t1, t2, p, i, m, r)
    ensures Dom(t2) && Ups(t2) && Inners(t2) && Leaves(t2, stale) && Listed(t2) && Stored(t2)
  {
    SplitIs(t1, p, i, m, r);
    SplitStructure(t1, t2, p, i, m, r, stale);
    SplitEntries(t1, t2, p, i, m, r);
  }

  // ---- Removing a key from a leaf ----------------------------------------------------

  ghost function DropKey(t: Tree, leaf: PageId, at: nat): Tree
    requires leaf in t.pages && t.pages[leaf].Leaf? && at < |t.pages[leaf].keys| == |t.pages[leaf].values|
  {
    var n := t.pages[leaf];
    t.(pages := t.pages[leaf := n.(keys := RemoveAt(n.keys, at), values := RemoveAt(n.values, at))],
       entries := t.entries - {n.keys[at]})
  }

  lemma DropKeyListed(t: Tree, leaf: PageId, at: nat, id: PageId)
    requires Dom(t) && leaf in t.shape && t.pages[leaf].Leaf?
      && LeafShape(t.pages[leaf], t.shape[leaf].lo, t.shape[leaf].hi, false)
    requires at < |t.pages[leaf].keys| && Dom(DropKey(t, leaf, at)) && id in t.shape
    requires Listed(t)
    ensures LeafListed(DropKey(t, leaf, at), id)
  {
    assert LeafListed(t, id) && LeafListed(t, leaf);
  }

  lemma DropKeyStored(t: Tree, leaf: PageId, at: nat, k: Key)
    requires Dom(t) && leaf in t.shape && t.pages[leaf].Leaf? && at < |t.pages[leaf].keys| == |t.pages[leaf].values|
    requires Dom(DropKey(t, leaf, at)) && k in t.entries && k != t.pages[leaf].keys[at] && EntryStored(t, k)
    ensures EntryStored(DropKey(t, leaf, at), k)
  {
    if t.entries[k].leaf == leaf {
      var j :| 0 <= j < |t.pages[leaf].keys| && t.pages[leaf].keys[j] == k;
      assert DropKey(t, leaf, at).pages[leaf].keys[if j < at then j else j - 1] == k;
    }
  }

  /** Removing a key leaves that leaf short by at most one and possibly away from its separator. */
  lemma DropKeyKeeps(t: Tree, c: Config, leaf: PageId, at: nat)
    requires Inv(t, c, NOTHING) && leaf in t.shape && t.pages[leaf].Leaf? && LeafOk(t, leaf, INVALID)
    requires at < |t.pages[leaf].keys|
    ensures Inv(DropKey(t, leaf, at), c, Exempt(INVALID, leaf, leaf))
  {
    var t' := DropKey(t, leaf, at);
    LeafEditFrame(t, t', leaf);
    LeafEditLeaves(t, t', leaf, INVALID, leaf);
    forall id | id in t'.shape ensures LeafListed(t', id) { DropKeyListed(t, leaf, at, id); }
    forall k | k in t'.entries ensures EntryStored(t', k) { assert EntryStored(t, k); DropKeyStored(t, leaf, at, k); }
    forall id | id in t'.shape ensures CapOk(t', c, id, INVALID, leaf) { assert CapOk(t, c, id, INVALID, INVALID); }
  }

  /** An exemption that is not used can be dropped. */
  lemma Tighten(t: Tree, c: Config, e: Exempt, f: Exempt)
    requires Inv(t, c, e)
    requires f.over == e.over
      || (f.over == INVALID && (e.over in t.shape ==> |t.pages[e.over].keys| <= MaxKeys(c, t.pages[e.over])))
    requires f.under == e.under || (f.under == INVALID && (e.under in t.shape ==>
               if e.under == t.root then t.pages[e.under].Inner? ==> |t.pages[e.under].keys| >= 1
               else |t.pages[e.under].keys| >= MinKeys(c, t.pages[e.under])))
    requires f.stale == e.stale || (f.stale == INVALID && (e.stale in t.shape && t.pages[e.stale].Leaf? ==>
               LeafShape(t.pages[e.stale], t.shape[e.stale].lo, t.shape[e.stale].hi, true)))
    ensures Inv(t, c, f)
  {
    forall id | id in t.shape ensures CapOk(t, c, id, f.over, f.under) { assert CapOk(t, c, id, e.over, e.under); }
    forall id | id in t.shape ensures LeafOk(t, id, f.stale) { assert LeafOk(t, id, e.stale); }
  }

  // ---- Moving a separator to the new first key of a leaf -----------------------------

  ghost function Moved(v: int, m: int, m': int): int {
    if v == m then m' else v
  }

  /** Separator j of page a, which is the low fence of the stale leaf, becomes that leaf's first key. */
  ghost predicate CanRefence(t: Tree, a: PageId, j: nat, leaf: PageId, m': Key) {
    && Dom(t) && Ups(t) && Inners(t) && Leaves(t, leaf)
    && a in t.shape && t.pages[a].Inner? && j < |t.pages[a].keys|
    && leaf in t.shape && t.pages[leaf].Leaf? && |t.pages[leaf].keys| > 0 && t.pages[leaf].keys[0] == m'
    && t.shape[leaf].lo == t.pages[a].keys[j] < m'
  }

  ghost function Refence(t: Tree, a: PageId, j: nat, m': Key): Tree
    requires Dom(t) && a in t.shape && t.pages[a].Inner? && j < |t.pages[a].keys|
  {
    var m := t.pages[a].keys[j];
    t.(pages := t.pages[a := Inner(t.pages[a].parent, t.pages[a].keys[j := m'], t.pages[a].children)],
       shape := map id | id in t.shape ::
                  t.shape[id].(lo := Moved(t.shape[id].lo, m, m'), hi := Moved(t.shape[id].hi, m, m')))
  }

  /** Whatever starts at the old separator reaches beyond the new one. */
  lemma SpineReaches(t: Tree, a: PageId, j: nat, leaf: PageId, m': Key, id: PageId)
    requires CanRefence(t, a, j, leaf, m') && id in t.shape && t.shape[id].lo == t.shape[leaf].lo
    ensures m' < t.shape[id].hi
  {
    assert UpOk(t, leaf) && UpOk(t, id) && LeafOk(t, leaf, leaf);
    var y := Ascend(t, leaf, t.shape[id].height);
    CoverUnique(t, y, id, t.shape[id].lo);
    assert t.pages[leaf].keys[0] < t.shape[leaf].hi;
  }

  lemma RefenceUp(t: Tree, a: PageId, j: nat, leaf: PageId, m': Key, id: PageId)
    requires CanRefence(t, a, j, leaf, m') && id in t.shape && Dom(Refence(t, a, j, m'))
    ensures UpOk(Refence(t, a, j, m'), id)
  {
    assert UpOk(t, id);
    if t.shape[id].lo == t.shape[leaf].lo { SpineReaches(t, a, j, leaf, m', id); }
  }

  lemma OnlySeparator(t: Tree, a: PageId, j: nat, id: PageId, i: nat)
    requires Dom(t) && Ups(t) && Inners(t) && a in t.shape && t.pages[a].Inner? && j < |t.pages[a].keys|
    requires id in t.shape && t.pages[id].Inner? && i < |t.pages[id].keys|
    ensures t.pages[id].keys[i] == t.pages[a].keys[j] ==> id == a && i == j
  {
    if t.pages[id].keys[i] == t.pages[a].keys[j] {
      if t.shape[id].height <= t.shape[a].height {
        SeparatorUnique(t, id, i, a, j);
      } else {
        SeparatorUnique(t, a, j, id, i);
      }
    }
  }

  /** The fences that an internal page hands to its children all move together. */
  lemma RefenceFence(t: Tree, a: PageId, j: nat, leaf: PageId, m': Key, id: PageId, i: nat)
    requires CanRefence(t, a, j, leaf, m') && id in t.shape && t.pages[id].Inner? && i <= |t.pages[id].keys| + 1
    ensures var t' := Refence(t, a, j, m');
      Fence(t'.pages[id].keys, t'.shape[id].lo, t'.shape[id].hi, i)
        == Moved(Fence(t.pages[id].keys, t.shape[id].lo, t.shape[id].hi, i), t.pages[a].keys[j], m')
  {
    if 0 < i <= |t.pages[id].keys| { OnlySeparator(t, a, j, id, i - 1); }
  }

  lemma RefenceShape(t: Tree, a: PageId, j: nat, leaf: PageId, m': Key, id: PageId)
    requires CanRefence(t, a, j, leaf, m') && id in t.shape && t.pages[id].Inner? && Dom(Refence(t, a, j, m'))
    ensures var t' := Refence(t, a, j, m'); InnerShape(t'.pages[id], t'.shape[id].lo, t'.shape[id].hi)
  {
    var t' := Refence(t, a, j, m');
    var n := t.pages[id];
    var m := t.pages[a].keys[j];
    assert InnerOk(t, id) && UpOk(t, id);
    forall i | 0 <= i <= |n.keys|
      ensures Fence(t'.pages[id].keys, t'.shape[id].lo, t'.shape[id].hi, i)
            < Fence(t'.pages[id].keys, t'.shape[id].lo, t'.shape[id].hi, i + 1)
    {
      RefenceFence(t, a, j, leaf, m', id, i);
      RefenceFence(t, a, j, leaf, m', id, i + 1);
      assert ChildOk(t, id, i);
      var c := n.children[i];
      assert UpOk(t, c);
      if t.shape[c].lo == m { SpineReaches(t, a, j, leaf, m', c); }
    }
    StrictFences(t'.pages[id], t'.shape[id].lo, t'.shape[id].hi);
  }

  lemma {:induction false} StrictFencesBetween(keys: seq<Key>, lo: int, hi: int, i: nat, j: nat)
    requires i < j <= |keys| + 1
    requires forall k :: 0 <= k <= |keys| ==> Fence(keys, lo, hi, k) < Fence(keys, lo, hi, k + 1)
    ensures Fence(keys, lo, hi, i) < Fence(keys, lo, hi, j)
    decreases j
  {
    assert Fence(keys, lo, hi, j - 1) < Fence(keys, lo, hi, j - 1 + 1);
    if i < j - 1 { StrictFencesBetween(keys, lo, hi, i, j - 1); }
  }

  lemma StrictFences(n: Node, lo: int, hi: int)
    requires n.Inner? && |n.children| == |n.keys| + 1
    requires forall i :: 0 <= i <= |n.keys| ==> Fence(n.keys, lo, hi, i) < Fence(n.keys, lo, hi, i + 1)
    ensures InnerShape(n, lo, hi)
  {
    forall i, j | 0 <= i < j < |n.keys| ensures n.keys[i] < n.keys[j] {
      StrictFencesBetween(n.keys, lo, hi, i + 1, j + 1);
    }
    forall i | 0 <= i < |n.keys| ensures lo + 1 <= n.keys[i] < hi {
      StrictFencesBetween(n.keys, lo, hi, 0, i + 1);
      StrictFencesBetween(n.keys, lo, hi, i + 1, |n.keys| + 1);
    }
  }

  lemma RefenceInner(t: Tree, a: PageId, j: nat, leaf: PageId, m': Key, id: PageId)
    requires CanRefence(t, a, j, leaf, m') && id in t.shape && Dom(Refence(t, a, j, m'))
    ensures InnerOk(Refence(t, a, j, m'), id)
  {
    var t' := Refence(t, a, j, m');
    if t.pages[id].Inner? {
      RefenceShape(t, a, j, leaf, m', id);
      assert InnerOk(t, id);
      forall i | 0 <= i < |t'.pages[id].children| ensures ChildOk(t', id, i) {
        assert ChildOk(t, id, i);
        RefenceFence(t, a, j, leaf, m', id, i);
        RefenceFence(t, a, j, leaf, m', id, i + 1);
      }
    }
  }

  lemma RefenceLeaf(t: Tree, a: PageId, j: nat, leaf: PageId, m': Key, id: PageId)
    requires CanRefence(t, a, j, leaf, m') && id in t.shape && Dom(Refence(t, a, j, m'))
    ensures LeafOk(Refence(t, a, j, m'), id, INVALID)
  {
    assert LeafOk(t, id, leaf) && LeafOk(t, leaf, leaf);
    if t.pages[id].Leaf? && t.shape[id].lo == t.shape[leaf].lo { LeafUnique(t, id, leaf); }
  }

  lemma RefenceStructure(t: Tree, a: PageId, j: nat, leaf: PageId, m': Key)
    requires CanRefence(t, a, j, leaf, m')
    ensures var t' := Refence(t, a, j, m'); Dom(t') && Ups(t') && Inners(t') && Leaves(t', INVALID)
  {
    var t' := Refence(t, a, j, m');
    forall id | id in t'.shape ensures UpOk(t', id) { RefenceUp(t, a, j, leaf, m', id); }
    forall id | id in t'.shape ensures InnerOk(t', id) { RefenceInner(t, a, j, leaf, m', id); }
    forall id | id in t'.shape ensures LeafOk(t', id, INVALID) { RefenceLeaf(t, a, j, leaf, m', id); }
  }

  /** Updating the separator makes the stale leaf exact again and changes nothing else. */
  lemma RefenceKeeps(t: Tree, c: Config, a: PageId, j: nat, leaf: PageId, m': Key, under: PageId)
    requires Inv(t, c, Exempt(INVALID, under, leaf)) && CanRefence(t, a, j, leaf, m')
    ensures Inv(Refence(t, a, j, m'), c, Exempt(INVALID, under, INVALID))
    ensures Model(Refence(t, a, j, m')) == Model(t)
  {
    var t' := Refence(t, a, j, m');
    RefenceStructure(t, a, j, leaf, m');
    forall id | id in t'.shape ensures CapOk(t', c, id, INVALID, under) { assert CapOk(t, c, id, INVALID, under); }
    SameLeavesEntries(t, t');
  }

  // ---- Dropping a keyless root -------------------------------------------------------

  ghost function Contract(t: Tree): Tree
    requires Dom(t) && t.pages[t.root].Inner? && |t.pages[t.root].children| == 1
      && t.pages[t.root].children[0] in t.pages
  {
    var child := t.pages[t.root].children[0];
    t.(pages := t.pages[child := t.pages[child].(parent := INVALID)], root := child, shape := t.shape - {t.root})
  }

  lemma ContractNode(t: Tree, c: Config, id: PageId)
    requires Dom(t) && Ups(t) && Inners(t) && Leaves(t, INVALID) && Caps(t, c, INVALID, t.root) && Legal(c)
    requires t.pages[t.root].Inner? && |t.pages[t.root].children| == 1 && t.pages[t.root].children[0] in t.shape
    requires Dom(Contract(t)) && id in Contract(t).shape
    ensures UpOk(Contract(t), id) && InnerOk(Contract(t), id) && LeafOk(Contract(t), id, INVALID)
    ensures CapOk(Contract(t), c, id, INVALID, INVALID)
  {
    var t' := Contract(t);
    assert UpOk(t, t.root) && InnerOk(t, t.root) && ChildOk(t, t.root, 0);
    assert UpOk(t, id) && InnerOk(t, id) && LeafOk(t, id, INVALID) && CapOk(t, c, id, INVALID, t.root);
    BelowRoot(t, id);
    if t.pages[id].Inner? {
      forall j | 0 <= j < |t.pages[id].children| ensures ChildOk(t', id, j) { assert ChildOk(t, id, j); }
    }
  }

  lemma ContractStructure(t: Tree, c: Config)
    requires Dom(t) && Ups(t) && Inners(t) && Leaves(t, INVALID) && Caps(t, c, INVALID, t.root) && Legal(c)
    requires t.pages[t.root].Inner? && |t.pages[t.root].children| == 1 && t.pages[t.root].children[0] in t.shape
    requires Dom(Contract(t))
    ensures var t' := Contract(t); Ups(t') && Inners(t') && Leaves(t', INVALID) && Caps(t', c, INVALID, INVALID)
  {
    var t' := Contract(t);
    forall id | id in t'.shape ensures UpOk(t', id) { ContractNode(t, c, id); }
    forall id | id in t'.shape ensures InnerOk(t', id) { ContractNode(t, c, id); }
    forall id | id in t'.shape ensures LeafOk(t', id, INVALID) { ContractNode(t, c, id); }
    forall id | id in t'.shape ensures CapOk(t', c, id, INVALID, INVALID) { ContractNode(t, c, id); }
  }

  /** A root without keys gives way to its only child. */
  lemma ContractKeeps(t: Tree, c: Config)
    requires Inv(t, c, Exempt(INVALID, t.root, INVALID)) && Legal(c)
    requires t.pages[t.root].Inner? && |t.pages[t.root].children| == 1 && t.pages[t.root].children[0] in t.shape
    ensures Inv(Contract(t), c, NOTHING) && Model(Contract(t)) == Model(t)
  {
    var t' := Contract(t);
    assert InnerOk(t, t.root) && ChildOk(t, t.root, 0);
    ContractStructure(t, c);
    SameLeavesEntries(t, t');
  }
}
