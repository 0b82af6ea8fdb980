/**
  The state of the B+ tree and its structural invariant.

  Every page reachable from the root is annotated with its height and with two fences:
  all keys below the page lie in [lo, hi). The fences of a child are the separators next to
  it, so the separator invariant, the leaf chain and the routing of searches are all local
  statements about a page and its neighbours.
*/
module BTreeShape {
  import opened StorageTypes

  type Key = k: int | -0x8000_0000_0000_0000 <= k < 0x8000_0000_0000_0000

  /** Fences outside the key range: below and above every key. */
  const NEG: int := -0x8000_0000_0000_0001
  const POS: int := 0x8000_0000_0000_0000

  datatype Node =
    | Leaf(parent: PageId, next: PageId, keys: seq<Key>, values: seq<RecordId>)
    | Inner(parent: PageId, keys: seq<Key>, children: seq<PageId>)

  datatype Info = Info(height: nat, lo: int, hi: int)

  datatype Entry = Entry(leaf: PageId, value: RecordId)

  /** Node capacities; creation rejects maxima below two. */
  datatype Config = Config(leafMax: nat, innerMax: nat)

  datatype Tree = Tree(
    pages: map<PageId, Node>, root: PageId,
    shape: map<PageId, Info>, entries: map<Key, Entry>)

  /** Pages exempt from one clause of the invariant while an operation is under way:
      `over` may hold one key too many, `under` one too few, and the first key of the leaf
      `stale` may have moved away from its separator. */
  datatype Exempt = Exempt(over: PageId, under: PageId, stale: PageId)

  const NOTHING := Exempt(INVALID, INVALID, INVALID)

  ghost predicate Legal(c: Config) {
    c.leafMax >= 2 && c.innerMax >= 2
  }

  function MaxKeys(c: Config, n: Node): nat {
    if n.Leaf? then c.leafMax else c.innerMax
  }

  function MinKeys(c: Config, n: Node): nat {
    if n.Leaf? then (c.leafMax + 1) / 2 else c.innerMax / 2
  }

  ghost predicate Sorted(s: seq<Key>) {
    forall i, j :: 0 <= i < j < |s| ==> s[i] < s[j]
  }

  /** The i-th boundary of an internal page: its own low fence, its separators, its high fence. */
  ghost function Fence(keys: seq<Key>, lo: int, hi: int, i: nat): int
    requires i <= |keys| + 1
  {
    if i == 0 then lo else if i <= |keys| then keys[i - 1] else hi
  }

  ghost predicate Dom(t: Tree) {
    && t.root in t.shape
    && forall id :: id in t.shape ==>
         id in t.pages && id != INVALID && (t.pages[id].Leaf? <==> t.shape[id].height == 0)
  }

  /** Fences are proper, the root spans all keys, every other page is listed by its parent. */
  ghost predicate UpOk(t: Tree, id: PageId)
    requires Dom(t) && id in t.shape
  {
    && NEG <= t.shape[id].lo < t.shape[id].hi <= POS
    && t.shape[id].height <= t.shape[t.root].height
    && if id == t.root then
         t.pages[id].parent == INVALID && t.shape[id].lo == NEG && t.shape[id].hi == POS
       else
         && t.pages[id].parent in t.shape
         && t.pages[t.pages[id].parent].Inner?
         && id in t.pages[t.pages[id].parent].children
  }

  ghost predicate ChildOk(t: Tree, id: PageId, i: nat)
    requires Dom(t) && id in t.shape && t.pages[id].Inner?
    requires |t.pages[id].children| == |t.pages[id].keys| + 1 && i < |t.pages[id].children|
  {
    var n := t.pages[id];
    var c := n.children[i];
    && c in t.shape
    && t.pages[c].parent == id
    && t.shape[c].height + 1 == t.shape[id].height
    && t.shape[c].lo == Fence(n.keys, t.shape[id].lo, t.shape[id].hi, i)
    && t.shape[c].hi == Fence(n.keys, t.shape[id].lo, t.shape[id].hi, i + 1)
  }

  ghost predicate Within(keys: seq<Key>, lo: int, hi: int) {
    forall i :: 0 <= i < |keys| ==> lo <= keys[i] < hi
  }

  /** An internal page has one more child than separators, and the separators are sorted
      strictly between the page's fences. */
  ghost predicate InnerShape(n: Node, lo: int, hi: int)
    requires n.Inner?
  {
    |n.children| == |n.keys| + 1 && Sorted(n.keys) && Within(n.keys, lo + 1, hi)
  }

  ghost predicate InnerOk(t: Tree, id: PageId)
    requires Dom(t) && id in t.shape
  {
    var n := t.pages[id];
    n.Inner? ==>
      && InnerShape(n, t.shape[id].lo, t.shape[id].hi)
      && forall i {:trigger ChildOk(t, id, i)} :: 0 <= i < |n.children| ==> ChildOk(t, id, i)
  }

  /** A leaf is sorted between its fences and, where `exact` is asked for, starts at its low
      fence unless that is the bottom one. */
  ghost predicate LeafShape(n: Node, lo: int, hi: int, exact: bool)
    requires n.Leaf?
  {
    && |n.values| == |n.keys|
    && Sorted(n.keys) && Within(n.keys, lo, hi)
    && (exact && lo != NEG ==> |n.keys| > 0 && n.keys[0] == lo)
  }

  /** A leaf links to the leaf that starts at its high fence. */
  ghost predicate NextOk(t: Tree, id: PageId)
    requires Dom(t) && id in t.shape && t.pages[id].Leaf?
  {
    var next := t.pages[id].next;
    if t.shape[id].hi == POS then next == INVALID
    else next in t.shape && t.pages[next].Leaf? && t.shape[next].lo == t.shape[id].hi
  }

  ghost predicate LeafOk(t: Tree, id: PageId, stale: PageId)
    requires Dom(t) && id in t.shape
  {
    t.pages[id].Leaf? ==>
      LeafShape(t.pages[id], t.shape[id].lo, t.shape[id].hi, id != stale) && NextOk(t, id)
  }

  ghost predicate CapOk(t: Tree, c: Config, id: PageId, over: PageId, under: PageId)
    requires Dom(t) && id in t.shape
  {
    var n := t.pages[id];
    var slack := if id == under then 1 else 0;
    && |n.keys| <= MaxKeys(c, n) + (if id == over then 1 else 0)
    && if id == t.root then n.Inner? ==> |n.keys| + slack >= 1
       else |n.keys| + slack >= MinKeys(c, n)
  }

  /** Every key of a leaf is an entry of the tree, recorded at that leaf with that value. */
  ghost predicate LeafListed(t: Tree, id: PageId)
    requires Dom(t) && id in t.shape
  {
    var n := t.pages[id];
    n.Leaf? && |n.values| == |n.keys| ==>
      forall i :: 0 <= i < |n.keys| ==>
        n.keys[i] in t.entries && t.entries[n.keys[i]] == Entry(id, n.values[i])
  }

  /** Every entry is stored in the leaf that the entry names. */
  ghost predicate EntryStored(t: Tree, k: Key)
    requires Dom(t) && k in t.entries
  {
    t.entries[k].leaf in t.shape && t.pages[t.entries[k].leaf].Leaf? && k in t.pages[t.entries[k].leaf].keys
  }

  ghost predicate Ups(t: Tree) requires Dom(t) { forall id {:trigger UpOk(t, id)} :: id in t.shape ==> UpOk(t, id) }
  ghost predicate Inners(t: Tree) requires Dom(t) {
    forall id {:trigger InnerOk(t, id)} :: id in t.shape ==> InnerOk(t, id)
  }
  ghost predicate Leaves(t: Tree, stale: PageId) requires Dom(t) {
    forall id {:trigger LeafOk(t, id, stale)} :: id in t.shape ==> LeafOk(t, id, stale)
  }
  ghost predicate Caps(t: Tree, c: Config, over: PageId, under: PageId)
    requires Dom(t)
  {
    forall id {:trigger CapOk(t, c, id, over, under)} :: id in t.shape ==> CapOk(t, c, id, over, under)
  }
  ghost predicate Listed(t: Tree) requires Dom(t) {
    forall id {:trigger LeafListed(t, id)} :: id in t.shape ==> LeafListed(t, id)
  }
  ghost predicate Stored(t: Tree) requires Dom(t) {
    forall k {:trigger EntryStored(t, k)} :: k in t.entries ==> EntryStored(t, k)
  }

  ghost predicate Inv(t: Tree, c: Config, e: Exempt) {
    && Dom(t) && Ups(t) && Inners(t) && Leaves(t, e.stale)
    && Caps(t, c, e.over, e.under) && Listed(t) && Stored(t)
  }

  /** The finite map that the tree stands for. */
  ghost function Model(t: Tree): map<Key, RecordId> {
    map k | k in t.entries :: t.entries[k].value
  }

  ghost predicate Covers(t: Tree, id: PageId, k: int)
    requires id in t.shape
  {
    t.shape[id].lo <= k < t.shape[id].hi
  }

  /** The position of a page among its parent's children. */
  lemma ParentIndex(t: Tree, id: PageId) returns (i: nat)
    requires Dom(t) && Ups(t) && Inners(t) && id in t.shape && id != t.root
    ensures t.pages[id].parent in t.shape && t.pages[t.pages[id].parent].Inner?
    ensures i < |t.pages[t.pages[id].parent].children| == |t.pages[t.pages[id].parent].keys| + 1
    ensures t.pages[t.pages[id].parent].children[i] == id
    ensures ChildOk(t, t.pages[id].parent, i)
  {
    assert UpOk(t, id);
    var p := t.pages[id].parent;
    assert InnerOk(t, p);
    i :| 0 <= i < |t.pages[p].children| && t.pages[p].children[i] == id;
  }

  /** Fences of an internal page increase strictly. */
  lemma FenceIncreases(t: Tree, id: PageId, i: nat, j: nat)
    requires Dom(t) && id in t.shape && UpOk(t, id) && InnerOk(t, id) && t.pages[id].Inner?
    requires i < j <= |t.pages[id].keys| + 1
    ensures Fence(t.pages[id].keys, t.shape[id].lo, t.shape[id].hi, i)
         < Fence(t.pages[id].keys, t.shape[id].lo, t.shape[id].hi, j)
  {
  }

  /** Children at different positions are different pages. */
  lemma ChildrenDistinct(t: Tree, id: PageId, i: nat, j: nat)
    requires Dom(t) && id in t.shape && UpOk(t, id) && InnerOk(t, id) && t.pages[id].Inner?
    requires i < j < |t.pages[id].children|
    ensures t.pages[id].children[i] != t.pages[id].children[j]
  {
    FenceIncreases(t, id, i, j);
    assert ChildOk(t, id, i) && ChildOk(t, id, j);
  }

  /** A parent covers what its child covers. */
  lemma ParentCovers(t: Tree, id: PageId)
    requires Dom(t) && Ups(t) && Inners(t) && id in t.shape && id != t.root
    ensures var p := t.pages[id].parent;
      && p in t.shape && t.shape[p].height == t.shape[id].height + 1
      && t.shape[p].lo <= t.shape[id].lo && t.shape[id].hi <= t.shape[p].hi
  {
    var i := ParentIndex(t, id);
    var p := t.pages[id].parent;
    assert InnerOk(t, p) && UpOk(t, p);
  }

  /** Only the root is at the root's height. */
  lemma BelowRoot(t: Tree, id: PageId)
    requires Dom(t) && Ups(t) && Inners(t) && id in t.shape
    ensures id != t.root ==> t.shape[id].height < t.shape[t.root].height
  {
    if id != t.root {
      ParentCovers(t, id);
      assert UpOk(t, t.pages[id].parent);
    }
  }

  /** One child of an internal page covers a given key. */
  lemma SlotUnique(t: Tree, p: PageId, i: nat, j: nat, k: int)
    requires Dom(t) && p in t.shape && UpOk(t, p) && InnerOk(t, p) && t.pages[p].Inner?
    requires i < |t.pages[p].children| && j < |t.pages[p].children|
    requires Fence(t.pages[p].keys, t.shape[p].lo, t.shape[p].hi, i) <= k
    requires k < Fence(t.pages[p].keys, t.shape[p].lo, t.shape[p].hi, i + 1)
    requires Fence(t.pages[p].keys, t.shape[p].lo, t.shape[p].hi, j) <= k
    requires k < Fence(t.pages[p].keys, t.shape[p].lo, t.shape[p].hi, j + 1)
    ensures i == j
  {
  }

  /** The ancestor at a given height. */
  lemma {:induction false} Ascend(t: Tree, id: PageId, h: nat) returns (a: PageId)
    requires Dom(t) && Ups(t) && Inners(t) && id in t.shape
    requires t.shape[id].height <= h <= t.shape[t.root].height
    ensures a in t.shape && t.shape[a].height == h && (t.shape[id].height == h ==> a == id)
    ensures t.shape[a].lo <= t.shape[id].lo && t.shape[id].hi <= t.shape[a].hi
    decreases h - t.shape[id].height
  {
    if t.shape[id].height == h {
      a := id;
    } else {
      ParentCovers(t, id);
      a := Ascend(t, t.pages[id].parent, h);
    }
  }

  /** At each height, one page covers a given key. */
  lemma {:induction false} CoverUnique(t: Tree, x: PageId, y: PageId, k: int)
    requires Dom(t) && Ups(t) && Inners(t) && x in t.shape && y in t.shape
    requires t.shape[x].height == t.shape[y].height && Covers(t, x, k) && Covers(t, y, k)
    ensures x == y
    decreases t.shape[t.root].height - t.shape[x].height
  {
    BelowRoot(t, x);
    BelowRoot(t, y);
    if x != t.root {
      ParentCovers(t, x);
      ParentCovers(t, y);
      var p := t.pages[x].parent;
      assert UpOk(t, p);
      CoverUnique(t, p, t.pages[y].parent, k);
      var i := ParentIndex(t, x);
      var j := ParentIndex(t, y);
      SlotUnique(t, p, i, j, k);
    }
  }

  /** Leaves whose ranges touch at the same end are the same leaf. */
  lemma LeafUnique(t: Tree, x: PageId, y: PageId)
    requires Dom(t) && Ups(t) && Inners(t) && x in t.shape && y in t.shape
    requires t.pages[x].Leaf? && t.pages[y].Leaf?
    requires t.shape[x].lo == t.shape[y].lo || t.shape[x].hi == t.shape[y].hi
    ensures x == y
  {
    assert UpOk(t, x) && UpOk(t, y);
    CoverUnique(t, x, y, if t.shape[x].lo == t.shape[y].lo then t.shape[x].lo else t.shape[x].hi - 1);
  }

  /** A separator occurs at one place in the whole tree. */
  lemma SeparatorUnique(t: Tree, x: PageId, i: nat, y: PageId, j: nat)
    requires Dom(t) && Ups(t) && Inners(t) && x in t.shape && y in t.shape
    requires t.pages[x].Inner? && t.pages[y].Inner?
    requires i < |t.pages[x].keys| && j < |t.pages[y].keys| && t.pages[x].keys[i] == t.pages[y].keys[j]
    requires t.shape[x].height <= t.shape[y].height
    ensures x == y && i == j
  {
    var m := t.pages[x].keys[i];
    assert InnerOk(t, x) && InnerOk(t, y) && UpOk(t, y);
    assert t.shape[x].lo < m < t.shape[x].hi;
    assert t.shape[y].lo < m < t.shape[y].hi;
    assert ChildOk(t, y, j + 1);
    var c := t.pages[y].children[j + 1];
    assert UpOk(t, c);
    BelowRoot(t, c);
    var a := Ascend(t, x, if t.shape[x].height < t.shape[y].height then t.shape[c].height else t.shape[y].height);
    CoverUnique(t, a, if t.shape[x].height < t.shape[y].height then c else y, m);
  }
}
