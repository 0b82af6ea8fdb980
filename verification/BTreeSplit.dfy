/** Insertion-side steps of the B+ tree: each keeps the invariant, up to the page it overfills. */
module BTreeSplit {
  import opened StorageTypes
  import opened BTreeShape

  /** Index of the first key not below k. */
  function LowerBound(s: seq<Key>, k: Key): (i: nat)
    requires Sorted(s)
    ensures i <= |s|
    ensures forall j :: 0 <= j < i ==> s[j] < k
    ensures forall j :: i <= j < |s| ==> k <= s[j]
  {
    if s == [] || k <= s[0] then 0 else 1 + LowerBound(s[1..], k)
  }

  /** Index of the first key above k. */
  function UpperBound(s: seq<Key>, k: Key): (i: nat)
    requires Sorted(s)
    ensures i <= |s|
    ensures forall j :: 0 <= j < i ==> s[j] <= k
    ensures forall j :: i <= j < |s| ==> k < s[j]
  {
    if s == [] || k < s[0] then 0 else 1 + UpperBound(s[1..], k)
  }

  function InsertAt<T>(s: seq<T>, i: nat, x: T): (r: seq<T>)
    requires i <= |s|
    ensures |r| == |s| + 1
    ensures forall j :: 0 <= j < i ==> r[j] == s[j]
    ensures r[i] == x
    ensures forall j :: i < j < |r| ==> r[j] == s[j - 1]
  {
    s[..i] + [x] + s[i..]
  }

  // ---- Adding a key to a leaf --------------------------------------------------------

  ghost function PutKey(t: Tree, leaf: PageId, at: nat, k: Key, v: RecordId): Tree
    requires leaf in t.pages && t.pages[leaf].Leaf? && |t.pages[leaf].values| == |t.pages[leaf].keys|
    requires at <= |t.pages[leaf].keys|
  {
    var n := t.pages[leaf];
    t.(pages := t.pages[leaf := n.(keys := InsertAt(n.keys, at, k), values := InsertAt(n.values, at, v))],
       entries := t.entries[k := Entry(leaf, v)])
  }

  /** A key is an entry exactly when the leaf that covers it holds it. */
  lemma EntryIffInLeaf(t: Tree, stale: PageId, leaf: PageId, k: Key)
    requires Dom(t) && Ups(t) && Inners(t) && Leaves(t, stale) && Listed(t) && Stored(t)
    requires leaf in t.shape && t.pages[leaf].Leaf? && Covers(t, leaf, k)
    ensures k in t.entries <==> k in t.pages[leaf].keys
    ensures k in t.entries ==> t.entries[k].leaf == leaf
  {
    assert LeafOk(t, leaf, stale) && LeafListed(t, leaf);
    if k in t.entries {
      assert EntryStored(t, k);
      var y := t.entries[k].leaf;
      assert LeafOk(t, y, stale);
      CoverUnique(t, leaf, y, k);
    }
  }

  /** Two trees that differ only in the entries of one leaf. */
  ghost predicate LeafEdited(t: Tree, t': Tree, leaf: PageId)
    requires Dom(t) && leaf in t.shape && t.pages[leaf].Leaf?
  {
    && t'.root == t.root && t'.shape == t.shape
    && leaf in t'.pages && t'.pages == t.pages[leaf := t'.pages[leaf]]
    && t'.pages[leaf].Leaf? && t'.pages[leaf].parent == t.pages[leaf].parent
    && t'.pages[leaf].next == t.pages[leaf].next
  }

  lemma LeafEditInner(t: Tree, t': Tree, leaf: PageId, id: PageId)
    requires Dom(t) && leaf in t.shape && t.pages[leaf].Leaf? && LeafEdited(t, t', leaf) && Dom(t')
    requires id in t.shape && InnerOk(t, id)
    ensures InnerOk(t', id)
  {
    if t.pages[id].Inner? {
      forall i | 0 <= i < |t.pages[id].children| ensures ChildOk(t', id, i) { assert ChildOk(t, id, i); }
    }
  }

  lemma LeafEditUp(t: Tree, t': Tree, leaf: PageId, id: PageId)
    requires Dom(t) && leaf in t.shape && t.pages[leaf].Leaf? && LeafEdited(t, t', leaf) && Dom(t')
    requires id in t.shape && UpOk(t, id)
    ensures UpOk(t', id)
  {
  }

  lemma LeafEditFrame(t: Tree, t': Tree, leaf: PageId)
    requires Dom(t) && Ups(t) && Inners(t) && leaf in t.shape && t.pages[leaf].Leaf? && LeafEdited(t, t', leaf)
    ensures Dom(t') && Ups(t') && Inners(t')
  {
    forall id | id in t'.shape ensures UpOk(t', id) { LeafEditUp(t, t', leaf, id); }
    forall id | id in t'.shape ensures InnerOk(t', id) { LeafEditInner(t, t', leaf, id); }
  }

  /** A leaf edit keeps the leaves in order if the edited leaf keeps its own shape. */
  lemma LeafEditLeaves(t: Tree, t': Tree, leaf: PageId, stale: PageId, stale': PageId)
    requires Dom(t) && Leaves(t, stale) && leaf in t.shape && t.pages[leaf].Leaf? && LeafEdited(t, t', leaf) && Dom(t')
    requires stale == stale' || (stale == INVALID && stale' == leaf)
    requires LeafShape(t'.pages[leaf], t.shape[leaf].lo, t.shape[leaf].hi, leaf != stale')
    ensures Leaves(t', stale')
  {
    forall id | id in t'.shape ensures LeafOk(t', id, stale') { assert LeafOk(t, id, stale); }
  }

  lemma SortedInsert(s: seq<Key>, at: nat, k: Key)
    requires Sorted(s) && at <= |s|
    requires forall j :: 0 <= j < at ==> s[j] < k
    requires forall j :: at <= j < |s| ==> k < s[j]
    ensures Sorted(InsertAt(s, at, k))
  {
    var r := InsertAt(s, at, k);
    forall i, j | 0 <= i < j < |r| ensures r[i] < r[j] {
    }
  }

  lemma PutKeyShape(n: Node, lo: int, hi: int, k: Key, v: RecordId)
    requires n.Leaf? && LeafShape(n, lo, hi, true) && lo <= k < hi && k !in n.keys
    ensures var at := LowerBound(n.keys, k);
      LeafShape(n.(keys := InsertAt(n.keys, at, k), values := InsertAt(n.values, at, v)), lo, hi, true)
  {
    var at := LowerBound(n.keys, k);
    SortedInsert(n.keys, at, k);
    assert |n.keys| > 0 && at == 0 ==> k < n.keys[0];
  }

  lemma PutKeyListed(t: Tree, t': Tree, leaf: PageId, k: Key, v: RecordId, id: PageId)
    requires Dom(t) && leaf in t.shape && t.pages[leaf].Leaf? && LeafOk(t, leaf, INVALID)
    requires k !in t.entries && t' == PutKey(t, leaf, LowerBound(t.pages[leaf].keys, k), k, v) && Dom(t')
    requires id in t.shape && LeafListed(t, id)
    ensures LeafListed(t', id)
  {
  }

  lemma PutKeyStored(t: Tree, t': Tree, leaf: PageId, k: Key, v: RecordId)
    requires Dom(t) && Stored(t) && leaf in t.shape && t.pages[leaf].Leaf? && LeafOk(t, leaf, INVALID)
    requires t' == PutKey(t, leaf, LowerBound(t.pages[leaf].keys, k), k, v) && Dom(t')
    ensures Stored(t')
  {
    var at := LowerBound(t.pages[leaf].keys, k);
    forall x | x in t'.entries
      ensures EntryStored(t', x)
    {
      if x == k {
        assert t'.pages[leaf].keys[at] == k;
      } else {
        assert EntryStored(t, x);
        if t.entries[x].leaf == leaf {
          var j :| 0 <= j < |t.pages[leaf].keys| && t.pages[leaf].keys[j] == x;
          assert t'.pages[leaf].keys[if j < at then j else j + 1] == x;
        }
      }
    }
  }

  /** Adding an absent key to the leaf that covers it leaves at most that leaf overfull. */
  lemma PutKeyKeeps(t: Tree, c: Config, leaf: PageId, k: Key, v: RecordId)
    requires Inv(t, c, NOTHING) && leaf in t.shape && t.pages[leaf].Leaf? && Covers(t, leaf, k)
    requires k !in t.pages[leaf].keys && LeafOk(t, leaf, INVALID)
    ensures Inv(PutKey(t, leaf, LowerBound(t.pages[leaf].keys, k), k, v), c, Exempt(leaf, INVALID, INVALID))
    ensures k !in Model(t) && Model(PutKey(t, leaf, LowerBound(t.pages[leaf].keys, k), k, v)) == Model(t)[k := v]
  {
    var t' := PutKey(t, leaf, LowerBound(t.pages[leaf].keys, k), k, v);
    EntryIffInLeaf(t, INVALID, leaf, k);
    LeafEditFrame(t, t', leaf);
    PutKeyShape(t.pages[leaf], t.shape[leaf].lo, t.shape[leaf].hi, k, v);
    LeafEditLeaves(t, t', leaf, INVALID, INVALID);
    forall id | id in t'.shape ensures LeafListed(t', id) { PutKeyListed(t, t', leaf, k, v, id); }
    PutKeyStored(t, t', leaf, k, v);
    PutKeyCaps(t, c, leaf, k, v);
  }

  lemma PutKeyCaps(t: Tree, c: Config, leaf: PageId, k: Key, v: RecordId)
    requires Dom(t) && Caps(t, c, INVALID, INVALID) && leaf in t.shape && t.pages[leaf].Leaf?
    requires Sorted(t.pages[leaf].keys) && |t.pages[leaf].values| == |t.pages[leaf].keys|
    ensures var t' := PutKey(t, leaf, LowerBound(t.pages[leaf].keys, k), k, v); Dom(t') && Caps(t', c, leaf, INVALID)
  {
    var t' := PutKey(t, leaf, LowerBound(t.pages[leaf].keys, k), k, v);
    forall id | id in t'.shape ensures CapOk(t', c, id, leaf, INVALID) { assert CapOk(t, c, id, INVALID, INVALID); }
  }

  // ---- Splitting an overfull page ----------------------------------------------------

  function InsertChild(n: Node, i: nat, sep: Key, r: PageId): (m: Node)
    requires n.Inner? && i <= |n.keys| && |n.children| == |n.keys| + 1
  {
    n.(keys := InsertAt(n.keys, i, sep), children := InsertAt(n.children, i + 1, r))
  }

  /** What page r's left sibling keeps when it is split at position m. */
  function LeftHalf(n: Node, m: nat, r: PageId): Node
    requires m < |n.keys| && (n.Leaf? ==> |n.values| == |n.keys|) && (n.Inner? ==> |n.children| == |n.keys| + 1)
  {
    if n.Leaf? then n.(next := r, keys := n.keys[..m], values := n.values[..m])
    else n.(keys := n.keys[..m], children := n.children[..m + 1])
  }

  /** A leaf keeps its separator as first key of the right half; an internal page gives it up. */
  function RightHalf(n: Node, m: nat): Node
    requires m < |n.keys| && (n.Leaf? ==> |n.values| == |n.keys|) && (n.Inner? ==> |n.children| == |n.keys| + 1)
  {
    if n.Leaf? then n.(keys := n.keys[m..], values := n.values[m..])
    else n.(keys := n.keys[m + 1..], children := n.children[m + 1..])
  }

  function Reparent(pages: map<PageId, Node>, kids: seq<PageId>, parent: PageId): map<PageId, Node> {
    map id | id in pages :: if id in kids then pages[id].(parent := parent) else pages[id]
  }

  function Kids(n: Node): seq<PageId> {
    if n.Leaf? then [] else n.children
  }

  ghost function MoveEntries(entries: map<Key, Entry>, x: PageId, sep: int, r: PageId): map<Key, Entry> {
    map k | k in entries :: if entries[k].leaf == x && sep <= k then Entry(r, entries[k].value) else entries[k]
  }

  ghost predicate CanSplit(t: Tree, p: PageId, i: nat, m: nat, r: PageId) {
    && Dom(t)
    && p in t.shape && t.pages[p].Inner? && i < |t.pages[p].children| == |t.pages[p].keys| + 1
    && var x := t.pages[p].children[i];
    && x in t.shape && t.pages[x].parent == p
    && 0 < m < |t.pages[x].keys|
    && (if t.pages[x].Leaf? then LeafShape(t.pages[x], t.shape[x].lo, t.shape[x].hi, false)
        else InnerShape(t.pages[x], t.shape[x].lo, t.shape[x].hi))
    && r !in t.shape && r != INVALID
  }

  /** The tree after the i-th child of p was split at m, with r as its new right sibling. */
  ghost function Split(t: Tree, p: PageId, i: nat, m: nat, r: PageId): Tree
    requires CanSplit(t, p, i, m, r)
  {
    var x := t.pages[p].children[i];
    var n := t.pages[x];
    var info := t.shape[x];
    var pages := t.pages[x := LeftHalf(n, m, r)][r := RightHalf(n, m)][p := InsertChild(t.pages[p], i, n.keys[m], r)];
    Tree(Reparent(pages, Kids(RightHalf(n, m)), r), t.root,
         t.shape[x := info.(hi := n.keys[m])][r := Info(info.height, n.keys[m], info.hi)],
         MoveEntries(t.entries, x, n.keys[m], r))
  }

  /** The split, told page by page. */
  ghost predicate IsSplit(t: Tree, t': Tree, p: PageId, i: nat, m: nat, r: PageId) {
    && CanSplit(t, p, i, m, r)
    && var x := t.pages[p].children[i];
    && var n := t.pages[x];
    && x != p && r != p && x != r && t.pages[p].parent != x
    && t.shape[x].lo < n.keys[m] < t.shape[x].hi
    && t'.root == t.root
    && t'.shape == t.shape[x := t.shape[x].(hi := n.keys[m])][r := Info(t.shape[x].height, n.keys[m], t.shape[x].hi)]
    && x in t'.pages && t'.pages[x] == LeftHalf(n, m, r)
    && r in t'.pages && t'.pages[r] == RightHalf(n, m)
    && p in t'.pages && t'.pages[p] == InsertChild(t.pages[p], i, n.keys[m], r)
    && (forall c :: c in Kids(RightHalf(n, m)) ==> c in t.shape && t.pages[c].parent == x && c != t.root)
    && (forall id :: id in t.shape && id != x && id != p ==>
          && id in t'.pages
          && t'.pages[id] == if id in Kids(RightHalf(n, m)) then t.pages[id].(parent := r) else t.pages[id])
  }

  lemma SplitIs(t: Tree, p: PageId, i: nat, m: nat, r: PageId)
    requires CanSplit(t, p, i, m, r) && Ups(t) && Inners(t)
    ensures IsSplit(t, Split(t, p, i, m, r), p, i, m, r)
  {
    var x := t.pages[p].children[i];
    assert InnerOk(t, p) && ChildOk(t, p, i);
    assert InnerOk(t, x) && UpOk(t, t.root);
    var kids := Kids(RightHalf(t.pages[x], m));
    assert t.pages[x].keys[0] < t.pages[x].keys[m];
    assert UpOk(t, p);
    if p != t.root { ParentCovers(t, p); }
    forall c | c in kids
      ensures c in t.shape && t.pages[c].parent == x && t.shape[c].height < t.shape[x].height
    {
      var j :| 0 <= j < |kids| && kids[j] == c;
      assert ChildOk(t, x, m + 1 + j);
    }
  }

  lemma SplitDom(t: Tree, t': Tree, p: PageId, i: nat, m: nat, r: PageId)
    requires IsSplit(t, t', p, i, m, r)
    ensures Dom(t')
  {
  }

  /** Left and right halves keep the fences and children they are given. */
  lemma SplitHalfShape(n: Node, m: nat, lo: int, hi: int, r: PageId, exact: bool)
    requires 0 < m < |n.keys|
    requires if n.Leaf? then LeafShape(n, lo, hi, exact) else InnerShape(n, lo, hi)
    ensures n.Leaf? ==> LeafShape(LeftHalf(n, m, r), lo, n.keys[m], exact)
    ensures n.Leaf? ==> LeafShape(RightHalf(n, m), n.keys[m], hi, true)
    ensures n.Inner? ==> InnerShape(LeftHalf(n, m, r), lo, n.keys[m])
    ensures n.Inner? ==> InnerShape(RightHalf(n, m), n.keys[m], hi)
  {
  }

  lemma SplitParentShape(n: Node, i: nat, lo: int, hi: int, sep: Key, r: PageId)
    requires n.Inner? && InnerShape(n, lo, hi) && i <= |n.keys| && lo < hi
    requires Fence(n.keys, lo, hi, i) < sep < Fence(n.keys, lo, hi, i + 1)
    ensures InnerShape(InsertChild(n, i, sep, r), lo, hi)
  {
    SortedInsert(n.keys, i, sep);
  }

  /** A page listed by its old parent is listed by its new one. */
  lemma SplitListsChild(t: Tree, t': Tree, p: PageId, i: nat, m: nat, r: PageId, id: PageId)
    requires IsSplit(t, t', p, i, m, r) && Dom(t') && id in t.shape && id != t.root && UpOk(t, id)
    ensures id in t'.pages && t'.pages[id].parent in t'.pages && t'.pages[t'.pages[id].parent].Inner?
    ensures id in t'.pages[t'.pages[id].parent].children
  {
    var x := t.pages[p].children[i];
    var q := t.pages[id].parent;
    var j :| 0 <= j < |t.pages[q].children| && t.pages[q].children[j] == id;
    if q == p {
      assert t'.pages[p].children[if j <= i then j else j + 1] == id;
    } else if q == x {
      if m < j {
        assert t'.pages[r].children[j - m - 1] == id;
      } else {
        assert t'.pages[x].children[j] == id;
      }
    } else {
      assert t'.pages[q].children == t.pages[q].children;
    }
  }

  lemma SplitUp(t: Tree, t': Tree, p: PageId, i: nat, m: nat, r: PageId, id: PageId)
    requires IsSplit(t, t', p, i, m, r) && Ups(t) && Inners(t) && Dom(t') && id in t'.shape
    ensures UpOk(t', id)
  {
    var x := t.pages[p].children[i];
    assert UpOk(t, x) && InnerOk(t, x) && UpOk(t, t.root);
    if id == r {
      assert t'.pages[p].children[i + 1] == r;
    } else {
      assert UpOk(t, id);
      if id != t.root { SplitListsChild(t, t', p, i, m, r, id); }
    }
  }

  lemma FenceInsert(keys: seq<Key>, lo: int, hi: int, i: nat, sep: Key, j: nat)
    requires i <= |keys| && j <= |keys| + 2
    ensures Fence(InsertAt(keys, i, sep), lo, hi, j)
         == if j <= i then Fence(keys, lo, hi, j) else if j == i + 1 then sep else Fence(keys, lo, hi, j - 1)
  {
  }

  /** The children before the split page keep their places. */
  lemma SplitParentBefore(t: Tree, t': Tree, p: PageId, i: nat, m: nat, r: PageId, j: nat)
    requires IsSplit(t, t', p, i, m, r) && Dom(t') && InnerOk(t, p) && UpOk(t, p) && j < i
    ensures j < |t'.pages[p].children| == |t'.pages[p].keys| + 1 && ChildOk(t', p, j)
  {
    var n := t.pages[p];
    var x := n.children[i];
    FenceInsert(n.keys, t.shape[p].lo, t.shape[p].hi, i, t.pages[x].keys[m], j);
    FenceInsert(n.keys, t.shape[p].lo, t.shape[p].hi, i, t.pages[x].keys[m], j + 1);
    ChildrenDistinct(t, p, j, i);
    assert ChildOk(t, p, j);
  }

  /** Those behind it move up by one. */
  lemma SplitParentAfter(t: Tree, t': Tree, p: PageId, i: nat, m: nat, r: PageId, j: nat)
    requires IsSplit(t, t', p, i, m, r) && Dom(t') && InnerOk(t, p) && UpOk(t, p) && i + 1 < j < |t'.pages[p].children|
    ensures |t'.pages[p].children| == |t'.pages[p].keys| + 1 && ChildOk(t', p, j)
  {
    var n := t.pages[p];
    var x := n.children[i];
    FenceInsert(n.keys, t.shape[p].lo, t.shape[p].hi, i, t.pages[x].keys[m], j);
    FenceInsert(n.keys, t.shape[p].lo, t.shape[p].hi, i, t.pages[x].keys[m], j + 1);
    ChildrenDistinct(t, p, i, j - 1);
    assert ChildOk(t, p, j - 1);
  }

  lemma SplitParentChild(t: Tree, t': Tree, p: PageId, i: nat, m: nat, r: PageId, j: nat)
    requires IsSplit(t, t', p, i, m, r) && Dom(t') && InnerOk(t, p) && UpOk(t, p) && j < |t'.pages[p].children|
    ensures ChildOk(t', p, j)
  {
    if j < i {
      SplitParentBefore(t, t', p, i, m, r, j);
    } else if j > i + 1 {
      SplitParentAfter(t, t', p, i, m, r, j);
    } else {
      var n := t.pages[p];
      var x := n.children[i];
      FenceInsert(n.keys, t.shape[p].lo, t.shape[p].hi, i, t.pages[x].keys[m], j);
      FenceInsert(n.keys, t.shape[p].lo, t.shape[p].hi, i, t.pages[x].keys[m], j + 1);
      assert ChildOk(t, p, i);
    }
  }

  lemma SplitParent(t: Tree, t': Tree, p: PageId, i: nat, m: nat, r: PageId)
    requires IsSplit(t, t', p, i, m, r) && Dom(t') && InnerOk(t, p) && UpOk(t, p)
    ensures InnerOk(t', p)
  {
    var x := t.pages[p].children[i];
    assert ChildOk(t, p, i);
    SplitParentShape(t.pages[p], i, t.shape[p].lo, t.shape[p].hi, t.pages[x].keys[m], r);
    forall j | 0 <= j < |t'.pages[p].children| ensures ChildOk(t', p, j) { SplitParentChild(t, t', p, i, m, r, j); }
  }

  lemma SplitHalfChild(t: Tree, t': Tree, p: PageId, i: nat, m: nat, r: PageId, half: PageId, j: nat)
    requires IsSplit(t, t', p, i, m, r) && Dom(t')
    requires var x := t.pages[p].children[i]; InnerOk(t, x) && UpOk(t, x) && t.pages[x].Inner? && half in {x, r}
    requires half in t'.shape && t'.pages[half].Inner? && j < |t'.pages[half].children|
    requires |t'.pages[half].children| == |t'.pages[half].keys| + 1
    ensures ChildOk(t', half, j)
  {
    var x := t.pages[p].children[i];
    var n := t.pages[x];
    var o := if half == x then j else m + 1 + j;
    assert ChildOk(t, x, o);
    var c := n.children[o];
    if half == r {
      assert c == t'.pages[r].children[j];
    } else {
      forall b | m + 1 <= b < |n.children| ensures n.children[b] != c { ChildrenDistinct(t, x, o, b); }
      assert c !in Kids(RightHalf(n, m));
    }
  }

  lemma SplitInner(t: Tree, t': Tree, p: PageId, i: nat, m: nat, r: PageId, id: PageId)
    requires IsSplit(t, t', p, i, m, r) && Ups(t) && Inners(t) && Dom(t') && id in t'.shape
    ensures InnerOk(t', id)
  {
    var x := t.pages[p].children[i];
    assert InnerOk(t, p) && UpOk(t, p) && InnerOk(t, x) && UpOk(t, x) && ChildOk(t, p, i);
    if id == p {
      SplitParent(t, t', p, i, m, r);
    } else if id == x || id == r {
      if t.pages[x].Inner? {
        SplitHalfShape(t.pages[x], m, t.shape[x].lo, t.shape[x].hi, r, false);
        forall j | 0 <= j < |t'.pages[id].children| ensures ChildOk(t', id, j) {
          SplitHalfChild(t, t', p, i, m, r, id, j);
        }
      }
    } else {
      SplitOther(t, t', p, i, m, r, id);
    }
  }

  lemma SplitOther(t: Tree, t': Tree, p: PageId, i: nat, m: nat, r: PageId, id: PageId)
    requires IsSplit(t, t', p, i, m, r) && Dom(t')
    requires id in t.shape && InnerOk(t, id) && id != p && id != t.pages[p].children[i]
    ensures InnerOk(t', id)
  {
    if t.pages[id].Inner? {
      assert t'.pages[id].keys == t.pages[id].keys && t'.pages[id].children == t.pages[id].children;
      forall j | 0 <= j < |t'.pages[id].children| ensures ChildOk(t', id, j) { assert ChildOk(t, id, j); }
    }
  }

  lemma SplitLeaf(t: Tree, t': Tree, p: PageId, i: nat, m: nat, r: PageId, stale: PageId, id: PageId)
    requires IsSplit(t, t', p, i, m, r) && Leaves(t, stale) && stale != r && Dom(t') && id in t'.shape
    ensures LeafOk(t', id, stale)
  {
    var x := t.pages[p].children[i];
    assert LeafOk(t, x, stale);
    SplitHalfShape(t.pages[x], m, t.shape[x].lo, t.shape[x].hi, r, x != stale);
    if id != r { assert LeafOk(t, id, stale); }
  }

  lemma SplitCap(t: Tree, t': Tree, c: Config, p: PageId, i: nat, m: nat, r: PageId, under: PageId, id: PageId)
    requires IsSplit(t, t', p, i, m, r) && Dom(t') && id in t'.shape && Legal(c) && under in {p, INVALID}
    requires var x := t.pages[p].children[i]; x != t.root && Caps(t, c, x, under) && Halves(c, t.pages[x], m)
    ensures CapOk(t', c, id, p, INVALID)
  {
    var x := t.pages[p].children[i];
    if id == x || id == r {
      assert CapOk(t, c, x, x, under);
    } else {
      assert CapOk(t, c, id, x, under);
    }
  }

  lemma SplitCaps(t: Tree, t': Tree, c: Config, p: PageId, i: nat, m: nat, r: PageId, under: PageId)
    requires IsSplit(t, t', p, i, m, r) && Dom(t') && Ups(t) && Legal(c) && under in {p, INVALID}
    requires var x := t.pages[p].children[i]; Caps(t, c, x, under) && Halves(c, t.pages[x], m)
    ensures Caps(t', c, p, INVALID)
  {
    assert UpOk(t, t.pages[p].children[i]);
    forall id | id in t'.shape ensures CapOk(t', c, id, p, INVALID) { SplitCap(t, t', c, p, i, m, r, under, id); }
  }

  /** The keys of either half are entries of the leaf that holds them now. */
  lemma SplitHalfListed(t: Tree, t': Tree, p: PageId, i: nat, m: nat, r: PageId, id: PageId)
    requires IsSplit(t, t', p, i, m, r) && Listed(t) && Dom(t') && (id == r || id == t.pages[p].children[i])
    requires var x := t.pages[p].children[i]; t'.entries == MoveEntries(t.entries, x, t.pages[x].keys[m], r)
    ensures LeafListed(t', id)
  {
    var x := t.pages[p].children[i];
    var n := t.pages[x];
    assert LeafListed(t, x);
    if n.Leaf? {
      assert t'.pages[x].keys == n.keys[..m] && t'.pages[r].keys == n.keys[m..];
      forall j | 0 <= j < |n.keys|
        ensures n.keys[j] in t'.entries && t'.entries[n.keys[j]] == Entry(if m <= j then r else x, n.values[j])
      {
        assert m <= j ==> n.keys[m] <= n.keys[j];
      }
    }
  }

  lemma SplitListed(t: Tree, t': Tree, p: PageId, i: nat, m: nat, r: PageId, id: PageId)
    requires IsSplit(t, t', p, i, m, r) && Listed(t) && Dom(t') && id in t'.shape
    requires var x := t.pages[p].children[i]; t'.entries == MoveEntries(t.entries, x, t.pages[x].keys[m], r)
    ensures LeafListed(t', id)
  {
    if id == r || id == t.pages[p].children[i] {
      SplitHalfListed(t, t', p, i, m, r, id);
    } else {
      assert LeafListed(t, id);
    }
  }

  lemma SplitStored(t: Tree, t': Tree, p: PageId, i: nat, m: nat, r: PageId, k: Key)
    requires IsSplit(t, t', p, i, m, r) && Stored(t) && Dom(t') && k in t.entries
    requires var x := t.pages[p].children[i]; t'.entries == MoveEntries(t.entries, x, t.pages[x].keys[m], r)
    ensures EntryStored(t', k)
  {
    var x := t.pages[p].children[i];
    assert EntryStored(t, k);
    if t.entries[k].leaf == x {
      var j :| 0 <= j < |t.pages[x].keys| && t.pages[x].keys[j] == k;
      if j < m {
        assert t'.pages[x].keys[j] == k;
      } else {
        assert t'.pages[r].keys[j - m] == k;
      }
    }
  }

  lemma SplitStructure(t: Tree, t': Tree, p: PageId, i: nat, m: nat, r: PageId, stale: PageId)
    requires IsSplit(t, t', p, i, m, r) && Ups(t) && Inners(t) && Leaves(t, stale) && stale != r
    ensures Dom(t') && Ups(t') && Inners(t') && Leaves(t', stale)
  {
    SplitDom(t, t', p, i, m, r);
    forall id | id in t'.shape ensures UpOk(t', id) { SplitUp(t, t', p, i, m, r, id); }
    forall id | id in t'.shape ensures InnerOk(t', id) { SplitInner(t, t', p, i, m, r, id); }
    forall id | id in t'.shape ensures LeafOk(t', id, stale) { SplitLeaf(t, t', p, i, m, r, stale, id); }
  }

  lemma SplitEntries(t: Tree, t': Tree, p: PageId, i: nat, m: nat, r: PageId)
    requires IsSplit(t, t', p, i, m, r) && Dom(t') && Listed(t) && Stored(t)
    requires var x := t.pages[p].children[i]; t'.entries == MoveEntries(t.entries, x, t.pages[x].keys[m], r)
    ensures Listed(t') && Stored(t')
  {
    forall id | id in t'.shape ensures LeafListed(t', id) { SplitListed(t, t', p, i, m, r, id); }
    forall k | k in t'.entries ensures EntryStored(t', k) { SplitStored(t, t', p, i, m, r, k); }
  }

  /** A split happens in the middle of a page that holds one key more than its maximum. */
  ghost predicate Halves(c: Config, n: Node, m: nat) {
    |n.keys| == MaxKeys(c, n) + 1 && m == |n.keys| / 2
  }

  /** Splitting the overfull child of p moves the overflow, at most, to p. */
  lemma SplitKeeps(t: Tree, c: Config, p: PageId, i: nat, m: nat, r: PageId, under: PageId)
    requires CanSplit(t, p, i, m, r) && Legal(c) && under in {p, INVALID}
    requires var x := t.pages[p].children[i];
      Inv(t, c, Exempt(x, under, INVALID)) && Halves(c, t.pages[x], m)
    ensures Inv(Split(t, p, i, m, r), c, Exempt(p, INVALID, INVALID))
    ensures Model(Split(t, p, i, m, r)) == Model(t)
  {
    var t' := Split(t, p, i, m, r);
    SplitIs(t, p, i, m, r);
    SplitStructure(t, t', p, i, m, r, INVALID);
    SplitEntries(t, t', p, i, m, r);
    SplitCaps(t, t', c, p, i, m, r, under);
  }

  /** Leaves of both trees are the same pages with the same keys and values. */
  ghost predicate SameLeaves(t: Tree, t': Tree)
    requires Dom(t) && Dom(t')
  {
    && t'.entries == t.entries
    && (forall id :: id in t.shape && t.pages[id].Leaf? ==> id in t'.shape && t'.pages[id].Leaf?)
    && (forall id :: id in t'.shape && t'.pages[id].Leaf? ==>
          id in t.shape && t.pages[id].Leaf? && t'.pages[id].keys == t.pages[id].keys
            && t'.pages[id].values == t.pages[id].values)
  }

  lemma SameLeavesEntries(t: Tree, t': Tree)
    requires Dom(t) && Dom(t') && SameLeaves(t, t') && Listed(t) && Stored(t)
    ensures Listed(t') && Stored(t')
  {
    forall id | id in t'.shape ensures LeafListed(t', id) { if t'.pages[id].Leaf? { assert LeafListed(t, id); } }
    forall k | k in t'.entries ensures EntryStored(t', k) { assert EntryStored(t, k); }
  }

  // ---- A new root above an overfull one ----------------------------------------------

  ghost function Grow(t: Tree, top: PageId): Tree
    requires Dom(t)
  {
    t.(pages := t.pages[t.root := t.pages[t.root].(parent := top)][top := Inner(INVALID, [], [t.root])],
       root := top,
       shape := t.shape[top := Info(t.shape[t.root].height + 1, NEG, POS)])
  }

  lemma GrowNode(t: Tree, c: Config, top: PageId, over: PageId, id: PageId)
    requires Dom(t) && Ups(t) && Inners(t) && Leaves(t, INVALID) && Caps(t, c, over, INVALID) && top !in t.shape
      && top != INVALID
    requires |t.pages[t.root].keys| >= MinKeys(c, t.pages[t.root]) && Dom(Grow(t, top)) && id in Grow(t, top).shape
    ensures UpOk(Grow(t, top), id) && InnerOk(Grow(t, top), id) && LeafOk(Grow(t, top), id, INVALID)
    ensures CapOk(Grow(t, top), c, id, over, top)
  {
    var t' := Grow(t, top);
    assert UpOk(t, t.root) && CapOk(t, c, t.root, over, INVALID);
    if id == top {
      assert ChildOk(t', top, 0);
    } else {
      assert UpOk(t, id) && InnerOk(t, id) && LeafOk(t, id, INVALID) && CapOk(t, c, id, over, INVALID);
      BelowRoot(t, id);
      if t.pages[id].Inner? {
        forall j | 0 <= j < |t.pages[id].children| ensures ChildOk(t', id, j) { assert ChildOk(t, id, j); }
      }
    }
  }

  lemma GrowStructure(t: Tree, c: Config, top: PageId, over: PageId)
    requires Dom(t) && Ups(t) && Inners(t) && Leaves(t, INVALID) && Caps(t, c, over, INVALID) && top !in t.shape
      && top != INVALID
    requires |t.pages[t.root].keys| >= MinKeys(c, t.pages[t.root]) && Dom(Grow(t, top))
    ensures var t' := Grow(t, top); Ups(t') && Inners(t') && Leaves(t', INVALID) && Caps(t', c, over, top)
  {
    var t' := Grow(t, top);
    forall id | id in t'.shape ensures UpOk(t', id) { GrowNode(t, c, top, over, id); }
    forall id | id in t'.shape ensures InnerOk(t', id) { GrowNode(t, c, top, over, id); }
    forall id | id in t'.shape ensures LeafOk(t', id, INVALID) { GrowNode(t, c, top, over, id); }
    forall id | id in t'.shape ensures CapOk(t', c, id, over, top) { GrowNode(t, c, top, over, id); }
  }

  /** Putting a keyless root above the old one exempts only the new root. */
  lemma GrowKeeps(t: Tree, c: Config, top: PageId, over: PageId)
    requires Inv(t, c, Exempt(over, INVALID, INVALID)) && top !in t.shape && top != INVALID
    requires |t.pages[t.root].keys| >= MinKeys(c, t.pages[t.root])
    ensures Inv(Grow(t, top), c, Exempt(over, top, INVALID)) && Model(Grow(t, top)) == Model(t)
  {
    GrowStructure(t, c, top, over);
    SameLeavesEntries(t, Grow(t, top));
  }

  // ---- The page store in the middle of a split ---------------------------------------

  /** What writing a page accepts: at most the maximum number of keys and matching lengths. */
  predicate Writable(c: Config, n: Node) {
    && |n.keys| <= MaxKeys(c, n)
    && if n.Leaf? then |n.values| == |n.keys| else |n.children| == |n.keys| + 1
  }

  lemma PageWritable(t: Tree, c: Config, e: Exempt, id: PageId)
    requires Inv(t, c, e) && id in t.shape && id != e.over
    ensures Writable(c, t.pages[id])
  {
    assert CapOk(t, c, id, e.over, e.under) && InnerOk(t, id) && LeafOk(t, id, e.stale);
  }

  ghost predicate CanHalve(t: Tree, x: PageId, m: nat, r: PageId) {
    && Dom(t) && x in t.shape && r !in t.shape && r != INVALID && 0 < m < |t.pages[x].keys|
    && if t.pages[x].Leaf? then |t.pages[x].values| == |t.pages[x].keys|
       else |t.pages[x].children| == |t.pages[x].keys| + 1
  }

  /** Both halves of x are written and adopted, but the parent does not know r yet. */
  ghost function Halved(t: Tree, x: PageId, m: nat, r: PageId): map<PageId, Node>
    requires CanHalve(t, x, m, r)
  {
    var n := t.pages[x];
    Reparent(t.pages[x := LeftHalf(n, m, r)][r := RightHalf(n, m)], Kids(RightHalf(n, m)), r)
  }

  lemma HalvedFacts(t: Tree, x: PageId, m: nat, r: PageId)
    requires CanHalve(t, x, m, r) && Ups(t) && Inners(t)
    ensures var h := Halved(t, x, m, r); var n := t.pages[x];
      && x in h && h[x] == LeftHalf(n, m, r) && r in h && h[r] == RightHalf(n, m)
      && forall id :: id in t.shape && t.shape[id].height > t.shape[x].height ==> id in h && h[id] == t.pages[id]
    ensures x !in Kids(RightHalf(t.pages[x], m)) && r !in Kids(RightHalf(t.pages[x], m))
    ensures forall id :: id in Kids(RightHalf(t.pages[x], m)) ==>
      id in t.shape && t.shape[id].height < t.shape[x].height
  {
    var kids := Kids(RightHalf(t.pages[x], m));
    assert InnerOk(t, x);
    forall c | c in kids
      ensures c in t.shape && t.shape[c].height < t.shape[x].height
    {
      var j :| 0 <= j < |kids| && kids[j] == c;
      assert ChildOk(t, x, m + 1 + j);
    }
  }

  /** Telling the parent about r completes the split. */
  lemma HalvedToSplit(t: Tree, p: PageId, i: nat, m: nat, r: PageId)
    requires CanSplit(t, p, i, m, r) && Ups(t) && Inners(t)
    requires CanHalve(t, t.pages[p].children[i], m, r)
    ensures var x := t.pages[p].children[i];
      Split(t, p, i, m, r).pages == Halved(t, x, m, r)[p := InsertChild(t.pages[p], i, t.pages[x].keys[m], r)]
  {
    var x := t.pages[p].children[i];
    HalvedFacts(t, x, m, r);
    assert InnerOk(t, p) && ChildOk(t, p, i);
  }

  /** The halves of a page with another parent are the halves with that parent. */
  lemma HalvesOf(n: Node, m: nat, r: PageId, top: PageId)
    requires m < |n.keys| && (n.Leaf? ==> |n.values| == |n.keys|) && (n.Inner? ==> |n.children| == |n.keys| + 1)
    ensures LeftHalf(n.(parent := top), m, r) == LeftHalf(n, m, r).(parent := top)
    ensures RightHalf(n.(parent := top), m) == RightHalf(n, m).(parent := top)
      && Kids(RightHalf(n.(parent := top), m)) == Kids(RightHalf(n, m))
  {
  }

  /** A new root with both halves below it completes the split of the old root. */
  lemma HalvedToGrown(t: Tree, m: nat, r: PageId, top: PageId)
    requires CanHalve(t, t.root, m, r) && Ups(t) && Inners(t) && top !in t.shape && top != r && top != INVALID
    requires CanSplit(Grow(t, top), top, 0, m, r)
    ensures var h := Halved(t, t.root, m, r);
      && t.root in h && r in h
      && Split(Grow(t, top), top, 0, m, r).pages
         == h[top := Inner(INVALID, [t.pages[t.root].keys[m]], [t.root, r])]
             [t.root := h[t.root].(parent := top)][r := h[r].(parent := top)]
  {
    HalvedFacts(t, t.root, m, r);
    HalvesOf(t.pages[t.root], m, r, top);
    var h, root := Halved(t, t.root, m, r), t.root;
    var split := Split(Grow(t, top), top, 0, m, r).pages;
    var to := h[top := Inner(INVALID, [t.pages[root].keys[m]], [root, r])][root := h[root].(parent := top)][r :=
      h[r].(parent := top)];
    assert split.Keys == to.Keys;
    forall id | id in to ensures split[id] == to[id] { GrownPage(t, m, r, top, id); }
  }

  /** One page of the grown and split tree. */
  lemma GrownPage(t: Tree, m: nat, r: PageId, top: PageId, id: PageId)
    requires CanHalve(t, t.root, m, r) && Ups(t) && Inners(t) && top !in t.shape && top != r && top != INVALID
    requires CanSplit(Grow(t, top), top, 0, m, r) && id in Split(Grow(t, top), top, 0, m, r).pages
    ensures var h, root := Halved(t, t.root, m, r), t.root; var page := Split(Grow(t, top), top, 0, m, r).pages[id];
      && root in h && r in h
      && page == if id == r then h[r].(parent := top) else if id == root then h[root].(parent := top)
                 else if id == top then Inner(INVALID, [t.pages[root].keys[m]], [root, r]) else if id in h then h[id]
                   else page
  {
    HalvedFacts(t, t.root, m, r);
    HalvesOf(t.pages[t.root], m, r, top);
    var n, g := t.pages[t.root], Grow(t, top);
    assert g.pages[t.root] == n.(parent := top);
    assert InsertChild(g.pages[top], 0, n.keys[m], r) == Inner(INVALID, [n.keys[m]], [t.root, r]);
    assert top !in Kids(RightHalf(n, m));
  }
}
