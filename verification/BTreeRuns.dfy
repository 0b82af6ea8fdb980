/** Whole runs of a B+ tree, with the catalog running full on the way. */
module BTreeRuns {
  import opened StorageTypes
  import opened BTreeShape
  import opened BTreeTorn
  import opened BPlusTrees
  import opened BTreeTheorems

  datatype Op = Put(k: Key, v: RecordId) | Del(k: Key)

  /** What an operation reports: "was absent" for an insertion, "was present" for a removal, or no page for a split. */
  datatype Reply = Done(b: bool) | Refused

  function Apply(m: map<Key, RecordId>, op: Op): map<Key, RecordId> {
    match op
    case Put(k, v) => if k in m then m else m[k := v]
    case Del(k) => m - {k}
  }

  function Answer(m: map<Key, RecordId>, op: Op): bool {
    match op
    case Put(k, v) => k !in m
    case Del(k) => k in m
  }

  /** The tree and its page count between two operations. */
  datatype Moment = Moment(t: Tree, count: nat)

  ghost function Now(tree: BPlusTree): Moment
    reads tree
  {
    Moment(tree.State(), tree.pageCount)
  }

  ghost predicate Kept(c: Config, m: Moment) {
    Inv(m.t, c, NOTHING) && m.count <= CATALOG_BITS && forall id :: id in m.t.shape ==> id < m.count
  }

  /** The leaf that a descent for the key ends in. */
  ghost function LeafFor(t: Tree, k: Key): (leaf: PageId)
    requires Sound(t)
    ensures leaf in t.shape && t.pages[leaf].Leaf? && Covers(t, leaf, k)
  {
    assert UpOk(t, t.root);
    SoundDescend(t, t.root, k);
    Descend(t.pages, t.root, k, t.shape[t.root].height)
  }

  /** How many pages the insertion of an absent key allocates. */
  ghost function Needed(t: Tree, c: Config, k: Key): nat
    requires Sound(t)
  {
    PagesNeeded(t, c, LeafFor(t, k))
  }

  /** The operation inserts an absent key, and its splits need more pages than the catalog has left. */
  ghost predicate NoRoom(c: Config, m: Moment, op: Op)
    requires Sound(m.t)
  {
    op.Put? && op.k !in Model(m.t) && m.count + Needed(m.t, c, op.k) > CATALOG_BITS
  }

  /** The same with some pages left: the splits begin and cannot be completed. */
  ghost predicate Tears(c: Config, m: Moment, op: Op)
    requires Sound(m.t)
  {
    NoRoom(c, m, op) && m.count < CATALOG_BITS
  }

  /** An operation that does not tear the tree: what it answers, the map it leaves and the pages it takes. */
  ghost predicate Moves(c: Config, m: Moment, op: Op, r: Reply, n: Moment)
    requires Sound(m.t)
  {
    if NoRoom(c, m, op) then m.count == CATALOG_BITS && r == Refused && n == m
    else
      && r == Done(Answer(Model(m.t), op)) && Model(n.t) == Apply(Model(m.t), op)
      && n.count == m.count + if op.Put? && op.k !in Model(m.t) then Needed(m.t, c, op.k) else 0
  }

  /** The pages of a tree that was torn by the operation: on the way to the new map, with a range of its keys lost. */
  ghost predicate TornBy(torn: Torn, c: Config, m: Moment, op: Op, pages: map<PageId, Node>, root: PageId) {
    && op.Put? && IsTorn(torn, c, pages, root) && Model(torn.t) == Model(m.t)[op.k := op.v] && root == m.t.root
    && root in m.t.shape
    && torn.t.shape[root].height == m.t.shape[root].height && !Serves(pages, root, m.t.shape[root].height, Model(m.t))
  }

  /** One operation; None stands for the exception that leaves the tree torn. */
  method Step(tree: BPlusTree, op: Op) returns (r: Option<Reply>, ghost torn: Torn)
    requires tree.Valid()
    modifies tree
    ensures r.None? <==> Tears(tree.config, old(Now(tree)), op)
    ensures r.Some? ==> tree.Valid() && Moves(tree.config, old(Now(tree)), op, r.value, Now(tree))
    ensures r.None? ==>
      tree.pageCount == CATALOG_BITS && TornBy(torn, tree.config, old(Now(tree)), op, tree.pages, tree.root)
    ensures NoRoom(tree.config, old(Now(tree)), op) ==> tree.root == old(tree.root) && tree.root in old(tree.shape)
    ensures NoRoom(tree.config, old(Now(tree)), op) ==>
      (Serves(tree.pages, tree.root, old(tree.shape)[tree.root].height, old(tree.Contents())) <==> r.Some?)
  {
    var full := tree.pageCount == CATALOG_BITS;
    ghost var t := tree.State();
    torn := Torn(t, 0, 0, 0);
    match op {
      case Put(k, v) =>
        var outcome;
        ghost var leaf;
        outcome, leaf, torn := tree.Insert(k, v);
        OneLeaf(t, leaf, k);
        if outcome == OutOfPages {
          KeptOrTorn(tree, torn, t, k, v, full);
          r := if full then Some(Refused) else None;
        } else {
          r := Some(Done(outcome == Inserted));
        }
      case Del(k) =>
        var b := tree.Remove(k);
        r := Some(Done(b));
    }
  }

  lemma OneLeaf(t: Tree, leaf: PageId, k: Key)
    requires Sound(t) && leaf in t.shape && t.pages[leaf].Leaf? && Covers(t, leaf, k)
    ensures leaf == LeafFor(t, k)
  {
    CoverUnique(t, leaf, LeafFor(t, k), k);
  }

  /** After an insertion that failed: lookups answer with the old map exactly when nothing was changed. */
  lemma KeptOrTorn(tree: BPlusTree, torn: Torn, t: Tree, k: Key, v: RecordId, full: bool)
    requires Inv(t, tree.config, NOTHING) && tree.root == t.root
    requires if full then tree.pages == t.pages
             else
               && IsTorn(torn, tree.config, tree.pages, tree.root) && Model(torn.t) == Model(t)[k := v]
               && torn.t.shape[t.root].height == t.shape[t.root].height
    ensures Serves(tree.pages, tree.root, t.shape[t.root].height, Model(t)) <==> full
  {
    if full {
      forall key: Key ensures Lookup(tree.pages, tree.root, t.shape[t.root].height, key) == Get(Model(t), key) {
        SoundLookup(t, tree.config, NOTHING, key);
      }
    } else {
      TornIsWrong(torn, tree.config, tree.pages, tree.root, Model(t), k, v);
    }
  }

  /** The tree's life from its creation: every operation moves it from one valid tree to the next. */
  ghost predicate IsTrace(c: Config, used: nat, ops: seq<Op>, replies: seq<Reply>, ms: seq<Moment>) {
    && |ms| == |replies| + 1 <= |ops| + 1 && Model(ms[0].t) == map[] && ms[0].count == used + 2
    && (forall i :: 0 <= i < |ms| ==> Kept(c, ms[i]))
    && forall i :: 0 <= i < |replies| ==> Moves(c, ms[i], ops[i], replies[i], ms[i + 1])
  }

  /**
   * Runs the operations on an empty tree until one tears it. Up to there every operation has answered and moved the
   * tree as its map and its page count say, with insertions refused once the catalog is exactly full.
   */
  method Run(config: Config, used: nat, ops: seq<Op>)
    returns (tree: BPlusTree, replies: seq<Reply>, ghost ms: seq<Moment>, ghost torn: Torn)
    requires Legal(config) && used + 2 <= CATALOG_BITS
    ensures IsTrace(config, used, ops, replies, ms)
    ensures |replies| == |ops| ==> tree.Valid() && Now(tree) == ms[|ops|]
    ensures |replies| < |ops| ==> Tears(config, ms[|replies|], ops[|replies|])
    ensures |replies| < |ops| ==>
      tree.pageCount == CATALOG_BITS && TornBy(torn, config, ms[|replies|], ops[|replies|], tree.pages, tree.root)
  {
    tree := new BPlusTree(config, used);
    replies, ms, torn := [], [Now(tree)], Torn(tree.State(), 0, 0, 0);
    for i := 0 to |ops|
      invariant i == |replies| && fresh(tree) && tree.config == config && tree.Valid()
      invariant IsTrace(config, used, ops, replies, ms) && ms[i] == Now(tree)
    {
      var r;
      r, torn := Step(tree, ops[i]);
      if r.None? { return; }
      TraceGrows(config, used, ops, replies, ms, r.value, Now(tree));
      replies, ms := replies + [r.value], ms + [Now(tree)];
    }
  }

  lemma TraceGrows(c: Config, used: nat, ops: seq<Op>, replies: seq<Reply>, ms: seq<Moment>, r: Reply, m: Moment)
    requires IsTrace(c, used, ops, replies, ms) && |replies| < |ops| && Kept(c, m)
    requires Moves(c, ms[|replies|], ops[|replies|], r, m)
    ensures IsTrace(c, used, ops, replies + [r], ms + [m])
  {
    var rs, ns := replies + [r], ms + [m];
    forall i | 0 <= i < |rs| ensures Moves(c, ns[i], ops[i], rs[i], ns[i + 1]) {
      if i < |replies| { assert Moves(c, ms[i], ops[i], replies[i], ms[i + 1]); }
    }
  }

  // ---- What a run amounts to ------------------------------------------------------------

  /** The map after the operations that were not refused. */
  function ApplyAll(ops: seq<Op>, replies: seq<Reply>, n: nat): map<Key, RecordId>
    requires n <= |ops| && n <= |replies|
  {
    if n == 0 then map[]
    else
      var m := ApplyAll(ops, replies, n - 1);
      if replies[n - 1].Refused? then m else Apply(m, ops[n - 1])
  }

  lemma MoveIsMap(c: Config, m: Moment, op: Op, r: Reply, n: Moment)
    requires Sound(m.t) && Moves(c, m, op, r, n)
    ensures Model(n.t) == if r.Refused? then Model(m.t) else Apply(Model(m.t), op)
    ensures r.Done? ==> r.b == Answer(Model(m.t), op)
    ensures r.Refused? ==> op.Put? && op.k !in Model(m.t) && m.count == CATALOG_BITS
  {
  }

  /** At every point of a run the tree is the map of the operations so far, and the answers are that map's. */
  lemma {:induction false} RunIsMap(c: Config, used: nat, ops: seq<Op>, replies: seq<Reply>, ms: seq<Moment>, n: nat)
    requires IsTrace(c, used, ops, replies, ms) && n <= |replies|
    ensures Model(ms[n].t) == ApplyAll(ops, replies, n)
    ensures n < |replies| && replies[n].Done? ==> replies[n].b == Answer(ApplyAll(ops, replies, n), ops[n])
    ensures n < |replies| && replies[n].Refused? ==>
      ops[n].Put? && ops[n].k !in ApplyAll(ops, replies, n) && ms[n].count == CATALOG_BITS
  {
    assert Kept(c, ms[n]);
    if n > 0 {
      RunIsMap(c, used, ops, replies, ms, n - 1);
      MoveIsMap(c, ms[n - 1], ops[n - 1], replies[n - 1], ms[n]);
    }
    if n < |replies| { MoveIsMap(c, ms[n], ops[n], replies[n], ms[n + 1]); }
  }

  lemma {:induction false} CountGrows(c: Config, used: nat, ops: seq<Op>, replies: seq<Reply>, ms: seq<Moment>, i: nat,
      k: nat)
    requires IsTrace(c, used, ops, replies, ms) && i <= k <= |replies|
    ensures ms[i].count <= ms[k].count <= CATALOG_BITS
  {
    assert Kept(c, ms[k]);
    if i < k {
      CountGrows(c, used, ops, replies, ms, i, k - 1);
      assert Moves(c, ms[k - 1], ops[k - 1], replies[k - 1], ms[k]);
    }
  }

  /** A run that has seen the catalog full tears no tree: before a torn one, no insertion was refused. */
  lemma RefusedOrTorn(c: Config, used: nat, ops: seq<Op>, replies: seq<Reply>, ms: seq<Moment>, i: nat)
    requires IsTrace(c, used, ops, replies, ms) && i < |replies| && replies[i].Refused?
    ensures |replies| < |ops| ==> !Tears(c, ms[|replies|], ops[|replies|])
  {
    assert Moves(c, ms[i], ops[i], replies[i], ms[i + 1]);
    CountGrows(c, used, ops, replies, ms, i, |replies|);
  }
}
