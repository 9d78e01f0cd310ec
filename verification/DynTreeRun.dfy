/** Whole updates and whole runs of the adaptive tree. */
module DynTreeRun {
  import opened TreeEntries
  import opened DynTree
  import opened DynTreeUpdate
  import opened DynTreeSums
  import opened DynTreeRebuild
  import opened Sums

  /** Increment node i and all its ancestors, promoting each to the lead of its group first. */
  ghost function WalkUp(t: Tree, i: nat): (r: Tree)
    requires Walking(t, i)
    ensures Valid(r) && |r.leaves| == |t.leaves|
    decreases i
  {
    if i == 0 then t
    else
      PromoteKeepsWalking(t, i);
      LeaderIsUnrelated(t, i);
      var p, l := Promote(t, i), Leader(t, i);
      LeaderStaysAhead(t, i);
      IncrementKeepsWalking(p, l);
      WalkUp(Increment(p, l), p.nodes[l].parent)
  }

  /** After the swap the promoted node still strictly trails the node before it. */
  lemma LeaderStaysAhead(t: Tree, i: nat)
    requires Walking(t, i) && i != 0
    ensures t.nodes[i].group < |t.groups.leaders|
    ensures Leader(t, i) <= i && EntryInRange(t, t.nodes[i].entry) && EntryInRange(t, t.nodes[Leader(t, i)].entry)
    ensures var p, l := Promote(t, i), Leader(t, i);
      1 <= l && l < |p.nodes| == |t.nodes| && p.nodes[l - 1].freq > p.nodes[l].freq
  {
    LeaderIsUnrelated(t, i);
    if Leader(t, i) < i {
      SwapIsSwapped(t, i, Leader(t, i));
    }
  }

  /** One round of the walk: everything it does is defined, and the walk goes on at a smaller index. */
  lemma WalkStep(t: Tree, i: nat)
    requires Walking(t, i) && i != 0
    ensures i < |t.nodes| == |t.groups.leaders| && t.nodes[i].group < |t.groups.leaders|
    ensures Leader(t, i) <= i && EntryInRange(t, t.nodes[i].entry) && EntryInRange(t, t.nodes[Leader(t, i)].entry)
    ensures var p, l := Promote(t, i), Leader(t, i);
      && 1 <= l < |p.nodes| == |t.nodes| && Regroupable(p, l) && p.nodes[l].parent < i
      && Walking(Increment(p, l), p.nodes[l].parent)
      && WalkUp(t, i) == WalkUp(Increment(p, l), p.nodes[l].parent)
  {
    PromoteKeepsWalking(t, i);
    LeaderIsUnrelated(t, i);
    LeaderStaysAhead(t, i);
    IncrementKeepsWalking(Promote(t, i), Leader(t, i));
  }

  /** The tree after one round, and the node at which the walk goes on. */
  ghost function Round(t: Tree, i: nat): (r: (Tree, nat))
    requires Walking(t, i) && i != 0
  {
    hide Walking, WalkUp, Leader, Promote, Increment, EntryInRange, Regroupable;
    WalkStep(t, i);
    var p, l := Promote(t, i), Leader(t, i);
    (Increment(p, l), p.nodes[l].parent)
  }

  lemma RoundGoesOn(t: Tree, i: nat)
    requires Walking(t, i) && i != 0
    ensures var (r, j) := Round(t, i); j < i && Walking(r, j) && WalkUp(t, i) == WalkUp(r, j)
  {
    hide Walking, WalkUp, Leader, Promote, Increment, EntryInRange, Regroupable;
    WalkStep(t, i);
  }

  /**
    One round, node by node: the entries of node i and of the first node l with its count are exchanged, node l is
    then counted, every other node keeps its entry and its count, and the walk goes on at the parent of node l.
   */
  lemma RoundMoves(t: Tree, i: nat, l: nat, j: nat)
    requires Walking(t, i) && i != 0 && l <= i && j < |t.nodes|
    requires t.nodes[l].freq == t.nodes[i].freq && forall k :: 0 <= k < l ==> t.nodes[k].freq != t.nodes[i].freq
    ensures var (r, next) := Round(t, i);
      && |r.nodes| == |t.nodes|
      && r.nodes[j].freq == t.nodes[j].freq + (if j == l then 1 else 0)
      && r.nodes[j].entry == t.nodes[if j == i then l else if j == l then i else j].entry
      && next == r.nodes[l].parent
  {
    hide Linked, Indexed, Ordered, Summed, Grouped, Pooled, Promote, Increment, RightGroup, WalkUp;
    LeaderIsFirst(t, i, l);
    LeaderIsUnrelated(t, i);
    PromotionSwaps(t, i);
    PromoteKeepsWalking(t, i);
    LeaderStaysAhead(t, i);
    IncrementIsDefined(Promote(t, i), l);
    NewGroupIsRight(Promote(t, i), l);
  }

  lemma LeaderIsFirst(t: Tree, i: nat, l: nat)
    requires Walking(t, i) && l <= i
    requires t.nodes[l].freq == t.nodes[i].freq && forall k :: 0 <= k < l ==> t.nodes[k].freq != t.nodes[i].freq
    ensures t.nodes[i].group < |t.groups.leaders| && Leader(t, i) == l
  {
    assert LeaderHolds(t.nodes, t.groups.leaders, i);
  }

  lemma WalkEnds(t: Tree)
    requires Walking(t, 0)
    ensures WalkUp(t, 0) == t
  {
  }

  function CountRoot(t: Tree): Tree
    requires |t.nodes| > 0
  {
    t.(nodes := t.nodes[0 := t.nodes[0].(freq := t.nodes[0].freq + 1)])
  }

  /** Nothing but the count of the root changes, and the root still outweighs every other node. */
  lemma CountRootAt(t: Tree)
    requires Valid(t)
    ensures var r := CountRoot(t); r.leaves == t.leaves && r.groups == t.groups && SameLinks(t.nodes, r.nodes)
    ensures var r := CountRoot(t); r.nodes[0].freq == t.nodes[0].freq + 1 && r.nodes[0].group == t.nodes[0].group
    ensures forall i :: 1 <= i < |t.nodes| ==> CountRoot(t).nodes[i] == t.nodes[i] && t.nodes[i].freq < t.nodes[0].freq
  {
    forall i | 1 <= i < |t.nodes| ensures t.nodes[i].freq < t.nodes[0].freq {
      RootOutweighs(t, 0, i);
    }
  }

  lemma LeafOfValue(t: Tree, v: nat)
    requires Indexed(t.nodes, t.leaves) && v < |t.leaves|
    ensures t.leaves[v] < |t.nodes| && t.nodes[t.leaves[v]].entry == Leaf(v)
  {
    assert ValueIndexed(t.nodes, t.leaves, v);
  }

  lemma CountRootSums(t: Tree, cur: nat)
    requires Valid(t) && cur < |t.nodes| && t.nodes[cur].entry.Leaf?
    ensures Summed(CountRoot(t).nodes, cur)
  {
    CountRootAt(t);
    forall i | 0 <= i < |t.nodes| ensures SumHolds(CountRoot(t).nodes, cur, i) {
      assert SumHolds(t.nodes, 0, i) && ChildrenLinked(t.nodes, i);
    }
  }

  lemma CountRootGroups(t: Tree)
    requires Valid(t)
    ensures Grouped(CountRoot(t).nodes, t.groups.leaders) && Pooled(CountRoot(t).nodes, t.groups)
  {
    CountRootAt(t);
    var r := CountRoot(t);
    forall i | 0 <= i < |r.nodes| ensures LeaderHolds(r.nodes, t.groups.leaders, i) {
      assert LeaderHolds(t.nodes, t.groups.leaders, i);
    }
    assert Live(r.nodes) == Live(t.nodes);
  }

  lemma CountRootStartsWalk(t: Tree, v: nat)
    requires Valid(t) && t.nodes[0].freq < REORDER_LIMIT && v < |t.leaves|
    ensures Walking(CountRoot(t), t.leaves[v])
  {
    hide Grouped, Pooled, Summed, Linked, Indexed, SameLinks, CountRoot;
    LeafOfValue(t, v);
    CountRootAt(t);
    CountRootSums(t, t.leaves[v]);
    CountRootGroups(t);
    SameLinksKeepLinked(t.nodes, CountRoot(t).nodes);
    SameLinksKeepIndexed(t.nodes, CountRoot(t).nodes, t.leaves);
  }

  /** The tree about to be updated: rebuilt when the root has reached the limit. */
  ghost function Prepared(t: Tree): (r: Tree)
    requires Valid(t)
    ensures Valid(r) && |r.leaves| == |t.leaves| && r.nodes[0].freq < REORDER_LIMIT
  {
    RebuildLightensRoot(t);
    if t.nodes[0].freq >= REORDER_LIMIT then Rebuild(t) else t
  }

  /** The whole update for one decoded symbol. */
  ghost function Update(t: ValidTree, v: nat): (r: ValidTree)
    requires v < |t.leaves|
    ensures |r.leaves| == |t.leaves|
  {
    var s := Prepared(t);
    CountRootStartsWalk(s, v);
    WalkUp(CountRoot(s), s.leaves[v])
  }

  lemma UpdateSteps(t: ValidTree, v: nat)
    requires v < |t.leaves|
    ensures |t.nodes| > 0 && Prepared(t) == if t.nodes[0].freq >= REORDER_LIMIT then Rebuild(t) else t
    ensures var s := Prepared(t);
      && v < |s.leaves| && |s.nodes| > 0 && Walking(CountRoot(s), s.leaves[v])
      && Update(t, v) == WalkUp(CountRoot(s), s.leaves[v])
  {
    hide WalkUp, Rebuild, CountRoot;
    CountRootStartsWalk(Prepared(t), v);
  }

  // ---- what an update does to the counts

  lemma SwapKeepsCount(t: Tree, i: nat, l: nat, v: nat)
    requires l < i < |t.nodes| && Indexed(t.nodes, t.leaves) && v < |t.leaves|
    requires EntryInRange(t, t.nodes[i].entry) && EntryInRange(t, t.nodes[l].entry)
    requires t.nodes[i].freq == t.nodes[l].freq
    ensures var r := SwapEntries(t, i, l);
      |r.leaves| == |t.leaves| && Indexed(r.nodes, r.leaves) && Count(r, v) == Count(t, v)
    ensures var r := SwapEntries(t, i, l); r.nodes[l].entry == t.nodes[i].entry
  {
    var r := SwapEntries(t, i, l);
    SwapIsSwapped(t, i, l);
    SwapKeepsIndex(t, i, l);
    assert ValueIndexed(t.nodes, t.leaves, v) && ValueIndexed(r.nodes, r.leaves, v);
    assert LeafIndexed(t.nodes, t.leaves, i) && LeafIndexed(t.nodes, t.leaves, l);
  }

  lemma PromoteKeepsCount(t: Tree, i: nat, v: nat)
    requires Walking(t, i) && i != 0 && v < |t.leaves|
    ensures t.nodes[i].group < |t.groups.leaders|
    ensures Leader(t, i) <= i && EntryInRange(t, t.nodes[i].entry) && EntryInRange(t, t.nodes[Leader(t, i)].entry)
    ensures var p, l := Promote(t, i), Leader(t, i);
      && l < |p.nodes| && |p.leaves| == |t.leaves| && Indexed(p.nodes, p.leaves)
      && p.nodes[l].entry == t.nodes[i].entry && Count(p, v) == Count(t, v)
  {
    LeaderIsUnrelated(t, i);
    if Leader(t, i) < i { SwapKeepsCount(t, i, Leader(t, i), v); }
  }

  lemma IncrementKeepsCount(p: Tree, l: nat, v: nat)
    requires Walking(p, l) && 1 <= l && p.nodes[l - 1].freq > p.nodes[l].freq && Regroupable(p, l) && v < |p.leaves|
    ensures var r := Increment(p, l);
      && |r.leaves| == |p.leaves| && Indexed(r.nodes, r.leaves)
      && Count(r, v) == Count(p, v) + (if p.nodes[l].entry == Leaf(v) then 1 else 0)
      && p.nodes[l].parent < |r.nodes| && r.nodes[p.nodes[l].parent].entry.Branch?
  {
    IncrementKeepsWalking(p, l);
    assert ParentLinked(p.nodes, l);
    assert ValueIndexed(p.nodes, p.leaves, v) && LeafIndexed(p.nodes, p.leaves, l);
    NewGroupIsRight(p, l);
  }

  /** One round of the walk counts the leaf it starts from, and nothing when it starts from a branch. */
  lemma RoundCounts(t: Tree, i: nat, v: nat)
    requires Walking(t, i) && i != 0 && v < |t.leaves|
    ensures Indexed(t.nodes, t.leaves) && i < |t.nodes|
    ensures var (r, j) := Round(t, i);
      && |r.leaves| == |t.leaves| && Indexed(r.nodes, r.leaves) && j < |r.nodes| && r.nodes[j].entry.Branch?
      && Count(r, v) == Count(t, v) + (if t.nodes[i].entry == Leaf(v) then 1 else 0)
  {
    hide Walking, WalkUp, Leader, Promote, Increment, EntryInRange, Regroupable, Indexed, Count;
    WalkStep(t, i);
    PromoteKeepsCount(t, i, v);
    PromoteKeepsWalking(t, i);
    LeaderStaysAhead(t, i);
    IncrementKeepsCount(Promote(t, i), Leader(t, i), v);
    WalkingIsIndexed(t, i);
  }

  lemma WalkingIsIndexed(t: Tree, i: nat)
    requires Walking(t, i)
    ensures Indexed(t.nodes, t.leaves) && i < |t.nodes|
  {
  }

  lemma {:induction false} WalkUpCounts(t: Tree, i: nat, v: nat)
    requires Walking(t, i) && v < |t.leaves|
    ensures i != 0 || t.nodes[i].entry.Branch? ==>
      Count(WalkUp(t, i), v) == Count(t, v) + (if t.nodes[i].entry == Leaf(v) then 1 else 0)
    decreases i
  {
    hide Walking, WalkUp, Round, Count, Indexed;
    WalkingIsIndexed(t, i);
    if i == 0 {
      WalkEnds(t);
    } else {
      RoundGoesOn(t, i);
      RoundCounts(t, i, v);
      var (r, j) := Round(t, i);
      WalkUpCounts(r, j, v);
    }
  }

  /** An update counts exactly its symbol, after halving every count if the root had reached 32768 exactly. */
  lemma UpdateCounts(t: ValidTree, v: nat, w: nat)
    requires v < |t.leaves| && w < |t.leaves|
    ensures t.nodes[0].freq <= 32768
    ensures Count(Update(t, v), w) ==
      (if t.nodes[0].freq == 32768 then (Count(t, w) + 1) / 2 else Count(t, w)) + (if w == v then 1 else 0)
  {
    var s := Prepared(t);
    CountRootStartsWalk(s, v);
    if t.nodes[0].freq >= REORDER_LIMIT { RebuildHalves(t, w); }
    var r := CountRoot(s);
    assert ValueIndexed(s.nodes, s.leaves, v) && ValueIndexed(s.nodes, s.leaves, w);
    RootOutweighs(s, 0, 1);
    WalkUpCounts(r, s.leaves[v], w);
  }

  // ---- whole runs

  ghost predicate InAlphabet(syms: seq<nat>, n: nat) {
    forall k :: 0 <= k < |syms| ==> syms[k] < n
  }

  ghost function Run(t: ValidTree, syms: seq<nat>): (r: ValidTree)
    requires InAlphabet(syms, |t.leaves|)
    ensures |r.leaves| == |t.leaves|
    decreases |syms|
  {
    if syms == [] then t else Run(Update(t, syms[0]), syms[1..])
  }

  /** The free suffix of the pool and the ids in use partition all ids. */
  lemma PoolPartitionsIds(t: Tree, cur: nat)
    requires Walking(t, cur)
    ensures Free(t.groups) !! Live(t.nodes)
    ensures Free(t.groups) + Live(t.nodes) == Below(|t.nodes|)
    ensures t.groups.used <= |t.nodes|
  {
    LiveAtMost(t.nodes);
    FreeSize(t.groups.used, t.groups.ids);
    var all := Free(t.groups) + Live(t.nodes);
    forall g | g in Live(t.nodes) ensures g < |t.nodes| {
      var i :| 0 <= i < |t.nodes| && t.nodes[i].group == g;
      assert LeaderHolds(t.nodes, t.groups.leaders, i);
    }
    assert all <= Below(|t.nodes|);
    assert |all| == |Below(|t.nodes|)|;
    SubsetOfSameSize(all, Below(|t.nodes|));
  }

  lemma {:induction false} FreeSize(used: nat, ids: seq<nat>)
    requires used <= |ids| && forall a, b :: used <= a < b < |ids| ==> ids[a] != ids[b]
    ensures |set a | used <= a < |ids| :: ids[a]| == |ids| - used
    decreases |ids| - used
  {
    var f := set a | used <= a < |ids| :: ids[a];
    if used < |ids| {
      FreeSize(used + 1, ids);
      var g := set a | used + 1 <= a < |ids| :: ids[a];
      assert f == g + {ids[used]};
    }
  }

  lemma SubsetOfSameSize<T>(a: set<T>, b: set<T>)
    requires a <= b && |a| == |b|
    ensures a == b
  {
    assert b == a + (b - a);
  }

  /**
    After any run: no count exceeds the limit (so none overflows 16 bits), none is zero, the root is the sum
    of all symbol counts, and the shape, order, sum, index and group properties of `Valid` hold.
   */
  lemma RunStaysInBounds(t: ValidTree, syms: seq<nat>)
    requires InAlphabet(syms, |t.leaves|)
    ensures var r := Run(t, syms);
      && Valid(r) && |r.leaves| == |t.leaves|
      && r.nodes[0].freq == Sum(Counts(r)) <= REORDER_LIMIT
      && (forall i :: 0 <= i < |r.nodes| ==> 1 <= r.nodes[i].freq <= REORDER_LIMIT)
      && Free(r.groups) !! Live(r.nodes) && Free(r.groups) + Live(r.nodes) == Below(|r.nodes|)
  {
    var r := Run(t, syms);
    RootIsTotal(r);
    PoolPartitionsIds(r, 0);
  }
}
