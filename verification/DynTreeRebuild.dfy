/** Rebuilding the tree: the leaves keep their order, their counts are halved, and pairs are merged again. */
module DynTreeRebuild {
  import opened TreeEntries
  import opened DynTree
  import opened DynTreeSums
  import opened DynTreeUpdate
  import opened Sums

  /** A leaf taken out of the tree, with its halved count. */
  datatype Weighted = Weighted(value: nat, freq: nat)

  /** A tree under reconstruction: nodes[target..] are placed, nodes[len..] have been paired. */
  datatype Build = Build(nodes: seq<Node>, leaves: seq<nat>, queue: seq<Weighted>, target: nat, len: nat)

  /** The leaves among the first i nodes, in node order, with halved counts. */
  function LeafList(nodes: seq<Node>, i: nat): seq<Weighted>
    requires i <= |nodes|
  {
    if i == 0 then []
    else
      var node := nodes[i - 1];
      LeafList(nodes, i - 1) +
      (if node.entry.Leaf? then [Weighted(node.entry.value, (node.freq + 1) / 2)] else [])
  }

  predicate CanPlace(b: Build) {
    |b.queue| > 0 && 0 < b.target <= |b.nodes| && b.queue[|b.queue| - 1].value < |b.leaves|
  }

  /** Move the lightest leaf still queued to the next free slot. */
  function PlaceLeaf(b: Build): (r: Build)
    requires CanPlace(b)
    ensures |r.queue| < |b.queue|
  {
    var w, i := b.queue[|b.queue| - 1], b.target - 1;
    Build(b.nodes[i := b.nodes[i].(entry := Leaf(w.value), freq := w.freq)], b.leaves[w.value := i],
          b.queue[..|b.queue| - 1], i, b.len)
  }

  /** Place leaves until there are two nodes left to pair. */
  function FillPair(b: Build): (r: Build)
    ensures r.len == b.len
    decreases |b.queue|
  {
    if b.len < b.target + 2 && CanPlace(b) then FillPair(PlaceLeaf(b)) else b
  }

  /** Place the leaves that are no heavier than freq. */
  function TakeLight(b: Build, freq: nat): (r: Build)
    ensures r.len == b.len
    decreases |b.queue|
  {
    if CanPlace(b) && b.queue[|b.queue| - 1].freq <= freq then TakeLight(PlaceLeaf(b), freq) else b
  }

  /** Pair the last two unpaired nodes under a new branch. */
  function PlaceBranch(b: Build, freq: nat): Build
    requires 3 <= b.len <= |b.nodes| && 0 < b.target <= |b.nodes|
  {
    var i, c := b.target - 1, b.len - 1;
    var nodes := b.nodes[i := b.nodes[i].(entry := Branch(c), freq := freq)];
    b.(nodes := nodes[c := nodes[c].(parent := i)][c - 1 := nodes[c - 1].(parent := i)],
       target := i, len := c - 1)
  }

  function PairFreq(b: Build): nat
    requires 3 <= b.len <= |b.nodes|
  {
    b.nodes[b.len - 1].freq + b.nodes[b.len - 2].freq
  }

  ghost predicate CanMerge(b: Build) {
    3 <= b.len <= |b.nodes| &&
    var f := FillPair(b);
    b.len <= |f.nodes| &&
    var l := TakeLight(f, PairFreq(f));
    b.len <= |l.nodes| && 0 < l.target <= |l.nodes|
  }

  ghost function MergeRound(b: Build): (r: Build)
    requires CanMerge(b)
    ensures r.len == b.len - 2
  {
    var f := FillPair(b);
    PlaceBranch(TakeLight(f, PairFreq(f)), PairFreq(f))
  }

  ghost function Merge(b: Build): Build
    decreases b.len
  {
    if CanMerge(b) then Merge(MergeRound(b)) else b
  }

  // ---- the invariant of the reconstruction

  /** `all` lists the N leaves by descending count and `rank` tells the position of each value in it. */
  ghost predicate Ranked(all: seq<Weighted>, rank: seq<nat>, n: nat) {
    && |all| == |rank| == n
    && (forall v {:trigger rank[v]} :: 0 <= v < n ==> rank[v] < n && all[rank[v]].value == v)
    && (forall j {:trigger all[j].value} :: 0 <= j < n ==> all[j].value < n && rank[all[j].value] == j)
    && (forall i, j {:trigger all[i].freq, all[j].freq} :: 0 <= i <= j < n ==> 1 <= all[j].freq <= all[i].freq)
  }

  /** A node placed at i is a leaf with its new index and count, or a branch over an already paired pair. */
  ghost predicate Placed(b: Build, all: seq<Weighted>, rank: seq<nat>, i: nat)
    requires i < |b.nodes|
  {
    match b.nodes[i].entry
    case Leaf(v) =>
      v < |b.leaves| == |rank| && b.leaves[v] == i && |b.queue| <= rank[v] < |all| && b.nodes[i].freq == all[rank[v]].freq
    case Branch(c) =>
      && c % 2 == 0 && b.len < c < |b.nodes| && i + 1 < c
      && b.nodes[c].parent == i && b.nodes[c - 1].parent == i
      && b.nodes[i].freq == b.nodes[c - 1].freq + b.nodes[c].freq
  }

  ghost predicate Paired(b: Build, i: nat)
    requires i < |b.nodes|
  {
    var p := b.nodes[i].parent;
    b.target <= p < i && b.nodes[p].entry == Branch(Pair(i))
  }

  ghost predicate PlacedValue(b: Build, rank: seq<nat>, v: nat)
    requires v < |b.leaves| == |rank|
  {
    |b.queue| <= rank[v] ==> b.target <= b.leaves[v] < |b.nodes| && b.nodes[b.leaves[v]].entry == Leaf(v)
  }

  /** Leaves placed so far keep their relative order. */
  ghost predicate SameOrder(b: Build, rank: seq<nat>, v: nat, w: nat)
    requires v < |b.leaves| == |rank| && w < |b.leaves|
  {
    |b.queue| <= rank[v] < rank[w] ==> b.leaves[v] < b.leaves[w]
  }

  ghost predicate Counted(b: Build, all: seq<Weighted>) {
    && |b.nodes| == 2 * |b.leaves| - 1
    && 1 <= b.len <= |b.nodes| && b.len % 2 == 1
    && |b.queue| <= |all| == |b.leaves| && b.queue == all[..|b.queue|]
    && 2 * b.target + |b.nodes| - b.len == 2 * (|b.leaves| - 1 + |b.queue|)
    && b.target <= b.len
  }

  ghost predicate Building(b: Build, all: seq<Weighted>, rank: seq<nat>) {
    && Counted(b, all)
    && Ranked(all, rank, |b.leaves|)
    && (forall i :: b.target <= i < |b.nodes| ==> Placed(b, all, rank, i))
    && (forall i :: b.len <= i < |b.nodes| ==> Paired(b, i))
    && (forall v :: 0 <= v < |b.leaves| ==> PlacedValue(b, rank, v))
    && (forall v, w :: 0 <= v < |b.leaves| && 0 <= w < |b.leaves| ==> SameOrder(b, rank, v, w))
    && (forall i, j {:trigger b.nodes[i].freq, b.nodes[j].freq} :: b.target <= i <= j < |b.nodes| ==>
          1 <= b.nodes[j].freq <= b.nodes[i].freq)
    && b.nodes[0].parent == 0
    && (b.queue != [] && b.target < |b.nodes| ==> b.nodes[b.target].freq <= b.queue[|b.queue| - 1].freq)
  }

  /** Between two rounds the node placed last is the branch over the pair merged last. */
  ghost predicate BetweenRounds(b: Build) {
    if b.len == |b.nodes| then b.target == b.len
    else b.len < |b.nodes| && b.target < b.len && b.nodes[b.target].entry == Branch(b.len + 1)
  }

  // ---- placing a leaf

  lemma PlaceLeafKeepsPlaced(b: Build, all: seq<Weighted>, rank: seq<nat>, i: nat)
    requires Building(b, all, rank) && CanPlace(b) && b.target - 1 <= i < |b.nodes|
    ensures Placed(PlaceLeaf(b), all, rank, i)
  {
    assert b.queue[|b.queue| - 1] == all[|b.queue| - 1];
    if i >= b.target { assert Placed(b, all, rank, i); }
  }

  lemma PlaceLeafKeepsValues(b: Build, all: seq<Weighted>, rank: seq<nat>, v: nat, w: nat)
    requires Building(b, all, rank) && CanPlace(b) && v < |b.leaves| && w < |b.leaves|
    ensures PlacedValue(PlaceLeaf(b), rank, v) && SameOrder(PlaceLeaf(b), rank, v, w)
  {
    var last := b.queue[|b.queue| - 1];
    assert last == all[|b.queue| - 1] && rank[last.value] == |b.queue| - 1;
    assert rank[v] == |b.queue| - 1 ==> v == last.value;
    assert PlacedValue(b, rank, v) && PlacedValue(b, rank, w) && SameOrder(b, rank, v, w);
  }

  lemma PlaceLeafKeepsOrder(b: Build, all: seq<Weighted>, rank: seq<nat>)
    requires Building(b, all, rank) && CanPlace(b)
    ensures var r := PlaceLeaf(b);
      && r.queue == all[..|r.queue|]
      && (forall i, j {:trigger r.nodes[i].freq, r.nodes[j].freq} :: r.target <= i <= j < |r.nodes| ==>
            1 <= r.nodes[j].freq <= r.nodes[i].freq)
      && (r.queue != [] ==> r.nodes[r.target].freq <= r.queue[|r.queue| - 1].freq)
  {
    var r := PlaceLeaf(b);
    assert b.queue[|b.queue| - 1] == all[|b.queue| - 1];
    if r.queue != [] {
      assert all[|b.queue| - 1].freq <= all[|r.queue| - 1].freq;
    }
    if b.target < |b.nodes| {
      assert forall j :: b.target <= j < |b.nodes| ==> b.nodes[j].freq <= b.nodes[b.target].freq;
    }
  }

  lemma PlaceLeafKeepsBuilding(b: Build, all: seq<Weighted>, rank: seq<nat>)
    requires Building(b, all, rank) && CanPlace(b)
    ensures Building(PlaceLeaf(b), all, rank)
  {
    var r := PlaceLeaf(b);
    forall i | r.target <= i < |r.nodes| ensures Placed(r, all, rank, i) {
      PlaceLeafKeepsPlaced(b, all, rank, i);
    }
    forall i | r.len <= i < |r.nodes| ensures Paired(r, i) {
      assert Paired(b, i);
    }
    forall v | 0 <= v < |r.leaves| ensures PlacedValue(r, rank, v) {
      PlaceLeafKeepsValues(b, all, rank, v, v);
    }
    forall v, w | 0 <= v < |r.leaves| && 0 <= w < |r.leaves| ensures SameOrder(r, rank, v, w) {
      PlaceLeafKeepsValues(b, all, rank, v, w);
    }
    PlaceLeafKeepsOrder(b, all, rank);
  }

  /** Whenever fewer than two nodes wait to be paired, a leaf is still queued and a slot is free. */
  lemma LeafIsAvailable(b: Build, all: seq<Weighted>, rank: seq<nat>)
    requires Building(b, all, rank) && 3 <= b.len
    ensures 1 <= b.target
    ensures b.queue != [] ==> CanPlace(b)
    ensures b.len < b.target + 2 ==> CanPlace(b)
  {
    if b.queue != [] {
      assert b.queue[|b.queue| - 1] == all[|b.queue| - 1];
    }
  }

  lemma {:induction false} FillPairKeepsBuilding(b: Build, all: seq<Weighted>, rank: seq<nat>)
    requires Building(b, all, rank) && 3 <= b.len
    ensures var r := FillPair(b);
      && Building(r, all, rank) && r.target + 2 <= r.len
      && (b.target + 2 <= b.len ==> r == b)
      && (b.len < b.target + 2 ==> r.target + 2 == r.len)
    decreases |b.queue|
  {
    LeafIsAvailable(b, all, rank);
    if b.len < b.target + 2 {
      PlaceLeafKeepsBuilding(b, all, rank);
      FillPairKeepsBuilding(PlaceLeaf(b), all, rank);
    }
  }

  lemma PlaceLeafKeepsPair(b: Build)
    requires CanPlace(b) && 3 <= b.len <= |b.nodes| && b.target + 2 <= b.len
    ensures var r := PlaceLeaf(b);
      r.target + 2 <= r.len && PairFreq(r) == PairFreq(b) && r.nodes[r.target].freq == b.queue[|b.queue| - 1].freq
  {
  }

  lemma {:induction false} TakeLightKeepsBuilding(b: Build, all: seq<Weighted>, rank: seq<nat>, freq: nat)
    requires Building(b, all, rank) && 3 <= b.len && b.target + 2 <= b.len
    requires b.nodes[b.target].freq <= freq
    ensures var r := TakeLight(b, freq);
      && Building(r, all, rank) && r.target + 2 <= r.len
      && r.nodes[r.target].freq <= freq
      && (r.queue != [] ==> freq < r.queue[|r.queue| - 1].freq)
      && PairFreq(r) == PairFreq(b)
    decreases |b.queue|
  {
    hide Building, PairFreq;
    BuildingInRange(b, all, rank);
    LeafIsAvailable(b, all, rank);
    if CanPlace(b) && b.queue[|b.queue| - 1].freq <= freq {
      PlaceLeafKeepsBuilding(b, all, rank);
      PlaceLeafKeepsPair(b);
      TakeLightKeepsBuilding(PlaceLeaf(b), all, rank, freq);
    }
  }

  // ---- placing a branch

  /** What placing a branch changes. */
  lemma PlaceBranchSets(b: Build, freq: nat)
    requires 3 <= b.len <= |b.nodes| && 0 < b.target && b.target + 2 <= b.len
    ensures var r := PlaceBranch(b, freq);
      && |r.nodes| == |b.nodes| && r.leaves == b.leaves && r.queue == b.queue
      && r.target == b.target - 1 && r.len == b.len - 2
      && r.nodes[r.target].entry == Branch(b.len - 1) && r.nodes[r.target].freq == freq
      && r.nodes[b.len - 1].parent == r.target && r.nodes[b.len - 2].parent == r.target
      && (forall j {:trigger r.nodes[j].entry} {:trigger r.nodes[j].freq} :: 0 <= j < |b.nodes| && j != r.target ==>
            r.nodes[j].entry == b.nodes[j].entry && r.nodes[j].freq == b.nodes[j].freq)
      && (forall j {:trigger r.nodes[j].parent} :: 0 <= j < |b.nodes| && j != b.len - 1 && j != b.len - 2 ==>
            r.nodes[j].parent == b.nodes[j].parent)
  {
  }

  lemma PlacedBefore(b: Build, all: seq<Weighted>, rank: seq<nat>, i: nat)
    requires Building(b, all, rank) && b.target <= i < |b.nodes|
    ensures Placed(b, all, rank, i)
  {
  }

  lemma BuildingSizes(b: Build, all: seq<Weighted>, rank: seq<nat>)
    requires Building(b, all, rank)
    ensures 1 <= b.len <= |b.nodes| && b.len % 2 == 1 && b.target <= b.len
  {
  }

  lemma PlaceBranchKeepsPlaced(b: Build, all: seq<Weighted>, rank: seq<nat>, i: nat)
    requires Building(b, all, rank) && 3 <= b.len && 1 <= b.target && b.target + 2 <= b.len
    requires b.target - 1 <= i < |b.nodes|
    ensures Placed(PlaceBranch(b, PairFreq(b)), all, rank, i)
  {
    hide Building, PlaceBranch;
    BuildingSizes(b, all, rank);
    PlaceBranchSets(b, PairFreq(b));
    if i >= b.target { PlacedBefore(b, all, rank, i); }
  }

  lemma PlaceBranchKeepsPaired(b: Build, all: seq<Weighted>, rank: seq<nat>, i: nat)
    requires Building(b, all, rank) && 3 <= b.len && 1 <= b.target && b.target + 2 <= b.len
    requires b.len - 2 <= i < |b.nodes|
    ensures Paired(PlaceBranch(b, PairFreq(b)), i)
  {
    if i >= b.len { assert Paired(b, i); }
  }

  lemma PlaceBranchKeepsOrder(b: Build, all: seq<Weighted>, rank: seq<nat>)
    requires Building(b, all, rank) && 3 <= b.len && 1 <= b.target && b.target + 2 <= b.len
    requires b.nodes[b.target].freq <= PairFreq(b)
    ensures var r := PlaceBranch(b, PairFreq(b));
      && Counted(r, all) && r.nodes[0].parent == 0
      && forall i, j {:trigger r.nodes[i].freq, r.nodes[j].freq} :: r.target <= i <= j < |r.nodes| ==>
           1 <= r.nodes[j].freq <= r.nodes[i].freq
  {
    hide Placed, Paired, PlacedValue, SameOrder, Ranked;
    var r := PlaceBranch(b, PairFreq(b));
    assert r.nodes[r.target].freq == PairFreq(b);
    assert forall j :: b.target <= j < |b.nodes| ==> r.nodes[j].freq == b.nodes[j].freq <= b.nodes[b.target].freq;
  }

  lemma PlaceBranchKeepsValues(b: Build, all: seq<Weighted>, rank: seq<nat>, v: nat, w: nat)
    requires Building(b, all, rank) && 3 <= b.len && 1 <= b.target && b.target + 2 <= b.len
    requires v < |b.leaves| && w < |b.leaves|
    ensures var r := PlaceBranch(b, PairFreq(b)); PlacedValue(r, rank, v) && SameOrder(r, rank, v, w)
  {
    assert PlacedValue(b, rank, v) && SameOrder(b, rank, v, w);
  }

  lemma PlaceBranchKeepsBuilding(b: Build, all: seq<Weighted>, rank: seq<nat>)
    requires Building(b, all, rank) && 3 <= b.len && 1 <= b.target && b.target + 2 <= b.len
    requires b.nodes[b.target].freq <= PairFreq(b)
    requires b.queue != [] ==> PairFreq(b) < b.queue[|b.queue| - 1].freq
    ensures var r := PlaceBranch(b, PairFreq(b)); Building(r, all, rank) && BetweenRounds(r)
  {
    var r := PlaceBranch(b, PairFreq(b));
    PlaceBranchKeepsOrder(b, all, rank);
    forall i | r.target <= i < |r.nodes| ensures Placed(r, all, rank, i) {
      PlaceBranchKeepsPlaced(b, all, rank, i);
    }
    forall i | r.len <= i < |r.nodes| ensures Paired(r, i) {
      PlaceBranchKeepsPaired(b, all, rank, i);
    }
    forall v | 0 <= v < |r.leaves| ensures PlacedValue(r, rank, v) {
      PlaceBranchKeepsValues(b, all, rank, v, v);
    }
    forall v, w | 0 <= v < |r.leaves| && 0 <= w < |r.leaves| ensures SameOrder(r, rank, v, w) {
      PlaceBranchKeepsValues(b, all, rank, v, w);
    }
  }

  /** The node placed last is never heavier than the next pair. */
  lemma LastPlacedIsLight(b: Build, all: seq<Weighted>, rank: seq<nat>)
    requires Building(b, all, rank) && BetweenRounds(b) && 3 <= b.len && b.target + 2 <= b.len
    ensures b.nodes[b.target].freq <= PairFreq(b)
  {
    if b.len < |b.nodes| {
      assert Placed(b, all, rank, b.target);
      assert b.nodes[b.len].freq <= b.nodes[b.len - 2].freq;
      assert b.nodes[b.len + 1].freq <= b.nodes[b.len - 1].freq;
    }
  }

  lemma PairIsReady(b: Build, all: seq<Weighted>, rank: seq<nat>)
    requires Building(b, all, rank) && BetweenRounds(b) && 3 <= b.len
    ensures var f := FillPair(b);
      && Building(f, all, rank) && f.target + 2 <= f.len == b.len <= |f.nodes|
      && f.nodes[f.target].freq <= PairFreq(f)
  {
    FillPairKeepsBuilding(b, all, rank);
    if b.target + 2 <= b.len {
      LastPlacedIsLight(b, all, rank);
    }
  }

  lemma BuildingInRange(b: Build, all: seq<Weighted>, rank: seq<nat>)
    requires Building(b, all, rank)
    ensures b.len <= |b.nodes| && b.target <= |b.nodes|
  {
  }

  lemma RoundKeepsBuilding(b: Build, all: seq<Weighted>, rank: seq<nat>)
    requires Building(b, all, rank) && BetweenRounds(b) && 3 <= b.len
    ensures CanMerge(b) && Building(MergeRound(b), all, rank) && BetweenRounds(MergeRound(b))
  {
    hide Building;
    PairIsReady(b, all, rank);
    var f := FillPair(b);
    TakeLightKeepsBuilding(f, all, rank, PairFreq(f));
    var l := TakeLight(f, PairFreq(f));
    LeafIsAvailable(l, all, rank);
    BuildingInRange(l, all, rank);
    PlaceBranchKeepsBuilding(l, all, rank);
  }

  /** The merge places every leaf, fills every slot and ends at the root. */
  lemma {:induction false} MergeFillsAll(b: Build, all: seq<Weighted>, rank: seq<nat>)
    requires Building(b, all, rank) && BetweenRounds(b) && 2 <= |b.leaves|
    ensures var r := Merge(b); Building(r, all, rank) && r.len == 1 && r.target == 0 && r.queue == []
    ensures |Merge(b).leaves| == |b.leaves|
    decreases b.len
  {
    if 3 <= b.len {
      RoundKeepsBuilding(b, all, rank);
      MergeFillsAll(MergeRound(b), all, rank);
    }
  }

  // ---- ties, and the order of branches

  /** A branch comes before every leaf of the same count. */
  ghost predicate TieHolds(nodes: seq<Node>, i: nat, j: nat)
    requires i < |nodes| && j < |nodes|
  {
    nodes[i].entry.Leaf? && nodes[j].entry.Branch? && nodes[i].freq == nodes[j].freq ==> j < i
  }

  /** Of two branches the earlier one has the earlier children. */
  ghost predicate BranchesInOrder(nodes: seq<Node>, i: nat, j: nat)
    requires i < |nodes| && j < |nodes|
  {
    nodes[i].entry.Branch? && nodes[j].entry.Branch? && i < j ==> nodes[i].entry.child < nodes[j].entry.child
  }

  /** From `from` on, ties are broken and branches ordered. */
  ghost predicate TiesBroken(nodes: seq<Node>, from: nat) {
    forall i, j :: from <= i < |nodes| && from <= j < |nodes| ==> TieHolds(nodes, i, j) && BranchesInOrder(nodes, i, j)
  }

  /** Ties so far are broken, and no leaf still queued is as light as a branch. */
  ghost predicate TiesHandled(b: Build) {
    && TiesBroken(b.nodes, b.target)
    && forall i :: b.target <= i < |b.nodes| && b.queue != [] && b.nodes[i].entry.Branch? ==>
         b.nodes[i].freq < b.queue[|b.queue| - 1].freq
  }

  lemma PlaceLeafKeepsTies(b: Build, all: seq<Weighted>, rank: seq<nat>)
    requires Building(b, all, rank) && TiesHandled(b) && CanPlace(b)
    ensures TiesHandled(PlaceLeaf(b))
  {
    var r := PlaceLeaf(b);
    assert b.queue == all[..|b.queue|];
    forall i, j | r.target <= i < |r.nodes| && r.target <= j < |r.nodes|
      ensures TieHolds(r.nodes, i, j) && BranchesInOrder(r.nodes, i, j)
    {
      if b.target <= i && b.target <= j { assert TieHolds(b.nodes, i, j) && BranchesInOrder(b.nodes, i, j); }
    }
    if r.queue != [] { assert all[|b.queue| - 1].freq <= all[|r.queue| - 1].freq; }
  }

  lemma {:induction false} FillPairKeepsTies(b: Build, all: seq<Weighted>, rank: seq<nat>)
    requires Building(b, all, rank) && TiesHandled(b) && 3 <= b.len
    ensures TiesHandled(FillPair(b))
    decreases |b.queue|
  {
    hide Building, TiesHandled, PlaceLeaf;
    LeafIsAvailable(b, all, rank);
    if b.len < b.target + 2 {
      PlaceLeafKeepsBuilding(b, all, rank);
      PlaceLeafKeepsTies(b, all, rank);
      PlaceLeafKeepsLength(b);
      FillPairKeepsTies(PlaceLeaf(b), all, rank);
    }
  }

  lemma PlaceLeafKeepsLength(b: Build)
    requires CanPlace(b)
    ensures PlaceLeaf(b).len == b.len
  {
  }

  lemma {:induction false} TakeLightKeepsTies(b: Build, all: seq<Weighted>, rank: seq<nat>, freq: nat)
    requires Building(b, all, rank) && TiesHandled(b)
    ensures TiesHandled(TakeLight(b, freq))
    decreases |b.queue|
  {
    hide Building, TiesHandled, PlaceLeaf;
    if CanPlace(b) && b.queue[|b.queue| - 1].freq <= freq {
      PlaceLeafKeepsBuilding(b, all, rank);
      PlaceLeafKeepsTies(b, all, rank);
      TakeLightKeepsTies(PlaceLeaf(b), all, rank, freq);
    }
  }

  lemma PlaceBranchKeepsTies(b: Build, all: seq<Weighted>, rank: seq<nat>, freq: nat)
    requires Building(b, all, rank) && TiesHandled(b) && 3 <= b.len && 1 <= b.target && b.target + 2 <= b.len
    requires b.queue != [] ==> freq < b.queue[|b.queue| - 1].freq
    ensures TiesHandled(PlaceBranch(b, freq))
  {
    hide Building, PlaceBranch;
    BuildingSizes(b, all, rank);
    PlaceBranchSets(b, freq);
    var r := PlaceBranch(b, freq);
    forall i, j | r.target <= i < |r.nodes| && r.target <= j < |r.nodes|
      ensures TieHolds(r.nodes, i, j) && BranchesInOrder(r.nodes, i, j)
    {
      if b.target <= i && b.target <= j { assert TieHolds(b.nodes, i, j) && BranchesInOrder(b.nodes, i, j); }
      if b.target <= j { PlacedBefore(b, all, rank, j); }
    }
    forall i | r.target <= i < |r.nodes| && r.queue != [] && r.nodes[i].entry.Branch?
      ensures r.nodes[i].freq < r.queue[|r.queue| - 1].freq
    {
      if b.target <= i { assert b.nodes[i].freq == r.nodes[i].freq && b.nodes[i].entry == r.nodes[i].entry; }
    }
  }

  lemma RoundKeepsTies(b: Build, all: seq<Weighted>, rank: seq<nat>)
    requires Building(b, all, rank) && BetweenRounds(b) && 3 <= b.len && TiesHandled(b)
    ensures CanMerge(b) && TiesHandled(MergeRound(b))
  {
    hide Building, TiesHandled, PlaceBranch;
    RoundKeepsBuilding(b, all, rank);
    PairIsReady(b, all, rank);
    FillPairKeepsTies(b, all, rank);
    var f := FillPair(b);
    TakeLightKeepsBuilding(f, all, rank, PairFreq(f));
    TakeLightKeepsTies(f, all, rank, PairFreq(f));
    var l := TakeLight(f, PairFreq(f));
    LeafIsAvailable(l, all, rank);
    PlaceBranchKeepsTies(l, all, rank, PairFreq(f));
  }

  lemma {:induction false} MergeBreaksTies(b: Build, all: seq<Weighted>, rank: seq<nat>)
    requires Building(b, all, rank) && BetweenRounds(b) && 2 <= |b.leaves| && TiesHandled(b)
    ensures TiesHandled(Merge(b))
    decreases b.len
  {
    hide Building, BetweenRounds, TiesHandled, MergeRound;
    BuildingSizes(b, all, rank);
    if 3 <= b.len {
      RoundKeepsBuilding(b, all, rank);
      RoundKeepsTies(b, all, rank);
      RoundKeepsLeaves(b, all, rank);
      MergeBreaksTies(MergeRound(b), all, rank);
    } else {
      TooShortToMerge(b);
    }
  }

  lemma TooShortToMerge(b: Build)
    requires b.len < 3
    ensures Merge(b) == b
  {
  }

  lemma RoundKeepsLeaves(b: Build, all: seq<Weighted>, rank: seq<nat>)
    requires Building(b, all, rank) && BetweenRounds(b) && 3 <= b.len
    ensures CanMerge(b) && |MergeRound(b).leaves| == |b.leaves|
  {
    hide BetweenRounds, MergeRound;
    RoundKeepsBuilding(b, all, rank);
  }

  // ---- taking the leaves out

  lemma {:induction false} LeafListGrows(nodes: seq<Node>, i: nat, k: nat)
    requires i <= k <= |nodes|
    ensures LeafList(nodes, i) <= LeafList(nodes, k)
    decreases k - i
  {
    if i < k { LeafListGrows(nodes, i, k - 1); }
  }

  /** The leaf at node i appears in the list at the number of leaves before it. */
  lemma LeafListAt(nodes: seq<Node>, i: nat)
    requires i < |nodes| && nodes[i].entry.Leaf?
    ensures var all, r := LeafList(nodes, |nodes|), |LeafList(nodes, i)|;
      r < |all| && all[r] == Weighted(nodes[i].entry.value, (nodes[i].freq + 1) / 2)
    ensures forall k :: i < k <= |nodes| ==> |LeafList(nodes, i)| < |LeafList(nodes, k)|
  {
    LeafListGrows(nodes, i + 1, |nodes|);
    forall k | i < k <= |nodes| ensures |LeafList(nodes, i)| < |LeafList(nodes, k)| {
      LeafListGrows(nodes, i + 1, k);
    }
  }

  /** Every listed leaf comes from a node. */
  lemma {:induction false} LeafListFrom(nodes: seq<Node>, i: nat, j: nat) returns (k: nat)
    requires i <= |nodes| && j < |LeafList(nodes, i)|
    ensures k < i && nodes[k].entry.Leaf? && |LeafList(nodes, k)| == j
    ensures LeafList(nodes, i)[j] == Weighted(nodes[k].entry.value, (nodes[k].freq + 1) / 2)
  {
    if j < |LeafList(nodes, i - 1)| {
      k := LeafListFrom(nodes, i - 1, j);
    } else {
      k := i - 1;
    }
  }

  lemma {:induction false} LeafListSize(nodes: seq<Node>, i: nat)
    requires i <= |nodes|
    ensures |LeafList(nodes, i)| == Sum(seq(i, k requires 0 <= k < i => if nodes[k].entry.Leaf? then 1 else 0))
  {
    var s := seq(i, k requires 0 <= k < i => if nodes[k].entry.Leaf? then 1 else 0);
    if i > 0 {
      LeafListSize(nodes, i - 1);
      assert s[..i - 1] == seq(i - 1, k requires 0 <= k < i - 1 => if nodes[k].entry.Leaf? then 1 else 0);
    }
  }

  lemma LeafListIsComplete(t: Tree)
    requires Sized(t) && Linked(t.nodes)
    ensures |LeafList(t.nodes, |t.nodes|)| == |t.leaves|
  {
    var m := |t.nodes|;
    var s := seq(m, k requires 0 <= k < m => if t.nodes[k].entry.Leaf? then 1 else 0);
    LeafListSize(t.nodes, m);
    FrontierSize(t.nodes, m);
    assert s == Frontier(t.nodes, seq(m, _ => 1), m) by {
      forall i | 0 <= i < m ensures s[i] == Frontier(t.nodes, seq(m, _ => 1), m)[i] {
        assert ChildrenLinked(t.nodes, i);
      }
    }
  }

  /** The number of leaves before the leaf of each value. */
  ghost function Ranks(t: Tree): seq<nat>
    requires Indexed(t.nodes, t.leaves)
  {
    seq(|t.leaves|, v requires 0 <= v < |t.leaves| =>
      assert ValueIndexed(t.nodes, t.leaves, v); |LeafList(t.nodes, t.leaves[v])|)
  }

  lemma LeafListIsRanked(t: Tree)
    requires Valid(t)
    ensures Ranked(LeafList(t.nodes, |t.nodes|), Ranks(t), |t.leaves|)
  {
    var all, rank, n := LeafList(t.nodes, |t.nodes|), Ranks(t), |t.leaves|;
    LeafListIsComplete(t);
    forall v | 0 <= v < n ensures rank[v] < n && all[rank[v]].value == v {
      assert ValueIndexed(t.nodes, t.leaves, v);
      LeafListAt(t.nodes, t.leaves[v]);
    }
    forall j | 0 <= j < n ensures all[j].value < n && rank[all[j].value] == j {
      var k := LeafListFrom(t.nodes, |t.nodes|, j);
      assert LeafIndexed(t.nodes, t.leaves, k);
    }
    forall i, j | 0 <= i <= j < n ensures 1 <= all[j].freq <= all[i].freq {
      var a := LeafListFrom(t.nodes, |t.nodes|, i);
      var b := LeafListFrom(t.nodes, |t.nodes|, j);
      if b < a { LeafListAt(t.nodes, b); }
      assert t.nodes[b].freq <= t.nodes[a].freq;
    }
  }

  // ---- rebuilding the groups

  function Identity(n: nat): seq<nat> {
    seq(n, i => i)
  }

  /** Put node i in the group of the node before it, or in a new one. */
  function RegroupNode(nodes: seq<Node>, g: Groups, i: nat): (r: (seq<Node>, Groups))
    requires 1 <= i < |nodes| == |g.leaders| == |g.ids| && g.used < |g.ids| && g.ids[g.used] < |g.leaders|
  {
    if nodes[i].freq == nodes[i - 1].freq then
      (nodes[i := nodes[i].(group := nodes[i - 1].group)], g)
    else
      var id := g.ids[g.used];
      (nodes[i := nodes[i].(group := id)], g.(used := g.used + 1, leaders := g.leaders[id := i]))
  }

  /** Group the first i nodes, giving out ids in order. */
  function Regroup(nodes: seq<Node>, leaders: seq<nat>, i: nat): (r: (seq<Node>, Groups))
    requires 1 <= i <= |nodes| == |leaders|
    ensures |r.0| == |r.1.leaders| == |nodes| && r.1.ids == Identity(|nodes|) && 1 <= r.1.used <= i
  {
    if i == 1 then
      (nodes[0 := nodes[0].(group := 0)], Groups(1, Identity(|nodes|), leaders[0 := 0]))
    else
      var r := Regroup(nodes, leaders, i - 1);
      RegroupNode(r.0, r.1, i - 1)
  }

  /** The first i nodes are grouped by count, with ids 0, 1, ... in order of first appearance. */
  ghost predicate GroupedPrefix(nodes: seq<Node>, used: nat, leaders: seq<nat>, i: nat) {
    && 1 <= i <= |nodes| == |leaders| && used <= i
    && nodes[i - 1].group + 1 == used
    && (forall j, k {:trigger nodes[j].group, nodes[k].group} :: 0 <= j < i && 0 <= k < i ==>
          (nodes[j].group == nodes[k].group <==> nodes[j].freq == nodes[k].freq))
    && (forall j :: 0 <= j < i ==> nodes[j].group < used && LeaderHolds(nodes, leaders, j))
    && (forall h :: 0 <= h < used ==> leaders[h] < i && nodes[leaders[h]].group == h)
  }

  lemma JoinKeepsPrefix(a: seq<Node>, used: nat, leaders: seq<nat>, i: nat)
    requires GroupedPrefix(a, used, leaders, i) && i < |a| && a[i].freq == a[i - 1].freq
    ensures GroupedPrefix(a[i := a[i].(group := a[i - 1].group)], used, leaders, i + 1)
  {
    var b := a[i := a[i].(group := a[i - 1].group)];
    assert LeaderHolds(a, leaders, i - 1);
    forall j | 0 <= j < i + 1 ensures b[j].group < used && LeaderHolds(b, leaders, j) {
      if j < i { assert LeaderHolds(a, leaders, j); }
    }
  }

  lemma OpenKeepsPrefix(a: seq<Node>, used: nat, leaders: seq<nat>, i: nat)
    requires GroupedPrefix(a, used, leaders, i) && i < |a| && Ordered(a) && a[i].freq != a[i - 1].freq
    ensures GroupedPrefix(a[i := a[i].(group := used)], used + 1, leaders[used := i], i + 1)
  {
    hide Ordered, GroupedPrefix, LeaderHolds;
    PrefixInRange(a, used, leaders, i);
    var b, ls := a[i := a[i].(group := used)], leaders[used := i];
    forall j | 0 <= j < i + 1 ensures b[j].group < used + 1 && LeaderHolds(b, ls, j) {
      OpenKeepsLeader(a, used, leaders, i, j);
    }
    forall j, k | 0 <= j < i + 1 && 0 <= k < i + 1
      ensures b[j].group == b[k].group <==> b[j].freq == b[k].freq
    {
      OpenKeepsApart(a, used, leaders, i, j, k);
    }
    OpenIsPrefix(a, used, leaders, i);
  }

  lemma PrefixInRange(a: seq<Node>, used: nat, leaders: seq<nat>, i: nat)
    requires GroupedPrefix(a, used, leaders, i)
    ensures used <= i <= |a| == |leaders|
  {
  }

  lemma EarlierIsHeavier(a: seq<Node>, i: nat, j: nat)
    requires 1 <= i < |a| && Ordered(a) && a[i].freq != a[i - 1].freq && j < i
    ensures a[i].freq < a[j].freq
  {
    assert a[i].freq <= a[i - 1].freq <= a[j].freq;
  }

  lemma OpenKeepsLeader(a: seq<Node>, used: nat, leaders: seq<nat>, i: nat, j: nat)
    requires GroupedPrefix(a, used, leaders, i) && i < |a| && Ordered(a) && a[i].freq != a[i - 1].freq && j < i + 1
    ensures var b := a[i := a[i].(group := used)]; b[j].group < used + 1 && LeaderHolds(b, leaders[used := i], j)
  {
    if j < i { assert LeaderHolds(a, leaders, j); }
  }

  lemma OpenKeepsApart(a: seq<Node>, used: nat, leaders: seq<nat>, i: nat, j: nat, k: nat)
    requires GroupedPrefix(a, used, leaders, i) && i < |a| && Ordered(a)
    requires a[i].freq != a[i - 1].freq && j < i + 1 && k < i + 1
    ensures var b := a[i := a[i].(group := used)]; b[j].group == b[k].group <==> b[j].freq == b[k].freq
  {
    hide Ordered;
    if j < i { EarlierIsHeavier(a, i, j); }
    if k < i { EarlierIsHeavier(a, i, k); }
    assert j < i && k < i ==> (a[j].group == a[k].group <==> a[j].freq == a[k].freq);
  }

  lemma OpenIsPrefix(a: seq<Node>, used: nat, leaders: seq<nat>, i: nat)
    requires GroupedPrefix(a, used, leaders, i) && i < |a|
    requires var b := a[i := a[i].(group := used)];
      && (forall j :: 0 <= j < i + 1 ==> b[j].group < used + 1 && LeaderHolds(b, leaders[used := i], j))
      && (forall j, k {:trigger b[j].group, b[k].group} :: 0 <= j < i + 1 && 0 <= k < i + 1 ==>
            (b[j].group == b[k].group <==> b[j].freq == b[k].freq))
    ensures GroupedPrefix(a[i := a[i].(group := used)], used + 1, leaders[used := i], i + 1)
  {
    hide LeaderHolds;
  }

  /** Regrouping changes nothing but group ids. */
  ghost predicate SameButGroups(a: seq<Node>, b: seq<Node>) {
    |a| == |b| && forall j {:trigger b[j]} :: 0 <= j < |a| ==> b[j] == a[j].(group := b[j].group)
  }

  lemma {:induction false} RegroupKeepsNodes(nodes: seq<Node>, leaders: seq<nat>, i: nat)
    requires 1 <= i <= |nodes| == |leaders|
    ensures SameButGroups(nodes, Regroup(nodes, leaders, i).0)
  {
    if i > 1 {
      RegroupKeepsNodes(nodes, leaders, i - 1);
    }
  }

  lemma RegroupNodeKeepsPrefix(nodes: seq<Node>, g: Groups, i: nat)
    requires GroupedPrefix(nodes, g.used, g.leaders, i) && i < |nodes| && Ordered(nodes)
    requires g.ids == Identity(|nodes|)
    ensures var r := RegroupNode(nodes, g, i); GroupedPrefix(r.0, r.1.used, r.1.leaders, i + 1)
  {
    if nodes[i].freq == nodes[i - 1].freq {
      JoinKeepsPrefix(nodes, g.used, g.leaders, i);
    } else {
      OpenKeepsPrefix(nodes, g.used, g.leaders, i);
    }
  }

  ghost predicate RegroupSound(nodes: seq<Node>, leaders: seq<nat>, i: nat)
    requires 1 <= i <= |nodes| == |leaders|
  {
    var r := Regroup(nodes, leaders, i);
    GroupedPrefix(r.0, r.1.used, r.1.leaders, i)
  }

  lemma FirstNodeIsSound(nodes: seq<Node>, leaders: seq<nat>)
    requires 1 <= |nodes| == |leaders|
    ensures RegroupSound(nodes, leaders, 1)
  {
    var r := Regroup(nodes, leaders, 1);
    assert LeaderHolds(r.0, r.1.leaders, 0);
  }

  lemma RegroupNextIsSound(nodes: seq<Node>, leaders: seq<nat>, i: nat)
    requires 1 <= i < |nodes| == |leaders| && Ordered(nodes) && RegroupSound(nodes, leaders, i)
    ensures RegroupSound(nodes, leaders, i + 1)
  {
    RegroupKeepsNodes(nodes, leaders, i);
    var r := Regroup(nodes, leaders, i);
    assert Ordered(r.0);
    RegroupNodeKeepsPrefix(r.0, r.1, i);
    assert Regroup(nodes, leaders, i + 1) == RegroupNode(r.0, r.1, i);
  }

  lemma {:induction false} RegroupIsSound(nodes: seq<Node>, leaders: seq<nat>, i: nat)
    requires 1 <= i <= |nodes| == |leaders| && Ordered(nodes)
    ensures RegroupSound(nodes, leaders, i)
  {
    hide *;
    if i == 1 {
      FirstNodeIsSound(nodes, leaders);
    } else {
      RegroupIsSound(nodes, leaders, i - 1);
      RegroupNextIsSound(nodes, leaders, i - 1);
    }
  }

  function Below(n: nat): (s: set<nat>)
    ensures |s| == n && forall h: nat :: h in s <==> h < n
  {
    if n == 0 then {} else Below(n - 1) + {n - 1}
  }

  /** With ids given out in order, the ids in use are the first ones and the rest of the pool is free. */
  lemma PrefixIsPooled(nodes: seq<Node>, g: Groups)
    requires GroupedPrefix(nodes, g.used, g.leaders, |nodes|) && g.ids == Identity(|nodes|)
    ensures Grouped(nodes, g.leaders) && Pooled(nodes, g)
  {
    forall h | h in Live(nodes) ensures h in Below(g.used) {
      var i :| 0 <= i < |nodes| && nodes[i].group == h;
    }
    forall h | h in Below(g.used) ensures h in Live(nodes) {
      assert nodes[g.leaders[h]].group == h;
    }
    assert Live(nodes) == Below(g.used);
  }

  // ---- the rebuilt tree

  ghost function StartBuild(t: Tree): Build {
    Build(t.nodes, t.leaves, LeafList(t.nodes, |t.nodes|), |t.nodes|, |t.nodes|)
  }

  lemma StartIsBuilding(t: Tree)
    requires Valid(t)
    ensures Building(StartBuild(t), LeafList(t.nodes, |t.nodes|), Ranks(t)) && BetweenRounds(StartBuild(t))
  {
    LeafListIsRanked(t);
  }

  ghost function Rebuild(t: Tree): Tree
    requires Valid(t)
  {
    StartIsBuilding(t);
    MergeFillsAll(StartBuild(t), LeafList(t.nodes, |t.nodes|), Ranks(t));
    var b := Merge(StartBuild(t));
    var (nodes, groups) := Regroup(b.nodes, t.groups.leaders, |b.nodes|);
    Tree(nodes, b.leaves, groups)
  }

  /** A finished reconstruction is a linked, indexed, ordered and summed node array. */
  lemma FinishedIsTree(b: Build, all: seq<Weighted>, rank: seq<nat>)
    requires Building(b, all, rank) && b.len == 1 && b.target == 0 && b.queue == [] && 2 <= |b.leaves|
    ensures Linked(b.nodes) && Indexed(b.nodes, b.leaves) && Ordered(b.nodes) && Summed(b.nodes, 0)
  {
    forall i | 0 <= i < |b.nodes|
      ensures ChildrenLinked(b.nodes, i) && LeafIndexed(b.nodes, b.leaves, i) && SumHolds(b.nodes, 0, i)
    {
      assert Placed(b, all, rank, i);
    }
    forall i | 1 <= i < |b.nodes| ensures ParentLinked(b.nodes, i) {
      assert Paired(b, i);
    }
    forall v | 0 <= v < |b.leaves| ensures ValueIndexed(b.nodes, b.leaves, v) {
      assert PlacedValue(b, rank, v);
    }
  }

  /** What the merge delivers for a valid tree. */
  lemma RebuildParts(t: Tree)
    requires Valid(t)
    ensures var b := Merge(StartBuild(t));
      && Building(b, LeafList(t.nodes, |t.nodes|), Ranks(t)) && b.len == 1 && b.target == 0 && b.queue == []
      && |b.leaves| == |t.leaves| && b.leaves == Rebuild(t).leaves
      && SameButGroups(b.nodes, Rebuild(t).nodes)
      && Grouped(Rebuild(t).nodes, Rebuild(t).groups.leaders) && Pooled(Rebuild(t).nodes, Rebuild(t).groups)
      && |Rebuild(t).groups.ids| == |Rebuild(t).groups.leaders| == |b.nodes|
  {
    StartIsBuilding(t);
    MergeFillsAll(StartBuild(t), LeafList(t.nodes, |t.nodes|), Ranks(t));
    var b := Merge(StartBuild(t));
    FinishedIsTree(b, LeafList(t.nodes, |t.nodes|), Ranks(t));
    RegroupKeepsNodes(b.nodes, t.groups.leaders, |b.nodes|);
    RegroupIsSound(b.nodes, t.groups.leaders, |b.nodes|);
    PrefixIsPooled(Rebuild(t).nodes, Rebuild(t).groups);
  }

  lemma SameButGroupsKeepsTree(a: seq<Node>, b: seq<Node>, leaves: seq<nat>)
    requires SameButGroups(a, b) && Linked(a) && Indexed(a, leaves) && Ordered(a) && Summed(a, 0)
    ensures Linked(b) && Indexed(b, leaves) && Ordered(b) && Summed(b, 0)
  {
    SameLinksKeepLinked(a, b);
    SameLinksKeepIndexed(a, b, leaves);
    forall i | 0 <= i < |b| ensures SumHolds(b, 0, i) {
      assert SumHolds(a, 0, i);
    }
  }

  lemma RebuildIsTree(t: Tree)
    requires Valid(t)
    ensures var r := Rebuild(t);
      Sized(r) && |r.leaves| == |t.leaves| && Linked(r.nodes) && Indexed(r.nodes, r.leaves) && Ordered(r.nodes) &&
      Summed(r.nodes, 0) && Grouped(r.nodes, r.groups.leaders) && Pooled(r.nodes, r.groups)
  {
    var b, r := Merge(StartBuild(t)), Rebuild(t);
    RebuildParts(t);
    FinishedIsTree(b, LeafList(t.nodes, |t.nodes|), Ranks(t));
    SameButGroupsKeepsTree(b.nodes, r.nodes, r.leaves);
  }

  /** Every count is halved, rounding up. */
  lemma RebuildHalves(t: Tree, v: nat)
    requires Valid(t) && v < |t.leaves|
    ensures Indexed(Rebuild(t).nodes, Rebuild(t).leaves) && |Rebuild(t).leaves| == |t.leaves|
    ensures Count(Rebuild(t), v) == (Count(t, v) + 1) / 2
  {
    var b, r := Merge(StartBuild(t)), Rebuild(t);
    RebuildIsTree(t);
    RebuildParts(t);
    assert ValueIndexed(t.nodes, t.leaves, v);
    LeafListAt(t.nodes, t.leaves[v]);
    assert PlacedValue(b, Ranks(t), v);
    assert Placed(b, LeafList(t.nodes, |t.nodes|), Ranks(t), b.leaves[v]);
  }

  /** Leaves keep their relative order. */
  lemma RebuildKeepsOrder(t: Tree, v: nat, w: nat)
    requires Valid(t) && v < |t.leaves| && w < |t.leaves|
    ensures |Rebuild(t).leaves| == |t.leaves|
    ensures Rebuild(t).leaves[v] < Rebuild(t).leaves[w] <==> t.leaves[v] < t.leaves[w]
  {
    hide Ordered, Summed, Linked, Grouped, Pooled, Rebuild, Merge, StartBuild, SameButGroups, Placed, Paired,
      PlacedValue, Ranked;
    RebuildParts(t);
    var b, rank := Merge(StartBuild(t)), Ranks(t);
    assert ValueIndexed(t.nodes, t.leaves, v) && ValueIndexed(t.nodes, t.leaves, w);
    LeafListAt(t.nodes, t.leaves[v]);
    LeafListAt(t.nodes, t.leaves[w]);
    assert SameOrder(b, rank, v, w) && SameOrder(b, rank, w, v);
  }

  /** A branch comes before every leaf of the same count, and branches have their children in their own order. */
  lemma RebuildBreaksTies(t: Tree, i: nat, j: nat)
    requires Valid(t) && i < |t.nodes| && j < |t.nodes|
    ensures |Rebuild(t).nodes| == |t.nodes|
    ensures var a, b := Rebuild(t).nodes[i], Rebuild(t).nodes[j];
      && (a.entry.Leaf? && b.entry.Branch? && a.freq == b.freq ==> j < i)
      && (a.entry.Branch? && b.entry.Branch? && i < j ==> a.entry.child < b.entry.child)
  {
    hide Building, Rebuild, Merge, StartBuild, Grouped, Pooled, Linked, Ordered, Summed;
    StartIsBuilding(t);
    StartHasNoTies(t);
    StartSizes(t);
    MergeBreaksTies(StartBuild(t), LeafList(t.nodes, |t.nodes|), Ranks(t));
    RebuildParts(t);
    var b := Merge(StartBuild(t));
    BuildingNodes(b, LeafList(t.nodes, |t.nodes|), Ranks(t));
    assert TieHolds(b.nodes, i, j) && BranchesInOrder(b.nodes, i, j);
  }

  lemma StartSizes(t: Tree)
    ensures |StartBuild(t).leaves| == |t.leaves|
  {
  }

  lemma BuildingNodes(b: Build, all: seq<Weighted>, rank: seq<nat>)
    requires Building(b, all, rank)
    ensures |b.nodes| == 2 * |b.leaves| - 1
  {
  }

  lemma StartHasNoTies(t: Tree)
    ensures TiesHandled(StartBuild(t))
  {
  }

  lemma {:induction false} HalvedSum(a: seq<int>, b: seq<int>)
    requires |a| == |b| && forall v :: 0 <= v < |a| ==> a[v] >= 0 && b[v] == (a[v] + 1) / 2
    ensures 2 * Sum(b) <= Sum(a) + |a|
  {
    if a != [] {
      HalvedSum(a[..|a| - 1], b[..|a| - 1]);
    }
  }

  /** The root of a rebuilt tree weighs at most half of what it did plus half a leaf count. */
  lemma RebuildLightensRoot(t: Tree)
    requires Valid(t)
    ensures Valid(Rebuild(t)) && |Rebuild(t).leaves| == |t.leaves|
    ensures 2 * Rebuild(t).nodes[0].freq <= t.nodes[0].freq + |t.leaves|
  {
    var r := Rebuild(t);
    RebuildIsTree(t);
    RootIsTotal(t);
    LeafSum(r, Freqs(r.nodes));
    FrontierCarriesRoot(r.nodes, |r.nodes|);
    forall v | 0 <= v < |t.leaves| ensures Counts(r)[v] == (Counts(t)[v] + 1) / 2 {
      RebuildHalves(t, v);
      CountsAt(t, v);
      CountsAt(r, v);
    }
    assert forall v :: 0 <= v < |t.leaves| ==> Counts(t)[v] >= 0 by {
      forall v | 0 <= v < |t.leaves| ensures Counts(t)[v] >= 0 { CountsAt(t, v); }
    }
    HalvedSum(Counts(t), Counts(r));
  }
}
