/**
  The adaptive tree is always an optimal prefix code for its counts. The node array, read from its end, lists the
  pairs that Huffman's construction would merge; the proof follows it backwards, one pair at a time.
 */
module DynTreeOptimal {
  import opened Sums
  import opened DynTree
  import opened DynTreeSums
  import opened DynTreeCode

  /** Count times depth, node by node. */
  ghost function Costs(nodes: seq<Node>, d: seq<nat>): seq<int>
    requires |d| == |nodes|
  {
    seq(|nodes|, i requires 0 <= i < |nodes| => nodes[i].freq * d[i])
  }

  /** 2^(limit - depth), node by node. */
  ghost function Shares(d: seq<nat>, limit: nat): seq<int> {
    seq(|d|, i requires 0 <= i < |d| => if d[i] <= limit then Pow2(limit - d[i]) else 0)
  }

  /** Depths for the frontier at m that satisfy Kraft's inequality, none beyond the limit. */
  ghost predicate KraftAt(nodes: seq<Node>, d: seq<nat>, m: nat, limit: nat) {
    && m <= |nodes| == |d|
    && (forall i :: 0 <= i < m && InFrontier(nodes, m, i) ==> d[i] <= limit)
    && Sum(Frontier(nodes, Shares(d, limit), m)) <= Pow2(limit)
  }

  ghost function CostAt(nodes: seq<Node>, d: seq<nat>, m: nat): int
    requires m <= |nodes| == |d|
  {
    Sum(Frontier(nodes, Costs(nodes, d), m))
  }

  /** The sum of all counts below the root, before m: the cost of the tree itself. */
  ghost function OwnCost(nodes: seq<Node>, m: nat): int
    requires 1 <= m <= |nodes|
  {
    Sum(Freqs(nodes)[1..m])
  }

  lemma OwnCostGrows(nodes: seq<Node>, m: nat)
    requires 3 <= m <= |nodes|
    ensures OwnCost(nodes, m) == OwnCost(nodes, m - 2) + nodes[m - 2].freq + nodes[m - 1].freq
  {
    var f := Freqs(nodes);
    assert f[1..m] == f[1..m - 2] + [f[m - 2]] + [f[m - 1]];
    SumSnoc(f[1..m - 2], f[m - 2]);
    SumSnoc(f[1..m - 2] + [f[m - 2]], f[m - 1]);
  }

  /** Changing the weight of one frontier node changes the sum by as much. */
  lemma FrontierUpdate(nodes: seq<Node>, w: seq<int>, w': seq<int>, m: nat, i: nat)
    requires m <= |nodes| == |w| == |w'| && i < m && InFrontier(nodes, m, i)
    requires w' == w[i := w'[i]]
    ensures Sum(Frontier(nodes, w', m)) == Sum(Frontier(nodes, w, m)) - w[i] + w'[i]
  {
    var f := Frontier(nodes, w, m);
    assert Frontier(nodes, w', m) == f[i := w'[i]];
    SumUpdate(f, i, w'[i]);
  }

  /** Moving one frontier node to depth x. */
  lemma MoveOne(nodes: seq<Node>, d: seq<nat>, m: nat, limit: nat, i: nat, x: nat)
    requires m <= |nodes| == |d| && i < m && InFrontier(nodes, m, i) && d[i] <= limit && x <= limit
    ensures CostAt(nodes, d[i := x], m) == CostAt(nodes, d, m) - nodes[i].freq * d[i] + nodes[i].freq * x
    ensures Sum(Frontier(nodes, Shares(d[i := x], limit), m)) ==
            Sum(Frontier(nodes, Shares(d, limit), m)) - Pow2(limit - d[i]) + Pow2(limit - x)
  {
    var e := d[i := x];
    assert Costs(nodes, e) == Costs(nodes, d)[i := nodes[i].freq * x];
    FrontierUpdate(nodes, Costs(nodes, d), Costs(nodes, e), m, i);
    assert Shares(e, limit) == Shares(d, limit)[i := Pow2(limit - x)];
    FrontierUpdate(nodes, Shares(d, limit), Shares(e, limit), m, i);
  }

  lemma ExchangeCost(a: nat, b: nat, x: nat, y: nat)
    requires a <= b && x <= y
    ensures a * y + b * x <= a * x + b * y
  {
    assert a * x + b * y - a * y - b * x == (b - a) * (y - x);
  }

  ghost function Swap(d: seq<nat>, i: nat, j: nat): (e: seq<nat>)
    requires i < |d| && j < |d|
    ensures |e| == |d|
  {
    d[i := d[j]][j := d[i]]
  }

  /** Exchanging depths so that the lighter of two nodes goes deeper keeps Kraft's sum and costs no more. */
  lemma Exchange(nodes: seq<Node>, d: seq<nat>, m: nat, limit: nat, light: nat, heavy: nat)
    requires KraftAt(nodes, d, m, limit) && light < m && heavy < m && light != heavy
    requires InFrontier(nodes, m, light) && InFrontier(nodes, m, heavy)
    requires nodes[light].freq <= nodes[heavy].freq && d[light] <= d[heavy]
    ensures KraftAt(nodes, Swap(d, light, heavy), m, limit)
    ensures CostAt(nodes, Swap(d, light, heavy), m) <= CostAt(nodes, d, m)
  {
    MoveOne(nodes, d, m, limit, light, d[heavy]);
    MoveOne(nodes, d[light := d[heavy]], m, limit, heavy, d[light]);
    ExchangeCost(nodes[light].freq, nodes[heavy].freq, d[light], d[heavy]);
  }

  lemma {:induction false} EvenSum(s: seq<int>)
    requires forall i :: 0 <= i < |s| ==> s[i] % 2 == 0
    ensures Sum(s) % 2 == 0
  {
    if s != [] { EvenSum(s[..|s| - 1]); }
  }

  lemma {:induction false} DoubleSum(s: seq<int>, t: seq<int>)
    requires |s| == |t| && forall i :: 0 <= i < |s| ==> t[i] == 2 * s[i]
    ensures Sum(t) == 2 * Sum(s)
  {
    if s != [] { DoubleSum(s[..|s| - 1], t[..|s| - 1]); }
  }

  ghost predicate AtLimit(nodes: seq<Node>, d: seq<nat>, m: nat, limit: nat, i: nat)
    requires m <= |nodes| == |d|
  {
    i < m && InFrontier(nodes, m, i) && d[i] == limit
  }

  ghost predicate NoneAtLimit(nodes: seq<Node>, d: seq<nat>, m: nat, limit: nat)
    requires m <= |nodes| == |d|
  {
    forall i: nat :: !AtLimit(nodes, d, m, limit, i)
  }

  ghost predicate OnlyAtLimit(nodes: seq<Node>, d: seq<nat>, m: nat, limit: nat, x: nat)
    requires m <= |nodes| == |d|
  {
    forall i: nat :: AtLimit(nodes, d, m, limit, i) ==> i == x
  }

  /** When no frontier node sits at the limit, the limit can be lowered. */
  lemma LowerLimit(nodes: seq<Node>, d: seq<nat>, m: nat, limit: nat)
    requires KraftAt(nodes, d, m, limit) && limit > 0
    requires NoneAtLimit(nodes, d, m, limit)
    ensures KraftAt(nodes, d, m, limit - 1)
  {
    assert forall i :: 0 <= i < m && InFrontier(nodes, m, i) ==> d[i] < limit by {
      forall i | 0 <= i < m && InFrontier(nodes, m, i) ensures d[i] < limit {
        assert !AtLimit(nodes, d, m, limit, i);
      }
    }
    DoubleSum(Frontier(nodes, Shares(d, limit - 1), m), Frontier(nodes, Shares(d, limit), m));
  }

  /** With a node alone at the limit, all shares but one are even. */
  lemma LonelyShareIsOdd(nodes: seq<Node>, d: seq<nat>, m: nat, limit: nat, x: nat)
    requires KraftAt(nodes, d, m, limit) && AtLimit(nodes, d, m, limit, x) && OnlyAtLimit(nodes, d, m, limit, x)
    ensures Sum(Frontier(nodes, Shares(d, limit), m)) % 2 == 1
  {
    var f := Frontier(nodes, Shares(d, limit), m);
    forall i | 0 <= i < m && InFrontier(nodes, m, i) && i != x ensures d[i] < limit {
      assert !AtLimit(nodes, d, m, limit, i);
    }
    SumUpdate(f, x, 0);
    EvenSum(f[x := 0]);
  }

  /** A node alone at the limit can move up one level: Kraft's sum is odd, so it falls short of 2^limit. */
  lemma RaiseLonely(nodes: seq<Node>, d: seq<nat>, m: nat, limit: nat, x: nat) returns (e: seq<nat>)
    requires KraftAt(nodes, d, m, limit) && limit > 0 && AtLimit(nodes, d, m, limit, x)
    requires OnlyAtLimit(nodes, d, m, limit, x)
    ensures KraftAt(nodes, e, m, limit) && CostAt(nodes, e, m) <= CostAt(nodes, d, m)
    ensures NoneAtLimit(nodes, e, m, limit)
  {
    hide InFrontier, Frontier, Sum, Shares, CostAt;
    e := d[x := limit - 1];
    OthersAreBelow(nodes, d, m, limit, x);
    LonelyShareIsOdd(nodes, d, m, limit, x);
    MoveOne(nodes, d, m, limit, x, limit - 1);
    assert Pow2(limit) == 2 * Pow2(limit - 1) && Pow2(0) == 1 && Pow2(1) == 2;
    assert nodes[x].freq * (limit - 1) <= nodes[x].freq * limit;
  }

  lemma OthersAreBelow(nodes: seq<Node>, d: seq<nat>, m: nat, limit: nat, x: nat)
    requires KraftAt(nodes, d, m, limit) && limit > 0 && AtLimit(nodes, d, m, limit, x)
    requires OnlyAtLimit(nodes, d, m, limit, x)
    ensures NoneAtLimit(nodes, d[x := limit - 1], m, limit)
  {
    hide InFrontier, Sum, Frontier;
    var e := d[x := limit - 1];
    forall i: nat ensures !AtLimit(nodes, e, m, limit, i) {
      assert AtLimit(nodes, e, m, limit, i) ==> AtLimit(nodes, d, m, limit, i);
    }
  }

  /** With the last pair at the limit, replacing it by its parent one level up keeps Kraft's sum. */
  lemma MergeLast(nodes: seq<Node>, d: seq<nat>, m: nat, limit: nat)
    requires Linked(nodes) && Summed(nodes, 0) && 3 <= m <= |nodes| && m % 2 == 1 && limit > 0
    requires KraftAt(nodes, d, m, limit) && d[m - 1] == d[m - 2] == limit
    ensures var p := nodes[m - 1].parent;
      && p < m - 2 && KraftAt(nodes, d[p := limit - 1], m - 2, limit)
      && CostAt(nodes, d, m) == CostAt(nodes, d[p := limit - 1], m - 2) + nodes[m - 2].freq + nodes[m - 1].freq
  {
    hide InFrontier, Frontier, Sum, Pow2, Costs, Shares;
    LastPair(nodes, m);
    var p := nodes[m - 1].parent;
    var e := d[p := limit - 1];
    MergedFrontier(nodes, m);
    MergedWeights(nodes, d, m, limit);
    FrontierGrows(nodes, Costs(nodes, e), m);
    FrontierGrows(nodes, Shares(e, limit), m);
    MergedCost(nodes[m - 2].freq, nodes[m - 1].freq, limit);
  }

  /** The parent of the last pair is in the frontier only before the pair is; the other nodes stay in it. */
  lemma MergedFrontier(nodes: seq<Node>, m: nat)
    requires Linked(nodes) && Summed(nodes, 0) && 3 <= m <= |nodes| && m % 2 == 1
    ensures var p := nodes[m - 1].parent;
      && p < m - 2 && !InFrontier(nodes, m, p) && nodes[p].freq == nodes[m - 2].freq + nodes[m - 1].freq
      && forall i :: 0 <= i < m - 2 && InFrontier(nodes, m - 2, i) && i != p ==> InFrontier(nodes, m, i)
  {
    LastPair(nodes, m);
    var p := nodes[m - 1].parent;
    assert SumHolds(nodes, 0, p);
    forall i | 0 <= i < m - 2 && InFrontier(nodes, m - 2, i) && i != p ensures InFrontier(nodes, m, i) {
      assert ChildrenLinked(nodes, i);
    }
  }

  lemma SameFrontier(nodes: seq<Node>, v: seq<int>, w: seq<int>, m: nat, p: nat)
    requires m <= |nodes| == |v| == |w| && p < m && !InFrontier(nodes, m, p)
    requires forall i :: 0 <= i < |v| && i != p ==> v[i] == w[i]
    ensures Frontier(nodes, v, m) == Frontier(nodes, w, m)
  {
    hide InFrontier;
  }

  /** What the pair and its parent weigh before and after the merge. */
  lemma MergedWeights(nodes: seq<Node>, d: seq<nat>, m: nat, limit: nat)
    requires 3 <= m <= |nodes| == |d| && limit > 0 && d[m - 1] == d[m - 2] == limit
    requires var p := nodes[m - 1].parent; p < m - 2 && !InFrontier(nodes, m, p)
    ensures var p := nodes[m - 1].parent;
      var e := d[p := limit - 1];
      && Frontier(nodes, Costs(nodes, e), m) == Frontier(nodes, Costs(nodes, d), m)
      && Frontier(nodes, Shares(e, limit), m) == Frontier(nodes, Shares(d, limit), m)
      && |Costs(nodes, e)| == |Costs(nodes, d)| == |Shares(e, limit)| == |Shares(d, limit)| == |nodes|
      && Shares(e, limit)[p] == 2 && Shares(e, limit)[m - 2] == Shares(e, limit)[m - 1] == 1
      && Costs(nodes, e)[p] == nodes[p].freq * (limit - 1)
      && Costs(nodes, e)[m - 2] == nodes[m - 2].freq * limit && Costs(nodes, e)[m - 1] == nodes[m - 1].freq * limit
  {
    hide InFrontier, Frontier, Sum;
    var p := nodes[m - 1].parent;
    var e := d[p := limit - 1];
    SameFrontier(nodes, Costs(nodes, e), Costs(nodes, d), m, p);
    SameFrontier(nodes, Shares(e, limit), Shares(d, limit), m, p);
    assert Pow2(0) == 1 && Pow2(1) == 2;
  }

  lemma MergedCost(a: nat, b: nat, limit: nat)
    requires limit > 0
    ensures (a + b) * (limit - 1) + a + b == a * limit + b * limit
  {
  }

  /** With two frontier nodes at the limit, the last pair (the lightest nodes) can be brought there. */
  lemma SinkLast(nodes: seq<Node>, d: seq<nat>, m: nat, limit: nat, x: nat, y: nat) returns (e: seq<nat>)
    requires Linked(nodes) && Ordered(nodes) && 3 <= m <= |nodes| && m % 2 == 1
    requires KraftAt(nodes, d, m, limit) && x != y && AtLimit(nodes, d, m, limit, x) && AtLimit(nodes, d, m, limit, y)
    ensures KraftAt(nodes, e, m, limit) && e[m - 1] == e[m - 2] == limit && CostAt(nodes, e, m) <= CostAt(nodes, d, m)
  {
    assert ChildrenLinked(nodes, m - 1) && ChildrenLinked(nodes, m - 2);
    var second := if x == m - 1 || (d[m - 1] < limit && x != m - 2) then y else x;
    e := d;
    if d[m - 1] < limit {
      var first := if second == y then x else y;
      Exchange(nodes, d, m, limit, m - 1, first);
      e := Swap(d, m - 1, first);
    }
    if e[m - 2] < limit {
      Exchange(nodes, e, m, limit, m - 2, second);
      e := Swap(e, m - 2, second);
    }
  }

  lemma {:induction false} SumNonNegative(s: seq<int>)
    requires forall i :: 0 <= i < |s| ==> s[i] >= 0
    ensures Sum(s) >= 0
  {
    if s != [] { SumNonNegative(s[..|s| - 1]); }
  }

  ghost predicate TwoAtLimit(nodes: seq<Node>, d: seq<nat>, m: nat, limit: nat)
    requires m <= |nodes| == |d|
  {
    exists x: nat, y: nat :: x != y && AtLimit(nodes, d, m, limit, x) && AtLimit(nodes, d, m, limit, y)
  }

  /** Two nodes at the limit: sink the last pair there, and merge it. */
  lemma MergeStep(t: ValidTree, d: seq<nat>, m: nat, limit: nat) returns (e: seq<nat>)
    requires 3 <= m <= |t.nodes| && m % 2 == 1 && limit > 0
    requires KraftAt(t.nodes, d, m, limit) && TwoAtLimit(t.nodes, d, m, limit)
    ensures KraftAt(t.nodes, e, m - 2, limit)
    ensures CostAt(t.nodes, e, m - 2) + OwnCost(t.nodes, m) <= CostAt(t.nodes, d, m) + OwnCost(t.nodes, m - 2)
  {
    var x: nat, y: nat :| x != y && AtLimit(t.nodes, d, m, limit, x) && AtLimit(t.nodes, d, m, limit, y);
    var c := SinkLast(t.nodes, d, m, limit, x, y);
    MergeLast(t.nodes, c, m, limit);
    OwnCostGrows(t.nodes, m);
    e := c[t.nodes[m - 1].parent := limit - 1];
  }

  /** At most one node at the limit: nothing is lost by lowering the limit. */
  lemma LowerStep(nodes: seq<Node>, d: seq<nat>, m: nat, limit: nat) returns (e: seq<nat>)
    requires KraftAt(nodes, d, m, limit) && limit > 0 && !TwoAtLimit(nodes, d, m, limit)
    ensures KraftAt(nodes, e, m, limit - 1) && CostAt(nodes, e, m) <= CostAt(nodes, d, m)
  {
    e := d;
    if x: nat :| AtLimit(nodes, d, m, limit, x) {
      e := RaiseLonely(nodes, d, m, limit, x);
    }
    LowerLimit(nodes, e, m, limit);
  }

  /** At limit zero Kraft's inequality leaves room for one node only. */
  lemma NoRoomAtZero(t: ValidTree, d: seq<nat>, m: nat)
    requires 3 <= m <= |t.nodes| == |d| && m % 2 == 1
    requires forall i :: 0 <= i < m && InFrontier(t.nodes, m, i) ==> d[i] == 0
    ensures Sum(Frontier(t.nodes, Shares(d, 0), m)) >= 2
  {
    FrontierSize(t.nodes, m);
    assert Frontier(t.nodes, seq(|t.nodes|, _ => 1), m) == Frontier(t.nodes, Shares(d, 0), m);
  }

  lemma SmallestIsOptimal(t: ValidTree, d: seq<nat>, m: nat, limit: nat)
    requires 1 <= m <= |t.nodes| && m % 2 == 1 && KraftAt(t.nodes, d, m, limit) && (m == 1 || limit == 0)
    ensures OwnCost(t.nodes, m) <= CostAt(t.nodes, d, m)
  {
    if m == 1 {
      SumNonNegative(Frontier(t.nodes, Costs(t.nodes, d), m));
    } else {
      NoRoomAtZero(t, d, m);
    }
  }

  /** No depths that satisfy Kraft's inequality on the frontier at m beat the tree cut at m. */
  lemma {:induction false} FrontierIsOptimal(t: ValidTree, d: seq<nat>, m: nat, limit: nat)
    requires 1 <= m <= |t.nodes| && m % 2 == 1 && KraftAt(t.nodes, d, m, limit)
    ensures OwnCost(t.nodes, m) <= CostAt(t.nodes, d, m)
    decreases m, limit
  {
    if m == 1 || limit == 0 {
      SmallestIsOptimal(t, d, m, limit);
    } else if TwoAtLimit(t.nodes, d, m, limit) {
      var e := MergeStep(t, d, m, limit);
      FrontierIsOptimal(t, e, m - 2, limit);
    } else {
      var e := LowerStep(t.nodes, d, m, limit);
      FrontierIsOptimal(t, e, m, limit - 1);
    }
  }

  // ---- the statement about codes

  /** The length of each symbol's code. */
  ghost function CodeLengths(t: ValidTree): seq<nat> {
    seq(|t.leaves|, v requires 0 <= v < |t.leaves| => |Code(t, v)|)
  }

  /** The bits needed to write every symbol as often as it has been counted, with codes of the given lengths. */
  ghost function WrittenBits(t: ValidTree, lens: seq<nat>): int
    requires |lens| == |t.leaves|
  {
    Sum(seq(|lens|, v requires 0 <= v < |lens| => Count(t, v) * lens[v]))
  }

  /** Kraft's inequality: the sum of 2^-len is at most one. */
  ghost predicate Kraft(lens: seq<nat>, limit: nat) {
    && (forall v :: 0 <= v < |lens| ==> lens[v] <= limit)
    && Sum(seq(|lens|, v requires 0 <= v < |lens| => if lens[v] <= limit then Pow2(limit - lens[v]) else 0)) <= Pow2(limit)
  }

  ghost function NodeDepth(t: ValidTree, i: nat): nat
    requires i < |t.nodes|
  {
    |Path(t.nodes, i)|
  }

  ghost function NodeDepths(t: ValidTree): seq<nat> {
    seq(|t.nodes|, i requires 0 <= i < |t.nodes| => NodeDepth(t, i))
  }

  lemma PairCost(a: nat, b: nat, k: nat)
    ensures (a + b) * k + a + b == a * (k + 1) + b * (k + 1)
  {
  }

  lemma LastPairDepth(t: ValidTree, m: nat)
    requires 3 <= m <= |t.nodes| && m % 2 == 1
    ensures t.nodes[m - 1].parent < m - 2
    ensures NodeDepth(t, m - 1) == NodeDepth(t, m - 2) == NodeDepth(t, t.nodes[m - 1].parent) + 1
  {
    LastPair(t.nodes, m);
  }

  lemma PairSum(t: ValidTree, m: nat)
    requires 3 <= m <= |t.nodes| && m % 2 == 1
    ensures var p := t.nodes[m - 1].parent; p < m - 2 && t.nodes[p].freq == t.nodes[m - 2].freq + t.nodes[m - 1].freq
  {
    LastPair(t.nodes, m);
    assert SumHolds(t.nodes, 0, t.nodes[m - 1].parent);
  }

  lemma OwnCostOfRoot(t: ValidTree)
    ensures |t.nodes| > 0 && CostAt(t.nodes, NodeDepths(t), 1) == OwnCost(t.nodes, 1)
  {
    assert Frontier(t.nodes, Costs(t.nodes, NodeDepths(t)), 1) == [0];
  }

  /** The cost of a cut tree at its own depths is the sum of its counts below the root. */
  lemma {:induction false} OwnDepthsCost(t: ValidTree, m: nat)
    requires 1 <= m <= |t.nodes| && m % 2 == 1
    ensures CostAt(t.nodes, NodeDepths(t), m) == OwnCost(t.nodes, m)
  {
    hide Valid, Linked, Frontier, NodeDepth, OwnCost;
    ValidIsLinked(t);
    var w := Costs(t.nodes, NodeDepths(t));
    if m == 1 {
      OwnCostOfRoot(t);
    } else {
      OwnDepthsCost(t, m - 2);
      OwnCostGrows(t.nodes, m);
      FrontierGrows(t.nodes, w, m);
      LastPair(t.nodes, m);
      LastPairDepth(t, m);
      var p, a, b := t.nodes[m - 1].parent, t.nodes[m - 2].freq, t.nodes[m - 1].freq;
      PairSum(t, m);
      PairCost(a, b, NodeDepth(t, p));
      assert w[p] == (a + b) * NodeDepth(t, p);
    }
  }

  /** Depths by node from lengths by value. */
  ghost function ByNodeDepths(t: ValidTree, lens: seq<nat>): seq<nat>
    requires |lens| == |t.leaves|
  {
    seq(|t.nodes|, i requires 0 <= i < |t.nodes| =>
      if t.nodes[i].entry.Leaf? && t.nodes[i].entry.value < |lens| then lens[t.nodes[i].entry.value] else 0)
  }

  /** Sums over symbols as sums over the whole frontier. */
  lemma SymbolSums(t: ValidTree, lens: seq<nat>, limit: nat)
    requires |lens| == |t.leaves|
    ensures WrittenBits(t, lens) == CostAt(t.nodes, ByNodeDepths(t, lens), |t.nodes|)
    ensures Kraft(lens, limit) ==> KraftAt(t.nodes, ByNodeDepths(t, lens), |t.nodes|, limit)
  {
    var d := ByNodeDepths(t, lens);
    var n := |t.leaves|;
    forall v | 0 <= v < n ensures ValueIndexed(t.nodes, t.leaves, v) && d[t.leaves[v]] == lens[v] {
      assert ValueIndexed(t.nodes, t.leaves, v);
    }
    LeafSum(t, Costs(t.nodes, d));
    assert ByValue(t, Costs(t.nodes, d), n) == seq(n, v requires 0 <= v < n => Count(t, v) * lens[v]);
    LeafSum(t, Shares(d, limit));
    assert ByValue(t, Shares(d, limit), n) ==
      seq(n, v requires 0 <= v < n => if lens[v] <= limit then Pow2(limit - lens[v]) else 0);
    if Kraft(lens, limit) {
      forall i | 0 <= i < |t.nodes| && InFrontier(t.nodes, |t.nodes|, i) ensures d[i] <= limit {
        assert ChildrenLinked(t.nodes, i) && LeafIndexed(t.nodes, t.leaves, i);
      }
    }
  }

  /**
    The adaptive tree is an optimal code for its counts: code lengths that satisfy Kraft's inequality never
    write the counted symbols in fewer bits.
   */
  lemma CodeIsOptimal(t: ValidTree, lens: seq<nat>, limit: nat)
    requires |lens| == |t.leaves| && Kraft(lens, limit)
    ensures WrittenBits(t, CodeLengths(t)) <= WrittenBits(t, lens)
  {
    SymbolSums(t, lens, limit);
    FrontierIsOptimal(t, ByNodeDepths(t, lens), |t.nodes|, limit);
    OwnDepthsCost(t, |t.nodes|);
    SymbolSums(t, CodeLengths(t), 0);
    var d, own := ByNodeDepths(t, CodeLengths(t)), NodeDepths(t);
    assert Frontier(t.nodes, Costs(t.nodes, d), |t.nodes|) == Frontier(t.nodes, Costs(t.nodes, own), |t.nodes|) by {
      forall i | 0 <= i < |t.nodes|
        ensures InFrontier(t.nodes, |t.nodes|, i) ==> d[i] == own[i]
      {
        assert ChildrenLinked(t.nodes, i) && LeafIndexed(t.nodes, t.leaves, i);
      }
    }
  }
}
