/**
  Cutting the node array after an odd number m of nodes leaves a smaller tree whose leaves, the frontier at m,
  are the nodes without children before m. Sums over a frontier change in a simple way from m - 2 to m.
 */
module DynTreeSums {
  import opened Sums
  import opened TreeEntries
  import opened DynTree

  ghost predicate InFrontier(nodes: seq<Node>, m: nat, i: nat)
    requires i < |nodes|
  {
    nodes[i].entry.Leaf? || nodes[i].entry.child >= m
  }

  /** The weights w of the frontier at m, zero elsewhere. */
  ghost function Frontier(nodes: seq<Node>, w: seq<int>, m: nat): seq<int>
    requires m <= |nodes| == |w|
  {
    seq(m, i requires 0 <= i < m => if InFrontier(nodes, m, i) then w[i] else 0)
  }

  /** Nodes m - 2 and m - 1 are the children of one node of the frontier at m - 2. */
  lemma LastPair(nodes: seq<Node>, m: nat)
    requires Linked(nodes) && 3 <= m <= |nodes| && m % 2 == 1
    ensures var p := nodes[m - 1].parent; p < m - 2 && nodes[m - 2].parent == p && nodes[p].entry == Branch(m - 1)
  {
    assert ParentLinked(nodes, m - 1);
    assert ChildrenLinked(nodes, nodes[m - 1].parent);
  }

  lemma FrontierGrows(nodes: seq<Node>, w: seq<int>, m: nat)
    requires Linked(nodes) && 3 <= m <= |nodes| == |w| && m % 2 == 1
    ensures nodes[m - 1].parent < m - 2
    ensures var p := nodes[m - 1].parent;
      Sum(Frontier(nodes, w, m)) == Sum(Frontier(nodes, w, m - 2)) - w[p] + w[m - 2] + w[m - 1]
  {
    var p := nodes[m - 1].parent;
    LastPair(nodes, m);
    var f := Frontier(nodes, w, m - 2);
    var g := f[p := 0];
    assert Frontier(nodes, w, m) == (g + [w[m - 2]]) + [w[m - 1]] by {
      forall i | 0 <= i < m ensures Frontier(nodes, w, m)[i] == (g + [w[m - 2]] + [w[m - 1]])[i] {
        assert ChildrenLinked(nodes, i);
        assert ChildrenLinked(nodes, p);
      }
    }
    SumUpdate(f, p, 0);
    SumSnoc(g, w[m - 2]);
    SumSnoc(g + [w[m - 2]], w[m - 1]);
  }

  ghost function Freqs(nodes: seq<Node>): seq<int> {
    seq(|nodes|, i requires 0 <= i < |nodes| => nodes[i].freq)
  }

  /** Every frontier carries the whole count of the root. */
  lemma {:induction false} FrontierCarriesRoot(nodes: seq<Node>, m: nat)
    requires Linked(nodes) && Summed(nodes, 0) && 1 <= m <= |nodes| && m % 2 == 1
    ensures Sum(Frontier(nodes, Freqs(nodes), m)) == nodes[0].freq
  {
    var f := Frontier(nodes, Freqs(nodes), m);
    if m == 1 {
      assert ChildrenLinked(nodes, 0);
      assert f == [nodes[0].freq];
    } else {
      FrontierCarriesRoot(nodes, m - 2);
      FrontierGrows(nodes, Freqs(nodes), m);
      LastPair(nodes, m);
      assert SumHolds(nodes, 0, nodes[m - 1].parent);
    }
  }

  /** The frontier at m has (m + 1) / 2 nodes. */
  lemma {:induction false} FrontierSize(nodes: seq<Node>, m: nat)
    requires Linked(nodes) && 1 <= m <= |nodes| && m % 2 == 1
    ensures Sum(Frontier(nodes, seq(|nodes|, _ => 1), m)) == (m + 1) / 2
  {
    var ones := seq(|nodes|, _ => 1);
    if m == 1 {
      assert ChildrenLinked(nodes, 0);
      assert Frontier(nodes, ones, m) == [1];
    } else {
      FrontierSize(nodes, m - 2);
      FrontierGrows(nodes, ones, m);
    }
  }

  /** The weights of the leaves, in the order of their values. */
  ghost function ByValue(t: Tree, w: seq<int>, n: nat): seq<int>
    requires Indexed(t.nodes, t.leaves) && |w| == |t.nodes| && n <= |t.leaves|
  {
    seq(n, v requires 0 <= v < n => assert ValueIndexed(t.nodes, t.leaves, v); w[t.leaves[v]])
  }

  /** The weights of the leaves with values below n, in the order of their nodes. */
  ghost function ByNode(t: Tree, w: seq<int>, n: nat): seq<int>
    requires |w| == |t.nodes|
  {
    seq(|w|, i requires 0 <= i < |w| =>
      if t.nodes[i].entry.Leaf? && t.nodes[i].entry.value < n then w[i] else 0)
  }

  lemma {:induction false} SumByValueIsByNode(t: Tree, w: seq<int>, n: nat)
    requires Indexed(t.nodes, t.leaves) && |w| == |t.nodes| && n <= |t.leaves|
    ensures Sum(ByValue(t, w, n)) == Sum(ByNode(t, w, n))
  {
    if n == 0 {
      ZeroSum(ByNode(t, w, 0));
    } else {
      var i := t.leaves[n - 1];
      assert ValueIndexed(t.nodes, t.leaves, n - 1);
      SumByValueIsByNode(t, w, n - 1);
      assert ByValue(t, w, n)[..n - 1] == ByValue(t, w, n - 1);
      var before := ByNode(t, w, n - 1);
      assert ByNode(t, w, n) == before[i := w[i]] by {
        forall k | 0 <= k < |w| ensures ByNode(t, w, n)[k] == before[i := w[i]][k] {
          assert LeafIndexed(t.nodes, t.leaves, k);
        }
      }
      SumUpdate(before, i, w[i]);
    }
  }

  /** Summing over leaf values is summing over the last frontier. */
  lemma LeafSum(t: Tree, w: seq<int>)
    requires Linked(t.nodes) && Indexed(t.nodes, t.leaves) && |w| == |t.nodes|
    ensures Sum(ByValue(t, w, |t.leaves|)) == Sum(Frontier(t.nodes, w, |t.nodes|))
  {
    var n := |t.leaves|;
    SumByValueIsByNode(t, w, n);
    assert ByNode(t, w, n) == Frontier(t.nodes, w, |t.nodes|) by {
      forall i | 0 <= i < |w| ensures ByNode(t, w, n)[i] == Frontier(t.nodes, w, |t.nodes|)[i] {
        assert ChildrenLinked(t.nodes, i) && LeafIndexed(t.nodes, t.leaves, i);
      }
    }
  }

  /** The counts of the leaf values. */
  ghost function Counts(t: Tree): seq<int>
    requires Indexed(t.nodes, t.leaves)
  {
    ByValue(t, Freqs(t.nodes), |t.leaves|)
  }

  lemma CountsAt(t: Tree, v: nat)
    requires Indexed(t.nodes, t.leaves) && v < |t.leaves|
    ensures Counts(t)[v] == Count(t, v)
  {
    assert ValueIndexed(t.nodes, t.leaves, v);
  }

  /** The root counts every symbol once. */
  lemma RootIsTotal(t: Tree)
    requires Valid(t)
    ensures t.nodes[0].freq == Sum(Counts(t))
  {
    LeafSum(t, Freqs(t.nodes));
    FrontierCarriesRoot(t.nodes, |t.nodes|);
  }
}
