/** Why counts, leaf order and the rules for ties leave no choice: a rebuilt tree is the only one. */
module DynTreeUnique {
  import opened TreeEntries
  import opened DynTree
  import opened DynTreeRebuild

  /** Ties between leaves and branches are broken, and branches are in the order of their children. */
  ghost predicate Tidy(nodes: seq<Node>) {
    TiesBroken(nodes, 0)
  }

  /** A tree without its groups. */
  ghost predicate Sound(t: Tree) {
    && |t.nodes| == 2 * |t.leaves| - 1
    && Linked(t.nodes) && Indexed(t.nodes, t.leaves) && Ordered(t.nodes) && Summed(t.nodes, 0) && Tidy(t.nodes)
  }

  /** The same counts, and the same order of leaves. */
  ghost predicate Alike(a: Tree, b: Tree)
    requires Sound(a) && Sound(b)
  {
    && |a.leaves| == |b.leaves|
    && (forall v :: 0 <= v < |a.leaves| ==> Count(a, v) == Count(b, v))
    && (forall v, w :: 0 <= v < |a.leaves| && 0 <= w < |a.leaves| ==>
          (a.leaves[v] < a.leaves[w] <==> b.leaves[v] < b.leaves[w]))
  }

  /** From index k on, the nodes agree in entry and count. */
  ghost predicate SameFrom(a: seq<Node>, b: seq<Node>, k: nat) {
    && |a| == |b|
    && forall i {:trigger a[i]} {:trigger b[i]} :: k <= i < |a| ==> a[i].entry == b[i].entry && a[i].freq == b[i].freq
  }

  /** A leaf that is one tree's node k lies before k in the other tree, unless it is node k there too. */
  lemma LeafLiesBefore(a: Tree, b: Tree, k: nat, v: nat)
    requires Sound(a) && Sound(b) && |a.leaves| == |b.leaves| && SameFrom(a.nodes, b.nodes, k + 1)
    requires k < |a.nodes| && v < |a.leaves| && a.nodes[k].entry == Leaf(v)
    ensures b.leaves[v] <= k && b.nodes[b.leaves[v]].entry == Leaf(v) && a.leaves[v] == k
  {
    assert LeafIndexed(a.nodes, a.leaves, k) && ValueIndexed(b.nodes, b.leaves, v);
    assert LeafIndexed(a.nodes, a.leaves, b.leaves[v]);
  }

  /** The same for the branch over a pair. */
  lemma BranchLiesBefore(a: Tree, b: Tree, k: nat, c: nat) returns (p: nat)
    requires Sound(a) && Sound(b) && SameFrom(a.nodes, b.nodes, k + 1)
    requires k < |a.nodes| && a.nodes[k].entry == Branch(c)
    ensures p <= k && b.nodes[p].entry == Branch(c) && k + 1 < c < |a.nodes|
    ensures b.nodes[p].freq == a.nodes[k].freq
  {
    assert ChildrenLinked(a.nodes, k) && SumHolds(a.nodes, 0, k);
    assert ParentLinked(b.nodes, c);
    p := b.nodes[c].parent;
    assert SumHolds(b.nodes, 0, p);
    if a.nodes[p].entry == Branch(c) { OneParent(a.nodes, k, p); }
  }

  lemma OneParent(nodes: seq<Node>, i: nat, j: nat)
    requires Linked(nodes) && i < |nodes| && j < |nodes| && nodes[i].entry.Branch? && nodes[i].entry == nodes[j].entry
    ensures i == j
  {
    assert ChildrenLinked(nodes, i) && ChildrenLinked(nodes, j);
  }

  lemma Descending(nodes: seq<Node>, i: nat, j: nat)
    requires Ordered(nodes) && i <= j < |nodes|
    ensures nodes[j].freq <= nodes[i].freq
  {
  }

  lemma TidyAt(nodes: seq<Node>, i: nat, j: nat)
    requires Tidy(nodes) && i < |nodes| && j < |nodes|
    ensures TieHolds(nodes, i, j) && BranchesInOrder(nodes, i, j)
  {
  }

  lemma CountAt(t: Tree, v: nat)
    requires Indexed(t.nodes, t.leaves) && v < |t.leaves|
    ensures t.leaves[v] < |t.nodes| && Count(t, v) == t.nodes[t.leaves[v]].freq
  {
    assert ValueIndexed(t.nodes, t.leaves, v);
  }

  /** No node is a branch in one tree and a leaf in the other. */
  lemma KindsAgree(a: Tree, b: Tree, k: nat)
    requires Sound(a) && Sound(b) && Alike(a, b) && k < |a.nodes| == |b.nodes| && SameFrom(a.nodes, b.nodes, k + 1)
    ensures !(a.nodes[k].entry.Branch? && b.nodes[k].entry.Leaf?)
  {
    hide Linked, Ordered, Summed, Tidy, SameFrom, Count;
    if a.nodes[k].entry.Branch? && b.nodes[k].entry.Leaf? {
      var v := b.nodes[k].entry.value;
      assert LeafIndexed(b.nodes, b.leaves, k);
      var p := BranchLiesBefore(a, b, k, a.nodes[k].entry.child);
      SameFromCommutes(a.nodes, b.nodes, k + 1);
      LeafLiesBefore(b, a, k, v);
      CountAt(a, v);
      CountAt(b, v);
      assert Count(a, v) == Count(b, v);
      Descending(b.nodes, p, k);
      Descending(a.nodes, a.leaves[v], k);
      TidyAt(a.nodes, a.leaves[v], k);
      assert false;
    }
  }

  lemma SameFromCommutes(a: seq<Node>, b: seq<Node>, k: nat)
    requires SameFrom(a, b, k)
    ensures SameFrom(b, a, k)
  {
  }

  lemma LeavesAgree(a: Tree, b: Tree, k: nat)
    requires Sound(a) && Sound(b) && Alike(a, b) && k < |a.nodes| == |b.nodes| && SameFrom(a.nodes, b.nodes, k + 1)
    requires a.nodes[k].entry.Leaf? && b.nodes[k].entry.Leaf?
    ensures a.nodes[k].entry == b.nodes[k].entry && a.nodes[k].freq == b.nodes[k].freq
  {
    hide Linked, Ordered, Summed, Tidy, SameFrom, Count;
    var v, w := a.nodes[k].entry.value, b.nodes[k].entry.value;
    assert LeafIndexed(a.nodes, a.leaves, k) && LeafIndexed(b.nodes, b.leaves, k);
    LeafLiesBefore(a, b, k, v);
    SameFromCommutes(a.nodes, b.nodes, k + 1);
    LeafLiesBefore(b, a, k, w);
    CountAt(a, v);
    CountAt(b, v);
    assert a.leaves[w] < a.leaves[v] <==> b.leaves[w] < b.leaves[v];
    assert Count(a, v) == Count(b, v);
  }

  lemma ChildAtMost(a: Tree, b: Tree, k: nat)
    requires Sound(a) && Sound(b) && k < |a.nodes| == |b.nodes| && SameFrom(a.nodes, b.nodes, k + 1)
    requires a.nodes[k].entry.Branch? && b.nodes[k].entry.Branch?
    ensures a.nodes[k].entry.child <= b.nodes[k].entry.child
  {
    hide Linked, Indexed, Ordered, Summed, Tidy, SameFrom;
    var p := BranchLiesBefore(a, b, k, a.nodes[k].entry.child);
    TidyAt(b.nodes, p, k);
  }

  lemma BranchesAgree(a: Tree, b: Tree, k: nat)
    requires Sound(a) && Sound(b) && k < |a.nodes| == |b.nodes| && SameFrom(a.nodes, b.nodes, k + 1)
    requires a.nodes[k].entry.Branch? && b.nodes[k].entry.Branch?
    ensures a.nodes[k].entry == b.nodes[k].entry && a.nodes[k].freq == b.nodes[k].freq
  {
    hide Sound;
    SameFromCommutes(a.nodes, b.nodes, k + 1);
    ChildAtMost(a, b, k);
    ChildAtMost(b, a, k);
    BranchSumsAgree(a, b, k);
  }

  lemma BranchSumsAgree(a: Tree, b: Tree, k: nat)
    requires Sound(a) && Sound(b) && k < |a.nodes| == |b.nodes| && SameFrom(a.nodes, b.nodes, k + 1)
    requires a.nodes[k].entry.Branch? && a.nodes[k].entry == b.nodes[k].entry
    ensures a.nodes[k].freq == b.nodes[k].freq
  {
    assert ChildrenLinked(a.nodes, k) && SumHolds(a.nodes, 0, k) && SumHolds(b.nodes, 0, k);
  }

  lemma {:induction false} NodesAgree(a: Tree, b: Tree, k: nat)
    requires Sound(a) && Sound(b) && Alike(a, b) && k <= |a.nodes| == |b.nodes|
    ensures SameFrom(a.nodes, b.nodes, k)
    decreases |a.nodes| - k
  {
    hide Sound, Alike;
    if k < |a.nodes| {
      NodesAgree(a, b, k + 1);
      KindsAgree(a, b, k);
      AlikeCommutes(a, b);
      SameFromCommutes(a.nodes, b.nodes, k + 1);
      KindsAgree(b, a, k);
      if a.nodes[k].entry.Leaf? {
        LeavesAgree(a, b, k);
      } else {
        BranchesAgree(a, b, k);
      }
    }
  }

  lemma AlikeCommutes(a: Tree, b: Tree)
    requires Sound(a) && Sound(b) && Alike(a, b)
    ensures Alike(b, a)
  {
    hide Linked, Indexed, Ordered, Summed, Tidy, Count;
  }

  lemma ParentsAgree(a: Tree, b: Tree, i: nat)
    requires Sound(a) && Sound(b) && i < |a.nodes| == |b.nodes| && SameFrom(a.nodes, b.nodes, 0)
    ensures a.nodes[i].parent == b.nodes[i].parent
  {
    if i > 0 {
      var p := a.nodes[i].parent;
      assert ParentLinked(a.nodes, i) && ChildrenLinked(b.nodes, p);
    }
  }

  /**
    Two valid trees with the same counts and the same order of leaves, in which ties are broken and branches ordered
    as a rebuild does it, are the same but for the ids of groups.
   */
  lemma TidyTreeIsUnique(a: Tree, b: Tree)
    requires Sound(a) && Sound(b) && Alike(a, b)
    ensures a.leaves == b.leaves && |a.nodes| == |b.nodes|
    ensures forall i :: 0 <= i < |a.nodes| ==> a.nodes[i] == b.nodes[i].(group := a.nodes[i].group)
  {
    NodesAgree(a, b, 0);
    forall i | 0 <= i < |a.nodes| ensures a.nodes[i] == b.nodes[i].(group := a.nodes[i].group) {
      ParentsAgree(a, b, i);
    }
    forall v | 0 <= v < |a.leaves| ensures a.leaves[v] == b.leaves[v] {
      assert ValueIndexed(a.nodes, a.leaves, v) && LeafIndexed(b.nodes, b.leaves, a.leaves[v]);
    }
  }

  /**
    The rebuilt tree is determined: any valid tree with halved counts and the old order of leaves, in which a branch
    comes before every leaf of the same count and branches are in the order of their children, is the rebuilt one.
   */
  lemma RebuildIsUnique(t: Tree, s: Tree)
    requires Valid(t) && Valid(s) && |s.leaves| == |t.leaves|
    requires forall v :: 0 <= v < |t.leaves| ==> Count(s, v) == (Count(t, v) + 1) / 2
    requires forall v, w :: 0 <= v < |t.leaves| && 0 <= w < |t.leaves| ==>
      (s.leaves[v] < s.leaves[w] <==> t.leaves[v] < t.leaves[w])
    requires forall i, j :: 0 <= i < |s.nodes| && 0 <= j < |s.nodes| ==>
      TieHolds(s.nodes, i, j) && BranchesInOrder(s.nodes, i, j)
    ensures var r := Rebuild(t);
      && s.leaves == r.leaves && |s.nodes| == |r.nodes|
      && forall i :: 0 <= i < |s.nodes| ==> s.nodes[i] == r.nodes[i].(group := s.nodes[i].group)
  {
    hide Rebuild, Grouped, Pooled, Linked, Ordered, Summed, Count;
    var r := Rebuild(t);
    RebuildIsTree(t);
    forall i, j | 0 <= i < |r.nodes| && 0 <= j < |r.nodes|
      ensures TieHolds(r.nodes, i, j) && BranchesInOrder(r.nodes, i, j)
    {
      RebuildBreaksTies(t, i, j);
    }
    forall v | 0 <= v < |t.leaves| ensures Count(s, v) == Count(r, v) {
      RebuildHalves(t, v);
    }
    forall v, w | 0 <= v < |t.leaves| && 0 <= w < |t.leaves|
      ensures s.leaves[v] < s.leaves[w] <==> r.leaves[v] < r.leaves[w]
    {
      RebuildKeepsOrder(t, v, w);
    }
    assert Sound(r) && Sound(s);
    TidyTreeIsUnique(s, r);
  }
}
