/** The adaptive Huffman tree of `-lh1-` as a value: its layout, and what makes it well-formed. */
module DynTree {
  import opened TreeEntries

  /** The root count at which the tree is rebuilt with halved counts. */
  const REORDER_LIMIT: nat := 32 * 1024

  /** The largest leaf count whose node indices still fit the 15-bit entries. */
  const MAX_LEAVES: nat := 16384

  datatype Node = Node(entry: Entry, freq: nat, parent: nat, group: nat)

  /** Frequency groups: `ids[used..]` are the free group ids, `leaders[g]` is the first node of group g. */
  datatype Groups = Groups(used: nat, ids: seq<nat>, leaders: seq<nat>)

  datatype Tree = Tree(nodes: seq<Node>, leaves: seq<nat>, groups: Groups)

  /** The upper (even) index of the sibling pair that holds node i > 0. */
  function Pair(i: nat): nat {
    if i % 2 == 0 then i else i + 1
  }

  ghost predicate Sized(t: Tree) {
    && 2 <= |t.leaves| <= MAX_LEAVES
    && |t.nodes| == 2 * |t.leaves| - 1
    && |t.groups.ids| == |t.groups.leaders| == |t.nodes|
  }

  /** A branch at i sits before its two children, which point back to it. */
  ghost predicate ChildrenLinked(nodes: seq<Node>, i: nat)
    requires i < |nodes|
  {
    nodes[i].entry.Branch? ==>
      var c := nodes[i].entry.child;
      c % 2 == 0 && i + 1 < c < |nodes| && nodes[c].parent == i && nodes[c - 1].parent == i
  }

  /** The parent of node i precedes it and is the branch over its sibling pair. */
  ghost predicate ParentLinked(nodes: seq<Node>, i: nat)
    requires i < |nodes|
  {
    nodes[i].parent < i && nodes[nodes[i].parent].entry == Branch(Pair(i))
  }

  /** Children and parents are inverse to each other, and every parent precedes both of its children. */
  ghost predicate Linked(nodes: seq<Node>) {
    && |nodes| > 0
    && nodes[0].parent == 0
    && (forall i :: 0 <= i < |nodes| ==> ChildrenLinked(nodes, i))
    && (forall i :: 1 <= i < |nodes| ==> ParentLinked(nodes, i))
  }

  ghost predicate LeafIndexed(nodes: seq<Node>, leaves: seq<nat>, i: nat)
    requires i < |nodes|
  {
    nodes[i].entry.Leaf? ==> nodes[i].entry.value < |leaves| && leaves[nodes[i].entry.value] == i
  }

  ghost predicate ValueIndexed(nodes: seq<Node>, leaves: seq<nat>, v: nat)
    requires v < |leaves|
  {
    leaves[v] < |nodes| && nodes[leaves[v]].entry == Leaf(v)
  }

  /** The leaf index and the leaf entries are inverse to each other. */
  ghost predicate Indexed(nodes: seq<Node>, leaves: seq<nat>) {
    && (forall i :: 0 <= i < |nodes| ==> LeafIndexed(nodes, leaves, i))
    && (forall v :: 0 <= v < |leaves| ==> ValueIndexed(nodes, leaves, v))
  }

  /** Counts never increase with the index, and none is zero. */
  ghost predicate Ordered(nodes: seq<Node>) {
    && (forall i, j {:trigger nodes[i].freq, nodes[j].freq} :: 0 <= i <= j < |nodes| ==>
          nodes[j].freq <= nodes[i].freq)
    && (forall i {:trigger nodes[i].freq} :: 0 <= i < |nodes| ==> 1 <= nodes[i].freq)
  }

  /** A branch at i counts the sum of its children, up to the two exceptions of a walk at `cur`. */
  ghost predicate SumHolds(nodes: seq<Node>, cur: nat, i: nat)
    requires i < |nodes|
  {
    nodes[i].entry.Branch? ==>
      var c := nodes[i].entry.child;
      2 <= c < |nodes| &&
      nodes[c - 1].freq + nodes[c].freq + (if i == 0 && cur != 0 then 1 else 0)
        == nodes[i].freq + (if i == cur && cur != 0 then 1 else 0)
  }

  /**
    Every branch counts the sum of its children, except that during a leaf-to-root walk the branch `cur`
    about to be incremented is one short, and the root, incremented ahead of the walk, is one over.
    No walk is going on when `cur` is the root.
   */
  ghost predicate Summed(nodes: seq<Node>, cur: nat) {
    forall i :: 0 <= i < |nodes| ==> SumHolds(nodes, cur, i)
  }

  /** The leader of node i's group is the first node with its count. */
  ghost predicate LeaderHolds(nodes: seq<Node>, leaders: seq<nat>, i: nat)
    requires i < |nodes|
  {
    nodes[i].group < |leaders| && IsLeader(nodes, leaders[nodes[i].group], i)
  }

  /** Two nodes share a group exactly when their counts agree; a group's leader is its first node. */
  ghost predicate Grouped(nodes: seq<Node>, leaders: seq<nat>) {
    && (forall i, j {:trigger nodes[i].group, nodes[j].group} :: 0 <= i < |nodes| && 0 <= j < |nodes| ==>
          (nodes[i].group == nodes[j].group <==> nodes[i].freq == nodes[j].freq))
    && (forall i :: 0 <= i < |nodes| ==> LeaderHolds(nodes, leaders, i))
  }

  /** Node l is the first node with the count of node i. */
  ghost predicate IsLeader(nodes: seq<Node>, l: nat, i: nat)
    requires i < |nodes|
  {
    l <= i && nodes[l].freq == nodes[i].freq && (l == 0 || nodes[l - 1].freq > nodes[i].freq)
  }

  /** The group ids in use. */
  ghost function Live(nodes: seq<Node>): set<nat> {
    set i | 0 <= i < |nodes| :: nodes[i].group
  }

  /** The free group ids. */
  ghost function Free(g: Groups): set<nat> {
    set a | g.used <= a < |g.ids| :: g.ids[a]
  }

  /** The free suffix holds distinct ids below n, none of them live, and `used` counts the live ones. */
  ghost predicate PoolOf(used: nat, ids: seq<nat>, live: set<nat>, n: nat) {
    && used == |live|
    && (forall a, b :: used <= a < b < |ids| ==> ids[a] != ids[b])
    && (forall a :: used <= a < |ids| ==> ids[a] < n && ids[a] !in live)
  }

  ghost predicate Pooled(nodes: seq<Node>, g: Groups) {
    PoolOf(g.used, g.ids, Live(nodes), |nodes|)
  }

  /** What holds in the middle of a leaf-to-root walk that has reached node `cur`. */
  ghost predicate Walking(t: Tree, cur: nat) {
    && Sized(t)
    && Linked(t.nodes)
    && Indexed(t.nodes, t.leaves)
    && Ordered(t.nodes)
    && Summed(t.nodes, cur)
    && Grouped(t.nodes, t.groups.leaders)
    && Pooled(t.nodes, t.groups)
    && t.nodes[0].freq <= REORDER_LIMIT
    && cur < |t.nodes|
  }

  ghost predicate Valid(t: Tree) {
    Walking(t, 0)
  }

  /** The count of leaf value v. */
  ghost function Count(t: Tree, v: nat): nat
    requires Indexed(t.nodes, t.leaves) && v < |t.leaves|
  {
    assert ValueIndexed(t.nodes, t.leaves, v);
    t.nodes[t.leaves[v]].freq
  }

  /** The tree over two symbols, each counted once. */
  ghost const TWO_SYMBOLS: Tree :=
    Tree([Node(Branch(2), 2, 0, 1), Node(Leaf(1), 1, 0, 0), Node(Leaf(0), 1, 0, 0)], [2, 1],
         Groups(2, [0, 1, 2], [1, 0, 0]))

  lemma ChildrenInRange(nodes: seq<Node>, i: nat)
    requires Linked(nodes) && i < |nodes| && nodes[i].entry.Branch?
    ensures var c := nodes[i].entry.child; i + 1 < c < |nodes|
  {
    assert ChildrenLinked(nodes, i);
  }

  lemma TwoSymbolsAreLinked()
    ensures Linked(TWO_SYMBOLS.nodes) && Indexed(TWO_SYMBOLS.nodes, TWO_SYMBOLS.leaves)
  {
    var nodes := TWO_SYMBOLS.nodes;
    assert nodes[0].entry == Branch(2) && nodes[1].parent == 0 && nodes[2].parent == 0;
  }

  lemma TwoSymbolsAreGrouped()
    ensures Grouped(TWO_SYMBOLS.nodes, TWO_SYMBOLS.groups.leaders) && Pooled(TWO_SYMBOLS.nodes, TWO_SYMBOLS.groups)
  {
    var nodes := TWO_SYMBOLS.nodes;
    assert nodes[0].group == 1 && nodes[1].group == 0 && nodes[2].group == 0;
    assert Live(nodes) == {0, 1};
  }

  lemma TwoSymbolsAreSummed()
    ensures Ordered(TWO_SYMBOLS.nodes) && Summed(TWO_SYMBOLS.nodes, 0)
  {
  }

  lemma TwoSymbolsAreValid()
    ensures Valid(TWO_SYMBOLS)
  {
    TwoSymbolsAreSummed();
    TwoSymbolsAreLinked();
    TwoSymbolsAreGrouped();
  }

  type ValidTree = t: Tree | Valid(t) ghost witness (TwoSymbolsAreValid(); TWO_SYMBOLS)
}
