/** The initial tree: n leaves counted once each, paired from the end of the array down to the root. */
module DynTreeNew {
  import opened TreeEntries
  import opened DynTree
  import opened DynTreeSums
  import opened DynTreeRebuild

  /** Place the branch over the next pair; it opens a new group unless it weighs as much as the last branch. */
  function Grow(t: Tree, i: nat, lastFreq: nat, lastGroup: nat): (r: Tree)
    requires 2 * i + 2 < |t.nodes| && lastGroup < |t.groups.leaders|
    requires t.groups.used < |t.groups.ids|
  {
    var c := 2 * i + 2;
    var freq := t.nodes[c - 1].freq + t.nodes[c].freq;
    var nodes := t.nodes[c - 1 := t.nodes[c - 1].(parent := i)][c := t.nodes[c].(parent := i)];
    if freq != lastFreq then
      Tree(nodes[i := Node(Branch(c), freq, 0, t.groups.ids[t.groups.used])], t.leaves,
           Groups(t.groups.used + 1, t.groups.ids, t.groups.leaders[lastGroup := i + 1]))
    else
      t.(nodes := nodes[i := Node(Branch(c), freq, 0, lastGroup)])
  }

  /** Nodes from `from` on are in place, as a tree whose node i has the children 2i + 1 and 2i + 2. */
  ghost predicate HeapShaped(t: Tree, n: nat, from: nat) {
    && |t.leaves| == n && |t.nodes| == |t.groups.ids| == |t.groups.leaders| == 2 * n - 1 && from < n && 2 <= n
    && (forall v :: 0 <= v < n ==> t.leaves[v] == 2 * n - 2 - v)
    && (forall i {:trigger t.nodes[i].entry} :: from <= i < |t.nodes| ==>
          t.nodes[i].entry == if i < n - 1 then Branch(2 * i + 2) else Leaf(2 * n - 2 - i))
    && (forall i {:trigger t.nodes[i].parent} :: 0 <= i < |t.nodes| ==>
          t.nodes[i].parent == if i <= 2 * from then 0 else (i - 1) / 2)
  }

  ghost predicate HeapCounted(nodes: seq<Node>, n: nat, from: nat) {
    && |nodes| == 2 * n - 1 && from < n
    && (forall i {:trigger nodes[i].entry} :: n - 1 <= i < |nodes| ==> nodes[i].freq == 1)
    && (forall i {:trigger nodes[i].entry} :: from <= i < n - 1 ==>
          nodes[i].freq == nodes[2 * i + 1].freq + nodes[2 * i + 2].freq)
    && (forall i, j {:trigger nodes[i].freq, nodes[j].freq} :: from <= i <= j < |nodes| ==>
          1 <= nodes[j].freq <= nodes[i].freq)
  }

  /** Node i's leader is known unless i is in the group opened last. */
  ghost predicate LedFrom(nodes: seq<Node>, leaders: seq<nat>, used: nat, from: nat, i: nat)
    requires i < |nodes|
  {
    && nodes[i].group < used <= |leaders|
    && (nodes[i].group + 1 < used ==>
          from < leaders[nodes[i].group] <= i && IsLeader(nodes, leaders[nodes[i].group], i))
  }

  ghost predicate HeapGrouped(nodes: seq<Node>, g: Groups, from: nat) {
    && from < |nodes| == |g.leaders| && g.ids == Identity(|nodes|)
    && 1 <= g.used && g.used + from <= |nodes| && g.used == nodes[from].group + 1
    && (forall i, j {:trigger nodes[i].group, nodes[j].group} :: from <= i < |nodes| && from <= j < |nodes| ==>
          (nodes[i].group == nodes[j].group <==> nodes[i].freq == nodes[j].freq))
    && (forall i :: from <= i < |nodes| ==> LedFrom(nodes, g.leaders, g.used, from, i))
    && (forall h :: 0 <= h < g.used - 1 ==> from < g.leaders[h] < |nodes| && nodes[g.leaders[h]].group == h)
    && (forall h :: g.used - 1 <= h < |g.leaders| ==> g.leaders[h] == 0)
  }

  ghost predicate Growing(t: Tree, n: nat, from: nat) {
    HeapShaped(t, n, from) && HeapCounted(t.nodes, n, from) && HeapGrouped(t.nodes, t.groups, from)
  }

  /** The count of the branch placed last; zero before the first. */
  ghost function LastFreq(t: Tree, n: nat, from: nat): nat
    requires from < |t.nodes|
  {
    if from + 1 == n then 0 else t.nodes[from].freq
  }

  /** What placing the branch at i does to the other nodes: nothing, but for the parent of its children. */
  ghost predicate GrownAt(a: seq<Node>, b: seq<Node>, i: nat)
    requires 2 * i + 2 < |a|
  {
    && |b| == |a|
    && b[i].entry == Branch(2 * i + 2) && b[i].parent == 0
    && b[i].freq == a[2 * i + 1].freq + a[2 * i + 2].freq
    && forall j {:trigger b[j]} :: 0 <= j < |a| && j != i ==>
         b[j] == a[j].(parent := if j == 2 * i + 1 || j == 2 * i + 2 then i else a[j].parent)
  }

  /** The branch to be placed weighs at least as much as the node placed last. */
  lemma NextIsHeavier(nodes: seq<Node>, n: nat, from: nat)
    requires HeapCounted(nodes, n, from) && from >= 1
    ensures nodes[from].freq <= nodes[2 * from - 1].freq + nodes[2 * from].freq
    ensures from == n - 1 ==> nodes[from].freq < nodes[2 * from - 1].freq + nodes[2 * from].freq
  {
    var e := nodes[from].entry;
    if from < n - 1 {
      assert nodes[2 * from + 1].freq <= nodes[2 * from - 1].freq;
      assert nodes[2 * from + 2].freq <= nodes[2 * from].freq;
    }
  }

  lemma GrowKeepsShape(a: Tree, b: Tree, n: nat, from: nat)
    requires HeapShaped(a, n, from) && from >= 1 && GrownAt(a.nodes, b.nodes, from - 1)
    requires b.leaves == a.leaves && |b.groups.ids| == |a.groups.ids| && |b.groups.leaders| == |a.groups.leaders|
    ensures HeapShaped(b, n, from - 1)
  {
    forall j | 0 <= j < |b.nodes|
      ensures b.nodes[j].parent == if j <= 2 * (from - 1) then 0 else (j - 1) / 2
    {
      assert a.nodes[j].parent == if j <= 2 * from then 0 else (j - 1) / 2;
    }
    forall j | from - 1 <= j < |b.nodes|
      ensures b.nodes[j].entry == if j < n - 1 then Branch(2 * j + 2) else Leaf(2 * n - 2 - j)
    {
      if j >= from { assert b.nodes[j].entry == a.nodes[j].entry; }
    }
  }

  lemma GrownKeeps(a: seq<Node>, b: seq<Node>, i: nat)
    requires 2 * i + 2 < |a| && GrownAt(a, b, i)
    ensures |b| == |a| && b[i].freq == a[2 * i + 1].freq + a[2 * i + 2].freq
    ensures forall j {:trigger b[j].freq} {:trigger b[j].entry} :: 0 <= j < |a| && j != i ==>
              b[j].freq == a[j].freq && b[j].entry == a[j].entry
  {
  }

  lemma HeapCountedAt(a: seq<Node>, n: nat, from: nat, j: nat, k: nat)
    requires HeapCounted(a, n, from) && from <= j <= k < |a|
    ensures 1 <= a[k].freq <= a[j].freq && (n - 1 <= j ==> a[j].freq == 1)
    ensures j < n - 1 ==> 2 * j + 2 < |a| && a[j].freq == a[2 * j + 1].freq + a[2 * j + 2].freq
  {
    assert a[j].entry == a[j].entry;
  }

  /** One node after a branch has been placed. */
  lemma GrownNode(a: seq<Node>, b: seq<Node>, n: nat, from: nat, j: nat)
    requires HeapCounted(a, n, from) && 1 <= from <= j + 1 && GrownAt(a, b, from - 1) && j < |a|
    ensures |a| == |b| == 2 * n - 1 && from < n && (n - 1 <= j ==> b[j].freq == 1)
    ensures j < n - 1 ==> b[j].freq == b[2 * j + 1].freq + b[2 * j + 2].freq
  {
    hide GrownAt;
    GrownKeeps(a, b, from - 1);
    if j >= from { HeapCountedAt(a, n, from, j, j); }
  }

  lemma GrownPair(a: seq<Node>, b: seq<Node>, n: nat, from: nat, j: nat, k: nat)
    requires HeapCounted(a, n, from) && 1 <= from <= j + 1 && GrownAt(a, b, from - 1) && j <= k < |a|
    ensures |a| == |b| && 1 <= b[k].freq <= b[j].freq
  {
    hide GrownAt;
    GrownKeeps(a, b, from - 1);
    NextIsHeavier(a, n, from);
    if k >= from { HeapCountedAt(a, n, from, if j >= from then j else from, k); }
    HeapCountedAt(a, n, from, from, from);
  }

  lemma GrowKeepsCounts(a: seq<Node>, b: seq<Node>, n: nat, from: nat)
    requires HeapCounted(a, n, from) && from >= 1 && GrownAt(a, b, from - 1)
    ensures HeapCounted(b, n, from - 1)
  {
    hide GrownAt;
    GrownNode(a, b, n, from, from);
    forall j | from - 1 <= j < |b|
      ensures (n - 1 <= j ==> b[j].freq == 1) && (j < n - 1 ==> b[j].freq == b[2 * j + 1].freq + b[2 * j + 2].freq)
    {
      GrownNode(a, b, n, from, j);
    }
    forall j, k | from - 1 <= j <= k < |b| ensures 1 <= b[k].freq <= b[j].freq {
      GrownPair(a, b, n, from, j, k);
    }
  }

  lemma JoinKeepsHeapGroups(a: seq<Node>, b: seq<Node>, g: Groups, n: nat, from: nat)
    requires HeapCounted(a, n, from) && HeapGrouped(a, g, from) && from >= 1 && GrownAt(a, b, from - 1)
    requires b[from - 1].freq == a[from].freq && b[from - 1].group == a[from].group
    ensures HeapGrouped(b, g, from - 1)
  {
    var i := from - 1;
    forall j | i <= j < |b| ensures LedFrom(b, g.leaders, g.used, i, j) {
      if j >= from { assert LedFrom(a, g.leaders, g.used, from, j); }
    }
    forall j, k | from - 1 <= j < |b| && from - 1 <= k < |b|
      ensures b[j].group == b[k].group <==> b[j].freq == b[k].freq
    {
      var j', k' := if j < from then from else j, if k < from then from else k;
      assert a[j'].group == a[k'].group <==> a[j'].freq == a[k'].freq;
    }
  }

  /** A branch heavier than the last one opens a group of its own, and settles the leader of the last. */
  ghost predicate Opens(a: seq<Node>, b: seq<Node>, g: Groups, h: Groups, n: nat, from: nat) {
    && HeapCounted(a, n, from) && HeapGrouped(a, g, from) && from >= 1 && GrownAt(a, b, from - 1)
    && b[from - 1].freq > a[from].freq && b[from - 1].group == g.used
    && h == Groups(g.used + 1, g.ids, g.leaders[a[from].group := from])
  }

  /** A node placed earlier keeps its count and group, weighs less than the new branch, and is in an older group. */
  lemma PlacedBefore(a: seq<Node>, b: seq<Node>, g: Groups, h: Groups, n: nat, from: nat, j: nat)
    requires Opens(a, b, g, h, n, from) && from <= j < |b|
    ensures |a| == |b| && b[j].freq == a[j].freq && b[j].group == a[j].group
    ensures a[j].freq < b[from - 1].freq && a[j].group < g.used == b[from - 1].group
    ensures LedFrom(a, g.leaders, g.used, from, j) && (a[j].group == a[from].group <==> a[j].freq == a[from].freq)
  {
    assert LedFrom(a, g.leaders, g.used, from, j) && a[j].freq <= a[from].freq;
  }

  lemma OpenKeepsLed(a: seq<Node>, b: seq<Node>, g: Groups, h: Groups, n: nat, from: nat, i: nat, j: nat)
    requires Opens(a, b, g, h, n, from) && i + 1 == from && i <= j < |b|
    ensures LedFrom(b, h.leaders, h.used, i, j)
  {
    hide HeapCounted;
    if j >= from { PlacedBefore(a, b, g, h, n, from, j); }
  }

  lemma SameGroup(a: seq<Node>, b: seq<Node>, g: Groups, h: Groups, n: nat, from: nat, j: nat, k: nat)
    requires Opens(a, b, g, h, n, from) && from <= j < |a| && from <= k < |a|
    ensures a[j].group == a[k].group <==> a[j].freq == a[k].freq
  {
  }

  lemma OpenKeepsApart(a: seq<Node>, b: seq<Node>, g: Groups, h: Groups, n: nat, from: nat, j: nat, k: nat)
    requires Opens(a, b, g, h, n, from) && from <= j + 1 && j < |b| && from <= k + 1 && k < |b|
    ensures b[j].group == b[k].group <==> b[j].freq == b[k].freq
  {
    hide *;
    if j >= from { PlacedBefore(a, b, g, h, n, from, j); }
    if k >= from { PlacedBefore(a, b, g, h, n, from, k); }
    if j >= from && k >= from { SameGroup(a, b, g, h, n, from, j, k); }
  }

  lemma OpenKeepsHeapGroups(a: seq<Node>, b: seq<Node>, g: Groups, h: Groups, n: nat, from: nat)
    requires Opens(a, b, g, h, n, from)
    ensures HeapGrouped(b, h, from - 1)
  {
    var i := from - 1;
    forall j | i <= j < |b| ensures LedFrom(b, h.leaders, h.used, i, j) {
      OpenKeepsLed(a, b, g, h, n, from, i, j);
    }
    forall j, k | i <= j < |b| && i <= k < |b| ensures b[j].group == b[k].group <==> b[j].freq == b[k].freq {
      OpenKeepsApart(a, b, g, h, n, from, j, k);
    }
  }

  /** What placing a branch does to nodes and groups. */
  lemma GrowIsGrown(t: Tree, i: nat, lastFreq: nat, lastGroup: nat)
    requires 2 * i + 2 < |t.nodes| && lastGroup < |t.groups.leaders| && t.groups.used < |t.groups.ids|
    ensures var r, freq := Grow(t, i, lastFreq, lastGroup), t.nodes[2 * i + 1].freq + t.nodes[2 * i + 2].freq;
      && GrownAt(t.nodes, r.nodes, i) && r.nodes[i].freq == freq
      && r.nodes[i].group == (if freq == lastFreq then lastGroup else t.groups.ids[t.groups.used])
      && r.groups == (if freq == lastFreq then t.groups
                      else Groups(t.groups.used + 1, t.groups.ids, t.groups.leaders[lastGroup := i + 1]))
  {
  }

  lemma GrowIsDefined(t: Tree, n: nat, from: nat)
    requires Growing(t, n, from) && from >= 1
    ensures 2 * (from - 1) + 2 < |t.nodes| && t.groups.used < |t.groups.ids| && t.nodes[from].group < |t.groups.leaders|
    ensures t.groups.ids[t.groups.used] == t.groups.used && LastFreq(t, n, from) <= t.nodes[from].freq
    ensures t.nodes[2 * from - 1].freq + t.nodes[2 * from].freq == t.nodes[from].freq
      ==> LastFreq(t, n, from) == t.nodes[from].freq
  {
    NextIsHeavier(t.nodes, n, from);
  }

  lemma GrowKeepsGroups(t: Tree, n: nat, from: nat)
    requires Growing(t, n, from) && from >= 1
    ensures t.groups.used < |t.groups.ids|
    ensures var r := Grow(t, from - 1, LastFreq(t, n, from), t.nodes[from].group);
      GrownAt(t.nodes, r.nodes, from - 1) && HeapGrouped(r.nodes, r.groups, from - 1)
  {
    hide HeapGrouped, HeapCounted, HeapShaped, GrownAt, Grow;
    GrowIsDefined(t, n, from);
    GrowIsGrown(t, from - 1, LastFreq(t, n, from), t.nodes[from].group);
    var r := Grow(t, from - 1, LastFreq(t, n, from), t.nodes[from].group);
    NextIsHeavier(t.nodes, n, from);
    if r.nodes[from - 1].freq == t.nodes[from].freq {
      JoinKeepsHeapGroups(t.nodes, r.nodes, t.groups, n, from);
    } else {
      OpenKeepsHeapGroups(t.nodes, r.nodes, t.groups, r.groups, n, from);
    }
  }

  lemma GrowKeepsGrowing(t: Tree, n: nat, from: nat)
    requires Growing(t, n, from) && from >= 1
    ensures t.groups.used < |t.groups.ids| && t.nodes[from].group < |t.groups.leaders|
    ensures Growing(Grow(t, from - 1, LastFreq(t, n, from), t.nodes[from].group), n, from - 1)
  {
    GrowKeepsGroups(t, n, from);
    var r := Grow(t, from - 1, LastFreq(t, n, from), t.nodes[from].group);
    GrowKeepsShape(t, r, n, from);
    GrowKeepsCounts(t.nodes, r.nodes, n, from);
  }

  /** The n leaves in place, all in group 0, before the first branch. */
  ghost predicate LeavesOnly(t: Tree, n: nat) {
    && 2 <= n && |t.leaves| == n && |t.nodes| == 2 * n - 1
    && t.groups == Groups(1, Identity(2 * n - 1), seq(2 * n - 1, _ => 0))
    && (forall v :: 0 <= v < n ==> t.leaves[v] == 2 * n - 2 - v)
    && (forall i {:trigger t.nodes[i]} :: n - 1 <= i < 2 * n - 1 ==> t.nodes[i] == Node(Leaf(2 * n - 2 - i), 1, 0, 0))
    && (forall i {:trigger t.nodes[i]} :: 0 <= i < n - 1 ==> t.nodes[i].parent == 0)
  }

  lemma LeavesStartGrowing(t: Tree, n: nat)
    requires LeavesOnly(t, n)
    ensures Growing(t, n, n - 1)
  {
    var from := n - 1;
    forall i | from <= i < |t.nodes| ensures LedFrom(t.nodes, t.groups.leaders, 1, from, i) {
      assert t.nodes[i].group == 0;
    }
    forall i | 0 <= i < |t.nodes| ensures t.nodes[i].parent == 0 {
      assert t.nodes[i].parent == 0;
    }
  }

  lemma GrownIsLinked(t: Tree, n: nat)
    requires HeapShaped(t, n, 0)
    ensures Linked(t.nodes)
  {
    forall i | 0 <= i < |t.nodes| ensures ChildrenLinked(t.nodes, i) {
      assert t.nodes[i].entry == if i < n - 1 then Branch(2 * i + 2) else Leaf(2 * n - 2 - i);
      if i < n - 1 { assert t.nodes[2 * i + 1].parent == t.nodes[2 * i + 2].parent == i; }
    }
    forall i | 1 <= i < |t.nodes| ensures ParentLinked(t.nodes, i) {
      assert t.nodes[i].parent == (i - 1) / 2;
      assert t.nodes[(i - 1) / 2].entry == Branch(Pair(i));
    }
  }

  lemma GrownIsIndexed(t: Tree, n: nat)
    requires HeapShaped(t, n, 0)
    ensures Indexed(t.nodes, t.leaves)
  {
    forall i | 0 <= i < |t.nodes| ensures LeafIndexed(t.nodes, t.leaves, i) {
      assert t.nodes[i].entry == if i < n - 1 then Branch(2 * i + 2) else Leaf(2 * n - 2 - i);
    }
    forall v | 0 <= v < |t.leaves| ensures ValueIndexed(t.nodes, t.leaves, v) {
      assert t.leaves[v] == 2 * n - 2 - v;
      assert t.nodes[t.leaves[v]].entry == Leaf(v);
    }
  }

  lemma GrownIsSummed(t: Tree, n: nat)
    requires HeapShaped(t, n, 0) && HeapCounted(t.nodes, n, 0)
    ensures Ordered(t.nodes) && Summed(t.nodes, 0)
  {
    forall i | 0 <= i < |t.nodes| ensures SumHolds(t.nodes, 0, i) {
      assert t.nodes[i].entry == if i < n - 1 then Branch(2 * i + 2) else Leaf(2 * n - 2 - i);
    }
  }

  lemma GrownIsGrouped(nodes: seq<Node>, g: Groups)
    requires HeapGrouped(nodes, g, 0)
    ensures Grouped(nodes, g.leaders) && Pooled(nodes, g)
  {
    forall i | 0 <= i < |nodes| ensures LeaderHolds(nodes, g.leaders, i) && nodes[i].group < g.used {
      assert LedFrom(nodes, g.leaders, g.used, 0, i);
      assert nodes[i].group == nodes[0].group <==> nodes[i].freq == nodes[0].freq;
    }
    forall h | h in Below(g.used) ensures h in Live(nodes) {
      assert nodes[if h + 1 < g.used then g.leaders[h] else 0].group == h;
    }
    forall h | h in Live(nodes) ensures h in Below(g.used) {
      var i :| 0 <= i < |nodes| && nodes[i].group == h;
    }
    assert Live(nodes) == Below(g.used);
  }

  lemma FrontierOfOnes(t: Tree, n: nat)
    requires HeapShaped(t, n, 0) && HeapCounted(t.nodes, n, 0)
    ensures Frontier(t.nodes, Freqs(t.nodes), |t.nodes|) == Frontier(t.nodes, seq(|t.nodes|, _ => 1), |t.nodes|)
  {
    forall i | 0 <= i < |t.nodes| ensures InFrontier(t.nodes, |t.nodes|, i) ==> t.nodes[i].freq == 1 {
      assert t.nodes[i].entry == if i < n - 1 then Branch(2 * i + 2) else Leaf(2 * n - 2 - i);
    }
  }

  lemma HeapSize(t: Tree, n: nat, from: nat)
    requires HeapShaped(t, n, from)
    ensures |t.nodes| == 2 * n - 1
  {
  }

  /** The root counts n leaves. */
  lemma GrownRoot(t: Tree, n: nat)
    requires HeapShaped(t, n, 0) && HeapCounted(t.nodes, n, 0)
    ensures t.nodes[0].freq == n
  {
    hide HeapShaped, HeapCounted;
    HeapSize(t, n, 0);
    GrownIsLinked(t, n);
    GrownIsSummed(t, n);
    FrontierOfOnes(t, n);
    FrontierCarriesRoot(t.nodes, |t.nodes|);
    FrontierSize(t.nodes, |t.nodes|);
  }

  /** With the root placed, the tree is valid and counts every leaf once. */
  lemma GrownIsValid(t: Tree, n: nat)
    requires Growing(t, n, 0) && n <= MAX_LEAVES
    ensures Valid(t)
  {
    GrownIsLinked(t, n);
    GrownIsIndexed(t, n);
    GrownIsSummed(t, n);
    GrownIsGrouped(t.nodes, t.groups);
    GrownRoot(t, n);
  }

  lemma GrownCounts(t: Tree, n: nat)
    requires HeapShaped(t, n, 0) && HeapCounted(t.nodes, n, 0)
    ensures Indexed(t.nodes, t.leaves) && forall v :: 0 <= v < n ==> Count(t, v) == 1
  {
    GrownIsIndexed(t, n);
    forall v | 0 <= v < n ensures Count(t, v) == 1 {
      assert ValueIndexed(t.nodes, t.leaves, v);
    }
  }

  lemma GrownIsSound(t: Tree, n: nat)
    requires Growing(t, n, 0) && n <= MAX_LEAVES
    ensures Valid(t) && HeapShaped(t, n, 0) && forall v :: 0 <= v < n ==> Count(t, v) == 1
  {
    hide Valid;
    GrownIsValid(t, n);
    GrownCounts(t, n);
  }

  /** The array before any branch is placed. */
  ghost function LeavesTree(n: nat): Tree
    requires n >= 2
  {
    Tree(seq(2 * n - 1, i requires 0 <= i < 2 * n - 1 =>
               if i < n - 1 then Node(Branch(0), 0, 0, 0) else Node(Leaf(2 * n - 2 - i), 1, 0, 0)),
         seq(n, v requires 0 <= v < n => 2 * n - 2 - v),
         Groups(1, Identity(2 * n - 1), seq(2 * n - 1, _ => 0)))
  }

  lemma LeavesAreOnly(n: nat)
    requires n >= 2
    ensures LeavesOnly(LeavesTree(n), n)
  {
  }

  lemma GrowingSize(t: Tree, n: nat, from: nat)
    requires Growing(t, n, from)
    ensures |t.nodes| == 2 * n - 1 && from < n && |t.leaves| == n
  {
  }

  /** The tree once all nodes from `from` on are in place. */
  ghost function Grown(n: nat, from: nat): (t: Tree)
    requires 2 <= n && from < n
    ensures Growing(t, n, from)
    decreases n - from
  {
    hide Growing, LeavesOnly, LeavesTree, Grow, LastFreq;
    if from + 1 == n then
      LeavesAreOnly(n);
      LeavesStartGrowing(LeavesTree(n), n);
      LeavesTree(n)
    else
      var t := Grown(n, from + 1);
      GrowingSize(t, n, from + 1);
      GrowKeepsGrowing(t, n, from + 1);
      Grow(t, from, LastFreq(t, n, from + 1), t.nodes[from + 1].group)
  }

  lemma LeavesAreGrown(n: nat)
    requires n >= 2
    ensures Grown(n, n - 1) == LeavesTree(n) && n - 1 < |LeavesTree(n).nodes| && LeavesTree(n).nodes[n - 1].group == 0
  {
    hide Growing;
  }

  /** One more branch. */
  lemma GrownNext(n: nat, from: nat)
    requires 2 <= n && 1 <= from < n
    ensures var t := Grown(n, from);
      && from < |t.nodes| && t.groups.used < |t.groups.ids| && t.nodes[from].group < |t.groups.leaders|
      && Grown(n, from - 1) == Grow(t, from - 1, LastFreq(t, n, from), t.nodes[from].group)
  {
    hide Growing, LeavesOnly, LeavesTree, Grow, LastFreq;
    GrowingSize(Grown(n, from), n, from);
    GrowKeepsGrowing(Grown(n, from), n, from);
  }

  /** The initial tree. */
  ghost function NewTree(n: nat): ValidTree
    requires 2 <= n <= MAX_LEAVES
  {
    hide Valid, Growing, HeapShaped, Grown;
    GrownIsSound(Grown(n, 0), n);
    Grown(n, 0)
  }

  /** The initial tree is shaped like a heap and counts every leaf once. */
  lemma NewTreeIsHeap(n: nat)
    requires 2 <= n <= MAX_LEAVES
    ensures var t := NewTree(n); t == Grown(n, 0) && Valid(t) && |t.leaves| == n && HeapShaped(t, n, 0)
    ensures Indexed(NewTree(n).nodes, NewTree(n).leaves) && forall v :: 0 <= v < n ==> Count(NewTree(n), v) == 1
  {
    hide Valid, Growing, HeapShaped, Grown, Count, Indexed;
    GrowingSize(Grown(n, 0), n, 0);
    GrownIsSound(Grown(n, 0), n);
    GrownIsIndexed(Grown(n, 0), n);
  }
}
