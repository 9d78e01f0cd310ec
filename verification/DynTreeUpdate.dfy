/** One adaptive update: swap with the group leader, increment, regroup, and go on at the parent. */
module DynTreeUpdate {
  import opened TreeEntries
  import opened DynTree

  /** Point both children of a branch entry at their new parent. */
  function SetAsParent(nodes: seq<Node>, entry: Entry, parent: nat): (r: seq<Node>)
    requires entry.Branch? ==> 1 <= entry.child < |nodes|
    ensures |r| == |nodes|
  {
    match entry
    case Leaf(_) => nodes
    case Branch(c) =>
      nodes[c - 1 := nodes[c - 1].(parent := parent)][c := nodes[c].(parent := parent)]
  }

  /** Record the new node index of a leaf entry. */
  function SetLeafIndex(leaves: seq<nat>, entry: Entry, i: nat): (r: seq<nat>)
    requires entry.Leaf? ==> entry.value < |leaves|
    ensures |r| == |leaves|
  {
    match entry
    case Leaf(v) => leaves[v := i]
    case Branch(_) => leaves
  }

  ghost predicate EntryInRange(t: Tree, e: Entry) {
    match e
    case Leaf(v) => v < |t.leaves|
    case Branch(c) => 1 <= c < |t.nodes|
  }

  function Leader(t: Tree, i: nat): nat
    requires i < |t.nodes| && t.nodes[i].group < |t.groups.leaders|
  {
    t.groups.leaders[t.nodes[i].group]
  }

  function SwapEntries(t: Tree, i: nat, l: nat): (r: Tree)
    requires l < i < |t.nodes|
    requires EntryInRange(t, t.nodes[i].entry) && EntryInRange(t, t.nodes[l].entry)
  {
    var up, down := t.nodes[i].entry, t.nodes[l].entry;
    var nodes := t.nodes[i := t.nodes[i].(entry := down)][l := t.nodes[l].(entry := up)];
    t.(nodes := SetAsParent(SetAsParent(nodes, down, i), up, l),
       leaves := SetLeafIndex(SetLeafIndex(t.leaves, down, i), up, l))
  }

  /** Swap node i with its group's leader. */
  function Promote(t: Tree, i: nat): (r: Tree)
    requires i < |t.nodes| && t.nodes[i].group < |t.groups.leaders| && Leader(t, i) <= i
    requires EntryInRange(t, t.nodes[i].entry) && EntryInRange(t, t.nodes[Leader(t, i)].entry)
  {
    var l := Leader(t, i);
    if l == i then t else SwapEntries(t, i, l)
  }

  /** Increment the count of the leader l of some group and move it to the group of its new count. */
  function Increment(t: Tree, l: nat): (r: Tree)
    requires 1 <= l < |t.nodes|
    requires t.nodes[l].group < |t.groups.leaders|
    requires l + 1 < |t.nodes| && t.nodes[l].group == t.nodes[l + 1].group ==>
               t.groups.used < |t.groups.ids| && t.groups.ids[t.groups.used] < |t.groups.leaders|
    requires 1 <= t.groups.used <= |t.groups.ids|
  {
    var g, gs, node, prev := t.nodes[l].group, t.groups, t.nodes[l], t.nodes[l - 1];
    var freq := node.freq + 1;
    if l + 1 < |t.nodes| && g == t.nodes[l + 1].group then
      var leaders := gs.leaders[g := gs.leaders[g] + 1];
      if freq == prev.freq then
        t.(nodes := t.nodes[l := node.(freq := freq, group := prev.group)],
           groups := gs.(leaders := leaders))
      else
        var id := gs.ids[gs.used];
        t.(nodes := t.nodes[l := node.(freq := freq, group := id)],
           groups := gs.(leaders := leaders[id := l], used := gs.used + 1))
    else if freq == prev.freq then
      t.(nodes := t.nodes[l := node.(freq := freq, group := prev.group)],
         groups := gs.(used := gs.used - 1, ids := gs.ids[gs.used - 1 := g]))
    else
      t.(nodes := t.nodes[l := node.(freq := freq)])
  }

  // ---- promotion

  /** The root of a tree in mid-walk is the branch over nodes 1 and 2, and outweighs every other node. */
  lemma RootOutweighs(t: Tree, cur: nat, i: nat)
    requires Walking(t, cur) && 1 <= i < |t.nodes|
    ensures t.nodes[0].entry == Branch(2) && t.nodes[i].freq < t.nodes[0].freq
    ensures cur != 0 ==> t.nodes[i].freq + 1 < t.nodes[0].freq
  {
    assert ParentLinked(t.nodes, 1);
    assert SumHolds(t.nodes, cur, 0);
  }

  /** The leader is neither the root nor an ancestor, and its children lie beyond the node it is swapped with. */
  lemma LeaderIsUnrelated(t: Tree, i: nat)
    requires Walking(t, i) && i != 0
    ensures i < |t.nodes| && t.nodes[i].group < |t.groups.leaders|
    ensures var l := t.groups.leaders[t.nodes[i].group];
            && 1 <= l <= i && t.nodes[l].freq == t.nodes[i].freq && t.nodes[l].group == t.nodes[i].group
            && t.nodes[l - 1].freq > t.nodes[l].freq
            && (l < i && t.nodes[l].entry.Branch? ==> i + 1 < t.nodes[l].entry.child)
            && EntryInRange(t, t.nodes[i].entry) && EntryInRange(t, t.nodes[l].entry)
  {
    assert LeaderHolds(t.nodes, t.groups.leaders, i);
    var l := t.groups.leaders[t.nodes[i].group];
    RootOutweighs(t, i, i);
    assert ChildrenLinked(t.nodes, i) && LeafIndexed(t.nodes, t.leaves, i);
    assert ChildrenLinked(t.nodes, l) && LeafIndexed(t.nodes, t.leaves, l);
    assert SumHolds(t.nodes, i, l);
  }

  ghost predicate ChildOf(e: Entry, j: nat) {
    e.Branch? && (j == e.child || j + 1 == e.child)
  }

  /** What swapping the entries of l and i does to every node. */
  ghost predicate Swapped(a: seq<Node>, b: seq<Node>, i: nat, l: nat)
    requires l < |a| && i < |a|
  {
    && |b| == |a|
    && forall j {:trigger b[j]} :: 0 <= j < |a| ==>
         && b[j].freq == a[j].freq
         && b[j].group == a[j].group
         && b[j].entry == (if j == i then a[l].entry else if j == l then a[i].entry else a[j].entry)
         && b[j].parent == (if ChildOf(a[i].entry, j) then l else if ChildOf(a[l].entry, j) then i else a[j].parent)
  }

  lemma SetAsParentSets(nodes: seq<Node>, e: Entry, p: nat)
    requires e.Branch? ==> 1 <= e.child < |nodes|
    ensures var r := SetAsParent(nodes, e, p);
      forall j {:trigger r[j]} :: 0 <= j < |nodes| ==> r[j] == if ChildOf(e, j) then nodes[j].(parent := p) else nodes[j]
  {
  }

  lemma SwapIsSwapped(t: Tree, i: nat, l: nat)
    requires l < i < |t.nodes|
    requires EntryInRange(t, t.nodes[i].entry) && EntryInRange(t, t.nodes[l].entry)
    ensures Swapped(t.nodes, SwapEntries(t, i, l).nodes, i, l)
  {
    hide SetAsParent, SetLeafIndex;
    var up, down := t.nodes[i].entry, t.nodes[l].entry;
    var nodes := t.nodes[i := t.nodes[i].(entry := down)][l := t.nodes[l].(entry := up)];
    SetAsParentSets(nodes, down, i);
    SetAsParentSets(SetAsParent(nodes, down, i), up, l);
  }

  lemma SwapKeepsLinks(a: seq<Node>, b: seq<Node>, i: nat, l: nat)
    requires Linked(a) && 1 <= l < i < |a| && Swapped(a, b, i, l)
    requires a[l].entry.Branch? ==> i + 1 < a[l].entry.child
    ensures Linked(b)
  {
    forall k | 0 <= k < |b| ensures ChildrenLinked(b, k) {
      assert ChildrenLinked(a, if k == i then l else if k == l then i else k);
      assert ChildrenLinked(a, i) && ChildrenLinked(a, l);
    }
    forall k | 1 <= k < |b| ensures ParentLinked(b, k) {
      assert ParentLinked(a, k);
      assert ChildrenLinked(a, i) && ChildrenLinked(a, l);
    }
    assert ChildrenLinked(a, i) && ChildrenLinked(a, l);
  }

  lemma SwapKeepsIndex(t: Tree, i: nat, l: nat)
    requires l < i < |t.nodes| && Indexed(t.nodes, t.leaves)
    requires EntryInRange(t, t.nodes[i].entry) && EntryInRange(t, t.nodes[l].entry)
    ensures var r := SwapEntries(t, i, l); Indexed(r.nodes, r.leaves)
  {
    SwapIsSwapped(t, i, l);
    var r := SwapEntries(t, i, l);
    assert LeafIndexed(t.nodes, t.leaves, i) && LeafIndexed(t.nodes, t.leaves, l);
    forall k | 0 <= k < |r.nodes| ensures LeafIndexed(r.nodes, r.leaves, k) {
      assert LeafIndexed(t.nodes, t.leaves, k);
    }
    forall v | 0 <= v < |r.leaves| ensures ValueIndexed(r.nodes, r.leaves, v) {
      assert ValueIndexed(t.nodes, t.leaves, v);
    }
  }

  lemma SwapKeepsSums(a: seq<Node>, b: seq<Node>, i: nat, l: nat)
    requires Summed(a, i) && 1 <= l < i < |a| && Swapped(a, b, i, l) && a[l].freq == a[i].freq
    ensures Summed(b, l)
  {
    forall k | 0 <= k < |b| ensures SumHolds(b, l, k) {
      assert SumHolds(a, i, if k == i then l else if k == l then i else k);
    }
  }

  /** Order, groups and the pool depend on counts and group ids alone. */
  ghost predicate SameCounts(a: seq<Node>, b: seq<Node>) {
    |a| == |b| && forall j {:trigger b[j]} :: 0 <= j < |a| ==> b[j].freq == a[j].freq && b[j].group == a[j].group
  }

  lemma SameCountsKeepGroups(a: seq<Node>, b: seq<Node>, g: Groups)
    requires SameCounts(a, b) && Grouped(a, g.leaders) && Pooled(a, g)
    ensures Grouped(b, g.leaders) && Pooled(b, g)
  {
    forall j | 0 <= j < |b| ensures LeaderHolds(b, g.leaders, j) {
      assert LeaderHolds(a, g.leaders, j);
    }
    assert forall j :: 0 <= j < |a| ==> a[j].group == b[j].group;
    assert Live(a) == Live(b);
  }

  /** A promotion exchanges the entries of a node and its leader and moves nothing else; a leader stays where it is. */
  lemma PromotionSwaps(t: Tree, i: nat)
    requires i < |t.nodes| && t.nodes[i].group < |t.groups.leaders|
    requires t.groups.leaders[t.nodes[i].group] <= i
    requires EntryInRange(t, t.nodes[i].entry) && EntryInRange(t, t.nodes[t.groups.leaders[t.nodes[i].group]].entry)
    ensures var l, r := t.groups.leaders[t.nodes[i].group], Promote(t, i);
      && r.groups == t.groups && (l == i ==> r == t) && (l < i ==> Swapped(t.nodes, r.nodes, i, l))
      && (Indexed(t.nodes, t.leaves) ==> Indexed(r.nodes, r.leaves))
  {
    var l := Leader(t, i);
    if l < i {
      SwapIsSwapped(t, i, l);
      if Indexed(t.nodes, t.leaves) { SwapKeepsIndex(t, i, l); }
    }
  }

  lemma PromoteKeepsWalking(t: Tree, i: nat)
    requires Walking(t, i) && i != 0
    ensures t.nodes[i].group < |t.groups.leaders|
    ensures Leader(t, i) <= i && EntryInRange(t, t.nodes[i].entry) && EntryInRange(t, t.nodes[Leader(t, i)].entry)
    ensures Walking(Promote(t, i), Leader(t, i))
  {
    LeaderIsUnrelated(t, i);
    var l := Leader(t, i);
    if l < i {
      var r := SwapEntries(t, i, l);
      SwapIsSwapped(t, i, l);
      SwapKeepsLinks(t.nodes, r.nodes, i, l);
      SwapKeepsIndex(t, i, l);
      SwapKeepsSums(t.nodes, r.nodes, i, l);
      SameCountsKeepGroups(t.nodes, r.nodes, t.groups);
    }
  }

  // ---- incrementing

  /** Links and leaf index do not depend on counts and groups. */
  ghost predicate SameLinks(a: seq<Node>, b: seq<Node>) {
    |a| == |b| && forall j {:trigger b[j]} :: 0 <= j < |a| ==> b[j].entry == a[j].entry && b[j].parent == a[j].parent
  }

  lemma SameLinksKeepLinked(a: seq<Node>, b: seq<Node>)
    requires SameLinks(a, b) && Linked(a)
    ensures Linked(b)
  {
    forall k | 0 <= k < |b| ensures ChildrenLinked(b, k) { assert ChildrenLinked(a, k); }
    forall k | 1 <= k < |b| ensures ParentLinked(b, k) { assert ParentLinked(a, k); }
  }

  lemma SameLinksKeepIndexed(a: seq<Node>, b: seq<Node>, leaves: seq<nat>)
    requires SameLinks(a, b) && Indexed(a, leaves)
    ensures Indexed(b, leaves)
  {
    forall k | 0 <= k < |b| ensures LeafIndexed(b, leaves, k) { assert LeafIndexed(a, leaves, k); }
    forall v | 0 <= v < |leaves| ensures ValueIndexed(b, leaves, v) { assert ValueIndexed(a, leaves, v); }
  }

  /** Incrementing node l settles its own sum and leaves its parent one short (or the root exact). */
  lemma IncrementMovesDeficit(a: seq<Node>, b: seq<Node>, l: nat)
    requires Linked(a) && Summed(a, l) && 1 <= l < |a|
    requires SameLinks(a, b) && b[l].freq == a[l].freq + 1
    requires forall j {:trigger b[j].freq} :: 0 <= j < |a| && j != l ==> b[j].freq == a[j].freq
    ensures a[l].parent < l && Summed(b, a[l].parent)
  {
    assert ParentLinked(a, l);
    forall k | 0 <= k < |b| ensures SumHolds(b, a[l].parent, k) {
      assert SumHolds(a, l, k) && ChildrenLinked(a, k);
    }
  }

  lemma LiveAtMost(nodes: seq<Node>)
    ensures |Live(nodes)| <= |nodes|
  {
    if |nodes| > 0 {
      var last := |nodes| - 1;
      LiveAtMost(nodes[..last]);
      forall g | g in Live(nodes) ensures g in Live(nodes[..last]) + {nodes[last].group} {
        var i :| 0 <= i < |nodes| && nodes[i].group == g;
        if i < last { assert nodes[..last][i].group == g; }
      }
      assert Live(nodes) <= Live(nodes[..last]) + {nodes[last].group};
      CardinalityMonotone(Live(nodes), Live(nodes[..last]) + {nodes[last].group});
    }
  }

  lemma CardinalityMonotone<T>(a: set<T>, b: set<T>)
    requires a <= b
    ensures |a| <= |b|
  {
    assert b == a + (b - a);
  }

  /** When a group has two members, some id is free. */
  lemma SharedGroupLeavesFreeId(nodes: seq<Node>, l: nat)
    requires l + 1 < |nodes| && nodes[l].group == nodes[l + 1].group
    ensures |Live(nodes)| < |nodes|
  {
    var rest := nodes[..l] + nodes[l + 1..];
    LiveAtMost(rest);
    forall g | g in Live(nodes) ensures g in Live(rest) {
      var i :| 0 <= i < |nodes| && nodes[i].group == g;
      assert rest[if i <= l then i else i - 1].group == g;
    }
    CardinalityMonotone(Live(nodes), Live(rest));
  }

  /** What the group bookkeeping needs to know about the node being incremented. */
  ghost predicate Regroupable(t: Tree, l: nat)
    requires 1 <= l < |t.nodes|
  {
    && t.nodes[l].group < |t.groups.leaders|
    && (l + 1 < |t.nodes| && t.nodes[l].group == t.nodes[l + 1].group ==>
          t.groups.used < |t.groups.ids| && t.groups.ids[t.groups.used] < |t.groups.leaders|)
    && 1 <= t.groups.used <= |t.groups.ids|
  }

  lemma IncrementIsDefined(t: Tree, l: nat)
    requires Walking(t, l) && 1 <= l
    ensures Regroupable(t, l)
  {
    assert LeaderHolds(t.nodes, t.groups.leaders, l);
    assert t.nodes[l].group in Live(t.nodes);
    LiveAtMost(t.nodes);
    if l + 1 < |t.nodes| && t.nodes[l].group == t.nodes[l + 1].group {
      SharedGroupLeavesFreeId(t.nodes, l);
    }
  }

  /** Node l is counted once more and moves to group g. */
  ghost predicate Bumped(a: seq<Node>, b: seq<Node>, l: nat, g: nat)
    requires l < |a|
  {
    b == a[l := a[l].(freq := a[l].freq + 1, group := g)]
  }

  /** g is the right group for the new count of l: the group of that count, or one held by no other node. */
  ghost predicate RightGroup(a: seq<Node>, l: nat, g: nat)
    requires l < |a|
  {
    forall j {:trigger a[j].group} :: 0 <= j < |a| && j != l ==> (a[j].group == g <==> a[j].freq == a[l].freq + 1)
  }

  lemma BumpKeepsGroupsApart(a: seq<Node>, b: seq<Node>, l: nat, g: nat)
    requires l < |a| && Bumped(a, b, l, g) && RightGroup(a, l, g)
    requires forall i, j {:trigger a[i].group, a[j].group} :: 0 <= i < |a| && 0 <= j < |a| ==>
               (a[i].group == a[j].group <==> a[i].freq == a[j].freq)
    ensures forall i, j {:trigger b[i].group, b[j].group} :: 0 <= i < |b| && 0 <= j < |b| ==>
               (b[i].group == b[j].group <==> b[i].freq == b[j].freq)
  {
    forall i, j | 0 <= i < |b| && 0 <= j < |b|
      ensures b[i].group == b[j].group <==> b[i].freq == b[j].freq
    {
      assert a[i].group == a[j].group <==> a[i].freq == a[j].freq;
    }
  }

  /** The group that `Increment` picks for node l. */
  ghost function NewGroup(t: Tree, l: nat): nat
    requires 1 <= l < |t.nodes| && Regroupable(t, l)
  {
    if t.nodes[l].freq + 1 == t.nodes[l - 1].freq then t.nodes[l - 1].group
    else if l + 1 < |t.nodes| && t.nodes[l].group == t.nodes[l + 1].group then t.groups.ids[t.groups.used]
    else t.nodes[l].group
  }

  lemma NewGroupIsRight(t: Tree, l: nat)
    requires 1 <= l < |t.nodes| && Regroupable(t, l) && t.nodes[l - 1].freq > t.nodes[l].freq
    requires |t.groups.ids| == |t.nodes|
    requires Ordered(t.nodes) && Grouped(t.nodes, t.groups.leaders) && Pooled(t.nodes, t.groups)
    ensures RightGroup(t.nodes, l, NewGroup(t, l))
    ensures Bumped(t.nodes, Increment(t, l).nodes, l, NewGroup(t, l))
  {
    var a, g := t.nodes, NewGroup(t, l);
    forall j | 0 <= j < |a| && j != l ensures a[j].group == g <==> a[j].freq == a[l].freq + 1 {
      assert a[j].group in Live(a);
      assert a[j].group == a[l].group <==> a[j].freq == a[l].freq;
      assert a[j].group == a[l - 1].group <==> a[j].freq == a[l - 1].freq;
      if l + 1 < |a| {
        assert a[l + 1].group == a[l].group <==> a[l + 1].freq == a[l].freq;
        assert j > l ==> a[j].freq <= a[l + 1].freq;
      }
      assert j < l ==> a[j].freq >= a[l - 1].freq;
    }
  }

  lemma IncrementKeepsLeaders(t: Tree, l: nat)
    requires 1 <= l < |t.nodes| && Regroupable(t, l) && t.nodes[l - 1].freq > t.nodes[l].freq
    requires |t.groups.ids| == |t.nodes|
    requires Ordered(t.nodes) && Grouped(t.nodes, t.groups.leaders) && Pooled(t.nodes, t.groups)
    ensures var r := Increment(t, l);
      forall j :: 0 <= j < |r.nodes| ==> LeaderHolds(r.nodes, r.groups.leaders, j)
  {
    var r := Increment(t, l);
    var a, b := t.nodes, r.nodes;
    NewGroupIsRight(t, l);
    assert LeaderHolds(a, t.groups.leaders, l) && LeaderHolds(a, t.groups.leaders, l - 1);
    forall j | 0 <= j < |b| ensures LeaderHolds(b, r.groups.leaders, j) {
      assert LeaderHolds(a, t.groups.leaders, j);
      assert a[j].group == a[l].group <==> a[j].freq == a[l].freq;
      assert a[j].group == a[l - 1].group <==> a[j].freq == a[l - 1].freq;
    }
  }

  lemma BumpLive(a: seq<Node>, b: seq<Node>, l: nat, g: nat)
    requires l < |a| && Bumped(a, b, l, g)
    ensures l + 1 < |a| && a[l].group == a[l + 1].group ==> Live(b) == Live(a) + {g}
    ensures (forall j :: 0 <= j < |a| && j != l ==> a[j].group != a[l].group) ==>
      Live(b) == Live(a) - {a[l].group} + {g}
  {
    forall h | h in Live(b) ensures h == g || (h in Live(a) && exists i :: 0 <= i < |a| && i != l && a[i].group == h) {
      var i :| 0 <= i < |b| && b[i].group == h;
      if i != l { assert a[i].group == h; }
    }
    forall h | h in Live(a) ensures h == a[l].group || h in Live(b) {
      var i :| 0 <= i < |a| && a[i].group == h;
      if i != l { assert b[i].group == h; }
    }
    assert b[l].group == g;
    if l + 1 < |a| && a[l].group == a[l + 1].group {
      assert b[l + 1].group == a[l].group;
    }
  }

  lemma AllocateKeepsPool(used: nat, ids: seq<nat>, live: set<nat>, n: nat)
    requires PoolOf(used, ids, live, n) && used < |ids|
    ensures PoolOf(used + 1, ids, live + {ids[used]}, n)
  {
  }

  lemma FreeKeepsPool(used: nat, ids: seq<nat>, live: set<nat>, n: nat, g: nat)
    requires PoolOf(used, ids, live, n) && used <= |ids| && g in live && g < n
    ensures 1 <= used && PoolOf(used - 1, ids[used - 1 := g], live - {g}, n)
  {
  }

  lemma GroupIsLive(nodes: seq<Node>, i: nat)
    requires i < |nodes|
    ensures nodes[i].group in Live(nodes)
  {
  }

  /** What an increment does to the pool, by whether the group was shared and whether the new count has a group. */
  lemma IncrementedPool(t: Tree, l: nat)
    requires 1 <= l < |t.nodes| && Regroupable(t, l)
    ensures 1 <= t.groups.used <= |t.groups.ids|
    ensures
      var r, g, gs := Increment(t, l).groups, NewGroup(t, l), t.groups;
      var shared := l + 1 < |t.nodes| && t.nodes[l].group == t.nodes[l + 1].group;
      if t.nodes[l].freq + 1 == t.nodes[l - 1].freq then
        && g == t.nodes[l - 1].group
        && if shared then r.used == gs.used && r.ids == gs.ids
           else r.used == gs.used - 1 && r.ids == gs.ids[gs.used - 1 := t.nodes[l].group]
      else if shared then gs.used < |gs.ids| && g == gs.ids[gs.used] && r.used == gs.used + 1 && r.ids == gs.ids
      else g == t.nodes[l].group && r.used == gs.used && r.ids == gs.ids
  {
  }

  lemma IncrementKeepsPool(t: Tree, l: nat)
    requires 1 <= l < |t.nodes| && Regroupable(t, l) && t.nodes[l - 1].freq > t.nodes[l].freq
    requires |t.groups.ids| == |t.nodes| == |t.groups.leaders|
    requires Ordered(t.nodes) && Grouped(t.nodes, t.groups.leaders) && Pooled(t.nodes, t.groups)
    ensures var r := Increment(t, l); Pooled(r.nodes, r.groups)
  {
    hide Increment, NewGroup, Ordered, Grouped, RightGroup, Bumped, Live, PoolOf;
    var a, b, g, gs := t.nodes, Increment(t, l).nodes, NewGroup(t, l), t.groups;
    NewGroupIsRight(t, l);
    BumpedLength(a, b, l, g);
    BumpLive(a, b, l, g);
    IncrementedPool(t, l);
    GroupIsLive(a, l);
    GroupIsLive(a, l - 1);
    if l + 1 < |a| && a[l].group == a[l + 1].group {
      if a[l].freq + 1 == a[l - 1].freq {
        MemberStays(Live(a), g);
      } else {
        AllocateKeepsPool(gs.used, gs.ids, Live(a), |a|);
      }
    } else {
      AloneInGroup(a, t.groups.leaders, l);
      if a[l].freq + 1 == a[l - 1].freq {
        LiveIsSmall(a, t.groups.leaders, l);
        assert a[l - 1].group != a[l].group;
        MemberStays(Live(a) - {a[l].group}, g);
        FreeKeepsPool(gs.used, gs.ids, Live(a), |a|, a[l].group);
      } else {
        MemberStays(Live(a), g);
      }
    }
  }

  lemma MemberStays(s: set<nat>, g: nat)
    requires g in s
    ensures s + {g} == s && s - {g} + {g} == s
  {
  }

  lemma BumpedLength(a: seq<Node>, b: seq<Node>, l: nat, g: nat)
    requires l < |a| && Bumped(a, b, l, g)
    ensures |b| == |a|
  {
  }

  lemma LiveIsSmall(a: seq<Node>, leaders: seq<nat>, l: nat)
    requires l < |a| == |leaders| && Grouped(a, leaders)
    ensures a[l].group < |a|
  {
    assert LeaderHolds(a, leaders, l);
  }

  lemma AloneInGroup(a: seq<Node>, leaders: seq<nat>, l: nat)
    requires 1 <= l < |a| && a[l - 1].freq > a[l].freq && Ordered(a) && Grouped(a, leaders)
    requires l + 1 < |a| ==> a[l].group != a[l + 1].group
    ensures forall j :: 0 <= j < |a| && j != l ==> a[j].group != a[l].group
  {
    forall j | 0 <= j < |a| && j != l ensures a[j].group != a[l].group {
      assert a[j].group == a[l].group <==> a[j].freq == a[l].freq;
      if l + 1 < |a| {
        assert a[l + 1].group == a[l].group <==> a[l + 1].freq == a[l].freq;
        assert j > l ==> a[j].freq <= a[l + 1].freq;
      }
      assert j < l ==> a[j].freq >= a[l - 1].freq;
    }
  }

  lemma IncrementKeepsWalking(t: Tree, l: nat)
    requires Walking(t, l) && 1 <= l && t.nodes[l - 1].freq > t.nodes[l].freq
    ensures Regroupable(t, l)
    ensures t.nodes[l].parent < l && Walking(Increment(t, l), t.nodes[l].parent)
  {
    IncrementIsDefined(t, l);
    var r := Increment(t, l);
    NewGroupIsRight(t, l);
    var g := NewGroup(t, l);
    SameLinksKeepLinked(t.nodes, r.nodes);
    SameLinksKeepIndexed(t.nodes, r.nodes, t.leaves);
    IncrementMovesDeficit(t.nodes, r.nodes, l);
    BumpKeepsGroupsApart(t.nodes, r.nodes, l, g);
    IncrementKeepsLeaders(t, l);
    IncrementKeepsPool(t, l);
    assert Ordered(r.nodes);
  }
}
