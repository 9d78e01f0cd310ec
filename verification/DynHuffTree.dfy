/** The adaptive tree as it is kept: flat arrays updated in place. */
module DynHuffTrees {
  import opened Wrappers
  import opened BitStreams
  import opened Bits
  import opened TreeEntries
  import opened DynTree
  import opened DynTreeUpdate
  import opened DynTreeRun
  import opened DynTreeCode
  import opened DynTreeNew
  import Rebuilding = DynTreeRebuild

  /** The pool of frequency groups: `ids[used..]` are free, `leaders[g]` is the first node of group g. */
  class GroupPool {
    const ids: array<nat>
    const leaders: array<nat>
    var used: nat

    ghost function State(): Groups
      reads this, ids, leaders
    {
      Groups(used, ids[..], leaders[..])
    }

    constructor (n: nat)
      ensures fresh(ids) && fresh(leaders) && ids != leaders && ids.Length == leaders.Length == n
      ensures State() == Groups(0, Rebuilding.Identity(n), seq(n, _ => 0))
    {
      ids := new nat[n](i => i);
      leaders := new nat[n](_ => 0);
      used := 0;
      new;
      assert ids[..] == Rebuilding.Identity(n);
      assert leaders[..] == seq(n, _ => 0);
    }

    method Reset()
      requires ids != leaders
      modifies this, ids
      ensures State() == Groups(0, Rebuilding.Identity(ids.Length), old(leaders[..]))
    {
      used := 0;
      for i := 0 to ids.Length
        invariant forall k :: 0 <= k < i ==> ids[k] == k
        invariant used == 0
        modifies ids
      {
        ids[i] := i;
      }
      assert ids[..] == Rebuilding.Identity(ids.Length);
    }

    method Allocate() returns (id: nat)
      requires used < ids.Length
      modifies this
      ensures id == ids[old(used)] && State() == old(State()).(used := old(used) + 1)
    {
      id := ids[used];
      used := used + 1;
    }

    method Free(group: nat)
      requires 1 <= used <= ids.Length
      requires ids != leaders
      modifies this, ids
      ensures State() == Groups(old(used) - 1, old(ids[..])[old(used) - 1 := group], old(leaders[..]))
    {
      ids[used - 1] := group;
      used := used - 1;
    }

    method SetLeaderIndex(group: nat, i: nat)
      requires group < leaders.Length && ids != leaders
      modifies leaders
      ensures State() == old(State()).(leaders := old(leaders[..])[group := i])
    {
      leaders[group] := i;
    }

    method SetNextNodeAsLeader(group: nat)
      requires group < leaders.Length && ids != leaders
      modifies leaders
      ensures State() == old(State()).(leaders := old(leaders[..])[group := old(leaders[group]) + 1])
    {
      leaders[group] := leaders[group] + 1;
    }
  }

  class DynHuffTree {
    const nodes: array<Node>
    const leaves: array<nat>
    const groups: GroupPool

    constructor (n: nat)
      requires 2 <= n <= MAX_LEAVES
      ensures Valid() && fresh(Parts()) && leaves.Length == n && Model() == NewTree(n)
    {
      hide DynTree.Valid, Grown, NewTree, Growing, HeapShaped;
      nodes := new Node[2 * n - 1](_ => Node(Branch(0), 0, 0, 0));
      leaves := new nat[n](v requires 0 <= v < n => 2 * n - 2 - v);
      groups := new GroupPool(2 * n - 1);
      new;
      var lastGroup := groups.Allocate();
      PlaceLeaves(n, lastGroup);
      LeavesAreGrown(n);
      PlaceBranches(n, lastGroup);
    }

    /** Pair nodes from the end of the array on, level by level, until the root is placed. */
    method PlaceBranches(n: nat, group: nat)
      requires Wired() && 2 <= n <= MAX_LEAVES && nodes.Length == 2 * n - 1 && leaves.Length == n
      requires Model() == Grown(n, n - 1) && group == nodes[n - 1].group
      modifies nodes, groups, groups.leaders
      ensures Valid() && Model() == NewTree(n)
    {
      hide Growing, Grown, DynTree.Valid, NewTree, HeapShaped;
      NewTreeIsHeap(n);
      var tail, restLen, lastFreq, lastGroup := n, 2 * n - 1, 0, group;
      while tail > 1
        invariant 1 <= tail <= n && restLen == 2 * tail - 1
        invariant Model() == Grown(n, tail - 1)
        invariant lastFreq == LastFreq(Model(), n, tail - 1) && lastGroup == nodes[tail - 1].group
      {
        var parentLen := tail / 2;
        var headLen := restLen - parentLen * 2;
        var headEnd := headLen - tail % 2;
        for j := 0 to parentLen
          invariant Model() == Grown(n, tail - 1 - j)
          invariant lastFreq == LastFreq(Model(), n, tail - 1 - j) && lastGroup == nodes[tail - 1 - j].group
        {
          GrownNext(n, tail - 1 - j);
          var i, c := headEnd - 1 - j, restLen - 1 - 2 * j;
          assert i == tail - 1 - j - 1 && c == 2 * i + 2;
          lastFreq, lastGroup := PlaceParent(i, c, lastFreq, lastGroup);
        }
        tail := tail - parentLen;
        restLen := headLen;
      }
    }

    /** Fill the end of the array with the leaves, value 0 last. */
    method PlaceLeaves(n: nat, group: nat)
      requires Wired() && nodes.Length == 2 * n - 1 && 2 <= n && leaves.Length == n && group == 0
      requires forall i :: 0 <= i < nodes.Length ==> nodes[i] == Node(Branch(0), 0, 0, 0)
      requires forall v :: 0 <= v < n ==> leaves[v] == 2 * n - 2 - v
      requires groups.State() == Groups(1, Rebuilding.Identity(2 * n - 1), seq(2 * n - 1, _ => 0))
      modifies nodes
      ensures Model() == LeavesTree(n)
    {
      for value := 0 to n
        invariant forall i {:trigger nodes[i]} :: 2 * n - 1 - value <= i < 2 * n - 1 ==>
                    nodes[i] == Node(Leaf(2 * n - 2 - i), 1, 0, group)
        invariant forall i {:trigger nodes[i]} :: 0 <= i < 2 * n - 1 - value ==> nodes[i] == old(nodes[i])
      {
        nodes[2 * n - 2 - value] := Node(Leaf(value), 1, 0, group);
      }
    }

    /** Make node i the parent of the pair at c, in a new group if its count is new. */
    method PlaceParent(i: nat, c: nat, lastFreq: nat, lastGroup: nat) returns (freq: nat, group: nat)
      requires Wired() && c == 2 * i + 2 && c < nodes.Length && lastGroup < groups.leaders.Length
      requires groups.used < groups.ids.Length
      modifies nodes, groups, groups.leaders
      ensures Model() == Grow(old(Model()), i, lastFreq, lastGroup)
      ensures freq == nodes[i].freq && group == nodes[i].group
    {
      freq, group := nodes[c - 1].freq + nodes[c].freq, lastGroup;
      nodes[c - 1] := nodes[c - 1].(parent := i);
      nodes[c] := nodes[c].(parent := i);
      if freq != lastFreq {
        groups.SetLeaderIndex(lastGroup, i + 1);
        group := groups.Allocate();
      }
      nodes[i] := Node(Branch(c), freq, 0, group);
    }

    /** The arrays are distinct objects. */
    ghost predicate Wired() {
      groups.ids != groups.leaders && leaves != groups.ids && leaves != groups.leaders
    }

    ghost function Parts(): set<object> {
      {nodes, leaves, groups, groups.ids, groups.leaders}
    }

    ghost function Model(): Tree
      reads nodes, leaves, groups, groups.ids, groups.leaders
    {
      Tree(nodes[..], leaves[..], groups.State())
    }

    ghost predicate Valid()
      reads nodes, leaves, groups, groups.ids, groups.leaders
    {
      Wired() && DynTree.Valid(Model())
    }

    method SetChildrenParent(child: nat, parent: nat)
      requires Wired() && 1 <= child < nodes.Length
      modifies nodes
      ensures Model() == old(Model()).(nodes := SetAsParent(old(nodes[..]), Branch(child), parent))
    {
      nodes[child - 1] := nodes[child - 1].(parent := parent);
      nodes[child] := nodes[child].(parent := parent);
    }

    /** Tell an entry that now sits at node i where it is: its leaf's index or its children's parent. */
    method Relocate(entry: Entry, i: nat)
      requires Wired() && EntryInRange(Model(), entry)
      modifies nodes, leaves
      ensures Model() == old(Model()).(nodes := SetAsParent(old(nodes[..]), entry, i),
                                       leaves := SetLeafIndex(old(leaves[..]), entry, i))
    {
      match entry {
        case Leaf(value) => leaves[value] := i;
        case Branch(child) => SetChildrenParent(child, i);
      }
    }

    method PromoteToLeader(i: nat) returns (leader: nat)
      requires Wired() && i < nodes.Length
      requires nodes[i].group < groups.leaders.Length && Leader(Model(), i) <= i
      requires EntryInRange(Model(), nodes[i].entry) && EntryInRange(Model(), nodes[Leader(Model(), i)].entry)
      modifies nodes, leaves
      ensures leader == Leader(old(Model()), i) && Model() == Promote(old(Model()), i)
      ensures leader == old(groups.leaders[nodes[i].group])
      ensures groups.State() == old(groups.State()) && (leader == i ==> Model() == old(Model()))
      ensures leader < i ==> Swapped(old(nodes[..]), nodes[..], i, leader)
      ensures old(Indexed(nodes[..], leaves[..])) ==> Indexed(nodes[..], leaves[..])
    {
      PromotionSwaps(Model(), i);
      leader := groups.leaders[nodes[i].group];
      if leader == i {
        return;
      }
      var entry := nodes[i].entry;
      nodes[i] := nodes[i].(entry := nodes[leader].entry);
      nodes[leader] := nodes[leader].(entry := entry);
      Relocate(nodes[i].entry, i);
      Relocate(entry, leader);
    }

    method IncrementFrequency(i: nat) returns (parent: nat)
      requires Wired() && 1 <= i < nodes.Length && Regroupable(Model(), i)
      modifies nodes, groups, groups.ids, groups.leaders
      ensures parent == old(nodes[i].parent) && Model() == Increment(old(Model()), i)
    {
      nodes[i] := nodes[i].(freq := nodes[i].freq + 1);
      parent := nodes[i].parent;
      if i + 1 < nodes.Length && nodes[i].group == nodes[i + 1].group {
        groups.SetNextNodeAsLeader(nodes[i].group);
        if nodes[i].freq == nodes[i - 1].freq {
          nodes[i] := nodes[i].(group := nodes[i - 1].group);
        } else {
          var id := groups.Allocate();
          nodes[i] := nodes[i].(group := id);
          groups.SetLeaderIndex(id, i);
        }
        return;
      }
      if nodes[i].freq == nodes[i - 1].freq {
        groups.Free(nodes[i].group);
        nodes[i] := nodes[i].(group := nodes[i - 1].group);
      }
    }

    /** Take the leaves out of the tree, in node order, with halved counts. */
    method TakeLeaves() returns (list: seq<Rebuilding.Weighted>)
      ensures list == Rebuilding.LeafList(nodes[..], nodes.Length)
    {
      list := [];
      for i := 0 to nodes.Length
        invariant list == Rebuilding.LeafList(nodes[..], i)
      {
        if nodes[i].entry.Leaf? {
          list := list + [Rebuilding.Weighted(nodes[i].entry.value, (nodes[i].freq + 1) / 2)];
        }
      }
    }

    ghost function BuildState(queue: seq<Rebuilding.Weighted>, target: nat, len: nat): Rebuilding.Build
      reads nodes, leaves
    {
      Rebuilding.Build(nodes[..], leaves[..], queue, target, len)
    }

    method PlaceLeaf(w: Rebuilding.Weighted, i: nat)
      requires Wired() && i < nodes.Length && w.value < leaves.Length
      modifies nodes, leaves
      ensures nodes[..] == old(nodes[..])[i := old(nodes[i]).(entry := Leaf(w.value), freq := w.freq)]
      ensures leaves[..] == old(leaves[..])[w.value := i]
    {
      leaves[w.value] := i;
      nodes[i] := nodes[i].(entry := Leaf(w.value), freq := w.freq);
    }

    method RebuildTree()
      requires Valid()
      modifies Parts()
      ensures Valid() && Model() == Rebuilding.Rebuild(old(Model()))
    {
      hide Rebuilding.Building;
      ghost var t := Model();
      Rebuilding.RebuildLightensRoot(t);
      Rebuilding.RebuildParts(t);
      MergeLeaves();
      RebuildGroups();
    }

    /** Move the leaves away, then merge pairs until the root is placed. */
    method MergeLeaves()
      requires Valid()
      modifies nodes, leaves
      ensures groups.State() == old(groups.State())
      ensures var b := Rebuilding.Merge(Rebuilding.StartBuild(old(Model())));
        nodes[..] == b.nodes && leaves[..] == b.leaves
    {
      hide Rebuilding.Building, Rebuilding.BetweenRounds;
      ghost var t, all, rank := Model(), Rebuilding.LeafList(nodes[..], nodes.Length), Rebuilding.Ranks(Model());
      Rebuilding.StartIsBuilding(t);
      Rebuilding.MergeFillsAll(Rebuilding.StartBuild(t), all, rank);
      var queue := TakeLeaves();
      var target, len := nodes.Length, nodes.Length;
      while len > 2
        invariant 0 <= target && 0 <= len
        invariant Rebuilding.Building(BuildState(queue, target, len), all, rank)
        invariant Rebuilding.BetweenRounds(BuildState(queue, target, len))
        invariant Rebuilding.Merge(BuildState(queue, target, len)) == Rebuilding.Merge(Rebuilding.StartBuild(t))
        decreases len
      {
        queue, target := MergeRound(queue, target, len, all, rank);
        len := len - 2;
      }
    }

    /** One round of the merge: fill up the next pair, place the light leaves, then the branch over the pair. */
    method MergeRound(queue: seq<Rebuilding.Weighted>, target: nat, len: nat,
                      ghost all: seq<Rebuilding.Weighted>, ghost rank: seq<nat>)
      returns (queue': seq<Rebuilding.Weighted>, target': nat)
      requires Wired() && 3 <= len
      requires Rebuilding.Building(BuildState(queue, target, len), all, rank)
      requires Rebuilding.BetweenRounds(BuildState(queue, target, len))
      modifies nodes, leaves
      ensures Rebuilding.CanMerge(old(BuildState(queue, target, len)))
      ensures BuildState(queue', target', len - 2) == Rebuilding.MergeRound(old(BuildState(queue, target, len)))
      ensures Rebuilding.Building(BuildState(queue', target', len - 2), all, rank)
      ensures Rebuilding.BetweenRounds(BuildState(queue', target', len - 2))
    {
      hide Rebuilding.Building, Rebuilding.BetweenRounds;
      ghost var b := BuildState(queue, target, len);
      Rebuilding.RoundKeepsBuilding(b, all, rank);
      Rebuilding.FillPairKeepsBuilding(b, all, rank);
      queue', target' := FillPair(queue, target, len, all, rank);
      ghost var f := BuildState(queue', target', len);
      var freq := nodes[len - 1].freq + nodes[len - 2].freq;
      assert f == Rebuilding.FillPair(b) && freq == Rebuilding.PairFreq(f);
      queue', target' := TakeLight(queue', target', len, freq, all, rank);
      Rebuilding.LeafIsAvailable(BuildState(queue', target', len), all, rank);
      assert BuildState(queue', target', len) == Rebuilding.TakeLight(f, freq);
      PlaceBranch(queue', target', len, freq);
      target' := target' - 1;
    }

    /** Insert the branch over the last pair at the next free slot. */
    method PlaceBranch(ghost queue: seq<Rebuilding.Weighted>, target: nat, len: nat, freq: nat)
      requires 3 <= len <= nodes.Length && 0 < target <= nodes.Length
      modifies nodes
      ensures BuildState(queue, target - 1, len - 2)
        == Rebuilding.PlaceBranch(old(BuildState(queue, target, len)), freq)
    {
      var i, c := target - 1, len - 1;
      nodes[i] := nodes[i].(entry := Branch(c), freq := freq);
      nodes[c] := nodes[c].(parent := i);
      nodes[c - 1] := nodes[c - 1].(parent := i);
    }

    /** Copy at least two more leaves if there are not enough children. */
    method FillPair(queue: seq<Rebuilding.Weighted>, target: nat, len: nat,
                    ghost all: seq<Rebuilding.Weighted>, ghost rank: seq<nat>)
      returns (queue': seq<Rebuilding.Weighted>, target': nat)
      requires Wired() && 3 <= len && Rebuilding.Building(BuildState(queue, target, len), all, rank)
      modifies nodes, leaves
      ensures BuildState(queue', target', len) == Rebuilding.FillPair(old(BuildState(queue, target, len)))
    {
      ghost var b := BuildState(queue, target, len);
      queue', target' := queue, target;
      while len < target' + 2
        invariant 0 <= target' && Rebuilding.Building(BuildState(queue', target', len), all, rank)
        invariant Rebuilding.FillPair(BuildState(queue', target', len)) == Rebuilding.FillPair(b)
        decreases |queue'|
      {
        queue', target' := PlaceNext(queue', target', len, all, rank);
      }
    }

    /** Copy more leaves while they are no heavier than freq. */
    method TakeLight(queue: seq<Rebuilding.Weighted>, target: nat, len: nat, freq: nat,
                     ghost all: seq<Rebuilding.Weighted>, ghost rank: seq<nat>)
      returns (queue': seq<Rebuilding.Weighted>, target': nat)
      requires Wired() && 3 <= len && Rebuilding.Building(BuildState(queue, target, len), all, rank)
      modifies nodes, leaves
      ensures BuildState(queue', target', len) == Rebuilding.TakeLight(old(BuildState(queue, target, len)), freq)
      ensures Rebuilding.Building(BuildState(queue', target', len), all, rank)
    {
      ghost var b := BuildState(queue, target, len);
      queue', target' := queue, target;
      while |queue'| > 0 && queue'[|queue'| - 1].freq <= freq
        invariant 0 <= target' && Rebuilding.Building(BuildState(queue', target', len), all, rank)
        invariant Rebuilding.TakeLight(BuildState(queue', target', len), freq) == Rebuilding.TakeLight(b, freq)
        decreases |queue'|
      {
        Rebuilding.LeafIsAvailable(BuildState(queue', target', len), all, rank);
        queue', target' := PlaceNext(queue', target', len, all, rank);
      }
    }

    /** Copy the next leaf, which is there whenever it is asked for. */
    method PlaceNext(queue: seq<Rebuilding.Weighted>, target: nat, len: nat,
                     ghost all: seq<Rebuilding.Weighted>, ghost rank: seq<nat>)
      returns (queue': seq<Rebuilding.Weighted>, target': nat)
      requires Wired() && 3 <= len && Rebuilding.Building(BuildState(queue, target, len), all, rank)
      requires len < target + 2 || queue != []
      modifies nodes, leaves
      ensures Rebuilding.CanPlace(old(BuildState(queue, target, len)))
      ensures BuildState(queue', target', len) == Rebuilding.PlaceLeaf(old(BuildState(queue, target, len)))
      ensures Rebuilding.Building(BuildState(queue', target', len), all, rank) && |queue'| < |queue|
    {
      hide Rebuilding.Building;
      ghost var b := BuildState(queue, target, len);
      Rebuilding.LeafIsAvailable(b, all, rank);
      Rebuilding.PlaceLeafKeepsBuilding(b, all, rank);
      target' := target - 1;
      PlaceLeaf(queue[|queue| - 1], target');
      queue' := queue[..|queue| - 1];
    }

    /** Give out group ids from scratch, in node order. */
    method RebuildGroups()
      requires Wired() && 1 <= nodes.Length == groups.leaders.Length == groups.ids.Length
      modifies nodes, groups, groups.ids, groups.leaders
      ensures leaves[..] == old(leaves[..])
      ensures (nodes[..], groups.State()) == Rebuilding.Regroup(old(nodes[..]), old(groups.leaders[..]), nodes.Length)
    {
      ghost var before, leaders := nodes[..], groups.leaders[..];
      groups.Reset();
      var group := groups.Allocate();
      var freq := nodes[0].freq;
      nodes[0] := nodes[0].(group := group);
      groups.SetLeaderIndex(group, 0);
      for i := 1 to nodes.Length
        invariant Wired() && leaves[..] == old(leaves[..])
        invariant (nodes[..], groups.State()) == Rebuilding.Regroup(before, leaders, i)
        invariant freq == nodes[i - 1].freq && group == nodes[i - 1].group
        modifies nodes, groups, groups.leaders
      {
        freq, group := AssignGroup(i, freq, group);
      }
    }

    /** Put node i in the group of the node before it, or in a new one that it leads. */
    method AssignGroup(i: nat, lastFreq: nat, lastGroup: nat) returns (freq: nat, group: nat)
      requires Wired() && 1 <= i < nodes.Length == groups.leaders.Length == groups.ids.Length
      requires groups.used < groups.ids.Length && groups.ids[groups.used] < groups.leaders.Length
      requires lastFreq == nodes[i - 1].freq && lastGroup == nodes[i - 1].group
      modifies nodes, groups, groups.leaders
      ensures (nodes[..], groups.State()) == Rebuilding.RegroupNode(old(nodes[..]), old(groups.State()), i)
      ensures freq == nodes[i].freq && group == nodes[i].group
    {
      freq, group := nodes[i].freq, lastGroup;
      if freq == lastFreq {
        nodes[i] := nodes[i].(group := group);
      } else {
        group := groups.Allocate();
        nodes[i] := nodes[i].(group := group);
        groups.SetLeaderIndex(group, i);
      }
    }

    /** Count one more occurrence of a value, after rebuilding the tree if its root has reached the limit. */
    method IncrementForValue(value: nat)
      requires Valid() && value < leaves.Length
      modifies Parts()
      ensures Valid() && Model() == Update(old(Model()), value)
    {
      hide DynTree.Valid, Walking, WalkUp, Prepared, Update, Rebuilding.Rebuild;
      ghost var t: ValidTree := Model();
      UpdateSteps(t, value);
      ghost var s := Prepared(t);
      if nodes[0].freq >= REORDER_LIMIT {
        RebuildTree();
      }
      nodes[0] := nodes[0].(freq := nodes[0].freq + 1);
      assert Model() == CountRoot(s);
      CountUpwards(leaves[value]);
    }

    /** Walk up from node `start`, re-arranging and counting nodes. */
    method CountUpwards(start: nat)
      requires Wired() && Walking(Model(), start)
      modifies Parts()
      ensures Model() == WalkUp(old(Model()), start)
    {
      hide Walking, WalkUp, Leader, Promote, Increment, EntryInRange, Regroupable;
      var i := start;
      while i != 0
        invariant 0 <= i && Walking(Model(), i) && WalkUp(Model(), i) == WalkUp(old(Model()), start)
        decreases i
      {
        WalkStep(Model(), i);
        var l := PromoteToLeader(i);
        i := IncrementFrequency(l);
      }
      WalkEnds(Model());
    }

    /** Follow the bits of a stream from the root to a leaf. */
    method FindLeaf(path: BitStream) returns (r: Result<nat>)
      requires Valid() && path.Valid()
      modifies path, path.inner, path.inner.inner
      ensures path.Valid() && path.inner.End() == old(path.inner.End())
      ensures Valid() && Model() == old(Model())
      ensures r.Ok? <==> Lookup(Model().nodes, 0, old(path.Bits())).Some?
      ensures r.Ok? ==> Lookup(Model().nodes, 0, old(path.Bits())) == Some((r.value, path.Bits()))
    {
      hide DynTree.Valid, Linked, Lookup, NextBits, BitStream.Valid, BitStream.Bits;
      path.ValidParts();
      ghost var t: ValidTree, bits := Model(), path.Bits();
      ValidIsLinked(t);
      var i := 0;
      while nodes[i].entry.Branch?
        invariant path.Valid() && path.inner.End() == old(path.inner.End())
        invariant 0 <= i < nodes.Length && Lookup(t.nodes, i, path.Bits()) == Lookup(t.nodes, 0, bits)
        decreases |path.Bits()|
      {
        LookupStep(t.nodes, i, path.Bits());
        var bit := path.ReadBits(path.width, 1);
        if bit.Err? {
          return Err(bit.error);
        }
        i := nodes[i].entry.child - bit.value;
      }
      LookupStep(t.nodes, i, path.Bits());
      return Ok(nodes[i].entry.value);
    }

    /** Read a value and count it. */
    method ReadEntry(path: BitStream) returns (r: Result<nat>)
      requires Valid() && path.Valid()
      modifies Parts(), path, path.inner, path.inner.inner
      ensures path.Valid() && path.inner.End() == old(path.inner.End())
      ensures r.Ok? <==> ReadSymbol(old(Model()), old(path.Bits())).Some?
      ensures r.Ok? ==> Valid() && ReadSymbol(old(Model()), old(path.Bits())) == Some((r.value, Model(), path.Bits()))
    {
      hide DynTree.Valid, ReadSymbol, Lookup, Update, BitStream.Valid, BitStream.Bits;
      ghost var t: ValidTree, bits := Model(), path.Bits();
      SymbolIsLookup(t, bits);
      r := FindLeaf(path);
      if r.Ok? {
        IncrementForValue(r.value);
      }
    }
  }
}
