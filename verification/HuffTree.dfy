/** The static tree as it is built: a vector filled level by level from a length table. */
module HuffTrees {
  import opened Wrappers
  import opened BitStreams
  import opened Sums
  import opened Bits
  import opened TreeEntries
  import opened StaticTree
  import opened CanonicalCode

  /** The nodes that spell a code. */
  ghost function Spelled(code: Code): seq<Entry> {
    match code
    case Single(v) => [Leaf(v)]
    case Canonical(lengths) => WholeTree(lengths)
  }

  lemma {:induction false} NoValues(lengths: Lengths, len: nat, n: nat)
    requires n <= |lengths| && forall i :: 0 <= i < |lengths| ==> lengths[i] < len
    ensures ValuesOf(lengths, len, n) == []
  {
    if n > 0 { NoValues(lengths, len, n - 1); }
  }

  lemma {:induction false} ZeroesAddNothing(lengths: Lengths, n: nat, m: nat)
    requires n <= m <= |lengths| && forall i :: n <= i < m ==> lengths[i] == 0
    ensures KraftSum(lengths, MAX_LENGTH, m) == KraftSum(lengths, MAX_LENGTH, n)
  {
    if n < m { ZeroesAddNothing(lengths, n, m - 1); }
  }

  /** Two codes of one bit, in a table of half the largest index. */
  function LargestTable(): (lengths: Lengths)
    ensures |lengths| == 16383
  {
    [1, 1] + seq(MAX_INDEX / 2 - 2, _ => 0)
  }

  /** There are complete tables of exactly the largest size that is accepted. */
  lemma LargestTableIsComplete()
    ensures |LargestTable()| == 16383 && Complete(LargestTable())
  {
    hide Pow2;
    var lengths := LargestTable();
    ZeroesAddNothing(lengths, 2, |lengths|);
    assert KraftSum(lengths, MAX_LENGTH, 0) == 0;
    assert KraftSum(lengths, MAX_LENGTH, 1) == Pow2(MAX_LENGTH - 1);
    assert KraftSum(lengths, MAX_LENGTH, 2) == 2 * Pow2(MAX_LENGTH - 1);
    Doubles(MAX_LENGTH - 1);
  }

  lemma Doubles(n: nat)
    ensures Pow2(n + 1) == 2 * Pow2(n)
  {
  }

  /** Below the longest codes of a complete table there is nothing. */
  lemma {:induction false} NothingBelow(lengths: CompleteLengths, last: nat, depth: nat)
    requires last <= depth <= MAX_LENGTH && AllWithin(lengths, last) && Fits(lengths, last)
    ensures Fits(lengths, depth) && Open(lengths, depth) == 0
    decreases depth
  {
    hide Shl, KraftSum, Complete;
    CompleteFits(lengths, depth);
    if depth == last {
      CompleteMeansFull(lengths, last);
    } else {
      NothingBelow(lengths, last, depth - 1);
      NoValues(lengths, depth, |lengths|);
    }
  }

  /** A row without nodes adds nothing. */
  lemma EmptyRow(lengths: Lengths, depth: nat)
    requires depth > 0 && Fits(lengths, depth) && Fits(lengths, depth - 1)
    requires Open(lengths, depth) == 0 && ValuesOf(lengths, depth, |lengths|) == []
    ensures Rows(lengths, depth + 1) == Rows(lengths, depth)
  {
    StartIsNatural(lengths, depth + 1);
    assert LeafRow(lengths, depth) == [] && BranchRow(lengths, depth, 0) == [];
  }

  lemma LastRow(lengths: Lengths, depth: nat)
    requires Fits(lengths, depth) && (depth > 0 ==> Fits(lengths, depth - 1)) && Open(lengths, depth) == 0
    ensures Rows(lengths, depth + 1) == Rows(lengths, depth) + LeafRow(lengths, depth)
  {
    StartIsNatural(lengths, depth + 1);
    assert BranchRow(lengths, depth, 0) == [];
  }

  lemma {:induction false} RowsSettle(lengths: CompleteLengths, last: nat, depth: nat)
    requires last <= depth <= MAX_LENGTH && AllWithin(lengths, last) && Fits(lengths, last)
    ensures Fits(lengths, depth) && (last > 0 ==> Fits(lengths, last - 1))
    ensures Rows(lengths, depth + 1) == Rows(lengths, last) + LeafRow(lengths, last)
    decreases depth
  {
    hide Rows, Start, Open, LeafRow, BranchRow, Complete, KraftSum, Shl, Fits, ValuesOf;
    if last > 0 { CompleteFits(lengths, last - 1); }
    NothingBelow(lengths, last, depth);
    if depth == last {
      LastRow(lengths, last);
    } else {
      RowsSettle(lengths, last, depth - 1);
      NoValues(lengths, depth, |lengths|);
      EmptyRow(lengths, depth);
    }
  }

  /** Children come after their branch, in the next row. */
  lemma {:induction false} RowsClosed(lengths: Lengths, depth: nat, i: nat)
    requires depth > 0 && Fits(lengths, depth - 1)
    requires i < |Rows(lengths, depth)| && Rows(lengths, depth)[i].Branch?
    ensures i < Rows(lengths, depth)[i].child && Rows(lengths, depth)[i].child + 1 < Start(lengths, depth + 1)
  {
    var d := depth - 1;
    assert Open(lengths, d) >= 0;
    StartIsNatural(lengths, depth);
    if d > 0 { FitsPrefix(lengths, d); }
    if i < |Rows(lengths, d)| {
      RowsClosed(lengths, d, i);
    } else {
      Segment(Rows(lengths, d), LeafRow(lengths, d), BranchRow(lengths, d, Open(lengths, d)), i - |Rows(lengths, d)|);
    }
  }

  /** In a whole tree no child index is out of range, and a tree for n codes has 2n - 1 nodes. */
  lemma WholeTreeIsClosed(lengths: CompleteLengths)
    ensures |WholeTree(lengths)| == 2 * Shorter(lengths, MAX_LENGTH, |lengths|) - 1
    ensures forall i :: 0 <= i < |WholeTree(lengths)| && WholeTree(lengths)[i].Branch? ==>
      i < WholeTree(lengths)[i].child && WholeTree(lengths)[i].child + 1 < |WholeTree(lengths)|
  {
    CompleteFits(lengths, MAX_LENGTH);
    CompleteMeansFull(lengths, MAX_LENGTH);
    StartCounts(lengths, MAX_LENGTH);
    forall i | 0 <= i < |WholeTree(lengths)| && WholeTree(lengths)[i].Branch?
      ensures i < WholeTree(lengths)[i].child && WholeTree(lengths)[i].child + 1 < |WholeTree(lengths)|
    {
      RowsClosed(lengths, MAX_LENGTH + 1, i);
    }
  }

  /** The vector between two levels: all rows above, and the leaves of the row just filled. */
  ghost predicate Between(tree: seq<Entry>, maxAllocated: int, lengths: Lengths, depth: nat) {
    && Fits(lengths, depth)
    && (depth > 0 ==> Fits(lengths, depth - 1))
    && tree == Rows(lengths, depth) + LeafRow(lengths, depth)
    && maxAllocated == Start(lengths, depth + 1)
  }

  lemma FitsPrefix(lengths: Lengths, depth: nat)
    requires depth > 0 && Fits(lengths, depth)
    ensures Fits(lengths, depth - 1)
  {
  }

  lemma FirstLevel(lengths: Lengths)
    ensures Between([], 1, lengths, 0)
  {
  }

  lemma NextLevel(tree: seq<Entry>, maxAllocated: int, lengths: Lengths, depth: nat)
    requires depth > 0 && Fits(lengths, depth - 1)
    requires tree == Rows(lengths, depth) + LeafRow(lengths, depth)
    requires maxAllocated == Start(lengths, depth + 1)
    ensures |tree| <= maxAllocated <==> Fits(lengths, depth)
    ensures |tree| <= maxAllocated ==> Between(tree, maxAllocated, lengths, depth)
  {
    if |tree| <= maxAllocated {
      forall d | 0 <= d <= depth ensures Open(lengths, d) >= 0 {
        if d < depth { assert Fits(lengths, depth - 1); }
      }
    } else {
      assert Open(lengths, depth) < 0;
    }
  }

  /** How many branches are missing between two levels. */
  lemma MissingBranches(tree: seq<Entry>, maxAllocated: int, lengths: Lengths, depth: nat)
    requires Between(tree, maxAllocated, lengths, depth)
    ensures Fits(lengths, depth) && maxAllocated - |tree| == Open(lengths, depth) >= 0
    ensures Start(lengths, depth + 2) == maxAllocated + 2 * Open(lengths, depth)
    ensures Start(lengths, depth + 1) == maxAllocated >= 0
    ensures Rows(lengths, depth + 1) == tree + BranchRow(lengths, depth, Open(lengths, depth))
  {
    StartIsNatural(lengths, depth + 1);
    assert Open(lengths, depth) >= 0;
  }

  lemma WithinMax(lengths: Lengths, len: nat)
    ensures len >= MAX_LENGTH ==> AllWithin(lengths, len)
  {
  }

  lemma WholeIsSettled(tree: seq<Entry>, maxAllocated: int, lengths: CompleteLengths, len: nat)
    requires len <= MAX_LENGTH && Between(tree, maxAllocated, lengths, len) && AllWithin(lengths, len)
    ensures tree == WholeTree(lengths)
  {
    RowsSettle(lengths, len, MAX_LENGTH);
  }

  /** No child index is out of range. */
  ghost predicate Closed(tree: seq<Entry>) {
    forall i :: 0 <= i < |tree| && tree[i].Branch? ==> tree[i].child + 1 < |tree|
  }

  /** The nodes that spell a code read it, and no child index in them is out of range. */
  lemma SpelledReads(code: Code, bits: seq<bool>)
    ensures |Spelled(code)| > 0 && Lookup(Spelled(code), 0, bits) == ReadCode(code, bits)
    ensures Closed(Spelled(code))
  {
    hide Complete, WholeTree;
    match code
    case Single(_) =>
    case Canonical(lengths) =>
      WholeTreeIsClosed(lengths);
      TreeReadsCode(lengths, bits);
  }

  /** A leaf is what is looked for; a bit leads from a branch to another node of the tree. */
  lemma LookupStep(tree: seq<Entry>, i: nat, bits: seq<bool>)
    requires i < |tree| && Closed(tree)
    ensures tree[i].Leaf? ==> Lookup(tree, i, bits) == Some((tree[i].value, bits))
    ensures tree[i].Branch? && NextBits(bits, 1).None? ==> Lookup(tree, i, bits).None?
    ensures tree[i].Branch? && NextBits(bits, 1).Some? ==>
      var (bit, rest) := NextBits(bits, 1).value;
      && tree[i].child + bit < |tree|
      && Lookup(tree, i, bits) == Lookup(tree, tree[i].child + bit, rest)
  {
    if bits != [] { OneBit(bits); }
  }

  class HuffTree {
    var tree: seq<Entry>
    ghost var code: Code

    ghost predicate Valid()
      reads this
    {
      tree == Spelled(code)
    }

    /** An empty tree, which cannot be read from. */
    constructor ()
      ensures tree == []
    {
      tree := [];
    }

    method SetSingle(value: nat)
      modifies this
      ensures Valid() && code == Single(value)
    {
      tree := [Leaf(value)];
      code := Single(value);
    }

    /** Add a branch for every node still missing at a depth; fail when an index exceeds what an entry can hold. */
    method AddBranches(lengths: Lengths, depth: nat, maxAllocated: nat) returns (r: Result<nat>)
      requires depth < MAX_LENGTH && Between(tree, maxAllocated, lengths, depth)
      modifies this
      ensures Fits(lengths, depth)
      ensures r.Ok? ==> tree == Rows(lengths, depth + 1) && r.value == Start(lengths, depth + 2)
      ensures r.Err? ==> Start(lengths, depth + 2) > MAX_INDEX + 2
    {
      hide Rows, Start, LeafRow, Fits, Open, Between;
      MissingBranches(tree, maxAllocated, lengths, depth);
      ghost var before := tree;
      var count, next := maxAllocated - |tree|, maxAllocated;
      for k := 0 to count
        invariant next == maxAllocated + 2 * k
        invariant tree == before + BranchRow(lengths, depth, k)
      {
        if next > MAX_INDEX {
          tree := [];
          return Err(Decompress);
        }
        tree := tree + [Branch(next)];
        next := next + 2;
      }
      return Ok(next);
    }

    /** Add a leaf for every value of the given length; report whether there are longer ones. */
    method AddLeaves(lengths: Lengths, len: nat) returns (more: bool)
      requires len > 0
      modifies this
      ensures tree == old(tree) + LeafRow(lengths, len)
      ensures more <==> !AllWithin(lengths, len)
    {
      more := false;
      ghost var values := ValuesOf(lengths, len, |lengths|);
      for value := 0 to |lengths|
        invariant |tree| == |old(tree)| + |ValuesOf(lengths, len, value)|
        invariant tree[..|old(tree)|] == old(tree)
        invariant forall k :: 0 <= k < |ValuesOf(lengths, len, value)| ==>
                    tree[|old(tree)| + k] == Leaf(ValuesOf(lengths, len, value)[k])
        invariant more <==> exists i :: 0 <= i < value && lengths[i] > len
      {
        if lengths[value] == len {
          tree := tree + [Leaf(value)];
        } else if lengths[value] > len {
          more := true;
        }
      }
    }

    /**
      Build the tree from a table of code lengths. It succeeds exactly for tables of an admissible size
      that meet Kraft's equality.
     */
    method BuildTree(lengths: Lengths) returns (r: Result<()>)
      modifies this
      ensures r.Ok? <==> |lengths| <= 16383 && Complete(lengths)
      ensures r.Ok? ==> Valid() && code == Canonical(lengths)
      ensures r.Err? ==> r.error == Decompress
    {
      hide Between, Fits, Complete, AllWithin, Open, Start, Rows, LeafRow, WholeTree;
      if |lengths| > MAX_INDEX / 2 {
        return Err(Decompress);
      }
      tree := [];
      var maxAllocated, len := 1, 0;
      var more := true;
      FirstLevel(lengths);
      while more
        invariant 0 <= len <= MAX_LENGTH && 0 <= maxAllocated && Between(tree, maxAllocated, lengths, len)
        invariant more ==> len == 0 || !AllWithin(lengths, len)
        invariant !more ==> len > 0 && AllWithin(lengths, len)
        decreases MAX_LENGTH - len
      {
        WithinMax(lengths, len);
        len := len + 1;
        var next := AddBranches(lengths, len - 1, maxAllocated);
        if next.Err? {
          if Complete(lengths) { CompleteStaysSmall(lengths, len); }
          return Err(Decompress);
        }
        maxAllocated := next.value;
        more := AddLeaves(lengths, len);
        NextLevel(tree, maxAllocated, lengths, len);
        if |tree| > maxAllocated {
          if Complete(lengths) { CompleteFits(lengths, len); }
          return Err(Decompress);
        }
      }
      MissingBranches(tree, maxAllocated, lengths, len);
      CompleteMeansFull(lengths, len);
      if |tree| != maxAllocated {
        return Err(Decompress);
      }
      code := Canonical(lengths);
      WholeIsSettled(tree, maxAllocated, lengths, len);
      return Ok(());
    }

    /** Follow the bits of a stream from the root to a leaf. */
    method ReadEntry(path: BitStream) returns (r: Result<nat>)
      requires Valid() && path.Valid()
      modifies path, path.inner, path.inner.inner
      ensures path.Valid() && path.inner.End() == old(path.inner.End())
      ensures r.Ok? <==> ReadCode(code, old(path.Bits())).Some?
      ensures r.Ok? ==> ReadCode(code, old(path.Bits())) == Some((r.value, path.Bits()))
    {
      hide Spelled, ReadCode, Lookup, BitStream.Valid, BitStream.Bits;
      SpelledReads(code, path.Bits());
      r := Follow(tree, path);
    }
  }

  /** Follow the bits of a stream through the nodes of a tree. */
  method Follow(tree: seq<Entry>, path: BitStream) returns (r: Result<nat>)
    requires path.Valid() && |tree| > 0 && Closed(tree)
    modifies path, path.inner, path.inner.inner
    ensures path.Valid() && path.inner.End() == old(path.inner.End())
    ensures r.Ok? <==> Lookup(tree, 0, old(path.Bits())).Some?
    ensures r.Ok? ==> Lookup(tree, 0, old(path.Bits())) == Some((r.value, path.Bits()))
  {
    hide *;
    path.ValidParts();
    ghost var whole := Lookup(tree, 0, path.Bits());
    var i := 0;
    while tree[i].Branch?
      invariant path.Valid() && path.inner.End() == old(path.inner.End())
      invariant 0 <= i < |tree| && Lookup(tree, i, path.Bits()) == whole
      decreases |path.Bits()|
    {
      LookupStep(tree, i, path.Bits());
      var bit := path.ReadBits(path.width, 1);
      if bit.Err? {
        return Err(bit.error);
      }
      i := tree[i].child + bit.value;
    }
    LookupStep(tree, i, path.Bits());
    return Ok(tree[i].value);
  }
}
