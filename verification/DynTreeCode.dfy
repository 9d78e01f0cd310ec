/** Reading symbols through the adaptive tree, and the writer it inverts. */
module DynTreeCode {
  import opened Wrappers
  import opened Bits
  import opened DynTree
  import opened DynTreeRun

  /** The bit that leads from its parent to node i > 0: a one goes to the lower index of a pair. */
  function BitOf(i: nat): bool {
    i % 2 == 1
  }

  /** The bits on the way from the root to node i. */
  ghost function Path(nodes: seq<Node>, i: nat): seq<bool>
    requires Linked(nodes) && i < |nodes|
    decreases i
  {
    if i == 0 then []
    else
      assert ParentLinked(nodes, i);
      Path(nodes, nodes[i].parent) + [BitOf(i)]
  }

  /** Follow bits from node i down to a leaf: its value and the bits left over, if the bits suffice. */
  ghost function Lookup(nodes: seq<Node>, i: nat, bits: seq<bool>): Option<(nat, seq<bool>)>
    requires Linked(nodes) && i < |nodes|
    decreases |bits|
  {
    match nodes[i].entry
    case Leaf(v) => Some((v, bits))
    case Branch(c) =>
      assert ChildrenLinked(nodes, i);
      if bits == [] then None
      else Lookup(nodes, c - (if bits[0] then 1 else 0), bits[1..])
  }

  /** A leaf is what is looked for; a bit leads from a branch to another node. */
  lemma LookupStep(nodes: seq<Node>, i: nat, bits: seq<bool>)
    requires Linked(nodes) && i < |nodes|
    ensures nodes[i].entry.Leaf? ==> Lookup(nodes, i, bits) == Some((nodes[i].entry.value, bits))
    ensures nodes[i].entry.Branch? && NextBits(bits, 1).None? ==> Lookup(nodes, i, bits).None?
    ensures nodes[i].entry.Branch? && NextBits(bits, 1).Some? ==>
      var (bit, rest) := NextBits(bits, 1).value;
      && bit <= nodes[i].entry.child < |nodes| + bit
      && Lookup(nodes, i, bits) == Lookup(nodes, nodes[i].entry.child - bit, rest)
  {
    if nodes[i].entry.Branch? { ChildrenInRange(nodes, i); }
    hide Linked, ChildrenLinked, NextBits;
    if bits != [] { OneBit(bits); }
  }

  /** Following a node's path leads to the node. */
  lemma {:induction false} LookupFollowsPath(nodes: seq<Node>, i: nat, rest: seq<bool>)
    requires Linked(nodes) && i < |nodes|
    ensures Lookup(nodes, 0, Path(nodes, i) + rest) == Lookup(nodes, i, rest)
    decreases i
  {
    if i == 0 {
      assert Path(nodes, 0) + rest == rest;
    } else {
      assert ParentLinked(nodes, i);
      var p := nodes[i].parent;
      assert Path(nodes, i) + rest == Path(nodes, p) + ([BitOf(i)] + rest);
      LookupFollowsPath(nodes, p, [BitOf(i)] + rest);
      assert ([BitOf(i)] + rest)[1..] == rest;
    }
  }

  /** The code of value v in tree t. */
  ghost function Code(t: ValidTree, v: nat): seq<bool>
    requires v < |t.leaves|
  {
    assert ValueIndexed(t.nodes, t.leaves, v);
    Path(t.nodes, t.leaves[v])
  }

  /** Reading a symbol's code, whatever follows it, gives the symbol and exactly what follows. */
  lemma CodeIsRead(t: ValidTree, v: nat, rest: seq<bool>)
    requires v < |t.leaves|
    ensures Lookup(t.nodes, 0, Code(t, v) + rest) == Some((v, rest))
  {
    assert ValueIndexed(t.nodes, t.leaves, v);
    LookupFollowsPath(t.nodes, t.leaves[v], rest);
  }

  /** Whatever is read is some symbol's code followed by what is left. */
  lemma {:induction false} ReadIsCode(t: ValidTree, i: nat, bits: seq<bool>)
    requires i < |t.nodes| && Lookup(t.nodes, i, bits).Some?
    ensures var (v, rest) := Lookup(t.nodes, i, bits).value;
      v < |t.leaves| && Path(t.nodes, i) + bits == Code(t, v) + rest && |rest| <= |bits|
    decreases |bits|
  {
    match t.nodes[i].entry
    case Leaf(v) =>
      assert LeafIndexed(t.nodes, t.leaves, i);
    case Branch(c) =>
      assert ChildrenLinked(t.nodes, i);
      var k := c - (if bits[0] then 1 else 0);
      ReadIsCode(t, k, bits[1..]);
      assert Path(t.nodes, k) + bits[1..] == Path(t.nodes, i) + bits;
  }

  /** The writer: each symbol's code in the current tree, which is then updated. */
  ghost function Encode(t: ValidTree, syms: seq<nat>): seq<bool>
    requires InAlphabet(syms, |t.leaves|)
    decreases |syms|
  {
    if syms == [] then [] else Code(t, syms[0]) + Encode(Update(t, syms[0]), syms[1..])
  }

  lemma ValidIsLinked(t: ValidTree)
    ensures Linked(t.nodes) && |t.nodes| > 0
    ensures forall i :: 0 <= i < |t.nodes| && t.nodes[i].entry.Leaf? ==> t.nodes[i].entry.value < |t.leaves|
  {
    forall i | 0 <= i < |t.nodes| && t.nodes[i].entry.Leaf? ensures t.nodes[i].entry.value < |t.leaves| {
      assert LeafIndexed(t.nodes, t.leaves, i);
    }
  }

  /** The reader: one symbol, and the tree it leaves behind. */
  ghost function ReadSymbol(t: ValidTree, bits: seq<bool>): (r: Option<(nat, ValidTree, seq<bool>)>)
    ensures r.Some? ==> r.value.0 < |t.leaves| && |r.value.1.leaves| == |t.leaves| && |r.value.2| <= |bits|
  {
    match Lookup(t.nodes, 0, bits)
    case None => None
    case Some((v, rest)) =>
      ReadIsCode(t, 0, bits);
      Some((v, Update(t, v), rest))
  }

  /** A symbol is read exactly if a leaf is found; the tree then counts it. */
  lemma SymbolIsLookup(t: ValidTree, bits: seq<bool>)
    ensures 0 < |t.nodes| && (ReadSymbol(t, bits).Some? <==> Lookup(t.nodes, 0, bits).Some?)
    ensures Lookup(t.nodes, 0, bits).Some? ==>
      var (v, rest) := Lookup(t.nodes, 0, bits).value;
      v < |t.leaves| && ReadSymbol(t, bits) == Some((v, Update(t, v), rest))
  {
    hide Lookup, Update;
    RootIsThere(t);
    if Lookup(t.nodes, 0, bits).Some? { ReadIsCode(t, 0, bits); }
  }

  lemma RootIsThere(t: ValidTree)
    ensures 0 < |t.nodes|
  {
  }

  /** n symbols in a row. */
  ghost function Decode(t: ValidTree, bits: seq<bool>, n: nat): Option<(seq<nat>, ValidTree, seq<bool>)>
    decreases n
  {
    if n == 0 then Some(([], t, bits))
    else match ReadSymbol(t, bits)
      case None => None
      case Some((v, t1, rest)) =>
        match Decode(t1, rest, n - 1)
        case None => None
        case Some((vs, t2, left)) => Some(([v] + vs, t2, left))
  }

  lemma SymbolIsRead(t: ValidTree, v: nat, rest: seq<bool>)
    requires v < |t.leaves|
    ensures ReadSymbol(t, Code(t, v) + rest) == Some((v, Update(t, v), rest))
  {
    CodeIsRead(t, v, rest);
  }

  /**
    Reading back what was written recovers the symbols, uses exactly the bits written, and leaves the reader
    with the writer's tree.
   */
  lemma {:induction false} RoundTrip(t: ValidTree, syms: seq<nat>, rest: seq<bool>)
    requires InAlphabet(syms, |t.leaves|)
    ensures Decode(t, Encode(t, syms) + rest, |syms|) == Some((syms, Run(t, syms), rest))
    decreases |syms|
  {
    hide Valid, ReadSymbol, Update, Code;
    if syms == [] {
      assert Encode(t, syms) + rest == rest;
    } else {
      var t1, tail := Update(t, syms[0]), Encode(Update(t, syms[0]), syms[1..]) + rest;
      assert Encode(t, syms) + rest == Code(t, syms[0]) + tail;
      SymbolIsRead(t, syms[0], tail);
      RoundTrip(t1, syms[1..], rest);
      assert [syms[0]] + syms[1..] == syms;
    }
  }
}
