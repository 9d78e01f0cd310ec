/** The canonical code of a length table, and why the tree's rows spell it. */
module CanonicalCode {
  import opened Wrappers
  import opened Sums
  import opened Bits
  import opened TreeEntries
  import opened StaticTree

  type CompleteLengths = s: Lengths | Complete(s) ghost witness (TwoLengthsAreComplete(); [1, 1])

  lemma TwoLengthsAreComplete()
    ensures Complete([1, 1])
  {
    var s: Lengths := [1, 1];
    assert KraftSum(s, MAX_LENGTH, 0) == 0;
    assert KraftSum(s, MAX_LENGTH, 1) == Pow2(MAX_LENGTH - 1);
    assert KraftSum(s, MAX_LENGTH, 2) == 2 * Pow2(MAX_LENGTH - 1);
    assert Pow2(MAX_LENGTH - 1 + 1) == 2 * Pow2(MAX_LENGTH - 1);
  }

  /** The code of the first value of a given length, as in step 2 of section 3.2.2 of RFC 1951. */
  function FirstCode(lengths: Lengths, len: nat): nat {
    if len == 0 then 0 else 2 * (FirstCode(lengths, len - 1) + LeafCount(lengths, len - 1))
  }

  /** Codes of one length are consecutive, in the order of their values. */
  function CodeNumber(lengths: Lengths, v: nat): nat
    requires v < |lengths|
  {
    FirstCode(lengths, lengths[v]) + |ValuesOf(lengths, lengths[v], v)|
  }

  function CodeBits(lengths: Lengths, v: nat): (r: seq<bool>)
    requires v < |lengths|
    ensures |r| == lengths[v]
  {
    BitsOf(CodeNumber(lengths, v), lengths[v])
  }

  // ---- rows

  /** The whole tree of a complete table. */
  ghost function WholeTree(lengths: CompleteLengths): seq<Entry> {
    CompleteFits(lengths, MAX_LENGTH);
    Rows(lengths, MAX_LENGTH + 1)
  }

  lemma {:induction false} RowsGrow(lengths: CompleteLengths, a: nat, b: nat)
    requires a <= b <= MAX_LENGTH + 1
    ensures (a > 0 ==> Fits(lengths, a - 1)) && (b > 0 ==> Fits(lengths, b - 1))
    ensures Rows(lengths, a) <= Rows(lengths, b)
    decreases b - a
  {
    hide Complete, Fits, LeafRow, BranchRow, Open;
    if a > 0 { CompleteFits(lengths, a - 1); }
    if b > 0 { CompleteFits(lengths, b - 1); }
    if a < b { RowsGrow(lengths, a, b - 1); }
  }

  /** How many nodes there are at a depth. */
  ghost function Width(lengths: CompleteLengths, depth: nat): nat
    requires depth <= MAX_LENGTH
  {
    CompleteFits(lengths, depth);
    assert Open(lengths, depth) >= 0;
    LeafCount(lengths, depth) + Open(lengths, depth)
  }

  /** Node x of a row: a leaf with the x-th value of that length, or the branch over two nodes of the next row. */
  lemma NodeAt(lengths: CompleteLengths, depth: nat, x: nat)
    requires depth <= MAX_LENGTH && x < Width(lengths, depth)
    ensures 0 <= Start(lengths, depth) && Start(lengths, depth) + x < |WholeTree(lengths)|
    ensures WholeTree(lengths)[Start(lengths, depth) + x] == RowNode(lengths, depth, x)
  {
    hide Complete, Fits, Rows, RowNode, Width, Open, Start;
    RowsGrow(lengths, depth, depth + 1);
    RowsGrow(lengths, depth + 1, MAX_LENGTH + 1);
    NodeInRow(lengths, depth, x);
  }

  /** The first nodes of a row are leaves. */
  lemma LeafAt(lengths: CompleteLengths, depth: nat, x: nat)
    requires 0 < depth <= MAX_LENGTH && x < |ValuesOf(lengths, depth, |lengths|)|
    ensures x < LeafCount(lengths, depth) <= Width(lengths, depth)
    ensures RowNode(lengths, depth, x) == Leaf(ValuesOf(lengths, depth, |lengths|)[x])
  {
    hide Complete, Fits;
    FitsMeansRoom(lengths, depth);
  }

  lemma FitsMeansRoom(lengths: CompleteLengths, depth: nat)
    requires depth <= MAX_LENGTH
    ensures Open(lengths, depth) >= 0
  {
    CompleteFits(lengths, depth);
  }

  /** The others are branches. */
  lemma BranchAt(lengths: CompleteLengths, depth: nat, k: nat)
    requires depth <= MAX_LENGTH && LeafCount(lengths, depth) + k < Width(lengths, depth)
    ensures 0 <= Start(lengths, depth + 1)
    ensures RowNode(lengths, depth, LeafCount(lengths, depth) + k) == Branch(Start(lengths, depth + 1) + 2 * k)
  {
    CompleteFits(lengths, depth);
    StartIsNatural(lengths, depth + 1);
  }

  ghost function RowNode(lengths: CompleteLengths, depth: nat, x: nat): Entry
    requires depth <= MAX_LENGTH && x < Width(lengths, depth)
  {
    CompleteFits(lengths, depth);
    StartIsNatural(lengths, depth + 1);
    var c := LeafCount(lengths, depth);
    if x < c then Leaf(ValuesOf(lengths, depth, |lengths|)[x])
    else Branch(Start(lengths, depth + 1) + 2 * (x - c))
  }

  lemma Segment(a: seq<Entry>, b: seq<Entry>, c: seq<Entry>, x: nat)
    requires x < |b| + |c|
    ensures (a + b + c)[|a| + x] == if x < |b| then b[x] else c[x - |b|]
  {
  }

  /** A row follows the rows above it: first its leaves, then its branches. */
  lemma RowFollows(lengths: CompleteLengths, depth: nat)
    requires depth <= MAX_LENGTH
    ensures Fits(lengths, depth) && (depth > 0 ==> Fits(lengths, depth - 1))
    ensures 0 <= Open(lengths, depth) && 0 <= Start(lengths, depth) && 0 <= Start(lengths, depth + 1)
    ensures Rows(lengths, depth + 1) ==
      Rows(lengths, depth) + LeafRow(lengths, depth) + BranchRow(lengths, depth, Open(lengths, depth))
  {
    hide Complete;
    CompleteFits(lengths, depth);
    StartIsNatural(lengths, depth);
    StartIsNatural(lengths, depth + 1);
    assert Open(lengths, depth) >= 0;
  }

  lemma NodeInRow(lengths: CompleteLengths, depth: nat, x: nat)
    requires depth <= MAX_LENGTH && x < Width(lengths, depth)
    ensures Fits(lengths, depth) && 0 <= Start(lengths, depth) && Start(lengths, depth) + x < |Rows(lengths, depth + 1)|
    ensures Rows(lengths, depth + 1)[Start(lengths, depth) + x] == RowNode(lengths, depth, x)
  {
    hide Complete, Fits, Rows, Open, Start;
    RowFollows(lengths, depth);
    Segment(Rows(lengths, depth), LeafRow(lengths, depth), BranchRow(lengths, depth, Open(lengths, depth)), x);
  }

  /** Branch k of a row and its two children in the next. */
  lemma ChildrenOf(lengths: CompleteLengths, depth: nat, k: nat)
    requires depth <= MAX_LENGTH && LeafCount(lengths, depth) + k < Width(lengths, depth)
    ensures depth < MAX_LENGTH && 2 * k + 1 < Width(lengths, depth + 1)
  {
    CompleteFits(lengths, MAX_LENGTH);
    OpenIsLacking(lengths, MAX_LENGTH);
    ShlMonotone(Open(lengths, MAX_LENGTH), 0, 0);
    assert Open(lengths, depth) >= 0;
  }

  // ---- reading

  /** Follow bits from node i down to a leaf: its value and the bits left over, if the bits suffice. */
  ghost function Lookup(tree: seq<Entry>, i: nat, bits: seq<bool>): Option<(nat, seq<bool>)>
    requires i < |tree|
    decreases |bits|
  {
    match tree[i]
    case Leaf(v) => Some((v, bits))
    case Branch(c) =>
      if bits == [] || c + 1 >= |tree| then None
      else Lookup(tree, c + (if bits[0] then 1 else 0), bits[1..])
  }

  /** The number that the bits to node x of a row write. */
  ghost function NodeNumber(lengths: Lengths, depth: nat, x: nat): nat {
    FirstCode(lengths, depth) + x
  }

  /** The number of a branch is half that of its children. */
  lemma NumberOfChild(lengths: Lengths, depth: nat, x: nat)
    requires depth >= 1
    ensures var y := NodeNumber(lengths, depth, x);
      y / 2 == NodeNumber(lengths, depth - 1, LeafCount(lengths, depth - 1) + x / 2) && y % 2 == x % 2
  {
  }

  /** A bit leads from a branch to one of its children. */
  lemma BitLeadsToChild(lengths: CompleteLengths, depth: nat, x: nat, rest: seq<bool>)
    requires 1 <= depth <= MAX_LENGTH && x < Width(lengths, depth)
    ensures var tree, up := WholeTree(lengths), LeafCount(lengths, depth - 1) + x / 2;
      && 0 <= Start(lengths, depth - 1) && Start(lengths, depth - 1) + up < |tree|
      && 0 <= Start(lengths, depth) && Start(lengths, depth) + x < |tree|
      && Lookup(tree, Start(lengths, depth - 1) + up, [x % 2 == 1] + rest)
        == Lookup(tree, Start(lengths, depth) + x, rest)
  {
    hide Complete, Fits, WholeTree, RowNode, Width, Start, LeafCount, Open;
    HasParent(lengths, depth, x);
    var k := x / 2;
    ChildrenOf(lengths, depth - 1, k);
    BranchAt(lengths, depth - 1, k);
    NodeAt(lengths, depth - 1, LeafCount(lengths, depth - 1) + k);
    NodeAt(lengths, depth, 2 * k + 1);
    NodeAt(lengths, depth, 2 * k);
    assert ([x % 2 == 1] + rest)[1..] == rest;
  }

  /** Node x of a row is a child of the row above. */
  lemma HasParent(lengths: CompleteLengths, depth: nat, x: nat)
    requires 1 <= depth <= MAX_LENGTH && x < Width(lengths, depth)
    ensures LeafCount(lengths, depth - 1) + x / 2 < Width(lengths, depth - 1)
  {
    CompleteFits(lengths, depth);
    assert Open(lengths, depth) >= 0 && Open(lengths, depth - 1) >= 0;
  }

  /** Reading the bits of a node's number leads to the node. */
  lemma {:induction false} NumberLeadsToNode(lengths: CompleteLengths, depth: nat, x: nat, rest: seq<bool>)
    requires depth <= MAX_LENGTH && x < Width(lengths, depth)
    ensures 0 <= Start(lengths, depth) && Start(lengths, depth) + x < |WholeTree(lengths)|
    ensures |WholeTree(lengths)| > 0
    ensures Lookup(WholeTree(lengths), 0, BitsOf(NodeNumber(lengths, depth, x), depth) + rest)
         == Lookup(WholeTree(lengths), Start(lengths, depth) + x, rest)
    decreases depth
  {
    hide Complete, WholeTree, Width, Lookup, NodeNumber, BitsOf, RowNode, LeafCount, Open, Fits;
    NodeAt(lengths, depth, x);
    if depth == 0 {
      NoBits(NodeNumber(lengths, depth, x), rest);
      RootOnly(lengths, x);
    } else {
      var up, y := LeafCount(lengths, depth - 1) + x / 2, NodeNumber(lengths, depth, x);
      HasParent(lengths, depth, x);
      NumberOfChild(lengths, depth, x);
      BitLeadsToChild(lengths, depth, x, rest);
      NumberLeadsToNode(lengths, depth - 1, up, [x % 2 == 1] + rest);
      JoinBits(y, depth, rest);
    }
  }

  lemma RootOnly(lengths: CompleteLengths, x: nat)
    requires x < Width(lengths, 0)
    ensures x == 0
  {
  }

  lemma NoBits(y: nat, rest: seq<bool>)
    ensures BitsOf(y, 0) + rest == rest
  {
  }

  lemma JoinBits(y: nat, n: nat, rest: seq<bool>)
    requires n > 0
    ensures BitsOf(y, n) + rest == BitsOf(y / 2, n - 1) + ([y % 2 == 1] + rest)
  {
  }

  // ---- codes

  lemma {:induction false} ValueAtRank(lengths: Lengths, len: nat, n: nat, v: nat)
    requires v < n <= |lengths| && lengths[v] == len
    ensures |ValuesOf(lengths, len, v)| < |ValuesOf(lengths, len, n)|
    ensures ValuesOf(lengths, len, n)[|ValuesOf(lengths, len, v)|] == v
  {
    if v < n - 1 { ValueAtRank(lengths, len, n - 1, v); }
  }

  lemma {:induction false} RankOfValue(lengths: Lengths, len: nat, n: nat, k: nat)
    requires n <= |lengths| && k < |ValuesOf(lengths, len, n)|
    ensures var v := ValuesOf(lengths, len, n)[k]; v < n && lengths[v] == len && |ValuesOf(lengths, len, v)| == k
  {
    if k < |ValuesOf(lengths, len, n - 1)| { RankOfValue(lengths, len, n - 1, k); }
  }

  /** The leaf of a value sits in the row of its length, at its rank. */
  lemma LeafOf(lengths: CompleteLengths, v: nat)
    requires v < |lengths| && lengths[v] > 0
    ensures var len, k := lengths[v], |ValuesOf(lengths, lengths[v], v)|;
      && k < LeafCount(lengths, len) <= Width(lengths, len)
      && 0 <= Start(lengths, len) && Start(lengths, len) + k < |WholeTree(lengths)|
      && WholeTree(lengths)[Start(lengths, len) + k] == Leaf(v)
  {
    hide Complete, Fits, WholeTree, RowNode, Width, Start, LeafCount, Open, ValuesOf;
    var len, k := lengths[v], |ValuesOf(lengths, lengths[v], v)|;
    ValueAtRank(lengths, len, |lengths|, v);
    LeafAt(lengths, len, k);
    NodeAt(lengths, len, k);
  }

  /** A value's canonical code, whatever follows, reads back as the value, using exactly the code's bits. */
  lemma CodeIsRead(lengths: CompleteLengths, v: nat, rest: seq<bool>)
    requires v < |lengths| && lengths[v] > 0
    ensures |WholeTree(lengths)| > 0
    ensures Lookup(WholeTree(lengths), 0, CodeBits(lengths, v) + rest) == Some((v, rest))
  {
    hide Complete, WholeTree, Width;
    LeafOf(lengths, v);
    NumberLeadsToNode(lengths, lengths[v], |ValuesOf(lengths, lengths[v], v)|, rest);
  }

  /** What is read from node x of a row on is, behind the bits of the node's number, a code and what follows it. */
  ghost predicate ReadsCode(lengths: CompleteLengths, depth: nat, x: nat, bits: seq<bool>,
                            r: Option<(nat, seq<bool>)>) {
    r.Some? ==>
      var (v, rest) := r.value;
      && v < |lengths| && lengths[v] > 0 && |rest| <= |bits|
      && BitsOf(NodeNumber(lengths, depth, x), depth) + bits == CodeBits(lengths, v) + rest
  }

  lemma LeafReadsCode(lengths: CompleteLengths, depth: nat, x: nat, bits: seq<bool>)
    requires depth <= MAX_LENGTH && x < LeafCount(lengths, depth) && x < Width(lengths, depth)
    ensures 0 <= Start(lengths, depth) && Start(lengths, depth) + x < |WholeTree(lengths)|
    ensures ReadsCode(lengths, depth, x, bits, Lookup(WholeTree(lengths), Start(lengths, depth) + x, bits))
  {
    NodeAt(lengths, depth, x);
    RankOfValue(lengths, depth, |lengths|, x);
  }

  ghost function ChildOf(lengths: Lengths, depth: nat, x: nat, bit: bool): nat
    requires LeafCount(lengths, depth) <= x
  {
    2 * (x - LeafCount(lengths, depth)) + (if bit then 1 else 0)
  }

  /** A branch reads a bit and goes on at a child. */
  lemma BranchReadsOn(lengths: CompleteLengths, depth: nat, x: nat, bits: seq<bool>)
    requires depth <= MAX_LENGTH && LeafCount(lengths, depth) <= x < Width(lengths, depth) && bits != []
    ensures var child := ChildOf(lengths, depth, x, bits[0]);
      && depth < MAX_LENGTH && child < Width(lengths, depth + 1)
      && 0 <= Start(lengths, depth) && Start(lengths, depth) + x < |WholeTree(lengths)|
      && 0 <= Start(lengths, depth + 1) && Start(lengths, depth + 1) + child < |WholeTree(lengths)|
      && Lookup(WholeTree(lengths), Start(lengths, depth) + x, bits)
           == Lookup(WholeTree(lengths), Start(lengths, depth + 1) + child, bits[1..])
  {
    hide Complete, WholeTree, Width, Lookup, Start, LeafCount, Open, Fits;
    var child := ChildOf(lengths, depth, x, bits[0]);
    ChildrenOf(lengths, depth, x - LeafCount(lengths, depth));
    SiblingsFit(lengths, depth + 1, child);
    BitLeadsToChild(lengths, depth + 1, child, bits[1..]);
    assert [child % 2 == 1] + bits[1..] == bits;
  }

  lemma SiblingsFit(lengths: CompleteLengths, depth: nat, x: nat)
    requires depth <= MAX_LENGTH && 2 * (x / 2) + 1 < Width(lengths, depth)
    ensures x < Width(lengths, depth)
  {
  }

  lemma ChildNumberBits(lengths: CompleteLengths, depth: nat, x: nat, bits: seq<bool>)
    requires LeafCount(lengths, depth) <= x && bits != []
    ensures BitsOf(NodeNumber(lengths, depth + 1, ChildOf(lengths, depth, x, bits[0])), depth + 1) + bits[1..]
         == BitsOf(NodeNumber(lengths, depth, x), depth) + bits
  {
    var child := ChildOf(lengths, depth, x, bits[0]);
    assert bits == [bits[0]] + bits[1..];
    NumberOfChild(lengths, depth + 1, child);
    JoinBits(NodeNumber(lengths, depth + 1, child), depth + 1, bits[1..]);
  }

  /** What a child reads, its parent reads with one bit more. */
  lemma ParentReadsCode(lengths: CompleteLengths, depth: nat, x: nat, bits: seq<bool>, r: Option<(nat, seq<bool>)>)
    requires LeafCount(lengths, depth) <= x && bits != []
    requires ReadsCode(lengths, depth + 1, ChildOf(lengths, depth, x, bits[0]), bits[1..], r)
    ensures ReadsCode(lengths, depth, x, bits, r)
  {
    ChildNumberBits(lengths, depth, x, bits);
  }

  /** Without bits nothing is read from a branch. */
  lemma NothingReadsCode(lengths: CompleteLengths, depth: nat, x: nat)
    requires depth <= MAX_LENGTH && LeafCount(lengths, depth) <= x < Width(lengths, depth)
    ensures 0 <= Start(lengths, depth) && Start(lengths, depth) + x < |WholeTree(lengths)|
    ensures ReadsCode(lengths, depth, x, [], Lookup(WholeTree(lengths), Start(lengths, depth) + x, []))
  {
    hide Complete, WholeTree, Width, Fits, Open, Start;
    NodeAt(lengths, depth, x);
  }

  lemma {:induction false} ReadIsCodeFrom(lengths: CompleteLengths, depth: nat, x: nat, bits: seq<bool>)
    requires depth <= MAX_LENGTH && x < Width(lengths, depth)
    ensures 0 <= Start(lengths, depth) && Start(lengths, depth) + x < |WholeTree(lengths)|
    ensures ReadsCode(lengths, depth, x, bits, Lookup(WholeTree(lengths), Start(lengths, depth) + x, bits))
    decreases |bits|
  {
    hide Complete, WholeTree, Width, Lookup, ReadsCode, RowNode, LeafCount, Fits, Open, Start;
    NodeAt(lengths, depth, x);
    if x < LeafCount(lengths, depth) {
      LeafReadsCode(lengths, depth, x, bits);
    } else if bits == [] {
      NothingReadsCode(lengths, depth, x);
    } else {
      BranchReadsOn(lengths, depth, x, bits);
      var child := ChildOf(lengths, depth, x, bits[0]);
      ReadIsCodeFrom(lengths, depth + 1, child, bits[1..]);
      ParentReadsCode(lengths, depth, x, bits, Lookup(WholeTree(lengths), Start(lengths, depth) + x, bits));
    }
  }

  /** Whatever is read is the canonical code of a value, followed by what is left. */
  lemma ReadIsCode(lengths: CompleteLengths, bits: seq<bool>)
    ensures |WholeTree(lengths)| > 0
    ensures Lookup(WholeTree(lengths), 0, bits).Some? ==>
      var (v, rest) := Lookup(WholeTree(lengths), 0, bits).value;
      v < |lengths| && lengths[v] > 0 && |rest| <= |bits| && bits == CodeBits(lengths, v) + rest
  {
    CompleteFits(lengths, 0);
    assert Open(lengths, 0) >= 0;
    ReadIsCodeFrom(lengths, 0, 0, bits);
    assert BitsOf(NodeNumber(lengths, 0, 0), 0) + bits == bits;
  }

  // ---- decoding without a tree

  /** A code: a single value that takes no bits, or the canonical code of a complete table. */
  datatype Code = Single(only: nat) | Canonical(lengths: CompleteLengths)

  ghost predicate IsNext(lengths: Lengths, v: nat, bits: seq<bool>) {
    v < |lengths| && lengths[v] > 0 && CodeBits(lengths, v) <= bits
  }

  /** The value whose code comes next, and the bits after it. */
  ghost function ReadCode(code: Code, bits: seq<bool>): (r: Option<(nat, seq<bool>)>)
    ensures r.Some? ==> |r.value.1| <= |bits|
  {
    match code
    case Single(v) => Some((v, bits))
    case Canonical(lengths) =>
      if v: nat :| IsNext(lengths, v, bits) then
        OnlyOneIsNext(lengths, bits);
        Some((v, bits[|CodeBits(lengths, v)|..]))
      else None
  }

  /** Canonical codes are prefix-free. */
  lemma OnlyOneIsNext(lengths: CompleteLengths, bits: seq<bool>)
    ensures forall v: nat, w: nat :: IsNext(lengths, v, bits) && IsNext(lengths, w, bits) ==> v == w
  {
    hide *;
    forall v: nat, w: nat | IsNext(lengths, v, bits) && IsNext(lengths, w, bits) ensures v == w {
      NextIsRead(lengths, v, bits);
      NextIsRead(lengths, w, bits);
    }
  }

  lemma NextIsRead(lengths: CompleteLengths, v: nat, bits: seq<bool>)
    requires IsNext(lengths, v, bits)
    ensures |WholeTree(lengths)| > 0
    ensures |CodeBits(lengths, v)| <= |bits|
    ensures Lookup(WholeTree(lengths), 0, bits) == Some((v, bits[|CodeBits(lengths, v)|..]))
  {
    hide Complete, WholeTree, CodeBits, Lookup;
    CodeIsRead(lengths, v, bits[|CodeBits(lengths, v)|..]);
    assert bits == CodeBits(lengths, v) + bits[|CodeBits(lengths, v)|..];
  }

  /** The tree of rows reads exactly the canonical code. */
  lemma TreeReadsCode(lengths: CompleteLengths, bits: seq<bool>)
    ensures |WholeTree(lengths)| > 0
    ensures Lookup(WholeTree(lengths), 0, bits) == ReadCode(Canonical(lengths), bits)
  {
    ReadIsCode(lengths, bits);
    if Lookup(WholeTree(lengths), 0, bits).Some? {
      var (v, rest) := Lookup(WholeTree(lengths), 0, bits).value;
      assert IsNext(lengths, v, bits);
    }
    if v: nat :| IsNext(lengths, v, bits) {
      OnlyOneIsNext(lengths, bits);
      NextIsRead(lengths, v, bits);
    }
  }

  /** The codes of some values, one after the other. */
  ghost function WriteCodes(lengths: CompleteLengths, values: seq<nat>): seq<bool>
    requires forall k :: 0 <= k < |values| ==> values[k] < |lengths| && lengths[values[k]] > 0
    decreases |values|
  {
    if values == [] then [] else CodeBits(lengths, values[0]) + WriteCodes(lengths, values[1..])
  }

  ghost function ReadCodes(code: Code, bits: seq<bool>, n: nat): Option<(seq<nat>, seq<bool>)> {
    if n == 0 then Some(([], bits))
    else match ReadCode(code, bits)
      case None => None
      case Some((v, rest)) =>
        match ReadCodes(code, rest, n - 1)
        case None => None
        case Some((vs, left)) => Some(([v] + vs, left))
  }

  /** Any concatenation of codes decodes back to its values. */
  lemma {:induction false} CodesAreRead(lengths: CompleteLengths, values: seq<nat>, rest: seq<bool>)
    requires forall k :: 0 <= k < |values| ==> values[k] < |lengths| && lengths[values[k]] > 0
    ensures ReadCodes(Canonical(lengths), WriteCodes(lengths, values) + rest, |values|) == Some((values, rest))
    decreases |values|
  {
    hide Complete, WholeTree, Lookup, CodeBits, ReadCode;
    if values == [] {
      assert WriteCodes(lengths, values) + rest == rest;
    } else {
      var tail := WriteCodes(lengths, values[1..]) + rest;
      assert WriteCodes(lengths, values) + rest == CodeBits(lengths, values[0]) + tail;
      CodeIsRead(lengths, values[0], tail);
      TreeReadsCode(lengths, CodeBits(lengths, values[0]) + tail);
      CodesAreRead(lengths, values[1..], rest);
      assert [values[0]] + values[1..] == values;
    }
  }

  // ---- codes as fractions

  /** The sum of 2^(MAX_LENGTH - len) over those of the first n values that have a code and come before v. */
  function SumBefore(lengths: Lengths, v: nat, n: nat): nat
    requires v < |lengths| && n <= |lengths|
  {
    if n == 0 then 0
    else
      var len := lengths[n - 1];
      SumBefore(lengths, v, n - 1) +
      (if 0 < len && (len < lengths[v] || (len == lengths[v] && n - 1 < v)) then Pow2(MAX_LENGTH - len) else 0)
  }

  lemma {:induction false} FirstCodeIsSum(lengths: Lengths, len: nat)
    requires 1 <= len <= MAX_LENGTH
    ensures Shl(FirstCode(lengths, len), MAX_LENGTH - len) == KraftSum(lengths, len - 1, |lengths|)
  {
    hide Shl, KraftSum, ValuesOf;
    if len == 1 {
      KraftNone(lengths, |lengths|);
      ShlZero(MAX_LENGTH - 1);
    } else {
      FirstCodeIsSum(lengths, len - 1);
      KraftStep(lengths, len - 1, |lengths|);
      var up := FirstCode(lengths, len - 1) + LeafCount(lengths, len - 1);
      ShlTwice(up);
      ShlAdd(up, 1, MAX_LENGTH - len);
      ShlSum(FirstCode(lengths, len - 1), LeafCount(lengths, len - 1), MAX_LENGTH - (len - 1));
    }
  }

  lemma {:induction false} SumSplits(lengths: Lengths, v: nat, n: nat)
    requires v < |lengths| && n <= |lengths| && lengths[v] > 0
    ensures SumBefore(lengths, v, n) == KraftSum(lengths, lengths[v] - 1, n)
      + Shl(|ValuesOf(lengths, lengths[v], if n < v then n else v)|, MAX_LENGTH - lengths[v])
  {
    hide Shl, Pow2;
    var len := lengths[v];
    if n == 0 {
      ShlZero(MAX_LENGTH - len);
    } else {
      SumSplits(lengths, v, n - 1);
      if n - 1 < v {
        ShlSum(|ValuesOf(lengths, len, n - 1)|, 1, MAX_LENGTH - len);
        ShlOne(MAX_LENGTH - len);
      }
    }
  }

  /** A code number fits in the bits of its code. */
  lemma CodeFits(lengths: CompleteLengths, v: nat)
    requires v < |lengths| && lengths[v] > 0
    ensures CodeNumber(lengths, v) < Pow2(lengths[v])
  {
    hide Shl, Pow2, KraftSum, ValuesOf, Complete;
    var len := lengths[v];
    FirstCodeIsSum(lengths, len);
    KraftStep(lengths, len, |lengths|);
    WholeSum(lengths, len);
    ShlSum(FirstCode(lengths, len), LeafCount(lengths, len), MAX_LENGTH - len);
    ShlOne(MAX_LENGTH);
    ShlOne(len);
    ShlAdd(1, len, MAX_LENGTH - len);
    ShlMonotone(FirstCode(lengths, len) + LeafCount(lengths, len), Pow2(len), MAX_LENGTH - len);
    ValueAtRank(lengths, len, |lengths|, v);
  }

  lemma WholeSum(lengths: CompleteLengths, len: nat)
    requires len <= MAX_LENGTH
    ensures KraftSum(lengths, len, |lengths|) <= Pow2(MAX_LENGTH)
  {
    LongerIsEnough(lengths, len, |lengths|);
  }

  /**
    Read as a binary fraction, the code of a value is the sum of 2^-len over all values before it: those with shorter
    codes, and the smaller ones with codes of the same length.
   */
  lemma CodeIsSumBefore(lengths: CompleteLengths, v: nat)
    requires v < |lengths| && lengths[v] > 0
    ensures |CodeBits(lengths, v)| == lengths[v]
    ensures Shl(Num(CodeBits(lengths, v)), MAX_LENGTH - lengths[v]) == SumBefore(lengths, v, |lengths|)
  {
    hide Shl, Pow2, KraftSum, ValuesOf, FirstCode, Num, BitsOf, Complete, SumBefore;
    var len := lengths[v];
    CodeFits(lengths, v);
    NumOfBits(CodeNumber(lengths, v), len);
    FirstCodeIsSum(lengths, len);
    SumSplits(lengths, v, |lengths|);
    ShlSum(FirstCode(lengths, len), |ValuesOf(lengths, len, v)|, MAX_LENGTH - len);
  }
}
