/** Binary code trees, as a yardstick for the adaptive one. */
module CodeTrees {
  import opened Sums
  import opened DynTree
  import opened DynTreeRebuild
  import opened DynTreeOptimal

  datatype CodeTree = Symbol(value: nat) | Fork(zero: CodeTree, one: CodeTree)

  ghost function Symbols(c: CodeTree): set<nat> {
    match c
    case Symbol(v) => {v}
    case Fork(l, r) => Symbols(l) + Symbols(r)
  }

  /** No symbol occurs twice. */
  ghost predicate Proper(c: CodeTree) {
    match c
    case Symbol(_) => true
    case Fork(l, r) => Proper(l) && Proper(r) && Symbols(l) !! Symbols(r)
  }

  ghost function Height(c: CodeTree): nat {
    match c
    case Symbol(_) => 0
    case Fork(l, r) => 1 + (if Height(l) < Height(r) then Height(r) else Height(l))
  }

  /** The length of v's code in a tree that contains v. */
  ghost function Depth(c: CodeTree, v: nat): (d: nat)
    ensures d <= Height(c)
  {
    match c
    case Symbol(_) => 0
    case Fork(l, r) => 1 + if v in Symbols(l) then Depth(l, v) else Depth(r, v)
  }

  ghost function Depths(c: CodeTree, n: nat): seq<nat> {
    seq(n, v requires 0 <= v < n => Depth(c, v))
  }

  /** What value v takes of 2^limit: half at every fork on the way to it. */
  ghost function Share(c: CodeTree, v: nat, limit: nat): nat
    requires Height(c) <= limit
  {
    match c
    case Symbol(w) => if v == w then Pow2(limit) else 0
    case Fork(l, r) => Share(l, v, limit - 1) + Share(r, v, limit - 1)
  }

  lemma {:induction false} ForeignShare(c: CodeTree, v: nat, limit: nat)
    requires Height(c) <= limit && v !in Symbols(c)
    ensures Share(c, v, limit) == 0
  {
    match c
    case Symbol(_) =>
    case Fork(l, r) =>
      ForeignShare(l, v, limit - 1);
      ForeignShare(r, v, limit - 1);
  }

  lemma {:induction false} ShareIsPower(c: CodeTree, v: nat, limit: nat)
    requires Proper(c) && Height(c) <= limit && v in Symbols(c)
    ensures Share(c, v, limit) == Pow2(limit - Depth(c, v))
  {
    match c
    case Symbol(_) =>
    case Fork(l, r) =>
      if v in Symbols(l) {
        ShareIsPower(l, v, limit - 1);
        ForeignShare(r, v, limit - 1);
      } else {
        ShareIsPower(r, v, limit - 1);
        ForeignShare(l, v, limit - 1);
      }
  }

  ghost function TreeShares(c: CodeTree, n: nat, limit: nat): seq<int>
    requires Height(c) <= limit
  {
    seq(n, v requires 0 <= v < n => Share(c, v, limit))
  }

  lemma {:induction false} AddSum(a: seq<int>, b: seq<int>, c: seq<int>)
    requires |a| == |b| == |c| && forall i :: 0 <= i < |a| ==> c[i] == a[i] + b[i]
    ensures Sum(c) == Sum(a) + Sum(b)
  {
    if a != [] {
      AddSum(a[..|a| - 1], b[..|a| - 1], c[..|a| - 1]);
    }
  }

  lemma SymbolShares(v: nat, n: nat, limit: nat)
    requires v < n
    ensures Sum(TreeShares(Symbol(v), n, limit)) == Pow2(limit)
  {
    var zeroes: seq<int> := seq(n, _ => 0);
    assert TreeShares(Symbol(v), n, limit) == zeroes[v := Pow2(limit)];
    ZeroSum(zeroes);
    SumUpdate(zeroes, v, Pow2(limit));
  }

  /** A tree uses up all of 2^limit: Kraft's inequality holds with equality. */
  lemma {:induction false} TreeSharesSum(c: CodeTree, n: nat, limit: nat)
    requires Height(c) <= limit && forall v :: v in Symbols(c) ==> v < n
    ensures Sum(TreeShares(c, n, limit)) == Pow2(limit)
  {
    match c
    case Symbol(v) =>
      assert v in Symbols(c);
      SymbolShares(v, n, limit);
    case Fork(l, r) =>
      assert forall v :: v in Symbols(l) || v in Symbols(r) ==> v in Symbols(c);
      TreeSharesSum(l, n, limit - 1);
      TreeSharesSum(r, n, limit - 1);
      AddSum(TreeShares(l, n, limit - 1), TreeShares(r, n, limit - 1), TreeShares(c, n, limit));
  }

  lemma SymbolsBelow(c: CodeTree, n: nat)
    requires Symbols(c) == Below(n)
    ensures forall v :: v in Symbols(c) ==> v < n
  {
  }

  lemma TreeMeetsKraft(c: CodeTree, n: nat)
    requires Proper(c) && Symbols(c) == Below(n)
    ensures Kraft(Depths(c, n), Height(c))
  {
    hide Proper, Symbols, Share, Height;
    var limit, lens := Height(c), Depths(c, n);
    SymbolsBelow(c, n);
    TreeSharesSum(c, n, limit);
    forall v: nat | v < n ensures Share(c, v, limit) == Pow2(limit - lens[v]) {
      ShareIsPower(c, v, limit);
    }
    assert TreeShares(c, n, limit) ==
      seq(n, v requires 0 <= v < |lens| => if lens[v] <= limit then Pow2(limit - lens[v]) else 0);
  }

  /** No binary tree over the same symbols writes them, as often as they have been counted, in fewer bits. */
  lemma NoTreeIsBetter(t: ValidTree, c: CodeTree)
    requires Proper(c) && Symbols(c) == Below(|t.leaves|)
    ensures WrittenBits(t, CodeLengths(t)) <= WrittenBits(t, Depths(c, |t.leaves|))
  {
    TreeMeetsKraft(c, |t.leaves|);
    CodeIsOptimal(t, Depths(c, |t.leaves|), Height(c));
  }
}
