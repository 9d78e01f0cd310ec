/** The static Huffman tree as a value: rows of nodes by depth, leaves first, and the canonical code it spells. */
module StaticTree {
  import opened Sums
  import opened Bits
  import opened TreeEntries

  /** The longest code length a table can hold. */
  const MAX_LENGTH: nat := 255

  type Lengths = s: seq<nat> | forall i :: 0 <= i < |s| ==> s[i] <= MAX_LENGTH

  /** The values below n with code length len, in ascending order. */
  function ValuesOf(lengths: Lengths, len: nat, n: nat): (r: seq<nat>)
    requires n <= |lengths|
    ensures |r| <= n
  {
    if n == 0 then []
    else ValuesOf(lengths, len, n - 1) + (if lengths[n - 1] == len then [n - 1] else [])
  }

  /** How many leaves there are at a depth; a length of zero means no leaf. */
  function LeafCount(lengths: Lengths, depth: nat): nat {
    if depth == 0 then 0 else |ValuesOf(lengths, depth, |lengths|)|
  }

  /** How many branches there are at a depth: the nodes the depth has room for, less its leaves. */
  function Open(lengths: Lengths, depth: nat): int {
    if depth == 0 then 1 else 2 * Open(lengths, depth - 1) - LeafCount(lengths, depth)
  }

  /** No depth up to this one has more leaves than room. */
  ghost predicate Fits(lengths: Lengths, depth: nat) {
    forall d {:trigger Open(lengths, d)} :: 0 <= d <= depth ==> Open(lengths, d) >= 0
  }

  /** The index of the first node at a depth. */
  function Start(lengths: Lengths, depth: nat): int {
    if depth == 0 then 0 else if depth == 1 then 1
    else Start(lengths, depth - 1) + 2 * Open(lengths, depth - 2)
  }

  function LeafRow(lengths: Lengths, depth: nat): (r: seq<Entry>)
    ensures |r| == LeafCount(lengths, depth)
  {
    if depth == 0 then []
    else
      var values := ValuesOf(lengths, depth, |lengths|);
      seq(|values|, k requires 0 <= k < |values| => Leaf(values[k]))
  }

  /** The first n branches at a depth; each points to its two children in the next row. */
  ghost function BranchRow(lengths: Lengths, depth: nat, n: nat): (r: seq<Entry>)
    requires Start(lengths, depth + 1) >= 0
    ensures |r| == n
  {
    seq(n, k requires 0 <= k < n => Branch(Start(lengths, depth + 1) + 2 * k))
  }

  lemma {:induction false} StartIsNatural(lengths: Lengths, depth: nat)
    requires depth > 1 ==> Fits(lengths, depth - 2)
    ensures Start(lengths, depth) >= 0
  {
    if depth > 1 {
      StartIsNatural(lengths, depth - 1);
      assert Open(lengths, depth - 2) >= 0;
    }
  }

  /** All nodes at depths below the given one. */
  ghost function Rows(lengths: Lengths, depth: nat): (r: seq<Entry>)
    requires depth > 0 ==> Fits(lengths, depth - 1)
    ensures |r| == Start(lengths, depth)
  {
    hide ValuesOf, LeafRow, BranchRow;
    if depth == 0 then []
    else
      StartIsNatural(lengths, depth);
      assert Open(lengths, depth - 1) >= 0;
      Rows(lengths, depth - 1) + LeafRow(lengths, depth - 1) + BranchRow(lengths, depth - 1, Open(lengths, depth - 1))
  }

  // ---- Kraft's equality

  /** The sum of 2^(MAX_LENGTH - len) over the nonzero lengths, up to a limit, among the first n. */
  function KraftSum(lengths: Lengths, limit: nat, n: nat): nat
    requires n <= |lengths| && limit <= MAX_LENGTH
  {
    if n == 0 then 0
    else KraftSum(lengths, limit, n - 1) +
         (if 0 < lengths[n - 1] <= limit then Pow2(MAX_LENGTH - lengths[n - 1]) else 0)
  }

  /** The sum of 2^-len over the nonzero lengths is one. */
  ghost predicate Complete(lengths: Lengths) {
    KraftSum(lengths, MAX_LENGTH, |lengths|) == Pow2(MAX_LENGTH)
  }

  /** How many of the first n lengths are nonzero and at most the limit. */
  function Shorter(lengths: Lengths, limit: nat, n: nat): (c: nat)
    requires n <= |lengths|
    ensures c <= n
  {
    if n == 0 then 0 else Shorter(lengths, limit, n - 1) + (if 0 < lengths[n - 1] <= limit then 1 else 0)
  }

  /** How many of the first n lengths exceed the limit. */
  function Longer(lengths: Lengths, limit: nat, n: nat): nat
    requires n <= |lengths|
  {
    if n == 0 then 0 else Longer(lengths, limit, n - 1) + (if lengths[n - 1] > limit then 1 else 0)
  }

  lemma {:induction false} KraftStep(lengths: Lengths, limit: nat, n: nat)
    requires n <= |lengths| && 1 <= limit <= MAX_LENGTH
    ensures KraftSum(lengths, limit, n) ==
      KraftSum(lengths, limit - 1, n) + Shl(|ValuesOf(lengths, limit, n)|, MAX_LENGTH - limit)
    ensures Shorter(lengths, limit, n) == Shorter(lengths, limit - 1, n) + |ValuesOf(lengths, limit, n)|
  {
    if n == 0 {
      ShlZero(MAX_LENGTH - limit);
    } else {
      KraftStep(lengths, limit, n - 1);
      ShlSum(|ValuesOf(lengths, limit, n - 1)|, 1, MAX_LENGTH - limit);
      ShlOne(MAX_LENGTH - limit);
    }
  }

  lemma {:induction false} KraftNone(lengths: Lengths, n: nat)
    requires n <= |lengths|
    ensures KraftSum(lengths, 0, n) == 0 && Shorter(lengths, 0, n) == 0
  {
    if n > 0 { KraftNone(lengths, n - 1); }
  }

  /** The room left at a depth is what Kraft's sum still lacks. */
  lemma {:induction false} OpenIsLacking(lengths: Lengths, depth: nat)
    requires depth <= MAX_LENGTH && Fits(lengths, depth)
    ensures Open(lengths, depth) >= 0
    ensures Shl(Open(lengths, depth), MAX_LENGTH - depth) + KraftSum(lengths, depth, |lengths|) == Pow2(MAX_LENGTH)
  {
    hide Shl, Pow2, KraftSum, ValuesOf;
    assert Open(lengths, depth) >= 0;
    if depth == 0 {
      KraftNone(lengths, |lengths|);
      ShlOne(MAX_LENGTH);
    } else {
      OpenIsLacking(lengths, depth - 1);
      KraftStep(lengths, depth, |lengths|);
      ShlSum(Open(lengths, depth), LeafCount(lengths, depth), MAX_LENGTH - depth);
      ShlAdd(Open(lengths, depth - 1), 1, MAX_LENGTH - depth);
      ShlTwice(Open(lengths, depth - 1));
    }
  }

  /** Every longer code takes at most one of the slots open at a depth. */
  lemma {:induction false} LongerIsEnough(lengths: Lengths, depth: nat, n: nat)
    requires n <= |lengths| && depth <= MAX_LENGTH
    ensures KraftSum(lengths, depth, n) <= KraftSum(lengths, MAX_LENGTH, n)
      <= KraftSum(lengths, depth, n) + Shl(Longer(lengths, depth, n), MAX_LENGTH - depth)
  {
    if n > 0 {
      LongerIsEnough(lengths, depth, n - 1);
      ShlSum(Longer(lengths, depth, n - 1), 1, MAX_LENGTH - depth);
      ShlOne(MAX_LENGTH - depth);
      if lengths[n - 1] > depth {
        Pow2Monotone(MAX_LENGTH - lengths[n - 1], MAX_LENGTH - depth);
      }
    }
  }

  lemma {:induction false} Pow2Monotone(a: nat, b: nat)
    requires a <= b
    ensures Pow2(a) <= Pow2(b)
  {
    if a < b { Pow2Monotone(a, b - 1); }
  }

  lemma {:induction false} ShlMonotone(a: nat, b: nat, k: nat)
    ensures Shl(a, k) <= Shl(b, k) <==> a <= b
  {
    if k > 0 { ShlMonotone(a, b, k - 1); }
  }

  /** A table that meets Kraft's equality never has more leaves at a depth than there is room. */
  lemma {:induction false} CompleteFits(lengths: Lengths, depth: nat)
    requires Complete(lengths) && depth <= MAX_LENGTH
    ensures Fits(lengths, depth)
  {
    hide Shl, Pow2, KraftSum, ValuesOf, Longer;
    if depth > 0 {
      CompleteFits(lengths, depth - 1);
      OpenIsLacking(lengths, depth - 1);
      LongerIsEnough(lengths, depth, |lengths|);
      KraftStep(lengths, depth, |lengths|);
      ShlAdd(Open(lengths, depth - 1), 1, MAX_LENGTH - depth);
      ShlTwice(Open(lengths, depth - 1));
      ShlMonotone(LeafCount(lengths, depth), 2 * Open(lengths, depth - 1), MAX_LENGTH - depth);
      assert Open(lengths, depth) >= 0;
      forall d | 0 <= d <= depth ensures Open(lengths, d) >= 0 {
        if d < depth { assert Fits(lengths, depth - 1); }
      }
    }
  }

  /** Rows start at twice the leaves above plus twice the branches of the row before. */
  lemma {:induction false} StartCounts(lengths: Lengths, depth: nat)
    requires depth <= MAX_LENGTH
    ensures Start(lengths, depth + 1) == 2 * (Open(lengths, depth) + Shorter(lengths, depth, |lengths|)) - 1
  {
    if depth == 0 {
      KraftNone(lengths, |lengths|);
    } else {
      StartCounts(lengths, depth - 1);
      KraftStep(lengths, depth, |lengths|);
    }
  }

  lemma {:induction false} ShorterOrLonger(lengths: Lengths, depth: nat, n: nat)
    requires n <= |lengths|
    ensures Shorter(lengths, depth, n) + Longer(lengths, depth, n) <= n
  {
    if n > 0 { ShorterOrLonger(lengths, depth, n - 1); }
  }

  /** In a complete table of n lengths no row starts beyond index 2n - 1. */
  lemma CompleteStaysSmall(lengths: Lengths, depth: nat)
    requires Complete(lengths) && depth <= MAX_LENGTH
    ensures Start(lengths, depth + 1) <= 2 * |lengths| - 1
  {
    CompleteFits(lengths, depth);
    OpenIsLacking(lengths, depth);
    LongerIsEnough(lengths, depth, |lengths|);
    ShlMonotone(Open(lengths, depth), Longer(lengths, depth, |lengths|), MAX_LENGTH - depth);
    StartCounts(lengths, depth);
    ShorterOrLonger(lengths, depth, |lengths|);
  }

  /** No length exceeds a depth. */
  ghost predicate AllWithin(lengths: Lengths, depth: nat) {
    forall i :: 0 <= i < |lengths| ==> lengths[i] <= depth
  }

  lemma {:induction false} WithinIsWhole(lengths: Lengths, depth: nat, n: nat)
    requires n <= |lengths| && AllWithin(lengths, depth) && depth <= MAX_LENGTH
    ensures KraftSum(lengths, depth, n) == KraftSum(lengths, MAX_LENGTH, n)
  {
    if n > 0 { WithinIsWhole(lengths, depth, n - 1); }
  }

  /** At the depth of the longest code, a table is complete exactly when no room is left. */
  lemma CompleteMeansFull(lengths: Lengths, depth: nat)
    requires depth <= MAX_LENGTH && Fits(lengths, depth) && AllWithin(lengths, depth)
    ensures Complete(lengths) <==> Open(lengths, depth) == 0
  {
    OpenIsLacking(lengths, depth);
    WithinIsWhole(lengths, depth, |lengths|);
    ShlMonotone(Open(lengths, depth), 0, MAX_LENGTH - depth);
    ShlZero(MAX_LENGTH - depth);
  }
}
