/** Tree entries and the 16-bit words they are packed into. */
module TreeEntries {
  import opened Wrappers
  import opened Sums
  import opened Bits

  datatype Entry = Leaf(value: nat) | Branch(child: nat)

  const LEAF_BIT: nat := 0x8000

  /** The largest child index an entry can hold. */
  const MAX_INDEX: nat := LEAF_BIT - 1

  function LeafWord(value: nat): nat {
    Or(value, LEAF_BIT)
  }

  function BranchWord(child: nat): Result<nat> {
    if child > MAX_INDEX then Err(Decompress) else Ok(child)
  }

  function AsType(word: nat): Entry {
    var value := And(word, MAX_INDEX);
    if value == word then Branch(value) else Leaf(value)
  }

  lemma LeafBitIsPower()
    ensures Pow2(15) == LEAF_BIT
  {
    ShlOne(15);
    ShlAdd(1, 7, 8);
    ShlAdd(1, 3, 4);
    FourBits(8);
    EightBits(128);
  }

  /** The word's top bit tells leaves from branches; the other bits are the value or the index. */
  lemma WordSplits(word: nat)
    requires word < 0x10000
    ensures And(word, MAX_INDEX) == word % LEAF_BIT
  {
    LeafBitIsPower();
    MaskIsMod(word, 15);
  }

  /** Packing is lossless for leaf values below the leaf bit, and drops that bit from any other 16-bit value. */
  lemma LeafIsUnpacked(value: nat)
    requires value < 0x10000
    ensures LeafWord(value) < 0x10000 && AsType(LeafWord(value)) == Leaf(value % 0x8000)
  {
    hide Or, And, Pow2, Shl;
    var low := value % LEAF_BIT;
    TopBitIsSet(low, value);
    WordSplits(LEAF_BIT + low);
  }

  lemma TopBitIsSet(low: nat, value: nat)
    requires low < LEAF_BIT && (value == low || value == LEAF_BIT + low)
    ensures Or(value, LEAF_BIT) == LEAF_BIT + low
  {
    hide Or, Pow2, Shl;
    LeafBitIsPower();
    ShlOne(15);
    OrAdds(1, 15, low);
    OrCommutes(low, LEAF_BIT);
    OrKeepsBit(low, 15);
  }

  lemma BranchIsUnpacked(child: nat)
    ensures BranchWord(child).Ok? <==> child <= 0x7fff
    ensures BranchWord(child).Ok? ==> AsType(BranchWord(child).value) == Branch(child)
  {
    if child <= MAX_INDEX { WordSplits(child); }
  }

  /** Every 16-bit word is the packing of exactly the entry it unpacks to. */
  lemma WordIsPacked(word: nat)
    requires word < 0x10000
    ensures match AsType(word)
            case Leaf(v) => v < 0x8000 && LeafWord(v) == word == 0x8000 + v
            case Branch(c) => BranchWord(c) == Ok(word) && word == c
  {
    WordSplits(word);
    assert And(word, MAX_INDEX) == if word < LEAF_BIT then word else word - LEAF_BIT;
    if word >= LEAF_BIT {
      assert AsType(word) == Leaf(word - LEAF_BIT);
      LeafBitIsPower();
      OrCommutes(word - LEAF_BIT, LEAF_BIT);
      ShlOne(15);
      OrAdds(1, 15, word - LEAF_BIT);
    }
  }
}
