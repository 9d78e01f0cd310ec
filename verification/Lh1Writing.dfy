/** Writing commands in the lh1 format, and why what is written is read back. */
module Lh1Writing {
  import opened Wrappers
  import opened Sums
  import opened Bits
  import opened DynTree
  import opened DynTreeRun
  import opened DynTreeCode
  import opened Lz
  import opened Lh1Decoders

  // ---- offsets

  /** The nine-bit code of an offset: its high bits, and room for how many low bits follow. */
  function OffsetCode(offset: nat): nat {
    HighPart(offset) + if offset < 64 then 0 else if offset < 256 then 0x20 else if offset < 768 then 0x60
    else if offset < 1536 then 0xc0 else if offset < 3072 then 0x120 else 0x180
  }

  function HighPart(offset: nat): nat {
    if offset < 64 then offset else if offset < 256 then offset / 2 else if offset < 768 then offset / 4
    else if offset < 1536 then offset / 8 else if offset < 3072 then offset / 16 else offset / 32
  }

  function LowSize(offset: nat): nat {
    if offset < 64 then 0 else if offset < 256 then 1 else if offset < 768 then 2
    else if offset < 1536 then 3 else if offset < 3072 then 4 else 5
  }

  function LowPart(offset: nat): nat {
    if offset < 64 then 0 else if offset < 256 then offset % 2 else if offset < 768 then offset % 4
    else if offset < 1536 then offset % 8 else if offset < 3072 then offset % 16 else offset % 32
  }

  /** Every offset of the ring has a nine-bit code, which decodes to its high bits. */
  lemma CodeDecodes(offset: nat)
    requires offset < 4096
    ensures OffsetCode(offset) < 512
    ensures DecodeOffset(OffsetCode(offset)) == (Shl(HighPart(offset), LowSize(offset)), LowSize(offset))
  {
    hide Shl, Pow2;
    SmallShifts(HighPart(offset));
  }

  lemma PartsJoin(offset: nat)
    ensures Shl(HighPart(offset), LowSize(offset)) + LowPart(offset) == offset
    ensures LowPart(offset) < Pow2(LowSize(offset))
  {
    hide Shl, Pow2;
    SmallShifts(HighPart(offset));
    SmallPowers();
  }

  function WriteOffset(offset: nat): seq<bool> {
    BitsOf(OffsetCode(offset), 9) + BitsOf(LowPart(offset), LowSize(offset))
  }

  lemma OffsetIsRead(offset: nat, rest: seq<bool>)
    requires offset < Pow2(RING_BITS)
    ensures NextOffset(WriteOffset(offset) + rest) == Some((offset, rest))
  {
    hide DecodeOffset, OffsetCode, HighPart, LowPart, LowSize, BitsOf, NextBits, Or, Shl, Pow2;
    SmallPowers();
    CodeDecodes(offset);
    PartsJoin(offset);
    var n, low := LowSize(offset), LowPart(offset);
    assert WriteOffset(offset) + rest == BitsOf(OffsetCode(offset), 9) + (BitsOf(low, n) + rest);
    BitsAreRead(OffsetCode(offset), 9, BitsOf(low, n) + rest);
    BitsAreRead(low, n, rest);
    OrAdds(HighPart(offset), n, low);
  }

  // ---- commands

  function SymbolOf(c: Command): nat {
    match c
    case Literal(b) => b
    case Copy(_, count) => count + 0xfd
  }

  /** A command that a tree with the given number of leaves can express. */
  ghost predicate CommandFits(c: Command, leaves: nat) {
    && SymbolOf(c) < leaves
    && (c.Copy? ==> 3 <= c.count && c.offset < Pow2(RING_BITS))
  }

  ghost predicate CommandsFit(cs: seq<Command>, leaves: nat) {
    forall i :: 0 <= i < |cs| ==> CommandFits(cs[i], leaves)
  }

  ghost function WriteCommand(t: ValidTree, c: Command): seq<bool>
    requires CommandFits(c, |t.leaves|)
  {
    Code(t, SymbolOf(c)) + if c.Copy? then WriteOffset(c.offset) else []
  }

  /** Each command in the code of the current tree, which then counts the command's symbol. */
  ghost function WriteAll(t: ValidTree, cs: seq<Command>): seq<bool>
    requires CommandsFit(cs, |t.leaves|)
    decreases |cs|
  {
    if cs == [] then [] else WriteCommand(t, cs[0]) + WriteAll(Update(t, SymbolOf(cs[0])), cs[1..])
  }

  function SymbolsOf(cs: seq<Command>): seq<nat> {
    if cs == [] then [] else [SymbolOf(cs[0])] + SymbolsOf(cs[1..])
  }

  lemma CommandIsRead(t: ValidTree, c: Command, rest: seq<bool>)
    requires CommandFits(c, |t.leaves|)
    ensures ReadItem(Lh1Source(t, WriteCommand(t, c) + rest)) == Some((c, Lh1Source(Update(t, SymbolOf(c)), rest)))
  {
    hide Code, Update, ReadSymbol, WriteOffset, NextOffset;
    var tail := if c.Copy? then WriteOffset(c.offset) + rest else rest;
    assert WriteCommand(t, c) + rest == Code(t, SymbolOf(c)) + tail;
    SymbolIsRead(t, SymbolOf(c), tail);
    if c.Copy? { OffsetIsRead(c.offset, rest); }
  }

  /** Decoding carries out exactly the commands written, stops behind them, and ends with the writer's tree. */
  lemma {:induction false} StreamIsRun(t: ValidTree, cs: seq<Command>, rest: seq<bool>, history: seq<byte>)
    returns (last: ValidTree)
    requires CommandsFit(cs, |t.leaves|)
    ensures InAlphabet(SymbolsOf(cs), |t.leaves|) && last == Run(t, SymbolsOf(cs))
    ensures Execute(ReadLh1, Lh1Source(t, WriteAll(t, cs) + rest), history, |cs|)
         == Some((Lh1Source(last, rest), PerformAll(history, cs)))
    decreases |cs|
  {
    hide WriteCommand, ReadItem, Update, Perform;
    if cs == [] {
      assert WriteAll(t, cs) + rest == rest;
      last := t;
    } else {
      var next, tail := Update(t, SymbolOf(cs[0])), WriteAll(Update(t, SymbolOf(cs[0])), cs[1..]) + rest;
      assert WriteAll(t, cs) + rest == WriteCommand(t, cs[0]) + tail;
      CommandIsRead(t, cs[0], tail);
      last := StreamIsRun(next, cs[1..], rest, Perform(history, cs[0]));
    }
  }

  /** Filling a buffer of the right size gives exactly the bytes that the written commands produce. */
  lemma StreamIsDecoded(t: ValidTree, cs: seq<Command>, rest: seq<bool>, history: seq<byte>)
    requires CommandsFit(cs, |t.leaves|)
    ensures InAlphabet(SymbolsOf(cs), |t.leaves|)
    ensures var output := PerformAll(history, cs);
      && history <= output
      && Fill(ReadLh1, LzState(Lh1Source(t, WriteAll(t, cs) + rest), None, history), |output| - |history|)
           == Some((output[|history|..], LzState(Lh1Source(Run(t, SymbolsOf(cs)), rest), None, output)))
  {
    hide CommandsFit, WriteAll, ReadLh1, Fill, Execute, PerformAll, Run, SymbolsOf;
    var last := StreamIsRun(t, cs, rest, history);
    ExecutionFills(ReadLh1, Lh1Source(t, WriteAll(t, cs) + rest), history, |cs|);
  }
}
