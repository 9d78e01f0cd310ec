/** Writing commands in the lzs format, and why what is written is read back. */
module LzsWriting {
  import opened Wrappers
  import opened Sums
  import opened Bits
  import opened Lz
  import opened LzCopy
  import opened LzsDecoders

  /** A command that the format can express. */
  ghost predicate CommandFits(c: Command) {
    c.Copy? ==> c.offset < Pow2(RING_BITS) && 2 <= c.count <= 17
  }

  ghost predicate CommandsFit(cs: seq<Command>) {
    forall i :: 0 <= i < |cs| ==> CommandFits(cs[i])
  }

  /** A command after n bytes of history. */
  ghost function WriteCommand(c: Command, n: nat): seq<bool>
    requires CommandFits(c)
  {
    match c
    case Literal(b) => [true] + BitsOf(b, 8)
    case Copy(offset, count) =>
      [false] + (BitsOf(PositionOf(offset, ORIGIN, n, RING_BITS), RING_BITS) + BitsOf(count - 2, 4))
  }

  ghost function WriteAll(cs: seq<Command>, n: nat): seq<bool>
    requires CommandsFit(cs)
    decreases |cs|
  {
    if cs == [] then [] else WriteCommand(cs[0], n) + WriteAll(cs[1..], n + SizeOf(cs[0]))
  }

  lemma CommandIsRead(c: Command, n: nat, rest: seq<bool>)
    requires CommandFits(c)
    ensures ReadLzs(WriteCommand(c, n) + rest, n) == Some((c, rest))
  {
    hide NextBits, BitsOf, Pow2, PositionOf, Placed;
    SmallPowers();
    var bits := WriteCommand(c, n) + rest;
    match c
    case Literal(b) =>
      assert bits[1..] == BitsOf(b, 8) + rest;
      BitsAreRead(b, 8, rest);
      LiteralStays(b, n);
    case Copy(offset, count) =>
      var pos := PositionOf(offset, ORIGIN, n, RING_BITS);
      assert bits[1..] == BitsOf(pos, RING_BITS) + (BitsOf(count - 2, 4) + rest);
      BitsAreRead(pos, RING_BITS, BitsOf(count - 2, 4) + rest);
      BitsAreRead(count - 2, 4, rest);
      PositionIsPlaced(offset, count, ORIGIN, n, RING_BITS);
  }

  lemma LiteralStays(b: byte, n: nat)
    ensures Placed(Literal(b), ORIGIN, n, RING_BITS) == Literal(b)
  {
  }

  /** Decoding carries out exactly the commands written, and stops behind them. */
  lemma {:induction false} StreamIsRun(cs: seq<Command>, rest: seq<bool>, history: seq<byte>)
    requires CommandsFit(cs)
    ensures Execute(ReadLzs, WriteAll(cs, |history|) + rest, history, |cs|) == Some((rest, PerformAll(history, cs)))
    decreases |cs|
  {
    hide WriteCommand, ReadLzs, Perform, CommandFits;
    if cs == [] {
      assert WriteAll(cs, |history|) + rest == rest;
    } else {
      var tail := WriteAll(cs[1..], |history| + SizeOf(cs[0])) + rest;
      assert WriteAll(cs, |history|) + rest == WriteCommand(cs[0], |history|) + tail;
      CommandIsRead(cs[0], |history|, tail);
      PerformedSize(history, cs[0]);
      StreamIsRun(cs[1..], rest, Perform(history, cs[0]));
    }
  }

  /** Filling a buffer of the right size gives exactly the bytes that the written commands produce. */
  lemma StreamIsDecoded(cs: seq<Command>, rest: seq<bool>, history: seq<byte>)
    requires CommandsFit(cs)
    ensures var output := PerformAll(history, cs);
      && history <= output
      && Fill(ReadLzs, LzState(WriteAll(cs, |history|) + rest, None, history), |output| - |history|)
           == Some((output[|history|..], LzState(rest, None, output)))
  {
    hide CommandsFit, WriteAll, ReadLzs, Fill, Execute, PerformAll;
    StreamIsRun(cs, rest, history);
    ExecutionFills(ReadLzs, WriteAll(cs, |history|) + rest, history, |cs|);
  }
}
