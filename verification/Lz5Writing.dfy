/** Writing commands in the lz5 format, in groups of eight behind a flag byte, and why what is written is read back. */
module Lz5Writing {
  import opened Wrappers
  import opened Sums
  import opened Bits
  import opened Lz
  import opened LzCopy
  import opened Lz5Decoders

  /** A command that the format can express. */
  ghost predicate CommandFits(c: Command) {
    c.Copy? ==> c.offset < Pow2(RING_BITS) && 3 <= c.count <= 18
  }

  ghost predicate CommandsFit(cs: seq<Command>) {
    forall i :: 0 <= i < |cs| ==> CommandFits(cs[i])
  }

  /** A command after n bytes of history, without its flag. */
  ghost function WriteCommand(c: Command, n: nat): seq<byte>
    requires CommandFits(c)
  {
    match c
    case Literal(b) => [b]
    case Copy(offset, count) =>
      SmallPowers();
      var pos := PositionOf(offset, ORIGIN, n, RING_BITS);
      [pos % 256, 16 * (pos / 256) + (count - 3)]
  }

  ghost function WriteCommands(cs: seq<Command>, n: nat): seq<byte>
    requires CommandsFit(cs)
    decreases |cs|
  {
    if cs == [] then [] else WriteCommand(cs[0], n) + WriteCommands(cs[1..], n + SizeOf(cs[0]))
  }

  /** The flags of commands: a one announces a literal. */
  function Flags(cs: seq<Command>): (r: seq<bool>)
    ensures |r| == |cs|
  {
    if cs == [] then [] else [cs[0].Literal?] + Flags(cs[1..])
  }

  function FlagByte(cs: seq<Command>): byte
    requires |cs| <= 8
  {
    SmallPowers();
    FromBits(Flags(cs) + Falses(8 - |cs|))
  }

  /** How many bytes commands write. */
  function SizesOf(cs: seq<Command>): nat {
    if cs == [] then 0 else SizeOf(cs[0]) + SizesOf(cs[1..])
  }

  /** Groups of eight commands, each behind its flag byte; the last may have fewer. */
  ghost function WriteAll(cs: seq<Command>, n: nat): seq<byte>
    requires CommandsFit(cs)
    decreases |cs|
  {
    if cs == [] then []
    else
      var k := Min(8, |cs|);
      [FlagByte(cs[..k])] + (WriteCommands(cs[..k], n) + WriteAll(cs[k..], n + SizesOf(cs[..k])))
  }

  lemma {:induction false} FlagsAreRead(bits: seq<bool>)
    ensures FlagsOf(FromBits(bits), |bits|) == bits
  {
    hide Pow2;
    if bits != [] {
      FlagsAreRead(bits[1..]);
      FirstBit(bits);
      assert FromBits(bits) / 2 == FromBits(bits[1..]);
    }
  }

  lemma CommandIsRead(c: Command, flags: seq<bool>, n: nat, rest: seq<byte>)
    requires CommandFits(c)
    ensures ReadLz5(Lz5Source([c.Literal?] + flags, WriteCommand(c, n) + rest), n) == Some((c, Lz5Source(flags, rest)))
  {
    hide Pow2, PositionOf, Placed, FlagsOf;
    SmallPowers();
    var bytes := WriteCommand(c, n) + rest;
    assert ([c.Literal?] + flags)[1..] == flags;
    match c
    case Literal(b) =>
      assert bytes[1..] == rest;
      LiteralStays(b, n);
    case Copy(offset, count) =>
      assert bytes[2..] == rest;
      FieldsOf(PositionOf(offset, ORIGIN, n, RING_BITS), count - 3);
      PositionIsPlaced(offset, count, ORIGIN, n, RING_BITS);
  }

  lemma FieldsOf(pos: nat, low: nat)
    requires low < 16
    ensures (16 * (pos / 256) + low) / 16 == pos / 256 && (16 * (pos / 256) + low) % 16 == low
    ensures 256 * (pos / 256) + pos % 256 == pos
  {
  }

  lemma LiteralStays(b: byte, n: nat)
    ensures Placed(Literal(b), ORIGIN, n, RING_BITS) == Literal(b)
  {
  }

  /** Commands whose flags have been read. */
  lemma {:induction false} GroupIsRun(cs: seq<Command>, flags: seq<bool>, rest: seq<byte>, history: seq<byte>)
    requires CommandsFit(cs)
    ensures Execute(ReadLz5, Lz5Source(Flags(cs) + flags, WriteCommands(cs, |history|) + rest), history, |cs|)
         == Some((Lz5Source(flags, rest), PerformAll(history, cs)))
    ensures |PerformAll(history, cs)| == |history| + SizesOf(cs)
    decreases |cs|
  {
    hide WriteCommand, ReadLz5, Perform, CommandFits;
    if cs == [] {
      assert Flags(cs) + flags == flags && WriteCommands(cs, |history|) + rest == rest;
    } else {
      var tail := WriteCommands(cs[1..], |history| + SizeOf(cs[0])) + rest;
      assert WriteCommands(cs, |history|) + rest == WriteCommand(cs[0], |history|) + tail;
      assert Flags(cs) + flags == [cs[0].Literal?] + (Flags(cs[1..]) + flags);
      CommandIsRead(cs[0], Flags(cs[1..]) + flags, |history|, tail);
      PerformedSize(history, cs[0]);
      GroupIsRun(cs[1..], flags, rest, Perform(history, cs[0]));
    }
  }

  /** A flag byte in front of a group is read with its first command. */
  lemma FlagByteIsRead(b: byte, bytes: seq<byte>, history: seq<byte>, m: nat)
    requires m > 0
    ensures Execute(ReadLz5, Lz5Source([], [b] + bytes), history, m)
         == Execute(ReadLz5, Lz5Source(FlagsOf(b, 8), bytes), history, m)
  {
    hide FlagsOf, Perform, ReadFlagged;
    assert ([b] + bytes)[1..] == bytes;
  }

  /** A group behind its flag byte, and whatever is read after it. */
  lemma WholeGroupIsRun(group: seq<Command>, tail: seq<byte>, history: seq<byte>, m: nat)
    requires CommandsFit(group) && 0 < |group| <= 8
    ensures Execute(ReadLz5, Lz5Source([], [FlagByte(group)] + (WriteCommands(group, |history|) + tail)), history,
                    |group| + m)
         == Execute(ReadLz5, Lz5Source(Falses(8 - |group|), tail), PerformAll(history, group), m)
    ensures |PerformAll(history, group)| == |history| + SizesOf(group)
  {
    hide ReadLz5, Execute, PerformAll, CommandsFit, WriteCommands, Flags, FromBits, SizesOf, Falses, Pow2;
    var unused, bytes := Falses(8 - |group|), WriteCommands(group, |history|) + tail;
    FlagByteIsRead(FlagByte(group), bytes, history, |group| + m);
    FalsesLength(8 - |group|);
    FlagsAreRead(Flags(group) + unused);
    GroupIsRun(group, unused, tail, history);
    ExecuteSplits(ReadLz5, Lz5Source(Flags(group) + unused, bytes), history, |group|, m);
  }

  lemma LastGroup(cs: seq<Command>, n: nat)
    requires CommandsFit(cs) && 0 < |cs| <= 8
    ensures WriteAll(cs, n) == [FlagByte(cs)] + WriteCommands(cs, n)
  {
    hide CommandFits, WriteCommands, FlagByte, SizesOf;
    assert cs[..|cs|] == cs;
    var others := WriteAll(cs[|cs|..], n + SizesOf(cs));
    assert others == [];
    assert WriteCommands(cs, n) + others == WriteCommands(cs, n);
  }

  /** The last group of a stream. */
  lemma LastGroupIsRun(cs: seq<Command>, rest: seq<byte>, history: seq<byte>)
    requires CommandsFit(cs) && 0 < |cs| <= 8
    ensures Execute(ReadLz5, Lz5Source([], WriteAll(cs, |history|) + rest), history, |cs|)
         == Some((Lz5Source(Falses(8 - |cs|), rest), PerformAll(history, cs)))
  {
    hide ReadLz5, Execute, PerformAll, CommandFits, WriteCommands, WriteAll, FlagByte, SizesOf, Falses;
    LastGroup(cs, |history|);
    assert WriteAll(cs, |history|) + rest == [FlagByte(cs)] + (WriteCommands(cs, |history|) + rest);
    WholeGroupIsRun(cs, rest, history, 0);
    NothingExecuted(ReadLz5, Lz5Source(Falses(8 - |cs|), rest), PerformAll(history, cs));
  }

  /**
    Decoding carries out exactly the commands written, and stops behind them, with the unused flags of the last group.
   */
  lemma {:induction false} StreamIsRun(cs: seq<Command>, rest: seq<byte>, history: seq<byte>)
    requires CommandsFit(cs)
    ensures Execute(ReadLz5, Lz5Source([], WriteAll(cs, |history|) + rest), history, |cs|)
         == Some((Lz5Source(Falses(Unfilled(|cs|)), rest), PerformAll(history, cs)))
    decreases |cs|
  {
    hide ReadLz5, Execute, PerformAll, CommandFits, WriteCommands, FlagByte, SizesOf, Falses;
    if cs == [] {
      assert WriteAll(cs, |history|) + rest == rest;
      FalsesLength(0);
      NothingExecuted(ReadLz5, Lz5Source([], rest), history);
      NothingPerformed(history);
    } else if |cs| <= 8 {
      LastGroupIsRun(cs, rest, history);
    } else {
      var group, others := cs[..8], cs[8..];
      assert group + others == cs;
      var tail := WriteAll(others, |history| + SizesOf(group)) + rest;
      assert WriteAll(cs, |history|) + rest == [FlagByte(group)] + (WriteCommands(group, |history|) + tail);
      WholeGroupIsRun(group, tail, history, |others|);
      FalsesLength(0);
      PerformAppends(history, group, others);
      StreamIsRun(others, rest, PerformAll(history, group));
    }
  }

  /** Filling a buffer of the right size gives exactly the bytes that the written commands produce. */
  lemma StreamIsDecoded(cs: seq<Command>, rest: seq<byte>, history: seq<byte>)
    requires CommandsFit(cs)
    ensures var output := PerformAll(history, cs);
      && history <= output
      && Fill(ReadLz5, LzState(Lz5Source([], WriteAll(cs, |history|) + rest), None, history), |output| - |history|)
           == Some((output[|history|..], LzState(Lz5Source(Falses(Unfilled(|cs|)), rest), None, output)))
  {
    hide CommandsFit, WriteAll, ReadLz5, Fill, Execute, PerformAll, Unfilled;
    StreamIsRun(cs, rest, history);
    ExecutionFills(ReadLz5, Lz5Source([], WriteAll(cs, |history|) + rest), history, |cs|);
  }
}
