/** The decoder of the lh4 to lhx formats. */
module Lhv2Decoders {
  import opened Wrappers
  import opened Sums
  import opened Bits
  import opened BitStreams
  import opened StubIo
  import opened StaticTree
  import opened CanonicalCode
  import opened HuffTrees
  import opened RingBufs
  import opened Lz
  import opened LzCopy
  import opened Lhv2Format

  /** A method read what parsing says, and left the bits it leaves. */
  ghost predicate Outcome<T(!new)>(r: Result<T>, parsed: Parsed<T>, left: seq<bool>) {
    && (r.Ok? <==> parsed.Some?)
    && (r.Ok? ==> parsed == Some((r.value, left)))
  }

  class LhaV2Decoder {
    const config: Config
    const bitReader: BitStream
    const commandTree: HuffTree
    const offsetTree: HuffTree
    const ring: RingArrayBuf
    var remainingCommands: nat
    var copyProgress: Option<(nat, Positive)>

    ghost predicate Wired()
      reads this
    {
      && ring.power == config.HistoryBits() - 1 && commandTree != offsetTree
    }

    ghost function Footprint(): set<object> {
      {this, bitReader, bitReader.inner, bitReader.inner.inner, ring, ring.buffer, commandTree, offsetTree}
    }

    /** Commands remain only when both trees are well-formed. */
    ghost predicate Valid()
      reads Footprint()
    {
      && Wired() && bitReader.Valid() && ring.Valid()
      && (remainingCommands > 0 ==> commandTree.Valid() && offsetTree.Valid())
    }

    /** The block being read. Its trees matter only while it has commands. */
    ghost function CurrentBlock(): Option<LiveBlock>
      reads Footprint()
    {
      if remainingCommands == 0 then None else Some(Block(remainingCommands, commandTree.code, offsetTree.code))
    }

    /** A pending copy, its offset reduced to what the ring holds. */
    ghost function Pending(): Option<(nat, Positive)>
      reads this
    {
      match copyProgress
      case None => None
      case Some((offset, count)) => Some((Low(offset, config.HistoryBits() - 1), count))
    }

    ghost function State(): LzState<V2Source>
      reads Footprint()
      requires Valid()
    {
      LzState(V2Source(config, CurrentBlock(), bitReader.Bits()), Pending(), ring.history)
    }

    lemma PartsAreValid()
      requires Valid()
      ensures bitReader.Valid() && State().pending == Pending()
    {
    }

    constructor (config: Config, rd: Take, width: nat)
      requires rd.Valid() && 32 <= width && width % 8 == 0
      ensures Valid() && bitReader.inner == rd && this.config == config
      ensures fresh(bitReader) && fresh(ring) && fresh(ring.buffer) && fresh(commandTree) && fresh(offsetTree)
      ensures State() == StartState(config, rd.Available())
    {
      this.config := config;
      bitReader := new BitStream(rd, width);
      ring := new RingArrayBuf(Pow2(config.HistoryBits() - 1), config.HistoryBits() - 1);
      commandTree := new HuffTree();
      offsetTree := new HuffTree();
      remainingCommands := 0;
      copyProgress := None;
    }

    // ---- block headers

    /** Count one bits up to the first zero. */
    method ReadLongerLength(from: nat) returns (r: Result<nat>)
      requires bitReader.Valid() && from <= MAX_LENGTH
      modifies bitReader, bitReader.inner, bitReader.inner.inner
      ensures bitReader.Valid() && bitReader.inner.End() == old(bitReader.inner.End())
      ensures Outcome(r, LongerLength(from, old(bitReader.Bits())), bitReader.Bits())
    {
      hide BitStream.Valid, BitStream.Bits;
      ghost var whole := LongerLength(from, bitReader.Bits());
      var len: nat := from;
      var bit :- bitReader.ReadBit();
      while bit
        invariant bitReader.Valid() && bitReader.inner.End() == old(bitReader.inner.End())
        invariant len <= MAX_LENGTH && whole == LongerLength(len, [bit] + bitReader.Bits())
        decreases |bitReader.Bits()|
      {
        ghost var left := bitReader.Bits();
        assert ([bit] + left)[1..] == left;
        if len == 255 {
          return Err(Decompress);
        }
        len := len + 1;
        bit :- bitReader.ReadBit();
        assert left == [bit] + bitReader.Bits();
      }
      assert ([bit] + bitReader.Bits())[1..] == bitReader.Bits();
      return Ok(len);
    }

    /** A code length: mostly below seven, but it may be longer. */
    method ReadCodeLength() returns (r: Result<nat>)
      requires bitReader.Valid()
      modifies bitReader, bitReader.inner, bitReader.inner.inner
      ensures bitReader.Valid() && bitReader.inner.End() == old(bitReader.inner.End())
      ensures Outcome(r, CodeLength(old(bitReader.Bits())), bitReader.Bits())
    {
      hide BitStream.Valid, BitStream.Bits, NextBits, LongerLength;
      bitReader.ValidParts();
      SmallPowers();
      var len :- bitReader.ReadBits(8, 3);
      if len == 7 {
        r := ReadLongerLength(7);
      } else {
        r := Ok(len);
      }
    }

    /** How many values a code of a kind below three skips. */
    method ReadCodeSkip(kind: nat) returns (r: Result<nat>)
      requires bitReader.Valid() && kind <= 2
      modifies bitReader, bitReader.inner, bitReader.inner.inner
      ensures bitReader.Valid() && bitReader.inner.End() == old(bitReader.inner.End())
      ensures Outcome(r, ReadSkip(kind, old(bitReader.Bits())), bitReader.Bits())
    {
      hide BitStream.Valid, BitStream.Bits, NextBits;
      bitReader.ValidParts();
      if kind == 0 {
        return Ok(1);
      }
      var (bits, increment) := if kind == 1 then (4, 3) else (9, 20);
      var skip := bitReader.ReadBits(bitReader.width, bits);
      if skip.Err? {
        return skip;
      }
      return Ok(skip.value + increment);
    }

    /** Fill part of a table with code lengths. */
    method ReadLengths(lengths: array<byte>, from: nat, to: nat) returns (r: Result<()>)
      requires bitReader.Valid() && from <= to <= lengths.Length
      modifies lengths, bitReader, bitReader.inner, bitReader.inner.inner
      ensures bitReader.Valid() && bitReader.inner.End() == old(bitReader.inner.End())
      ensures forall k :: 0 <= k < from || to <= k < lengths.Length ==> lengths[k] == old(lengths[k])
      ensures r.Ok? <==> CodeLengths(old(bitReader.Bits()), to - from).Some?
      ensures r.Ok? ==> bitReader.Bits() == CodeLengths(old(bitReader.Bits()), to - from).value.1
      ensures r.Ok? ==> forall k :: from <= k < to ==>
        lengths[k] == CodeLengths(old(bitReader.Bits()), to - from).value.0[k - from]
    {
      hide BitStream.Valid, BitStream.Bits, CodeLength, CodeLengths, Before;
      ghost var whole, head: Lengths := CodeLengths(bitReader.Bits(), to - from), [];
      LengthsBegin(bitReader.Bits(), to - from);
      for i := from to to
        invariant bitReader.Valid() && bitReader.inner.End() == old(bitReader.inner.End())
        invariant |head| == i - from && forall k :: from <= k < i ==> lengths[k] == head[k - from]
        invariant forall k :: 0 <= k < from || i <= k < lengths.Length ==> lengths[k] == old(lengths[k])
        invariant whole == Before(head, CodeLengths(bitReader.Bits(), to - i))
      {
        LengthsGrow(whole, head, bitReader.Bits(), to - i);
        var len := ReadCodeLength();
        if len.Err? {
          return Err(len.error);
        }
        lengths[i] := len.value;
        head := head + [len.value];
      }
      LengthsEnd(whole, head, bitReader.Bits());
      return Ok(());
    }

    /** The lengths of the temporary code behind the gap. */
    method ReadTempOthers(lengths: array<byte>, numCodes: nat, ghost head: Lengths, skip: nat) returns (r: Result<()>)
      requires bitReader.Valid() && 3 + skip <= numCodes <= lengths.Length
      requires |head| == 3 && forall k :: 0 <= k < 3 ==> lengths[k] == head[k]
      requires forall k :: 3 <= k < lengths.Length ==> lengths[k] == 0
      modifies lengths, bitReader, bitReader.inner, bitReader.inner.inner
      ensures bitReader.Valid() && bitReader.inner.End() == old(bitReader.inner.End())
      ensures r.Ok? <==> TempOthers(old(bitReader.Bits()), numCodes, head, skip).Some?
      ensures r.Ok? ==>
        TempOthers(old(bitReader.Bits()), numCodes, head, skip) == Some((lengths[..numCodes], bitReader.Bits()))
    {
      hide BitStream.Valid, BitStream.Bits, CodeLengths;
      ghost var bits := bitReader.Bits();
      var _ :- ReadLengths(lengths, 3 + skip, numCodes);
      ThreeParts(lengths[..numCodes], head, skip, CodeLengths(bits, numCodes - 3 - skip).value.0);
      return Ok(());
    }

    /** What follows the first lengths of the temporary code: a gap, and the other lengths. */
    method ReadTempTail(lengths: array<byte>, numCodes: nat, ghost head: Lengths) returns (r: Result<()>)
      requires bitReader.Valid() && numCodes <= lengths.Length
      requires |head| == Min(numCodes, 3) && forall k :: 0 <= k < |head| ==> lengths[k] == head[k]
      requires forall k :: 3 <= k < lengths.Length ==> lengths[k] == 0
      modifies lengths, bitReader, bitReader.inner, bitReader.inner.inner
      ensures bitReader.Valid() && bitReader.inner.End() == old(bitReader.inner.End())
      ensures r.Ok? <==> TempTail(old(bitReader.Bits()), numCodes, head).Some?
      ensures r.Ok? ==> TempTail(old(bitReader.Bits()), numCodes, head) == Some((lengths[..numCodes], bitReader.Bits()))
    {
      hide BitStream.Valid, BitStream.Bits, NextBits, TempOthers;
      bitReader.ValidParts();
      var skip :- bitReader.ReadBits(bitReader.width, 2);
      if 3 + skip > numCodes {
        return Err(Decompress);
      }
      r := ReadTempOthers(lengths, numCodes, head, skip);
    }

    method ReadTempLengths(numCodes: nat) returns (r: Result<Lengths>)
      requires bitReader.Valid() && numCodes <= NUM_TEMP_CODELEN
      modifies bitReader, bitReader.inner, bitReader.inner.inner
      ensures bitReader.Valid() && bitReader.inner.End() == old(bitReader.inner.End())
      ensures Outcome(r, TempLengths(old(bitReader.Bits()), numCodes), bitReader.Bits())
    {
      hide BitStream.Valid, BitStream.Bits, CodeLengths, TempTail;
      var lengths := new byte[NUM_TEMP_CODELEN](_ => 0);
      var _ :- ReadLengths(lengths, 0, Min(numCodes, 3));
      var _ :- ReadTempTail(lengths, numCodes, CodeLengths(old(bitReader.Bits()), Min(numCodes, 3)).value.0);
      return Ok(lengths[..numCodes]);
    }

    /** A code of a single value. */
    method ReadSingleCode(tree: HuffTree, n: nat) returns (r: Result<()>)
      requires bitReader.Valid() && n <= 16
      modifies tree, bitReader, bitReader.inner, bitReader.inner.inner
      ensures bitReader.Valid() && bitReader.inner.End() == old(bitReader.inner.End())
      ensures r.Ok? <==> SingleCode(old(bitReader.Bits()), n).Some?
      ensures r.Ok? ==> tree.Valid() && SingleCode(old(bitReader.Bits()), n) == Some((tree.code, bitReader.Bits()))
    {
      hide BitStream.Valid, BitStream.Bits, HuffTree.Valid, NextBits;
      bitReader.ValidParts();
      var code :- bitReader.ReadBits(16, n);
      tree.SetSingle(code);
      return Ok(());
    }

    method ReadTempTree() returns (r: Result<()>)
      requires bitReader.Valid()
      modifies offsetTree, bitReader, bitReader.inner, bitReader.inner.inner
      ensures bitReader.Valid() && bitReader.inner.End() == old(bitReader.inner.End())
      ensures r.Ok? <==> TempCode(old(bitReader.Bits())).Some?
      ensures r.Ok? ==>
        offsetTree.Valid() && TempCode(old(bitReader.Bits())) == Some((offsetTree.code, bitReader.Bits()))
    {
      hide BitStream.Valid, BitStream.Bits, HuffTree.Valid, TempLengths, SingleCode, NextBits, Complete;
      bitReader.ValidParts();
      var numCodes :- bitReader.ReadBits(bitReader.width, 5);
      if numCodes == 0 {
        r := ReadSingleCode(offsetTree, 5);
      } else if numCodes > NUM_TEMP_CODELEN {
        r := Err(Decompress);
      } else {
        var lengths :- ReadTempLengths(numCodes);
        r := offsetTree.BuildTree(lengths);
      }
    }

    method ReadOffsetLengths(numCodes: nat) returns (r: Result<Lengths>)
      requires bitReader.Valid() && numCodes <= NUM_TEMP_CODELEN
      modifies bitReader, bitReader.inner, bitReader.inner.inner
      ensures bitReader.Valid() && bitReader.inner.End() == old(bitReader.inner.End())
      ensures Outcome(r, CodeLengths(old(bitReader.Bits()), numCodes), bitReader.Bits())
    {
      hide BitStream.Valid, BitStream.Bits, CodeLengths;
      var lengths := new byte[NUM_TEMP_CODELEN](_ => 0);
      var _ :- ReadLengths(lengths, 0, numCodes);
      assert lengths[..numCodes] == CodeLengths(old(bitReader.Bits()), numCodes).value.0;
      return Ok(lengths[..numCodes]);
    }

    method ReadOffsetTree() returns (r: Result<()>)
      requires bitReader.Valid()
      modifies offsetTree, bitReader, bitReader.inner, bitReader.inner.inner
      ensures bitReader.Valid() && bitReader.inner.End() == old(bitReader.inner.End())
      ensures r.Ok? <==> OffsetCode(config, old(bitReader.Bits())).Some?
      ensures r.Ok? ==>
        offsetTree.Valid() && OffsetCode(config, old(bitReader.Bits())) == Some((offsetTree.code, bitReader.Bits()))
    {
      hide BitStream.Valid, BitStream.Bits, HuffTree.Valid, CodeLengths, SingleCode, NextBits, Complete,
        Config.HistoryBits, Config.OffsetBits;
      bitReader.ValidParts();
      var numCodes :- bitReader.ReadBits(bitReader.width, config.OffsetBits());
      if numCodes == 0 {
        r := ReadSingleCode(offsetTree, config.OffsetBits());
      } else if numCodes > config.HistoryBits() {
        r := Err(Decompress);
      } else {
        var lengths :- ReadOffsetLengths(numCodes);
        r := offsetTree.BuildTree(lengths);
      }
    }

    /** Read a token in the temporary code and do what it says at an index of the table. */
    method ReadRun(lengths: array<byte>, index: nat) returns (r: Result<nat>)
      requires bitReader.Valid() && offsetTree.Valid() && index < lengths.Length
      modifies lengths, bitReader, bitReader.inner, bitReader.inner.inner
      ensures bitReader.Valid() && bitReader.inner.End() == old(bitReader.inner.End())
      ensures r.Ok? <==> ReadToken(offsetTree.code, old(bitReader.Bits())).Some?
      ensures r.Ok? ==>
        var (t, left) := ReadToken(offsetTree.code, old(bitReader.Bits())).value;
        && left == bitReader.Bits() && r.value == index + |Run(t)|
        && lengths[index] == (if t.Skip? then old(lengths[index]) else t.len)
      ensures forall k :: 0 <= k < lengths.Length && k != index ==> lengths[k] == old(lengths[k])
    {
      hide BitStream.Valid, BitStream.Bits, HuffTree.Valid, ReadCode, ReadSkip;
      var code :- offsetTree.ReadEntry(bitReader);
      if code <= 2 {
        var skip :- ReadCodeSkip(code);
        return Ok(index + skip);
      }
      lengths[index] := (code - 2) % 256;
      return Ok(index + 1);
    }

    /** The command table: token after token, until it is full. */
    method ReadTokenTable(lengths: array<byte>, numCodes: nat) returns (r: Result<()>)
      requires bitReader.Valid() && offsetTree.Valid() && numCodes <= lengths.Length
      requires forall k :: 0 <= k < lengths.Length ==> lengths[k] == 0
      modifies lengths, bitReader, bitReader.inner, bitReader.inner.inner
      ensures bitReader.Valid() && bitReader.inner.End() == old(bitReader.inner.End())
      ensures r.Ok? <==> ReadTable(offsetTree.code, old(bitReader.Bits()), numCodes).Some?
      ensures r.Ok? ==>
        ReadTable(offsetTree.code, old(bitReader.Bits()), numCodes) == Some((lengths[..numCodes], bitReader.Bits()))
    {
      hide BitStream.Valid, BitStream.Bits, HuffTree.Valid, ReadToken, ReadTable, Before;
      ghost var temp, head: Lengths := offsetTree.code, [];
      ghost var whole := ReadTable(temp, bitReader.Bits(), numCodes);
      TableBegin(temp, bitReader.Bits(), numCodes);
      var index := 0;
      while index < numCodes
        invariant bitReader.Valid() && bitReader.inner.End() == old(bitReader.inner.End()) && offsetTree.Valid()
        invariant |head| == Min(index, numCodes) && forall k :: 0 <= k < |head| ==> lengths[k] == head[k]
        invariant forall k :: index <= k < lengths.Length ==> lengths[k] == 0
        invariant whole == Before(head, ReadTable(temp, bitReader.Bits(), numCodes - |head|))
      {
        TableGrows(whole, head, temp, bitReader.Bits(), numCodes - |head|);
        ghost var bits := bitReader.Bits();
        var next :- ReadRun(lengths, index);
        ghost var run := Run(ReadToken(temp, bits).value.0);
        head := head + run[..Min(|run|, numCodes - |head|)];
        index := next;
      }
      TableEnd(whole, head, temp, bitReader.Bits());
      assert lengths[..numCodes] == head;
      return Ok(());
    }

    method ReadCommandLengths(numCodes: nat) returns (r: Result<Lengths>)
      requires bitReader.Valid() && offsetTree.Valid() && numCodes <= NUM_COMMANDS
      modifies bitReader, bitReader.inner, bitReader.inner.inner
      ensures bitReader.Valid() && bitReader.inner.End() == old(bitReader.inner.End())
      ensures Outcome(r, ReadTable(offsetTree.code, old(bitReader.Bits()), numCodes), bitReader.Bits())
    {
      hide BitStream.Valid, BitStream.Bits, HuffTree.Valid, ReadTable;
      var lengths := new byte[NUM_COMMANDS](_ => 0);
      var _ :- ReadTokenTable(lengths, numCodes);
      return Ok(lengths[..numCodes]);
    }

    method ReadCommandTree() returns (r: Result<()>)
      requires bitReader.Valid() && offsetTree.Valid() && commandTree != offsetTree
      modifies commandTree, bitReader, bitReader.inner, bitReader.inner.inner
      ensures bitReader.Valid() && bitReader.inner.End() == old(bitReader.inner.End())
      ensures r.Ok? <==> CommandCode(offsetTree.code, old(bitReader.Bits())).Some?
      ensures r.Ok? ==> commandTree.Valid()
      ensures r.Ok? ==>
        CommandCode(offsetTree.code, old(bitReader.Bits())) == Some((commandTree.code, bitReader.Bits()))
    {
      hide BitStream.Valid, BitStream.Bits, HuffTree.Valid, ReadTable, SingleCode, NextBits, Complete;
      bitReader.ValidParts();
      SmallPowers();
      var numCodes :- bitReader.ReadBits(bitReader.width, 9);
      if numCodes == 0 {
        r := ReadSingleCode(commandTree, 9);
      } else if numCodes > NUM_COMMANDS {
        r := Err(Decompress);
      } else {
        var lengths :- ReadCommandLengths(numCodes);
        r := commandTree.BuildTree(lengths);
      }
    }

    /** Read the codes of a block. The offset tree first holds the temporary code. */
    method ReadTrees(ghost count: nat) returns (r: Result<()>)
      requires bitReader.Valid() && commandTree != offsetTree
      modifies commandTree, offsetTree, bitReader, bitReader.inner, bitReader.inner.inner
      ensures bitReader.Valid() && bitReader.inner.End() == old(bitReader.inner.End())
      ensures r.Ok? <==> BlockCodes(config, count, old(bitReader.Bits())).Some?
      ensures r.Ok? ==> commandTree.Valid() && offsetTree.Valid()
      ensures r.Ok? ==> BlockCodes(config, count, old(bitReader.Bits()))
                          == Some((Block(count, commandTree.code, offsetTree.code), bitReader.Bits()))
    {
      hide BitStream.Valid, BitStream.Bits, HuffTree.Valid, TempCode, CommandCode, OffsetCode;
      var _ :- ReadTempTree();
      var _ :- ReadCommandTree();
      r := ReadOffsetTree();
    }

    method BeginNewBlock() returns (r: Result<()>)
      requires bitReader.Valid() && commandTree != offsetTree
      modifies `remainingCommands, commandTree, offsetTree, bitReader, bitReader.inner, bitReader.inner.inner
      ensures bitReader.Valid() && bitReader.inner.End() == old(bitReader.inner.End())
      ensures r.Ok? <==> BlockHeader(config, old(bitReader.Bits())).Some?
      ensures r.Ok? ==> commandTree.Valid() && offsetTree.Valid()
      ensures r.Ok? ==> BlockHeader(config, old(bitReader.Bits()))
                          == Some((Block(remainingCommands, commandTree.code, offsetTree.code), bitReader.Bits()))
    {
      hide BitStream.Valid, BitStream.Bits, HuffTree.Valid, BlockCodes, NextBits;
      bitReader.ValidParts();
      var count :- bitReader.ReadBits(16, 16);
      remainingCommands := count;
      r := ReadTrees(count);
    }

    // ---- commands

    /** Begin blocks until one has commands. */
    method BeginCommands() returns (r: Result<()>)
      requires Valid()
      modifies `remainingCommands, commandTree, offsetTree, bitReader, bitReader.inner, bitReader.inner.inner
      ensures bitReader.Valid() && bitReader.inner.End() == old(bitReader.inner.End())
      ensures r.Ok? <==> StartedBlock(old(State()).source).Some?
      ensures r.Ok? ==> remainingCommands > 0 && commandTree.Valid() && offsetTree.Valid()
      ensures r.Ok? ==> StartedBlock(old(State()).source) == Some((CurrentBlock().value, bitReader.Bits()))
    {
      hide BitStream.Valid, BitStream.Bits, HuffTree.Valid, BlockHeader, RingArrayBuf.Valid;
      ghost var source := State().source;
      while remainingCommands == 0
        invariant bitReader.Valid() && bitReader.inner.End() == old(bitReader.inner.End())
        invariant remainingCommands > 0 ==> commandTree.Valid() && offsetTree.Valid()
        invariant StartedBlock(source) == StartedBlock(V2Source(config, CurrentBlock(), bitReader.Bits()))
        decreases |bitReader.Bits()|
      {
        var _ :- BeginNewBlock();
      }
      return Ok(());
    }

    /** The bits of an offset below its highest. */
    method ReadLowBits(n: nat) returns (r: Result<nat>)
      requires bitReader.Valid() && n > 0
      modifies bitReader, bitReader.inner, bitReader.inner.inner
      ensures bitReader.Valid() && bitReader.inner.End() == old(bitReader.inner.End())
      ensures Outcome(r, LowBitsOf(n, old(bitReader.Bits())), bitReader.Bits())
    {
      hide BitStream.Valid, BitStream.Bits, NextBits, Or, Shl, Pow2;
      bitReader.ValidParts();
      var res :- bitReader.ReadBits(32, n);
      HighestBit(res, n);
      return Ok(Or(res, Shl(1, n)));
    }

    method ReadOffset() returns (r: Result<nat>)
      requires bitReader.Valid() && offsetTree.Valid()
      modifies bitReader, bitReader.inner, bitReader.inner.inner
      ensures bitReader.Valid() && bitReader.inner.End() == old(bitReader.inner.End())
      ensures Outcome(r, OffsetOf(offsetTree.code, old(bitReader.Bits())), bitReader.Bits())
    {
      hide BitStream.Valid, BitStream.Bits, HuffTree.Valid, ReadCode, LowBitsOf;
      bitReader.ValidParts();
      var size :- offsetTree.ReadEntry(bitReader);
      if size <= 1 {
        r := Ok(size);
      } else {
        r := ReadLowBits(size - 1);
      }
    }

    /** A command whose offset is reduced to what the ring holds. */
    ghost function Reduced(c: Command): Command {
      match c
      case Literal(b) => c
      case Copy(offset, count) => Copy(Low(offset, config.HistoryBits() - 1), count)
    }

    /** Read a command of a block that has one. */
    method ReadFromBlock() returns (r: Result<Command>)
      requires bitReader.Valid() && remainingCommands > 0 && commandTree.Valid() && offsetTree.Valid()
      modifies `remainingCommands, bitReader, bitReader.inner, bitReader.inner.inner
      ensures bitReader.Valid() && bitReader.inner.End() == old(bitReader.inner.End())
      ensures r.Ok? <==> ReadFrom(config, old(CurrentBlock()).value, old(bitReader.Bits())).Some?
      ensures r.Ok? ==> ReadFrom(config, old(CurrentBlock()).value, old(bitReader.Bits()))
                          == Some((Reduced(r.value), V2Source(config, CurrentBlock(), bitReader.Bits())))
    {
      hide BitStream.Valid, BitStream.Bits, HuffTree.Valid, ReadCode, OffsetOf, Low, Config.HistoryBits;
      remainingCommands := remainingCommands - 1;
      var code :- commandTree.ReadEntry(bitReader);
      if code < 0x100 {
        return Ok(Literal(code));
      }
      var offset :- ReadOffset();
      return Ok(Copy(offset, code - 0x100 + 3));
    }

    /** Read the next command, of this block or a later one. */
    method ReadCommand() returns (r: Result<Command>)
      requires Valid()
      modifies `remainingCommands, commandTree, offsetTree, bitReader, bitReader.inner, bitReader.inner.inner
      ensures bitReader.Valid() && bitReader.inner.End() == old(bitReader.inner.End())
      ensures r.Ok? <==> ReadV2(old(State()).source, |old(State()).history|).Some?
      ensures r.Ok? ==> Valid() && State() == old(State()).(source := State().source)
      ensures r.Ok? ==> ReadV2(old(State()).source, |old(State()).history|) == Some((Reduced(r.value), State().source))
    {
      hide BitStream.Valid, BitStream.Bits, HuffTree.Valid, RingArrayBuf.Valid, StartedBlock, ReadFrom, Reduced;
      var _ :- BeginCommands();
      r := ReadFromBlock();
    }

    /** Copy from the ring what fits in the buffer; what does not stays pending. */
    method CopyFromHistory(buf: array<byte>, from: nat, offset: nat, count: Positive) returns (to: nat)
      requires Valid() && from <= buf.Length && buf !in Footprint()
      modifies this`copyProgress, ring, ring.buffer, buf
      ensures Valid() && from <= to <= buf.Length
      ensures var r := Resume(old(State()), Low(offset, config.HistoryBits() - 1), count, buf.Length - from);
        buf[..to] == old(buf[..from]) + r.0 && State() == r.1
      ensures to == from + Min(count, buf.Length - from)
    {
      hide HuffTree.Valid, BitStream.Valid, BitStream.Bits, RingArrayBuf.Valid, HistoryIter.Valid, CopyBytes, Low,
        Config.HistoryBits;
      var it := ring.IterFromOffset(offset);
      to := CopyFrom(it, buf, from, count);
      copyProgress := Left(offset, count, buf.Length - from);
    }

    method PutLiteral(buf: array<byte>, i: nat, b: byte)
      requires Valid() && i < buf.Length && buf !in Footprint()
      modifies ring, ring.buffer, buf
      ensures Valid() && State() == old(State()).(history := old(State()).history + [b])
      ensures buf[..i + 1] == old(buf[..i]) + [b]
    {
      hide HuffTree.Valid, BitStream.Valid, BitStream.Bits, RingArrayBuf.Valid;
      buf[i] := b;
      ring.Push(b);
    }

    /** The first i bytes of the buffer are filled, on the way from the state in which `total` began. */
    ghost predicate Reached(total: Option<(seq<byte>, LzState<V2Source>)>, buf: array<byte>, i: nat)
      reads Footprint(), buf
    {
      && Valid() && buf !in Footprint() && i <= buf.Length
      && OnTheWay(ReadV2, total, buf[..i], State(), buf.Length - i)
    }

    /** Carry out one more command, as far as it fits in the buffer. */
    method Step(buf: array<byte>, from: nat, ghost total: Option<(seq<byte>, LzState<V2Source>)>)
      returns (r: Result<nat>)
      requires Reached(total, buf, from) && from < buf.Length && State().pending.None?
      modifies Footprint(), buf
      ensures bitReader.Valid() && bitReader.inner.End() == old(bitReader.inner.End())
      ensures r.Err? ==> total.None?
      ensures r.Ok? ==>
        from < r.value && Reached(total, buf, r.value) && (r.value < buf.Length ==> State().pending.None?)
    {
      hide Valid, State, ReadV2, OnTheWay, HuffTree.Valid, BitStream.Valid, RingArrayBuf.Valid;
      ghost var st, n, done := State(), buf.Length - from, buf[..from];
      var command := ReadCommand();
      if command.Err? {
        StepFails(ReadV2, total, done, st, n);
        return Err(command.error);
      }
      match command.value {
        case Literal(b) =>
          StepLiteral(ReadV2, total, done, st, n, b, State().source);
          PutLiteral(buf, from, b);
          r := Ok(from + 1);
        case Copy(offset, count) =>
          ghost var d := Low(offset, config.HistoryBits() - 1);
          StepCopy(ReadV2, total, done, st, n, d, count, State().source);
          StepResume(ReadV2, total, done, st.(source := State().source, pending := Some((d, count))), n, d, count);
          var to := CopyFromHistory(buf, from, offset, count);
          r := Ok(to);
      }
    }

    /** Begin a buffer with what is left of a copy, if anything is. */
    method ResumeCopy(buf: array<byte>, ghost total: Option<(seq<byte>, LzState<V2Source>)>) returns (i: nat)
      requires Valid() && buf !in Footprint() && total == Fill(ReadV2, State(), buf.Length)
      modifies this`copyProgress, ring, ring.buffer, buf
      ensures Reached(total, buf, i) && (i < buf.Length ==> State().pending.None?)
    {
      hide Valid, State, ReadV2, OnTheWay, HuffTree.Valid, BitStream.Valid, RingArrayBuf.Valid;
      PartsAreValid();
      ghost var st, done := State(), buf[..0];
      assert done == [];
      SetOut(ReadV2, st, buf.Length);
      if copyProgress.None? {
        return 0;
      }
      var (offset, count) := copyProgress.value;
      StepResume(ReadV2, total, done, st, buf.Length, Low(offset, config.HistoryBits() - 1), count);
      i := CopyFromHistory(buf, 0, offset, count);
    }

    /**
      Fill the whole buffer with decoded bytes. This is `Fill` over the plain bit list and unbounded history,
      whatever the buffer sizes of earlier calls were.
     */
    method FillBuffer(buf: array<byte>) returns (r: Result<()>)
      requires Valid() && buf !in Footprint()
      modifies Footprint(), buf
      ensures bitReader.Valid() && bitReader.inner.End() == old(bitReader.inner.End())
      ensures r.Ok? <==> Fill(ReadV2, old(State()), buf.Length).Some?
      ensures r.Ok? ==> Valid() && Fill(ReadV2, old(State()), buf.Length) == Some((buf[..], State()))
    {
      hide Valid, State, ReadV2, OnTheWay, HuffTree.Valid, BitStream.Valid, RingArrayBuf.Valid;
      PartsAreValid();
      ghost var total := Fill(ReadV2, State(), buf.Length);
      var i := ResumeCopy(buf, total);
      while i < buf.Length
        invariant 0 <= i && Reached(total, buf, i) && (i < buf.Length ==> State().pending.None?)
        invariant bitReader.Valid() && bitReader.inner.End() == old(bitReader.inner.End())
      {
        i :- Step(buf, i, total);
      }
      assert buf[..i] == buf[..];
      Arrived(ReadV2, total, buf[..], State());
      return Ok(());
    }
  }
}
