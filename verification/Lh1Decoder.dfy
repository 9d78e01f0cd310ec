/** The `-lh1-` decoder. */
module Lh1Decoders {
  import opened Wrappers
  import opened Sums
  import opened Bits
  import opened BitStreams
  import opened StubIo
  import opened DynTree
  import opened DynTreeCode
  import opened DynTreeNew
  import opened DynHuffTrees
  import opened RingBufs
  import opened Lz
  import opened LzCopy

  const RING_BITS: nat := 12
  const NUM_LEAVES: nat := 314

  /** The high bits of an offset, and how many low bits are still to be read. */
  function DecodeOffset(bits9: nat): (nat, nat)
    requires bits9 < 512
  {
    var top := bits9 - bits9 % 32;
    if top <= 0x3f then (bits9, 0)
    else if top <= 0x9f then (Shl(bits9 - 0x20, 1), 1)
    else if top <= 0x11f then (Shl(bits9 - 0x60, 2), 2)
    else if top <= 0x17f then (Shl(bits9 - 0xc0, 3), 3)
    else if top <= 0x1df then (Shl(bits9 - 0x120, 4), 4)
    else (Shl(bits9 - 0x180, 5), 5)
  }

  // ---- the decoder over a plain list of bits

  datatype Lh1Source = Lh1Source(tree: ValidTree, bits: seq<bool>)

  ghost function NextOffset(bits: seq<bool>): Option<(nat, seq<bool>)> {
    match NextBits(bits, 9)
    case None => None
    case Some((bits9, rest)) =>
      SmallPowers();
      var (high, n) := DecodeOffset(bits9);
      match NextBits(rest, n)
      case None => None
      case Some((low, left)) => Some((Or(high, low), left))
  }

  /** An offset has at most five more bits, and twelve in all. */
  lemma OffsetFits(bits9: nat, low: nat)
    requires bits9 < 512
    ensures DecodeOffset(bits9).1 <= 5
    ensures low < Pow2(DecodeOffset(bits9).1) ==> Or(DecodeOffset(bits9).0, low) < Pow2(RING_BITS)
  {
    if low < Pow2(DecodeOffset(bits9).1) {
      OffsetOr(bits9, low);
    }
  }

  lemma OffsetOr(bits9: nat, low: nat)
    requires bits9 < 512 && low < Pow2(DecodeOffset(bits9).1)
    ensures Or(DecodeOffset(bits9).0, low) < Pow2(RING_BITS)
  {
    hide Shl, Or, Pow2;
    SmallPowers();
    var n := DecodeOffset(bits9).1;
    var high := bits9 - if n == 0 then 0 else if n == 1 then 0x20 else if n == 2 then 0x60 else if n == 3 then 0xc0
      else if n == 4 then 0x120 else 0x180;
    OrAdds(high, n, low);
    SmallShifts(high);
  }

  /** A byte value is a literal; any other is the length of a copy, followed by its offset. */
  ghost function ReadItem(s: Lh1Source): Option<(Command, Lh1Source)> {
    match ReadSymbol(s.tree, s.bits)
    case None => None
    case Some((v, tree, rest)) =>
      if v < 0x100 then Some((Literal(v), Lh1Source(tree, rest)))
      else match NextOffset(rest)
        case None => None
        case Some((offset, left)) =>
          Some((Copy(offset, v - 0x100 + 3), Lh1Source(tree, left)))
  }

  ghost function ReadLh1(s: Lh1Source, written: nat): Option<(Command, Lh1Source)> {
    ReadItem(s)
  }

  /** Before anything is read: the initial tree, and a history of spaces. */
  ghost function StartState(bytes: seq<byte>): LzState<Lh1Source> {
    hide NewTree, DynTree.Valid;
    LzState(Lh1Source(NewTree(NUM_LEAVES), BytesBits(bytes)), None, seq(Pow2(RING_BITS), _ => ' ' as byte))
  }

  // ---- the decoder as it runs

  class Lh1Decoder {
    const bitReader: BitStream
    const commandTree: DynHuffTree
    const ring: RingArrayBuf
    var copyProgress: Option<(nat, Positive)>

    ghost predicate Wired() {
      ring.power == RING_BITS
    }

    ghost function Footprint(): set<object> {
      {this, bitReader, bitReader.inner, bitReader.inner.inner, ring, ring.buffer} + commandTree.Parts()
    }

    ghost predicate Valid()
      reads this, bitReader, bitReader.inner, bitReader.inner.inner, ring, ring.buffer, commandTree.Parts()
    {
      Wired() && bitReader.Valid() && commandTree.Valid() && ring.Valid() &&
      (copyProgress.Some? ==> copyProgress.value.0 < Pow2(RING_BITS))
    }

    ghost function State(): LzState<Lh1Source>
      reads this, bitReader, bitReader.inner, bitReader.inner.inner, ring, ring.buffer, commandTree.Parts()
      requires Valid()
    {
      LzState(Source(), copyProgress, ring.history)
    }

    lemma PartsAreValid()
      requires Valid()
      ensures bitReader.Valid()
      ensures State().pending == copyProgress && (copyProgress.Some? ==> copyProgress.value.0 < Pow2(RING_BITS))
    {
      hide DynTree.Valid, DynHuffTree.Valid, DynHuffTree.Model, BitStream.Valid, RingArrayBuf.Valid;
    }

    constructor (rd: Take, width: nat)
      requires rd.Valid() && 32 <= width && width % 8 == 0
      ensures Valid() && bitReader.inner == rd
      ensures fresh(bitReader) && fresh(ring) && fresh(ring.buffer) && fresh(commandTree.Parts())
      ensures State() == StartState(rd.Available())
    {
      hide DynTree.Valid, DynHuffTree.Model, NewTree, BitStream.Valid, BitStream.Bits, RingArrayBuf.Valid;
      bitReader := new BitStream(rd, width);
      ring := new RingArrayBuf(Pow2(RING_BITS), RING_BITS);
      commandTree := new DynHuffTree(NUM_LEAVES);
      copyProgress := None;
    }

    method ReadOffset() returns (r: Result<nat>)
      requires bitReader.Valid()
      modifies bitReader, bitReader.inner, bitReader.inner.inner
      ensures bitReader.Valid() && bitReader.inner.End() == old(bitReader.inner.End())
      ensures r.Ok? <==> NextOffset(old(bitReader.Bits())).Some?
      ensures r.Ok? ==>
        NextOffset(old(bitReader.Bits())) == Some((r.value, bitReader.Bits())) && r.value < Pow2(RING_BITS)
    {
      hide DecodeOffset, NextBits, Or;
      SmallPowers();
      var bits9 :- bitReader.ReadBits(16, 9);
      OffsetFits(bits9, 0);
      var (offset, n) := DecodeOffset(bits9);
      var low :- bitReader.ReadBits(16, n);
      OffsetFits(bits9, low);
      return Ok(Or(offset, low));
    }

    /** Copy from the ring what fits in the buffer; what does not stays pending. */
    method CopyFromHistory(buf: array<byte>, from: nat, offset: nat, count: Positive) returns (to: nat)
      requires Valid() && from <= buf.Length && buf !in Footprint() && offset < Pow2(RING_BITS)
      modifies this, ring, ring.buffer, buf
      ensures Valid() && from <= to <= buf.Length
      ensures buf[..to] == old(buf[..from]) + Resume(old(State()), offset, count, buf.Length - from).0
      ensures State() == Resume(old(State()), offset, count, buf.Length - from).1
      ensures to == from + Min(count, buf.Length - from)
    {
      hide DynTree.Valid, DynHuffTree.Valid, DynHuffTree.Model, BitStream.Valid, BitStream.Bits, RingArrayBuf.Valid,
        HistoryIter.Valid, CopyBytes, Pow2, Low;
      LowOfSmall(offset, RING_BITS);
      var it := ring.IterFromOffset(offset);
      to := CopyFrom(it, buf, from, count);
      copyProgress := Left(offset, count, buf.Length - from);
    }

    method PutLiteral(buf: array<byte>, i: nat, b: byte)
      requires Valid() && i < buf.Length && buf !in Footprint()
      modifies ring, ring.buffer, buf
      ensures Valid() && State() == old(State()).(history := old(State()).history + [b])
      ensures buf[..i + 1] == old(buf[..i]) + [b]
    {
      hide DynTree.Valid, DynHuffTree.Valid, DynHuffTree.Model, BitStream.Valid, BitStream.Bits, RingArrayBuf.Valid;
      buf[i] := b;
      ring.Push(b);
    }

    /** The source as the tree and the bit reader hold it. */
    ghost function Source(): Lh1Source
      reads bitReader, bitReader.inner, bitReader.inner.inner, commandTree.nodes, commandTree.leaves,
        commandTree.groups, commandTree.groups.ids, commandTree.groups.leaders
      requires bitReader.Valid() && commandTree.Valid()
    {
      Lh1Source(commandTree.Model(), bitReader.Bits())
    }

    method ReadCommand() returns (r: Result<Command>)
      requires bitReader.Valid() && commandTree.Valid()
      modifies bitReader, bitReader.inner, bitReader.inner.inner, commandTree.Parts()
      ensures bitReader.Valid() && bitReader.inner.End() == old(bitReader.inner.End())
      ensures r.Ok? <==> ReadItem(old(Source())).Some?
      ensures r.Ok? ==> commandTree.Valid() && ReadItem(old(Source())) == Some((r.value, Source()))
      ensures r.Ok? && r.value.Copy? ==> r.value.offset < Pow2(RING_BITS)
    {
      hide DynTree.Valid, DynHuffTree.Valid, DynHuffTree.Model, BitStream.Valid, BitStream.Bits, ReadSymbol, NextOffset;
      var code := commandTree.ReadEntry(bitReader);
      if code.Err? {
        return Err(code.error);
      }
      if code.value < 0x100 {
        return Ok(Literal(code.value));
      }
      var offset := ReadOffset();
      if offset.Err? {
        return Err(offset.error);
      }
      return Ok(Copy(offset.value, code.value - 0x100 + 3));
    }

    /** The next command, with the state of the decoder after it. */
    method NextCommand() returns (r: Result<Command>)
      requires Valid()
      modifies bitReader, bitReader.inner, bitReader.inner.inner, commandTree.Parts()
      ensures bitReader.Valid() && bitReader.inner.End() == old(bitReader.inner.End())
      ensures r.Ok? <==> ReadLh1(old(State()).source, |old(State()).history|).Some?
      ensures r.Ok? ==> Valid() && State() == old(State()).(source := State().source)
      ensures r.Ok? ==> ReadLh1(old(State()).source, |old(State()).history|) == Some((r.value, State().source))
      ensures r.Ok? && r.value.Copy? ==> r.value.offset < Pow2(RING_BITS)
    {
      hide DynTree.Valid, DynHuffTree.Valid, DynHuffTree.Model, BitStream.Valid, BitStream.Bits, RingArrayBuf.Valid,
        ReadItem;
      r := ReadCommand();
    }

    /** The first i bytes of the buffer are filled, on the way from the state in which `total` began. */
    ghost predicate Reached(total: Option<(seq<byte>, LzState<Lh1Source>)>, buf: array<byte>, i: nat)
      reads this, bitReader, bitReader.inner, bitReader.inner.inner, ring, ring.buffer, commandTree.Parts(), buf
    {
      && Valid() && buf !in Footprint() && i <= buf.Length
      && OnTheWay(ReadLh1, total, buf[..i], State(), buf.Length - i)
    }

    /** Put a literal into the buffer. */
    method TakeLiteral(buf: array<byte>, i: nat, b: byte, ghost total: Option<(seq<byte>, LzState<Lh1Source>)>)
      requires Valid() && buf !in Footprint() && i < buf.Length && State().pending.None?
      requires OnTheWay(ReadLh1, total, buf[..i] + [b], State().(history := State().history + [b]), buf.Length - i - 1)
      modifies ring, ring.buffer, buf
      ensures Reached(total, buf, i + 1) && State().pending.None?
    {
      hide Valid, State, Source, ReadLh1, OnTheWay, DynTree.Valid, DynHuffTree.Valid, DynHuffTree.Model,
        BitStream.Valid,
        RingArrayBuf.Valid, Pow2;
      PutLiteral(buf, i, b);
    }

    /** Copy into the buffer what fits; the rest stays pending. */
    method TakeCopy(buf: array<byte>, i: nat, offset: nat, count: Positive,
                    ghost total: Option<(seq<byte>, LzState<Lh1Source>)>)
      returns (to: nat)
      requires Valid() && buf !in Footprint() && i <= buf.Length && offset < Pow2(RING_BITS)
      requires OnTheWay(ReadLh1, total, buf[..i], State().(pending := Some((offset, count))), buf.Length - i)
      modifies this, ring, ring.buffer, buf
      ensures Reached(total, buf, to) && to == i + Min(count, buf.Length - i)
      ensures (to < buf.Length ==> State().pending.None?)
    {
      hide Valid, State, Source, ReadLh1, OnTheWay, DynTree.Valid, DynHuffTree.Valid, DynHuffTree.Model,
        BitStream.Valid,
        RingArrayBuf.Valid, Pow2;
      StepResume(ReadLh1, total, buf[..i], State().(pending := Some((offset, count))), buf.Length - i, offset, count);
      to := CopyFromHistory(buf, i, offset, count);
    }

    /** Carry out one more command, as far as it fits in the buffer. */
    method Step(buf: array<byte>, from: nat, ghost total: Option<(seq<byte>, LzState<Lh1Source>)>)
      returns (r: Result<nat>)
      requires Reached(total, buf, from) && from < buf.Length && State().pending.None?
      modifies Footprint(), buf
      ensures bitReader.Valid() && bitReader.inner.End() == old(bitReader.inner.End())
      ensures r.Err? ==> total.None?
      ensures r.Ok? ==>
        from < r.value && Reached(total, buf, r.value) && (r.value < buf.Length ==> State().pending.None?)
    {
      hide Valid, State, Source, ReadLh1, OnTheWay, DynTree.Valid, DynHuffTree.Valid, DynHuffTree.Model,
        BitStream.Valid,
        RingArrayBuf.Valid, Pow2;
      ghost var st, n, done := State(), buf.Length - from, buf[..from];
      var command := NextCommand();
      if command.Err? {
        StepFails(ReadLh1, total, done, st, n);
        return Err(command.error);
      }
      match command.value {
        case Literal(b) =>
          StepLiteral(ReadLh1, total, done, st, n, b, State().source);
          TakeLiteral(buf, from, b, total);
          r := Ok(from + 1);
        case Copy(offset, count) =>
          StepCopy(ReadLh1, total, done, st, n, offset, count, State().source);
          var to := TakeCopy(buf, from, offset, count, total);
          r := Ok(to);
      }
    }

    /** Begin a buffer with what is left of a copy, if anything is. */
    method ResumeCopy(buf: array<byte>, ghost total: Option<(seq<byte>, LzState<Lh1Source>)>) returns (i: nat)
      requires Valid() && buf !in Footprint() && total == Fill(ReadLh1, State(), buf.Length)
      modifies this, ring, ring.buffer, buf
      ensures Reached(total, buf, i) && (i < buf.Length ==> State().pending.None?)
    {
      hide Valid, State, Source, ReadLh1, OnTheWay, DynTree.Valid, DynHuffTree.Valid, DynHuffTree.Model,
        BitStream.Valid,
        RingArrayBuf.Valid, Pow2;
      ghost var st := State();
      PartsAreValid();
      assert buf[..0] == [];
      SetOut(ReadLh1, st, buf.Length);
      if copyProgress.None? {
        return 0;
      }
      assert st.(pending := copyProgress) == st;
      i := TakeCopy(buf, 0, copyProgress.value.0, copyProgress.value.1, total);
    }

    /**
      Fill the whole buffer with decoded bytes. This is `Fill` over the plain bit list and unbounded history,
      whatever the buffer sizes of earlier calls were.
     */
    method FillBuffer(buf: array<byte>) returns (r: Result<()>)
      requires Valid() && buf !in Footprint()
      modifies Footprint(), buf
      ensures bitReader.Valid() && bitReader.inner.End() == old(bitReader.inner.End())
      ensures r.Ok? <==> Fill(ReadLh1, old(State()), buf.Length).Some?
      ensures r.Ok? ==> Valid() && Fill(ReadLh1, old(State()), buf.Length) == Some((buf[..], State()))
    {
      hide Valid, State, Source, ReadLh1, OnTheWay, DynTree.Valid, DynHuffTree.Valid, DynHuffTree.Model,
        BitStream.Valid,
        RingArrayBuf.Valid, Pow2;
      PartsAreValid();
      ghost var total := Fill(ReadLh1, State(), buf.Length);
      var i := ResumeCopy(buf, total);
      while i < buf.Length
        invariant 0 <= i && Reached(total, buf, i) && (i < buf.Length ==> State().pending.None?)
        invariant bitReader.Valid() && bitReader.inner.End() == old(bitReader.inner.End())
      {
        i :- Step(buf, i, total);
      }
      assert buf[..i] == buf[..];
      Arrived(ReadLh1, total, buf[..], State());
      return Ok(());
    }
  }
}
