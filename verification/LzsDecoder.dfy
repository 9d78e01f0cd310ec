/** The `-lzs-` decoder: literals and copies from absolute positions of the ring. */
module LzsDecoders {
  import opened Wrappers
  import opened Sums
  import opened Bits
  import opened BitStreams
  import opened StubIo
  import opened RingBufs
  import opened Lz
  import opened LzCopy

  const RING_BITS: nat := 11
  const RING_BUFFER_SIZE: nat := 2048
  const START_OFFSET: int := -17
  /** The slot at which decoding starts. */
  const ORIGIN: nat := RING_BUFFER_SIZE + START_OFFSET

  // ---- the decoder over a plain list of bits

  /** A copy: its position in the ring, and its length. */
  ghost function ReadCopy(bits: seq<bool>): Option<(Command, seq<bool>)> {
    match NextBits(bits, 11)
    case None => None
    case Some((pos, rest)) =>
      match NextBits(rest, 4)
      case None => None
      case Some((count, left)) => Some((Copy(pos, count + 2), left))
  }

  /** A one is followed by a literal, a zero by a copy. */
  ghost function ReadItem(bits: seq<bool>): Option<(Command, seq<bool>)> {
    if bits == [] then None
    else if bits[0] then
      match NextBits(bits[1..], 8)
      case None => None
      case Some((b, rest)) => SmallPowers(); Some((Literal(b), rest))
    else ReadCopy(bits[1..])
  }

  ghost function ReadLzs(bits: seq<bool>, written: nat): Option<(Command, seq<bool>)> {
    match ReadItem(bits)
    case None => None
    case Some((c, rest)) => Some((Placed(c, ORIGIN, written, RING_BITS), rest))
  }

  /** Before anything is read: a history of spaces. */
  ghost function StartState(bytes: seq<byte>): LzState<seq<bool>> {
    LzState(BytesBits(bytes), None, seq(RING_BUFFER_SIZE, _ => ' ' as byte))
  }

  // ---- the decoder as it runs

  class LzsDecoder {
    const bitReader: BitStream
    const ring: RingArrayBuf
    var copyProgress: Option<(nat, Positive)>

    ghost function Footprint(): set<object> {
      {this, bitReader, bitReader.inner, bitReader.inner.inner, ring, ring.buffer}
    }

    ghost predicate Wired()
      reads this, ring
    {
      && ring.power == RING_BITS && ring.origin == ORIGIN
      && (copyProgress.Some? ==> copyProgress.value.0 + copyProgress.value.1 <= 0x10000)
    }

    ghost predicate Valid()
      reads Footprint()
    {
      bitReader.Valid() && ring.Valid() && Wired()
    }

    ghost function State(): LzState<seq<bool>>
      reads Footprint()
      requires Valid()
    {
      LzState(bitReader.Bits(), ByDistance(copyProgress, ring.cursor, RING_BITS), ring.history)
    }

    lemma PartsAreValid()
      requires Valid()
      ensures bitReader.Valid()
      ensures ring.cursor == Low(ORIGIN + |State().history|, RING_BITS) < ring.size == Pow2(RING_BITS)
      ensures State().pending == ByDistance(copyProgress, ring.cursor, RING_BITS)
      ensures copyProgress.Some? ==> copyProgress.value.0 + copyProgress.value.1 <= 0x10000
    {
    }

    constructor (rd: Take, width: nat)
      requires rd.Valid() && 32 <= width && width % 8 == 0
      ensures Valid() && bitReader.inner == rd && fresh(bitReader) && fresh(ring) && fresh(ring.buffer)
      ensures State() == StartState(rd.Available())
    {
      SmallPowers();
      bitReader := new BitStream(rd, width);
      var r := new RingArrayBuf(RING_BUFFER_SIZE, RING_BITS);
      assert r.buffer[..] == seq(RING_BUFFER_SIZE, _ => ' ' as byte);
      r.SetCursor(START_OFFSET);
      ring := r;
      copyProgress := None;
      new;
      assert START_OFFSET % RING_BUFFER_SIZE == ORIGIN;
      assert ring.history == seq(RING_BUFFER_SIZE, _ => ' ' as byte);
    }

    method ReadPosition() returns (r: Result<Command>)
      requires bitReader.Valid()
      modifies bitReader, bitReader.inner, bitReader.inner.inner
      ensures bitReader.Valid() && bitReader.inner.End() == old(bitReader.inner.End())
      ensures r.Ok? <==> ReadCopy(old(bitReader.Bits())).Some?
      ensures r.Ok? ==> ReadCopy(old(bitReader.Bits())) == Some((r.value, bitReader.Bits()))
      ensures r.Ok? ==> r.value.Copy? && r.value.offset < RING_BUFFER_SIZE && r.value.count <= 17
    {
      hide BitStream.Valid, BitStream.Bits, NextBits, Pow2;
      bitReader.ValidParts();
      SmallPowers();
      var pos := bitReader.ReadBits(bitReader.width, 11);
      if pos.Err? {
        return Err(pos.error);
      }
      var count := bitReader.ReadBits(bitReader.width, 4);
      if count.Err? {
        return Err(count.error);
      }
      return Ok(Copy(pos.value, count.value + 2));
    }

    /** Read the next command: a literal, or the position and the length of a copy. */
    method ReadCommand() returns (r: Result<Command>)
      requires bitReader.Valid()
      modifies bitReader, bitReader.inner, bitReader.inner.inner
      ensures bitReader.Valid() && bitReader.inner.End() == old(bitReader.inner.End())
      ensures r.Ok? <==> ReadItem(old(bitReader.Bits())).Some?
      ensures r.Ok? ==> ReadItem(old(bitReader.Bits())) == Some((r.value, bitReader.Bits()))
      ensures r.Ok? && r.value.Copy? ==> r.value.offset < RING_BUFFER_SIZE && r.value.count <= 17
    {
      hide BitStream.Valid, BitStream.Bits, NextBits, Pow2, ReadCopy;
      bitReader.ValidParts();
      SmallPowers();
      var literal :- bitReader.ReadBit();
      if literal {
        var b :- bitReader.ReadBits(8, 8);
        r := Ok(Literal(b));
      } else {
        r := ReadPosition();
      }
    }

    /** The next command in terms of the history. */
    method NextCommand() returns (r: Result<Command>)
      requires Valid()
      modifies bitReader, bitReader.inner, bitReader.inner.inner
      ensures bitReader.Valid() && bitReader.inner.End() == old(bitReader.inner.End())
      ensures r.Ok? <==> ReadLzs(old(State()).source, |old(State()).history|).Some?
      ensures r.Ok? ==> Valid() && State() == old(State()).(source := State().source)
      ensures r.Ok? && r.value.Copy? ==> r.value.offset < RING_BUFFER_SIZE && r.value.count <= 17
      ensures r.Ok? ==> ReadLzs(old(State()).source, |old(State()).history|)
                          == Some((Placed(r.value, ORIGIN, |old(State()).history|, RING_BITS), State().source))
    {
      hide BitStream.Valid, BitStream.Bits, RingArrayBuf.Valid, ReadItem, Placed;
      r := ReadCommand();
    }

    method CopyFromHistory(buf: array<byte>, from: nat, pos: nat, count: Positive) returns (to: nat)
      requires Valid() && from <= buf.Length && buf !in Footprint() && pos + count <= 0x10000
      modifies this, ring, ring.buffer, buf
      ensures Valid() && to == from + Min(count, buf.Length - from)
      ensures old(ring.cursor) < Pow2(RING_BITS)
      ensures var r := Resume(old(State()), DistanceTo(pos, old(ring.cursor), RING_BITS), count, buf.Length - from);
        buf[..to] == old(buf[..from]) + r.0 && State() == r.1
    {
      hide BitStream.Valid, BitStream.Bits, RingArrayBuf.Valid, DistanceTo, CopyBytes, Pow2, Low;
      PartsAreValid();
      to, copyProgress := CopyFromPos(ring, buf, from, pos, count);
    }

    method PutLiteral(buf: array<byte>, i: nat, b: byte)
      requires Valid() && i < buf.Length && buf !in Footprint() && State().pending.None?
      modifies ring, ring.buffer, buf
      ensures Valid() && State() == old(State()).(history := old(State()).history + [b])
      ensures buf[..i + 1] == old(buf[..i]) + [b]
    {
      hide BitStream.Valid, BitStream.Bits;
      buf[i] := b;
      ring.Push(b);
    }

    /** The first i bytes of the buffer are filled, on the way from the state in which `total` began. */
    ghost predicate Reached(total: Option<(seq<byte>, LzState<seq<bool>>)>, buf: array<byte>, i: nat)
      reads Footprint(), buf
    {
      && Valid() && buf !in Footprint() && i <= buf.Length
      && OnTheWay(ReadLzs, total, buf[..i], State(), buf.Length - i)
    }

    /** Put a literal into the buffer. */
    method TakeLiteral(buf: array<byte>, i: nat, b: byte, ghost total: Option<(seq<byte>, LzState<seq<bool>>)>)
      requires Valid() && buf !in Footprint() && i < buf.Length && State().pending.None?
      requires OnTheWay(ReadLzs, total, buf[..i] + [b], State().(history := State().history + [b]), buf.Length - i - 1)
      modifies ring, ring.buffer, buf
      ensures Reached(total, buf, i + 1) && State().pending.None?
    {
      hide Valid, State, ReadLzs, OnTheWay, BitStream.Valid, RingArrayBuf.Valid, Pow2, Low;
      PutLiteral(buf, i, b);
    }

    /** Copy into the buffer what fits; the rest stays pending. */
    method TakeCopy(buf: array<byte>, i: nat, pos: nat, count: Positive,
                    ghost total: Option<(seq<byte>, LzState<seq<bool>>)>)
      returns (to: nat)
      requires Valid() && buf !in Footprint() && i <= buf.Length
      requires pos + count <= 0x10000 && ring.cursor < Pow2(RING_BITS)
      requires OnTheWay(ReadLzs, total, buf[..i],
                        State().(pending := Some((DistanceTo(pos, ring.cursor, RING_BITS), count))), buf.Length - i)
      modifies this, ring, ring.buffer, buf
      ensures Reached(total, buf, to) && to == i + Min(count, buf.Length - i)
      ensures (to < buf.Length ==> State().pending.None?)
    {
      hide Valid, State, ReadLzs, OnTheWay, BitStream.Valid, RingArrayBuf.Valid, Pow2, Low, DistanceTo;
      ghost var d, st := DistanceTo(pos, ring.cursor, RING_BITS), State();
      StepResume(ReadLzs, total, buf[..i], st.(pending := Some((d, count))), buf.Length - i, d, count);
      to := CopyFromHistory(buf, i, pos, count);
    }

    /** Carry out one more command, as far as it fits in the buffer. */
    method Step(buf: array<byte>, from: nat, ghost total: Option<(seq<byte>, LzState<seq<bool>>)>)
      returns (r: Result<nat>)
      requires Reached(total, buf, from) && from < buf.Length && State().pending.None?
      modifies Footprint(), buf
      ensures bitReader.Valid() && bitReader.inner.End() == old(bitReader.inner.End())
      ensures r.Err? ==> total.None?
      ensures r.Ok? ==>
        from < r.value && Reached(total, buf, r.value) && (r.value < buf.Length ==> State().pending.None?)
    {
      hide Valid, State, ReadLzs, OnTheWay, BitStream.Valid, RingArrayBuf.Valid, Pow2, Low, DistanceTo;
      PartsAreValid();
      ghost var st, n, done := State(), buf.Length - from, buf[..from];
      var command := NextCommand();
      if command.Err? {
        StepFails(ReadLzs, total, done, st, n);
        return Err(command.error);
      }
      match command.value {
        case Literal(b) =>
          StepLiteral(ReadLzs, total, done, st, n, b, State().source);
          TakeLiteral(buf, from, b, total);
          r := Ok(from + 1);
        case Copy(pos, count) =>
          StepCopy(ReadLzs, total, done, st, n, DistanceTo(pos, ring.cursor, RING_BITS), count, State().source);
          var to := TakeCopy(buf, from, pos, count, total);
          r := Ok(to);
      }
    }

    /** Begin a buffer with what is left of a copy, if anything is. */
    method ResumeCopy(buf: array<byte>, ghost total: Option<(seq<byte>, LzState<seq<bool>>)>) returns (i: nat)
      requires Valid() && buf !in Footprint() && total == Fill(ReadLzs, State(), buf.Length)
      modifies this, ring, ring.buffer, buf
      ensures Reached(total, buf, i) && (i < buf.Length ==> State().pending.None?)
    {
      hide Valid, State, ReadLzs, OnTheWay, BitStream.Valid, RingArrayBuf.Valid, Pow2, Low, DistanceTo;
      PartsAreValid();
      assert buf[..0] == [];
      SetOut(ReadLzs, State(), buf.Length);
      if copyProgress.None? {
        return 0;
      }
      i := TakeCopy(buf, 0, copyProgress.value.0, copyProgress.value.1, total);
    }

    /**
      Fill the whole buffer with decoded bytes. This is `Fill` over the plain bit list and unbounded history,
      whatever the buffer sizes of earlier calls were.
     */
    method FillBuffer(buf: array<byte>) returns (r: Result<()>)
      requires Valid() && buf !in Footprint()
      modifies Footprint(), buf
      ensures bitReader.Valid() && bitReader.inner.End() == old(bitReader.inner.End())
      ensures r.Ok? <==> Fill(ReadLzs, old(State()), buf.Length).Some?
      ensures r.Ok? ==> Valid() && Fill(ReadLzs, old(State()), buf.Length) == Some((buf[..], State()))
    {
      hide Valid, State, ReadLzs, OnTheWay, BitStream.Valid, RingArrayBuf.Valid;
      PartsAreValid();
      ghost var total := Fill(ReadLzs, State(), buf.Length);
      var i := ResumeCopy(buf, total);
      while i < buf.Length
        invariant 0 <= i && Reached(total, buf, i) && (i < buf.Length ==> State().pending.None?)
        invariant bitReader.Valid() && bitReader.inner.End() == old(bitReader.inner.End())
      {
        i :- Step(buf, i, total);
      }
      assert buf[..i] == buf[..];
      Arrived(ReadLzs, total, buf[..], State());
      return Ok(());
    }
  }
}
