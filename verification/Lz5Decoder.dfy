/** The `-lz5-` decoder: flag bytes, literals, and copies from absolute positions of a preset ring. */
module Lz5Decoders {
  import opened Wrappers
  import opened Sums
  import opened Bits
  import opened StubIo
  import opened RingBufs
  import opened Lz
  import opened LzCopy

  const RING_BITS: nat := 12
  const RING_BUFFER_SIZE: nat := 4096
  const START_OFFSET: int := -18
  /** The slot at which decoding starts. */
  const ORIGIN: nat := RING_BUFFER_SIZE + START_OFFSET

  // ---- flags

  /** The lowest n bits of x, lowest first. */
  function FlagsOf(x: nat, n: nat): (r: seq<bool>)
    ensures |r| == n
  {
    if n == 0 then [] else [x % 2 == 1] + FlagsOf(x / 2, n - 1)
  }

  /** Flags below a marker bit, as the bitmap holds them. */
  function Marked(flags: seq<bool>): (x: nat)
    ensures x > 0 && (x == 1 <==> flags == [])
  {
    if flags == [] then 1 else 2 * Marked(flags[1..]) + (if flags[0] then 1 else 0)
  }

  lemma {:induction false} MarkedByte(x: nat, n: nat)
    requires x < Pow2(n)
    ensures Marked(FlagsOf(x, n)) == Pow2(n) + x
  {
    if n > 0 {
      MarkedByte(x / 2, n - 1);
      assert FlagsOf(x, n)[1..] == FlagsOf(x / 2, n - 1);
    }
  }

  /** A byte with the marker set above it holds its eight bits as flags. */
  lemma NewBitmap(b: byte)
    ensures Or(b, 0x100) == Marked(FlagsOf(b, 8))
  {
    SmallPowers();
    EightBits(1);
    OrAdds(1, 8, b);
    OrCommutes(b, 0x100);
    MarkedByte(b, 8);
  }

  lemma BitmapShifts(flags: seq<bool>)
    requires flags != []
    ensures And(Marked(flags), 1) == (if flags[0] then 1 else 0)
    ensures Shr(Marked(flags), 1) == Marked(flags[1..])
  {
    hide And, Shr;
    LastBit(Marked(flags));
    assert Marked(flags) / 2 == Marked(flags[1..]);
  }

  lemma LastBit(x: nat)
    ensures And(x, 1) == x % 2 && Shr(x, 1) == x / 2
  {
    SmallPowers();
    MaskIsMod(x, 1);
    assert Shr(x, 1) == Shr(x / 2, 0);
  }

  // ---- the decoder over plain bytes

  datatype Lz5Source = Lz5Source(flags: seq<bool>, bytes: seq<byte>)

  lemma HighHalf(hi: byte)
    ensures Shr(hi, 4) == hi / 16
  {
    assert Shr(hi, 4) == Shr(hi / 2, 3) == Shr(hi / 2 / 2, 2) == Shr(hi / 2 / 2 / 2, 1) == Shr(hi / 2 / 2 / 2 / 2, 0);
  }

  /** Two bytes make a copy: twelve bits of position, and four of length. */
  lemma CopyFields(lo: byte, hi: byte)
    ensures Or(Shl(And(hi, 0xf0), 4), lo) == 256 * (hi / 16) + lo
    ensures And(hi, 0x0f) == hi % 16
  {
    hide And, Or, Shl, Shr, Pow2;
    SmallPowers();
    HighHalf(hi);
    MaskIsMod(hi, 4);
    FourBits(15);
    AndOfShl(hi, 15, 4);
    MaskIsMod(hi / 16, 4);
    ShlAdd(hi / 16, 4, 4);
    EightBits(hi / 16);
    OrAdds(hi / 16, 8, lo);
  }

  /** What a flag announces: a literal, or the position and the length of a copy. */
  ghost function ReadFlagged(flag: bool, flags: seq<bool>, bytes: seq<byte>): Option<(Command, Lz5Source)> {
    if flag then
      if bytes == [] then None else Some((Literal(bytes[0]), Lz5Source(flags, bytes[1..])))
    else
      if |bytes| < 2 then None
      else
        var lo: nat, hi: nat := bytes[0], bytes[1];
        Some((Copy(256 * (hi / 16) + lo, hi % 16 + 3), Lz5Source(flags, bytes[2..])))
  }

  /** Eight flags come before the eight items they announce. */
  ghost function ReadItem(s: Lz5Source): Option<(Command, Lz5Source)> {
    if s.flags != [] then ReadFlagged(s.flags[0], s.flags[1..], s.bytes)
    else if s.bytes == [] then None
    else
      var flags := FlagsOf(s.bytes[0], 8);
      ReadFlagged(flags[0], flags[1..], s.bytes[1..])
  }

  ghost function ReadLz5(s: Lz5Source, written: nat): Option<(Command, Lz5Source)> {
    match ReadItem(s)
    case None => None
    case Some((c, rest)) => Some((Placed(c, ORIGIN, written, RING_BITS), rest))
  }

  // ---- the preset ring

  /** What slot i of the ring holds at the start. */
  function Preset(i: nat): byte {
    if i < 3328 then i / 13 % 256
    else if i < 3584 then i - 3328
    else if i < 3840 then 3839 - i
    else if 3968 <= i < 4078 then ' ' as byte
    else 0
  }

  /** The first n bytes of the preset ring read from its start: what a copy finds in front of the output. */
  function PresetUpTo(n: nat): (r: seq<byte>)
    ensures |r| == n && forall k :: 0 <= k < n ==> r[k] == Preset(if k < 18 then ORIGIN + k else k - 18)
  {
    if n == 0 then [] else PresetUpTo(n - 1) + [Preset(if n - 1 < 18 then ORIGIN + (n - 1) else n - 1 - 18)]
  }

  function PresetHistory(): seq<byte> {
    PresetUpTo(RING_BUFFER_SIZE)
  }

  /** Before anything is read: no flags, and the preset history. */
  ghost function StartState(bytes: seq<byte>): LzState<Lz5Source> {
    LzState(Lz5Source([], bytes), None, PresetHistory())
  }

  /** The slots below k have been set; the others hold spaces. */
  ghost predicate SetUpTo(r: RingArrayBuf, k: nat)
    reads r, r.buffer
  {
    && r.Valid() && r.power == RING_BITS && r.size == RING_BUFFER_SIZE && r.cursor == k
    && (forall i :: 0 <= i < k ==> r.buffer[i] == Preset(i))
    && (forall i :: k <= i < RING_BUFFER_SIZE ==> r.buffer[i] == ' ' as byte)
  }

  method PushNext(r: RingArrayBuf, b: byte, ghost k: nat)
    requires SetUpTo(r, k) && k < 4095 && b == Preset(k)
    modifies r, r.buffer
    ensures SetUpTo(r, k + 1)
  {
    r.Push(b);
  }

  /** Thirteen times each byte value. */
  method PushRuns(r: RingArrayBuf)
    requires SetUpTo(r, 0)
    modifies r, r.buffer
    ensures SetUpTo(r, 3328)
  {
    hide SetUpTo;
    for i := 0 to 256
      invariant SetUpTo(r, 13 * i)
    {
      for j := 0 to 13
        invariant SetUpTo(r, 13 * i + j)
      {
        PushNext(r, i, 13 * i + j);
      }
    }
  }

  /** All byte values upwards, all byte values downwards, and zeros. */
  method PushRamps(r: RingArrayBuf)
    requires SetUpTo(r, 3328)
    modifies r, r.buffer
    ensures SetUpTo(r, 3968)
  {
    hide SetUpTo;
    for i := 0 to 256
      invariant SetUpTo(r, 3328 + i)
    {
      PushNext(r, i, 3328 + i);
    }
    for i := 256 downto 0
      invariant SetUpTo(r, 3840 - i)
    {
      PushNext(r, i, 3840 - (i + 1));
    }
    for i := 0 to 128
      invariant SetUpTo(r, 3840 + i)
    {
      PushNext(r, 0, 3840 + i);
    }
  }

  /** Leave a gap of spaces, and put a margin of zeros at the end. */
  method PushMargin(r: RingArrayBuf)
    requires SetUpTo(r, 3968)
    modifies r, r.buffer
    ensures r.Valid() && r.power == RING_BITS && r.size == RING_BUFFER_SIZE
    ensures forall i :: 0 <= i < RING_BUFFER_SIZE ==> r.buffer[i] == Preset(i)
  {
    r.SetCursor(START_OFFSET);
    assert r.cursor == ORIGIN by { assert START_OFFSET % RING_BUFFER_SIZE == ORIGIN; }
    ghost var k := ORIGIN;
    while r.cursor != 0
      invariant r.Valid() && r.power == RING_BITS && r.size == RING_BUFFER_SIZE
      invariant ORIGIN <= k <= RING_BUFFER_SIZE && r.cursor == (if k == RING_BUFFER_SIZE then 0 else k)
      invariant forall i :: 0 <= i < k ==> r.buffer[i] == Preset(i)
      decreases RING_BUFFER_SIZE - k
    {
      r.Push(0);
      k := k + 1;
    }
  }

  method PresetRing() returns (r: RingArrayBuf)
    ensures r.Valid() && fresh(r) && fresh(r.buffer) && r.power == RING_BITS && r.size == RING_BUFFER_SIZE
    ensures r.origin == ORIGIN && r.history == PresetHistory()
  {
    SmallPowers();
    r := new RingArrayBuf(RING_BUFFER_SIZE, RING_BITS);
    PushRuns(r);
    PushRamps(r);
    PushMargin(r);
    r.SetCursor(START_OFFSET);
    assert START_OFFSET % RING_BUFFER_SIZE == ORIGIN;
    assert r.history == PresetHistory();
  }

  // ---- the decoder as it runs

  class Lz5Decoder {
    const reader: Take
    const ring: RingArrayBuf
    var bitmap: nat
    var copyProgress: Option<(nat, Positive)>
    /** The flags that the bitmap still holds. */
    ghost var flags: seq<bool>

    ghost function Footprint(): set<object> {
      {this, reader, reader.inner, ring, ring.buffer}
    }

    ghost predicate Wired()
      reads this, ring
    {
      && ring.power == RING_BITS && ring.origin == ORIGIN && bitmap == Marked(flags)
      && (copyProgress.Some? ==> copyProgress.value.0 + copyProgress.value.1 <= 0x10000)
    }

    ghost predicate Valid()
      reads Footprint()
    {
      reader.Valid() && ring.Valid() && Wired()
    }

    ghost function Source(): Lz5Source
      reads this, reader, reader.inner
      requires reader.Valid()
    {
      Lz5Source(flags, reader.Available())
    }

    ghost function State(): LzState<Lz5Source>
      reads Footprint()
      requires Valid()
    {
      LzState(Source(), ByDistance(copyProgress, ring.cursor, RING_BITS), ring.history)
    }

    lemma PartsAreValid()
      requires Valid()
      ensures reader.Valid() && ring.cursor == Low(ORIGIN + |State().history|, RING_BITS) < ring.size == Pow2(RING_BITS)
      ensures State().pending == ByDistance(copyProgress, ring.cursor, RING_BITS)
      ensures copyProgress.Some? ==> copyProgress.value.0 + copyProgress.value.1 <= 0x10000
    {
    }

    constructor (rd: Take)
      requires rd.Valid()
      ensures Valid() && reader == rd && fresh(ring) && fresh(ring.buffer)
      ensures State() == StartState(rd.Available())
    {
      reader := rd;
      var r := PresetRing();
      ring := r;
      bitmap, flags := 1, [];
      copyProgress := None;
    }

    /** Read the item that the lowest flag announces. */
    method ReadFlaggedItem() returns (r: Result<Command>)
      requires reader.Valid() && flags != [] && bitmap == Marked(flags)
      modifies `bitmap, `flags, reader, reader.inner
      ensures reader.Valid() && reader.End() == old(reader.End())
      ensures r.Ok? <==> ReadFlagged(old(flags[0]), old(flags[1..]), old(reader.Available())).Some?
      ensures r.Ok? ==>
        ReadFlagged(old(flags[0]), old(flags[1..]), old(reader.Available())) == Some((r.value, Source()))
      ensures r.Ok? ==> bitmap == Marked(flags)
      ensures r.Ok? && r.value.Copy? ==> r.value.offset < RING_BUFFER_SIZE && r.value.count <= 18
    {
      hide Take.Valid, Take.Available, And, Or, Shl, Shr, Marked;
      BitmapShifts(flags);
      if And(bitmap, 1) == 1 {
        var bytes :- reader.ReadExact(1);
        r := Ok(Literal(bytes[0]));
      } else {
        var cmd :- reader.ReadExact(2);
        CopyFields(cmd[0], cmd[1]);
        r := Ok(Copy(Or(Shl(And(cmd[1], 0xf0), 4), cmd[0]), And(cmd[1], 0x0f) + 3));
      }
      bitmap, flags := Shr(bitmap, 1), flags[1..];
    }

    /** Read the next item, after a flag byte if there is no flag left. */
    method ReadCommand() returns (r: Result<Command>)
      requires reader.Valid() && bitmap == Marked(flags)
      modifies `bitmap, `flags, reader, reader.inner
      ensures reader.Valid() && reader.End() == old(reader.End())
      ensures r.Ok? <==> ReadItem(old(Source())).Some?
      ensures r.Ok? ==> ReadItem(old(Source())) == Some((r.value, Source())) && bitmap == Marked(flags)
      ensures r.Ok? && r.value.Copy? ==> r.value.offset < RING_BUFFER_SIZE && r.value.count <= 18
    {
      hide Take.Valid, Take.Available, Marked, Or, FlagsOf, ReadFlagged;
      if bitmap == 1 {
        var byte :- reader.ReadExact(1);
        NewBitmap(byte[0]);
        bitmap, flags := Or(byte[0], 0x100), FlagsOf(byte[0], 8);
      }
      r := ReadFlaggedItem();
    }

    /** The next command in terms of the history. */
    method NextCommand() returns (r: Result<Command>)
      requires Valid()
      modifies `bitmap, `flags, reader, reader.inner
      ensures reader.Valid() && reader.End() == old(reader.End())
      ensures r.Ok? <==> ReadLz5(old(State()).source, |old(State()).history|).Some?
      ensures r.Ok? ==> Valid() && State() == old(State()).(source := State().source)
      ensures r.Ok? && r.value.Copy? ==> r.value.offset < RING_BUFFER_SIZE && r.value.count <= 18
      ensures r.Ok? ==> ReadLz5(old(State()).source, |old(State()).history|)
                          == Some((Placed(r.value, ORIGIN, |old(State()).history|, RING_BITS), State().source))
    {
      hide Take.Valid, Take.Available, RingArrayBuf.Valid, ReadItem, Placed, Marked;
      r := ReadCommand();
    }

    method CopyFromHistory(buf: array<byte>, from: nat, pos: nat, count: Positive) returns (to: nat)
      requires Valid() && from <= buf.Length && buf !in Footprint() && pos + count <= 0x10000
      modifies `copyProgress, ring, ring.buffer, buf
      ensures Valid() && to == from + Min(count, buf.Length - from)
      ensures old(ring.cursor) < Pow2(RING_BITS)
      ensures var r := Resume(old(State()), DistanceTo(pos, old(ring.cursor), RING_BITS), count, buf.Length - from);
        buf[..to] == old(buf[..from]) + r.0 && State() == r.1
    {
      hide Take.Valid, Take.Available, RingArrayBuf.Valid, DistanceTo, CopyBytes, Marked, Pow2, Low;
      PartsAreValid();
      to, copyProgress := CopyFromPos(ring, buf, from, pos, count);
    }

    method PutLiteral(buf: array<byte>, i: nat, b: byte)
      requires Valid() && i < buf.Length && buf !in Footprint() && State().pending.None?
      modifies ring, ring.buffer, buf
      ensures Valid() && State() == old(State()).(history := old(State()).history + [b])
      ensures buf[..i + 1] == old(buf[..i]) + [b]
    {
      hide Take.Valid, Take.Available, Marked;
      buf[i] := b;
      ring.Push(b);
    }

    /** The first i bytes of the buffer are filled, on the way from the state in which `total` began. */
    ghost predicate Reached(total: Option<(seq<byte>, LzState<Lz5Source>)>, buf: array<byte>, i: nat)
      reads Footprint(), buf
    {
      && Valid() && buf !in Footprint() && i <= buf.Length
      && OnTheWay(ReadLz5, total, buf[..i], State(), buf.Length - i)
    }

    /** Put a literal into the buffer. */
    method TakeLiteral(buf: array<byte>, i: nat, b: byte, ghost total: Option<(seq<byte>, LzState<Lz5Source>)>)
      requires Valid() && buf !in Footprint() && i < buf.Length && State().pending.None?
      requires OnTheWay(ReadLz5, total, buf[..i] + [b], State().(history := State().history + [b]), buf.Length - i - 1)
      modifies ring, ring.buffer, buf
      ensures Reached(total, buf, i + 1) && State().pending.None?
    {
      hide Valid, State, ReadLz5, OnTheWay, Take.Valid, RingArrayBuf.Valid, Pow2, Low;
      PutLiteral(buf, i, b);
    }

    /** Copy into the buffer what fits; the rest stays pending. */
    method TakeCopy(buf: array<byte>, i: nat, pos: nat, count: Positive,
                    ghost total: Option<(seq<byte>, LzState<Lz5Source>)>)
      returns (to: nat)
      requires Valid() && buf !in Footprint() && i <= buf.Length
      requires pos + count <= 0x10000 && ring.cursor < Pow2(RING_BITS)
      requires OnTheWay(ReadLz5, total, buf[..i],
                        State().(pending := Some((DistanceTo(pos, ring.cursor, RING_BITS), count))), buf.Length - i)
      modifies `copyProgress, ring, ring.buffer, buf
      ensures Reached(total, buf, to) && to == i + Min(count, buf.Length - i)
      ensures (to < buf.Length ==> State().pending.None?)
    {
      hide Valid, State, ReadLz5, OnTheWay, Take.Valid, RingArrayBuf.Valid, Pow2, Low, DistanceTo;
      ghost var d, st := DistanceTo(pos, ring.cursor, RING_BITS), State();
      StepResume(ReadLz5, total, buf[..i], st.(pending := Some((d, count))), buf.Length - i, d, count);
      to := CopyFromHistory(buf, i, pos, count);
    }

    /** Carry out one more command, as far as it fits in the buffer. */
    method Step(buf: array<byte>, from: nat, ghost total: Option<(seq<byte>, LzState<Lz5Source>)>)
      returns (r: Result<nat>)
      requires Reached(total, buf, from) && from < buf.Length && State().pending.None?
      modifies Footprint(), buf
      ensures reader.Valid() && reader.End() == old(reader.End())
      ensures r.Err? ==> total.None?
      ensures r.Ok? ==>
        from < r.value && Reached(total, buf, r.value) && (r.value < buf.Length ==> State().pending.None?)
    {
      hide Valid, State, ReadLz5, OnTheWay, Take.Valid, RingArrayBuf.Valid, Pow2, Low, DistanceTo;
      PartsAreValid();
      ghost var st, n, done := State(), buf.Length - from, buf[..from];
      var command := NextCommand();
      if command.Err? {
        StepFails(ReadLz5, total, done, st, n);
        return Err(command.error);
      }
      match command.value {
        case Literal(b) =>
          StepLiteral(ReadLz5, total, done, st, n, b, State().source);
          TakeLiteral(buf, from, b, total);
          r := Ok(from + 1);
        case Copy(pos, count) =>
          StepCopy(ReadLz5, total, done, st, n, DistanceTo(pos, ring.cursor, RING_BITS), count, State().source);
          var to := TakeCopy(buf, from, pos, count, total);
          r := Ok(to);
      }
    }

    /** Begin a buffer with what is left of a copy, if anything is. */
    method ResumeCopy(buf: array<byte>, ghost total: Option<(seq<byte>, LzState<Lz5Source>)>) returns (i: nat)
      requires Valid() && buf !in Footprint() && total == Fill(ReadLz5, State(), buf.Length)
      modifies `copyProgress, ring, ring.buffer, buf
      ensures Reached(total, buf, i) && (i < buf.Length ==> State().pending.None?)
    {
      hide Valid, State, ReadLz5, OnTheWay, Take.Valid, RingArrayBuf.Valid, Pow2, Low, DistanceTo;
      PartsAreValid();
      assert buf[..0] == [];
      SetOut(ReadLz5, State(), buf.Length);
      if copyProgress.None? {
        return 0;
      }
      i := TakeCopy(buf, 0, copyProgress.value.0, copyProgress.value.1, total);
    }

    /**
      Fill the whole buffer with decoded bytes. This is `Fill` over the plain bytes and unbounded history,
      whatever the buffer sizes of earlier calls were.
     */
    method FillBuffer(buf: array<byte>) returns (r: Result<()>)
      requires Valid() && buf !in Footprint()
      modifies Footprint(), buf
      ensures reader.Valid() && reader.End() == old(reader.End())
      ensures r.Ok? <==> Fill(ReadLz5, old(State()), buf.Length).Some?
      ensures r.Ok? ==> Valid() && Fill(ReadLz5, old(State()), buf.Length) == Some((buf[..], State()))
    {
      hide Valid, State, ReadLz5, OnTheWay, Take.Valid, RingArrayBuf.Valid;
      PartsAreValid();
      ghost var total := Fill(ReadLz5, State(), buf.Length);
      var i := ResumeCopy(buf, total);
      while i < buf.Length
        invariant 0 <= i && Reached(total, buf, i) && (i < buf.Length ==> State().pending.None?)
        invariant reader.Valid() && reader.End() == old(reader.End())
      {
        i :- Step(buf, i, total);
      }
      assert buf[..i] == buf[..];
      Arrived(ReadLz5, total, buf[..], State());
      return Ok(());
    }
  }
}
