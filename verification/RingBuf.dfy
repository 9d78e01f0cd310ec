/** The ring buffer of decoded history. */
module RingBufs {
  import opened Wrappers
  import opened Sums
  import opened Bits

  /** The slot after slot i. */
  function NextSlot(i: nat, size: nat): nat {
    if i + 1 == size then 0 else i + 1
  }

  /** The slot that lies d + 1 places before the cursor. */
  function SlotBack(cursor: nat, d: nat, size: nat): nat
    requires d < size && cursor < size
  {
    if d < cursor then cursor - 1 - d else cursor + size - 1 - d
  }

  /** How far back slot p lies. */
  function Distance(cursor: nat, p: nat, size: nat): (d: nat)
    requires p < size && cursor < size
    ensures d < size && SlotBack(cursor, d, size) == p
  {
    if p < cursor then cursor - 1 - p else cursor + size - 1 - p
  }

  /** After the cursor has moved on, the slot written lies nearest and every other one place further back. */
  lemma SlotsMoveBack(cursor: nat, d: nat, size: nat)
    requires cursor < size && d < size
    ensures NextSlot(cursor, size) < size
    ensures SlotBack(NextSlot(cursor, size), d, size) == if d == 0 then cursor else SlotBack(cursor, d - 1, size)
    ensures d > 0 ==> SlotBack(cursor, d - 1, size) != cursor
  {
  }

  /** Moving on by one slot keeps the distance to the cursor. */
  lemma SlotKeepsDistance(index: nat, cursor: nat, d: nat, power: nat)
    requires d < Pow2(power) && cursor < Pow2(power)
    requires And(index, Pow2(power) - 1) == SlotBack(cursor, d, Pow2(power))
    ensures NextSlot(cursor, Pow2(power)) < Pow2(power)
    ensures And(index + 1, Pow2(power) - 1) == SlotBack(NextSlot(cursor, Pow2(power)), d, Pow2(power))
  {
    MaskIsLow(index, power);
    MaskIsLow(index + 1, power);
    LowCounts(index, power);
  }

  class RingArrayBuf {
    const size: nat
    const buffer: array<byte>
    var cursor: nat
    /** The size is two to this power. */
    ghost const power: nat
    /** Everything the ring was filled with and then given, of which it keeps the last `size` bytes. */
    ghost var history: seq<byte>
    /** Where the cursor stood before any history. */
    ghost var origin: nat

    ghost predicate Valid()
      reads this, buffer
    {
      && size == Pow2(power) && buffer.Length == size && size <= |history|
      && cursor < size && cursor == Low(origin + |history|, power)
      && forall d :: 0 <= d < size ==> buffer[SlotBack(cursor, d, size)] == history[|history| - 1 - d]
    }

    /** The contents of the ring, oldest byte first. */
    ghost function Window(): seq<byte>
      reads this, buffer
      requires cursor < buffer.Length
    {
      buffer[cursor..] + buffer[..cursor]
    }

    /** The ring always holds the last `size` bytes of its history. */
    lemma HoldsLast()
      requires Valid()
      ensures Window() == history[|history| - size..]
    {
      forall k | 0 <= k < size ensures Window()[k] == history[|history| - size..][k] {
        assert buffer[SlotBack(cursor, size - 1 - k, size)] == history[|history| - size + k];
      }
    }

    lemma CursorFits()
      requires Valid()
      ensures cursor < size == Pow2(power)
    {
    }

    /** A ring of spaces. */
    constructor (size: nat, ghost power: nat)
      requires size == Pow2(power)
      ensures Valid() && fresh(buffer) && this.size == size && this.power == power && cursor == 0 && origin == 0
      ensures history == seq(size, _ => ' ' as byte)
      ensures buffer[..] == history
    {
      LowOfPower(power);
      this.size, this.power := size, power;
      buffer := new byte[size](_ => ' ' as byte);
      cursor, origin := 0, 0;
      history := seq(size, _ => ' ' as byte);
    }

    method Push(b: byte)
      requires Valid()
      modifies this, buffer
      ensures Valid() && history == old(history) + [b] && origin == old(origin)
      ensures cursor == NextSlot(old(cursor), size)
      ensures buffer[old(cursor)] == b
      ensures forall i :: 0 <= i < buffer.Length && i != old(cursor) ==> buffer[i] == old(buffer[i])
    {
      hide Low, And, Pow2;
      var index := cursor;
      MaskOfIndex(index, power);
      MaskOfIndex(index + 1, power);
      LowCounts(origin + |history|, power);
      buffer[And(index, size - 1)] := b;
      cursor := And(index + 1, size - 1);
      history := history + [b];
      forall d | 0 <= d < size
        ensures buffer[SlotBack(cursor, d, size)] == history[|history| - 1 - d]
      {
        SlotsMoveBack(index, d, size);
      }
    }

    /** Move the cursor; what the ring holds is from now on read from there. */
    method SetCursor(pos: int)
      requires Valid()
      modifies this
      ensures Valid() && cursor == origin == pos % size && history == Window()
    {
      cursor := pos % size;
      history := Window();
      origin := cursor;
      LowOfTwice(origin + size, power);
    }

    method IterFromOffset(offset: nat) returns (it: HistoryIter)
      requires Valid()
      ensures Valid() && fresh(it) && it.ring == this && it.Valid() && it.distance == Low(offset, power)
    {
      MaskIsLow(offset, power);
      LowIsSmall(offset, power);
      var back := And(offset, size - 1) + 1;
      MaskIsLow(cursor + size - back, power);
      LowOfTwice(cursor + size - back, power);
      it := new HistoryIter(this, cursor + size - back, Low(offset, power));
    }

    method IterFromPos(pos: nat) returns (it: HistoryIter)
      requires Valid()
      ensures Valid() && fresh(it) && it.ring == this && it.Valid() && it.index == Low(pos, power) < size
      ensures it.distance == Distance(cursor, Low(pos, power), size)
    {
      MaskIsLow(pos, power);
      LowIsSmall(pos, power);
      var index := And(pos, size - 1);
      MaskIsLow(index, power);
      LowOfSmall(index, power);
      it := new HistoryIter(this, index, Distance(cursor, Low(pos, power), size));
    }
  }

  /** Reads the ring from a fixed distance back, giving what it reads to the ring again. */
  class HistoryIter {
    const ring: RingArrayBuf
    var index: nat
    ghost const distance: nat

    ghost predicate Valid()
      reads this, ring, ring.buffer
    {
      && ring.Valid() && distance < ring.size
      && And(index, ring.size - 1) == SlotBack(ring.cursor, distance, ring.size)
    }

    constructor (ring: RingArrayBuf, index: nat, ghost distance: nat)
      requires ring.Valid() && distance < ring.size
      requires And(index, ring.size - 1) == SlotBack(ring.cursor, distance, ring.size)
      ensures Valid() && this.ring == ring && this.index == index && this.distance == distance
    {
      this.ring, this.index, this.distance := ring, index, distance;
    }

    lemma RingIsValid()
      requires Valid()
      ensures ring.Valid()
    {
    }

    method Next() returns (b: byte)
      requires Valid()
      modifies this, ring, ring.buffer
      ensures Valid() && index == old(index) + 1 && distance < |old(ring.history)|
      ensures b == old(ring.history)[|old(ring.history)| - 1 - distance]
      ensures ring.history == old(ring.history) + [b] && ring.origin == old(ring.origin)
    {
      hide Low, And, Pow2;
      b := ring.buffer[And(index, ring.size - 1)];
      SlotKeepsDistance(index, ring.cursor, distance, ring.power);
      index := index + 1;
      ring.Push(b);
    }
  }
}
