/** Copying from the ring into the caller's buffer. */
module LzCopy {
  import opened Wrappers
  import opened Sums
  import opened Bits
  import opened RingBufs
  import opened Lz

  /** Write up to `count` bytes from the ring to `buf`, from index `from` on; they become history themselves. */
  method CopyFrom(it: HistoryIter, buf: array<byte>, from: nat, count: nat) returns (to: nat)
    requires it.Valid() && from <= buf.Length && buf != it.ring.buffer
    modifies it, it.ring, it.ring.buffer, buf
    ensures it.Valid() && it.ring.Valid() && to == from + Min(count, buf.Length - from)
    ensures it.index == old(it.index) + (to - from) && it.ring.origin == old(it.ring.origin)
    ensures it.ring.history == old(it.ring.history) + CopyBytes(old(it.ring.history), it.distance, to - from)
    ensures buf[..to] == old(buf[..from]) + CopyBytes(old(it.ring.history), it.distance, to - from)
  {
    hide HistoryIter.Valid;
    ghost var h, d, end := it.ring.history, it.distance, from + Min(count, buf.Length - from);
    assert h + CopyBytes(h, d, 0) == h;
    to := from;
    while to < buf.Length && to - from < count
      invariant from <= to <= end && it.Valid()
      invariant it.index == old(it.index) + (to - from) && it.ring.origin == old(it.ring.origin)
      invariant it.ring.history == h + CopyBytes(h, d, to - from)
      invariant buf[..to] == old(buf[..from]) + CopyBytes(h, d, to - from)
    {
      CopySnoc(h, d, to - from);
      var b := it.Next();
      buf[to] := b;
      to := to + 1;
      assert buf[..to] == buf[..to - 1] + [b];
    }
    it.RingIsValid();
  }

  // ---- copies from an absolute position

  /** How far back a position lies. */
  ghost function DistanceTo(pos: nat, cursor: nat, power: nat): (d: nat)
    requires cursor < Pow2(power)
    ensures d < Pow2(power)
  {
    LowIsSmall(pos, power);
    Distance(cursor, Low(pos, power), Pow2(power))
  }

  /** A pending copy by position, as a copy by distance from the cursor. */
  ghost function ByDistance(progress: Option<(nat, Positive)>, cursor: nat, power: nat): Option<(nat, Positive)>
    requires cursor < Pow2(power)
  {
    match progress
    case None => None
    case Some((pos, count)) => Some((DistanceTo(pos, cursor, power), count))
  }

  /** A copy by position as one by distance, when the cursor stands where it would after n bytes of history. */
  ghost function Placed(c: Command, origin: nat, n: nat, power: nat): Command {
    match c
    case Literal(_) => c
    case Copy(pos, count) =>
      LowIsSmall(origin + n, power);
      Copy(DistanceTo(pos, Low(origin + n, power), power), count)
  }

  /** The slot k places after a position is as far back as the position was, once k bytes have been written. */
  lemma PositionKeepsDistance(pos: nat, k: nat, cursor: nat, d: nat, power: nat)
    requires cursor < Pow2(power) && d < Pow2(power)
    requires And(Low(pos, power) + k, Pow2(power) - 1) == SlotBack(cursor, d, Pow2(power))
    ensures Low(pos + k, power) < Pow2(power) && Distance(cursor, Low(pos + k, power), Pow2(power)) == d
  {
    MaskIsLow(Low(pos, power) + k, power);
    LowOfSum(pos, k, power);
  }

  /** Copy from an absolute position of the ring what fits in the buffer; return what is left to copy. */
  method CopyFromPos(ring: RingArrayBuf, buf: array<byte>, from: nat, pos: nat, count: Positive)
    returns (to: nat, progress: Option<(nat, Positive)>)
    requires ring.Valid() && from <= buf.Length && buf != ring.buffer && pos + count <= 0x10000
    modifies ring, ring.buffer, buf
    ensures ring.cursor < Pow2(ring.power) && old(ring.cursor) < Pow2(ring.power)
    ensures ring.Valid() && ring.origin == old(ring.origin)
    ensures to == from + Min(count, buf.Length - from)
    ensures progress.Some? ==> progress.value.0 + progress.value.1 <= 0x10000
    ensures var d := DistanceTo(pos, old(ring.cursor), ring.power);
      var x := CopyBytes(old(ring.history), d, to - from);
      && ring.history == old(ring.history) + x && buf[..to] == old(buf[..from]) + x
      && ByDistance(progress, ring.cursor, ring.power) == Left(d, count, buf.Length - from)
  {
    hide RingArrayBuf.Valid, Low, And, CopyBytes;
    ring.CursorFits();
    var it := ring.IterFromPos(pos);
    to := CopyFrom(it, buf, from, count);
    PositionHolds(it, pos, to - from);
    var realCount := to - from;
    progress := if realCount < count then Some((pos + realCount, count - realCount)) else None;
  }

  lemma PositionHolds(it: HistoryIter, pos: nat, k: nat)
    requires it.Valid() && it.index == Low(pos, it.ring.power) + k
    ensures it.ring.size == Pow2(it.ring.power) && it.ring.cursor < it.ring.size && it.distance < it.ring.size
    ensures Low(pos + k, it.ring.power) < it.ring.size
    ensures Distance(it.ring.cursor, Low(pos + k, it.ring.power), it.ring.size) == it.distance
  {
    PositionKeepsDistance(pos, k, it.ring.cursor, it.distance, it.ring.power);
  }

  // ---- which byte a position denotes

  /**
    Byte k of the history was written to slot origin + k; the one d + 1 places back lies d + 1 slots before the
    cursor.
   */
  lemma {:induction false} SlotOfByte(origin: nat, n: nat, d: nat, power: nat)
    requires d < Pow2(power) && d < n
    ensures Low(origin + n, power) < Pow2(power)
    ensures Low(origin + n - 1 - d, power) == SlotBack(Low(origin + n, power), d, Pow2(power))
    decreases d
  {
    hide Low, Pow2;
    LowIsSmall(origin + n, power);
    LowIsSmall(origin + n - 1 - d, power);
    LowCounts(origin + n - 1 - d, power);
    if d > 0 { SlotOfByte(origin, n, d - 1, power); }
  }

  /** The slot that byte k of the history was written to. */
  function SlotOf(origin: nat, k: nat, power: nat): nat {
    Low(origin + k, power)
  }

  /** The byte copied for a position is the one written last to that slot of the ring. */
  lemma PositionIsLastWritten(pos: nat, origin: nat, history: seq<byte>, power: nat)
    requires |history| >= Pow2(power)
    ensures Low(origin + |history|, power) < Pow2(power)
    ensures var d := DistanceTo(pos, Low(origin + |history|, power), power);
      var k := |history| - 1 - d;
      && 0 <= k && Back(history, d) == history[k] && SlotOf(origin, k, power) == Low(pos, power)
      && forall j :: k < j < |history| ==> SlotOf(origin, j, power) != Low(pos, power)
  {
    hide Low, Pow2;
    var n := |history|;
    LowIsSmall(origin + n, power);
    LowIsSmall(pos, power);
    var d := DistanceTo(pos, Low(origin + n, power), power);
    SlotOfByte(origin, n, d, power);
    forall j | n - 1 - d < j < n ensures SlotOf(origin, j, power) != Low(pos, power) {
      SlotOfByte(origin, n, n - 1 - j, power);
    }
  }

  /** The position that denotes a distance, after n bytes of history. */
  ghost function PositionOf(d: nat, origin: nat, n: nat, power: nat): (p: nat)
    requires d < Pow2(power)
    ensures p < Pow2(power)
  {
    LowIsSmall(origin + n, power);
    SlotBack(Low(origin + n, power), d, Pow2(power))
  }

  lemma PositionIsPlaced(d: nat, count: Positive, origin: nat, n: nat, power: nat)
    requires d < Pow2(power)
    ensures Placed(Copy(PositionOf(d, origin, n, power), count), origin, n, power) == Copy(d, count)
  {
    hide Low, Pow2;
    LowIsSmall(origin + n, power);
    LowOfSmall(PositionOf(d, origin, n, power), power);
  }

  // ---- streams of commands by position

  /** How many bytes a command writes. */
  function SizeOf(c: Command): nat {
    match c case Literal(_) => 1 case Copy(_, count) => count
  }

  lemma PerformedSize(history: seq<byte>, c: Command)
    ensures |Perform(history, c)| == |history| + SizeOf(c)
  {
  }
}
