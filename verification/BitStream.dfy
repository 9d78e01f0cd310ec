/** The bit reader: a word buffer whose lowest set bit marks the end of the bits it holds. */
module BitStreams {
  import opened Wrappers
  import opened Sums
  import opened Bits
  import PlainBits = Bits
  import opened StubIo

  /** A buffer word: the held bits, a one, and zeros. */
  ghost function Packed(held: seq<bool>, width: nat): nat
    requires |held| < width
  {
    Shl(2 * Num(held) + 1, width - 1 - |held|)
  }

  /** A buffer word read as its first n held bits above the marker word of the others. */
  lemma PackedSplits(held: seq<bool>, width: nat, n: nat)
    requires n <= |held| < width
    ensures var low := Shl(2 * Num(held[n..]) + 1, width - 1 - |held|);
      Packed(held, width) == Shl(Num(held[..n]), width - n) + low && low < Pow2(width - n)
  {
    var rest, k := |held| - n, width - 1 - |held|;
    var a, b := Num(held[..n]), Num(held[n..]);
    assert held == held[..n] + held[n..];
    NumAppend(held[..n], held[n..]);
    assert 2 * Num(held) + 1 == Shl(a, rest + 1) + (2 * b + 1);
    ShlSum(Shl(a, rest + 1), 2 * b + 1, k);
    ShlAdd(a, rest + 1, k);
    ShlBound(2 * b + 1, rest + 1, k);
  }

  /** Taking n held bits off the front: shifts do it. */
  lemma TakeHeld(held: seq<bool>, width: nat, n: nat)
    requires n <= |held| < width
    ensures Shr(Packed(held, width), width - n) == Num(held[..n])
  {
    PackedSplits(held, width, n);
    ShrOfShl(Num(held[..n]), width - n, Shl(2 * Num(held[n..]) + 1, width - 1 - |held|));
  }

  lemma DropHeld(held: seq<bool>, width: nat, n: nat)
    requires n <= |held| < width
    ensures Low(Shl(Packed(held, width), n), width) == Packed(held[n..], width)
  {
    hide Shl, Low, Num, Pow2;
    var a, b, k := Num(held[..n]), Num(held[n..]), width - 1 - |held|;
    PackedSplits(held, width, n);
    ShlSum(Shl(a, width - n), Shl(2 * b + 1, k), n);
    ShlAdd(a, width - n, n);
    ShlAdd(2 * b + 1, k, n);
    ShlBound(Shl(2 * b + 1, k), width - n, n);
    LowOfShl(a, width, Shl(2 * b + 1, k + n));
  }

  /** Asking for more than is held leaves the marker in the result, to be cleared. */
  lemma TakeAllHeld(held: seq<bool>, width: nat, n: nat)
    requires |held| < n <= width && |held| < width
    ensures var res := Shr(Packed(held, width), width - n);
      res > 0 && And(res, res - 1) == Shl(Num(held), n - |held|)
  {
    var marked := Shl(2 * Num(held) + 1, n - |held| - 1);
    ShlAdd(2 * Num(held) + 1, n - |held| - 1, width - n);
    ShrOfShl(marked, width - n, 0);
    AndClearsLowest(Num(held), n - |held| - 1);
  }

  /** Shifting a refilled word (the bits read, then zeros) gives its first n bits or drops them. */
  lemma RefillSplits(bits: seq<bool>, width: nat, n: nat)
    requires n <= |bits| <= width
    ensures var word := Shl(Num(bits), width - |bits|);
      && Shr(word, width - n) == Num(bits[..n])
      && Low(Shl(word, n), width) == Shl(Num(bits[n..]), width - (|bits| - n))
  {
    hide Shl, Shr, Low, Num, Pow2;
    var a, b, z, rest := Num(bits[..n]), Num(bits[n..]), width - |bits|, |bits| - n;
    assert bits == bits[..n] + bits[n..];
    NumAppend(bits[..n], bits[n..]);
    ShlSum(Shl(a, rest), b, z);
    ShlAdd(a, rest, z);
    ShlBound(b, rest, z);
    ShrOfShl(a, width - n, Shl(b, z));
    ShlSum(Shl(a, width - n), Shl(b, z), n);
    ShlAdd(a, width - n, n);
    ShlAdd(b, z, n);
    ShlBound(Shl(b, z), width - n, n);
    LowOfShl(a, width, Shl(Shl(b, z), n));
  }

  /** Setting the marker behind the bits that are left makes a buffer word. */
  lemma MarkerPacks(bits: seq<bool>, width: nat)
    requires |bits| < width
    ensures Or(Shl(Num(bits), width - |bits|), Shl(1, width - 1 - |bits|)) == Packed(bits, width)
  {
    var r := width - 1 - |bits|;
    ShlOne(r);
    ShlOne(r + 1);
    OrAdds(Num(bits), r + 1, Shl(1, r));
    ShlSum(2 * Num(bits), 1, r);
    ShlAdd(Num(bits), 1, r);
  }

  /** A word shifted out altogether leaves nothing. */
  lemma AllShiftedOut(bits: seq<bool>, width: nat)
    requires |bits| == width
    ensures Num(bits[width..]) == 0
  {
  }

  /** The number requested, once the missing bits have been fetched. */
  lemma RefillJoins(held: seq<bool>, fetched: seq<bool>, width: nat, missing: nat)
    requires |held| < width && 1 <= missing <= |fetched| <= width && |held| + missing <= width
    ensures var res, word := Shr(Packed(held, width), width - (|held| + missing)), Shl(Num(fetched), width - |fetched|);
      res > 0 && Or(And(res, res - 1), Shr(word, width - missing)) == Num(held + fetched[..missing])
  {
    TakeAllHeld(held, width, |held| + missing);
    RefillSplits(fetched, width, missing);
    OrAdds(Num(held), missing, Num(fetched[..missing]));
    NumAppend(held, fetched[..missing]);
  }

  /** The buffer of the fetched bits that are left over. */
  lemma RefillKeeps(fetched: seq<bool>, width: nat, missing: nat)
    requires 1 <= missing <= |fetched| <= width
    ensures var word := Shl(Num(fetched), width - |fetched|);
      var shifted := if missing == width then 0 else Low(Shl(word, missing), width);
      Or(shifted, Shl(1, width - 1 - (|fetched| - missing))) == Packed(fetched[missing..], width)
  {
    RefillSplits(fetched, width, missing);
    MarkerPacks(fetched[missing..], width);
    if missing == width {
      AllShiftedOut(fetched, width);
      ShlZero(width);
    }
  }

  lemma SplitJoined(a: seq<bool>, b: seq<bool>, c: seq<bool>, n: nat)
    requires |a| <= n <= |a| + |b|
    ensures (a + (b + c))[..n] == a + b[..n - |a|]
    ensures (a + (b + c))[n..] == b[n - |a|..] + c
  {
  }

  /** The bits held and those of the first `count` bytes, split after n bits. */
  lemma SplitBits(held: seq<bool>, bytes: seq<byte>, count: nat, n: nat)
    requires count <= |bytes| && |held| <= n <= |held| + 8 * count
    ensures |held + BytesBits(bytes)| >= n
    ensures (held + BytesBits(bytes))[..n] == held + BytesBits(bytes[..count])[..n - |held|]
    ensures (held + BytesBits(bytes))[n..] == BytesBits(bytes[..count])[n - |held|..] + BytesBits(bytes[count..])
  {
    BytesSplit(bytes, count);
    SplitJoined(held, BytesBits(bytes[..count]), BytesBits(bytes[count..]), n);
  }

  /** The zeros below the marker tell how many bits are held. */
  lemma HeldCount(held: seq<bool>, width: nat)
    requires |held| < width
    ensures Packed(held, width) > 0 && TrailingZeros(Packed(held, width)) == width - 1 - |held|
  {
    TrailingZerosOf(Num(held), width - 1 - |held|);
  }

  lemma SplitFront(a: seq<bool>, b: seq<bool>, n: nat)
    requires n <= |a|
    ensures (a + b)[..n] == a[..n] && (a + b)[n..] == a[n..] + b
  {
  }

  class BitStream {
    const inner: Take
    const width: nat
    var bitsBuf: nat
    ghost var held: seq<bool>

    ghost predicate Valid()
      reads this, inner, inner.inner
    {
      inner.Valid() && 32 <= width && width % 8 == 0 && |held| < width && bitsBuf == Packed(held, width)
    }

    /** The bits that can still be read. */
    ghost function Bits(): seq<bool>
      reads this, inner, inner.inner
      requires Valid()
    {
      held + BytesBits(inner.Available())
    }

    lemma ValidParts()
      requires Valid()
      ensures 32 <= width && inner.Valid()
    {
    }

    constructor (rd: Take, wordBits: nat)
      requires rd.Valid() && 32 <= wordBits && wordBits % 8 == 0
      ensures Valid() && inner == rd && width == wordBits && Bits() == BytesBits(rd.Available())
    {
      inner, width, held := rd, wordBits, [];
      bitsBuf := Shl(1, wordBits - 1);
    }

    /** The next n bits as a number. */
    method NextBits(n: nat) returns (r: Result<nat>)
      requires Valid() && 1 <= n <= width
      modifies this, inner, inner.inner
      ensures Valid() && inner.Valid() && inner.End() == old(inner.End())
      ensures r.Ok? <==> n <= |old(Bits())|
      ensures r.Ok? ==> r.value == Num(old(Bits())[..n]) && Bits() == old(Bits())[n..]
      ensures r.Err? ==> r.error == Io
    {
      hide Packed, Num, Shl, Shr, Low, TrailingZeros, BytesBits, Take.Available;
      HeldCount(held, width);
      var have := width - TrailingZeros(bitsBuf) - 1;
      var res := Shr(bitsBuf, width - n);
      if n <= have {
        ghost var h, rest := held, BytesBits(inner.Available());
        TakeHeld(h, width, n);
        DropHeld(h, width, n);
        bitsBuf := Low(Shl(bitsBuf, n), width);
        held := h[n..];
        SplitFront(h, rest, n);
        return Ok(res);
      }
      r := Refill(res, n, n - have);
    }

    /** The number requested needs `missing` bits more than are held. */
    method Refill(res: nat, n: nat, missing: nat) returns (r: Result<nat>)
      requires Valid() && |held| < n <= width && missing == n - |held|
      requires res == Shr(bitsBuf, width - n)
      modifies this, inner, inner.inner
      ensures Valid() && inner.Valid() && inner.End() == old(inner.End())
      ensures r.Ok? <==> n <= |old(Bits())|
      ensures r.Ok? ==> r.value == Num(old(Bits())[..n]) && Bits() == old(Bits())[n..]
      ensures r.Err? ==> r.error == Io
    {
      ghost var h, before := held, inner.Available();
      var buf, count := Fetch();
      var bitsRead := 8 * count;
      if bitsRead < missing {
        return Err(Io);
      }
      SplitBits(h, before, count, n);
      var joined, left := Merge(res, buf, missing, bitsRead, h, before[..count]);
      bitsBuf, held := left, BytesBits(before[..count])[missing..];
      return Ok(joined);
    }

    /** Read up to a word's worth of bytes into a zeroed buffer. */
    method Fetch() returns (word: seq<byte>, count: nat)
      requires inner.Valid()
      modifies inner, inner.inner
      ensures inner.Valid() && inner.End() == old(inner.End())
      ensures count <= |old(inner.Available())| && (count == width / 8 || count == |old(inner.Available())|)
      ensures |word| == width / 8 && count <= |word| && old(inner.Available())[..count] <= word
      ensures forall i :: count <= i < |word| ==> word[i] == 0
      ensures inner.Available() == old(inner.Available())[count..]
    {
      var buf := new byte[width / 8](_ => 0);
      count := inner.ReadAll(buf);
      word := buf[..];
    }

    /** Join the bits held with the first `missing` bits of a fresh word, and keep the others. */
    method Merge(res: nat, buf: seq<byte>, missing: nat, bitsRead: nat, ghost held: seq<bool>, ghost bytes: seq<byte>)
      returns (joined: nat, left: nat)
      requires |held| < width && 1 <= missing && |held| + missing <= width && width == 8 * |buf|
      requires res == Shr(Packed(held, width), width - (|held| + missing))
      requires bitsRead == 8 * |bytes| && missing <= bitsRead && bytes <= buf
      requires forall i :: |bytes| <= i < |buf| ==> buf[i] == 0
      ensures joined == Num(held + BytesBits(bytes)[..missing])
      ensures left == Packed(BytesBits(bytes)[missing..], width)
    {
      hide Or, And, Shl, Shr, Low, Packed, Num, BytesBits, FromBytes, Pow2;
      ghost var fetched, pad := BytesBits(bytes), buf[|bytes|..];
      assert buf == bytes + pad;
      WordPadded(bytes, pad);
      WordOfBytes(bytes);
      RefillJoins(held, fetched, width, missing);
      RefillKeeps(fetched, width, missing);
      var newBits := FromBytes(buf);
      joined := Or(And(res, res - 1), Shr(newBits, width - missing));
      var shifted := if missing == width then 0 else Low(Shl(newBits, missing), width);
      left := Or(shifted, Shl(1, width - 1 - (bitsRead - missing)));
    }

    method ReadBit() returns (r: Result<bool>)
      requires Valid()
      modifies this, inner, inner.inner
      ensures Valid() && inner.Valid() && inner.End() == old(inner.End())
      ensures r.Ok? <==> old(Bits()) != []
      ensures r.Ok? ==> r.value == old(Bits())[0] && Bits() == old(Bits())[1..]
    {
      var bits := NextBits(1);
      match bits
      case Err(e) => r := Err(e);
      case Ok(x) =>
        assert old(Bits())[..1] == [old(Bits())[0]];
        r := Ok(x != 0);
    }

    /** The next n bits as a number of a type with `capacity` bits. */
    method ReadBits(capacity: nat, n: nat) returns (r: Result<nat>)
      requires Valid() && capacity <= width
      modifies this, inner, inner.inner
      ensures Valid() && inner.Valid() && inner.End() == old(inner.End())
      ensures r.Ok? <==> n <= capacity && n <= |old(Bits())|
      ensures r.Ok? ==> PlainBits.NextBits(old(Bits()), n) == Some((r.value, Bits()))
      ensures r.Err? ==> r.error == (if n <= capacity then Io else Decompress)
    {
      if n == 0 {
        return Ok(0);
      } else if n <= capacity {
        r := NextBits(n);
      } else {
        return Err(Decompress);
      }
    }
  }
}
