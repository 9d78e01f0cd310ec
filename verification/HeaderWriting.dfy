/** Writing headers, why what is written is read back, and which stated lengths a reader insists on. */
module HeaderWriting {
  import opened Wrappers
  import opened Sums
  import opened Bits
  import opened Crc16s
  import opened Headers
  import opened HeaderFormat

  // ---- numbers

  function Bytes16(n: nat): (s: seq<byte>)
    requires n < 0x10000
    ensures |s| == 2
  {
    [n % 0x100, n / 0x100]
  }

  function Bytes32(n: nat): (s: seq<byte>)
    requires n < 0x1_0000_0000
    ensures |s| == 4
  {
    Bytes16(n % 0x10000) + Bytes16(n / 0x10000)
  }

  lemma Bytes16AreRead(n: nat)
    requires n < 0x10000
    ensures U16(Bytes16(n)) == n
  {
  }

  lemma Bytes32AreRead(n: nat)
    requires n < 0x1_0000_0000
    ensures U32(Bytes32(n)) == n
  {
    hide U16, Bytes16;
    assert Bytes32(n)[..2] == Bytes16(n % 0x10000) && Bytes32(n)[2..] == Bytes16(n / 0x10000);
    Bytes16AreRead(n % 0x10000);
    Bytes16AreRead(n / 0x10000);
  }

  predicate BitOf(c: bv16, mask: bv16) {
    c & mask != 0
  }

  /** The eight low bits of a checksum. */
  function LowBits(c: bv16): (s: seq<bool>)
    ensures |s| == 8
  {
    [BitOf(c, 1), BitOf(c, 2), BitOf(c, 4), BitOf(c, 8), BitOf(c, 16), BitOf(c, 32), BitOf(c, 64), BitOf(c, 128)]
  }

  function LowByte(c: bv16): byte {
    SmallPowers();
    FromBits(LowBits(c))
  }

  function CrcBytes(c: bv16): (s: seq<byte>)
    ensures |s| == 2
  {
    [LowByte(c), LowByte(c >> 8)]
  }

  lemma {:induction false} ShiftDrops(bits: seq<bool>, k: nat)
    requires k <= |bits|
    ensures Shifted(FromBits(bits), k) == FromBits(bits[k..])
  {
    if k > 0 {
      ShiftDrops(bits, k - 1);
      assert bits[k - 1..][1..] == bits[k..];
    }
  }

  lemma BitIsThere(bits: seq<bool>, k: nat)
    requires k < |bits|
    ensures BitAt(FromBits(bits), k) == bits[k]
  {
    hide FromBits, Shifted;
    ShiftDrops(bits, k);
    FirstBit(bits[k..]);
  }

  function Join(b0: bool, b1: bool, b2: bool, b3: bool, b4: bool, b5: bool, b6: bool, b7: bool): bv16 {
    Mask(b0, 1) | Mask(b1, 2) | Mask(b2, 4) | Mask(b3, 8) | Mask(b4, 16) | Mask(b5, 32) | Mask(b6, 64) | Mask(b7, 128)
  }

  lemma MasksJoin(c: bv16)
    ensures Join(BitOf(c, 1), BitOf(c, 2), BitOf(c, 4), BitOf(c, 8), BitOf(c, 16), BitOf(c, 32), BitOf(c, 64),
                 BitOf(c, 128))
         == c & 0xff
  {
  }

  lemma BitsOfByte(bits: seq<bool>, b: byte)
    requires |bits| == 8 && b == FromBits(bits)
    ensures BitAt(b, 0) == bits[0] && BitAt(b, 1) == bits[1] && BitAt(b, 2) == bits[2] && BitAt(b, 3) == bits[3]
    ensures BitAt(b, 4) == bits[4] && BitAt(b, 5) == bits[5] && BitAt(b, 6) == bits[6] && BitAt(b, 7) == bits[7]
  {
    hide BitAt, FromBits;
    BitIsThere(bits, 0);
    BitIsThere(bits, 1);
    BitIsThere(bits, 2);
    BitIsThere(bits, 3);
    BitIsThere(bits, 4);
    BitIsThere(bits, 5);
    BitIsThere(bits, 6);
    BitIsThere(bits, 7);
  }

  lemma ByteBitsJoin(b: byte)
    ensures ByteBits(b)
         == Join(BitAt(b, 0), BitAt(b, 1), BitAt(b, 2), BitAt(b, 3), BitAt(b, 4), BitAt(b, 5), BitAt(b, 6), BitAt(b, 7))
  {
    hide BitAt, Mask;
  }

  lemma LowByteIsRead(c: bv16)
    ensures ByteBits(LowByte(c)) == c & 0xff
  {
    hide BitAt, BitOf, Mask, FromBits, Pow2, ByteBits, Join;
    BitsOfByte(LowBits(c), LowByte(c));
    ByteBitsJoin(LowByte(c));
    MasksJoin(c);
  }

  lemma HalvesJoin(c: bv16)
    ensures (((c >> 8) & 0xff) << 8) | (c & 0xff) == c
  {
  }

  /** Any checksum can be written. */
  lemma CrcBytesAreRead(c: bv16)
    ensures Word(CrcBytes(c)[0], CrcBytes(c)[1]) == c
  {
    hide LowByte, ByteBits;
    LowByteIsRead(c);
    LowByteIsRead(c >> 8);
    HalvesJoin(c);
  }

  // ---- extra headers

  /** A header with a checksum in it, if it is a common header. */
  function Seal(header: seq<byte>, c: bv16): (r: seq<byte>)
    requires |header| >= 3
    ensures |r| == |header|
  {
    if header[0] == EXT_HEADER_COMMON then header[1 := CrcBytes(c)[0]][2 := CrcBytes(c)[1]] else header
  }

  /** A header as it is kept, with no checksum in it. */
  predicate Cleared(header: seq<byte>) {
    |header| >= 3 && Clear(header) == header
  }

  predicate AllCleared(chain: Chain) {
    forall i :: 0 <= i < |chain| ==> Cleared(chain[i])
  }

  /** At most one header of the chain is a common header. */
  predicate OneCommon(chain: Chain) {
    forall i, j :: 0 <= i < j < |chain| && |chain[i]| > 0 && |chain[j]| > 0 && chain[i][0] == EXT_HEADER_COMMON
      ==> chain[j][0] != EXT_HEADER_COMMON
  }

  /** The headers of a chain one after the other, with a checksum in the common one. */
  function SealedBytes(chain: Chain, c: bv16): seq<byte>
    requires AllCleared(chain)
    decreases |chain|
  {
    if chain == [] then [] else Seal(chain[0], c) + SealedBytes(chain[1..], c)
  }

  function FirstLength(chain: Chain): nat {
    if chain == [] then 0 else |chain[0]|
  }

  lemma SealIsCleared(header: seq<byte>, c: bv16)
    requires Cleared(header)
    ensures Clear(Seal(header, c)) == header && Seal(header, c)[0] == header[0]
    ensures header[0] == EXT_HEADER_COMMON ==> Word(Seal(header, c)[1], Seal(header, c)[2]) == c
  {
    hide Word, CrcBytes;
    CrcBytesAreRead(c);
    var r := Seal(header, c);
    if header[0] == EXT_HEADER_COMMON { assert r[1 := 0][2 := 0] == header[1 := 0][2 := 0]; }
  }

  lemma FirstIsLinked(chain: Chain, first: nat, len32: bool)
    requires Linked(chain, first, len32, 0)
    ensures FirstLength(chain) == first
  {
    if chain != [] { LinkedFromFront(chain, first, len32, 0); }
  }

  lemma LinkedTail(chain: Chain, len32: bool)
    requires chain != [] && Linked(chain, |chain[0]|, len32, 0)
    ensures |chain[0]| > CounterSize(len32) && Linked(chain[1..], FirstLength(chain[1..]), len32, 0)
    ensures FirstLength(chain[1..]) == NextLength(chain[0], len32)
  {
    hide NextLength, Linked;
    LinkedFromFront(chain, |chain[0]|, len32, 0);
    FirstIsLinked(chain[1..], NextLength(chain[0], len32), len32);
  }

  lemma ClearedTail(chain: Chain)
    requires chain != [] && AllCleared(chain)
    ensures Cleared(chain[0]) && |chain[0]| >= 3 && AllCleared(chain[1..])
  {
  }

  lemma {:induction false} SizesFromFront(chain: Chain, sizes: (nat, nat))
    requires chain != []
    ensures SizesOf(chain, sizes) == SizesOf(chain[1..], SizesAfter(chain[0], sizes))
    decreases |chain|
  {
    hide SizesAfter;
    var init := chain[..|chain| - 1];
    if init == [] {
      assert chain[1..] == [] && chain == [chain[0]];
      assert SizesOf([], sizes) == sizes;
    } else {
      SizesFromFront(init, sizes);
      assert chain[1..][..|chain| - 2] == init[1..];
    }
  }

  lemma CommonFromFront(chain: Chain)
    requires chain != [] && |chain[0]| > 0
    ensures HasCommon(chain) <==> chain[0][0] == EXT_HEADER_COMMON || HasCommon(chain[1..])
    ensures OneCommon(chain) ==> OneCommon(chain[1..]) && (chain[0][0] == EXT_HEADER_COMMON ==> !HasCommon(chain[1..]))
  {
    var tail := chain[1..];
    if HasCommon(tail) {
      var i :| 0 <= i < |tail| && |tail[i]| > 0 && tail[i][0] == EXT_HEADER_COMMON;
      assert chain[i + 1] == tail[i];
    }
  }

  lemma {:induction false} SealedLength(chain: Chain, c: bv16)
    requires AllCleared(chain)
    ensures |SealedBytes(chain, c)| == |Concat(chain)|
    decreases |chain|
  {
    hide Cleared, Seal;
    if chain != [] {
      SealedLength(chain[1..], c);
      ConcatFront(chain[0], chain[1..]);
      assert [chain[0]] + chain[1..] == chain;
    }
  }

  /** What reading a chain adds to what was read before. */
  function Gained(level: nat, chain: Chain, c: bv16, e: Extra): Extra {
    Extra(e.headers + Concat(chain), if HasCommon(chain) then Some(c) else e.crc,
          if level >= 2 then SizesOf(chain, e.sizes) else e.sizes)
  }

  /** The room that the compressed size leaves for a chain behind `used` bytes; a size header changes it. */
  predicate SizesLeaveRoom(level: nat, chain: Chain, used: nat, sizes: (nat, nat))
    decreases |chain|
  {
    chain == [] ||
    (sizes.0 >= used + |chain[0]| &&
     SizesLeaveRoom(level, chain[1..], used + |chain[0]|, if level >= 2 then SizesAfter(chain[0], sizes) else sizes))
  }

  /** The room for a chain behind the first `len` bytes: the stated length limits it, or else the compressed size. */
  predicate HasRoom(level: nat, long: nat, len: nat, chain: Chain, e: Extra) {
    if long != 0 then len + |Concat(chain)| <= long + 2 else SizesLeaveRoom(level, chain, |e.headers|, e.sizes)
  }

  /** At level 1 the sizes stay the same, so only the total counts. */
  lemma {:induction false} TotalLeavesRoom(level: nat, chain: Chain, used: nat, sizes: (nat, nat))
    requires level < 2 && used + |Concat(chain)| <= sizes.0
    ensures SizesLeaveRoom(level, chain, used, sizes)
    decreases |chain|
  {
    if chain != [] {
      ConcatFront(chain[0], chain[1..]);
      assert [chain[0]] + chain[1..] == chain;
      TotalLeavesRoom(level, chain[1..], used + |chain[0]|, sizes);
    }
  }

  lemma FirstGained(level: nat, chain: Chain, c: bv16, e: Extra)
    requires chain != [] && Cleared(chain[0]) && OneCommon(chain)
    ensures Gained(level, chain[1..], c, AddHeader(level, e, Seal(chain[0], c))) == Gained(level, chain, c, e)
  {
    hide SizesAfter, SizesOf, Word, Clear, Seal, HasCommon, OneCommon;
    SealIsCleared(chain[0], c);
    SizesFromFront(chain, e.sizes);
    CommonFromFront(chain);
    ConcatFront(chain[0], chain[1..]);
    assert [chain[0]] + chain[1..] == chain;
    assert e.headers + chain[0] + Concat(chain[1..]) == e.headers + Concat(chain);
  }

  /** There is room for the first header, and behind it for the others. */
  lemma RoomFollows(level: nat, long: nat, len: nat, chain: Chain, c: bv16, e: Extra)
    requires chain != [] && Cleared(chain[0]) && |chain[0]| > CounterSize(level == 3)
    requires HasRoom(level, long, len, chain, e)
    ensures MayFollow(level, long, len, |chain[0]|, e)
    ensures HasRoom(level, long, len + |chain[0]|, chain[1..], AddHeader(level, e, Seal(chain[0], c)))
    ensures AddHeader(level, e, Seal(chain[0], c)).crc.Some? <==> e.crc.Some? || chain[0][0] == EXT_HEADER_COMMON
  {
    hide Clear, Seal, AddHeader, SizesAfter;
    SealIsCleared(chain[0], c);
    ConcatFront(chain[0], chain[1..]);
    assert [chain[0]] + chain[1..] == chain;
    AddedHeader(level, e, Seal(chain[0], c));
    AddedParts(level, e, Seal(chain[0], c));
  }

  /** A chain that is written is what is read. */
  lemma {:induction false} ChainIsRead(level: nat, long: nat, len: nat, chain: Chain, c: bv16, rest: seq<byte>,
                                       e: Extra)
    requires AllCleared(chain) && OneCommon(chain) && Linked(chain, FirstLength(chain), level == 3, 0)
    requires e.crc.Some? ==> !HasCommon(chain)
    requires HasRoom(level, long, len, chain, e)
    ensures Gather(level, long, len, SealedBytes(chain, c) + rest, FirstLength(chain), e)
      == Some(Gained(level, chain, c, e))
    decreases |chain|
  {
    hide Clear, Seal, AddHeader, NextLength, OneCommon, HasCommon, SizesOf, HasRoom, MayFollow, Concat, Gained,
      Linked, AllCleared, Cleared, SizesLeaveRoom;
    if chain == [] {
      NothingGained(level, c, e);
    } else {
      ClearedTail(chain);
      var tail, header := chain[1..], Seal(chain[0], c);
      SealIsCleared(chain[0], c);
      LinkedTail(chain, level == 3);
      CommonFromFront(chain);
      FirstGained(level, chain, c, e);
      RoomFollows(level, long, len, chain, c, e);
      var b := SealedBytes(chain, c) + rest;
      assert b[..|header|] == header && b[|header|..] == SealedBytes(tail, c) + rest;
      ChainIsRead(level, long, len + |header|, tail, c, rest, AddHeader(level, e, header));
    }
  }

  lemma NothingGained(level: nat, c: bv16, e: Extra)
    ensures Gained(level, [], c, e) == e
  {
    assert e.headers + Concat([]) == e.headers;
  }

  lemma AddedParts(level: nat, e: Extra, header: seq<byte>)
    requires |header| >= 3
    ensures AddHeader(level, e, header).crc.Some? <==> e.crc.Some? || header[0] == EXT_HEADER_COMMON
    ensures AddHeader(level, e, header).sizes == if level >= 2 then SizesAfter(Clear(header), e.sizes) else e.sizes
  {
  }

  // ---- whole headers

  /**
    What a header is written from: its fields, its extra headers as they are kept, the stated length and the padding.
    Level 0 may leave out the system if there is no extended area.
   */
  datatype Draft = Draft(raw: RawBaseHeader, filename: seq<byte>, fileCrc: bv16, system: Option<byte>, area: seq<byte>,
                         chain: Chain, stated: nat, pad: seq<byte>)

  /** The system as it is read. */
  function OsType(d: Draft): byte {
    if d.system.Some? then d.system.value else 0
  }

  /** The system and the extended area at levels 0 and 1. */
  function SystemPart(d: Draft): seq<byte> {
    if d.system.None? then [] else [d.system.value] + d.area
  }

  function LengthPart(d: Draft): (s: seq<byte>)
    requires FirstLength(d.chain) < 0x10000
    ensures |s| == if Level(d.raw) == 0 then 0 else 2
  {
    if Level(d.raw) == 0 then [] else Bytes16(FirstLength(d.chain))
  }

  /** What follows the first two bytes at levels 0 and 1. */
  function ShortBody(d: Draft): seq<byte>
    requires |d.filename| < 0x100 && FirstLength(d.chain) < 0x10000
  {
    d.raw + [|d.filename|] + d.filename + CrcBytes(d.fileCrc) + SystemPart(d) + LengthPart(d)
  }

  /**
    What may be written at a level: everything must fit, and the stated length of level 2 must not look like an end.
   */
  ghost predicate Writable(d: Draft) {
    && AllCleared(d.chain) && OneCommon(d.chain) && Linked(d.chain, FirstLength(d.chain), Level(d.raw) == 3, 0)
    && |d.filename| < 0x100 && (d.system.None? ==> Level(d.raw) == 0 && d.area == [])
    && var first, size := FirstLength(d.chain), |Concat(d.chain)|;
    match Level(d.raw)
    case 0 => d.chain == [] && |ShortBody(d)| < 0x100 && d.stated == 0 && d.pad == []
    case 1 => first < 0x10000 && |ShortBody(d)| < 0x100 && size <= StoredSizes(d.raw).0 && d.stated == 0 && d.pad == []
    case 2 =>
      && d.filename == [] && d.area == [] && d.stated < 0x10000 && d.stated % 0x100 != 0
      && 26 + first <= d.stated && Padding(2, d.stated, 26 + size) == Some(|d.pad|)
    case 3 =>
      && d.filename == [] && d.area == [] && d.pad == [] && first < 0x1_0000_0000 && d.stated < 0x1_0000_0000
      && (32 + first) % 0x1_0000_0000 <= d.stated
      && if d.stated != 0 then 32 + size <= d.stated + 2 else SizesLeaveRoom(3, d.chain, 0, StoredSizes(d.raw))
    case _ => false
  }

  lemma WritableParts(d: Draft)
    requires Writable(d)
    ensures Level(d.raw) <= 3 && AllCleared(d.chain) && OneCommon(d.chain) && |d.filename| < 0x100
    ensures Linked(d.chain, FirstLength(d.chain), Level(d.raw) == 3, 0)
    ensures FirstLength(d.chain) < 0x1_0000_0000 && d.stated < 0x1_0000_0000
    ensures Level(d.raw) < 3 ==> FirstLength(d.chain) < 0x10000 && d.stated < 0x10000
    ensures Level(d.raw) < 2 ==> |ShortBody(d)| < 0x100 && d.stated == 0
    ensures Level(d.raw) >= 2 ==> d.filename == [] && d.area == []
    ensures Level(d.raw) == 2 ==> d.stated % 0x100 != 0
    ensures Level(d.raw) == 0 ==> d.chain == []
    ensures Level(d.raw) == 1 ==> |Concat(d.chain)| <= StoredSizes(d.raw).0
    ensures Level(d.raw) == 2 ==> 26 + FirstLength(d.chain) <= d.stated && 26 + |Concat(d.chain)| <= d.stated + 2
    ensures Level(d.raw) == 3 ==> (32 + FirstLength(d.chain)) % 0x1_0000_0000 <= d.stated
    ensures Level(d.raw) == 3 && d.stated != 0 ==> 32 + |Concat(d.chain)| <= d.stated + 2
    ensures Level(d.raw) == 3 && d.stated == 0 ==> SizesLeaveRoom(3, d.chain, 0, StoredSizes(d.raw))
    ensures d.system.None? ==> Level(d.raw) == 0 && d.area == []
    ensures Level(d.raw) == 2 ==> Padding(2, d.stated, 26 + |Concat(d.chain)|) == Some(|d.pad|)
    ensures Level(d.raw) != 2 ==> d.pad == []
  {
    hide AllCleared, OneCommon, U32, ShortBody, SizesLeaveRoom;
    if Level(d.raw) == 2 { PaddedLength(d.stated, 26 + |Concat(d.chain)|); }
  }

  lemma PaddedLength(stated: nat, len: nat)
    requires Padding(2, stated, len).Some?
    ensures len <= stated + 2
  {
  }

  function WriteBase(d: Draft): seq<byte>
    requires |d.filename| < 0x100 && FirstLength(d.chain) < 0x1_0000_0000
    requires d.stated < 0x1_0000_0000 && Level(d.raw) <= 3
    requires Level(d.raw) < 3 ==> FirstLength(d.chain) < 0x10000 && d.stated < 0x10000
    requires Level(d.raw) < 2 ==> |ShortBody(d)| < 0x100
  {
    match Level(d.raw)
    case 3 =>
      [4, 0] + d.raw + CrcBytes(d.fileCrc) + [OsType(d)] + Bytes32(d.stated) + Bytes32(FirstLength(d.chain))
    case 2 =>
      Bytes16(d.stated) + d.raw + CrcBytes(d.fileCrc) + [OsType(d)] + Bytes16(FirstLength(d.chain))
    case _ =>
      var body := ShortBody(d);
      [|body|, ByteSum(body)] + body
  }

  /** The fields of a draft as they are read. */
  function BaseOfDraft(d: Draft): Base {
    Base(d.raw, d.filename, d.fileCrc, OsType(d), d.area, d.stated, FirstLength(d.chain))
  }

  lemma ShortBodyParts(d: Draft)
    requires |d.filename| < 0x100 && FirstLength(d.chain) < 0x10000 && Level(d.raw) <= 1
    ensures var body, at := ShortBody(d), 20 + |d.filename|;
      var end := at + 2 + |SystemPart(d)|;
      && |body| == end + |LengthPart(d)| && body[..19] == d.raw
      && body[19] == |d.filename| && body[20..at] == d.filename
      && [body[at], body[at + 1]] == CrcBytes(d.fileCrc)
      && body[at + 2..end] == SystemPart(d) && body[end..] == LengthPart(d)
  {
    hide CrcBytes, LengthPart, SystemPart, FirstLength;
    var at, crc := 20 + |d.filename|, CrcBytes(d.fileCrc);
    var head := d.raw + [|d.filename|] + d.filename;
    assert ShortBody(d) == head + crc + SystemPart(d) + LengthPart(d);
    assert head[..19] == d.raw && head[20..at] == d.filename;
    assert (head + crc + SystemPart(d) + LengthPart(d))[at..at + 2] == crc;
  }

  lemma ShortFieldsAreRead(d: Draft, b: seq<byte>)
    requires Level(d.raw) <= 1 && |d.filename| < 0x100 && FirstLength(d.chain) < 0x10000 && d.stated == 0
    requires (Level(d.raw) == 0 ==> d.chain == []) && (d.system.None? ==> Level(d.raw) == 0 && d.area == [])
    requires var len := |ShortBody(d)|; len < 0x100 && |b| >= len + 2 && b[0] == len && b[2..len + 2] == ShortBody(d)
    ensures FieldsOf(b) == Some((BaseOfDraft(d), |ShortBody(d)| + 2))
  {
    hide CrcBytes, Bytes16, U16, Word, ShortBody;
    ShortBodyParts(d);
    CrcBytesAreRead(d.fileCrc);
    var body, at := ShortBody(d), 20 + |d.filename|;
    var len := |body|;
    var end := if Level(d.raw) == 0 then len else len - 2;
    SameSlice(b, body, 0, 19);
    SameSlice(b, body, 20, at);
    SameSlice(b, body, at + 2, end);
    if at + 2 != end {
      SameSlice(b, body, at + 3, end);
      assert body[at + 3..end] == SystemPart(d)[1..] && body[at + 2] == SystemPart(d)[0];
    }
    SameSlice(b, body, end, len);
    if Level(d.raw) == 1 { Bytes16AreRead(FirstLength(d.chain)); }
  }

  lemma ShortBaseIsRead(d: Draft, rest: seq<byte>)
    requires Writable(d) && Level(d.raw) <= 1
    ensures BaseOf(WriteBase(d) + rest) == Some((BaseOfDraft(d), |WriteBase(d)|))
  {
    hide ByteSum, ShortBody, Writable, FieldsOf;
    WritableParts(d);
    var b, len := WriteBase(d) + rest, |ShortBody(d)|;
    assert b[2..len + 2] == ShortBody(d);
    ShortFieldsAreRead(d, b);
  }

  lemma SameSlice(b: seq<byte>, body: seq<byte>, i: nat, j: nat)
    requires i <= j <= |body| && |body| + 2 <= |b| && b[2..|body| + 2] == body
    ensures b[i + 2..j + 2] == body[i..j]
    ensures forall k {:trigger body[k]} :: 0 <= k < |body| ==> b[k + 2] == body[k]
  {
    forall k | 0 <= k < |body| ensures b[k + 2] == body[k] {
      assert b[2..|body| + 2][k] == b[k + 2];
    }
  }

  lemma LongBaseIsRead(d: Draft, rest: seq<byte>)
    requires Writable(d) && Level(d.raw) >= 2
    ensures BaseOf(WriteBase(d) + rest) == Some((BaseOfDraft(d), |WriteBase(d)|))
  {
    hide CrcBytes, Bytes16, Bytes32, U16, U32, Word, ShortBody, Writable;
    WritableParts(d);
    CrcBytesAreRead(d.fileCrc);
    var b, first := WriteBase(d) + rest, FirstLength(d.chain);
    assert b[2..21] == d.raw && b[21..23] == CrcBytes(d.fileCrc);
    if Level(d.raw) == 2 {
      assert b[..2] == Bytes16(d.stated) && b[24..26] == Bytes16(first);
      Bytes16AreRead(d.stated);
      Bytes16AreRead(first);
    } else {
      assert b[24..28] == Bytes32(d.stated) && b[28..32] == Bytes32(first);
      Bytes32AreRead(d.stated);
      Bytes32AreRead(first);
    }
  }

  lemma BaseIsRead(d: Draft, rest: seq<byte>)
    requires Writable(d)
    ensures |d.filename| < 0x100 && BaseOf(WriteBase(d) + rest) == Some((BaseOfDraft(d), |WriteBase(d)|))
    ensures WriteBase(d)[0] != 0
  {
    hide Writable, BaseOf, ShortBody, Bytes32;
    WritableParts(d);
    if Level(d.raw) <= 1 { ShortBaseIsRead(d, rest); } else { LongBaseIsRead(d, rest); }
    if Level(d.raw) < 2 { ShortBodyParts(d); }
  }

  /** A header as bytes; the checksum goes into the common header, if there is one. */
  function WriteHeader(d: Draft): seq<byte>
    requires Writable(d)
  {
    WritableParts(d);
    var base := WriteBase(d);
    base + SealedBytes(d.chain, Crc(0, base + Concat(d.chain) + d.pad)) + d.pad
  }

  /** The header that a draft describes. */
  function HeaderOfDraft(d: Draft): LhaHeader
    requires Writable(d)
  {
    WritableParts(d);
    var sizes := if Level(d.raw) >= 2 then SizesOf(d.chain, StoredSizes(d.raw)) else StoredSizes(d.raw);
    LhaHeader(Level(d.raw), d.raw[..5], if Level(d.raw) == 1 then sizes.0 - |Concat(d.chain)| else sizes.0, sizes.1,
              d.filename, U32(d.raw[13..17]), OsType(d), d.fileCrc, d.area, FirstLength(d.chain), Concat(d.chain))
  }

  lemma RoomIsThere(d: Draft)
    requires Writable(d)
    ensures HasRoom(Level(d.raw), d.stated, |WriteBase(d)|, d.chain, Extra([], None, StoredSizes(d.raw)))
    ensures Padding(Level(d.raw), d.stated, |WriteBase(d)| + |Concat(d.chain)|) == Some(|d.pad|)
  {
    hide Writable, ShortBody, U32, CrcBytes, Bytes16, Bytes32, ByteSum, SizesLeaveRoom;
    WritableParts(d);
    if Level(d.raw) < 2 { TotalLeavesRoom(Level(d.raw), d.chain, 0, StoredSizes(d.raw)); }
  }

  /** The parts of a written header and what follows it. */
  lemma WrittenParts(d: Draft, rest: seq<byte>)
    requires Writable(d)
    ensures |d.filename| < 0x100 && AllCleared(d.chain)
    ensures var base, size, b := WriteBase(d), |Concat(d.chain)|, WriteHeader(d) + rest;
      var sealed := SealedBytes(d.chain, Crc(0, base + Concat(d.chain) + d.pad));
      && b == base + (sealed + (d.pad + rest)) && |WriteHeader(d)| == |base| + size + |d.pad|
      && b[..|base|] == base && b[|base|..] == sealed + (d.pad + rest)
      && b[|base| + size..|base| + size + |d.pad|] == d.pad
  {
    hide Writable, WriteBase, ShortBody, U32, Crc, AllCleared, OneCommon, Linked, HasCommon, SealedBytes;
    WritableParts(d);
    var base := WriteBase(d);
    SealedLength(d.chain, Crc(0, base + Concat(d.chain) + d.pad));
  }

  lemma FinishIsRead(d: Draft, b: seq<byte>, c: bv16)
    requires Writable(d) && |d.filename| < 0x100
    requires var base, size := WriteBase(d), |Concat(d.chain)|;
      && |base| + size + |d.pad| <= |b| && b[..|base|] == base && b[|base| + size..|base| + size + |d.pad|] == d.pad
      && c == Crc(0, base + Concat(d.chain) + d.pad)
    ensures var base := WriteBase(d);
      Finish(b, BaseOfDraft(d), |base|, Gained(Level(d.raw), d.chain, c, Extra([], None, StoredSizes(d.raw))))
        == Some((HeaderOfDraft(d), |base| + |Concat(d.chain)| + |d.pad|))
  {
    hide Writable, WriteBase, ShortBody, U32, Crc, Padding, HasRoom, AllCleared, OneCommon, Linked, HasCommon, SizesOf;
    WritableParts(d);
    RoomIsThere(d);
    assert [] + Concat(d.chain) == Concat(d.chain);
  }

  /** Any header that can be written is read back as what it was written from, and just its bytes are used. */
  lemma HeaderIsRead(d: Draft, rest: seq<byte>)
    requires Writable(d)
    ensures ParseHeader(WriteHeader(d) + rest) == Some((HeaderOfDraft(d), |WriteHeader(d)|))
  {
    hide Writable, WriteBase, WriteHeader, ShortBody, BaseOf, U32, Crc, Gather, Finish, Gained, Padding, HasRoom,
      AllCleared,
      OneCommon, Linked, HasCommon, HeaderOfDraft;
    WritableParts(d);
    WrittenParts(d, rest);
    var base := WriteBase(d);
    var c := Crc(0, base + Concat(d.chain) + d.pad);
    BaseIsRead(d, SealedBytes(d.chain, c) + (d.pad + rest));
    RoomIsThere(d);
    ChainIsRead(Level(d.raw), d.stated, |base|, d.chain, c, d.pad + rest, Extra([], None, StoredSizes(d.raw)));
    FinishIsRead(d, WriteHeader(d) + rest, c);
  }

  lemma StatedHasRoom(b: seq<byte>)
    requires BaseOf(b).Some? && b[20] >= 2
    ensures (BaseOf(b).value.1 + BaseOf(b).value.0.firstHeaderLen) % 0x1_0000_0000 <= BaseOf(b).value.0.longHeaderLen
    ensures BaseOf(b).value.0.firstHeaderLen < if b[20] == 2 then 0x10000 else 0x1_0000_0000
  {
    hide U16, U32;
  }

  lemma LevelIsThere(b: seq<byte>)
    requires BaseOf(b).Some?
    ensures b[20] == Level(BaseOf(b).value.0.raw)
  {
  }

  // ---- every header is one that can be written

  lemma Bytes16AreWritten(s: seq<byte>)
    requires |s| == 2
    ensures Bytes16(U16(s)) == s
  {
  }

  lemma Bytes32AreWritten(s: seq<byte>)
    requires |s| == 4
    ensures Bytes32(U32(s)) == s
  {
    hide Bytes16;
    var lo, hi := U16(s[..2]), U16(s[2..]);
    Bytes16AreWritten(s[..2]);
    Bytes16AreWritten(s[2..]);
    assert U32(s) % 0x10000 == lo && U32(s) / 0x10000 == hi;
    assert s == s[..2] + s[2..];
  }

  lemma WordSplits(lo: byte, hi: byte)
    ensures Word(lo, hi) >> 8 == ByteBits(hi) && Word(lo, hi) & 0xff == ByteBits(lo)
  {
    hide ByteBits;
  }

  lemma CrcBytesAreWritten(lo: byte, hi: byte)
    ensures CrcBytes(Word(lo, hi)) == [lo, hi]
  {
    hide ByteBits, LowByte, Word;
    var s := CrcBytes(Word(lo, hi));
    CrcBytesAreRead(Word(lo, hi));
    WordSplits(lo, hi);
    WordSplits(s[0], s[1]);
    BytesDiffer(lo, s[0]);
    BytesDiffer(hi, s[1]);
  }

  lemma {:induction false} LinkedCons(header: seq<byte>, chain: Chain, len32: bool, next: nat)
    requires |header| > CounterSize(len32) && Linked(chain, NextLength(header, len32), len32, next)
    ensures Linked([header] + chain, |header|, len32, next)
    decreases |chain|
  {
    hide NextLength;
    var longer := [header] + chain;
    if chain == [] {
      var none: Chain := [];
      assert longer[..0] == none && longer[0] == header && Linked(none, |header|, len32, |header|);
    } else {
      LinkedCons(header, chain[..|chain| - 1], len32, |chain[|chain| - 1]|);
      assert longer[..|chain|] == [header] + chain[..|chain| - 1];
    }
  }

  lemma CommonCons(header: seq<byte>, chain: Chain)
    requires |header| > 0 && OneCommon(chain) && (header[0] == EXT_HEADER_COMMON ==> !HasCommon(chain))
    ensures OneCommon([header] + chain)
  {
  }

  lemma ClearedCons(header: seq<byte>, chain: Chain)
    requires Cleared(header) && AllCleared(chain)
    ensures AllCleared([header] + chain)
  {
  }

  /** The bytes of a header are what is kept of them, with their own checksum put back. */
  lemma ClearIsSealed(header: seq<byte>, c: bv16)
    requires |header| >= 3 && (header[0] == EXT_HEADER_COMMON ==> c == Word(header[1], header[2]))
    ensures Cleared(Clear(header)) && Seal(Clear(header), c) == header
  {
    hide Word, CrcBytes;
    if header[0] == EXT_HEADER_COMMON {
      CrcBytesAreWritten(header[1], header[2]);
      assert Clear(header)[1 := header[1]][2 := header[2]] == header;
    }
  }

  /** A header in front of the room for the others. */
  lemma RoomCons(level: nat, long: nat, len: nat, header: seq<byte>, chain: Chain, e: Extra)
    requires |header| >= 3 && MayFollow(level, long, len, |header|, e)
    requires HasRoom(level, long, len + |header|, chain, AddHeader(level, e, header))
    ensures HasRoom(level, long, len, [Clear(header)] + chain, e)
  {
    hide Clear, AddHeader, SizesAfter;
    AddedHeader(level, e, header);
    AddedParts(level, e, header);
    ConcatFront(Clear(header), chain);
    assert ([Clear(header)] + chain)[1..] == chain;
  }

  /** What is gathered is a chain that could have been written, and its bytes are just those that would be. */
  lemma {:induction false} GatheredIsWritten(level: nat, long: nat, len: nat, b: seq<byte>, next: nat, e: Extra,
                                             c: bv16)
      returns (chain: Chain)
    requires Gather(level, long, len, b, next, e).Some?
    requires var r := Gather(level, long, len, b, next, e).value; r.crc.Some? ==> c == r.crc.value
    requires next == 0 && long != 0 ==> len <= long + 2
    ensures AllCleared(chain) && OneCommon(chain) && Linked(chain, next, level == 3, 0)
    ensures HasRoom(level, long, len, chain, e)
    ensures e.crc.Some? ==> !HasCommon(chain)
    ensures Gather(level, long, len, b, next, e).value == Gained(level, chain, c, e)
    ensures |SealedBytes(chain, c)| <= |b| && b[..|SealedBytes(chain, c)|] == SealedBytes(chain, c)
    decreases |b|
  {
    hide Clear, Seal, AddHeader, NextLength, OneCommon, HasCommon, SizesOf, HasRoom, MayFollow, Gained, Linked,
      AllCleared, Cleared, SizesLeaveRoom, Word;
    if next == 0 {
      chain := [];
      NothingGained(level, c, e);
      NothingWritten(level, long, len, e);
    } else {
      var header := b[..next];
      FollowsFit(level, long, len, next, e);
      AddedParts(level, e, header);
      AddedCrc(level, e, header);
      var tail := GatheredIsWritten(level, long, len + next, b[next..], NextLength(Clear(header), level == 3),
                                    AddHeader(level, e, header), c);
      chain := [Clear(header)] + tail;
      GainedCrc(level, tail, c, AddHeader(level, e, header));
      ClearIsSealed(header, c);
      ClearedCons(Clear(header), tail);
      CommonCons(Clear(header), tail);
      LinkedCons(Clear(header), tail, level == 3, 0);
      RoomCons(level, long, len, header, tail, e);
      assert chain[0] == Clear(header) && chain[1..] == tail;
      CommonFromFront(chain);
      FirstGained(level, chain, c, e);
      assert SealedBytes(chain, c) == header + SealedBytes(tail, c);
    }
  }

  lemma NothingWritten(level: nat, long: nat, len: nat, e: Extra)
    requires long != 0 ==> len <= long + 2
    ensures AllCleared([]) && OneCommon([]) && Linked([], 0, level == 3, 0) && HasRoom(level, long, len, [], e)
    ensures !HasCommon([])
  {
    var none: Chain := [];
    assert Concat(none) == [];
  }

  lemma AddedCrc(level: nat, e: Extra, header: seq<byte>)
    requires |header| >= 3
    ensures header[0] == EXT_HEADER_COMMON ==> AddHeader(level, e, header).crc == Some(Word(header[1], header[2]))
  {
  }

  lemma GainedCrc(level: nat, chain: Chain, c: bv16, e: Extra)
    requires e.crc.Some? ==> !HasCommon(chain)
    ensures e.crc.Some? ==> Gained(level, chain, c, e).crc == e.crc
  {
    hide HasCommon;
  }

  /** A draft with the fields read from the front of some bytes. */
  function DraftOf(base: Base, n: nat, chain: Chain, pad: seq<byte>): Draft {
    Draft(base.raw, base.filename, base.fileCrc,
          if Level(base.raw) == 0 && n == 24 + |base.filename| then None else Some(base.osType),
          base.extendedArea, chain, base.longHeaderLen, pad)
  }

  lemma CutShort(b: seq<byte>, at: nat, end: nat, n: nat)
    requires 22 <= at && at + 2 <= end <= n <= |b|
    ensures b[2..n] == b[2..21] + [b[21]] + b[22..at] + [b[at], b[at + 1]] + b[at + 2..end] + b[end..n]
    ensures b[at + 2..end] == if at + 2 == end then [] else [b[at + 2]] + b[at + 3..end]
  {
  }

  /** The places of the fields of levels 0 and 1; `end` is the end of the extended area. */
  lemma ShortPlaces(b: seq<byte>) returns (at: nat, end: nat)
    requires FieldsOf(b).Some? && b[20] <= 1
    ensures var (base, n) := FieldsOf(b).value;
      && n == b[0] as int + 2 && 22 <= at == 22 + b[21] as int && at + 2 <= end <= n <= |b|
      && base.raw == b[2..21] && base.filename == b[22..at] && base.fileCrc == Word(b[at], b[at + 1])
      && (if at + 2 == end then base.osType == 0 && base.extendedArea == [] && b[20] == 0
          else base.osType == b[at + 2] && base.extendedArea == b[at + 3..end])
      && base.longHeaderLen == 0
      && (if b[20] == 0 then end == n && base.firstHeaderLen == 0 else end + 2 == n && base.firstHeaderLen == U16(b[end..n]))
  {
    hide Word, U16;
    at := 22 + b[21];
    end := if b[20] == 1 then b[0] as int else b[0] as int + 2;
  }

  lemma ShortBodyIsWritten(b: seq<byte>, chain: Chain, pad: seq<byte>)
    requires FieldsOf(b).Some? && b[20] <= 1 && FirstLength(chain) == FieldsOf(b).value.0.firstHeaderLen
    ensures var (base, n) := FieldsOf(b).value;
      var d := DraftOf(base, n, chain, pad);
      && |base.filename| < 0x100 && FirstLength(chain) < 0x10000 && ShortBody(d) == b[2..n] && n == b[0] as int + 2
      && (d.system.None? ==> Level(base.raw) == 0 && d.area == [])
      && base.longHeaderLen == 0 && (Level(base.raw) == 0 ==> base.firstHeaderLen == 0)
  {
    hide Word, CrcBytes, U16, Bytes16, FieldsOf;
    var at, end := ShortPlaces(b);
    var n := FieldsOf(b).value.1;
    CrcBytesAreWritten(b[at], b[at + 1]);
    if b[20] == 1 { Bytes16AreWritten(b[end..n]); }
    CutShort(b, at, end, n);
  }

  lemma LongBaseIsWritten(b: seq<byte>, chain: Chain, pad: seq<byte>)
    requires FieldsOf(b).Some? && b[20] >= 2 && FirstLength(chain) == FieldsOf(b).value.0.firstHeaderLen
    ensures var (base, n) := FieldsOf(b).value;
      var d := DraftOf(base, n, chain, pad);
      && base.filename == [] && base.extendedArea == [] && d.system == Some(base.osType)
      && FirstLength(chain) < 0x1_0000_0000 && d.stated < 0x1_0000_0000
      && (b[20] == 2 ==> FirstLength(chain) < 0x10000 && d.stated < 0x10000 && d.stated % 0x100 == b[0])
      && n == (if b[20] == 2 then 26 else 32) && WriteBase(d) == b[..n]
  {
    hide Word, CrcBytes, U32, Bytes16, Bytes32, ShortBody;
    CrcBytesAreWritten(b[21], b[22]);
    if b[20] == 2 {
      Bytes16AreWritten(b[..2]);
      Bytes16AreWritten(b[24..26]);
      assert b[..26] == b[..2] + b[2..21] + [b[21], b[22]] + [b[23]] + b[24..26];
      assert b[..2][0] == b[0];
    } else {
      Bytes32AreWritten(b[24..28]);
      Bytes32AreWritten(b[28..32]);
      assert b[..32] == [b[0], b[1]] + b[2..21] + [b[21], b[22]] + [b[23]] + b[24..28] + b[28..32];
    }
  }

  lemma BaseIsFields(b: seq<byte>)
    requires BaseOf(b).Some?
    ensures FieldsOf(b) == BaseOf(b) && (b[20] < 2 ==> b[1] == ByteSum(b[2..BaseOf(b).value.1]))
  {
    hide ByteSum, FieldsOf;
  }

  /** The bytes of the fields are those that a draft with these fields is written with. */
  lemma BaseIsWritten(b: seq<byte>, chain: Chain, pad: seq<byte>)
    requires BaseOf(b).Some? && FirstLength(chain) == BaseOf(b).value.0.firstHeaderLen
    ensures var (base, n) := BaseOf(b).value;
      var d := DraftOf(base, n, chain, pad);
      && |d.filename| < 0x100 && FirstLength(d.chain) < 0x1_0000_0000 && d.stated < 0x1_0000_0000
      && (Level(d.raw) < 3 ==> FirstLength(d.chain) < 0x10000 && d.stated < 0x10000)
      && (Level(d.raw) < 2 ==> |ShortBody(d)| < 0x100 && d.stated == 0)
      && WriteBase(d) == b[..n] && (d.system.None? ==> Level(d.raw) == 0 && d.area == [])
      && (Level(d.raw) >= 2 ==> d.filename == [] && d.area == [] && n == (if Level(d.raw) == 2 then 26 else 32))
      && (Level(d.raw) == 2 ==> d.stated % 0x100 == b[0]) && (Level(d.raw) == 0 ==> FirstLength(chain) == 0)
  {
    hide FieldsOf, BaseOf, ShortBody, ByteSum, Bytes16, Bytes32, CrcBytes;
    BaseIsFields(b);
    var (base, n) := BaseOf(b).value;
    LevelIsThere(b);
    if b[20] < 2 {
      ShortBodyIsWritten(b, chain, pad);
      assert b[..n] == [b[0], b[1]] + b[2..n];
    } else {
      LongBaseIsWritten(b, chain, pad);
    }
  }

  /** What the checks behind the extra headers guarantee. */
  lemma Finished(b: seq<byte>, base: Base, n: nat, e: Extra)
    requires n + |e.headers| <= |b| && Finish(b, base, n, e).Some?
    ensures var (h, m) := Finish(b, base, n, e).value;
      var end := n + |e.headers|;
      && end <= m <= |b| && Padding(Level(base.raw), base.longHeaderLen, end) == Some(m - end)
      && (e.crc.Some? ==> e.crc.value == Crc(0, b[..n] + e.headers + b[end..m]))
      && (Level(base.raw) == 1 ==> |e.headers| <= e.sizes.0)
  {
    hide Crc, U32;
  }

  /** A draft with the fields, the chain and the padding of an accepted header can be written. */
  lemma DraftIsWritable(b: seq<byte>, chain: Chain, pad: seq<byte>)
    requires BaseOf(b).Some? && b[0] != 0
    requires AllCleared(chain) && OneCommon(chain) && Linked(chain, BaseOf(b).value.0.firstHeaderLen, b[20] == 3, 0)
    requires
      var (base, n) := BaseOf(b).value;
      && HasRoom(Level(base.raw), base.longHeaderLen, n, chain, Extra([], None, StoredSizes(base.raw)))
      && (Level(base.raw) == 1 ==> |Concat(chain)| <= StoredSizes(base.raw).0)
      && Padding(Level(base.raw), base.longHeaderLen, n + |Concat(chain)|) == Some(|pad|)
    ensures var (base, n) := BaseOf(b).value; Writable(DraftOf(base, n, chain, pad))
  {
    hide BaseOf, AllCleared, OneCommon, Linked, Concat, SizesLeaveRoom, StoredSizes, ShortBody, WriteBase;
    var (base, n) := BaseOf(b).value;
    LevelIsThere(b);
    FirstIsLinked(chain, base.firstHeaderLen, b[20] == 3);
    BaseIsWritten(b, chain, pad);
    if b[20] == 0 { NothingLinked(chain); }
    if b[20] >= 2 { StatedHasRoom(b); }
  }

  lemma NothingLinked(chain: Chain)
    requires FirstLength(chain) == 0 && AllCleared(chain)
    ensures chain == []
  {
  }

  lemma EmptyHasRoom(b: seq<byte>)
    requires BaseOf(b).Some?
    ensures var (base, n) := BaseOf(b).value;
      base.firstHeaderLen == 0 && base.longHeaderLen != 0 ==> n <= base.longHeaderLen + 2
  {
    hide ByteSum, U16, U32, Word;
  }

  lemma GainedHeaders(level: nat, chain: Chain, c: bv16, sizes: (nat, nat))
    ensures Gained(level, chain, c, Extra([], None, sizes)).headers == Concat(chain)
    ensures level < 2 ==> Gained(level, chain, c, Extra([], None, sizes)).sizes == sizes
  {
    assert [] + Concat(chain) == Concat(chain);
  }

  /** The chain of an accepted header, whose bytes lie between the fields and the padding. */
  lemma ChainOf(b: seq<byte>, base: Base, n: nat, e: Extra) returns (chain: Chain)
    requires ParseHeader(b).Some? && BaseOf(b) == Some((base, n))
    requires Gather(Level(base.raw), base.longHeaderLen, n, b[n..], base.firstHeaderLen,
                    Extra([], None, StoredSizes(base.raw)))
          == Some(e)
    ensures AllCleared(chain) && OneCommon(chain) && Linked(chain, base.firstHeaderLen, Level(base.raw) == 3, 0)
    ensures HasRoom(Level(base.raw), base.longHeaderLen, n, chain, Extra([], None, StoredSizes(base.raw)))
    ensures e.headers == Concat(chain) && (Level(base.raw) == 1 ==> |Concat(chain)| <= StoredSizes(base.raw).0)
    ensures var end, m := n + |e.headers|, ParseHeader(b).value.1;
      && end <= m <= |b| && Padding(Level(base.raw), base.longHeaderLen, end) == Some(m - end)
      && b[n..end] == SealedBytes(chain, Crc(0, b[..n] + e.headers + b[end..m]))
  {
    hide BaseOf, Gather, Gained, Finish, Padding, HasRoom, AllCleared, OneCommon, Linked, HasCommon, SealedBytes, Crc,
      U32;
    var end, m := n + |e.headers|, ParseHeader(b).value.1;
    Finished(b, base, n, e);
    EmptyHasRoom(b);
    var c := Crc(0, b[..n] + e.headers + b[end..m]);
    var level, e0 := Level(base.raw), Extra([], None, StoredSizes(base.raw));
    chain := GatheredIsWritten(level, base.longHeaderLen, n, b[n..], base.firstHeaderLen, e0, c);
    GainedHeaders(level, chain, c, StoredSizes(base.raw));
    SealedLength(chain, c);
    assert b[n..][..|e.headers|] == b[n..end];
  }

  /**
    Every accepted header is one that can be written: its bytes are just what some draft is written as. With
    `HeaderIsRead`, the headers accepted are exactly those written.
   */
  lemma HeaderIsWritten(b: seq<byte>) returns (d: Draft)
    requires ParseHeader(b).Some?
    ensures Writable(d)
    ensures var (h, m) := ParseHeader(b).value; WriteHeader(d) == b[..m] && HeaderOfDraft(d) == h
  {
    hide BaseOf, Gather, Finish, Padding, Writable, WriteBase, HeaderOfDraft, HasRoom, AllCleared, OneCommon, Linked,
      SealedBytes, Concat, Crc, U32, ShortBody;
    var (base, n) := BaseOf(b).value;
    var e0 := Extra([], None, StoredSizes(base.raw));
    var e := Gather(Level(base.raw), base.longHeaderLen, n, b[n..], base.firstHeaderLen, e0).value;
    var m := ParseHeader(b).value.1;
    var chain := ChainOf(b, base, n, e);
    var pad := b[n + |e.headers|..m];
    d := DraftOf(base, n, chain, pad);
    LevelIsThere(b);
    FirstIsLinked(chain, base.firstHeaderLen, b[20] == 3);
    DraftIsWritable(b, chain, pad);
    BaseIsWritten(b, chain, pad);
    assert b[..m] == b[..n] + b[n..n + |e.headers|] + pad;
    HeaderIsRead(d, b[m..]);
    assert b[..m] + b[m..] == b;
  }
}
