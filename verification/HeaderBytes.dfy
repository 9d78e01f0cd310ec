/** What an accepted header says, byte by byte. */
module HeaderBytes {
  import opened Wrappers
  import opened Sums
  import opened Crc16s
  import opened Headers
  import opened HeaderFormat
  import opened HeaderWriting

  // ---- numbers and checksums

  /** Numbers are stored with their lowest byte first. */
  lemma LittleEndian(s: seq<byte>)
    ensures var n: seq<nat> := s; |s| == 2 ==> U16(s) == n[0] + 0x100 * n[1]
    ensures var n: seq<nat> := s; |s| == 4 ==> U32(s) == n[0] + 0x100 * n[1] + 0x1_0000 * n[2] + 0x100_0000 * n[3]
    ensures var n: seq<nat> := s; |s| == 8 ==>
      U64(s) == n[0] + 0x100 * n[1] + 0x1_0000 * n[2] + 0x100_0000 * n[3] + 0x1_0000_0000 * n[4]
        + 0x100_0000_0000 * n[5] + 0x1_0000_0000_0000 * n[6] + 0x100_0000_0000_0000 * n[7]
  {
    if |s| == 8 {
      LittleEndian(s[..4]);
      LittleEndian(s[4..]);
    }
  }

  /** The first byte of a checksum is its lower half. */
  lemma WordHalves(lo: byte, hi: byte)
    ensures Word(lo, hi) & 0xff == ByteBits(lo) & 0xff && Word(lo, hi) >> 8 == ByteBits(hi) & 0xff
  {
    hide ByteBits;
  }

  // ---- the fields of an accepted header

  lemma RawIsThere(b: seq<byte>)
    requires BaseOf(b).Some?
    ensures 21 <= |b| && BaseOf(b).value.0.raw == b[2..21]
  {
    hide ByteSum, U16, U32, Word;
  }

  lemma RawFields(b: seq<byte>)
    requires |b| >= 21
    ensures var raw: RawBaseHeader := b[2..21];
      && raw[..5] == b[2..7] && raw[5..9] == b[7..11] && raw[9..13] == b[11..15] && raw[13..17] == b[15..19]
      && raw[18] == b[20]
  {
  }

  /** What every level keeps at the same place: the method, the time and the level. */
  lemma CommonFields(b: seq<byte>)
    requires ParseHeader(b).Some?
    ensures |b| >= 21 && b[20] <= 3
    ensures var h := ParseHeader(b).value.0;
      h.level == b[20] && h.compression == b[2..7] && h.lastModified == U32(b[15..19])
  {
    hide BaseOf, ParseHeader, Gathered, LengthHolds, U32, Crc;
    var base, n, e, chain, at := ParsedConsists(b);
    RawIsThere(b);
    RawFields(b);
  }

  /** At levels 0 and 1 the first byte tells where the fields end, and the second is the sum of those behind it. */
  lemma ShortBase(b: seq<byte>)
    requires BaseOf(b).Some? && |b| >= 21 && b[20] < 2
    ensures var len: nat, at: nat := b[0], 22 + b[21];
      && at + 3 * b[20] <= len && len + 2 <= |b| && BaseOf(b).value.1 == len + 2
      && b[1] == Sum(b[2..len + 2]) % 256
    ensures var base, len: nat, at: nat := BaseOf(b).value.0, b[0], 22 + b[21];
      && base.filename == b[22..at] && base.fileCrc == Word(b[at], b[at + 1]) && base.longHeaderLen == 0
      && base.osType == (if at == len then 0 else b[at + 2])
      && base.extendedArea == (if at == len then [] else b[at + 3..if b[20] == 1 then len else len + 2])
      && base.firstHeaderLen == if b[20] == 1 then U16(b[len..len + 2]) else 0
  {
    hide ByteSum, U16, Word;
    ByteSumIsSum(b[2..b[0] as int + 2]);
  }

  /** A header of level 0. */
  lemma LevelZero(b: seq<byte>)
    requires ParseHeader(b).Some? && |b| >= 21 && b[20] == 0
    ensures var m, len: nat, at: nat := ParseHeader(b).value.1, b[0], 22 + b[21];
      m == len + 2 <= |b| && at <= len && b[1] == Sum(b[2..m]) % 256
    ensures var (h, m) := ParseHeader(b).value;
      var len: nat, at: nat := b[0], 22 + b[21];
      && h.compressedSize == U32(b[7..11]) && h.originalSize == U32(b[11..15])
      && h.filename == b[22..at] && h.fileCrc == Word(b[at], b[at + 1])
      && h.osType == (if at == len then 0 else b[at + 2])
      && h.extendedArea == (if at == len then [] else b[at + 3..m])
      && h.firstHeaderLen == 0 && h.extraHeaders == []
  {
    hide BaseOf, ParseHeader, Linked, Kept, SizesOf, HasCommon, U32, Crc, Word;
    var base, n, e, chain, at := ParsedConsists(b);
    RawIsThere(b);
    RawFields(b);
    ShortBase(b);
    NoChain(chain, false);
  }

  /** A header of level 1: the stored size counts the extra headers too. */
  lemma LevelOne(b: seq<byte>)
    requires ParseHeader(b).Some? && |b| >= 21 && b[20] == 1
    ensures var len: nat, at: nat := b[0], 22 + b[21];
      at + 3 <= len && len + 2 <= |b| && b[1] == Sum(b[2..len + 2]) % 256
    ensures var (h, m) := ParseHeader(b).value;
      var len: nat, at: nat := b[0], 22 + b[21];
      && m == len + 2 + |h.extraHeaders|
      && h.compressedSize + |h.extraHeaders| == U32(b[7..11]) && h.originalSize == U32(b[11..15])
      && h.filename == b[22..at] && h.fileCrc == Word(b[at], b[at + 1])
      && h.osType == b[at + 2] && h.extendedArea == b[at + 3..len] && h.firstHeaderLen == U16(b[len..len + 2])
  {
    hide BaseOf, ParseHeader, Linked, Kept, SizesOf, HasCommon, U16, U32, Crc, Word;
    var base, n, e, chain, at := ParsedConsists(b);
    RawIsThere(b);
    RawFields(b);
    ShortBase(b);
  }

  lemma LongBase(b: seq<byte>)
    requires BaseOf(b).Some? && |b| >= 21 && b[20] >= 2
    ensures b[20] == 2 ==> |b| >= 26 && BaseOf(b) == Some((Base(b[2..21], [], Word(b[21], b[22]), b[23], [],
      U16(b[..2]), U16(b[24..26])), 26))
    ensures b[20] != 2 ==>
      && |b| >= 32 && b[20] == 3 && b[0] == 4 && b[1] == 0
      && BaseOf(b) == Some((Base(b[2..21], [], Word(b[21], b[22]), b[23], [], U32(b[24..28]), U32(b[28..32])), 32))
  {
    hide U16, U32, Word;
  }

  /** A header of level 2, which may state two bytes less than it has, and may have a byte of padding. */
  lemma LevelTwo(b: seq<byte>)
    requires ParseHeader(b).Some? && |b| >= 21 && b[20] == 2
    ensures |b| >= 26
    ensures var (h, m) := ParseHeader(b).value;
      && 26 + |h.extraHeaders| <= m <= 27 + |h.extraHeaders| && (m == U16(b[..2]) || m == U16(b[..2]) + 2)
      && h.filename == [] && h.fileCrc == Word(b[21], b[22]) && h.osType == b[23] && h.extendedArea == []
      && h.firstHeaderLen == U16(b[24..26])
  {
    hide BaseOf, ParseHeader, Gathered, U16, U32, Crc, Word;
    var base, n, e, chain, at := ParsedConsists(b);
    LongBase(b);
  }

  /** Without extra headers, level 2 must state its 26 bytes exactly, or one more that is there. */
  lemma LevelTwoAlone(b: seq<byte>)
    requires |b| >= 26 && b[20] == 2 && b[24] == 0 && b[25] == 0 && b[0] != 0
    ensures ParseHeader(b).Some? <==> U16(b[..2]) == 26 || (U16(b[..2]) == 27 && |b| >= 27)
  {
    hide U32, Crc, Word;
  }

  /** A header of level 3, whose lengths have four bytes. */
  lemma LevelThree(b: seq<byte>)
    requires ParseHeader(b).Some? && |b| >= 21 && b[20] == 3
    ensures |b| >= 32 && b[0] == 4 && b[1] == 0
    ensures var (h, m) := ParseHeader(b).value;
      && m == 32 + |h.extraHeaders| && (U32(b[24..28]) == 0 || m <= U32(b[24..28]) + 2)
      && h.filename == [] && h.fileCrc == Word(b[21], b[22]) && h.osType == b[23] && h.extendedArea == []
      && h.firstHeaderLen == U32(b[28..32])
  {
    hide BaseOf, ParseHeader, Gathered, U16, U32, Crc, Word;
    var base, n, e, chain, at := ParsedConsists(b);
    LongBase(b);
  }

  // ---- sizes

  lemma {:induction false} NoSizeHeader(chain: Chain, sizes: (nat, nat))
    requires forall k :: 0 <= k < |chain| ==> |chain[k]| < 17 || chain[k][0] != 0x42
    ensures SizesOf(chain, sizes) == sizes
  {
    if chain != [] { NoSizeHeader(chain[..|chain| - 1], sizes); }
  }

  lemma {:induction false} LastSizeHeader(chain: Chain, i: nat, sizes: (nat, nat))
    requires i < |chain| && |chain[i]| >= 17 && chain[i][0] == 0x42
    requires forall k :: i < k < |chain| ==> |chain[k]| < 17 || chain[k][0] != 0x42
    ensures SizesOf(chain, sizes) == (U64(chain[i][1..9]), U64(chain[i][9..17]))
  {
    hide U64;
    if i + 1 < |chain| { LastSizeHeader(chain[..|chain| - 1], i, sizes); }
  }

  /** What a header of level 2 or 3 consists of: the sizes are those of its chain. */
  lemma LongSizes(b: seq<byte>)
    requires ParseHeader(b).Some? && |b| >= 21 && b[20] >= 2
    ensures var h := ParseHeader(b).value.0;
      && Walk(h.extraHeaders, h.firstHeaderLen, b[20] == 3).Some?
      && (h.compressedSize, h.originalSize)
        == SizesOf(Walk(h.extraHeaders, h.firstHeaderLen, b[20] == 3).value, (U32(b[7..11]), U32(b[11..15])))
  {
    hide BaseOf, ParseHeader, Kept, HasCommon, Linked, SizesOf, LengthHolds, Walk, U32, Crc;
    var base, n, e, chain, at := ParsedConsists(b);
    RawIsThere(b);
    RawFields(b);
    WalkFindsChain(chain, base.firstHeaderLen, b[20] == 3);
  }

  /** At levels 2 and 3 the sizes are the stored ones, unless an extra header 0x42 gives others; the last one counts. */
  lemma SizesInBytes(b: seq<byte>)
    requires ParseHeader(b).Some? && |b| >= 21 && b[20] >= 2
    ensures var h := ParseHeader(b).value.0;
      && Walk(h.extraHeaders, h.firstHeaderLen, b[20] == 3).Some?
      && var chain := Walk(h.extraHeaders, h.firstHeaderLen, b[20] == 3).value;
      && ((forall k :: 0 <= k < |chain| ==> |chain[k]| < 17 || chain[k][0] != 0x42) ==>
            h.compressedSize == U32(b[7..11]) && h.originalSize == U32(b[11..15]))
      && (forall i ::
            (&& 0 <= i < |chain| && |chain[i]| >= 17 && chain[i][0] == 0x42
             && (forall k :: i < k < |chain| ==> |chain[k]| < 17 || chain[k][0] != 0x42)) ==>
            h.compressedSize == U64(chain[i][1..9]) && h.originalSize == U64(chain[i][9..17]))
  {
    hide ParseHeader, Walk, SizesOf, U32, U64;
    LongSizes(b);
    var h, sizes := ParseHeader(b).value.0, (U32(b[7..11]), U32(b[11..15]));
    var chain := Walk(h.extraHeaders, h.firstHeaderLen, b[20] == 3).value;
    if forall k :: 0 <= k < |chain| ==> |chain[k]| < 17 || chain[k][0] != 0x42 {
      NoSizeHeader(chain, sizes);
    }
    forall i | 0 <= i < |chain| && |chain[i]| >= 17 && chain[i][0] == 0x42
      && (forall k :: i < k < |chain| ==> |chain[k]| < 17 || chain[k][0] != 0x42)
      ensures h.compressedSize == U64(chain[i][1..9]) && h.originalSize == U64(chain[i][9..17])
    {
      LastSizeHeader(chain, i, sizes);
    }
  }

  // ---- extra headers

  /** Where the extra headers begin. */
  lemma ExtraPlace(b: seq<byte>) returns (base: Base, n: nat, e: Extra, at: nat)
    requires ParseHeader(b).Some?
    ensures |b| >= 21 && n == if b[20] < 2 then b[0] as int + 2 else if b[20] == 2 then 26 else 32
    ensures var (h, m) := ParseHeader(b).value;
      && Walk(h.extraHeaders, h.firstHeaderLen, b[20] == 3).Some?
      && h.extraHeaders == e.headers && n + |e.headers| <= m <= |b|
      && Kept(b[n..n + |e.headers|], e.headers, e.crc, at)
      && (e.crc.Some? <==> HasCommon(Walk(h.extraHeaders, h.firstHeaderLen, b[20] == 3).value))
      && (e.crc.Some? ==> e.crc.value == Crc(0, b[..n] + e.headers + b[n + |e.headers|..m]))
  {
    hide BaseOf, ParseHeader, Linked, SizesOf, LengthHolds, Walk, HasCommon, Kept, U16, U32, Crc, Word;
    var chain;
    base, n, e, chain, at := ParsedConsists(b);
    if b[20] < 2 { ShortBase(b); } else { LongBase(b); }
    WalkFindsChain(chain, base.firstHeaderLen, b[20] == 3);
  }

  /** If no extra header begins with a zero, the extra headers are the bytes behind the fields. */
  lemma ExtraAsStored(b: seq<byte>)
    requires ParseHeader(b).Some?
    ensures |b| >= 21
    ensures var (h, m) := ParseHeader(b).value;
      var n := if b[20] < 2 then b[0] as int + 2 else if b[20] == 2 then 26 else 32;
      && Walk(h.extraHeaders, h.firstHeaderLen, b[20] == 3).Some? && n + |h.extraHeaders| <= m <= |b|
      && var chain := Walk(h.extraHeaders, h.firstHeaderLen, b[20] == 3).value;
      (forall i :: 0 <= i < |chain| && |chain[i]| > 0 ==> chain[i][0] != 0x00) ==>
        h.extraHeaders == b[n..n + |h.extraHeaders|]
  {
    hide ParseHeader, Walk, Crc, Word;
    var base, n, e, at := ExtraPlace(b);
  }

  /**
    If one begins with a zero, the two bytes behind that are the checksum of the whole header, computed with zeros in
    their place.
   */
  lemma ExtraWithChecksum(b: seq<byte>) returns (at: nat)
    requires ParseHeader(b).Some?
    requires var h := ParseHeader(b).value.0;
      && |b| >= 21 && Walk(h.extraHeaders, h.firstHeaderLen, b[20] == 3).Some?
      && var chain := Walk(h.extraHeaders, h.firstHeaderLen, b[20] == 3).value;
      exists i :: 0 <= i < |chain| && |chain[i]| > 0 && chain[i][0] == 0x00
    ensures var (h, m) := ParseHeader(b).value;
      var n := if b[20] < 2 then b[0] as int + 2 else if b[20] == 2 then 26 else 32;
      && n + |h.extraHeaders| <= m <= |b| && 0 < at < at + 1 < |h.extraHeaders| && b[n + at - 1] == 0x00
      && h.extraHeaders == b[n..n + |h.extraHeaders|][at := 0][at + 1 := 0]
      && Word(b[n + at], b[n + at + 1]) == Crc(0, b[..n] + h.extraHeaders + b[n + |h.extraHeaders|..m])
  {
    hide ParseHeader, Walk, Crc, Word;
    var base, n, e, k := ExtraPlace(b);
    at := k;
  }

  /** A header ends with the length of the next, in two bytes or, at level 3, in four; the others are its contents. */
  lemma PayloadsAreFound(p: seq<byte>, n: nat)
    requires |p| > 0
    ensures n < 0x10000 ==> Payload(p + Bytes16(n), false) == p && NextLength(p + Bytes16(n), false) == n
    ensures n < 0x1_0000_0000 ==> Payload(p + Bytes32(n), true) == p && NextLength(p + Bytes32(n), true) == n
  {
    hide U16, U32, Bytes16, Bytes32;
    if n < 0x10000 {
      Bytes16AreRead(n);
      assert (p + Bytes16(n))[|p|..] == Bytes16(n);
    }
    if n < 0x1_0000_0000 {
      Bytes32AreRead(n);
      assert (p + Bytes32(n))[|p|..] == Bytes32(n);
    }
  }
}
