/** Which of the lengths that headers of levels 2 and 3 state for themselves are the real ones. */
module HeaderLengths {
  import opened Wrappers
  import opened Crc16s
  import opened Headers
  import opened HeaderFormat
  import opened HeaderWriting

  /** The length of the whole header that it states itself. */
  function StatedLength(b: seq<byte>): nat
    requires |b| >= 32 || (|b| >= 26 && b[20] != 3)
  {
    if b[20] == 3 then U32(b[24..28]) else U16(b[..2])
  }

  /** A header of the given level and stated length is read from these bytes. */
  ghost predicate ReadAs(b: seq<byte>, level: nat, stated: nat) {
    && ParseHeader(b).Some? && b[20] == level
    && (|b| >= 32 || (|b| >= 26 && level != 3)) && StatedLength(b) == stated
  }

  /** Every header that states this length at this level is that long. */
  ghost predicate Insists(level: nat, stated: nat) {
    forall b :: ReadAs(b, level, stated) ==> ParseHeader(b).value.1 == stated
  }

  /** A header of level 2 or 3 ends with its extra headers, or one byte later at level 2, whatever length it states. */
  lemma LengthRead(b: seq<byte>)
    requires ParseHeader(b).Some? && b[20] >= 2
    ensures |b| >= (if b[20] == 2 then 26 else 32)
    ensures var (h, m) := ParseHeader(b).value;
      var end := (if b[20] == 2 then 26 else 32) + |h.extraHeaders|;
      && BaseOf(b).Some? && BaseOf(b).value.0.longHeaderLen == StatedLength(b)
      && h.firstHeaderLen == BaseOf(b).value.0.firstHeaderLen
      && BaseOf(b).value.1 == (if b[20] == 2 then 26 else 32)
      && m == (if b[20] == 2 && StatedLength(b) == end + 1 then end + 1 else end)
      && (b[20] == 2 ==> StatedLength(b) == end || StatedLength(b) == end + 1 || StatedLength(b) + 2 == end)
  {
    hide Gather, U16, U32, Crc;
    ShortLengths(b);
  }

  /** The header is as long as it states exactly if its extra headers end there, or one byte before at level 2. */
  lemma WhenAsStated(b: seq<byte>)
    requires ParseHeader(b).Some? && b[20] >= 2
    ensures |b| >= (if b[20] == 2 then 26 else 32)
    ensures var (h, m) := ParseHeader(b).value;
      var end := (if b[20] == 2 then 26 else 32) + |h.extraHeaders|;
      m == StatedLength(b) <==> if b[20] == 2 then end <= StatedLength(b) else end == StatedLength(b)
  {
    hide ParseHeader, StatedLength, BaseOf;
    LengthRead(b);
  }

  /** A chain that is walked has one header, or at least one more of the shortest length. */
  lemma WalkLength(data: seq<byte>, first: nat, len32: bool)
    requires Walk(data, first, len32).Some?
    ensures if first == 0 then data == [] else |data| == first > CounterSize(len32) || |data| > first + CounterSize(len32)
  {
    hide NextLength;
  }

  lemma FirstFits(b: seq<byte>)
    requires ParseHeader(b).Some? && BaseOf(b).Some? && BaseOf(b).value.0.firstHeaderLen != 0
    ensures var (base, n) := BaseOf(b).value;
      MayFollow(Level(base.raw), base.longHeaderLen, n, base.firstHeaderLen, Extra([], None, StoredSizes(base.raw)))
  {
    hide BaseOf, Finish;
  }

  /** Up to 29 bytes there is no second extra header, and the first is counted in the stated length. */
  lemma ShortStatedLength2(b: seq<byte>, stated: nat)
    requires ReadAs(b, 2, stated) && stated < 30
    ensures ParseHeader(b).value.1 == stated
  {
    hide ParseHeader, StatedLength, BaseOf;
    LengthRead(b);
    ParsedWalks(b);
    var h := ParseHeader(b).value.0;
    WalkLength(h.extraHeaders, h.firstHeaderLen, false);
    StatedHasRoom(b);
  }

  /** Up to 32 bytes there is no extra header. */
  lemma ShortStatedLength3(b: seq<byte>, stated: nat)
    requires ReadAs(b, 3, stated) && 0 < stated <= 32
    ensures ParseHeader(b).value.1 == stated
  {
    hide ParseHeader, StatedLength, BaseOf;
    LengthRead(b);
    ParsedWalks(b);
    var h := ParseHeader(b).value.0;
    WalkLength(h.extraHeaders, h.firstHeaderLen, true);
    StatedHasRoom(b);
    if h.firstHeaderLen != 0 { FirstFits(b); }
  }

  lemma ParsedWalks(b: seq<byte>)
    requires ParseHeader(b).Some?
    ensures var h := ParseHeader(b).value.0;
      h.level == b[20] && Walk(h.extraHeaders, h.firstHeaderLen, h.level == 3).Some?
  {
    hide ParseHeader, Walk;
    ParsedIsAccepted(b);
  }

  /** Fixed fields of a level, with the largest sizes. */
  function Fixed(level: byte): RawBaseHeader {
    [45, 108, 104, 48, 45, 255, 255, 255, 255, 255, 255, 255, 255, 0, 0, 0, 0, 0, level]
  }

  /** A file name header of n bytes that announces one of `next` bytes. */
  function NameHeader(n: nat, next: seq<byte>): (h: seq<byte>)
    requires |next| < n
    ensures |h| == n
  {
    [EXT_HEADER_FILENAME] + seq(n - 1 - |next|, _ => 0 as byte) + next
  }

  /** No header of level 2 states a multiple of 256: its first byte would be zero. */
  lemma NoMultiple(b: seq<byte>, stated: nat)
    requires ReadAs(b, 2, stated)
    ensures stated % 0x100 != 0
  {
    hide ParseHeader;
    assert b[..2][0] == b[0];
  }

  /** A draft that states more than it has, or less. */
  function Misstated(level: byte, stated: nat): Draft {
    Draft(Fixed(level), [], 0, Some(0), [],
          if level == 2 && stated >= 30 then
            [NameHeader(3, Bytes16((stated - 27) % 0x10000)), NameHeader(stated - 27, [0, 0])]
          else if stated == 0 then [NameHeader(0xffff_ffe0, [0, 0, 0, 0])] else [],
          stated, [])
  }

  lemma LastOf(n: nat, next: seq<byte>)
    requires |next| < n
    ensures NameHeader(n, next)[n - |next|..] == next && NameHeader(n, next)[0] == EXT_HEADER_FILENAME
  {
  }

  lemma FixedSizes(level: byte)
    ensures StoredSizes(Fixed(level)) == (0xffff_ffff, 0xffff_ffff)
  {
    var raw := Fixed(level);
    assert raw[5..9] == [255, 255, 255, 255] && raw[9..13] == [255, 255, 255, 255];
  }

  lemma OneHeader(h: seq<byte>, len32: bool)
    requires |h| > CounterSize(len32) && NextLength(h, len32) == 0
    ensures Linked([h], |h|, len32, 0) && Concat([h]) == h
  {
    var none: Chain := [];
    assert [h][..0] == none;
    assert Linked(none, |h|, len32, |h|) && Concat(none) == [];
  }

  lemma Misstated3IsWritable(stated: nat)
    requires stated < 0x1_0000_0000 && (stated == 0 || stated > 32)
    ensures Writable(Misstated(3, stated))
    ensures |Concat(Misstated(3, stated).chain)| == if stated == 0 then 0xffff_ffe0 else 0
  {
    hide NameHeader, StoredSizes;
    FixedSizes(3);
    if stated == 0 {
      LastOf(0xffff_ffe0, [0, 0, 0, 0]);
      var h := NameHeader(0xffff_ffe0, [0, 0, 0, 0]);
      OneHeader(h, true);
      var none: Chain := [];
      assert [h][1..] == none;
      assert SizesLeaveRoom(3, [h], 0, (0xffff_ffff, 0xffff_ffff));
    }
  }

  lemma Misstated2IsWritable(stated: nat)
    requires 30 <= stated < 0x10000 && stated % 0x100 != 0
    ensures Writable(Misstated(2, stated)) && |Concat(Misstated(2, stated).chain)| == stated - 24
  {
    hide NameHeader, StoredSizes, Bytes16, Linked, Concat, U16;
    var a, z := NameHeader(3, Bytes16(stated - 27)), NameHeader(stated - 27, [0, 0]);
    LastOf(3, Bytes16(stated - 27));
    LastOf(stated - 27, [0, 0]);
    Bytes16AreRead(stated - 27);
    NoNext();
    TwoHeaders(a, z, false);
  }

  lemma NoNext()
    ensures U16([0, 0]) == 0
  {
  }

  lemma TwoHeaders(a: seq<byte>, z: seq<byte>, len32: bool)
    requires |a| > CounterSize(len32) && |z| > CounterSize(len32)
    requires NextLength(a, len32) == |z| && NextLength(z, len32) == 0
    ensures Linked([a, z], |a|, len32, 0) && Concat([a, z]) == a + z
  {
    hide NextLength;
    var none: Chain := [];
    assert [a, z][..1] == [a] && [a][..0] == none;
    assert Linked(none, |a|, len32, |a|) && Linked([a], |a|, len32, |z|);
    ConcatSnoc([a], z);
    ConcatSnoc(none, a);
    assert [a] + [z] == [a, z] && none + [a] == [a];
  }

  /** A header that is written states what its draft says. */
  lemma WrittenStates(d: Draft)
    requires Writable(d) && Level(d.raw) >= 2
    ensures ReadAs(WriteHeader(d), Level(d.raw), d.stated)
    ensures ParseHeader(WriteHeader(d)).value.1 == (if Level(d.raw) == 2 then 26 else 32) + |Concat(d.chain)| + |d.pad|
  {
    hide Writable, ParseHeader, WriteHeader, StatedLength, BaseOf, HeaderOfDraft;
    DraftLength(d);
    HeaderIsRead(d, []);
    assert WriteHeader(d) + [] == WriteHeader(d);
    WrittenBase(d);
    LevelIsThere(WriteHeader(d));
    LengthRead(WriteHeader(d));
  }

  lemma WrittenBase(d: Draft)
    requires Writable(d)
    ensures BaseOf(WriteHeader(d)).Some? && BaseOf(WriteHeader(d)).value.0 == BaseOfDraft(d)
  {
    hide Writable, WriteBase, ShortBody, BaseOf, SealedBytes, Crc, AllCleared;
    WritableParts(d);
    var c := Crc(0, WriteBase(d) + Concat(d.chain) + d.pad);
    BaseIsRead(d, SealedBytes(d.chain, c) + d.pad);
    assert WriteHeader(d) == WriteBase(d) + (SealedBytes(d.chain, c) + d.pad);
  }

  lemma DraftLength(d: Draft)
    requires Writable(d) && Level(d.raw) >= 2
    ensures |WriteHeader(d)| == (if Level(d.raw) == 2 then 26 else 32) + |Concat(d.chain)| + |d.pad|
    ensures HeaderOfDraft(d).extraHeaders == Concat(d.chain)
  {
    hide Writable, ShortBody, Crc, AllCleared, SealedBytes, Bytes16, Bytes32, CrcBytes, SizesOf, U32;
    WritableParts(d);
    SealedLength(d.chain, Crc(0, WriteBase(d) + Concat(d.chain) + d.pad));
  }

  /**
    Which stated lengths are always the real ones, for levels 2 and 3: at level 3 only a length of 32 is (and none
    between is accepted), at level 2 those up to 29; for any other, a header is accepted that is not as long as it
    states. No header of level 2 states a multiple of 256.
   */
  lemma WhichLengthsAreExact(level: byte, stated: nat)
    requires (level == 2 && stated < 0x10000) || (level == 3 && stated < 0x1_0000_0000)
    ensures Insists(level, stated) <==> if level == 2 then stated < 30 || stated % 0x100 == 0 else 0 < stated <= 32
  {
    hide ParseHeader, Writable, WriteHeader, Concat, StatedLength, Misstated;
    if level == 2 && 30 <= stated && stated % 0x100 != 0 {
      Misstated2IsWritable(stated);
      MisstatedParts(level, stated);
      WrittenStates(Misstated(2, stated));
    } else if level == 3 && (stated == 0 || stated > 32) {
      Misstated3IsWritable(stated);
      MisstatedParts(level, stated);
      WrittenStates(Misstated(3, stated));
    } else {
      forall b | ReadAs(b, level, stated) ensures ParseHeader(b).value.1 == stated {
        if level == 3 {
          ShortStatedLength3(b, stated);
        } else {
          NoMultiple(b, stated);
          ShortStatedLength2(b, stated);
        }
      }
    }
  }

  lemma MisstatedParts(level: byte, stated: nat)
    ensures var d := Misstated(level, stated); Level(d.raw) == level && d.stated == stated && d.pad == []
  {
  }

  /** Thirty-two bytes that state a length of forty at level 3. */
  const SHORT_OF_ITS_LENGTH: seq<byte> :=
    [4, 0, 45, 108, 104, 48, 45, 0, 0, 0, 0, 0, 0, 0, 0, 0, 0, 0, 0, 0, 3, 0, 0, 77, 40, 0, 0, 0, 0, 0, 0, 0]

  /** They are accepted as a header of thirty-two bytes. */
  lemma ShorterThanStated()
    ensures StatedLength(SHORT_OF_ITS_LENGTH) == 40
    ensures ParseHeader(SHORT_OF_ITS_LENGTH).Some? && ParseHeader(SHORT_OF_ITS_LENGTH).value.1 == 32
  {
    var b := SHORT_OF_ITS_LENGTH;
    assert b[24..28] == [40, 0, 0, 0] && b[28..32] == [0, 0, 0, 0];
    assert |b| == 32 && b[0] == 4 && b[1] == 0 && b[20] == 3;
    var base := BaseOf(b).value.0;
    var e := Extra([], None, StoredSizes(base.raw));
    assert BaseOf(b) == Some((base, 32)) && base.firstHeaderLen == 0;
    assert Gather(3, base.longHeaderLen, 32, b[32..], 0, e) == Some(e);
  }
}
