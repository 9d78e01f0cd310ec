/** What a header says, as a function of the bytes it is read from. */
module HeaderFormat {
  import opened Wrappers
  import opened Crc16s
  import opened Headers

  datatype LhaHeader = LhaHeader(level: nat, compression: seq<byte>, compressedSize: nat, originalSize: nat,
                                 filename: seq<byte>, lastModified: nat, osType: byte, fileCrc: bv16,
                                 extendedArea: seq<byte>, firstHeaderLen: nat, extraHeaders: seq<byte>)

  /** The fixed fields: compression, both sizes, time, attributes and level. */
  type RawBaseHeader = s: seq<byte> | |s| == 19 witness [0, 0, 0, 0, 0, 0, 0, 0, 0, 0, 0, 0, 0, 0, 0, 0, 0, 0, 0]

  function Level(raw: RawBaseHeader): nat {
    raw[18]
  }

  /** The compressed and the original size as the fixed fields give them. */
  function StoredSizes(raw: RawBaseHeader): (nat, nat) {
    (U32(raw[5..9]), U32(raw[9..13]))
  }

  /** What is read before the extra headers. */
  datatype Base = Base(raw: RawBaseHeader, filename: seq<byte>, fileCrc: bv16, osType: byte, extendedArea: seq<byte>,
                       longHeaderLen: nat, firstHeaderLen: nat)

  /** What is read from the extra headers. */
  datatype Extra = Extra(headers: seq<byte>, crc: Option<bv16>, sizes: (nat, nat))

  // ---- the fields before the extra headers

  /** How many bytes tell the lengths of the whole header and of the first extra header. */
  function LengthSize(level: nat): nat {
    match level case 0 => 0 case 3 => 8 case _ => 2
  }

  /**
    Levels 0 and 1, with the number of bytes they take. The first byte gives their number, without itself and the
    second byte. At level 0 the system is the first byte of the extended area.
   */
  function ShortFields(b: seq<byte>): Option<(Base, nat)>
    requires |b| >= 21 && b[20] <= 1
  {
    var len: nat, level: nat := b[0], b[20];
    if |b| < len + 2 || len < 22 || len < 22 + b[21] as int + 3 * level then None
    else
      var at: nat := 22 + b[21];
      var crc := Word(b[at], b[at + 1]);
      var base :=
        if level == 1 then Base(b[2..21], b[22..at], crc, b[at + 2], b[at + 3..len], 0, U16(b[len..len + 2]))
        else if at == len then Base(b[2..21], b[22..at], crc, 0, [], 0, 0)
        else Base(b[2..21], b[22..at], crc, b[at + 2], b[at + 3..len + 2], 0, 0);
      Some((base, len + 2))
  }

  /** Levels 2 and 3, with the number of bytes they take. */
  function LongFields(b: seq<byte>): Option<(Base, nat)>
    requires |b| >= 21 && 2 <= b[20] <= 3
  {
    if b[20] == 2 then
      if |b| < 26 then None
      else Some((Base(b[2..21], [], Word(b[21], b[22]), b[23], [], U16(b[..2]), U16(b[24..26])), 26))
    else
      if |b| < 32 || b[0] != 4 || b[1] != 0 then None
      else Some((Base(b[2..21], [], Word(b[21], b[22]), b[23], [], U32(b[24..28]), U32(b[28..32])), 32))
  }

  function FieldsOf(b: seq<byte>): (r: Option<(Base, nat)>)
    ensures r.Some? ==> 21 <= r.value.1 <= |b| && Level(r.value.0.raw) == b[20] <= 3
  {
    if |b| < 21 || b[20] > 3 then None else if b[20] < 2 then ShortFields(b) else LongFields(b)
  }

  /**
    The fields, if they pass the check in front of the extra headers: of levels 0 and 1, the wrapping sum; of levels 2
    and 3, the room that the stated length leaves for the first extra header, added up with 32 bits.
   */
  function BaseOf(b: seq<byte>): (r: Option<(Base, nat)>)
    ensures r.Some? ==> 21 <= r.value.1 <= |b| && Level(r.value.0.raw) == b[20] <= 3
  {
    match FieldsOf(b)
    case None => None
    case Some((base, n)) =>
      if b[20] < 2 then if b[1] == ByteSum(b[2..n]) then Some((base, n)) else None
      else if base.longHeaderLen < (n + base.firstHeaderLen) % 0x1_0000_0000 then None else Some((base, n))
  }

  lemma ShortFieldsPrefix(b: seq<byte>, m: nat)
    requires |b| >= 21 && b[20] <= 1 && ShortFields(b).Some? && ShortFields(b).value.1 <= m <= |b|
    ensures ShortFields(b[..m]) == ShortFields(b)
  {
    hide U16, Word;
    var c, len, at := b[..m], b[0] as int, 22 + b[21] as int;
    assert c[2..21] == b[2..21] && c[22..at] == b[22..at];
    if b[20] == 1 {
      assert c[at + 3..len] == b[at + 3..len] && c[len..len + 2] == b[len..len + 2];
    } else if at != len {
      assert c[at + 3..len + 2] == b[at + 3..len + 2];
    }
  }

  lemma LongFieldsPrefix(b: seq<byte>, m: nat)
    requires |b| >= 21 && 2 <= b[20] <= 3 && LongFields(b).Some? && LongFields(b).value.1 <= m <= |b|
    ensures LongFields(b[..m]) == LongFields(b)
  {
    hide U16, U32, Word;
    var c := b[..m];
    assert c[2..21] == b[2..21] && c[..2] == b[..2] && c[24..26] == b[24..26];
    if b[20] == 3 { assert c[24..28] == b[24..28] && c[28..32] == b[28..32]; }
  }

  lemma FieldsOfPrefix(b: seq<byte>, m: nat)
    requires FieldsOf(b).Some? && FieldsOf(b).value.1 <= m <= |b|
    ensures FieldsOf(b[..m]) == FieldsOf(b)
  {
    hide ShortFields, LongFields;
    if b[20] < 2 { ShortFieldsPrefix(b, m); } else { LongFieldsPrefix(b, m); }
  }

  /** The fields are determined by the bytes they take. */
  lemma BaseOfPrefix(b: seq<byte>, m: nat)
    requires BaseOf(b).Some? && BaseOf(b).value.1 <= m <= |b|
    ensures BaseOf(b[..m]) == BaseOf(b)
  {
    hide ByteSum, FieldsOf;
    FieldsOfPrefix(b, m);
    var n := BaseOf(b).value.1;
    assert b[..m][2..n] == b[2..n];
  }

  // ---- extra headers

  /** A header as kept: the checksum in a common header is set to zero. */
  function Clear(header: seq<byte>): (r: seq<byte>)
    requires |header| >= 3
    ensures |r| == |header| && r[0] == header[0]
  {
    if header[0] == EXT_HEADER_COMMON then header[1 := 0][2 := 0] else header
  }

  predicate IsSize(header: seq<byte>) {
    |header| >= 17 && header[0] == EXT_HEADER_MSDOS_SIZE
  }

  /** The sizes once a header has been read: a size header of levels 2 and 3 gives new ones. */
  function SizesAfter(header: seq<byte>, sizes: (nat, nat)): (nat, nat) {
    if IsSize(header) then (U64(header[1..9]), U64(header[9..17])) else sizes
  }

  /** The sizes that the last size header of a chain gives, if there is one. */
  function SizesOf(chain: Chain, sizes: (nat, nat)): (nat, nat) {
    if chain == [] then sizes else SizesAfter(chain[|chain| - 1], SizesOf(chain[..|chain| - 1], sizes))
  }

  function AddHeader(level: nat, e: Extra, header: seq<byte>): Extra
    requires |header| >= 3
  {
    var kept := Clear(header);
    Extra(e.headers + kept,
          if header[0] == EXT_HEADER_COMMON then Some(Word(header[1], header[2])) else e.crc,
          if level >= 2 then SizesAfter(kept, e.sizes) else e.sizes)
  }

  /** Whether a header of that length may follow the first `len` bytes. */
  predicate MayFollow(level: nat, long: nat, len: nat, next: nat, e: Extra) {
    && next > CounterSize(level == 3)
    && if long != 0 then long + 2 >= len + next else e.sizes.0 >= |e.headers| + next
  }

  /** The extra headers from those that follow the first `len` bytes; the first of them is `next` bytes long. */
  ghost function Gather(level: nat, long: nat, len: nat, b: seq<byte>, next: nat, e: Extra): (r: Option<Extra>)
    ensures r.Some? ==> |e.headers| <= |r.value.headers| <= |e.headers| + |b|
    decreases |b|
  {
    if next == 0 then Some(e)
    else if !MayFollow(level, long, len, next, e) || next > |b| || (b[0] == EXT_HEADER_COMMON && e.crc.Some?) then None
    else
      var header := b[..next];
      Gather(level, long, len + next, b[next..], NextLength(Clear(header), level == 3), AddHeader(level, e, header))
  }

  // ---- the whole header

  /** How many bytes follow headers of a total length: level 2 may have one of padding, or not count itself. */
  function Padding(level: nat, long: nat, len: nat): Option<nat> {
    if level != 2 || long == len || long + 2 == len then Some(0) else if long == len + 1 then Some(1) else None
  }

  /** The header that is put together from its parts. */
  function HeaderOf(base: Base, e: Extra): LhaHeader
    requires Level(base.raw) == 1 ==> |e.headers| <= e.sizes.0
  {
    LhaHeader(Level(base.raw), base.raw[..5], if Level(base.raw) == 1 then e.sizes.0 - |e.headers| else e.sizes.0,
              e.sizes.1, base.filename, U32(base.raw[13..17]), base.osType, base.fileCrc, base.extendedArea,
              base.firstHeaderLen, e.headers)
  }

  /** The checks behind the extra headers, which end after `len` bytes: the header, and its length with padding. */
  ghost function Finish(b: seq<byte>, base: Base, n: nat, e: Extra): Option<(LhaHeader, nat)>
    requires n + |e.headers| <= |b|
  {
    var len := n + |e.headers|;
    match Padding(Level(base.raw), base.longHeaderLen, len)
    case None => None
    case Some(p) =>
      if |b| < len + p || (e.crc.Some? && e.crc.value != Crc(0, b[..n] + e.headers + b[len..len + p])) then None
      else if Level(base.raw) == 1 && |e.headers| > e.sizes.0 then None
      else Some((HeaderOf(base, e), len + p))
  }

  /** The header at the front of an archive, and how long it is. A zero byte is the end of the archive. */
  ghost function ParseHeader(b: seq<byte>): (r: Option<(LhaHeader, nat)>)
    ensures r.Some? ==> 21 <= r.value.1 <= |b| && b[0] != 0
  {
    if b == [] || b[0] == 0 then None
    else match BaseOf(b)
      case None => None
      case Some((base, n)) =>
        match Gather(Level(base.raw), base.longHeaderLen, n, b[n..], base.firstHeaderLen,
                   Extra([], None, StoredSizes(base.raw)))
        case None => None
        case Some(e) => Finish(b, base, n, e)
  }

  // ---- what an accepted header promises

  predicate HasCommon(chain: Chain) {
    exists i :: 0 <= i < |chain| && |chain[i]| > 0 && chain[i][0] == EXT_HEADER_COMMON
  }

  /** The kept headers are the bytes read, except for a checksum at index `at`, if one was found. */
  ghost predicate Kept(raw: seq<byte>, extra: seq<byte>, crc: Option<bv16>, at: nat) {
    && |raw| == |extra|
    && match crc
       case None => extra == raw
       case Some(c) =>
         && 0 < at && at + 2 <= |raw| && raw[at - 1] == EXT_HEADER_COMMON
         && extra == raw[at := 0][at + 1 := 0] && c == Word(raw[at], raw[at + 1])
  }

  lemma KeptGrows(raw: seq<byte>, extra: seq<byte>, crc: Option<bv16>, at: nat, header: seq<byte>)
    requires Kept(raw, extra, crc, at) && |header| >= 3
    ensures header[0] != EXT_HEADER_COMMON ==> Kept(raw + header, extra + header, crc, at)
    ensures header[0] == EXT_HEADER_COMMON && crc.None? ==>
      Kept(raw + header, extra + Clear(header), Some(Word(header[1], header[2])), |raw| + 1)
  {
    if header[0] == EXT_HEADER_COMMON {
      if crc.None? {
        var at := |raw| + 1;
        assert (raw + header)[at := 0][at + 1 := 0] == raw + header[1 := 0][2 := 0];
      }
    } else if crc.Some? {
      assert (raw + header)[at := 0][at + 1 := 0] == raw[at := 0][at + 1 := 0] + header;
    }
  }

  lemma ConcatSnoc(chain: Chain, header: seq<byte>)
    ensures Concat(chain + [header]) == Concat(chain) + header
  {
    assert (chain + [header])[..|chain|] == chain;
  }

  lemma LinkedSnoc(chain: Chain, first: nat, len32: bool, header: seq<byte>)
    requires Linked(chain, first, len32, |header|) && |header| > CounterSize(len32)
    ensures Linked(chain + [header], first, len32, NextLength(header, len32))
  {
    assert (chain + [header])[..|chain|] == chain;
  }

  lemma SizesSnoc(chain: Chain, header: seq<byte>, sizes: (nat, nat))
    ensures SizesOf(chain + [header], sizes) == SizesAfter(header, SizesOf(chain, sizes))
  {
    assert (chain + [header])[..|chain|] == chain;
  }

  lemma CommonSnoc(chain: Chain, header: seq<byte>)
    requires |header| > 0
    ensures HasCommon(chain + [header]) <==> HasCommon(chain) || header[0] == EXT_HEADER_COMMON
  {
    var longer := chain + [header];
    if HasCommon(chain) {
      var i :| 0 <= i < |chain| && |chain[i]| > 0 && chain[i][0] == EXT_HEADER_COMMON;
      assert longer[i] == chain[i];
    }
    assert longer[|chain|] == header;
  }

  /** The extra headers read so far, from bytes `raw`: a chain that announces a header of length `next`. */
  ghost predicate Gathered(level: nat, first: nat, sizes: (nat, nat), raw: seq<byte>, chain: Chain,
                           at: nat, e: Extra, next: nat) {
    && Linked(chain, first, level == 3, next) && e.headers == Concat(chain) && Kept(raw, e.headers, e.crc, at)
    && e.sizes == (if level >= 2 then SizesOf(chain, sizes) else sizes)
    && (e.crc.Some? <==> HasCommon(chain))
  }

  lemma GatheredGrows(level: nat, first: nat, sizes: (nat, nat), raw: seq<byte>, chain: Chain,
                      at: nat, e: Extra, header: seq<byte>)
    requires Gathered(level, first, sizes, raw, chain, at, e, |header|) && |header| > CounterSize(level == 3)
    requires header[0] == EXT_HEADER_COMMON ==> e.crc.None?
    ensures Gathered(level, first, sizes, raw + header, chain + [Clear(header)],
                     if header[0] == EXT_HEADER_COMMON then |raw| + 1 else at,
                     AddHeader(level, e, header), NextLength(Clear(header), level == 3))
  {
    hide Kept, Linked, SizesOf, SizesAfter, Concat, NextLength, Word, HasCommon;
    var kept := Clear(header);
    KeptGrows(raw, e.headers, e.crc, at, header);
    SizesSnoc(chain, kept, sizes);
    LinkedSnoc(chain, first, level == 3, kept);
    CommonSnoc(chain, kept);
    ConcatSnoc(chain, kept);
  }

  lemma NothingGathered(level: nat, first: nat, sizes: (nat, nat))
    ensures Gathered(level, first, sizes, [], [], 0, Extra([], None, sizes), first)
  {
  }

  /** What is gathered from the rest of the bytes is a chain with the promised properties. */
  lemma {:induction false} GatherIsChain(level: nat, long: nat, len: nat, b: seq<byte>, next: nat, e: Extra,
                                         first: nat, sizes: (nat, nat), raw: seq<byte>, chain: Chain, at: nat)
      returns (full: Chain, crcAt: nat)
    requires Gather(level, long, len, b, next, e).Some? && Gathered(level, first, sizes, raw, chain, at, e, next)
    ensures var r := Gather(level, long, len, b, next, e).value;
      && |r.headers| - |raw| <= |b| && |raw| <= |r.headers|
      && Gathered(level, first, sizes, raw + b[..|r.headers| - |raw|], full, crcAt, r, 0)
    ensures var r := Gather(level, long, len, b, next, e).value;
      long != 0 && (next == 0 ==> len <= long + 2) ==> len + |r.headers| - |e.headers| <= long + 2
    decreases |b|
  {
    hide Gathered, NextLength, MayFollow, AddHeader, Clear;
    GatheredLength(level, first, sizes, raw, chain, at, e, next);
    if next == 0 {
      assert raw + b[..0] == raw;
      full, crcAt := chain, at;
    } else {
      FollowsFit(level, long, len, next, e);
      var header := b[..next];
      GatheredGrows(level, first, sizes, raw, chain, at, e, header);
      var at1 := if header[0] == EXT_HEADER_COMMON then |raw| + 1 else at;
      AddedHeader(level, e, header);
      full, crcAt := GatherIsChain(level, long, len + next, b[next..], NextLength(Clear(header), level == 3),
                                   AddHeader(level, e, header), first, sizes, raw + header,
                                   chain + [Clear(header)], at1);
      var r := Gather(level, long, len, b, next, e).value;
      assert raw + header + b[next..][..|r.headers| - |raw| - next] == raw + b[..|r.headers| - |raw|];
    }
  }

  lemma GatheredLength(level: nat, first: nat, sizes: (nat, nat), raw: seq<byte>, chain: Chain, at: nat, e: Extra,
                       next: nat)
    requires Gathered(level, first, sizes, raw, chain, at, e, next)
    ensures |raw| == |e.headers|
  {
  }

  lemma FollowsFit(level: nat, long: nat, len: nat, next: nat, e: Extra)
    requires MayFollow(level, long, len, next, e)
    ensures next > CounterSize(level == 3) && (long != 0 ==> len + next <= long + 2)
  {
  }

  lemma AddedHeader(level: nat, e: Extra, header: seq<byte>)
    requires |header| >= 3
    ensures AddHeader(level, e, header).headers == e.headers + Clear(header) && |Clear(header)| == |header|
  {
  }

  /** Iterating over the extra headers stays in range and ends with the data. */
  ghost predicate ChainHolds(h: LhaHeader) {
    Walk(h.extraHeaders, h.firstHeaderLen, h.level == 3).Some?
  }

  /** The fields are those at their places in front of the extra headers. */
  ghost predicate FieldsHold(h: LhaHeader, base: Base) {
    && h.level == Level(base.raw) && h.compression == base.raw[..5] && h.lastModified == U32(base.raw[13..17])
    && h.filename == base.filename && h.fileCrc == base.fileCrc && h.osType == base.osType
    && h.extendedArea == base.extendedArea && h.firstHeaderLen == base.firstHeaderLen
  }

  /**
    The sizes: of level 1, the stored skip size counts the extra headers too; of levels 2 and 3, a size header
    overrides.
   */
  ghost predicate SizesHold(h: LhaHeader, stored: (nat, nat))
    requires ChainHolds(h)
  {
    match h.level
    case 0 => h.extraHeaders == [] && (h.compressedSize, h.originalSize) == stored
    case 1 => (h.compressedSize + |h.extraHeaders|, h.originalSize) == stored
    case _ => (h.compressedSize, h.originalSize) == SizesOf(Walk(h.extraHeaders, h.firstHeaderLen, h.level == 3).value, stored)
  }

  /**
    The whole length: at level 2 the stated one, or two more. A length that level 3 states is only an upper limit, of
    two less than it allows, and none if it is zero.
   */
  ghost predicate LengthHolds(h: LhaHeader, size: nat, n: nat, long: nat) {
    && (h.level != 2 ==> size == n + |h.extraHeaders|)
    && (h.level == 2 ==> n + |h.extraHeaders| <= size <= n + |h.extraHeaders| + 1 && (size == long || size == long + 2))
    && (h.level == 3 ==> long == 0 || size <= long + 2)
  }

  /** The extra headers are what follows the first n bytes; a checksum among them is that of the whole header. */
  ghost predicate CrcHolds(h: LhaHeader, b: seq<byte>, n: nat, crc: Option<bv16>, at: nat)
    requires ChainHolds(h)
  {
    && n + |h.extraHeaders| <= |b|
    && Kept(b[n..n + |h.extraHeaders|], h.extraHeaders, crc, at)
    && (crc.Some? <==> HasCommon(Walk(h.extraHeaders, h.firstHeaderLen, h.level == 3).value))
    && (crc.Some? ==> crc.value == Crc(0, b[..n] + h.extraHeaders + b[n + |h.extraHeaders|..]))
  }

  /** What holds of a header and the bytes it was read from. */
  ghost predicate Accepted(h: LhaHeader, b: seq<byte>) {
    && BaseOf(b).Some?
    && var (base, n) := BaseOf(b).value;
    && FieldsHold(h, base) && ChainHolds(h) && SizesHold(h, StoredSizes(base.raw))
    && LengthHolds(h, |b|, n, base.longHeaderLen)
    && exists crc, at :: CrcHolds(h, b, n, crc, at)
  }

  lemma NoChain(chain: Chain, len32: bool)
    requires Linked(chain, 0, len32, 0)
    ensures chain == []
  {
    if chain != [] { LinkedFromFront(chain, 0, len32, 0); }
  }

  /** At levels 0 and 1 nothing else limits the headers, and at level 0 there are none. */
  lemma ShortLengths(b: seq<byte>)
    requires BaseOf(b).Some?
    ensures var base := BaseOf(b).value.0;
      && (Level(base.raw) == 0 ==> base.firstHeaderLen == 0) && (Level(base.raw) < 2 ==> base.longHeaderLen == 0)
      && (Level(base.raw) == 2 && b[0] != 0 ==> base.longHeaderLen != 0)
      && (Level(base.raw) == 3 && base.longHeaderLen != 0 ==> base.firstHeaderLen != 0 || 32 <= base.longHeaderLen + 2)
      && (Level(base.raw) == 3 ==> BaseOf(b).value.1 == 32)
  {
    hide ByteSum, U32, Word;
    if b[20] == 2 && |b| >= 26 { assert b[..2][0] == b[0]; }
  }

  lemma FinishedLength(b: seq<byte>, base: Base, n: nat, e: Extra)
    requires n + |e.headers| <= |b| && Finish(b, base, n, e).Some?
    requires Level(base.raw) == 3 && base.longHeaderLen != 0 ==> n + |e.headers| <= base.longHeaderLen + 2
    ensures Level(base.raw) == 1 ==> |e.headers| <= e.sizes.0
    ensures var (h, m) := Finish(b, base, n, e).value;
      n + |e.headers| <= m <= |b| && h == HeaderOf(base, e) && LengthHolds(h, m, n, base.longHeaderLen)
    ensures e.crc.Some? ==>
      e.crc.value == Crc(0, b[..n] + e.headers + b[n + |e.headers|..Finish(b, base, n, e).value.1])
  {
    hide Crc, U32;
  }

  /** The parts that a header read consists of: its fields, its extra headers, and where it ends. */
  ghost predicate Consists(b: seq<byte>, base: Base, n: nat, e: Extra, chain: Chain, at: nat, m: nat) {
    && BaseOf(b) == Some((base, n)) && n + |e.headers| <= m <= |b|
    && Gathered(Level(base.raw), base.firstHeaderLen, StoredSizes(base.raw), b[n..n + |e.headers|], chain, at, e, 0)
    && (Level(base.raw) == 1 ==> |e.headers| <= e.sizes.0)
    && LengthHolds(HeaderOf(base, e), m, n, base.longHeaderLen)
    && (e.crc.Some? ==> e.crc.value == Crc(0, b[..n] + e.headers + b[n + |e.headers|..m]))
  }

  lemma ParsedConsists(b: seq<byte>) returns (base: Base, n: nat, e: Extra, chain: Chain, at: nat)
    requires ParseHeader(b).Some?
    ensures Consists(b, base, n, e, chain, at, ParseHeader(b).value.1) && ParseHeader(b).value.0 == HeaderOf(base, e)
  {
    hide BaseOf, Gather, Gathered, Finish, LengthHolds, U32;
    base, n := BaseOf(b).value.0, BaseOf(b).value.1;
    var level, first, sizes := Level(base.raw), base.firstHeaderLen, StoredSizes(base.raw);
    var e0 := Extra([], None, sizes);
    e := Gather(level, base.longHeaderLen, n, b[n..], first, e0).value;
    NothingGathered(level, first, sizes);
    ShortLengths(b);
    chain, at := GatherIsChain(level, base.longHeaderLen, n, b[n..], first, e0, first, sizes, [], [], 0);
    FinishedLength(b, base, n, e);
    assert b[n..n + |e.headers|] == [] + b[n..][..|e.headers|];
  }

  /** What the parts promise is what the header promises. */
  lemma PartsAreAccepted(b: seq<byte>, base: Base, n: nat, e: Extra, chain: Chain, at: nat)
    requires Consists(b, base, n, e, chain, at, |b|)
    ensures Accepted(HeaderOf(base, e), b)
  {
    hide BaseOf, Crc, U32, SizesOf, Linked, Walk, HasCommon, Kept, LengthHolds;
    var h := HeaderOf(base, e);
    WalkFindsChain(chain, base.firstHeaderLen, h.level == 3);
    ShortLengths(b);
    if h.level == 0 { NoChain(chain, h.level == 3); }
    assert b[n + |e.headers|..|b|] == b[n + |e.headers|..];
    assert CrcHolds(h, b, n, e.crc, at);
  }

  /** Whatever is read as a header has all the properties promised. */
  lemma ParsedIsAccepted(b: seq<byte>)
    requires ParseHeader(b).Some?
    ensures Accepted(ParseHeader(b).value.0, b[..ParseHeader(b).value.1])
  {
    hide BaseOf, ParseHeader, Gathered, Accepted, LengthHolds, U32, Crc;
    var base, n, e, chain, at := ParsedConsists(b);
    var m := ParseHeader(b).value.1;
    var c := b[..m];
    BaseOfPrefix(b, m);
    assert c[..n] == b[..n] && c[n + |e.headers|..|c|] == b[n + |e.headers|..m];
    assert c[n..n + |e.headers|] == b[n..n + |e.headers|];
    PartsAreAccepted(c, base, n, e, chain, at);
  }
}
