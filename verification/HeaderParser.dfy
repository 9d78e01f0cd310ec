/** Reading an archive header. */
module HeaderParsers {
  import opened Wrappers
  import opened StubIo
  import opened Crc16s
  import opened Headers
  import opened HeaderFormat

  lemma SliceOfSlice(s: seq<byte>, i: nat, j: nat, a: nat, b: nat)
    requires i <= j <= |s| && a <= b <= j - i
    ensures s[i..j][a..b] == s[i + a..i + b]
  {
    assert |s[i..j][a..b]| == |s[i + a..i + b]|;
    forall k | 0 <= k < b - a ensures s[i..j][a..b][k] == s[i + a..i + b][k] {
      assert s[i..j][a + k] == s[i + (a + k)];
    }
  }

  lemma TooShort(b: seq<byte>)
    ensures |b| < 21 || b[20] > 3 ==> FieldsOf(b).None?
  {
  }

  lemma EnoughForFields(b: seq<byte>)
    requires |b| >= 21 && b[20] <= 3
    ensures b[20] < 2 ==> (FieldsOf(b).Some? <==>
      |b| >= 22 && 22 + b[21] as int + 3 * b[20] as int <= b[0] && b[0] + 2 <= |b|)
    ensures b[20] == 2 ==> (FieldsOf(b).Some? <==> |b| >= 26)
    ensures b[20] == 3 ==> (FieldsOf(b).Some? <==> |b| >= 32 && b[0] == 4 && b[1] == 0)
  {
    hide U16, U32, Word;
  }

  lemma Tail(data: seq<byte>, begin: nat, i: nat, j: nat)
    requires i <= j && begin + j <= |data|
    ensures data[begin..][i..j] == data[begin + i..begin + j]
  {
    SliceOfSlice(data, begin, |data|, i, j);
  }

  /** The file name and the checksum of a file, read up to index `at`. */
  ghost predicate NameIs(data: seq<byte>, begin: nat, level: nat, at: nat, name: (seq<byte>, bv16)) {
    && begin + 23 <= begin + at <= |data| && at == (if level >= 2 then 23 else 24 + data[begin + 21] as int)
    && name.0 == (if level >= 2 then [] else data[begin + 22..begin + at - 2])
    && name.1 == Word(data[begin + at - 2], data[begin + at - 1])
  }

  /** The system, the extended area and the lengths, read from index `at` up to index `end`. */
  ghost predicate BehindIs(data: seq<byte>, begin: nat, level: nat, at: nat, end: nat,
                           area: (byte, seq<byte>), lengths: (nat, nat)) {
    && 2 <= at <= begin + end <= |data| && level <= 3 && at <= end - LengthSize(level)
    && end == (if level < 2 then data[begin] as int + 2 else at + 1 + LengthSize(level))
    && var from, to := begin + at, begin + end - LengthSize(level);
    && (level > 0 ==> from < to)
    && area == (if from == to then (0, []) else (data[from], if level >= 2 then [] else data[from + 1..to]))
    && match level
       case 0 => lengths == (0, 0)
       case 1 => lengths == (0, U16(data[to..to + 2]))
       case 2 => lengths == (U16([data[begin], data[begin + 1]]), U16(data[to..to + 2]))
       case _ => lengths == (U32(data[to..to + 4]), U32(data[to + 4..to + 8])) && data[begin] == 4 && data[begin + 1] == 0
  }

  lemma FieldsAre(data: seq<byte>, begin: nat, raw: RawBaseHeader, at: nat, name: (seq<byte>, bv16),
                  end: nat, area: (byte, seq<byte>), lengths: (nat, nat))
    requires begin + 23 <= |data| && raw == data[begin + 2..begin + 21] && Level(raw) <= 3
    requires NameIs(data, begin, Level(raw), at, name) && BehindIs(data, begin, Level(raw), at, end, area, lengths)
    ensures FieldsOf(data[begin..]) == Some((Base(raw, name.0, name.1, area.0, area.1, lengths.0, lengths.1), end))
  {
    hide U16, U32, Word, FieldsOf;
    assert data[begin + 20] == Level(raw);
    var base := Base(raw, name.0, name.1, area.0, area.1, lengths.0, lengths.1);
    if Level(raw) < 2 {
      ShortFieldsAre(data, begin, base, at - 2, end - LengthSize(Level(raw)));
    } else {
      LongFieldsAre(data, begin, base);
    }
  }

  /**
    The fields of levels 0 and 1 at their places in the source; the system begins behind the checksum at index `at`.
   */
  lemma ShortFieldsAre(data: seq<byte>, begin: nat, base: Base, at: nat, end: nat)
    requires begin + 22 <= |data| && at == 22 + data[begin + 21] as int && at + 2 <= end && begin + end <= |data|
    requires data[begin + 20] <= 1 && at + 3 * data[begin + 20] as int <= data[begin]
    requires data[begin] as int == (if data[begin + 20] == 0 then end - 2 else end)
    requires begin + data[begin] as int + 2 <= |data|
    requires base.raw == data[begin + 2..begin + 21] && base.filename == data[begin + 22..begin + at]
    requires base.fileCrc == Word(data[begin + at], data[begin + at + 1]) && base.longHeaderLen == 0
    requires if at + 2 == end then (base.osType, base.extendedArea) == (0, [])
      else (base.osType, base.extendedArea) == (data[begin + at + 2], data[begin + at + 3..begin + end])
    requires base.firstHeaderLen == if data[begin + 20] == 0 then 0 else U16(data[begin + end..begin + end + 2])
    ensures FieldsOf(data[begin..]) == Some((base, data[begin] as int + 2))
  {
    hide U16, Word;
    Tail(data, begin, 2, 21);
    Tail(data, begin, 22, at);
    if at + 2 != end { Tail(data, begin, at + 3, end); }
    if data[begin + 20] == 1 { Tail(data, begin, end, end + 2); }
  }

  /** The fields of levels 2 and 3 at their places in the source. */
  lemma LongFieldsAre(data: seq<byte>, begin: nat, base: Base)
    requires begin + 26 <= |data| && 2 <= data[begin + 20] <= 3
    requires base.raw == data[begin + 2..begin + 21] && base.filename == [] && base.extendedArea == []
    requires base.fileCrc == Word(data[begin + 21], data[begin + 22]) && base.osType == data[begin + 23]
    requires data[begin + 20] == 2 ==>
      base.longHeaderLen == U16([data[begin], data[begin + 1]]) && base.firstHeaderLen == U16(data[begin + 24..begin + 26])
    requires data[begin + 20] == 3 ==> begin + 32 <= |data| && data[begin] == 4 && data[begin + 1] == 0
    requires data[begin + 20] == 3 ==>
      base.longHeaderLen == U32(data[begin + 24..begin + 28]) && base.firstHeaderLen == U32(data[begin + 28..begin + 32])
    ensures FieldsOf(data[begin..]) == Some((base, if data[begin + 20] == 2 then 26 else 32))
  {
    hide U16, U32, Word;
    var b := data[begin..];
    Tail(data, begin, 2, 21);
    if data[begin + 20] == 2 {
      assert b[..2] == [data[begin], data[begin + 1]];
      Tail(data, begin, 24, 26);
    } else {
      Tail(data, begin, 24, 28);
      Tail(data, begin, 28, 32);
    }
  }

  class Parser {
    const rd: SliceReader
    const crc: Crc16
    var csum: byte
    var len: nat
    /** The bytes that went into the checksum, and those that went into the wrapping sum. */
    ghost var fed: seq<byte>
    ghost var summed: seq<byte>
    /** Where the header begins. */
    ghost const begin: nat

    ghost predicate Valid()
      reads this, rd, crc
    {
      rd.Valid() && crc.sum == Crc(0, fed) && len == |fed| && csum == ByteSum(summed)
    }

    constructor (rd: SliceReader)
      requires rd.Valid()
      ensures Valid() && this.rd == rd && fresh(crc) && fed == [] && summed == [] && rd.pos == old(rd.pos) == begin
    {
      this.rd := rd;
      crc := new Crc16();
      csum, len, fed, summed, begin := 0, 0, [], [], rd.pos;
    }

    /** All bytes of the header so far went into the checksum, and all but the first two into the wrapping sum. */
    ghost predicate Plain()
      reads this, rd
    {
      && begin + 2 <= rd.pos <= |rd.data|
      && fed == rd.data[begin..rd.pos] && summed == rd.data[begin + 2..rd.pos]
    }

    method UpdateChecksumsNoWrappingSum(buf: seq<byte>)
      requires Valid()
      modifies this, crc
      ensures Valid() && fed == old(fed) + buf && summed == old(summed)
    {
      hide ByteSum;
      CrcAppends(0, fed, buf);
      len := len + |buf|;
      crc.Digest(buf);
      fed := fed + buf;
    }

    method UpdateChecksums(buf: seq<byte>)
      requires Valid()
      modifies this, crc
      ensures Valid() && fed == old(fed) + buf && summed == old(summed) + buf
    {
      UpdateChecksumsNoWrappingSum(buf);
      ByteSumAppends(summed, buf);
      csum := WrappingAdd(ByteSum(buf), csum);
      summed := summed + buf;
    }

    /** Read and sum up some bytes. */
    method ReadExact(n: nat) returns (r: Result<seq<byte>>)
      requires Valid()
      modifies this, rd, crc
      ensures rd.Valid() && old(rd.pos) <= rd.pos
      ensures r.Ok? <==> old(rd.pos) + n <= |rd.data|
      ensures r.Ok? ==> Valid() && rd.pos == old(rd.pos) + n && r.value == rd.data[old(rd.pos)..rd.pos]
      ensures r.Ok? ==> len == old(len) + n
      ensures r.Ok? ==> fed == old(fed) + r.value && summed == old(summed) + r.value
      ensures r.Ok? && old(Plain()) ==> Plain()
    {
      hide ByteSum, Crc;
      var buf :- rd.ReadExact(n);
      UpdateChecksums(buf);
      return Ok(buf);
    }

    /** Read one extra header, if its length is possible; it is not summed up yet. */
    method ReadOne(level: nat, longHeaderLen: nat, headerLen: nat, e: Extra) returns (r: Result<seq<byte>>)
      requires Valid() && headerLen > 0
      modifies rd
      ensures rd.Valid() && old(rd.pos) <= rd.pos
      ensures r.Ok? <==> MayFollow(level, longHeaderLen, len, headerLen, e) && headerLen <= |rd.data| - old(rd.pos)
                         && (rd.data[old(rd.pos)] == EXT_HEADER_COMMON ==> e.crc.None?)
      ensures r.Ok? ==> Valid() && rd.pos == old(rd.pos) + headerLen && r.value == rd.data[old(rd.pos)..rd.pos]
    {
      hide ByteSum, Crc;
      var minHeaderLen := if level == 3 then 5 else 3;
      if headerLen < minHeaderLen {
        return Err(HeaderParse);
      }
      if longHeaderLen != 0 {
        if longHeaderLen < len + headerLen - 2 {
          return Err(HeaderParse);
        }
      } else if e.sizes.0 < |e.headers| + headerLen {
        return Err(HeaderParse);
      }
      var header :- rd.ReadExact(headerLen);
      if header[0] == EXT_HEADER_COMMON && e.crc.Some? {
        return Err(HeaderParse);
      }
      return Ok(header);
    }

    /** Add a header to those read so far; its checksum, if it has one, is cleared before anything else is done. */
    method Keep(level: nat, read: seq<byte>, e: Extra) returns (kept: seq<byte>, r: Extra)
      requires |read| >= 3
      ensures kept == Clear(read) && r == AddHeader(level, e, read)
    {
      hide U64, Word;
      kept, r := read, e;
      if read[0] == EXT_HEADER_COMMON {
        r := r.(crc := Some(Word(read[1], read[2])));
        kept := read[1 := 0][2 := 0];
      } else if level >= 2 && |read| >= 17 && read[0] == EXT_HEADER_MSDOS_SIZE {
        r := r.(sizes := (U64(read[1..9]), U64(read[9..17])));
      }
      r := r.(headers := r.headers + kept);
    }

    /** Read the chain of extra headers. */
    method ReadExtra(level: nat, longHeaderLen: nat, first: nat, sizes: (nat, nat)) returns (r: Result<Extra>)
      requires Valid()
      modifies this, rd, crc
      ensures rd.Valid() && old(rd.pos) <= rd.pos
      ensures var g := Gather(level, longHeaderLen, old(len), rd.data[old(rd.pos)..], first, Extra([], None, sizes));
        (r.Ok? <==> g.Some?) && (r.Ok? ==> r.value == g.value)
      ensures r.Ok? ==> Valid() && fed == old(fed) + r.value.headers && |r.value.headers| == rd.pos - old(rd.pos)
    {
      hide Crc, ByteSum, NextLength, MayFollow, Clear, AddHeader;
      var e := Extra([], None, sizes);
      var headerLen: nat := first;
      ghost var total := Gather(level, longHeaderLen, len, rd.data[rd.pos..], first, e);
      while headerLen != 0
        invariant Valid() && old(rd.pos) <= rd.pos
        invariant Gather(level, longHeaderLen, len, rd.data[rd.pos..], headerLen, e) == total
        invariant fed == old(fed) + e.headers && |e.headers| == rd.pos - old(rd.pos)
        decreases |rd.data| - rd.pos
      {
        ghost var rest := rd.data[rd.pos..];
        var read :- ReadOne(level, longHeaderLen, headerLen, e);
        FollowsFit(level, longHeaderLen, len, headerLen, e);
        assert rest[..headerLen] == read && rest[headerLen..] == rd.data[rd.pos..];
        AddedHeader(level, e, read);
        var kept;
        kept, e := Keep(level, read, e);
        UpdateChecksumsNoWrappingSum(kept);
        headerLen := NextLength(kept, level == 3);
      }
      return Ok(e);
    }

    /** The first byte of a header, if there is one; it does not count in the wrapping sum. */
    method ReadU8OrNone() returns (r: Option<byte>)
      requires Valid()
      modifies this, rd, crc
      ensures Valid() && old(rd.pos) <= rd.pos && summed == old(summed)
      ensures r.None? ==> old(rd.pos) == |rd.data|
      ensures r.Some? ==>
        rd.pos == old(rd.pos) + 1 && [r.value] == rd.data[old(rd.pos)..rd.pos] && fed == old(fed) + [r.value]
    {
      hide ByteSum, Crc;
      var buf := new byte[1](_ => 0);
      var n := rd.ReadAll(buf, 1);
      if n == 0 {
        return None;
      }
      UpdateChecksumsNoWrappingSum([buf[0]]);
      assert buf[..] == [buf[0]];
      return Some(buf[0]);
    }

    lemma PlainLength()
      requires Valid() && Plain()
      ensures rd.pos == begin + len <= |rd.data|
    {
    }

    /** The file name of levels 0 and 1. */
    method ReadFilename(headerLen: nat, level: nat) returns (r: Result<seq<byte>>)
      requires Valid() && Plain() && len == 21
      modifies this, rd, crc
      ensures rd.Valid() && old(rd.pos) <= rd.pos
      ensures level >= 2 ==> r.Ok?
      ensures level < 2 ==> (r.Ok? <==> begin + 22 <= |rd.data| && 22 + rd.data[begin + 21] as int <= headerLen
                                        && begin + 22 + rd.data[begin + 21] <= |rd.data|)
      ensures r.Ok? ==> Valid() && Plain() && rd.pos == begin + len
      ensures r.Ok? ==> if level >= 2 then r.value == [] && len == 21
        else len == 22 + rd.data[begin + 21] as int && r.value == rd.data[begin + 22..rd.pos]
    {
      hide ByteSum, Crc;
      if level >= 2 {
        return Ok([]);
      }
      var filenameLen :- ReadExact(1);
      if headerLen < len + filenameLen[0] {
        return Err(HeaderParse);
      }
      r := ReadExact(filenameLen[0]);
    }

    /** The file name and the checksum of the file. */
    method ReadNameAndCrc(headerLen: nat, level: nat) returns (r: Result<(seq<byte>, bv16)>)
      requires Valid() && Plain() && len == 21
      modifies this, rd, crc
      ensures rd.Valid() && old(rd.pos) <= rd.pos
      ensures level >= 2 ==> (r.Ok? <==> begin + 23 <= |rd.data|)
      ensures level < 2 ==> (r.Ok? <==> begin + 22 <= |rd.data| && 22 + rd.data[begin + 21] as int <= headerLen
                                        && begin + 24 + rd.data[begin + 21] <= |rd.data|)
      ensures r.Ok? ==> Valid() && Plain() && rd.pos == begin + len
      ensures r.Ok? ==> len == (if level >= 2 then 23 else 24 + rd.data[begin + 21] as int)
      ensures r.Ok? ==> NameIs(rd.data, begin, level, len, r.value)
    {
      hide ByteSum, Crc, Word;
      var filename :- ReadFilename(headerLen, level);
      var fileCrc :- ReadExact(2);
      return Ok((filename, Word(fileCrc[0], fileCrc[1])));
    }

    /** The system and the extended area of levels 0 and 1: they fill the header up to its stated length. */
    method ReadExtended(headerLen: nat, level: nat) returns (r: Result<(byte, seq<byte>)>)
      requires Valid() && Plain() && len >= 2
      modifies this, rd, crc
      ensures rd.Valid() && old(rd.pos) <= rd.pos
      ensures r.Ok? <==>
        if level == 0 then old(len) <= headerLen + 2 && begin + headerLen + 2 <= |rd.data|
        else old(rd.pos) + 1 <= |rd.data| && (level == 1 ==> old(len) + 1 <= headerLen && begin + headerLen <= |rd.data|)
      ensures r.Ok? ==> Valid() && Plain() && rd.pos == begin + len
      ensures r.Ok? ==> len == if level == 0 then headerLen + 2 else if level == 1 then headerLen else old(len) + 1
      ensures r.Ok? && level == 0 && rd.pos == old(rd.pos) ==> r.value == (0, [])
      ensures r.Ok? && (level != 0 || rd.pos != old(rd.pos)) ==>
        r.value == (rd.data[old(rd.pos)], if level >= 2 then [] else rd.data[old(rd.pos) + 1..rd.pos])
    {
      hide ByteSum, Crc;
      var osType: byte := 0;
      if level > 0 {
        var os :- ReadExact(1);
        osType := os[0];
      }
      if level >= 2 {
        return Ok((osType, []));
      }
      var minLen := if level == 0 then len - 2 else len;
      if headerLen < minLen {
        return Err(HeaderParse);
      }
      var extendedLen := headerLen - minLen;
      if extendedLen != 0 && level == 0 {
        var os :- ReadExact(1);
        osType, extendedLen := os[0], extendedLen - 1;
      }
      var area :- ReadExact(extendedLen);
      return Ok((osType, area));
    }

    /** How long the whole header and its first extra header are, as far as the level says. */
    method ReadHeaderLengths(headerLen: byte, csumByte: byte, level: nat) returns (r: Result<(nat, nat)>)
      requires Valid() && Plain() && level <= 3
      modifies this, rd, crc
      ensures rd.Valid() && old(rd.pos) <= rd.pos
      ensures r.Ok? <==>
        old(rd.pos) + LengthSize(level) <= |rd.data| && (level == 3 ==> headerLen == 4 && csumByte == 0)
      ensures r.Ok? ==>
        Valid() && Plain() && rd.pos == old(rd.pos) + LengthSize(level) && len == old(len) + LengthSize(level)
      ensures r.Ok? ==> r.value == match level
        case 0 => (0, 0)
        case 1 => (0, U16(rd.data[old(rd.pos)..rd.pos]))
        case 2 => (U16([headerLen, csumByte]), U16(rd.data[old(rd.pos)..rd.pos]))
        case _ => (U32(rd.data[old(rd.pos)..old(rd.pos) + 4]), U32(rd.data[old(rd.pos) + 4..rd.pos]))
    {
      hide ByteSum, Crc, U32, U16;
      if level == 0 {
        return Ok((0, 0));
      } else if level == 1 {
        var first :- ReadExact(2);
        return Ok((0, U16(first)));
      } else if level == 2 {
        var first :- ReadExact(2);
        return Ok((U16([headerLen, csumByte]), U16(first)));
      }
      var long :- ReadExact(4);
      var first :- ReadExact(4);
      if headerLen != 4 || csumByte != 0 {
        return Err(HeaderParse);
      }
      return Ok((U32(long), U32(first)));
    }

    /** The system, the extended area and the lengths. */
    method ReadSystemAndLengths(headerLen: byte, csumByte: byte, level: nat)
      returns (r: Result<((byte, seq<byte>), (nat, nat))>)
      requires Valid() && Plain() && 2 <= len && level <= 3
      requires rd.data[begin] == headerLen && rd.data[begin + 1] == csumByte
      modifies this, rd, crc
      ensures rd.Valid() && old(rd.pos) <= rd.pos
      ensures level < 2 ==> (r.Ok? <==> old(len) + 3 * level <= headerLen as int + 2
                                        && begin + headerLen as int + 2 <= |rd.data|)
      ensures level >= 2 ==> (r.Ok? <==> old(rd.pos) + 1 + LengthSize(level) <= |rd.data|
                                         && (level == 3 ==> headerLen == 4 && csumByte == 0))
      ensures r.Ok? ==> Valid() && Plain() && rd.pos == begin + len
      ensures r.Ok? ==> BehindIs(rd.data, begin, level, old(len), len, r.value.0, r.value.1)
    {
      hide ByteSum, Crc, U16, U32, Plain;
      PlainLength();
      var extended :- ReadExtended(headerLen, level);
      var lengths :- ReadHeaderLengths(headerLen, csumByte, level);
      return Ok((extended, lengths));
    }

    /** The fields behind the wrapping sum. They end where the header length says, or at a fixed place. */
    method ReadFields(headerLen: byte, csumByte: byte) returns (r: Result<Base>)
      requires Valid() && Plain() && len == 2
      requires rd.data[begin] == headerLen && rd.data[begin + 1] == csumByte
      modifies this, rd, crc
      ensures rd.Valid() && old(rd.pos) <= rd.pos
      ensures r.Ok? <==> FieldsOf(rd.data[begin..]).Some?
      ensures r.Ok? ==> Valid() && Plain() && FieldsOf(rd.data[begin..]) == Some((r.value, len))
    {
      hide ByteSum, Crc, U16, U32, Word, FieldsOf, Plain, NameIs, BehindIs;
      PlainLength();
      ghost var b := rd.data[begin..];
      TooShort(b);
      var rawHeader :- ReadExact(19);
      Tail(rd.data, begin, 2, 21);
      var level := Level(rawHeader);
      if level > 3 {
        return Err(HeaderParse);
      }
      EnoughForFields(b);
      var name :- ReadNameAndCrc(headerLen, level);
      ghost var at := len;
      var behind :- ReadSystemAndLengths(headerLen, csumByte, level);
      FieldsAre(rd.data, begin, rawHeader, at, name, len, behind.0, behind.1);
      return Ok(Base(rawHeader, name.0, name.1, behind.0.0, behind.0.1, behind.1.0, behind.1.1));
    }

    /** The wrapping sum starts behind the first two bytes. */
    method ResetSum()
      requires Valid()
      modifies this
      ensures Valid() && summed == [] && fed == old(fed)
    {
      csum, summed := 0, [];
    }

    /** Read what comes before the extra headers, and check its length and wrapping sum. */
    method ReadBase(headerLen: byte) returns (r: Result<Base>)
      requires Valid() && begin + 1 == rd.pos && rd.data[begin] == headerLen && fed == rd.data[begin..rd.pos]
      modifies this, rd, crc
      ensures rd.Valid() && old(rd.pos) <= rd.pos
      ensures r.Ok? <==> BaseOf(rd.data[begin..]).Some?
      ensures r.Ok? ==> Valid() && rd.pos == begin + len && fed == rd.data[begin..rd.pos]
      ensures r.Ok? ==> BaseOf(rd.data[begin..]) == Some((r.value, len))
    {
      hide ByteSum, Crc, U16, FieldsOf;
      TooShort(rd.data[begin..]);
      var csumByte :- ReadExact(1);
      ResetSum();
      var base :- ReadFields(headerLen, csumByte[0]);
      Tail(rd.data, begin, 2, len);
      if Level(base.raw) < 2 {
        if csumByte[0] != csum {
          return Err(HeaderParse);
        }
      } else if base.longHeaderLen < (len + base.firstHeaderLen) % 0x1_0000_0000 {
        return Err(HeaderParse);
      }
      return Ok(base);
    }

    /** The padding byte that may follow the headers of level 2; otherwise their length must be as stated. */
    method ReadPadding(level: nat, longHeaderLen: nat) returns (r: Result<()>)
      requires Valid() && (level < 2 ==> longHeaderLen == 0) && (level == 2 ==> longHeaderLen != 0)
      modifies this, rd, crc
      ensures rd.Valid() && old(rd.pos) <= rd.pos
      ensures var p := Padding(level, longHeaderLen, old(len));
        && (r.Ok? <==> p.Some? && old(rd.pos) + p.value <= |rd.data|)
        && (r.Ok? ==> rd.pos == old(rd.pos) + p.value)
      ensures r.Ok? ==> Valid() && fed == old(fed) + rd.data[old(rd.pos)..rd.pos]
    {
      hide ByteSum, Crc;
      assert rd.data[rd.pos..rd.pos] == [];
      if longHeaderLen != 0 && longHeaderLen != len {
        if level == 2 && longHeaderLen == len + 1 {
          var _ :- ReadExact(1);
        } else if level == 2 && longHeaderLen + 2 != len {
          return Err(HeaderParse);
        }
      }
      return Ok(());
    }

    /** Read the extra headers, and put the header together. */
    method ReadRest(base: Base) returns (r: Result<LhaHeader>)
      requires Valid() && rd.pos == begin + len && fed == rd.data[begin..rd.pos]
      requires begin < |rd.data| && rd.data[begin] != 0 && BaseOf(rd.data[begin..]) == Some((base, len))
      modifies this, rd, crc
      ensures rd.Valid() && old(rd.pos) <= rd.pos
      ensures r.Ok? <==> ParseHeader(rd.data[begin..]).Some?
      ensures r.Ok? ==> ParseHeader(rd.data[begin..]) == Some((r.value, rd.pos - begin))
    {
      hide ByteSum, Crc, U16, U32, Gather, BaseOf, Padding;
      var level := Level(base.raw);
      ghost var b, n := rd.data[begin..], len;
      ShortLengths(b);
      assert b[n..] == rd.data[rd.pos..] && b[..n] == fed;
      var extra :- ReadExtra(level, base.longHeaderLen, base.firstHeaderLen, StoredSizes(base.raw));
      ghost var end := len;
      var _ :- ReadPadding(level, base.longHeaderLen);
      Tail(rd.data, begin, end, len);
      if extra.crc.Some? && extra.crc.value != crc.sum {
        return Err(HeaderParse);
      }
      if level == 1 && |extra.headers| > extra.sizes.0 {
        return Err(HeaderParse);
      }
      return Ok(HeaderOf(base, extra));
    }
  }

  /** Read a header, if the archive has not ended: just the one that `ParseHeader` finds in the rest of the source. */
  method ReadHeader(rd: SliceReader) returns (r: Result<Option<LhaHeader>>)
    requires rd.Valid()
    modifies rd
    ensures rd.Valid() && old(rd.pos) <= rd.pos
    ensures r == Ok(None) <==> old(rd.pos) == |rd.data| || rd.data[old(rd.pos)] == 0
    ensures r.Ok? && r.value.Some? <==> ParseHeader(rd.data[old(rd.pos)..]).Some?
    ensures r.Ok? && r.value.Some? ==>
      ParseHeader(rd.data[old(rd.pos)..]) == Some((r.value.value, rd.pos - old(rd.pos)))
  {
    hide ByteSum, Crc, BaseOf, Gather, Finish;
    var parser := new Parser(rd);
    var headerLen := parser.ReadU8OrNone();
    if headerLen.None? || headerLen.value == 0 {
      return Ok(None);
    }
    var base :- parser.ReadBase(headerLen.value);
    var h :- parser.ReadRest(base);
    return Ok(Some(h));
  }

  method IterExtra(h: LhaHeader) returns (it: ExtraHeaderIter)
    requires ChainHolds(h)
    ensures fresh(it) && it.Valid() && it.headerLen32 == (h.level == 3) && Concat(it.Left()) == h.extraHeaders
    ensures Some(it.Left()) == Walk(h.extraHeaders, h.firstHeaderLen, h.level == 3)
  {
    WalkCovers(h.extraHeaders, h.firstHeaderLen, h.level == 3);
    it := new ExtraHeaderIter(h.extraHeaders, h.firstHeaderLen, h.level == 3);
  }

  lemma {:induction false} WalkedAreLong(data: seq<byte>, first: nat, len32: bool)
    requires Walk(data, first, len32).Some?
    ensures forall i :: 0 <= i < |Walk(data, first, len32).value| ==>
      |Walk(data, first, len32).value[i]| > CounterSize(len32)
    decreases |data|
  {
    hide NextLength;
    if first != 0 { WalkedAreLong(data[first..], NextLength(data[..first], len32), len32); }
  }

  /** A loop over the extra headers of an accepted header ends, and sees each of them once and in order. */
  method ListExtra(h: LhaHeader) returns (list: seq<seq<byte>>)
    requires ChainHolds(h)
    ensures
      var chain := Walk(h.extraHeaders, h.firstHeaderLen, h.level == 3).value;
      && |list| == |chain|
      && forall i :: 0 <= i < |list| ==>
        |chain[i]| > CounterSize(h.level == 3) && list[i] == Payload(chain[i], h.level == 3)
  {
    hide Walk, Payload, Concat;
    WalkedAreLong(h.extraHeaders, h.firstHeaderLen, h.level == 3);
    var it := IterExtra(h);
    ghost var chain := it.Left();
    list := [];
    var next := it.Next();
    while next.Some?
      invariant it.Valid() && it.headerLen32 == (h.level == 3) && |list| <= |chain|
      invariant next.Some? ==> |list| < |chain| && it.Left() == chain[|list| + 1..]
      invariant next.Some? ==> next.value == Payload(chain[|list|], h.level == 3)
      invariant next.None? ==> |list| == |chain|
      invariant forall i :: 0 <= i < |list| ==> list[i] == Payload(chain[i], h.level == 3)
      decreases |chain| - |list|, if next.Some? then 1 else 0
    {
      list := list + [next.value];
      next := it.Next();
    }
  }
}
