/** Reading archived files one after the other. */
module Sessions {
  import opened Wrappers
  import opened StubIo
  import opened Crc16s
  import opened HeaderFormat
  import opened HeaderParsers
  import opened Decoders
  import Lz

  const NO_HEADER := LhaHeader(0, [0, 0, 0, 0, 0], 0, 0, [], 0, 0, 0, [], 0, [])

  class LhaDecodeReader {
    var header: LhaHeader
    const crc: Crc16
    var outputLength: nat
    var decoder: Option<DecoderAny>
    /** What has been read of the current file, the decoder it was begun with, and whether no read of it failed. */
    ghost var delivered: seq<byte>
    ghost var start: Plain
    ghost var intact: bool

    ghost function Footprint(): set<object>
      reads this
    {
      {this, crc} + if decoder.Some? then Decoders.Footprint(decoder.value) else {}
    }

    /** The bytes delivered are counted and summed up, and are no more than the header announces. */
    ghost predicate Counted()
      reads this, crc
    {
      outputLength == |delivered| <= header.originalSize && crc.sum == Crc(0, delivered)
    }

    ghost predicate Wired()
      reads this
    {
      decoder.Some? ==> this !in Decoders.Footprint(decoder.value) && crc !in Decoders.Footprint(decoder.value)
    }

    ghost predicate Valid()
      reads this, Footprint(), if decoder.Some? then {IntoInner(decoder.value), IntoInner(decoder.value).inner} else {}
    {
      && Counted() && Wired()
      && (decoder.Some? ==> IntoInner(decoder.value).Valid())
      && (decoder.Some? && intact ==> Faithful(decoder.value, start, delivered))
    }

    /** A session without a source. */
    constructor ()
      ensures Valid() && decoder.None? && fresh(Footprint())
    {
      header := NO_HEADER;
      crc := new Crc16();
      outputLength, delivered := 0, [];
      decoder, start, intact := None, Nothing, false;
    }

    /** How many bytes of the current file are still to be read. */
    function Len(): nat
      reads this, crc
      requires Counted()
    {
      header.originalSize - outputLength
    }

    /** Read the next bytes of the current file, as many as fit in the buffer and as are left. */
    method Read(buf: array<byte>) returns (r: Result<nat>)
      requires Valid() && decoder.Some? && intact && buf !in Footprint()
      modifies Footprint(), buf
      ensures Valid() && decoder == old(decoder) && header == old(header) && start == old(start)
      ensures IntoInner(decoder.value).End() == old(IntoInner(decoder.value).End())
      ensures r.Ok? <==> Produce(start, |old(delivered)| + Lz.Min(buf.Length, old(Len()))).Some?
      ensures r.Ok? ==> intact && r.value == Lz.Min(buf.Length, old(Len()))
      ensures r.Ok? ==> delivered == old(delivered) + buf[..r.value] && buf[r.value..] == old(buf[r.value..])
      ensures r.Err? ==> delivered == old(delivered)
    {
      hide Faithful, Crc, Decoders.Footprint, IntoInner;
      InnerIsOwned(decoder.value);
      var len := Lz.Min(buf.Length, Len());
      var bytes := NextBytes(decoder.value, len, start, delivered);
      if bytes.Err? {
        intact := false;
        return Err(bytes.error);
      }
      Account(bytes.value);
      forall i | 0 <= i < len {
        buf[i] := bytes.value[i];
      }
      assert buf[..len] == bytes.value;
      return Ok(len);
    }

    /** Count delivered bytes and sum them up. */
    method Account(bytes: seq<byte>)
      requires Counted() && |bytes| <= Len()
      modifies `outputLength, `delivered, crc
      ensures Counted() && delivered == old(delivered) + bytes
    {
      hide Crc;
      CrcAppends(0, delivered, bytes);
      outputLength := outputLength + |bytes|;
      crc.Digest(bytes);
      delivered := delivered + bytes;
    }

    /** Begin a file of a source with a decoder of its own. */
    method BeginWith(h: LhaHeader, d: DecoderAny)
      requires Decoders.Valid(d) && this !in Decoders.Footprint(d) && crc !in Decoders.Footprint(d)
      modifies this, crc
      ensures Valid() && header == h && decoder == Some(d) && delivered == [] && intact && start == old(Model(d))
      ensures IntoInner(d).End() == old(IntoInner(d).End())
    {
      hide Decoders.Valid, Decoders.Footprint, IntoInner, Faithful, Crc, Model;
      InnerIsOwned(d);
      InnerIsValid(d);
      BeginsFaithful(d);
      decoder, header := Some(d), h;
      crc.Reset();
      outputLength := 0;
      delivered, start, intact := [], Model(d), true;
      NothingSummed();
    }

    lemma NothingSummed()
      ensures Crc(0, []) == 0
    {
    }

    /** Begin with the first file of a source. The session is left as it was if there is no readable header. */
    method BeginNew(rd: SliceReader) returns (r: Result<bool>)
      requires Valid() && rd.Valid()
      modifies this, crc, rd
      ensures rd.Valid() && old(rd.pos) <= rd.pos
      ensures r == Ok(false) <==> old(rd.pos) == |rd.data| || rd.data[old(rd.pos)] == 0
      ensures r.Ok? ==> Valid() && intact && delivered == [] && decoder.Some? && IntoInner(decoder.value).inner == rd
      ensures r.Ok? ==> forall o :: o in Footprint() ==> o in {this, crc, rd} || fresh(o)
      ensures r == Ok(true) <==> ParseHeader(rd.data[old(rd.pos)..]).Some?
      ensures r == Ok(true) ==> ParseHeader(rd.data[old(rd.pos)..]) == Some((header, rd.pos - old(rd.pos)))
      ensures r == Ok(true) ==>
        start == StartOf(MethodOf(header.compression), FileData(rd.data, rd.pos, header.compressedSize))
      ensures r == Ok(true) ==> IntoInner(decoder.value).End() == rd.pos + header.compressedSize
      ensures r == Ok(false) ==> decoder.value.Unsupported? && IntoInner(decoder.value).End() == rd.pos
      ensures r.Err? ==> unchanged(this) && unchanged(crc)
    {
      hide Decoders.Valid, Model, StartOf, MethodOf, Faithful, Crc, ParseHeader, IntoInner, Decoders.Footprint,
        FileData;
      var read :- ReadHeader(rd);
      match read
      case Some(h) =>
        var d := NewFromHeader(h, rd);
        BeginWith(h, d);
        return Ok(true);
      case None =>
        var none := new Take(rd, 0);
        var d := NewUnsupported(none);
        BeginWith(header, d);
        return Ok(false);
    }

    /** Skip what is left of a file's data. */
    static method SkipRest(limited: Take, size: nat)
      requires limited.Valid() && size != 0
      modifies limited, limited.inner
      ensures limited.inner.Valid() && limited.inner.pos == Lz.Min(old(limited.End()), |limited.inner.data|)
    {
      if limited.limit != 0 {
        DiscardToEnd(limited, size);
      }
    }

    /**
      Go on to the next file. Its header is read from the very end of the current file's data, however much of the data
      was read, looked ahead at or failed to decode; what is left of a truncated file is the end of the source.
     */
    method NextFileWithSink(size: nat) returns (r: Result<bool>)
      requires Valid() && decoder.Some? && size != 0
      modifies Footprint()
      ensures var rd := old(IntoInner(decoder.value).inner);
        var end := Lz.Min(old(IntoInner(decoder.value).End()), |rd.data|);
        && rd.Valid() && end <= rd.pos
        && (r == Ok(false) <==> end == |rd.data| || rd.data[end] == 0)
        && (r == Ok(true) <==> ParseHeader(rd.data[end..]).Some?)
        && (r.Ok? ==> decoder.Some? && IntoInner(decoder.value).inner == rd)
        && (r == Ok(true) ==> ParseHeader(rd.data[end..]) == Some((header, rd.pos - end)))
        && (r == Ok(true) ==>
              start == StartOf(MethodOf(header.compression), FileData(rd.data, rd.pos, header.compressedSize)))
        && (r == Ok(true) ==> IntoInner(decoder.value).End() == rd.pos + header.compressedSize)
      ensures r.Ok? ==> Valid() && intact && delivered == []
      ensures r.Ok? ==> forall o :: o in Footprint() ==> o in old(Footprint()) || fresh(o)
      ensures r.Err? ==> Valid() && decoder.None?
    {
      hide Take.Valid, Take.End;
      hide Decoders.Footprint, IntoInner, Faithful, Crc, ParseHeader, StartOf, MethodOf, FileData;
      InnerIsOwned(decoder.value);
      var limited := IntoInner(decoder.value);
      decoder := None;
      SkipRest(limited, size);
      r := BeginNew(limited.inner);
    }

    /** Give the source back, at wherever reading has come to. */
    method TakeInner() returns (r: Option<SliceReader>)
      requires Valid()
      modifies this, crc
      ensures Valid() && decoder.None? && delivered == [] && Len() == 0
      ensures r == if old(decoder).Some? then Some(IntoInner(old(decoder).value).inner) else None
    {
      hide Decoders.Footprint, IntoInner, Faithful, Crc;
      header := header.(originalSize := 0);
      outputLength, delivered := 0, [];
      crc.Reset();
      NothingSummed();
      r := if decoder.Some? then Some(IntoInner(decoder.value).inner) else None;
      decoder := None;
    }

    /** Whether the checksum in the header is that of the bytes read. */
    function CrcIsOk(): bool
      reads this, crc
    {
      crc.sum == header.fileCrc
    }

    /** A file that has been read to its end passes the check exactly if the checksum is that of the whole file. */
    lemma WholeFileIsChecked(d: DecoderAny)
      requires Valid() && intact && decoder == Some(d) && !d.Unsupported? && Len() == 0
      ensures Produce(start, header.originalSize).Some?
      ensures CrcIsOk() <==> Crc(0, Produce(start, header.originalSize).value.0) == header.fileCrc
    {
      hide Decoders.Valid, Produce, Crc, IntoInner, Decoders.Footprint;
    }
  }
}
