/** The decoders behind one interface. */
module Decoders {
  import opened Wrappers
  import opened StubIo
  import opened RingBufs
  import opened DynHuffTrees
  import opened HuffTrees
  import opened Lz
  import Lzs = LzsDecoders
  import Lz5 = Lz5Decoders
  import Lh1 = Lh1Decoders
  import V2 = Lhv2Decoders
  import opened Lhv2Format
  import opened HeaderFormat

  /** The width of the bit reader's word. */
  const BITBUF_BITSIZE: nat := 64

  datatype DecoderAny =
    | Passthrough(rd: Take)
    | Unsupported(rd: Take)
    | LzsDecoder(lzs: Lzs.LzsDecoder)
    | Lz5Decoder(lz5: Lz5.Lz5Decoder)
    | Lh1Decoder(lh1: Lh1.Lh1Decoder)
    | LhV2Decoder(v2: V2.LhaV2Decoder)

  /** A decoder as a value: what it will decode from, over plain bits or bytes and unbounded history. */
  datatype Plain =
    | Stored(bytes: seq<byte>)
    | Nothing
    | PlainLzs(lzs: LzState<seq<bool>>)
    | PlainLz5(lz5: LzState<Lz5.Lz5Source>)
    | PlainLh1(lh1: LzState<Lh1.Lh1Source>)
    | PlainV2(v2: LzState<V2Source>)

  /** The next n bytes of a file, and the decoder after them. */
  ghost function Produce(p: Plain, n: nat): Option<(seq<byte>, Plain)> {
    match p
    case Stored(bytes) => if n <= |bytes| then Some((bytes[..n], Stored(bytes[n..]))) else None
    case Nothing => None
    case PlainLzs(st) =>
      (match Fill(Lzs.ReadLzs, st, n) case None => None case Some((x, next)) => Some((x, PlainLzs(next))))
    case PlainLz5(st) =>
      (match Fill(Lz5.ReadLz5, st, n) case None => None case Some((x, next)) => Some((x, PlainLz5(next))))
    case PlainLh1(st) =>
      (match Fill(Lh1.ReadLh1, st, n) case None => None case Some((x, next)) => Some((x, PlainLh1(next))))
    case PlainV2(st) =>
      (match Fill(ReadV2, st, n) case None => None case Some((x, next)) => Some((x, PlainV2(next))))
  }

  /** What is produced in two parts is what is produced in one. */
  lemma ProduceSplits(p: Plain, a: nat, b: nat)
    ensures Produce(p, a + b) ==
      match Produce(p, a)
      case None => None
      case Some((x, next)) => match Produce(next, b) case None => None case Some((y, last)) => Some((x + y, last))
  {
    hide Fill;
    match p
    case Stored(bytes) =>
      if a + b <= |bytes| {
        assert bytes[..a + b] == bytes[..a] + bytes[a..][..b] && bytes[a + b..] == bytes[a..][b..];
      }
    case Nothing =>
    case PlainLzs(st) => SplitIsInvisible(Lzs.ReadLzs, st, a, b);
    case PlainLz5(st) => SplitIsInvisible(Lz5.ReadLz5, st, a, b);
    case PlainLh1(st) => SplitIsInvisible(Lh1.ReadLh1, st, a, b);
    case PlainV2(st) => SplitIsInvisible(ReadV2, st, a, b);
  }

  ghost function Footprint(d: DecoderAny): set<object> {
    match d
    case Passthrough(rd) => {rd, rd.inner}
    case Unsupported(rd) => {rd, rd.inner}
    case LzsDecoder(lzs) => lzs.Footprint()
    case Lz5Decoder(lz5) => lz5.Footprint()
    case Lh1Decoder(lh1) => lh1.Footprint()
    case LhV2Decoder(v2) => v2.Footprint()
  }

  ghost predicate Valid(d: DecoderAny)
    reads Footprint(d)
  {
    match d
    case Passthrough(rd) => rd.Valid()
    case Unsupported(rd) => rd.Valid()
    case LzsDecoder(lzs) => lzs.Valid()
    case Lz5Decoder(lz5) => lz5.Valid()
    case Lh1Decoder(lh1) => lh1.Valid()
    case LhV2Decoder(v2) => v2.Valid()
  }

  ghost function Model(d: DecoderAny): Plain
    reads Footprint(d)
    requires Valid(d)
  {
    match d
    case Passthrough(rd) => Stored(rd.Available())
    case Unsupported(rd) => Nothing
    case LzsDecoder(lzs) => PlainLzs(lzs.State())
    case Lz5Decoder(lz5) => PlainLz5(lz5.State())
    case Lh1Decoder(lh1) => PlainLh1(lh1.State())
    case LhV2Decoder(v2) => PlainV2(v2.State())
  }

  lemma UnsupportedFails(d: DecoderAny, n: nat)
    requires Valid(d) && d.Unsupported?
    ensures Produce(Model(d), n).None?
  {
  }

  lemma NothingProduces(n: nat)
    ensures Produce(Nothing, n).None?
  {
  }

  /** The limited reader that a decoder reads from. */
  function IntoInner(d: DecoderAny): Take {
    match d
    case Passthrough(rd) => rd
    case Unsupported(rd) => rd
    case LzsDecoder(lzs) => lzs.bitReader.inner
    case Lz5Decoder(lz5) => lz5.reader
    case Lh1Decoder(lh1) => lh1.bitReader.inner
    case LhV2Decoder(v2) => v2.bitReader.inner
  }

  lemma InnerIsOwned(d: DecoderAny)
    ensures IntoInner(d) in Footprint(d) && IntoInner(d).inner in Footprint(d)
    ensures forall o :: o in Footprint(d) ==> allocated(o)
  {
  }

  lemma InnerIsValid(d: DecoderAny)
    requires Valid(d)
    ensures IntoInner(d).Valid()
  {
    hide RingArrayBuf.Valid, DynHuffTree.Valid, HuffTree.Valid;
  }

  /**
    Fill a buffer: with what `Produce` says, or not at all. The end of the file's data stays where it is in any case.
   */
  method FillBuffer(d: DecoderAny, buf: array<byte>) returns (r: Result<()>)
    requires Valid(d) && buf !in Footprint(d)
    modifies Footprint(d), buf
    ensures IntoInner(d).Valid() && IntoInner(d).End() == old(IntoInner(d).End())
    ensures r.Ok? <==> Produce(old(Model(d)), buf.Length).Some?
    ensures r.Ok? ==> Valid(d) && Produce(old(Model(d)), buf.Length) == Some((buf[..], Model(d)))
  {
    hide Fill, Lzs.LzsDecoder.Valid, Lzs.LzsDecoder.State, Lz5.Lz5Decoder.Valid, Lz5.Lz5Decoder.State,
      Lh1.Lh1Decoder.Valid, Lh1.Lh1Decoder.State, V2.LhaV2Decoder.Valid, V2.LhaV2Decoder.State;
    match d
    case Passthrough(rd) =>
      var bytes :- rd.ReadExact(buf.Length);
      CopyInto(buf, bytes);
      r := Ok(());
    case Unsupported(rd) => r := Err(Decompress);
    case LzsDecoder(lzs) => r := lzs.FillBuffer(buf);
    case Lz5Decoder(lz5) => r := lz5.FillBuffer(buf);
    case Lh1Decoder(lh1) => r := lh1.FillBuffer(buf);
    case LhV2Decoder(v2) => r := v2.FillBuffer(buf);
  }

  method CopyInto(buf: array<byte>, bytes: seq<byte>)
    requires |bytes| == buf.Length
    modifies buf
    ensures buf[..] == bytes
  {
    forall i | 0 <= i < |bytes| {
      buf[i] := bytes[i];
    }
  }

  /** The bytes delivered are the first that `start` produces, whatever sizes they were read in. */
  ghost predicate Faithful(d: DecoderAny, start: Plain, delivered: seq<byte>)
    reads Footprint(d)
  {
    && Valid(d)
    && if d.Unsupported? then delivered == [] && start == Nothing
       else Produce(start, |delivered|) == Some((delivered, Model(d)))
  }

  lemma BeginsFaithful(d: DecoderAny)
    requires Valid(d)
    ensures Faithful(d, Model(d), [])
  {
    ProducesNothing(Model(d));
  }

  lemma ProducesNothing(p: Plain)
    ensures p != Nothing ==> Produce(p, 0) == Some(([], p))
  {
    if p.Stored? { assert p.bytes[..0] == [] && p.bytes[0..] == p.bytes; }
  }

  /** The next bytes of a file. */
  method NextBytes(d: DecoderAny, len: nat, ghost start: Plain, ghost delivered: seq<byte>)
    returns (r: Result<seq<byte>>)
    requires Faithful(d, start, delivered)
    modifies Footprint(d)
    ensures IntoInner(d).Valid() && IntoInner(d).End() == old(IntoInner(d).End())
    ensures r.Ok? <==> Produce(start, |delivered| + len).Some?
    ensures r.Ok? ==> |r.value| == len && Faithful(d, start, delivered + r.value)
  {
    hide Valid, Model, Produce;
    var target := new byte[len];
    if d.Unsupported? {
      UnsupportedFails(d, len);
      NothingProduces(|delivered| + len);
    }
    ProduceSplits(start, |delivered|, len);
    var _ :- FillBuffer(d, target);
    return Ok(target[..]);
  }

  // ---- choosing a decoder

  datatype CompressionMethod = Lhd | LzsMethod | Lz4 | Lz5Method | Lh0 | Lh1Method | Lh4 | Lh5Method | Lh6 | Lh7Method
    | LhxMethod | Pm0 | Pm1 | Pm2

  /** An identifier of a compression method. */
  function Id(a: char, b: char, c: char): seq<int> {
    ['-' as int, a as int, b as int, c as int, '-' as int]
  }

  function MethodOf(id: seq<byte>): Option<CompressionMethod> {
    if id == Id('l', 'h', 'd') then Some(Lhd)
    else if id == Id('l', 'z', 's') then Some(LzsMethod)
    else if id == Id('l', 'z', '4') then Some(Lz4)
    else if id == Id('l', 'z', '5') then Some(Lz5Method)
    else if id == Id('l', 'h', '0') then Some(Lh0)
    else if id == Id('l', 'h', '1') then Some(Lh1Method)
    else if id == Id('l', 'h', '4') then Some(Lh4)
    else if id == Id('l', 'h', '5') then Some(Lh5Method)
    else if id == Id('l', 'h', '6') then Some(Lh6)
    else if id == Id('l', 'h', '7') then Some(Lh7Method)
    else if id == Id('l', 'h', 'x') then Some(LhxMethod)
    else if id == Id('p', 'm', '0') then Some(Pm0)
    else if id == Id('p', 'm', '1') then Some(Pm1)
    else if id == Id('p', 'm', '2') then Some(Pm2)
    else None
  }

  function AsIdentifier(m: CompressionMethod): (s: string)
    ensures |s| == 5 && forall i :: 0 <= i < 5 ==> s[i] < 128 as char
  {
    match m
    case Lhd => "-lhd-"
    case LzsMethod => "-lzs-"
    case Lz4 => "-lz4-"
    case Lz5Method => "-lz5-"
    case Lh0 => "-lh0-"
    case Lh1Method => "-lh1-"
    case Lh4 => "-lh4-"
    case Lh5Method => "-lh5-"
    case Lh6 => "-lh6-"
    case Lh7Method => "-lh7-"
    case LhxMethod => "-lhx-"
    case Pm0 => "-pm0-"
    case Pm1 => "-pm1-"
    case Pm2 => "-pm2-"
  }

  /** An identifier as the bytes of a header. */
  function IdBytes(m: CompressionMethod): seq<byte> {
    var s := AsIdentifier(m);
    [s[0] as byte, s[1] as byte, s[2] as byte, s[3] as byte, s[4] as byte]
  }

  lemma Spelled(m: CompressionMethod)
    ensures IdBytes(m) == match m
      case Lhd => Id('l', 'h', 'd') case LzsMethod => Id('l', 'z', 's') case Lz4 => Id('l', 'z', '4')
      case Lz5Method => Id('l', 'z', '5') case Lh0 => Id('l', 'h', '0') case Lh1Method => Id('l', 'h', '1')
      case Lh4 => Id('l', 'h', '4') case Lh5Method => Id('l', 'h', '5') case Lh6 => Id('l', 'h', '6')
      case Lh7Method => Id('l', 'h', '7') case LhxMethod => Id('l', 'h', 'x') case Pm0 => Id('p', 'm', '0')
      case Pm1 => Id('p', 'm', '1') case Pm2 => Id('p', 'm', '2')
  {
  }

  /** The identifier of a method is recognized as that method. */
  lemma IdentifierIsKnown(m: CompressionMethod)
    ensures MethodOf(IdBytes(m)) == Some(m)
  {
    hide IdBytes;
    Spelled(m);
  }

  /** No other method has the identifier, and no other identifier is recognized as a method. */
  lemma KnownIsIdentifier(id: seq<byte>, m: CompressionMethod)
    ensures MethodOf(id) == Some(m) <==> id == IdBytes(m)
  {
    hide IdBytes, Id;
    if id == IdBytes(m) { IdentifierIsKnown(m); }
    Spelled(m);
  }

  /** What a file of a method is decoded from, before anything is read. */
  ghost function StartOf(compression: Option<CompressionMethod>, bytes: seq<byte>): Plain {
    match compression
    case Some(Pm0) => Stored(bytes)
    case Some(Lz4) => Stored(bytes)
    case Some(Lh0) => Stored(bytes)
    case Some(LzsMethod) => PlainLzs(Lzs.StartState(bytes))
    case Some(Lz5Method) => PlainLz5(Lz5.StartState(bytes))
    case Some(Lh1Method) => PlainLh1(Lh1.StartState(bytes))
    case Some(Lh4) => PlainV2(StartState(Lh5, bytes))
    case Some(Lh5Method) => PlainV2(StartState(Lh5, bytes))
    case Some(Lh6) => PlainV2(StartState(Lh7, bytes))
    case Some(Lh7Method) => PlainV2(StartState(Lh7, bytes))
    case Some(LhxMethod) => PlainV2(StartState(Lhx, bytes))
    case _ => Nothing
  }

  method NewLzs(rd: Take) returns (d: DecoderAny)
    requires rd.Valid()
    ensures Valid(d) && IntoInner(d) == rd
    ensures Model(d) == PlainLzs(Lzs.StartState(rd.Available()))
    ensures forall o :: o in Footprint(d) ==> o == rd || o == rd.inner || fresh(o)
  {
    hide Lzs.LzsDecoder.Valid, Lzs.LzsDecoder.State, Lzs.StartState;
    var lzs := new Lzs.LzsDecoder(rd, BITBUF_BITSIZE);
    d := LzsDecoder(lzs);
  }

  method NewLz5(rd: Take) returns (d: DecoderAny)
    requires rd.Valid()
    ensures Valid(d) && IntoInner(d) == rd
    ensures Model(d) == PlainLz5(Lz5.StartState(rd.Available()))
    ensures forall o :: o in Footprint(d) ==> o == rd || o == rd.inner || fresh(o)
  {
    hide Lz5.Lz5Decoder.Valid, Lz5.Lz5Decoder.State, Lz5.StartState;
    var lz5 := new Lz5.Lz5Decoder(rd);
    d := Lz5Decoder(lz5);
  }

  method NewLh1(rd: Take) returns (d: DecoderAny)
    requires rd.Valid()
    ensures Valid(d) && IntoInner(d) == rd
    ensures Model(d) == PlainLh1(Lh1.StartState(rd.Available()))
    ensures forall o :: o in Footprint(d) ==> o == rd || o == rd.inner || fresh(o)
  {
    hide Lh1.Lh1Decoder.Valid, Lh1.Lh1Decoder.State, Lh1.StartState;
    var lh1 := new Lh1.Lh1Decoder(rd, BITBUF_BITSIZE);
    d := Lh1Decoder(lh1);
  }

  method NewV2(config: Config, rd: Take) returns (d: DecoderAny)
    requires rd.Valid()
    ensures Valid(d) && IntoInner(d) == rd
    ensures Model(d) == PlainV2(StartState(config, rd.Available()))
    ensures forall o :: o in Footprint(d) ==> o == rd || o == rd.inner || fresh(o)
  {
    hide V2.LhaV2Decoder.Valid, V2.LhaV2Decoder.State, StartState;
    var v2 := new V2.LhaV2Decoder(config, rd, BITBUF_BITSIZE);
    d := LhV2Decoder(v2);
  }

  method NewFromCompression(compression: CompressionMethod, rd: Take) returns (d: DecoderAny)
    requires rd.Valid()
    ensures Valid(d) && IntoInner(d) == rd
    ensures Model(d) == StartOf(Some(compression), rd.Available())
    ensures forall o :: o in Footprint(d) ==> o == rd || o == rd.inner || fresh(o)
  {
    hide Valid, Model, Lzs.StartState, Lz5.StartState, Lh1.StartState, StartState;
    match compression
    case Pm0 => d := NewPassthrough(rd);
    case Lz4 => d := NewPassthrough(rd);
    case Lh0 => d := NewPassthrough(rd);
    case LzsMethod => d := NewLzs(rd);
    case Lz5Method => d := NewLz5(rd);
    case Lh1Method => d := NewLh1(rd);
    case Lh4 => d := NewV2(Lh5, rd);
    case Lh5Method => d := NewV2(Lh5, rd);
    case Lh6 => d := NewV2(Lh7, rd);
    case Lh7Method => d := NewV2(Lh7, rd);
    case LhxMethod => d := NewV2(Lhx, rd);
    case _ => d := NewUnsupported(rd);
  }

  method NewPassthrough(rd: Take) returns (d: DecoderAny)
    requires rd.Valid()
    ensures Valid(d) && IntoInner(d) == rd
    ensures Model(d) == Stored(rd.Available())
    ensures forall o :: o in Footprint(d) ==> o == rd || o == rd.inner || fresh(o)
  {
    d := Passthrough(rd);
  }

  method NewUnsupported(rd: Take) returns (d: DecoderAny)
    requires rd.Valid()
    ensures Valid(d) && IntoInner(d) == rd
    ensures Model(d) == Nothing
    ensures forall o :: o in Footprint(d) ==> o == rd || o == rd.inner || fresh(o)
    ensures d == Unsupported(rd)
  {
    d := Unsupported(rd);
  }

  /** The data of a file: what follows its header, up to the compressed size or the end of the source. */
  function FileData(data: seq<byte>, pos: nat, size: nat): seq<byte>
    requires pos <= |data|
  {
    data[pos..pos + Min(size, |data| - pos)]
  }

  lemma LimitedData(limited: Take)
    requires limited.Valid()
    ensures limited.Available() == FileData(limited.inner.data, limited.inner.pos, limited.limit)
  {
  }

  /** A decoder for a file: the one of its method, limited to the compressed size that the header gives. */
  method NewFromHeader(h: LhaHeader, rd: SliceReader) returns (d: DecoderAny)
    requires rd.Valid()
    ensures Valid(d) && IntoInner(d).inner == rd && IntoInner(d).limit == h.compressedSize && rd.pos == old(rd.pos)
    ensures Model(d) == StartOf(MethodOf(h.compression), FileData(rd.data, rd.pos, h.compressedSize))
    ensures forall o :: o in Footprint(d) ==> o == rd || fresh(o)
  {
    hide Valid, Model, Footprint, IntoInner, MethodOf, Lzs.StartState, Lz5.StartState, Lh1.StartState, StartState;
    var limited := new Take(rd, h.compressedSize);
    LimitedData(limited);
    var compression := MethodOf(h.compression);
    if compression.Some? {
      d := NewFromCompression(compression.value, limited);
    } else {
      d := NewUnsupported(limited);
    }
  }
}
