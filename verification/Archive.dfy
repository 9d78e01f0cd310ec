/** Whole archives: the members of a source, and a loop that extracts all of them. */
module Archives {
  import opened Wrappers
  import opened StubIo
  import opened Crc16s
  import opened HeaderFormat
  import opened Decoders
  import opened Sessions
  import opened Lz

  datatype Member = Member(header: LhaHeader, data: seq<byte>)

  /** A file as extracted: its header, its contents if they could be decoded, and whether their checksum is right. */
  datatype Extracted = Extracted(header: LhaHeader, contents: Option<seq<byte>>, crcIsOk: bool)

  /** The members from a position on: each begins where the data of the one before ends, or the source does. */
  ghost function Members(source: seq<byte>, pos: nat): Option<seq<Member>>
    requires pos <= |source|
    decreases |source| - pos
  {
    if pos == |source| || source[pos] == 0 then Some([])
    else match ParseHeader(source[pos..])
      case None => None
      case Some((h, n)) =>
        Joined([Member(h, FileData(source, pos + n, h.compressedSize))],
               Members(source, Min(pos + n + h.compressedSize, |source|)))
  }

  function Joined(a: seq<Member>, b: Option<seq<Member>>): Option<seq<Member>> {
    match b case None => None case Some(s) => Some(a + s)
  }

  lemma JoinedTwice(a: seq<Member>, b: seq<Member>, c: Option<seq<Member>>)
    ensures Joined(a, Joined(b, c)) == Joined(a + b, c)
  {
    if c.Some? { assert a + (b + c.value) == (a + b) + c.value; }
  }

  lemma NothingJoined(b: Option<seq<Member>>)
    ensures Joined([], b) == b
  {
    if b.Some? { assert [] + b.value == b.value; }
  }

  lemma JoinedEnds(a: seq<Member>)
    ensures Joined(a, None) == None && Joined(a, Some([])) == Some(a)
  {
    assert a + [] == a;
  }

  /** A file: the original size of bytes that the header's method decodes from the member's data. */
  ghost function Contents(m: Member): Option<seq<byte>> {
    Whole(StartOf(MethodOf(m.header.compression), m.data), m.header.originalSize)
  }

  ghost function Whole(start: Plain, n: nat): Option<seq<byte>> {
    match Produce(start, n) case None => None case Some((x, _)) => Some(x)
  }

  ghost function Extract(m: Member): Extracted {
    Extracted(m.header, Contents(m), Contents(m).Some? && Crc(0, Contents(m).value) == m.header.fileCrc)
  }

  /** If a part cannot be produced, the whole cannot. */
  lemma PartFails(start: Plain, a: nat, n: nat)
    requires a <= n && Produce(start, a).None?
    ensures Whole(start, n).None?
  {
    hide Produce;
    ProduceSplits(start, a, n - a);
  }

  lemma WholeIsProduced(start: Plain, d: DecoderAny, x: seq<byte>)
    requires Faithful(d, start, x) && !d.Unsupported?
    ensures Whole(start, |x|) == Some(x)
  {
    hide Produce, Decoders.Valid, Model;
  }

  lemma UnsupportedStart(start: Plain, d: DecoderAny, n: nat)
    requires Faithful(d, start, []) && d.Unsupported?
    ensures Whole(start, n).None?
  {
    hide Decoders.Valid;
    NothingProduces(n);
  }

  /** Read the current file to its end, with a buffer of any size. */
  method ReadFile(session: LhaDecodeReader, size: nat) returns (contents: Option<seq<byte>>)
    requires session.Valid() && session.decoder.Some? && session.intact && session.delivered == [] && size > 0
    modifies session.Footprint()
    ensures session.Valid() && session.decoder == old(session.decoder) && session.header == old(session.header)
    ensures IntoInner(session.decoder.value).End() == old(IntoInner(session.decoder.value).End())
    ensures contents == Whole(old(session.start), session.header.originalSize)
    ensures contents.Some? ==> session.CrcIsOk() == (Crc(0, contents.value) == session.header.fileCrc)
  {
    hide Faithful, Crc, Decoders.Footprint, IntoInner, Produce, Whole;
    InnerIsOwned(session.decoder.value);
    if session.decoder.value.Unsupported? {
      UnsupportedStart(session.start, session.decoder.value, session.header.originalSize);
      return None;
    }
    var buf := new byte[size];
    var read := [];
    while session.Len() != 0
      invariant session.Valid() && session.decoder == old(session.decoder) && session.header == old(session.header)
      invariant session.intact && session.start == old(session.start) && session.delivered == read
      invariant IntoInner(session.decoder.value).End() == old(IntoInner(session.decoder.value).End())
      decreases session.Len()
    {
      var n := session.Read(buf);
      if n.Err? {
        PartFails(session.start, |read| + Min(size, session.header.originalSize - |read|), session.header.originalSize);
        return None;
      }
      read := read + buf[..n.value];
    }
    WholeIsProduced(session.start, session.decoder.value, read);
    return Some(read);
  }

  /** The session stands at the beginning of a member, with the other members still to come. */
  ghost predicate AtMember(session: LhaDecodeReader, rd: SliceReader, m: Member)
    reads session, session.Footprint(), rd,
      if session.decoder.Some? then {IntoInner(session.decoder.value), IntoInner(session.decoder.value).inner} else {}
  {
    && session.Valid() && session.decoder.Some? && session.intact
    && session.delivered == [] && session.header == m.header
    && session.start == StartOf(MethodOf(m.header.compression), m.data)
    && IntoInner(session.decoder.value).inner == rd
  }

  /** Extract one member. */
  method ExtractOne(session: LhaDecodeReader, rd: SliceReader, size: nat, ghost m: Member) returns (x: Extracted)
    requires AtMember(session, rd, m) && size > 0
    modifies session.Footprint()
    ensures session.Valid() && session.decoder == old(session.decoder)
    ensures IntoInner(session.decoder.value).End() == old(IntoInner(session.decoder.value).End())
    ensures x == Extract(m)
  {
    hide Faithful, Crc, Decoders.Footprint, IntoInner, Produce, Whole, StartOf, MethodOf;
    var contents := ReadFile(session, size);
    x := Extracted(session.header, contents, contents.Some? && session.CrcIsOk());
  }

  ghost function ExtractEach(ms: seq<Member>): seq<Extracted> {
    seq(|ms|, i requires 0 <= i < |ms| => Extract(ms[i]))
  }

  lemma ExtractSnoc(ms: seq<Member>, m: Member)
    ensures ExtractEach(ms + [m]) == ExtractEach(ms) + [Extract(m)]
  {
    hide Extract;
  }

  /** Where the data of the current file ends in the source. */
  function DataEnd(session: LhaDecodeReader, rd: SliceReader): nat
    requires session.decoder.Some?
    reads session, IntoInner(session.decoder.value), IntoInner(session.decoder.value).inner
  {
    Min(IntoInner(session.decoder.value).limit + IntoInner(session.decoder.value).inner.pos, |rd.data|)
  }

  lemma MembersHere(source: seq<byte>, pos: nat)
    requires pos <= |source|
    ensures pos == |source| || source[pos] == 0 ==> Members(source, pos) == Some([])
    ensures pos < |source| && source[pos] != 0 && ParseHeader(source[pos..]).None? ==> Members(source, pos).None?
    ensures ParseHeader(source[pos..]).Some? ==>
      var (h, n) := ParseHeader(source[pos..]).value;
      && pos + n <= |source|
      && Members(source, pos) == Joined([Member(h, FileData(source, pos + n, h.compressedSize))],
                                        Members(source, Min(pos + n + h.compressedSize, |source|)))
  {
    hide ParseHeader;
  }

  /** What the outcome of looking for a member at a position says about the members from there on. */
  ghost predicate Found(r: Result<bool>, session: LhaDecodeReader, rd: SliceReader, at: nat, m: Member)
    reads session, session.Footprint(), rd,
      if session.decoder.Some? then {IntoInner(session.decoder.value), IntoInner(session.decoder.value).inner} else {}
  {
    && at <= |rd.data|
    && match r
       case Err(_) => Members(rd.data, at).None?
       case Ok(false) => Members(rd.data, at) == Some([])
       case Ok(true) =>
         && AtMember(session, rd, m) && at < DataEnd(session, rd)
         && Members(rd.data, at) == Joined([m], Members(rd.data, DataEnd(session, rd)))
  }

  /** Begin with the first member of a source. */
  method BeginArchive(session: LhaDecodeReader, rd: SliceReader) returns (r: Result<bool>, ghost m: Member)
    requires session.Valid() && rd.Valid()
    modifies session, session.crc, rd
    ensures Found(r, session, rd, old(rd.pos), m)
    ensures r.Ok? ==> session.Valid() && forall o :: o in session.Footprint() ==>
      o in {session, session.crc, rd} || fresh(o)
  {
    hide Faithful, Crc, Decoders.Footprint, Members, Joined, ParseHeader, StartOf, MethodOf, FileData,
      LhaDecodeReader.Valid;
    MembersHere(rd.data, rd.pos);
    r := session.BeginNew(rd);
    m := Member(session.header, FileData(rd.data, Min(rd.pos, |rd.data|), session.header.compressedSize));
  }

  /** Go on to the next member. */
  method NextMember(session: LhaDecodeReader, rd: SliceReader, sink: nat) returns (r: Result<bool>, ghost m: Member)
    requires session.Valid() && session.decoder.Some? && IntoInner(session.decoder.value).inner == rd && sink > 0
    modifies session.Footprint()
    ensures Found(r, session, rd, old(DataEnd(session, rd)), m)
    ensures r.Ok? ==> session.Valid() && forall o :: o in session.Footprint() ==>
      o in old(session.Footprint()) || fresh(o)
  {
    hide Faithful, Crc, Decoders.Footprint, Members, Joined, ParseHeader, StartOf, MethodOf, FileData,
      LhaDecodeReader.Valid;
    MembersHere(rd.data, DataEnd(session, rd));
    r := session.NextFileWithSink(sink);
    m := Member(session.header, FileData(rd.data, Min(rd.pos, |rd.data|), session.header.compressedSize));
  }

  /**
    Extract a whole archive, with a read buffer and a sink of any sizes. It ends, and sees each member once and in
    order; it succeeds exactly if every header up to the end can be read.
   */
  method ExtractAll(rd: SliceReader, size: nat, sink: nat) returns (r: Result<seq<Extracted>>)
    requires rd.Valid() && size > 0 && sink > 0
    modifies rd
    ensures r.Ok? <==> Members(rd.data, old(rd.pos)).Some?
    ensures r.Ok? ==> r.value == ExtractEach(Members(rd.data, old(rd.pos)).value)
  {
    hide Faithful, Crc, Decoders.Footprint, Extract, Members, Joined, LhaDecodeReader.Valid, IntoInner;
    var session := new LhaDecodeReader();
    ghost var all, at, done := Members(rd.data, rd.pos), rd.pos, [];
    var more, m := BeginArchive(session, rd);
    var list := [];
    NothingJoined(all);
    while more == Ok(true)
      invariant Found(more, session, rd, at, m) && all == Joined(done, Members(rd.data, at))
      invariant fresh(session)
      invariant (more.Ok? ==> session.Valid() && forall o :: o in session.Footprint() ==> o == rd || fresh(o))
      invariant list == ExtractEach(done)
      decreases |rd.data| - at
    {
      var x := ExtractOne(session, rd, size, m);
      ExtractSnoc(done, m);
      JoinedTwice(done, [m], Members(rd.data, DataEnd(session, rd)));
      list, done, at := list + [x], done + [m], DataEnd(session, rd);
      more, m := NextMember(session, rd, sink);
    }
    JoinedEnds(done);
    match more
    case Err(e) => return Err(e);
    case Ok(_) => return Ok(list);
  }
}
