/** Writing whole files and archives, and why extracting them gives the contents back. */
module ArchiveWriting {
  import opened Wrappers
  import opened Sums
  import opened Bits
  import opened Crc16s
  import opened Headers
  import opened HeaderFormat
  import opened HeaderWriting
  import opened Lz
  import Lzs = LzsDecoders
  import Lz5 = Lz5Decoders
  import Lh1 = Lh1Decoders
  import LzsFiles = LzsWriting
  import Lz5Files = Lz5Writing
  import Lh1Files = Lh1Writing
  import V2Files = Lhv2Writing
  import DynTree
  import DynTreeNew
  import DynTreeRun
  import opened Lhv2Format
  import opened StaticTree
  import opened CanonicalCode
  import opened StubIo
  import opened Decoders
  import opened Archives

  // ---- files

  /** What a writer of a file decides on: the bytes themselves, commands, or blocks of commands. */
  datatype Stream =
    | Plainly(bytes: seq<byte>)
    | Commands(commands: seq<Command>)
    | Blocks(blocks: seq<V2Files.Written>)

  function ConfigOf(m: CompressionMethod): Option<Config> {
    match m
    case Lh4 => Some(Lh5)
    case Lh5Method => Some(Lh5)
    case Lh6 => Some(Lh7)
    case Lh7Method => Some(Lh7)
    case LhxMethod => Some(Lhx)
    case _ => None
  }

  predicate IsStored(m: CompressionMethod) {
    m == Pm0 || m == Lz4 || m == Lh0
  }

  /** The methods that can be decoded. */
  predicate IsSupported(m: CompressionMethod) {
    IsStored(m) || m == LzsMethod || m == Lz5Method || m == Lh1Method || ConfigOf(m).Some?
  }

  /** A stream that the format of a method can express. */
  ghost predicate Suits(m: CompressionMethod, s: Stream) {
    if IsStored(m) then s.Plainly?
    else if m == LzsMethod then s.Commands? && LzsFiles.CommandsFit(s.commands)
    else if m == Lz5Method then s.Commands? && Lz5Files.CommandsFit(s.commands)
    else if m == Lh1Method then s.Commands? && Lh1Files.CommandsFit(s.commands, Lh1.NUM_LEAVES)
    else ConfigOf(m).Some? && s.Blocks? && V2Files.BlocksFit(ConfigOf(m).value, s.blocks)
  }

  function Spaces(n: nat): seq<byte> {
    seq(n, _ => ' ' as byte)
  }

  /** What copies find in front of a file. */
  ghost function HistoryOf(m: CompressionMethod): seq<byte> {
    if m == LzsMethod then Spaces(Lzs.RING_BUFFER_SIZE)
    else if m == Lz5Method then Lz5.PresetHistory()
    else if m == Lh1Method then Spaces(Pow2(Lh1.RING_BITS))
    else if ConfigOf(m).Some? then Spaces(Pow2(ConfigOf(m).value.HistoryBits() - 1))
    else []
  }

  ghost function Lh1Bits(cs: seq<Command>): seq<bool>
    requires Lh1Files.CommandsFit(cs, Lh1.NUM_LEAVES)
  {
    hide DynTreeNew.NewTree;
    DynTreeNew.NewTreeIsHeap(Lh1.NUM_LEAVES);
    Lh1Files.WriteAll(DynTreeNew.NewTree(Lh1.NUM_LEAVES), cs)
  }

  /** The bytes of a file, with the last one filled up. */
  ghost function DataOf(m: CompressionMethod, s: Stream): seq<byte>
    requires Suits(m, s)
  {
    if IsStored(m) then s.bytes
    else if m == LzsMethod then PackBits(LzsFiles.WriteAll(s.commands, |HistoryOf(m)|))
    else if m == Lz5Method then Lz5Files.WriteAll(s.commands, |HistoryOf(m)|)
    else if m == Lh1Method then PackBits(Lh1Bits(s.commands))
    else PackBits(V2Files.WriteBlocks(ConfigOf(m).value, s.blocks))
  }

  ghost function CommandsOf(s: Stream): seq<Command> {
    match s
    case Plainly(bytes) => LiteralsOf(bytes)
    case Commands(cs) => cs
    case Blocks(ws) => V2Files.AllCommands(ws)
  }

  function LiteralsOf(bytes: seq<byte>): seq<Command> {
    if bytes == [] then [] else [Literal(bytes[0])] + LiteralsOf(bytes[1..])
  }

  /** What the commands of a file produce. */
  ghost function ContentsOf(m: CompressionMethod, s: Stream): seq<byte> {
    Growth(HistoryOf(m), CommandsOf(s))
  }

  ghost function Growth(history: seq<byte>, cs: seq<Command>): seq<byte> {
    PerformGrows(history, cs);
    PerformAll(history, cs)[|history|..]
  }

  lemma {:induction false} PerformGrows(history: seq<byte>, cs: seq<Command>)
    ensures history <= PerformAll(history, cs)
    decreases |cs|
  {
    if cs != [] { PerformGrows(Perform(history, cs[0]), cs[1..]); }
  }

  lemma LiteralFirst(history: seq<byte>, b: byte, cs: seq<Command>)
    ensures PerformAll(history, [Literal(b)] + cs) == PerformAll(history + [b], cs)
  {
    assert ([Literal(b)] + cs)[1..] == cs;
  }

  lemma {:induction false} LiteralsPerformed(history: seq<byte>, x: seq<byte>)
    ensures PerformAll(history, LiteralsOf(x)) == history + x
    decreases |x|
  {
    hide PerformAll;
    if x == [] {
      NothingPerformed(history);
      assert history + x == history;
    } else {
      LiteralFirst(history, x[0], LiteralsOf(x[1..]));
      LiteralsPerformed(history + [x[0]], x[1..]);
      assert history + [x[0]] + x[1..] == history + x;
    }
  }

  lemma LiteralsGrow(history: seq<byte>, x: seq<byte>)
    ensures Growth(history, LiteralsOf(x)) == x
  {
    hide PerformAll, LiteralsOf;
    LiteralsPerformed(history, x);
  }

  // ---- decoding what was written

  lemma StoredIsDecoded(bytes: seq<byte>)
    ensures Whole(Stored(bytes), |bytes|) == Some(bytes)
  {
    assert bytes[..|bytes|] == bytes;
  }

  lemma LzsIsDecoded(cs: seq<Command>)
    requires LzsFiles.CommandsFit(cs)
    ensures var h := Spaces(Lzs.RING_BUFFER_SIZE);
      Whole(PlainLzs(Lzs.StartState(PackBits(LzsFiles.WriteAll(cs, |h|)))), |Growth(h, cs)|) == Some(Growth(h, cs))
  {
    hide LzsFiles.CommandsFit, LzsFiles.WriteAll, Lzs.ReadLzs, Fill, PerformAll, PackBits, BytesBits, Falses;
    var h := Spaces(Lzs.RING_BUFFER_SIZE);
    var bits := LzsFiles.WriteAll(cs, |h|);
    PackedAreRead(bits);
    PerformGrows(h, cs);
    LzsFiles.StreamIsDecoded(cs, Falses(Unfilled(|bits|)), h);
  }

  lemma Lz5IsDecoded(cs: seq<Command>)
    requires Lz5Files.CommandsFit(cs)
    ensures var h := Lz5.PresetHistory();
      Whole(PlainLz5(Lz5.StartState(Lz5Files.WriteAll(cs, |h|))), |Growth(h, cs)|) == Some(Growth(h, cs))
  {
    hide Lz5Files.CommandsFit, Lz5Files.WriteAll, Lz5.ReadLz5, Fill, PerformAll, Lz5.PresetHistory, Falses, Unfilled;
    var h := Lz5.PresetHistory();
    PerformGrows(h, cs);
    Lz5Files.StreamIsDecoded(cs, [], h);
    assert Lz5Files.WriteAll(cs, |h|) + [] == Lz5Files.WriteAll(cs, |h|);
  }

  lemma Lh1IsFilled(cs: seq<Command>)
    requires Lh1Files.CommandsFit(cs, Lh1.NUM_LEAVES)
    ensures var h := Spaces(Pow2(Lh1.RING_BITS));
      var r := Fill(Lh1.ReadLh1, Lh1.StartState(PackBits(Lh1Bits(cs))), |Growth(h, cs)|);
      r.Some? && r.value.0 == Growth(h, cs)
  {
    hide Lh1Files.CommandsFit, Lh1Files.WriteAll, Lh1.ReadLh1, Fill, PerformAll, PackBits, BytesBits, Falses, Unfilled,
      DynTreeNew.NewTree, DynTreeNew.HeapShaped, DynTree.Valid, DynTree.Indexed, DynTree.Count, DynTreeRun.Run,
      Lh1Files.SymbolsOf, Pow2;
    var h, t := Spaces(Pow2(Lh1.RING_BITS)), DynTreeNew.NewTree(Lh1.NUM_LEAVES);
    DynTreeNew.NewTreeIsHeap(Lh1.NUM_LEAVES);
    PackedAreRead(Lh1Bits(cs));
    PerformGrows(h, cs);
    Lh1Files.StreamIsDecoded(t, cs, Falses(Unfilled(|Lh1Bits(cs)|)), h);
  }

  lemma Lh1IsDecoded(cs: seq<Command>)
    requires Lh1Files.CommandsFit(cs, Lh1.NUM_LEAVES)
    ensures var h := Spaces(Pow2(Lh1.RING_BITS));
      Whole(PlainLh1(Lh1.StartState(PackBits(Lh1Bits(cs)))), |Growth(h, cs)|) == Some(Growth(h, cs))
  {
    hide Lh1Files.CommandsFit, Lh1.StartState, Fill, PackBits, Lh1Bits, Growth, Spaces, Pow2;
    Lh1IsFilled(cs);
  }

  lemma V2IsDecoded(config: Config, ws: seq<V2Files.Written>)
    requires V2Files.BlocksFit(config, ws)
    ensures var h, cs := Spaces(Pow2(config.HistoryBits() - 1)), V2Files.AllCommands(ws);
      Whole(PlainV2(StartState(config, PackBits(V2Files.WriteBlocks(config, ws)))), |Growth(h, cs)|)
        == Some(Growth(h, cs))
  {
    hide V2Files.BlocksFit, V2Files.WriteBlocks, V2Files.AllCommands, ReadV2, Fill, PerformAll, PackBits, BytesBits,
      Falses;
    var h, bits := Spaces(Pow2(config.HistoryBits() - 1)), V2Files.WriteBlocks(config, ws);
    PackedAreRead(bits);
    PerformGrows(h, V2Files.AllCommands(ws));
    V2Files.StreamIsDecoded(config, ws, Falses(Unfilled(|bits|)), h);
  }

  lemma StartOfMethod(m: CompressionMethod, bytes: seq<byte>)
    ensures IsStored(m) ==> StartOf(Some(m), bytes) == Stored(bytes)
    ensures m == LzsMethod ==> StartOf(Some(m), bytes) == PlainLzs(Lzs.StartState(bytes))
    ensures m == Lz5Method ==> StartOf(Some(m), bytes) == PlainLz5(Lz5.StartState(bytes))
    ensures m == Lh1Method ==> StartOf(Some(m), bytes) == PlainLh1(Lh1.StartState(bytes))
    ensures ConfigOf(m).Some? ==> StartOf(Some(m), bytes) == PlainV2(StartState(ConfigOf(m).value, bytes))
  {
    hide Lzs.StartState, Lz5.StartState, Lh1.StartState, StartState;
  }

  /** Whatever a method can express, its decoder turns the bytes of the file back into the contents. */
  lemma FileIsDecoded(m: CompressionMethod, s: Stream)
    requires Suits(m, s)
    ensures Whole(StartOf(Some(m), DataOf(m, s)), |ContentsOf(m, s)|) == Some(ContentsOf(m, s))
  {
    hide Whole, StartOf, Growth, LzsFiles.CommandsFit, Lz5Files.CommandsFit, Lh1Files.CommandsFit, V2Files.BlocksFit,
      PackBits, Lh1Bits,
      LzsFiles.WriteAll, Lz5Files.WriteAll, V2Files.WriteBlocks, Lzs.StartState, Lz5.StartState, Lh1.StartState,
      StartState,
      Spaces, Lz5.PresetHistory, V2Files.AllCommands, LiteralsOf, PerformAll;
    StartOfMethod(m, DataOf(m, s));
    if IsStored(m) {
      StoredIsDecoded(s.bytes);
      LiteralsGrow([], s.bytes);
    } else if m == LzsMethod {
      LzsIsDecoded(s.commands);
    } else if m == Lz5Method {
      Lz5IsDecoded(s.commands);
    } else if m == Lh1Method {
      Lh1IsDecoded(s.commands);
    } else {
      V2IsDecoded(ConfigOf(m).value, s.blocks);
    }
  }

  // ---- any contents

  lemma {:induction false} LiteralsAreLiterals(x: seq<byte>)
    ensures |LiteralsOf(x)| == |x| && forall i :: 0 <= i < |x| ==> LiteralsOf(x)[i] == Literal(x[i])
  {
    if x != [] { LiteralsAreLiterals(x[1..]); }
  }

  /** All byte values with codes of eight bits. */
  function EightEach(): Lengths {
    seq(256, _ => 8)
  }

  lemma {:induction false} EightsAdd(n: nat)
    requires n <= 256
    ensures KraftSum(EightEach(), MAX_LENGTH, n) == n * Pow2(MAX_LENGTH - 8)
  {
    hide Pow2;
    if n > 0 { EightsAdd(n - 1); }
  }

  lemma EightEachIsComplete()
    ensures Complete(EightEach())
  {
    hide Pow2, Shl;
    EightsAdd(256);
    ShlOne(MAX_LENGTH);
    ShlAdd(1, MAX_LENGTH - 8, 8);
    ShlOne(MAX_LENGTH - 8);
    EightBits(Pow2(MAX_LENGTH - 8));
  }

  function EightTokens(n: nat): (r: Tokens)
    ensures |r| == n && forall i :: 0 <= i < n ==> r[i] == Length(8)
  {
    seq(n, _ => Length(8))
  }

  lemma {:induction false} EightTokensCover(n: nat)
    ensures V2Files.Covers(EightTokens(n), n) && Expand(EightTokens(n)) == seq(n, _ => 8)
  {
    if n > 0 {
      EightTokensCover(n - 1);
      assert EightTokens(n)[1..] == EightTokens(n - 1);
      assert [8] + seq(n - 1, _ => 8) == seq(n, _ => 8);
    }
  }

  /** A plan for literals alone: the length of every byte value's code is the one token there is. */
  ghost function LiteralPlan(): V2Files.Plan {
    EightEachIsComplete();
    V2Files.Plan(Single(10), 0, EightTokens(256), Canonical(EightEach()), Single(0))
  }

  lemma LiteralPlanFits(config: Config)
    ensures V2Files.PlanFits(config, LiteralPlan())
    ensures forall b: byte :: V2Files.CommandFits(config, LiteralPlan(), Literal(b))
  {
    hide Complete, Expand, V2Files.Covers, Config.OffsetBits;
    EightTokensCover(256);
    assert EightEach()[..256] == EightEach();
  }

  /** Literals in blocks of at most as many as a block can count. */
  ghost function LiteralBlocks(x: seq<byte>): seq<V2Files.Written>
    decreases |x|
  {
    if x == [] then []
    else [V2Files.Written(LiteralPlan(), LiteralsOf(x[..Min(0xffff, |x|)]))] + LiteralBlocks(x[Min(0xffff, |x|)..])
  }

  lemma {:induction false} LiteralsJoin(a: seq<byte>, b: seq<byte>)
    ensures LiteralsOf(a) + LiteralsOf(b) == LiteralsOf(a + b)
    decreases |a|
  {
    if a == [] {
      assert a + b == b;
    } else {
      LiteralsJoin(a[1..], b);
      assert (a + b)[1..] == a[1..] + b;
    }
  }

  lemma LiteralBlockFits(config: Config, x: seq<byte>)
    requires 0 < |x| < 0x10000
    ensures V2Files.BlockFits(config, V2Files.Written(LiteralPlan(), LiteralsOf(x)))
  {
    hide V2Files.PlanFits, V2Files.CommandFits, LiteralPlan, LiteralsOf;
    LiteralPlanFits(config);
    LiteralsAreLiterals(x);
    SixteenBits();
  }

  lemma SixteenBits()
    ensures Pow2(16) == 0x10000
  {
    hide Pow2, Shl;
    ShlOne(16);
    ShlAdd(1, 8, 8);
    EightBits(1);
    EightBits(256);
  }

  lemma {:induction false} LiteralBlocksFit(config: Config, x: seq<byte>)
    ensures V2Files.BlocksFit(config, LiteralBlocks(x)) && V2Files.AllCommands(LiteralBlocks(x)) == LiteralsOf(x)
    decreases |x|
  {
    hide V2Files.BlockFits, LiteralPlan, LiteralsOf;
    if x == [] {
      NoLiterals();
    } else {
      var k := Min(0xffff, |x|);
      LiteralBlockFits(config, x[..k]);
      LiteralBlocksFit(config, x[k..]);
      LiteralsJoin(x[..k], x[k..]);
      assert x[..k] + x[k..] == x;
      assert LiteralBlocks(x)[1..] == LiteralBlocks(x[k..]);
    }
  }

  lemma NoLiterals()
    ensures LiteralsOf([]) == []
  {
  }

  /** Any contents can be written in the format of any method that can be decoded. */
  lemma AnyContentsSuit(m: CompressionMethod, x: seq<byte>) returns (s: Stream)
    requires IsSupported(m)
    ensures Suits(m, s) && ContentsOf(m, s) == x
  {
    hide V2Files.BlocksFit, V2Files.AllCommands, LiteralBlocks, LiteralsOf, Growth, HistoryOf;
    LiteralsAreLiterals(x);
    LiteralsGrow(HistoryOf(m), x);
    if IsStored(m) {
      s := Plainly(x);
    } else if ConfigOf(m).Some? {
      LiteralBlocksFit(ConfigOf(m).value, x);
      s := Blocks(LiteralBlocks(x));
    } else {
      s := Commands(LiteralsOf(x));
    }
  }

  // ---- archives

  /** A member as it is written: a header, and a stream of a method for its data. */
  datatype Entry = Entry(draft: Draft, compression: CompressionMethod, stream: Stream)

  /** The header of an entry announces what its data and its contents are. */
  ghost predicate EntryFits(e: Entry) {
    && Writable(e.draft) && Suits(e.compression, e.stream)
    && var h, x := HeaderOfDraft(e.draft), ContentsOf(e.compression, e.stream);
       && h.compression == IdBytes(e.compression) && h.compressedSize == |DataOf(e.compression, e.stream)|
       && h.originalSize == |x| && h.fileCrc == Crc(0, x)
  }

  ghost predicate EntriesFit(es: seq<Entry>) {
    forall i :: 0 <= i < |es| ==> EntryFits(es[i])
  }

  ghost function DataIn(e: Entry): seq<byte>
    requires EntryFits(e)
  {
    DataOf(e.compression, e.stream)
  }

  ghost function ContentsIn(e: Entry): seq<byte>
    requires EntryFits(e)
  {
    ContentsOf(e.compression, e.stream)
  }

  /** Headers and data, one member after the other. */
  ghost function WriteArchive(es: seq<Entry>): seq<byte>
    requires EntriesFit(es)
  {
    if es == [] then [] else WriteHeader(es[0].draft) + DataIn(es[0]) + WriteArchive(es[1..])
  }

  ghost function MembersIn(es: seq<Entry>): seq<Member>
    requires EntriesFit(es)
  {
    if es == [] then [] else [Member(HeaderOfDraft(es[0].draft), DataIn(es[0]))] + MembersIn(es[1..])
  }

  /** An archive may end with its last member, or with a zero byte behind it. */
  predicate Ends(tail: seq<byte>) {
    tail == [] || tail[0] == 0
  }

  lemma EntrySizes(e: Entry)
    requires EntryFits(e)
    ensures Writable(e.draft) && HeaderOfDraft(e.draft).compressedSize == |DataIn(e)|
  {
  }

  lemma EndIsThere(before: seq<byte>, tail: seq<byte>)
    ensures before + [] + tail == before + tail
    ensures |before + tail| == |before| || (before + tail)[|before|] == tail[0]
  {
  }

  lemma MemberIsThere(before: seq<byte>, header: seq<byte>, data: seq<byte>, others: seq<byte>, tail: seq<byte>)
    ensures var source := before + (header + data + others) + tail;
      && source == before + header + data + others + tail
      && source[|before|..] == header + (data + others + tail)
      && source[|before| + |header|..|before| + |header| + |data|] == data
  {
  }

  /** Behind what was written before, a member is found where it begins, and the next where its data ends. */
  lemma {:induction false} MembersAreFound(before: seq<byte>, es: seq<Entry>, tail: seq<byte>)
    requires EntriesFit(es) && Ends(tail)
    ensures Members(before + WriteArchive(es) + tail, |before|) == Some(MembersIn(es))
    decreases |es|
  {
    hide EntryFits, ParseHeader, WriteHeader, HeaderOfDraft, Writable, DataIn, Members;
    var source := before + WriteArchive(es) + tail;
    MembersHere(source, |before|);
    if es == [] {
      EndIsThere(before, tail);
    } else {
      EntrySizes(es[0]);
      var header, data, others := WriteHeader(es[0].draft), DataIn(es[0]), WriteArchive(es[1..]);
      HeaderIsRead(es[0].draft, data + others + tail);
      MemberIsThere(before, header, data, others, tail);
      MembersAreFound(before + header + data, es[1..], tail);
    }
  }

  /** Extracting an archive that was written gives the contents of each member, and finds its checksum right. */
  lemma ArchiveIsExtracted(es: seq<Entry>, tail: seq<byte>)
    requires EntriesFit(es) && Ends(tail)
    ensures Members(WriteArchive(es) + tail, 0).Some?
    ensures var xs := ExtractEach(Members(WriteArchive(es) + tail, 0).value);
      && |xs| == |es|
      && forall i :: 0 <= i < |es| ==>
        EntryFits(es[i]) && xs[i] == Extracted(HeaderOfDraft(es[i].draft), Some(ContentsIn(es[i])), true)
  {
    hide EntryFits, WriteArchive, MembersIn, Members, HeaderOfDraft, Writable, ContentsIn, Extract;
    assert [] + WriteArchive(es) + tail == WriteArchive(es) + tail;
    MembersAreFound([], es, tail);
    MembersInOrder(es);
    forall i | 0 <= i < |es|
      ensures Extract(MembersIn(es)[i]) == Extracted(HeaderOfDraft(es[i].draft), Some(ContentsIn(es[i])), true)
    {
      MemberIsExtracted(es[i]);
    }
  }

  lemma {:induction false} MembersInOrder(es: seq<Entry>)
    requires EntriesFit(es)
    ensures |MembersIn(es)| == |es|
    ensures forall i :: 0 <= i < |es| ==>
      EntryFits(es[i]) && Writable(es[i].draft) && MembersIn(es)[i] == Member(HeaderOfDraft(es[i].draft), DataIn(es[i]))
    decreases |es|
  {
    hide HeaderOfDraft, Writable, DataIn, Suits, IdBytes, ContentsOf;
    if es != [] { MembersInOrder(es[1..]); }
  }

  lemma MemberIsExtracted(e: Entry)
    requires EntryFits(e)
    ensures Writable(e.draft)
    ensures Extract(Member(HeaderOfDraft(e.draft), DataIn(e)))
      == Extracted(HeaderOfDraft(e.draft), Some(ContentsIn(e)), true)
  {
    hide Suits, HeaderOfDraft, Writable, DataOf, ContentsOf, MethodOf, IdBytes, StartOf, Whole, Crc;
    IdentifierIsKnown(e.compression);
    FileIsDecoded(e.compression, e.stream);
  }
}
