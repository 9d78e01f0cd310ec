/** Writing blocks in the lh4 to lhx formats, and why what is written is read back. */
module Lhv2Writing {
  import opened Wrappers
  import opened Sums
  import opened Bits
  import opened StaticTree
  import opened CanonicalCode
  import opened Lz
  import opened Lhv2Format

  // ---- values

  ghost predicate Has(code: Code, v: nat) {
    match code
    case Single(only) => v == only
    case Canonical(lengths) => v < |lengths| && lengths[v] > 0
  }

  ghost function WriteValue(code: Code, v: nat): seq<bool>
    requires Has(code, v)
  {
    match code
    case Single(_) => []
    case Canonical(lengths) => CodeBits(lengths, v)
  }

  lemma ValueIsRead(code: Code, v: nat, rest: seq<bool>)
    requires Has(code, v)
    ensures ReadCode(code, WriteValue(code, v) + rest) == Some((v, rest))
  {
    match code
    case Single(_) => assert [] + rest == rest;
    case Canonical(lengths) =>
      CodeIsRead(lengths, v, rest);
      TreeReadsCode(lengths, CodeBits(lengths, v) + rest);
  }

  // ---- tables of lengths

  function Ones(n: nat): (r: seq<bool>)
    ensures |r| == n + 1
  {
    if n == 0 then [false] else [true] + Ones(n - 1)
  }

  function WriteLength(len: nat): seq<bool> {
    if len < 7 then BitsOf(len, 3) else BitsOf(7, 3) + Ones(len - 7)
  }

  lemma {:induction false} OnesAreRead(len: nat, n: nat, rest: seq<bool>)
    requires len + n <= MAX_LENGTH
    ensures LongerLength(len, Ones(n) + rest) == Some((len + n, rest))
    decreases n
  {
    assert (Ones(n) + rest)[1..] == if n == 0 then rest else Ones(n - 1) + rest;
    if n > 0 { OnesAreRead(len + 1, n - 1, rest); }
  }

  lemma LengthIsRead(len: nat, rest: seq<bool>)
    requires len <= MAX_LENGTH
    ensures CodeLength(WriteLength(len) + rest) == Some((len, rest))
  {
    SmallPowers();
    if len < 7 {
      BitsAreRead(len, 3, rest);
    } else {
      BitsAreRead(7, 3, Ones(len - 7) + rest);
      assert WriteLength(len) + rest == BitsOf(7, 3) + (Ones(len - 7) + rest);
      OnesAreRead(7, len - 7, rest);
    }
  }

  function WriteLengths(lengths: Lengths): seq<bool> {
    if lengths == [] then [] else WriteLength(lengths[0]) + WriteLengths(lengths[1..])
  }

  lemma {:induction false} LengthsAreRead(lengths: Lengths, rest: seq<bool>)
    ensures CodeLengths(WriteLengths(lengths) + rest, |lengths|) == Some((lengths, rest))
    decreases |lengths|
  {
    if lengths == [] {
      assert WriteLengths(lengths) + rest == rest;
    } else {
      var tail := WriteLengths(lengths[1..]) + rest;
      assert WriteLengths(lengths) + rest == WriteLength(lengths[0]) + tail;
      LengthIsRead(lengths[0], tail);
      LengthsAreRead(lengths[1..], rest);
      assert [lengths[0]] + lengths[1..] == lengths;
    }
  }

  /** A code of a single value: a count of zero, and the value. */
  function WriteSingle(v: nat, n: nat): seq<bool> {
    BitsOf(0, n) + BitsOf(v, n)
  }

  lemma SingleIsRead(v: nat, n: nat, rest: seq<bool>)
    requires v < Pow2(n)
    ensures NextBits(WriteSingle(v, n) + rest, n) == Some((0, BitsOf(v, n) + rest))
    ensures SingleCode(BitsOf(v, n) + rest, n) == Some((Single(v), rest))
  {
    assert WriteSingle(v, n) + rest == BitsOf(0, n) + (BitsOf(v, n) + rest);
    BitsAreRead(0, n, BitsOf(v, n) + rest);
    BitsAreRead(v, n, rest);
  }

  // ---- the three codes of a block

  /** A temporary code that can be written with a gap of the given size. */
  ghost predicate TempFits(temp: Code, gap: nat) {
    match temp
    case Single(v) => v < 32
    case Canonical(lengths) =>
      && gap <= 3 && 3 + gap <= |lengths| <= NUM_TEMP_CODELEN
      && forall k :: 3 <= k < 3 + gap ==> lengths[k] == 0
  }

  ghost function WriteTemp(temp: Code, gap: nat): seq<bool>
    requires TempFits(temp, gap)
  {
    match temp
    case Single(v) => WriteSingle(v, 5)
    case Canonical(lengths) =>
      BitsOf(|lengths|, 5) + (WriteLengths(lengths[..3]) + (BitsOf(gap, 2) + WriteLengths(lengths[3 + gap..])))
  }

  lemma TempTailIsRead(lengths: Lengths, gap: nat, rest: seq<bool>)
    requires gap <= 3 && 3 + gap <= |lengths| && forall k :: 3 <= k < 3 + gap ==> lengths[k] == 0
    ensures TempTail(BitsOf(gap, 2) + (WriteLengths(lengths[3 + gap..]) + rest), |lengths|, lengths[..3])
      == Some((lengths, rest))
  {
    hide NextBits, BitsOf, CodeLengths, WriteLengths;
    SmallPowers();
    BitsAreRead(gap, 2, WriteLengths(lengths[3 + gap..]) + rest);
    LengthsAreRead(lengths[3 + gap..], rest);
    assert lengths[..3] + Zeros(gap) + lengths[3 + gap..] == lengths;
  }

  lemma TempIsRead(temp: Code, gap: nat, rest: seq<bool>)
    requires TempFits(temp, gap)
    ensures TempCode(WriteTemp(temp, gap) + rest) == Some((temp, rest))
  {
    SmallPowers();
    match temp
    case Single(v) => SingleIsRead(v, 5, rest);
    case Canonical(lengths) =>
      hide TempTail, CodeLengths, Complete;
      var tail := BitsOf(gap, 2) + (WriteLengths(lengths[3 + gap..]) + rest);
      var body := WriteLengths(lengths[..3]) + tail;
      assert WriteTemp(temp, gap) + rest == BitsOf(|lengths|, 5) + body;
      BitsAreRead(|lengths|, 5, body);
      LengthsAreRead(lengths[..3], tail);
      TempTailIsRead(lengths, gap, rest);
  }

  function Kind(t: Token): nat {
    match t
    case Skip(count) => if count == 1 then 0 else if count < 20 then 1 else 2
    case Length(len) => len + 2
  }

  /** A token that can be written. */
  ghost predicate TokenFits(temp: Code, t: Token) {
    && Has(temp, Kind(t))
    && match t
       case Skip(count) => count == 1 || 3 <= count <= 18 || 20 <= count <= 531
       case Length(len) => 1 <= len <= MAX_LENGTH
  }

  /** The bits of a token behind the code of its kind. */
  function SkipBits(t: Token): seq<bool> {
    match t
    case Skip(count) =>
      if count < 3 then [] else if count < 20 then BitsOf(count - 3, 4) else BitsOf(count - 20, 9)
    case Length(_) => []
  }

  ghost function WriteToken(temp: Code, t: Token): seq<bool>
    requires TokenFits(temp, t)
  {
    WriteValue(temp, Kind(t)) + SkipBits(t)
  }

  lemma TokenIsRead(temp: Code, t: Token, rest: seq<bool>)
    requires TokenFits(temp, t)
    ensures ReadToken(temp, WriteToken(temp, t) + rest) == Some((t, rest))
  {
    hide NextBits, BitsOf, ReadCode, WriteValue, Pow2;
    SmallPowers();
    var kind, more := Kind(t), SkipBits(t);
    assert WriteToken(temp, t) + rest == WriteValue(temp, kind) + (more + rest);
    ValueIsRead(temp, kind, more + rest);
    if kind == 1 {
      BitsAreRead(t.count - 3, 4, rest);
    } else if kind == 2 {
      BitsAreRead(t.count - 20, 9, rest);
    } else {
      assert more + rest == rest;
    }
  }

  /** Tokens that cover n values, but would not without the last. */
  ghost predicate Covers(tokens: Tokens, n: nat) {
    if n == 0 then tokens == [] else tokens != [] && Covers(tokens[1..], n - Min(|Run(tokens[0])|, n))
  }

  ghost predicate TokensFit(temp: Code, tokens: Tokens) {
    forall i :: 0 <= i < |tokens| ==> TokenFits(temp, tokens[i])
  }

  ghost function WriteTokens(temp: Code, tokens: Tokens): seq<bool>
    requires TokensFit(temp, tokens)
  {
    if tokens == [] then [] else WriteToken(temp, tokens[0]) + WriteTokens(temp, tokens[1..])
  }

  lemma NoTokens(temp: Code, bits: seq<bool>)
    ensures ReadTokens(temp, bits, 0) == Some(([], bits))
  {
  }

  lemma OneMoreToken(temp: Code, bits: seq<bool>, n: nat, t: Token, tail: seq<bool>, ts: Tokens, rest: seq<bool>)
    requires n > 0 && ReadToken(temp, bits) == Some((t, tail))
    requires ReadTokens(temp, tail, n - Min(|Run(t)|, n)) == Some((ts, rest))
    ensures ReadTokens(temp, bits, n) == Some(([t] + ts, rest))
  {
    hide ReadToken, Run, Expand;
  }

  lemma {:induction false} TokensAreRead(temp: Code, tokens: Tokens, n: nat, rest: seq<bool>)
    requires TokensFit(temp, tokens) && Covers(tokens, n)
    ensures ReadTokens(temp, WriteTokens(temp, tokens) + rest, n) == Some((tokens, rest))
    decreases |tokens|
  {
    hide TokenFits, ReadToken, ReadTokens, Run, WriteToken, Expand;
    if n == 0 {
      assert WriteTokens(temp, tokens) + rest == rest;
      NoTokens(temp, rest);
    } else {
      var t, ts := tokens[0], tokens[1..];
      var tail := WriteTokens(temp, ts) + rest;
      assert WriteTokens(temp, tokens) + rest == WriteToken(temp, t) + tail;
      TokenIsRead(temp, t, tail);
      TokensAreRead(temp, ts, n - Min(|Run(t)|, n), rest);
      OneMoreToken(temp, WriteToken(temp, t) + tail, n, t, tail, ts, rest);
      assert [t] + ts == tokens;
    }
  }

  lemma TableIsRead(temp: Code, tokens: Tokens, lengths: Lengths, rest: seq<bool>)
    requires TokensFit(temp, tokens) && Covers(tokens, |lengths|)
    requires |lengths| <= |Expand(tokens)| && Expand(tokens)[..|lengths|] == lengths
    ensures ReadTable(temp, WriteTokens(temp, tokens) + rest, |lengths|) == Some((lengths, rest))
  {
    hide TokensFit, Covers, WriteTokens;
    TokensAreRead(temp, tokens, |lengths|, rest);
  }

  /** A code of commands that the given tokens write. */
  ghost predicate CommandsFit(temp: Code, commands: Code, tokens: Tokens) {
    match commands
    case Single(v) => v < 512
    case Canonical(lengths) =>
      && 0 < |lengths| <= NUM_COMMANDS && TokensFit(temp, tokens) && Covers(tokens, |lengths|)
      && |lengths| <= |Expand(tokens)| && Expand(tokens)[..|lengths|] == lengths
  }

  ghost function WriteCommandCode(temp: Code, commands: Code, tokens: Tokens): seq<bool>
    requires CommandsFit(temp, commands, tokens)
  {
    match commands
    case Single(v) => WriteSingle(v, 9)
    case Canonical(lengths) => BitsOf(|lengths|, 9) + WriteTokens(temp, tokens)
  }

  lemma CommandCodeIsRead(temp: Code, commands: Code, tokens: Tokens, rest: seq<bool>)
    requires CommandsFit(temp, commands, tokens)
    ensures CommandCode(temp, WriteCommandCode(temp, commands, tokens) + rest) == Some((commands, rest))
  {
    hide Complete, ReadTable, SingleCode, WriteSingle, NextBits, BitsOf, Pow2, WriteTokens, TokensFit, Covers, Expand;
    SmallPowers();
    match commands
    case Single(v) => SingleIsRead(v, 9, rest);
    case Canonical(lengths) =>
      assert WriteCommandCode(temp, commands, tokens) + rest
          == BitsOf(|lengths|, 9) + (WriteTokens(temp, tokens) + rest);
      BitsAreRead(|lengths|, 9, WriteTokens(temp, tokens) + rest);
      TableIsRead(temp, tokens, lengths, rest);
  }

  ghost predicate OffsetsFit(config: Config, offsets: Code) {
    match offsets
    case Single(v) => v < Pow2(config.OffsetBits())
    case Canonical(lengths) => 0 < |lengths| <= config.HistoryBits()
  }

  ghost function WriteOffsetCode(config: Config, offsets: Code): seq<bool> {
    match offsets
    case Single(v) => WriteSingle(v, config.OffsetBits())
    case Canonical(lengths) => BitsOf(|lengths|, config.OffsetBits()) + WriteLengths(lengths)
  }

  lemma OffsetCodeIsRead(config: Config, offsets: Code, rest: seq<bool>)
    requires OffsetsFit(config, offsets)
    ensures OffsetCode(config, WriteOffsetCode(config, offsets) + rest) == Some((offsets, rest))
  {
    SmallPowers();
    match offsets
    case Single(v) => SingleIsRead(v, config.OffsetBits(), rest);
    case Canonical(lengths) =>
      hide Complete, CodeLengths;
      assert WriteOffsetCode(config, offsets) + rest
          == BitsOf(|lengths|, config.OffsetBits()) + (WriteLengths(lengths) + rest);
      BitsAreRead(|lengths|, config.OffsetBits(), WriteLengths(lengths) + rest);
      LengthsAreRead(lengths, rest);
  }

  // ---- headers

  /** What a writer chooses for a block: its codes, and how their tables are written. */
  datatype Plan = Plan(temp: Code, gap: nat, tokens: Tokens, commands: Code, offsets: Code)

  ghost predicate PlanFits(config: Config, plan: Plan) {
    && TempFits(plan.temp, plan.gap) && CommandsFit(plan.temp, plan.commands, plan.tokens)
    && OffsetsFit(config, plan.offsets)
  }

  ghost function WriteHeader(config: Config, plan: Plan, count: nat): seq<bool>
    requires PlanFits(config, plan)
  {
    BitsOf(count, 16) + (WriteTemp(plan.temp, plan.gap) +
    (WriteCommandCode(plan.temp, plan.commands, plan.tokens) + WriteOffsetCode(config, plan.offsets)))
  }

  /** A header reads back as the codes it was written for, using exactly its bits. */
  lemma HeaderIsRead(config: Config, plan: Plan, count: nat, rest: seq<bool>)
    requires PlanFits(config, plan) && count < Pow2(16)
    ensures BlockHeader(config, WriteHeader(config, plan, count) + rest)
      == Some((Block(count, plan.commands, plan.offsets), rest))
  {
    hide TempFits, CommandsFit, OffsetsFit, TempCode, CommandCode, OffsetCode, NextBits, BitsOf, WriteTemp,
      WriteCommandCode, WriteOffsetCode;
    var offsets := WriteOffsetCode(config, plan.offsets) + rest;
    var commands := WriteCommandCode(plan.temp, plan.commands, plan.tokens) + offsets;
    var codes := WriteTemp(plan.temp, plan.gap) + commands;
    assert WriteHeader(config, plan, count) + rest == BitsOf(count, 16) + codes;
    BitsAreRead(count, 16, codes);
    TempIsRead(plan.temp, plan.gap, commands);
    CommandCodeIsRead(plan.temp, plan.commands, plan.tokens, offsets);
    OffsetCodeIsRead(config, plan.offsets, rest);
  }

  // ---- commands

  /** How many bits a number has. */
  function Size(x: nat): nat {
    if x == 0 then 0 else 1 + Size(x / 2)
  }

  lemma {:induction false} SizeBounds(x: nat)
    requires x > 0
    ensures Size(x) > 0 && Pow2(Size(x) - 1) <= x < Pow2(Size(x))
  {
    if x > 1 { SizeBounds(x / 2); }
  }

  lemma {:induction false} SizeFits(x: nat, n: nat)
    requires x < Pow2(n)
    ensures Size(x) <= n
  {
    if x > 0 && n > 0 { SizeFits(x / 2, n - 1); }
  }

  /** The bits of a number below its highest. */
  function LowBits(x: nat): seq<bool> {
    if Size(x) <= 1 then []
    else
      SizeBounds(x);
      BitsOf(x - Pow2(Size(x) - 1), Size(x) - 1)
  }

  lemma LowBitsAreRead(x: nat, rest: seq<bool>)
    requires Size(x) > 1
    ensures NextBits(LowBits(x) + rest, Size(x) - 1).Some?
    ensures var (low, left) := NextBits(LowBits(x) + rest, Size(x) - 1).value;
      Pow2(Size(x) - 1) + low == x && left == rest
  {
    SizeBounds(x);
    BitsAreRead(x - Pow2(Size(x) - 1), Size(x) - 1, rest);
  }

  lemma SizeIsSmall(x: nat)
    requires Size(x) <= 1
    ensures Size(x) == x && LowBits(x) == []
  {
    assert x > 1 ==> Size(x) == 1 + Size(x / 2);
  }

  ghost function WriteOffset(offsets: Code, offset: nat): seq<bool>
    requires Has(offsets, Size(offset))
  {
    WriteValue(offsets, Size(offset)) + LowBits(offset)
  }

  lemma OffsetIsRead(offsets: Code, offset: nat, rest: seq<bool>)
    requires Has(offsets, Size(offset)) && Size(offset) <= 32
    ensures OffsetOf(offsets, WriteOffset(offsets, offset) + rest) == Some((offset, rest))
  {
    hide NextBits, ReadCode, WriteValue, Size, LowBits, Has;
    var size := Size(offset);
    assert WriteOffset(offsets, offset) + rest == WriteValue(offsets, size) + (LowBits(offset) + rest);
    ValueIsRead(offsets, size, LowBits(offset) + rest);
    if size <= 1 {
      SizeIsSmall(offset);
      assert [] + rest == rest;
    } else {
      LowBitsAreRead(offset, rest);
    }
  }

  /** A command that a plan's codes can express and the ring can carry out. */
  ghost predicate CommandFits(config: Config, plan: Plan, c: Command) {
    match c
    case Literal(b) => Has(plan.commands, b)
    case Copy(offset, count) =>
      && 3 <= count && Has(plan.commands, count - 3 + 0x100)
      && offset < Pow2(config.HistoryBits() - 1) && Has(plan.offsets, Size(offset))
  }

  ghost function WriteCommand(config: Config, plan: Plan, c: Command): seq<bool>
    requires CommandFits(config, plan, c)
  {
    match c
    case Literal(b) => WriteValue(plan.commands, b)
    case Copy(offset, count) => WriteValue(plan.commands, count - 3 + 0x100) + WriteOffset(plan.offsets, offset)
  }

  lemma ShortHistory(config: Config)
    ensures config.HistoryBits() <= 32
  {
  }

  lemma CommandIsRead(config: Config, plan: Plan, n: Positive, c: Command, rest: seq<bool>)
    requires CommandFits(config, plan, c)
    ensures var block: LiveBlock := Block(n, plan.commands, plan.offsets);
      ReadFrom(config, block, WriteCommand(config, plan, c) + rest) == Some((c, V2Source(config, Rest(block), rest)))
  {
    hide ReadCode, WriteValue, OffsetOf, WriteOffset, Size, Low, Has, Config.HistoryBits;
    match c
    case Literal(b) => ValueIsRead(plan.commands, b, rest);
    case Copy(offset, count) =>
      ShortHistory(config);
      var tail := WriteOffset(plan.offsets, offset) + rest;
      assert WriteCommand(config, plan, c) + rest == WriteValue(plan.commands, count - 3 + 0x100) + tail;
      ValueIsRead(plan.commands, count - 3 + 0x100, tail);
      SizeFits(offset, config.HistoryBits() - 1);
      OffsetIsRead(plan.offsets, offset, rest);
      LowOfSmall(offset, config.HistoryBits() - 1);
  }

  ghost predicate CommandsWritable(config: Config, plan: Plan, cs: seq<Command>) {
    forall i :: 0 <= i < |cs| ==> CommandFits(config, plan, cs[i])
  }

  ghost function WriteAll(config: Config, plan: Plan, cs: seq<Command>): seq<bool>
    requires CommandsWritable(config, plan, cs)
  {
    if cs == [] then [] else WriteCommand(config, plan, cs[0]) + WriteAll(config, plan, cs[1..])
  }

  /** The source in front of the commands of a block. */
  ghost function At(config: Config, plan: Plan, n: nat, bits: seq<bool>): V2Source {
    V2Source(config, if n == 0 then None else Some(Block(n, plan.commands, plan.offsets)), bits)
  }

  lemma {:induction false} BlockIsRun(config: Config, plan: Plan, cs: seq<Command>, rest: seq<bool>, history: seq<byte>)
    requires CommandsWritable(config, plan, cs)
    ensures Execute(ReadV2, At(config, plan, |cs|, WriteAll(config, plan, cs) + rest), history, |cs|)
         == Some((At(config, plan, 0, rest), PerformAll(history, cs)))
    decreases |cs|
  {
    hide CommandFits, ReadFrom, Perform, WriteCommand, NextBlock;
    if cs == [] {
      assert WriteAll(config, plan, cs) + rest == rest;
    } else {
      var tail := WriteAll(config, plan, cs[1..]) + rest;
      assert WriteAll(config, plan, cs) + rest == WriteCommand(config, plan, cs[0]) + tail;
      CommandIsRead(config, plan, |cs|, cs[0], tail);
      BlockIsRun(config, plan, cs[1..], rest, Perform(history, cs[0]));
    }
  }

  // ---- streams of blocks

  datatype Written = Written(plan: Plan, commands: seq<Command>)

  /** A block that can be written; its count must fit in sixteen bits. */
  ghost predicate BlockFits(config: Config, w: Written) {
    PlanFits(config, w.plan) && CommandsWritable(config, w.plan, w.commands) && 0 < |w.commands| < Pow2(16)
  }

  ghost predicate BlocksFit(config: Config, ws: seq<Written>) {
    forall i :: 0 <= i < |ws| ==> BlockFits(config, ws[i])
  }

  ghost function WriteBlocks(config: Config, ws: seq<Written>): seq<bool>
    requires BlocksFit(config, ws)
  {
    if ws == [] then []
    else
      var w := ws[0];
      WriteHeader(config, w.plan, |w.commands|) + (WriteAll(config, w.plan, w.commands) + WriteBlocks(config, ws[1..]))
  }

  ghost function AllCommands(ws: seq<Written>): seq<Command> {
    if ws == [] then [] else ws[0].commands + AllCommands(ws[1..])
  }

  /** In front of a header, a command is read from the block that it begins. */
  lemma HeaderBegins(config: Config, w: Written, rest: seq<bool>, history: seq<byte>, m: nat)
    requires BlockFits(config, w) && m > 0
    ensures Execute(ReadV2, V2Source(config, None, WriteHeader(config, w.plan, |w.commands|) + rest), history, m)
         == Execute(ReadV2, At(config, w.plan, |w.commands|, rest), history, m)
  {
    hide PlanFits, CommandsWritable, WriteHeader, BlockHeader, Perform, ReadFrom;
    HeaderIsRead(config, w.plan, |w.commands|, rest);
  }

  /** A block without commands is passed over. */
  lemma EmptyBlockIsPassed(config: Config, plan: Plan, rest: seq<bool>)
    requires PlanFits(config, plan)
    ensures NextBlock(config, WriteHeader(config, plan, 0) + rest) == NextBlock(config, rest)
  {
    hide PlanFits, WriteHeader, BlockHeader;
    HeaderIsRead(config, plan, 0, rest);
  }

  /** Decoding any stream of blocks carries out exactly the commands that were written, and stops right behind them. */
  lemma {:induction false} StreamIsRun(config: Config, ws: seq<Written>, rest: seq<bool>, history: seq<byte>)
    requires BlocksFit(config, ws)
    ensures Execute(ReadV2, V2Source(config, None, WriteBlocks(config, ws) + rest), history, |AllCommands(ws)|)
         == Some((V2Source(config, None, rest), PerformAll(history, AllCommands(ws))))
    decreases |ws|
  {
    hide PlanFits, CommandsWritable, WriteHeader, WriteAll, ReadV2, PerformAll, Execute;
    if ws == [] {
      NothingExecuted(ReadV2, V2Source(config, None, rest), history);
      assert WriteBlocks(config, ws) + rest == rest;
      NothingPerformed(history);
    } else {
      var w, tail := ws[0], WriteBlocks(config, ws[1..]) + rest;
      var body := WriteAll(config, w.plan, w.commands) + tail;
      assert WriteBlocks(config, ws) + rest == WriteHeader(config, w.plan, |w.commands|) + body;
      HeaderBegins(config, w, body, history, |AllCommands(ws)|);
      ExecuteSplits(ReadV2, At(config, w.plan, |w.commands|, body), history, |w.commands|, |AllCommands(ws[1..])|);
      BlockIsRun(config, w.plan, w.commands, tail, history);
      StreamIsRun(config, ws[1..], rest, PerformAll(history, w.commands));
      PerformAppends(history, w.commands, AllCommands(ws[1..]));
    }
  }

  /**
    Filling a buffer of the right size from a stream of blocks gives exactly the bytes that the written commands
    produce, and leaves exactly the bits behind the stream.
   */
  lemma StreamIsDecoded(config: Config, ws: seq<Written>, rest: seq<bool>, history: seq<byte>)
    requires BlocksFit(config, ws)
    ensures var output := PerformAll(history, AllCommands(ws));
      && history <= output
      && Fill(ReadV2, LzState(V2Source(config, None, WriteBlocks(config, ws) + rest), None, history),
              |output| - |history|)
           == Some((output[|history|..], LzState(V2Source(config, None, rest), None, output)))
  {
    hide BlocksFit, WriteBlocks, ReadV2, Fill, Execute, PerformAll, AllCommands;
    StreamIsRun(config, ws, rest, history);
    ExecutionFills(ReadV2, V2Source(config, None, WriteBlocks(config, ws) + rest), history, |AllCommands(ws)|);
  }
}
