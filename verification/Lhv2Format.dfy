/** The block headers and commands of the lh4 to lhx formats, as read from a plain list of bits. */
module Lhv2Format {
  import opened Wrappers
  import opened Sums
  import opened Bits
  import opened StaticTree
  import opened CanonicalCode
  import opened Lz

  const NUM_COMMANDS: nat := 510
  const NUM_TEMP_CODELEN: nat := 20

  /** The parameters of lh4 and lh5, of lh6 and lh7, and of lhx. */
  datatype Config = Lh5 | Lh7 | Lhx {
    function HistoryBits(): (n: nat)
      ensures 14 <= n <= NUM_TEMP_CODELEN
    {
      match this case Lh5 => 14 case Lh7 => 17 case Lhx => 20
    }

    function OffsetBits(): (n: nat)
      ensures 4 <= n <= 5
    {
      match this case Lh5 => 4 case Lh7 => 5 case Lhx => 5
    }
  }

  /** What was read, and the bits after it. */
  type Parsed<T> = Option<(T, seq<bool>)>

  function Zeros(n: nat): (r: Lengths)
    ensures |r| == n
  {
    seq(n, _ => 0)
  }

  // ---- code lengths

  /** Each one bit adds to a length, up to the first zero; a length must fit in a byte. */
  function LongerLength(len: nat, bits: seq<bool>): (r: Parsed<nat>)
    requires len <= MAX_LENGTH
    ensures r.Some? ==> r.value.0 <= MAX_LENGTH && |r.value.1| < |bits|
    decreases |bits|
  {
    if bits == [] then None
    else if !bits[0] then Some((len, bits[1..]))
    else if len == MAX_LENGTH then None
    else LongerLength(len + 1, bits[1..])
  }

  function CodeLength(bits: seq<bool>): (r: Parsed<nat>)
    ensures r.Some? ==> r.value.0 <= MAX_LENGTH && |r.value.1| < |bits|
  {
    match NextBits(bits, 3)
    case None => None
    case Some((len, rest)) =>
      SmallPowers();
      if len == 7 then LongerLength(7, rest) else Some((len, rest))
  }

  /** Put lengths in front of those read. */
  function Before(head: Lengths, r: Parsed<Lengths>): Parsed<Lengths> {
    match r
    case None => None
    case Some((tail, rest)) => Some((head + tail, rest))
  }

  lemma BeforeJoins(a: Lengths, b: Lengths, r: Parsed<Lengths>)
    ensures Before(a, Before(b, r)) == Before(a + b, r)
  {
    if r.Some? { assert a + (b + r.value.0) == (a + b) + r.value.0; }
  }

  lemma BeforeNothing(a: Lengths, rest: seq<bool>)
    ensures Before(a, Some(([], rest))) == Some((a, rest))
  {
    assert a + [] == a;
  }

  lemma BeforeUnchanged(r: Parsed<Lengths>)
    ensures Before([], r) == r
  {
    if r.Some? { assert [] + r.value.0 == r.value.0; }
  }

  function CodeLengths(bits: seq<bool>, n: nat): (r: Parsed<Lengths>)
    ensures r.Some? ==> |r.value.0| == n && |r.value.1| <= |bits|
    decreases n
  {
    if n == 0 then Some(([], bits))
    else match CodeLength(bits)
      case None => None
      case Some((len, rest)) =>
        Before([len], CodeLengths(rest, n - 1))
  }

  /** Reading one more length. */
  lemma LengthsGrow(whole: Parsed<Lengths>, head: Lengths, bits: seq<bool>, n: nat)
    requires n > 0 && whole == Before(head, CodeLengths(bits, n))
    ensures CodeLength(bits).None? ==> whole.None?
    ensures CodeLength(bits).Some? ==>
      whole == Before(head + [CodeLength(bits).value.0], CodeLengths(CodeLength(bits).value.1, n - 1))
  {
    if CodeLength(bits).Some? {
      BeforeJoins(head, [CodeLength(bits).value.0], CodeLengths(CodeLength(bits).value.1, n - 1));
    }
  }

  lemma LengthsBegin(bits: seq<bool>, n: nat)
    ensures CodeLengths(bits, n) == Before([], CodeLengths(bits, n))
  {
    BeforeUnchanged(CodeLengths(bits, n));
  }

  lemma LengthsEnd(whole: Parsed<Lengths>, head: Lengths, bits: seq<bool>)
    requires whole == Before(head, CodeLengths(bits, 0))
    ensures whole == Some((head, bits))
  {
    BeforeNothing(head, bits);
  }

  // ---- codes

  /** A table of lengths gives a code if it is complete. */
  ghost function CodeOf(table: Parsed<Lengths>): Parsed<Code> {
    match table
    case None => None
    case Some((lengths, rest)) => if Complete(lengths) then Some((Canonical(lengths), rest)) else None
  }

  ghost function SingleCode(bits: seq<bool>, n: nat): Parsed<Code> {
    match NextBits(bits, n)
    case None => None
    case Some((v, rest)) => Some((Single(v), rest))
  }

  /** After a gap, the lengths that are left. */
  function TempOthers(bits: seq<bool>, n: nat, head: Lengths, skip: nat): (r: Parsed<Lengths>)
    requires 3 + skip <= n && |head| == 3
    ensures r.Some? ==> |r.value.0| == n && |r.value.1| <= |bits|
  {
    match CodeLengths(bits, n - 3 - skip)
    case None => None
    case Some((tail, rest)) => Some((head + Zeros(skip) + tail, rest))
  }

  /** After the first lengths: how many are left out, and the others. */
  function TempTail(bits: seq<bool>, n: nat, head: Lengths): (r: Parsed<Lengths>)
    requires |head| == Min(n, 3)
    ensures r.Some? ==> |r.value.0| == n && |r.value.1| <= |bits|
  {
    match NextBits(bits, 2)
    case None => None
    case Some((skip, rest)) => if 3 + skip > n then None else TempOthers(rest, n, head, skip)
  }

  /** A table whose three parts agree: the first lengths, the gap, and the others. */
  lemma ThreeParts(table: seq<byte>, head: Lengths, skip: nat, tail: Lengths)
    requires |table| == 3 + skip + |tail| && |head| == 3
    requires forall k :: 0 <= k < 3 ==> table[k] == head[k]
    requires forall k :: 3 <= k < 3 + skip ==> table[k] == 0
    requires forall k :: 3 + skip <= k < |table| ==> table[k] == tail[k - (3 + skip)]
    ensures table == head + Zeros(skip) + tail
  {
  }

  function TempLengths(bits: seq<bool>, n: nat): (r: Parsed<Lengths>)
    ensures r.Some? ==> |r.value.0| == n && |r.value.1| <= |bits|
  {
    match CodeLengths(bits, Min(n, 3))
    case None => None
    case Some((head, rest)) => TempTail(rest, n, head)
  }

  /** The temporary code in which the lengths of the command code are written. */
  ghost function TempCode(bits: seq<bool>): (r: Parsed<Code>)
    ensures r.Some? ==> |r.value.1| <= |bits|
  {
    match NextBits(bits, 5)
    case None => None
    case Some((n, rest)) =>
      if n == 0 then SingleCode(rest, 5)
      else if n > NUM_TEMP_CODELEN then None
      else CodeOf(TempLengths(rest, n))
  }

  /** A run of values without a code, or the length of one code. */
  datatype Token = Skip(count: Positive) | Length(len: nat)

  function Run(t: Token): (r: Lengths)
    requires t.Length? ==> t.len <= MAX_LENGTH
    ensures |r| > 0
  {
    match t
    case Skip(count) => Zeros(count)
    case Length(len) => [len]
  }

  type Tokens = s: seq<Token> | forall i :: 0 <= i < |s| ==> s[i].Length? ==> s[i].len <= MAX_LENGTH

  function Expand(tokens: Tokens): Lengths {
    if tokens == [] then [] else Run(tokens[0]) + Expand(tokens[1..])
  }

  /** How many values a token of a kind below three skips. */
  function ReadSkip(kind: nat, bits: seq<bool>): (r: Parsed<Positive>)
    ensures r.Some? ==> |r.value.1| <= |bits|
  {
    if kind == 0 then Some((1, bits))
    else match NextBits(bits, if kind == 1 then 4 else 9)
      case None => None
      case Some((k, rest)) => Some((k + if kind == 1 then 3 else 20, rest))
  }

  ghost function ReadToken(temp: Code, bits: seq<bool>): (r: Parsed<Token>)
    ensures r.Some? ==> |r.value.1| <= |bits| && (r.value.0.Length? ==> r.value.0.len <= MAX_LENGTH)
  {
    match ReadCode(temp, bits)
    case None => None
    case Some((v, rest)) =>
      if v <= 2 then
        match ReadSkip(v, rest)
        case None => None
        case Some((count, left)) => Some((Skip(count), left))
      else Some((Length((v - 2) % 256), rest))
  }

  /** As many tokens as it takes to cover n values. */
  ghost function ReadTokens(temp: Code, bits: seq<bool>, n: nat): (r: Parsed<Tokens>)
    ensures r.Some? ==> |r.value.1| <= |bits| && n <= |Expand(r.value.0)|
    decreases n
  {
    if n == 0 then Some(([], bits))
    else match ReadToken(temp, bits)
      case None => None
      case Some((t, rest)) =>
        match ReadTokens(temp, rest, n - Min(|Run(t)|, n))
        case None => None
        case Some((ts, left)) =>
          var tokens: Tokens := [t] + ts;
          assert tokens[1..] == ts;
          Some((tokens, left))
  }

  /** The table of n lengths that the tokens write: their expansion, cut to size. */
  ghost function ReadTable(temp: Code, bits: seq<bool>, n: nat): (r: Parsed<Lengths>)
    ensures r.Some? ==> |r.value.1| <= |bits| && |r.value.0| == n
  {
    match ReadTokens(temp, bits, n)
    case None => None
    case Some((tokens, rest)) => Some((Expand(tokens)[..n], rest))
  }

  lemma CutRuns(a: Lengths, b: Lengths, n: nat)
    requires n - Min(|a|, n) <= |b|
    ensures (a + b)[..n] == a[..Min(|a|, n)] + b[..n - Min(|a|, n)]
  {
  }

  /** A table begins with the run of its first token. */
  lemma TableBegins(temp: Code, bits: seq<bool>, n: nat)
    requires n > 0
    ensures ReadToken(temp, bits).None? ==> ReadTable(temp, bits, n).None?
    ensures ReadToken(temp, bits).Some? ==>
      var (t, rest) := ReadToken(temp, bits).value;
      var k := Min(|Run(t)|, n);
      ReadTable(temp, bits, n) == Before(Run(t)[..k], ReadTable(temp, rest, n - k))
  {
    hide ReadToken, Run;
    if ReadToken(temp, bits).Some? {
      var (t, rest) := ReadToken(temp, bits).value;
      var k := Min(|Run(t)|, n);
      if ReadTokens(temp, rest, n - k).Some? {
        var ts := ReadTokens(temp, rest, n - k).value.0;
        var tokens: Tokens := [t] + ts;
        assert tokens[0] == t && tokens[1..] == ts;
        CutRuns(Run(t), Expand(ts), n);
      }
    }
  }

  /** Reading one more token of a table. */
  lemma TableGrows(whole: Parsed<Lengths>, head: Lengths, temp: Code, bits: seq<bool>, n: nat)
    requires n > 0 && whole == Before(head, ReadTable(temp, bits, n))
    ensures ReadToken(temp, bits).None? ==> whole.None?
    ensures ReadToken(temp, bits).Some? ==>
      var (t, rest) := ReadToken(temp, bits).value;
      var k := Min(|Run(t)|, n);
      whole == Before(head + Run(t)[..k], ReadTable(temp, rest, n - k))
  {
    hide ReadToken, Run, ReadTable;
    TableBegins(temp, bits, n);
    if ReadToken(temp, bits).Some? {
      var (t, rest) := ReadToken(temp, bits).value;
      var k := Min(|Run(t)|, n);
      BeforeJoins(head, Run(t)[..k], ReadTable(temp, rest, n - k));
    }
  }

  lemma TableBegin(temp: Code, bits: seq<bool>, n: nat)
    ensures ReadTable(temp, bits, n) == Before([], ReadTable(temp, bits, n))
  {
    BeforeUnchanged(ReadTable(temp, bits, n));
  }

  lemma TableEnd(whole: Parsed<Lengths>, head: Lengths, temp: Code, bits: seq<bool>)
    requires whole == Before(head, ReadTable(temp, bits, 0))
    ensures whole == Some((head, bits))
  {
    BeforeNothing(head, bits);
    assert Expand([])[..0] == [];
  }

  /** The code of commands. */
  ghost function CommandCode(temp: Code, bits: seq<bool>): (r: Parsed<Code>)
    ensures r.Some? ==> |r.value.1| <= |bits|
  {
    match NextBits(bits, 9)
    case None => None
    case Some((n, rest)) =>
      if n == 0 then SingleCode(rest, 9)
      else if n > NUM_COMMANDS then None
      else CodeOf(ReadTable(temp, rest, n))
  }

  /** The code of offsets. */
  ghost function OffsetCode(config: Config, bits: seq<bool>): (r: Parsed<Code>)
    ensures r.Some? ==> |r.value.1| <= |bits|
  {
    match NextBits(bits, config.OffsetBits())
    case None => None
    case Some((n, rest)) =>
      if n == 0 then SingleCode(rest, config.OffsetBits())
      else if n > config.HistoryBits() then None
      else CodeOf(CodeLengths(rest, n))
  }

  /** A block: how many commands it holds, and the codes it is written in. */
  datatype Block = Block(count: nat, commands: Code, offsets: Code)

  type LiveBlock = b: Block | b.count > 0 witness Block(1, Single(0), Single(0))

  ghost function BlockCodes(config: Config, count: nat, bits: seq<bool>): (r: Parsed<Block>)
    ensures r.Some? ==> |r.value.1| <= |bits|
  {
    match TempCode(bits)
    case None => None
    case Some((temp, rest)) =>
      match CommandCode(temp, rest)
      case None => None
      case Some((commands, left)) =>
        match OffsetCode(config, left)
        case None => None
        case Some((offsets, bits1)) => Some((Block(count, commands, offsets), bits1))
  }

  /** A block header: it takes at least the sixteen bits of its count. */
  ghost function BlockHeader(config: Config, bits: seq<bool>): (r: Parsed<Block>)
    ensures r.Some? ==> |r.value.1| < |bits|
  {
    match NextBits(bits, 16)
    case None => None
    case Some((count, rest)) => BlockCodes(config, count, rest)
  }

  /** The next header of a block that has commands; empty blocks are passed over. */
  ghost function NextBlock(config: Config, bits: seq<bool>): Parsed<LiveBlock>
    decreases |bits|
  {
    match BlockHeader(config, bits)
    case None => None
    case Some((block, rest)) => if block.count == 0 then NextBlock(config, rest) else Some((block, rest))
  }

  // ---- commands

  /** The bits of an offset below its highest, which is not written. */
  function LowBitsOf(n: nat, bits: seq<bool>): Parsed<nat> {
    if n > 32 then None
    else match NextBits(bits, n)
      case None => None
      case Some((low, rest)) => Some((Pow2(n) + low, rest))
  }

  /** The code tells how many bits an offset has. */
  ghost function OffsetOf(offsets: Code, bits: seq<bool>): Parsed<nat> {
    match ReadCode(offsets, bits)
    case None => None
    case Some((size, rest)) => if size <= 1 then Some((size, rest)) else LowBitsOf(size - 1, rest)
  }

  lemma ReadValueIsSmall(code: Code, bits: seq<bool>)
    requires ReadCode(code, bits).Some?
    ensures ReadCode(code, bits).value.0 < match code case Single(v) => v + 1 case Canonical(lengths) => |lengths|
  {
  }

  /** No offset code of a block header gives an offset of more than 31 bits. */
  lemma OffsetSizesFit(config: Config, header: seq<bool>, bits: seq<bool>)
    requires OffsetCode(config, header).Some? && ReadCode(OffsetCode(config, header).value.0, bits).Some?
    ensures ReadCode(OffsetCode(config, header).value.0, bits).value.0 < 32
  {
    hide ReadCode, CodeLengths, NextBits;
    SmallPowers();
    ReadValueIsSmall(OffsetCode(config, header).value.0, bits);
  }

  /** Setting the highest bit adds it. */
  lemma HighestBit(low: nat, n: nat)
    requires low < Pow2(n)
    ensures Or(low, Shl(1, n)) == Pow2(n) + low
  {
    ShlOne(n);
    OrAdds(1, n, low);
    OrCommutes(low, Shl(1, n));
  }

  /** The source of commands: what is left of the current block, if anything, and the bits after what was read. */
  datatype V2Source = V2Source(config: Config, block: Option<LiveBlock>, bits: seq<bool>)

  /** A block with one command less. */
  function Rest(block: LiveBlock): Option<LiveBlock> {
    if block.count == 1 then None else Some(block.(count := block.count - 1))
  }

  ghost function ReadFrom(config: Config, block: LiveBlock, bits: seq<bool>): Option<(Command, V2Source)> {
    match ReadCode(block.commands, bits)
    case None => None
    case Some((v, rest)) =>
      if v < 0x100 then Some((Literal(v), V2Source(config, Rest(block), rest)))
      else match OffsetOf(block.offsets, rest)
        case None => None
        case Some((offset, left)) =>
          Some((Copy(Low(offset, config.HistoryBits() - 1), v - 0x100 + 3), V2Source(config, Rest(block), left)))
  }

  ghost function StartedBlock(s: V2Source): Parsed<LiveBlock> {
    match s.block
    case Some(block) => Some((block, s.bits))
    case None => NextBlock(s.config, s.bits)
  }

  ghost function ReadV2(s: V2Source, written: nat): Option<(Command, V2Source)> {
    match StartedBlock(s)
    case None => None
    case Some((block, bits)) => ReadFrom(s.config, block, bits)
  }

  /** Before anything is read: no block, and a history of spaces. */
  ghost function StartState(config: Config, bytes: seq<byte>): LzState<V2Source> {
    LzState(V2Source(config, None, BytesBits(bytes)), None, seq(Pow2(config.HistoryBits() - 1), _ => ' ' as byte))
  }
}
