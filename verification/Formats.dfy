/** The formats in numbers: sizes of histories and tables, and which bits and bytes say what. */
module Formats {
  import opened Wrappers
  import opened Sums
  import opened Bits
  import opened StaticTree
  import opened CanonicalCode
  import opened Lz
  import opened LzCopy
  import opened RingBufs
  import opened Decoders
  import Lzs = LzsDecoders
  import Lz5 = Lz5Decoders
  import Lh1 = Lh1Decoders
  import V2 = Lhv2Format
  import Lh1Writing
  import V2Writing = Lhv2Writing
  import DynTree
  import DynTreeCode
  import DynTreeNew

  function Spaces(n: nat): seq<byte> {
    seq(n, _ => 32)
  }

  // ---- bits

  /** The first bit of a list has the highest value. */
  lemma {:induction false} HighestFirst(b: bool, s: seq<bool>)
    ensures Num([b] + s) == (if b then Pow2(|s|) else 0) + Num(s)
    decreases |s|
  {
    hide Pow2;
    var t := [b] + s;
    if s == [] {
      assert t == [b] && t[..0] == [];
      assert Pow2(0) == 1 by { SmallPowers(); }
    } else {
      HighestFirst(b, s[..|s| - 1]);
      assert t[..|t| - 1] == [b] + s[..|s| - 1];
      assert Pow2(|s|) == 2 * Pow2(|s| - 1) by { PowerStep(|s|); }
    }
  }

  lemma PowerStep(n: nat)
    requires n > 0
    ensures Pow2(n) == 2 * Pow2(n - 1)
  {
  }

  /** Bit k of n bits has the value of 2 to the n - 1 - k. */
  lemma {:induction false} BitOfNumber(x: nat, n: nat, k: nat)
    requires k < n
    ensures BitsOf(x, n)[k] == (x / Pow2(n - 1 - k) % 2 == 1)
    decreases n
  {
    hide Pow2;
    if k == n - 1 {
      SmallPowers();
    } else {
      BitOfNumber(x / 2, n - 1, k);
      PowerStep(n - 1 - k);
      DivTwice(x, Pow2(n - 2 - k));
    }
  }

  lemma DivTwice(x: nat, p: nat)
    requires p > 0
    ensures x / (2 * p) == x / 2 / p
  {
    var q, r := x / 2 / p, x / 2 % p;
    assert x / 2 == q * p + r;
    assert x == q * (2 * p) + (2 * r + x % 2);
    DivModUnique(x, 2 * p, q, 2 * r + x % 2);
  }

  /** Bytes are read in order, each from its highest bit. */
  lemma {:induction false} BytesAreRead(s: seq<byte>, i: nat, k: nat)
    requires i < |s| && k < 8
    ensures BytesBits(s)[8 * i + k] == (s[i] / Pow2(7 - k) % 2 == 1)
    decreases |s|
  {
    hide Pow2, BitsOf;
    var init := s[..|s| - 1];
    if i < |init| { BytesAreRead(init, i, k); } else { BitOfNumber(s[i], 8, k); }
  }

  // ---- lh4 to lhx

  lemma WindowPowers()
    ensures Pow2(13) == 8192 && Pow2(16) == 65536 && Pow2(19) == 524288
  {
    hide Pow2;
    SmallPowers();
    PowerStep(13);
    PowerStep(14);
    PowerStep(15);
    PowerStep(16);
    PowerStep(17);
    PowerStep(18);
    PowerStep(19);
  }

  /** lh4 and lh5 have a window of 8192 bytes, lh6 and lh7 of 65536, and lhx of 524288: all spaces at first. */
  lemma StartOfBlocks(m: CompressionMethod, bytes: seq<byte>)
    ensures m == Lh4 || m == Lh5Method ==>
      StartOf(Some(m), bytes) == PlainV2(LzState(V2.V2Source(V2.Lh5, None, BytesBits(bytes)), None, Spaces(8192)))
    ensures m == Lh6 || m == Lh7Method ==>
      StartOf(Some(m), bytes) == PlainV2(LzState(V2.V2Source(V2.Lh7, None, BytesBits(bytes)), None, Spaces(65536)))
    ensures m == LhxMethod ==>
      StartOf(Some(m), bytes) == PlainV2(LzState(V2.V2Source(V2.Lhx, None, BytesBits(bytes)), None, Spaces(524288)))
  {
    hide Pow2, BytesBits;
    WindowPowers();
  }

  /** The table of offset lengths has its size in front of it: in four bits at lh4 and lh5, else in five. */
  lemma OffsetTables(lengths: CompleteLengths, rest: seq<bool>)
    requires lengths != []
    ensures var table := V2Writing.WriteLengths(lengths) + rest;
      && (|lengths| <= 14 ==> V2.OffsetCode(V2.Lh5, BitsOf(|lengths|, 4) + table) == Some((Canonical(lengths), rest)))
      && (|lengths| <= 17 ==> V2.OffsetCode(V2.Lh7, BitsOf(|lengths|, 5) + table) == Some((Canonical(lengths), rest)))
      && (|lengths| <= 20 ==> V2.OffsetCode(V2.Lhx, BitsOf(|lengths|, 5) + table) == Some((Canonical(lengths), rest)))
  {
    hide Complete, V2.CodeLengths, V2Writing.WriteLengths, BitsOf, NextBits, Pow2;
    SmallPowers();
    V2Writing.LengthsAreRead(lengths, rest);
    var table := V2Writing.WriteLengths(lengths) + rest;
    if |lengths| <= 14 { BitsAreRead(|lengths|, 4, table); }
    if |lengths| <= 20 { BitsAreRead(|lengths|, 5, table); }
  }

  /** A longer table is refused. */
  lemma OffsetTablesEnd(n: nat, rest: seq<bool>)
    ensures 14 < n < 16 ==> V2.OffsetCode(V2.Lh5, BitsOf(n, 4) + rest).None?
    ensures 17 < n < 32 ==> V2.OffsetCode(V2.Lh7, BitsOf(n, 5) + rest).None?
    ensures 20 < n < 32 ==> V2.OffsetCode(V2.Lhx, BitsOf(n, 5) + rest).None?
  {
    hide V2.CodeLengths, BitsOf, NextBits, Pow2;
    SmallPowers();
    if 14 < n < 16 { BitsAreRead(n, 4, rest); }
    if 17 < n < 32 { BitsAreRead(n, 5, rest); }
  }

  /** An empty table is followed by the one offset size there is, in as many bits. */
  lemma SingleOffsets(v: nat, rest: seq<bool>)
    ensures v < 16 ==> V2.OffsetCode(V2.Lh5, BitsOf(0, 4) + (BitsOf(v, 4) + rest)) == Some((Single(v), rest))
    ensures v < 32 ==> V2.OffsetCode(V2.Lh7, BitsOf(0, 5) + (BitsOf(v, 5) + rest)) == Some((Single(v), rest))
    ensures v < 32 ==> V2.OffsetCode(V2.Lhx, BitsOf(0, 5) + (BitsOf(v, 5) + rest)) == Some((Single(v), rest))
  {
    hide V2.CodeLengths, BitsOf, NextBits, Pow2;
    SmallPowers();
    if v < 16 {
      BitsAreRead(0, 4, BitsOf(v, 4) + rest);
      BitsAreRead(v, 4, rest);
    }
    if v < 32 {
      BitsAreRead(0, 5, BitsOf(v, 5) + rest);
      BitsAreRead(v, 5, rest);
    }
  }

  /** There are at most 510 commands, whose code lengths are written in a code of at most 20 values. */
  lemma TableSizes(temp: Code, tokens: V2.Tokens, lengths: CompleteLengths, rest: seq<bool>)
    requires 0 < |lengths| <= 510 && V2Writing.TokensFit(temp, tokens) && V2Writing.Covers(tokens, |lengths|)
    requires |lengths| <= |V2.Expand(tokens)| && V2.Expand(tokens)[..|lengths|] == lengths
    ensures V2.CommandCode(temp, BitsOf(|lengths|, 9) + (V2Writing.WriteTokens(temp, tokens) + rest))
         == Some((Canonical(lengths), rest))
    ensures V2.CommandCode(temp, BitsOf(511, 9) + rest).None?
  {
    hide Complete, V2.ReadTable, BitsOf, NextBits, Pow2, V2Writing.WriteTokens, V2Writing.TokensFit, V2Writing.Covers,
      V2.Expand;
    SmallPowers();
    BitsAreRead(|lengths|, 9, V2Writing.WriteTokens(temp, tokens) + rest);
    BitsAreRead(511, 9, rest);
    V2Writing.TableIsRead(temp, tokens, lengths, rest);
  }

  lemma TempSizes(n: nat, rest: seq<bool>)
    ensures 20 < n < 32 ==> V2.TempCode(BitsOf(n, 5) + rest).None?
    ensures 0 < n <= 20 ==> V2.TempCode(BitsOf(n, 5) + rest) == V2.CodeOf(V2.TempLengths(rest, n))
  {
    hide Complete, V2.TempLengths, BitsOf, NextBits, Pow2;
    SmallPowers();
    if n < 32 { BitsAreRead(n, 5, rest); }
  }

  /** The gap behind the first three lengths, in two bits, must lie within the table. */
  lemma GapsFit(gap: nat, n: nat, head: Lengths, rest: seq<bool>)
    requires gap < 4 && |head| == Min(n, 3) && 3 + gap > n
    ensures V2.TempTail(BitsOf(gap, 2) + rest, n, head).None?
  {
    hide V2.TempOthers, BitsOf, NextBits, Pow2;
    SmallPowers();
    BitsAreRead(gap, 2, rest);
  }

  /** A run of values without a code is a run of zeros. */
  lemma RunsAreZeros(ts: V2.Tokens, count: Positive, len: nat)
    requires len <= 255
    ensures V2.Expand([]) == []
    ensures V2.Expand([V2.Skip(count)] + ts) == seq(count, _ => 0) + V2.Expand(ts)
    ensures V2.Expand([V2.Length(len)] + ts) == [len] + V2.Expand(ts)
  {
    assert ([V2.Skip(count)] + ts)[1..] == ts && ([V2.Length(len)] + ts)[1..] == ts;
  }

  /** A length is three bits, or seven and a one for each that it is longer; 255 is the longest. */
  lemma {:induction false} LongLengths(len: nat, n: nat, rest: seq<bool>)
    requires len <= 255
    ensures var ones := seq(n, _ => true);
      V2.LongerLength(len, ones + ([false] + rest)) == if len + n <= 255 then Some((len + n, rest)) else None
    decreases n
  {
    var bits := seq(n, _ => true) + ([false] + rest);
    if n == 0 {
      assert bits[1..] == rest;
    } else {
      assert bits[1..] == seq(n - 1, _ => true) + ([false] + rest);
      if len < 255 { LongLengths(len + 1, n - 1, rest); }
    }
  }

  /** An offset is taken modulo the window. */
  lemma OffsetsWrap(block: V2.LiveBlock, bits: seq<bool>)
    requires ReadCode(block.commands, bits).Some? && ReadCode(block.commands, bits).value.0 >= 256
    requires V2.OffsetOf(block.offsets, ReadCode(block.commands, bits).value.1).Some?
    ensures var v, rest := ReadCode(block.commands, bits).value.0, ReadCode(block.commands, bits).value.1;
      var (offset, left) := V2.OffsetOf(block.offsets, rest).value;
      var next := if block.count == 1 then None else Some(block.(count := block.count - 1));
      && V2.ReadFrom(V2.Lh5, block, bits) == Some((Copy(offset % 8192, v - 253), V2.V2Source(V2.Lh5, next, left)))
      && V2.ReadFrom(V2.Lh7, block, bits) == Some((Copy(offset % 65536, v - 253), V2.V2Source(V2.Lh7, next, left)))
      && V2.ReadFrom(V2.Lhx, block, bits) == Some((Copy(offset % 524288, v - 253), V2.V2Source(V2.Lhx, next, left)))
  {
    hide Pow2, Low, ReadCode, V2.OffsetOf;
    WindowPowers();
    var offset := V2.OffsetOf(block.offsets, ReadCode(block.commands, bits).value.1).value.0;
    LowIsMod(offset, 13);
    LowIsMod(offset, 16);
    LowIsMod(offset, 19);
  }

  // ---- stored files, and methods without a decoder

  lemma StartOfOthers(m: Option<CompressionMethod>, bytes: seq<byte>)
    ensures m in [Some(Lh0), Some(Lz4), Some(Pm0)] ==> StartOf(m, bytes) == Stored(bytes)
    ensures m in [Some(Lhd), Some(Pm1), Some(Pm2), None] ==> StartOf(m, bytes) == Nothing
  {
    hide Lzs.StartState, Lz5.StartState, Lh1.StartState, V2.StartState;
  }

  // ---- copies by position

  /** Output byte k goes to slot origin + k; a copy by position finds the byte written to that slot. */
  lemma PositionIsSlot(pos: nat, count: Positive, origin: nat, n: nat, power: nat)
    requires pos < Pow2(power) <= n
    ensures var c := Placed(Copy(pos, count), origin, n, power);
      c.Copy? && c.count == count && c.offset < Pow2(power) && (origin + n - 1 - c.offset) % Pow2(power) == pos
  {
    hide Low, Pow2;
    LowIsSmall(origin + n, power);
    LowOfSmall(pos, power);
    var d := DistanceTo(pos, Low(origin + n, power), power);
    SlotOfByte(origin, n, d, power);
    LowIsMod(origin + n - 1 - d, power);
  }

  lemma SlotOfOutput(slot: nat, size: nat, k: int)
    requires slot < size
    ensures (slot + size + k) % size == (slot + k) % size
  {
    var q, r := (slot + k) / size, (slot + k) % size;
    assert slot + size + k == (q + 1) * size + r;
    DivModUnique(slot + size + k, size, q + 1, r);
  }

  // ---- lzs

  /** A window of 2048 spaces. */
  lemma StartOfLzs(bytes: seq<byte>)
    ensures StartOf(Some(LzsMethod), bytes) == PlainLzs(LzState(BytesBits(bytes), None, Spaces(2048)))
  {
    hide BytesBits;
  }

  /** A one is followed by the eight bits of a literal. */
  lemma LzsLiteral(b: byte, n: nat, rest: seq<bool>)
    ensures Lzs.ReadLzs([true] + (BitsOf(b, 8) + rest), 2048 + n) == Some((Literal(b), rest))
  {
    hide BitsOf, NextBits, Pow2;
    SmallPowers();
    assert ([true] + (BitsOf(b, 8) + rest))[1..] == BitsOf(b, 8) + rest;
    BitsAreRead(b, 8, rest);
  }

  /**
    A zero is followed by eleven bits of position and four of length. Output byte k goes to slot 2031 + k of 2048, and
    the copy begins with the byte in the slot of its position.
   */
  lemma LzsCopy(pos: nat, low: nat, n: nat, rest: seq<bool>)
    requires pos < 2048 && low < 16
    ensures var r := Lzs.ReadLzs([false] + (BitsOf(pos, 11) + (BitsOf(low, 4) + rest)), 2048 + n);
      && r.Some? && r.value.1 == rest && r.value.0.Copy? && r.value.0.count == low + 2
      && r.value.0.offset < 2048 && (2031 + n - 1 - r.value.0.offset) % 2048 == pos
  {
    hide BitsOf, NextBits, Pow2, Placed, Low;
    SmallPowers();
    var tail := BitsOf(low, 4) + rest;
    var bits := [false] + (BitsOf(pos, 11) + tail);
    assert bits[1..] == BitsOf(pos, 11) + tail;
    BitsAreRead(pos, 11, tail);
    BitsAreRead(low, 4, rest);
    PositionIsSlot(pos, low + 2, 2031, 2048 + n, 11);
    SlotOfOutput(2031, 2048, n - 1 - Lzs.ReadLzs(bits, 2048 + n).value.0.offset);
  }

  // ---- lz5

  /** Flag k is the bit of value 2 to the k. */
  lemma {:induction false} FlagOfByte(x: nat, n: nat, k: nat)
    requires k < n
    ensures Lz5.FlagsOf(x, n)[k] == (x / Pow2(k) % 2 == 1)
    decreases n
  {
    hide Pow2;
    if k == 0 {
      SmallPowers();
    } else {
      FlagOfByte(x / 2, n - 1, k - 1);
      PowerStep(k);
      DivTwice(x, Pow2(k - 1));
    }
  }

  /** Where no flags are left, the next byte gives eight. */
  lemma FlagsAreNext(b: byte, bytes: seq<byte>, flags: seq<bool>, n: nat)
    requires |flags| == 8 && forall k :: 0 <= k < 8 ==> flags[k] == (b / Pow2(k) % 2 == 1)
    ensures Lz5.ReadLz5(Lz5.Lz5Source([], [b] + bytes), n) == Lz5.ReadLz5(Lz5.Lz5Source(flags, bytes), n)
  {
    hide Pow2, Lz5.FlagsOf, Lz5.ReadFlagged;
    forall k | 0 <= k < 8 ensures flags[k] == Lz5.FlagsOf(b, 8)[k] { FlagOfByte(b, 8, k); }
    assert flags == Lz5.FlagsOf(b, 8);
    assert ([b] + bytes)[1..] == bytes;
  }

  lemma Lz5Literal(flags: seq<bool>, b: byte, rest: seq<byte>, n: nat)
    ensures Lz5.ReadLz5(Lz5.Lz5Source([true] + flags, [b] + rest), 4096 + n)
      == Some((Literal(b), Lz5.Lz5Source(flags, rest)))
  {
    hide Pow2;
    assert ([true] + flags)[1..] == flags && ([b] + rest)[1..] == rest;
  }

  /**
    Two bytes of a copy: the low byte of the position, then four bits of position and four of length. Output byte k
    goes to slot 4078 + k of 4096.
   */
  lemma Lz5Copy(flags: seq<bool>, lo: byte, high: nat, low: nat, rest: seq<byte>, n: nat)
    requires high < 16 && low < 16
    ensures var r := Lz5.ReadLz5(Lz5.Lz5Source([false] + flags, [lo, 16 * high + low] + rest), 4096 + n);
      && r.Some? && r.value.1 == Lz5.Lz5Source(flags, rest) && r.value.0.Copy? && r.value.0.count == low + 3
      && r.value.0.offset < 4096 && (4078 + n - 1 - r.value.0.offset) % 4096 == 256 * high + lo
  {
    hide Pow2, Placed, Low;
    SmallPowers();
    var bytes: seq<byte> := [lo, 16 * high + low] + rest;
    assert ([false] + flags)[1..] == flags && bytes[2..] == rest;
    PositionIsSlot(256 * high + lo, low + 3, 4078, 4096 + n, 12);
    SlotOfOutput(4078, 4096, n - 1 - Lz5.ReadLz5(Lz5.Lz5Source([false] + flags, bytes), 4096 + n).value.0.offset);
  }

  /**
    The window at the start, with slot i in front of output that goes to slot 4078: every byte value thirteen times,
    all upwards, all downwards, 128 zeros, 110 spaces and 18 zeros.
   */
  lemma StartOfLz5(bytes: seq<byte>, b: byte, j: nat)
    ensures var start := StartOf(Some(Lz5Method), bytes);
      && start.PlainLz5? && start.lz5.source == Lz5.Lz5Source([], bytes) && start.lz5.pending == None
      && |start.lz5.history| == 4096
    ensures var h := StartOf(Some(Lz5Method), bytes).lz5.history;
      && (j < 13 ==> h[(13 * b + j + 18) % 4096] == b)
      && h[(3328 + b + 18) % 4096] == b && h[(3584 + b + 18) % 4096] == 255 - b
      && (j < 128 ==> h[(3840 + j + 18) % 4096] == 0)
      && (j < 110 ==> h[(3968 + j + 18) % 4096] == 32)
      && (j < 18 ==> h[(4078 + j + 18) % 4096] == 0)
  {
    hide Lz5.PresetUpTo, Lz5.Preset;
    PresetAt(b, j);
  }

  lemma PresetAt(b: byte, j: nat)
    ensures var h := Lz5.PresetHistory();
      && |h| == 4096 && (j < 13 ==> h[13 * b + j + 18] == b)
      && h[3328 + b + 18] == b && h[3584 + b + 18] == 255 - b
      && (j < 128 ==> h[3840 + j + 18] == 0)
      && (j < 110 ==> h[3968 + j + 18] == 32)
      && (j < 18 ==> h[j] == 0)
  {
    hide Lz5.PresetUpTo;
    if j < 13 { DivModUnique(13 * b + j, 13, b, j); }
  }

  // ---- lh1

  /** 314 symbols, and a window of 4096 spaces. */
  lemma StartOfLh1(bytes: seq<byte>)
    ensures var start := StartOf(Some(Lh1Method), bytes);
      && start.PlainLh1? && start.lh1.source == Lh1.Lh1Source(DynTreeNew.NewTree(314), BytesBits(bytes))
      && start.lh1.pending == None && start.lh1.history == Spaces(4096) && |start.lh1.source.tree.leaves| == 314
  {
    hide DynTree.Valid, DynTreeNew.NewTree, BytesBits, Pow2;
    SmallPowers();
    var t := NewLeaf(0);
  }

  /** With these symbols, every byte and the copies of 3 to 60 bytes out of the window can be written. */
  lemma Lh1Alphabet(c: Command)
    ensures Lh1Writing.CommandFits(c, 314) <==> (c.Copy? ==> 3 <= c.count <= 60 && c.offset < 4096)
  {
    SmallPowers();
  }

  /** And nothing else is read. */
  lemma Lh1Commands(s: Lh1.Lh1Source, n: nat)
    requires |s.tree.leaves| == 314 && Lh1.ReadLh1(s, n).Some?
    ensures var (c, next) := Lh1.ReadLh1(s, n).value;
      |next.tree.leaves| == 314 && (c.Copy? ==> 3 <= c.count <= 60 && c.offset < 4096)
  {
    hide DynTree.Valid, DynTreeCode.Lookup, Lh1.NextOffset;
    var rest := DynTreeCode.ReadSymbol(s.tree, s.bits).value.2;
    if Lh1.NextOffset(rest).Some? { Lh1OffsetFits(rest); }
  }

  lemma Lh1OffsetFits(bits: seq<bool>)
    requires Lh1.NextOffset(bits).Some?
    ensures Lh1.NextOffset(bits).value.0 < 4096
  {
    hide NextBits, Lh1.DecodeOffset, Or, Pow2;
    SmallPowers();
    var (bits9, rest) := NextBits(bits, 9).value;
    Lh1.OffsetFits(bits9, NextBits(rest, Lh1.DecodeOffset(bits9).1).value.0);
  }

  /** The path to a node of a heap extends that to its parent. */
  lemma HeapStep(t: DynTree.Tree, n: nat, i: nat)
    requires DynTreeNew.HeapShaped(t, n, 0) && DynTree.Linked(t.nodes) && 0 < i < |t.nodes|
    ensures var p := (i - 1) / 2;
      DynTreeCode.Path(t.nodes, i) == DynTreeCode.Path(t.nodes, p) + [i % 2 == 1]
  {
    assert t.nodes[i].parent == (i - 1) / 2;
    hide DynTree.Linked, DynTreeNew.HeapShaped;
  }

  lemma OneMoreBit(s: seq<bool>, b: bool)
    ensures |s + [b]| == |s| + 1 && Num(s + [b]) == 2 * Num(s) + (if b then 1 else 0)
    ensures Pow2(|s + [b]|) == 2 * Pow2(|s|)
  {
    assert (s + [b])[..|s|] == s;
  }

  /** The bits to a node of a heap are those of its index, with ones for zeros, behind the highest. */
  lemma {:induction false} HeapPath(t: DynTree.Tree, n: nat, i: nat)
    requires DynTreeNew.HeapShaped(t, n, 0) && DynTree.Linked(t.nodes) && i < |t.nodes|
    ensures var path := DynTreeCode.Path(t.nodes, i);
      Pow2(|path|) <= i + 1 < 2 * Pow2(|path|) && Num(path) == 2 * Pow2(|path|) - 2 - i
    decreases i
  {
    hide DynTree.Linked, DynTreeNew.HeapShaped, Pow2, Num;
    if i == 0 {
      NoPath(t.nodes);
    } else {
      var p := (i - 1) / 2;
      HeapPath(t, n, p);
      HeapStep(t, n, i);
      hide DynTreeCode.Path;
      OneMoreBit(DynTreeCode.Path(t.nodes, p), i % 2 == 1);
    }
  }

  lemma NoPath(nodes: seq<DynTree.Node>)
    requires DynTree.Linked(nodes) && |nodes| > 0
    ensures DynTreeCode.Path(nodes, 0) == [] && Num([]) == 0 && Pow2(0) == 1
  {
  }

  lemma NewLeaf(v: nat) returns (t: DynTree.ValidTree)
    requires v < 314
    ensures t == DynTreeNew.NewTree(314) && DynTreeNew.HeapShaped(t, 314, 0) && DynTree.Linked(t.nodes)
    ensures |t.leaves| == 314 && t.leaves[v] == 626 - v < |t.nodes|
  {
    hide DynTree.Valid, DynTree.Linked, DynTree.Indexed, DynTree.Count, DynTreeNew.Grown, DynTreeNew.NewTree,
      DynTreeNew.HeapShaped;
    t := DynTreeNew.NewTree(314);
    DynTreeNew.NewTreeIsHeap(314);
    HeapLeaf(t, 314, v);
    DynTreeCode.ValidIsLinked(t);
  }

  lemma HeapLeaf(t: DynTree.Tree, n: nat, v: nat)
    requires DynTreeNew.HeapShaped(t, n, 0) && v < n
    ensures |t.leaves| == n && t.leaves[v] == 2 * n - 2 - v < |t.nodes|
  {
  }

  lemma CodeIsPath(t: DynTree.ValidTree, v: nat)
    requires v < |t.leaves| && t.leaves[v] < |t.nodes| && DynTree.Linked(t.nodes)
    ensures DynTreeCode.Code(t, v) == DynTreeCode.Path(t.nodes, t.leaves[v])
  {
    hide DynTree.Valid, DynTreeCode.Path;
  }

  lemma LeafPath(v: nat)
    requires v < 314
    ensures |DynTreeNew.NewTree(314).leaves| == 314
    ensures var code := DynTreeCode.Code(DynTreeNew.NewTree(314), v);
      Pow2(|code|) <= 627 - v < 2 * Pow2(|code|) && Num(code) == 2 * Pow2(|code|) - 628 + v
  {
    hide DynTree.Valid, DynTree.Linked, DynTreeNew.HeapShaped, DynTreeNew.NewTree, DynTreeCode.Code, DynTreeCode.Path,
      Pow2, Num;
    var t := NewLeaf(v);
    HeapPath(t, 314, 626 - v);
    CodeIsPath(t, v);
  }

  /** The codes of a new tree: nine bits for the first 116 symbols, eight for the others, in order. */
  lemma FirstCodes(v: nat)
    requires v < 314
    ensures |DynTreeNew.NewTree(314).leaves| == 314
    ensures var code := DynTreeCode.Code(DynTreeNew.NewTree(314), v);
      if v < 116 then |code| == 9 && Num(code) == 396 + v else |code| == 8 && Num(code) == v - 116
  {
    hide DynTreeCode.Code, DynTree.Valid, DynTreeNew.NewTree, Pow2, Num;
    LeafPath(v);
    WhichPower(|DynTreeCode.Code(DynTreeNew.NewTree(314), v)|, 627 - v);
    SmallPowers();
  }

  lemma WhichPower(k: nat, x: nat)
    requires 314 <= x <= 627 && Pow2(k) <= x < 2 * Pow2(k)
    ensures k == if x < 512 then 8 else 9
  {
    hide Pow2;
    SmallPowers();
    if k > 10 { PowersGrow(10, k); } else if k < 8 { PowersGrow(k, 7); }
  }

  lemma {:induction false} PowersGrow(i: nat, j: nat)
    requires i <= j
    ensures Pow2(i) <= Pow2(j)
    decreases j
  {
    if i < j { PowersGrow(i, j - 1); }
  }
}
