/** Archive headers: the fields before a file's data, and the chain of extra headers. */
module Headers {
  import opened Wrappers
  import opened Crc16s
  import opened Sums

  const EXT_HEADER_COMMON: byte := 0x00
  const EXT_HEADER_FILENAME: byte := 0x01
  const EXT_HEADER_MSDOS_SIZE: byte := 0x42

  function U16(s: seq<byte>): (n: nat)
    requires |s| == 2
    ensures n < 0x10000
  {
    var lo: nat, hi: nat := s[0], s[1];
    lo + 0x100 * hi
  }

  function U32(s: seq<byte>): (n: nat)
    requires |s| == 4
    ensures n < 0x1_0000_0000
  {
    U16(s[..2]) + 0x10000 * U16(s[2..])
  }

  function U64(s: seq<byte>): nat
    requires |s| == 8
  {
    U32(s[..4]) + 0x1_0000_0000 * U32(s[4..])
  }

  /** Two bytes as a checksum. */
  function Word(lo: byte, hi: byte): bv16 {
    (ByteBits(hi) << 8) | ByteBits(lo)
  }

  function WrappingAdd(a: byte, b: byte): byte {
    var sum: nat := a + b;
    if sum < 0x100 then sum else sum - 0x100
  }

  /** The wrapping sum of bytes. */
  function ByteSum(s: seq<byte>): byte {
    if s == [] then 0 else WrappingAdd(ByteSum(s[..|s| - 1]), s[|s| - 1])
  }

  lemma {:induction false} ByteSumAppends(a: seq<byte>, b: seq<byte>)
    ensures ByteSum(a + b) == WrappingAdd(ByteSum(b), ByteSum(a))
  {
    if b == [] {
      assert a + b == a;
    } else {
      assert (a + b)[..|a + b| - 1] == a + b[..|b| - 1];
      ByteSumAppends(a, b[..|b| - 1]);
    }
  }

  /** The wrapping sum is the plain sum modulo 256. */
  lemma {:induction false} ByteSumIsSum(s: seq<byte>)
    ensures Sum(s) >= 0 && ByteSum(s) == Sum(s) % 256
  {
    if s != [] { ByteSumIsSum(s[..|s| - 1]); }
  }

  // ---- the chain of extra headers

  type Chain = seq<seq<byte>>

  function CounterSize(len32: bool): (c: nat)
    ensures 2 <= c <= 4
  {
    if len32 then 4 else 2
  }

  /** The length of the following header, stored at the end of a header. */
  function NextLength(header: seq<byte>, len32: bool): nat
    requires |header| > CounterSize(len32)
  {
    if len32 then U32(header[|header| - 4..]) else U16(header[|header| - 2..])
  }

  /** The headers that the stored lengths cut the data into; each has at least one byte before the next length. */
  ghost function Walk(data: seq<byte>, first: nat, len32: bool): Option<Chain>
    decreases |data|
  {
    if first == 0 then if data == [] then Some([]) else None
    else if first <= CounterSize(len32) || first > |data| then None
    else match Walk(data[first..], NextLength(data[..first], len32), len32)
      case None => None
      case Some(rest) => Some([data[..first]] + rest)
  }

  function Concat(chain: Chain): seq<byte> {
    if chain == [] then [] else Concat(chain[..|chain| - 1]) + chain[|chain| - 1]
  }

  /** A chain of headers, each as long as announced before it; `next` is announced behind it. */
  ghost predicate Linked(chain: Chain, first: nat, len32: bool, next: nat) {
    if chain == [] then next == first
    else
      var last := chain[|chain| - 1];
      && |last| > CounterSize(len32) && next == NextLength(last, len32)
      && Linked(chain[..|chain| - 1], first, len32, |last|)
  }

  /** A header in front of a chain. */
  lemma {:induction false} LinkedFromFront(chain: Chain, first: nat, len32: bool, next: nat)
    requires chain != [] && Linked(chain, first, len32, next)
    ensures |chain[0]| == first > CounterSize(len32)
    ensures Linked(chain[1..], NextLength(chain[0], len32), len32, next)
    ensures Concat(chain) == chain[0] + Concat(chain[1..])
    decreases |chain|
  {
    hide NextLength;
    var init := chain[..|chain| - 1];
    if init == [] {
      assert chain == [chain[0]] && chain[1..] == [];
      assert Concat([]) == [];
    } else {
      LinkedFromFront(init, first, len32, |chain[|chain| - 1]|);
      assert chain[1..][..|chain| - 2] == init[1..];
    }
  }

  /** A chain that announces nothing more is what walking its bytes finds. */
  lemma {:induction false} WalkFindsChain(chain: Chain, first: nat, len32: bool)
    requires Linked(chain, first, len32, 0)
    ensures Walk(Concat(chain), first, len32) == Some(chain)
    decreases |chain|
  {
    hide NextLength;
    if chain != [] {
      LinkedFromFront(chain, first, len32, 0);
      WalkFindsChain(chain[1..], NextLength(chain[0], len32), len32);
      assert Concat(chain)[..first] == chain[0] && Concat(chain)[first..] == Concat(chain[1..]);
      assert [chain[0]] + chain[1..] == chain;
    }
  }

  /** The headers found cover the data with no gap and no overrun. */
  lemma {:induction false} WalkCovers(data: seq<byte>, first: nat, len32: bool)
    requires Walk(data, first, len32).Some?
    ensures Concat(Walk(data, first, len32).value) == data
    decreases |data|
  {
    hide NextLength;
    if first != 0 {
      var next := NextLength(data[..first], len32);
      WalkCovers(data[first..], next, len32);
      var rest := Walk(data[first..], next, len32).value;
      ConcatFront(data[..first], rest);
      assert data[..first] + data[first..] == data;
    }
  }

  lemma {:induction false} ConcatFront(h: seq<byte>, rest: Chain)
    ensures Concat([h] + rest) == h + Concat(rest)
    decreases |rest|
  {
    if rest == [] {
      assert ([h] + rest)[..0] == [] && [h] + rest == [h];
    } else {
      ConcatFront(h, rest[..|rest| - 1]);
      assert ([h] + rest)[..|rest|] == [h] + rest[..|rest| - 1];
    }
  }

  /** A header without the length of the next. */
  function Payload(header: seq<byte>, len32: bool): (r: seq<byte>)
    requires |header| > CounterSize(len32)
    ensures |r| > 0
  {
    header[..|header| - CounterSize(len32)]
  }

  /** Iterates over extra headers. */
  class ExtraHeaderIter {
    var data: seq<byte>
    var headerLength: nat
    const headerLen32: bool

    ghost predicate Valid()
      reads this
    {
      Walk(data, headerLength, headerLen32).Some?
    }

    /** The headers still to come. */
    ghost function Left(): Chain
      reads this
      requires Valid()
    {
      Walk(data, headerLength, headerLen32).value
    }

    constructor (data: seq<byte>, first: nat, len32: bool)
      requires Walk(data, first, len32).Some?
      ensures Valid() && Left() == Walk(data, first, len32).value && headerLen32 == len32
    {
      this.data, headerLength, headerLen32 := data, first, len32;
    }

    method Next() returns (r: Option<seq<byte>>)
      requires Valid()
      modifies this
      ensures Valid()
      ensures r.None? <==> old(Left()) == []
      ensures r.None? ==> data == [] && Left() == []
      ensures r.Some? ==> Left() == old(Left())[1..]
      ensures r.Some? ==> |old(Left())[0]| > CounterSize(headerLen32) && r.value == Payload(old(Left())[0], headerLen32)
    {
      if headerLength == 0 {
        return None;
      }
      var counterSize := if headerLen32 then 4 else 2;
      var header, rest := data[..headerLength], data[headerLength..];
      var res, len := header[..headerLength - counterSize], header[headerLength - counterSize..];
      headerLength := if headerLen32 then U32(len) else U16(len);
      data := rest;
      return Some(res);
    }
  }
}
