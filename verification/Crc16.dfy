/** The CRC-16 of decoded files. */
module Crc16s {
  import opened Wrappers

  /** The table, in rows of sixteen. */
  const CRC16_TABLE: seq<seq<bv16>> := [
    [0x0000, 0xc0c1, 0xc181, 0x0140, 0xc301, 0x03c0, 0x0280, 0xc241,
     0xc601, 0x06c0, 0x0780, 0xc741, 0x0500, 0xc5c1, 0xc481, 0x0440],
    [0xcc01, 0x0cc0, 0x0d80, 0xcd41, 0x0f00, 0xcfc1, 0xce81, 0x0e40,
     0x0a00, 0xcac1, 0xcb81, 0x0b40, 0xc901, 0x09c0, 0x0880, 0xc841],
    [0xd801, 0x18c0, 0x1980, 0xd941, 0x1b00, 0xdbc1, 0xda81, 0x1a40,
     0x1e00, 0xdec1, 0xdf81, 0x1f40, 0xdd01, 0x1dc0, 0x1c80, 0xdc41],
    [0x1400, 0xd4c1, 0xd581, 0x1540, 0xd701, 0x17c0, 0x1680, 0xd641,
     0xd201, 0x12c0, 0x1380, 0xd341, 0x1100, 0xd1c1, 0xd081, 0x1040],
    [0xf001, 0x30c0, 0x3180, 0xf141, 0x3300, 0xf3c1, 0xf281, 0x3240,
     0x3600, 0xf6c1, 0xf781, 0x3740, 0xf501, 0x35c0, 0x3480, 0xf441],
    [0x3c00, 0xfcc1, 0xfd81, 0x3d40, 0xff01, 0x3fc0, 0x3e80, 0xfe41,
     0xfa01, 0x3ac0, 0x3b80, 0xfb41, 0x3900, 0xf9c1, 0xf881, 0x3840],
    [0x2800, 0xe8c1, 0xe981, 0x2940, 0xeb01, 0x2bc0, 0x2a80, 0xea41,
     0xee01, 0x2ec0, 0x2f80, 0xef41, 0x2d00, 0xedc1, 0xec81, 0x2c40],
    [0xe401, 0x24c0, 0x2580, 0xe541, 0x2700, 0xe7c1, 0xe681, 0x2640,
     0x2200, 0xe2c1, 0xe381, 0x2340, 0xe101, 0x21c0, 0x2080, 0xe041],
    [0xa001, 0x60c0, 0x6180, 0xa141, 0x6300, 0xa3c1, 0xa281, 0x6240,
     0x6600, 0xa6c1, 0xa781, 0x6740, 0xa501, 0x65c0, 0x6480, 0xa441],
    [0x6c00, 0xacc1, 0xad81, 0x6d40, 0xaf01, 0x6fc0, 0x6e80, 0xae41,
     0xaa01, 0x6ac0, 0x6b80, 0xab41, 0x6900, 0xa9c1, 0xa881, 0x6840],
    [0x7800, 0xb8c1, 0xb981, 0x7940, 0xbb01, 0x7bc0, 0x7a80, 0xba41,
     0xbe01, 0x7ec0, 0x7f80, 0xbf41, 0x7d00, 0xbdc1, 0xbc81, 0x7c40],
    [0xb401, 0x74c0, 0x7580, 0xb541, 0x7700, 0xb7c1, 0xb681, 0x7640,
     0x7200, 0xb2c1, 0xb381, 0x7340, 0xb101, 0x71c0, 0x7080, 0xb041],
    [0x5000, 0x90c1, 0x9181, 0x5140, 0x9301, 0x53c0, 0x5280, 0x9241,
     0x9601, 0x56c0, 0x5780, 0x9741, 0x5500, 0x95c1, 0x9481, 0x5440],
    [0x9c01, 0x5cc0, 0x5d80, 0x9d41, 0x5f00, 0x9fc1, 0x9e81, 0x5e40,
     0x5a00, 0x9ac1, 0x9b81, 0x5b40, 0x9901, 0x59c0, 0x5880, 0x9841],
    [0x8801, 0x48c0, 0x4980, 0x8941, 0x4b00, 0x8bc1, 0x8a81, 0x4a40,
     0x4e00, 0x8ec1, 0x8f81, 0x4f40, 0x8d01, 0x4dc0, 0x4c80, 0x8c41],
    [0x4400, 0x84c1, 0x8581, 0x4540, 0x8701, 0x47c0, 0x4680, 0x8641,
     0x8201, 0x42c0, 0x4380, 0x8341, 0x4100, 0x81c1, 0x8081, 0x4040]
  ]

  function TableAt(index: bv16): bv16
    requires index < 256
  {
    CRC16_TABLE[(index >> 4) as int][(index & 15) as int]
  }

  // ---- division

  function Xor(x: bv16, y: bv16): bv16 {
    x ^ y
  }

  predicate Odd(x: bv16) {
    x & 1 == 1
  }

  function Half(x: bv16): bv16 {
    x >> 1
  }

  /** One step of reflected division by 0xA001. */
  function Step(x: bv16): bv16 {
    if Odd(x) then Xor(Half(x), 0xa001) else Half(x)
  }

  function EightSteps(x: bv16): bv16 {
    Step(Step(Step(Step(Step(Step(Step(Step(x))))))))
  }

  lemma HalfOfXor(x: bv16, y: bv16)
    ensures Half(Xor(x, y)) == Xor(Half(x), Half(y))
  {
  }

  lemma OddXor(x: bv16, y: bv16)
    ensures Odd(Xor(x, y)) <==> Odd(x) != Odd(y)
  {
  }

  lemma XorCommutes(a: bv16, b: bv16)
    ensures Xor(a, b) == Xor(b, a)
  {
  }

  lemma XorAssociates(a: bv16, b: bv16, c: bv16)
    ensures Xor(Xor(a, b), c) == Xor(a, Xor(b, c))
  {
  }

  lemma XorUndoes(a: bv16)
    ensures Xor(a, a) == 0 && Xor(a, 0) == a
  {
  }

  lemma XorMoves(a: bv16, b: bv16, c: bv16)
    ensures Xor(Xor(a, c), Xor(b, c)) == Xor(a, b) && Xor(Xor(a, c), b) == Xor(Xor(a, b), c) == Xor(a, Xor(b, c))
  {
    hide Xor;
    XorAssociates(a, b, c);
    XorAssociates(a, c, b);
    XorCommutes(b, c);
    XorAssociates(Xor(a, c), b, c);
    XorAssociates(Xor(a, b), c, c);
    XorUndoes(c);
    XorUndoes(Xor(a, b));
  }

  lemma StepIsLinear(x: bv16, y: bv16)
    ensures Step(Xor(x, y)) == Xor(Step(x), Step(y))
  {
    hide Xor, Odd, Half;
    HalfOfXor(x, y);
    OddXor(x, y);
    XorMoves(Half(x), Half(y), 0xa001);
  }

  /** Any number of steps. */
  function Steps(x: bv16, k: nat): bv16
    decreases k
  {
    if k == 0 then x else Steps(Step(x), k - 1)
  }

  lemma EightStepsAre(x: bv16)
    ensures EightSteps(x) == Steps(x, 8)
  {
    hide Step;
    assert Steps(x, 8) == Steps(Step(Step(x)), 6) == Steps(Step(Step(Step(Step(x)))), 4);
    assert Steps(Step(Step(Step(Step(x)))), 4) == Steps(Step(Step(Step(Step(Step(Step(x)))))), 2);
  }

  lemma {:induction false} StepsAreLinear(x: bv16, y: bv16, k: nat)
    ensures Steps(Xor(x, y), k) == Xor(Steps(x, k), Steps(y, k))
    decreases k
  {
    hide Step, Xor;
    if k > 0 {
      StepIsLinear(x, y);
      StepsAreLinear(Step(x), Step(y), k - 1);
    }
  }

  lemma EightStepsAreLinear(x: bv16, y: bv16)
    ensures EightSteps(Xor(x, y)) == Xor(EightSteps(x), EightSteps(y))
  {
    hide EightSteps, Steps, Xor;
    EightStepsAre(x);
    EightStepsAre(y);
    EightStepsAre(Xor(x, y));
    StepsAreLinear(x, y, 8);
  }

  /** A row is the first one, shifted. */
  function Row(c: bv16): (r: seq<bv16>)
    ensures |r| == 16
  {
    [Xor(c, 0x0000), Xor(c, 0xc0c1), Xor(c, 0xc181), Xor(c, 0x0140), Xor(c, 0xc301), Xor(c, 0x03c0),
     Xor(c, 0x0280), Xor(c, 0xc241), Xor(c, 0xc601), Xor(c, 0x06c0), Xor(c, 0x0780), Xor(c, 0xc741),
     Xor(c, 0x0500), Xor(c, 0xc5c1), Xor(c, 0xc481), Xor(c, 0x0440)]
  }

  lemma RowOf(r: bv16)
    requires r < 16
    ensures CRC16_TABLE[r as int] == Row(EightSteps(r << 4))
  {
    assert r == 0 || r == 1 || r == 2 || r == 3 || r == 4 || r == 5 || r == 6 || r == 7 || r == 8
      || r == 9 || r == 10 || r == 11 || r == 12 || r == 13 || r == 14 || r == 15;
  }

  lemma RowEntry(c: bv16, k: nat)
    requires k < 16
    ensures Row(c)[k] == Xor(c, CRC16_TABLE[0][k])
  {
    hide Xor;
    assert k == 0 || k == 1 || k == 2 || k == 3 || k == 4 || k == 5 || k == 6 || k == 7 || k == 8
      || k == 9 || k == 10 || k == 11 || k == 12 || k == 13 || k == 14 || k == 15;
  }

  lemma FirstRow(k: bv16)
    requires k < 16
    ensures CRC16_TABLE[0][k as int] == EightSteps(k)
  {
    assert k == 0 || k == 1 || k == 2 || k == 3 || k == 4 || k == 5 || k == 6 || k == 7 || k == 8
      || k == 9 || k == 10 || k == 11 || k == 12 || k == 13 || k == 14 || k == 15;
  }

  lemma Halves(x: bv16)
    requires x < 256
    ensures x >> 4 < 16 && x & 15 < 16 && x == Xor((x >> 4) << 4, x & 15)
  {
  }

  /** The table holds the remainders of all bytes. */
  lemma TableIsDivision(x: bv16)
    requires x < 256
    ensures TableAt(x) == EightSteps(x)
  {
    Halves(x);
    hide EightSteps, Row, Xor;
    var high, low := x >> 4, x & 15;
    RowOf(high);
    RowEntry(EightSteps(high << 4), low as int);
    FirstRow(low);
    EightStepsAreLinear(high << 4, low);
  }

  // ---- bytes

  /** Division fed with the lowest k bits of n, one at a time. */
  function Feed(sum: bv16, n: bv16, k: nat): bv16
    decreases k
  {
    if k == 0 then sum else Feed(Step(Xor(sum, n & 1)), Half(n), k - 1)
  }

  lemma LowestBit(sum: bv16, n: bv16)
    ensures Xor(sum, n) == Xor(Xor(sum, n & 1), n & 0xfffe)
    ensures !Odd(n & 0xfffe) && Half(n & 0xfffe) == Half(n)
  {
  }

  /** Feeding a bit leaves the others to be fed. */
  lemma StepFeeds(sum: bv16, n: bv16)
    ensures Step(Xor(sum, n)) == Xor(Step(Xor(sum, n & 1)), Half(n))
  {
    LowestBit(sum, n);
    hide Xor, Odd, Half;
    StepIsLinear(Xor(sum, n & 1), n & 0xfffe);
  }

  /** What is left of n after k bits. */
  function Above(n: bv16, k: nat): bv16
    decreases k
  {
    if k == 0 then n else Above(Half(n), k - 1)
  }

  lemma {:induction false} StepsFeed(sum: bv16, n: bv16, k: nat)
    ensures Steps(Xor(sum, n), k) == Xor(Feed(sum, n, k), Above(n, k))
    decreases k
  {
    hide Xor, Half, Step;
    if k > 0 {
      StepFeeds(sum, n);
      StepsFeed(Step(Xor(sum, n & 1)), Half(n), k - 1);
    }
  }

  lemma ByteIsFed(n: bv16)
    requires n < 256
    ensures Above(n, 8) == 0
  {
    hide Half;
    assert Above(n, 8) == Above(Half(Half(n)), 6) == Above(Half(Half(Half(Half(n)))), 4);
    assert Above(Half(Half(Half(Half(n)))), 4) == Above(Half(Half(Half(Half(Half(Half(n)))))), 2);
    NothingAbove(n);
  }

  lemma NothingAbove(n: bv16)
    requires n < 256
    ensures Half(Half(Half(Half(Half(Half(Half(Half(n)))))))) == 0
  {
  }

  /** Eight steps on a byte feed its eight bits. */
  lemma EightStepsFeed(sum: bv16, n: bv16)
    requires n < 256
    ensures EightSteps(Xor(sum, n)) == Feed(sum, n, 8)
  {
    ByteIsFed(n);
    hide Xor, EightSteps, Feed, Steps, Above;
    EightStepsAre(Xor(sum, n));
    StepsFeed(sum, n, 8);
    XorUndoes(Feed(sum, n, 8));
  }

  lemma EvenSteps(h: bv16)
    requires h < 256
    ensures EightSteps(h << 8) == h
  {
    assert Step(h << 8) == h << 7 && Step(h << 7) == h << 6 && Step(h << 6) == h << 5 && Step(h << 5) == h << 4;
    assert Step(h << 4) == h << 3 && Step(h << 3) == h << 2 && Step(h << 2) == h << 1 && Step(h << 1) == h;
  }

  lemma Bytes(x: bv16)
    ensures x == Xor((x >> 8) << 8, x & 0xff) && x >> 8 < 256 && x & 0xff < 256
  {
  }

  /** One look-up replaces eight steps. */
  lemma TableStep(x: bv16)
    ensures x & 0xff < 256 && EightSteps(x) == Xor(x >> 8, TableAt(x & 0xff))
  {
    Bytes(x);
    hide EightSteps, Xor, TableAt;
    EvenSteps(x >> 8);
    TableIsDivision(x & 0xff);
    EightStepsAreLinear((x >> 8) << 8, x & 0xff);
  }

  lemma IndexOf(sum: bv16, n: bv16)
    requires n < 256
    ensures Xor(sum, n) & 0xff == Xor(sum & 0xff, n) < 256 && Xor(sum, n) >> 8 == sum >> 8
  {
  }

  /** What the table-driven digest does with a byte is feeding its bits. */
  lemma LookupFeeds(sum: bv16, n: bv16)
    requires n < 256
    ensures Xor(sum & 0xff, n) < 256 && Xor(sum >> 8, TableAt(Xor(sum & 0xff, n))) == Feed(sum, n, 8)
  {
    IndexOf(sum, n);
    hide EightSteps, Xor, TableAt;
    TableStep(Xor(sum, n));
    EightStepsFeed(sum, n);
  }

  // ---- messages

  function Mask(on: bool, bit: bv16): bv16 {
    if on then bit else 0
  }

  /** A byte shifted right by k. */
  function Shifted(b: nat, k: nat): nat {
    if k == 0 then b else Shifted(b, k - 1) / 2
  }

  predicate BitAt(b: nat, k: nat) {
    Shifted(b, k) % 2 == 1
  }

  /** A byte as a word. */
  function ByteBits(b: byte): (n: bv16)
    ensures n < 256
  {
    Mask(BitAt(b, 0), 1) | Mask(BitAt(b, 1), 2) | Mask(BitAt(b, 2), 4) | Mask(BitAt(b, 3), 8) |
    Mask(BitAt(b, 4), 16) | Mask(BitAt(b, 5), 32) | Mask(BitAt(b, 6), 64) | Mask(BitAt(b, 7), 128)
  }

  /** The remainder of a message, fed bit by bit, from the lowest bit of each byte. */
  function Crc(sum: bv16, data: seq<byte>): bv16 {
    if data == [] then sum else Feed(Crc(sum, data[..|data| - 1]), ByteBits(data[|data| - 1]), 8)
  }

  /** A message can be digested in parts. */
  lemma {:induction false} CrcAppends(sum: bv16, a: seq<byte>, b: seq<byte>)
    ensures Crc(sum, a + b) == Crc(Crc(sum, a), b)
  {
    if b == [] {
      assert a + b == a;
    } else {
      assert (a + b)[..|a + b| - 1] == a + b[..|b| - 1];
      CrcAppends(sum, a, b[..|b| - 1]);
    }
  }

  // ---- what a remainder detects

  lemma StepVanishes(z: bv16)
    requires Step(z) == 0
    ensures z == 0
  {
  }

  lemma XorVanishes(x: bv16, y: bv16)
    requires Xor(x, y) == 0
    ensures x == y
  {
    assert x == x ^ (x ^ y) ^ (x ^ y);
  }

  lemma {:induction false} StepsInjective(x: bv16, y: bv16, k: nat)
    requires Steps(x, k) == Steps(y, k)
    ensures x == y
    decreases k
  {
    hide Xor, Step;
    if k > 0 {
      StepsInjective(Step(x), Step(y), k - 1);
      StepIsLinear(x, y);
      XorUndoes(Step(x));
      StepVanishes(Xor(x, y));
      XorVanishes(x, y);
    }
  }

  /** Different remainders or different bytes give different remainders. */
  lemma FeedInjective(x: bv16, y: bv16, m: bv16, n: bv16)
    requires m < 256 && n < 256 && Feed(x, m, 8) == Feed(y, n, 8)
    ensures Xor(x, m) == Xor(y, n)
  {
    hide Feed, Xor, EightSteps, Steps;
    EightStepsFeed(x, m);
    EightStepsFeed(y, n);
    EightStepsAre(Xor(x, m));
    EightStepsAre(Xor(y, n));
    StepsInjective(Xor(x, m), Xor(y, n), 8);
  }

  lemma XorCancels(x: bv16, y: bv16, z: bv16)
    ensures Xor(x, z) == Xor(y, z) ==> x == y
    ensures Xor(z, x) == Xor(z, y) ==> x == y
  {
    hide Xor;
    if Xor(x, z) == Xor(y, z) || Xor(z, x) == Xor(z, y) {
      XorCommutes(x, z);
      XorCommutes(y, z);
      XorMoves(x, y, z);
      XorUndoes(Xor(x, z));
      XorVanishes(x, y);
    }
  }

  lemma {:induction false} TailKeepsDifference(x: bv16, y: bv16, data: seq<byte>)
    requires x != y
    ensures Crc(x, data) != Crc(y, data)
  {
    hide Feed, Xor, ByteBits;
    if data != [] {
      var init, n := data[..|data| - 1], ByteBits(data[|data| - 1]);
      TailKeepsDifference(x, y, init);
      if Crc(x, data) == Crc(y, data) {
        FeedInjective(Crc(x, init), Crc(y, init), n, n);
        XorCancels(Crc(x, init), Crc(y, init), n);
      }
    }
  }

  lemma BitsAgree(a: byte, b: byte)
    requires ByteBits(a) == ByteBits(b)
    ensures forall k :: 0 <= k < 8 ==> BitAt(a, k) == BitAt(b, k)
  {
    hide BitAt;
  }

  lemma {:induction false} NumbersAgree(a: nat, b: nat, k: nat)
    requires Shifted(a, k) == Shifted(b, k) && forall i :: 0 <= i < k ==> BitAt(a, i) == BitAt(b, i)
    ensures a == b
  {
    if k > 0 {
      assert BitAt(a, k - 1) == BitAt(b, k - 1);
      NumbersAgree(a, b, k - 1);
    }
  }

  lemma ShiftedOut(b: byte)
    ensures Shifted(b, 8) == 0
  {
    assert Shifted(b, 1) < 128;
    assert Shifted(b, 2) < 64;
    assert Shifted(b, 3) < 32;
    assert Shifted(b, 4) < 16;
    assert Shifted(b, 5) < 8;
    assert Shifted(b, 6) < 4;
    assert Shifted(b, 7) < 2;
  }

  lemma BytesDiffer(a: byte, b: byte)
    requires ByteBits(a) == ByteBits(b)
    ensures a == b
  {
    BitsAgree(a, b);
    hide ByteBits;
    ShiftedOut(a);
    ShiftedOut(b);
    NumbersAgree(a, b, 8);
  }

  /** Changing any one byte of a message changes its remainder. */
  lemma OneByteIsDetected(sum: bv16, head: seq<byte>, a: byte, b: byte, tail: seq<byte>)
    requires a != b
    ensures Crc(sum, head + [a] + tail) != Crc(sum, head + [b] + tail)
  {
    hide Crc, Feed, Xor, ByteBits;
    CrcAppends(sum, head + [a], tail);
    CrcAppends(sum, head + [b], tail);
    CrcSnoc(sum, head, a);
    CrcSnoc(sum, head, b);
    if ByteBits(a) == ByteBits(b) { BytesDiffer(a, b); }
    if Crc(sum, head + [a]) == Crc(sum, head + [b]) {
      FeedInjective(Crc(sum, head), Crc(sum, head), ByteBits(a), ByteBits(b));
      XorCancels(ByteBits(a), ByteBits(b), Crc(sum, head));
    }
    TailKeepsDifference(Crc(sum, head + [a]), Crc(sum, head + [b]), tail);
  }

  lemma CrcSnoc(sum: bv16, data: seq<byte>, b: byte)
    ensures Crc(sum, data + [b]) == Feed(Crc(sum, data), ByteBits(b), 8)
  {
    assert (data + [b])[..|data|] == data;
  }

  // ---- a check value

  lemma OneAndTwo()
    ensures ByteBits(0x31) == 0x31 && ByteBits(0x32) == 0x32
  {
  }

  lemma ThreeAndFour()
    ensures ByteBits(0x33) == 0x33 && ByteBits(0x34) == 0x34
  {
  }

  lemma FiveAndSix()
    ensures ByteBits(0x35) == 0x35 && ByteBits(0x36) == 0x36
  {
  }

  lemma SevenAndEight()
    ensures ByteBits(0x37) == 0x37 && ByteBits(0x38) == 0x38
  {
  }

  lemma JustNine()
    ensures ByteBits(0x39) == 0x39
  {
  }

  /** One more byte of a message, whose bits are given as a word. */
  lemma DigestedByte(data: seq<byte>, b: byte, sum: bv16, n: bv16)
    requires Crc(0, data) == sum && ByteBits(b) == n
    ensures Crc(0, data + [b]) == EightSteps(Xor(sum, n))
  {
    hide EightSteps, Crc, Feed, ByteBits;
    CrcSnoc(0, data, b);
    EightStepsFeed(sum, n);
  }

  lemma HalfWay(s: seq<byte>)
    requires s == [0x31, 0x32, 0x33, 0x34, 0x35, 0x36, 0x37, 0x38, 0x39]
    ensures Crc(0, s[..5]) == 0xa455
  {
    hide Crc, ByteBits, Feed;
    OneAndTwo();
    ThreeAndFour();
    FiveAndSix();
    NothingDigested();
    assert s[..0] == [];
    DigestedByte(s[..0], 0x31, 0, 0x31);
    assert s[..1] == s[..0] + [0x31];
    DigestedByte(s[..1], 0x32, 0xd4c1, 0x32);
    assert s[..2] == s[..1] + [0x32];
    DigestedByte(s[..2], 0x33, 0x4594, 0x33);
    assert s[..3] == s[..2] + [0x33];
    DigestedByte(s[..3], 0x34, 0xba04, 0x34);
    assert s[..4] == s[..3] + [0x34];
    DigestedByte(s[..4], 0x35, 0x14ba, 0x35);
    assert s[..5] == s[..4] + [0x35];
  }

  /** The sum of the digits 1 to 9 in ASCII is 0xBB3D, as it must be for this kind of sum. */
  lemma CheckValue()
    ensures Crc(0, [0x31, 0x32, 0x33, 0x34, 0x35, 0x36, 0x37, 0x38, 0x39]) == 0xbb3d
  {
    hide Crc, ByteBits, Feed;
    FiveAndSix();
    SevenAndEight();
    JustNine();
    var s: seq<byte> := [0x31, 0x32, 0x33, 0x34, 0x35, 0x36, 0x37, 0x38, 0x39];
    HalfWay(s);
    DigestedByte(s[..5], 0x36, 0xa455, 0x36);
    assert s[..6] == s[..5] + [0x36];
    DigestedByte(s[..6], 0x37, 0x29e4, 0x37);
    assert s[..7] == s[..6] + [0x37];
    DigestedByte(s[..7], 0x38, 0x9d68, 0x38);
    assert s[..8] == s[..7] + [0x38];
    DigestedByte(s[..8], 0x39, 0x3c9d, 0x39);
    assert s[..9] == s[..8] + [0x39];
    assert s[..9] == s;
  }

  lemma NothingDigested()
    ensures Crc(0, []) == 0
  {
  }

  class Crc16 {
    var sum: bv16

    constructor ()
      ensures sum == 0
    {
      sum := 0;
    }

    method Reset()
      modifies this
      ensures sum == 0
    {
      sum := 0;
    }

    method Digest(data: seq<byte>)
      modifies this
      ensures sum == Crc(old(sum), data)
    {
      hide Feed, TableAt, ByteBits;
      var s := sum;
      for i := 0 to |data|
        invariant s == Crc(old(sum), data[..i])
      {
        var n := ByteBits(data[i]);
        LookupFeeds(s, n);
        s := Xor(s >> 8, TableAt(Xor(s & 0xff, n)));
        assert data[..i + 1][..i] == data[..i];
      }
      assert data[..|data|] == data;
      sum := s;
    }
  }
}
