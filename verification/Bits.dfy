/** Numbers as lists of bits, most significant bit first, and the bit operations of machine words. */
module Bits {
  import opened Sums
  import opened Wrappers

  /** The number written by a list of bits. */
  function Num(s: seq<bool>): (n: nat)
    ensures n < Pow2(|s|)
  {
    if s == [] then 0 else 2 * Num(s[..|s| - 1]) + (if s[|s| - 1] then 1 else 0)
  }

  /** The lowest n bits of x. */
  function BitsOf(x: nat, n: nat): (s: seq<bool>)
    ensures |s| == n
  {
    if n == 0 then [] else BitsOf(x / 2, n - 1) + [x % 2 == 1]
  }

  /** The next n bits of a list as a number, and the bits after them. */
  function NextBits(bits: seq<bool>, n: nat): (r: Option<(nat, seq<bool>)>)
    ensures r.Some? <==> n <= |bits|
    ensures r.Some? ==> r.value.0 < Pow2(n) && |r.value.1| == |bits| - n
  {
    if n <= |bits| then Some((Num(bits[..n]), bits[n..])) else None
  }

  /** Bytes as bits, each from its highest bit. */
  function BytesBits(s: seq<byte>): (r: seq<bool>)
    ensures |r| == 8 * |s|
  {
    if s == [] then [] else BytesBits(s[..|s| - 1]) + BitsOf(s[|s| - 1], 8)
  }

  /** A big-endian word. */
  function FromBytes(s: seq<byte>): nat {
    if s == [] then 0 else 256 * FromBytes(s[..|s| - 1]) + s[|s| - 1]
  }

  function TrailingZeros(x: nat): nat
    requires x > 0
  {
    if x % 2 == 1 then 0 else 1 + TrailingZeros(x / 2)
  }

  function And(x: nat, y: nat): nat {
    if x == 0 || y == 0 then 0
    else 2 * And(x / 2, y / 2) + (if x % 2 == 1 && y % 2 == 1 then 1 else 0)
  }

  function Or(x: nat, y: nat): nat
    decreases x + y
  {
    if x == 0 then y else if y == 0 then x
    else 2 * Or(x / 2, y / 2) + (if x % 2 == 1 || y % 2 == 1 then 1 else 0)
  }

  /** x shifted left by k, with nothing lost. */
  function Shl(x: nat, k: nat): nat {
    if k == 0 then x else 2 * Shl(x, k - 1)
  }

  /** x shifted right by k. */
  function Shr(x: nat, k: nat): nat {
    if k == 0 then x else Shr(x / 2, k - 1)
  }

  /** The lowest n bits of x, which are all an n-bit word keeps. */
  function Low(x: nat, n: nat): nat {
    if n == 0 then 0 else 2 * Low(x / 2, n - 1) + x % 2
  }

  // ---- shifting

  lemma {:induction false} ShlSum(a: nat, b: nat, k: nat)
    ensures Shl(a + b, k) == Shl(a, k) + Shl(b, k)
  {
    if k > 0 { ShlSum(a, b, k - 1); }
  }

  lemma {:induction false} ShlAdd(a: nat, j: nat, k: nat)
    ensures Shl(Shl(a, j), k) == Shl(a, j + k)
  {
    if k > 0 { ShlAdd(a, j, k - 1); }
  }

  lemma ShlTwice(a: nat)
    ensures Shl(a, 1) == 2 * a
  {
    assert Shl(a, 0) == a;
  }

  lemma {:induction false} ShlBound(a: nat, j: nat, k: nat)
    requires a < Pow2(j)
    ensures Shl(a, k) < Pow2(j + k)
  {
    if k > 0 { ShlBound(a, j, k - 1); }
  }

  lemma {:induction false} ShlZero(k: nat)
    ensures Shl(0, k) == 0
  {
    if k > 0 { ShlZero(k - 1); }
  }

  lemma {:induction false} ShlOne(k: nat)
    ensures Shl(1, k) == Pow2(k)
  {
    if k > 0 { ShlOne(k - 1); }
  }

  /** Shifting right drops what was added below. */
  lemma {:induction false} ShrOfShl(a: nat, k: nat, y: nat)
    requires y < Pow2(k)
    ensures Shr(Shl(a, k) + y, k) == a
  {
    if k > 0 {
      assert (Shl(a, k) + y) / 2 == Shl(a, k - 1) + y / 2;
      ShrOfShl(a, k - 1, y / 2);
    }
  }

  /** Keeping the low bits drops what was shifted above them. */
  lemma {:induction false} LowOfShl(a: nat, n: nat, y: nat)
    requires y < Pow2(n)
    ensures Low(Shl(a, n) + y, n) == y
  {
    if n > 0 {
      assert (Shl(a, n) + y) / 2 == Shl(a, n - 1) + y / 2;
      LowOfShl(a, n - 1, y / 2);
    }
  }

  // ---- bit lists

  lemma {:induction false} NumAppend(a: seq<bool>, b: seq<bool>)
    ensures Num(a + b) == Shl(Num(a), |b|) + Num(b)
  {
    if b == [] {
      assert a + b == a;
    } else {
      assert (a + b)[..|a + b| - 1] == a + b[..|b| - 1];
      NumAppend(a, b[..|b| - 1]);
    }
  }

  lemma {:induction false} NumOfBits(x: nat, n: nat)
    requires x < Pow2(n)
    ensures Num(BitsOf(x, n)) == x
  {
    if n > 0 {
      NumOfBits(x / 2, n - 1);
      assert BitsOf(x, n)[..n - 1] == BitsOf(x / 2, n - 1);
    }
  }

  lemma {:induction false} BytesAppend(a: seq<byte>, b: seq<byte>)
    ensures BytesBits(a + b) == BytesBits(a) + BytesBits(b)
  {
    hide BitsOf;
    if b == [] {
      assert a + b == a;
    } else {
      assert (a + b)[..|a + b| - 1] == a + b[..|b| - 1];
      BytesAppend(a, b[..|b| - 1]);
    }
  }

  lemma BytesSplit(bytes: seq<byte>, count: nat)
    requires count <= |bytes|
    ensures BytesBits(bytes) == BytesBits(bytes[..count]) + BytesBits(bytes[count..])
  {
    assert bytes == bytes[..count] + bytes[count..];
    BytesAppend(bytes[..count], bytes[count..]);
  }

  lemma WordStep(a: seq<bool>, b: byte)
    ensures Num(a + BitsOf(b, 8)) == 256 * Num(a) + b
  {
    NumAppend(a, BitsOf(b, 8));
    EightBits(Num(a));
    NumOfBits(b, 8);
  }

  lemma SmallShifts(x: nat)
    ensures Shl(x, 0) == x && Shl(x, 1) == 2 * x && Shl(x, 2) == 4 * x
    ensures Shl(x, 3) == 8 * x && Shl(x, 4) == 16 * x && Shl(x, 5) == 32 * x
  {
  }

  lemma FourBits(x: nat)
    ensures Shl(x, 4) == 16 * x
  {
    SmallShifts(x);
  }

  lemma EightBits(x: nat)
    ensures Shl(x, 8) == 256 * x && Pow2(8) == 256
  {
    ShlAdd(x, 4, 4);
    FourBits(x);
    FourBits(16 * x);
    ShlOne(8);
    ShlAdd(1, 4, 4);
    FourBits(1);
    FourBits(16);
  }

  /** A big-endian word is the number its bits write. */
  lemma {:induction false} WordOfBytes(s: seq<byte>)
    ensures FromBytes(s) == Num(BytesBits(s))
  {
    if s != [] {
      WordOfBytes(s[..|s| - 1]);
      WordStep(BytesBits(s[..|s| - 1]), s[|s| - 1]);
    }
  }

  /** Zero bytes at the end shift a word. */
  lemma {:induction false} WordPadded(s: seq<byte>, z: seq<byte>)
    requires forall i :: 0 <= i < |z| ==> z[i] == 0
    ensures FromBytes(s + z) == Shl(FromBytes(s), 8 * |z|)
  {
    if z == [] {
      assert s + z == s;
    } else {
      var init := z[..|z| - 1];
      assert (s + z)[..|s + z| - 1] == s + init;
      WordPadded(s, init);
      ShlAdd(FromBytes(s), 8 * |init|, 8);
      EightBits(Shl(FromBytes(s), 8 * |init|));
    }
  }

  lemma OneBit(bits: seq<bool>)
    requires bits != []
    ensures NextBits(bits, 1) == Some((if bits[0] then 1 else 0, bits[1..]))
  {
    assert bits[..1] == [bits[0]];
    assert bits[..1][..0] == [];
  }

  /** A number written in n bits reads back. */
  lemma BitsAreRead(x: nat, n: nat, rest: seq<bool>)
    requires x < Pow2(n)
    ensures NextBits(BitsOf(x, n) + rest, n) == Some((x, rest))
  {
    NumOfBits(x, n);
    assert (BitsOf(x, n) + rest)[..n] == BitsOf(x, n);
    assert (BitsOf(x, n) + rest)[n..] == rest;
  }

  // ---- word operations

  lemma {:induction false} TrailingZerosOf(a: nat, k: nat)
    ensures Shl(2 * a + 1, k) > 0 && TrailingZeros(Shl(2 * a + 1, k)) == k
  {
    if k > 0 {
      TrailingZerosOf(a, k - 1);
    }
  }

  lemma {:induction false} AndSelf(a: nat)
    ensures And(a, a) == a
  {
    if a > 0 { AndSelf(a / 2); }
  }

  /** x & (x - 1) clears the lowest bit of x that is set. */
  lemma {:induction false} AndClearsLowest(a: nat, k: nat)
    ensures Shl(2 * a + 1, k) > 0
    ensures And(Shl(2 * a + 1, k), Shl(2 * a + 1, k) - 1) == Shl(a, k + 1)
  {
    if k == 0 {
      AndSelf(a);
    } else {
      AndClearsLowest(a, k - 1);
      AndOfDouble(Shl(2 * a + 1, k - 1));
    }
  }

  lemma AndOfDouble(h: nat)
    requires h > 0
    ensures And(2 * h, 2 * h - 1) == 2 * And(h, h - 1)
  {
    assert (2 * h - 1) / 2 == h - 1;
  }

  /** An or of disjoint bits adds. */
  lemma {:induction false} OrAdds(a: nat, k: nat, y: nat)
    requires y < Pow2(k)
    ensures Or(Shl(a, k), y) == Shl(a, k) + y
  {
    if k > 0 {
      OrAdds(a, k - 1, y / 2);
    }
  }

  /** Setting a bit that is set changes nothing. */
  lemma {:induction false} OrKeepsBit(low: nat, k: nat)
    requires low < Pow2(k)
    ensures Or(Pow2(k) + low, Pow2(k)) == Pow2(k) + low
  {
    if k > 0 {
      OrKeepsBit(low / 2, k - 1);
      assert (Pow2(k) + low) / 2 == Pow2(k - 1) + low / 2 && Pow2(k) / 2 == Pow2(k - 1);
    }
  }

  lemma {:induction false} OrCommutes(x: nat, y: nat)
    ensures Or(x, y) == Or(y, x)
    decreases x + y
  {
    if x > 0 && y > 0 { OrCommutes(x / 2, y / 2); }
  }

  /** Masking with shifted bits masks what lies above the shift. */
  lemma {:induction false} AndOfShl(x: nat, y: nat, k: nat)
    ensures And(x, Shl(y, k)) == Shl(And(Shr(x, k), y), k)
  {
    if k > 0 {
      AndOfShl(x / 2, y, k - 1);
      if x == 0 || Shl(y, k) == 0 {
        NothingInCommon(x / 2, Shl(y, k - 1));
      }
    }
  }

  lemma NothingInCommon(x: nat, y: nat)
    requires x == 0 || y == 0
    ensures And(x, y) == 0
  {
  }

  // ---- masks

  lemma {:induction false} MaskIsLow(x: nat, k: nat)
    ensures And(x, Pow2(k) - 1) == Low(x, k)
  {
    if k > 0 {
      MaskIsLow(x / 2, k - 1);
      assert (Pow2(k) - 1) / 2 == Pow2(k - 1) - 1 && (Pow2(k) - 1) % 2 == 1;
      if x == 0 { LowOfZero(k); }
    }
  }

  lemma {:induction false} LowOfZero(k: nat)
    ensures Low(0, k) == 0
  {
    if k > 0 { LowOfZero(k - 1); }
  }

  lemma {:induction false} LowOfSmall(x: nat, k: nat)
    requires x < Pow2(k)
    ensures Low(x, k) == x
  {
    if k > 0 { LowOfSmall(x / 2, k - 1); }
  }

  lemma {:induction false} LowOfPower(k: nat)
    ensures Low(Pow2(k), k) == 0
  {
    if k > 0 { LowOfPower(k - 1); }
  }

  /** Masking keeps an index below the size, and wraps the size itself to zero. */
  lemma MaskOfIndex(i: nat, k: nat)
    requires i <= Pow2(k)
    ensures And(i, Pow2(k) - 1) == if i == Pow2(k) then 0 else i
  {
    MaskIsLow(i, k);
    if i == Pow2(k) { LowOfPower(k); } else { LowOfSmall(i, k); }
  }

  lemma {:induction false} LowIsSmall(x: nat, k: nat)
    ensures Low(x, k) < Pow2(k)
  {
    if k > 0 { LowIsSmall(x / 2, k - 1); }
  }

  /** Counting wraps around. */
  lemma {:induction false} LowCounts(x: nat, k: nat)
    ensures Low(x + 1, k) == if Low(x, k) + 1 == Pow2(k) then 0 else Low(x, k) + 1
  {
    if k > 0 {
      if x % 2 == 0 {
        assert (x + 1) / 2 == x / 2;
      } else {
        assert (x + 1) / 2 == x / 2 + 1;
        LowCounts(x / 2, k - 1);
      }
      LowIsSmall(x / 2, k - 1);
    }
  }

  /** Reducing a number first changes nothing of a sum. */
  lemma {:induction false} LowOfSum(x: nat, k: nat, n: nat)
    ensures Low(Low(x, n) + k, n) == Low(x + k, n)
  {
    hide Low, Pow2;
    LowIsSmall(x, n);
    if k == 0 {
      LowOfSmall(Low(x, n), n);
    } else {
      LowOfSum(x, k - 1, n);
      LowCounts(Low(x, n) + (k - 1), n);
      LowCounts(x + (k - 1), n);
    }
  }

  lemma {:induction false} LowOfTwice(x: nat, k: nat)
    requires x < 2 * Pow2(k)
    ensures Low(x, k) == if x < Pow2(k) then x else x - Pow2(k)
  {
    if k > 0 { LowOfTwice(x / 2, k - 1); }
  }

  lemma {:induction false} LowIsMod(x: nat, k: nat)
    ensures Low(x, k) == x % Pow2(k)
  {
    if k > 0 {
      LowIsMod(x / 2, k - 1);
      ModOfHalf(x, Pow2(k - 1));
    }
  }

  /** Masking with 2^k - 1 is reduction modulo 2^k. */
  lemma MaskIsMod(x: nat, k: nat)
    ensures And(x, Pow2(k) - 1) == x % Pow2(k)
  {
    MaskIsLow(x, k);
    LowIsMod(x, k);
  }

  lemma ModOfHalf(x: nat, p: nat)
    requires p > 0
    ensures x % (2 * p) == 2 * ((x / 2) % p) + x % 2
  {
    var q, r := x / 2 / p, x / 2 % p;
    assert x / 2 == q * p + r;
    assert x == q * (2 * p) + (2 * r + x % 2);
    DivModUnique(x, 2 * p, q, 2 * r + x % 2);
  }

  lemma MulMonotone(a: int, b: int, d: int)
    requires a <= b && 0 <= d
    ensures a * d <= b * d
  {
  }

  lemma DivModUnique(x: int, d: int, q: int, r: int)
    requires 0 <= r < d && x == q * d + r
    ensures x / d == q && x % d == r
  {
    var q' := x / d;
    assert 0 <= x - q' * d < d;
    if q + 1 <= q' {
      MulMonotone(q + 1, q', d);
    } else if q' + 1 <= q {
      MulMonotone(q' + 1, q, d);
    }
  }

  // ---- numbers written lowest bit first

  /** The number that bits write, lowest first. */
  function FromBits(bits: seq<bool>): (n: nat)
    ensures n < Pow2(|bits|)
  {
    if bits == [] then 0 else (if bits[0] then 1 else 0) + 2 * FromBits(bits[1..])
  }

  lemma FirstBit(bits: seq<bool>)
    requires bits != []
    ensures FromBits(bits) % 2 == 1 <==> bits[0]
  {
    hide Pow2;
    Parity(FromBits(bits[1..]), if bits[0] then 1 else 0);
  }

  lemma Parity(half: nat, low: nat)
    requires low <= 1
    ensures (low + 2 * half) % 2 == low
  {
  }

  // ---- whole bytes

  function Falses(n: nat): seq<bool> {
    seq(n, _ => false)
  }

  lemma FalsesLength(n: nat)
    ensures |Falses(n)| == n
  {
  }

  /** How many places n bits leave free in the last of the groups of eight that they fill. */
  function Unfilled(n: nat): nat {
    if n == 0 then 0 else if n <= 8 then 8 - n else Unfilled(n - 8)
  }

  /** Eight bits as a byte. */
  function ByteOf(bits: seq<bool>): byte
    requires |bits| == 8
  {
    SmallPowers();
    Num(bits)
  }

  /** Bits as bytes, filled up with zeros. */
  function PackBits(bits: seq<bool>): seq<byte>
    decreases |bits|
  {
    if bits == [] then []
    else if |bits| <= 8 then FalsesLength(8 - |bits|); [ByteOf(bits + Falses(8 - |bits|))]
    else [ByteOf(bits[..8])] + PackBits(bits[8..])
  }

  lemma {:induction false} BitsOfNum(s: seq<bool>)
    ensures BitsOf(Num(s), |s|) == s
  {
    if s != [] { BitsOfNum(s[..|s| - 1]); }
  }

  lemma ByteIsBits(bits: seq<bool>)
    requires |bits| == 8
    ensures BytesBits([ByteOf(bits)]) == bits
  {
    hide Num, BitsOf;
    BitsOfNum(bits);
    var b := [ByteOf(bits)];
    assert b[..0] == [] && BytesBits([]) == [];
  }

  lemma PackSteps(bits: seq<bool>)
    requires bits != []
    ensures |bits| <= 8 ==>
      |Falses(8 - |bits|)| == 8 - |bits| && PackBits(bits) == [ByteOf(bits + Falses(8 - |bits|))]
      && Unfilled(|bits|) == 8 - |bits|
    ensures |bits| > 8 ==>
      PackBits(bits) == [ByteOf(bits[..8])] + PackBits(bits[8..]) && Unfilled(|bits|) == Unfilled(|bits| - 8)
  {
    hide ByteOf;
  }

  /** Packed bits are read as themselves and the zeros that fill the last byte. */
  lemma {:induction false} PackedAreRead(bits: seq<bool>)
    ensures BytesBits(PackBits(bits)) == bits + Falses(Unfilled(|bits|))
    decreases |bits|
  {
    hide ByteOf, BytesBits, Falses, PackBits, Unfilled;
    if bits == [] {
      NothingPacked();
    } else if |bits| <= 8 {
      PackSteps(bits);
      ByteIsBits(bits + Falses(8 - |bits|));
    } else {
      PackSteps(bits);
      PackedAreRead(bits[8..]);
      ByteIsBits(bits[..8]);
      BytesAppend([ByteOf(bits[..8])], PackBits(bits[8..]));
      assert bits == bits[..8] + bits[8..];
    }
  }

  lemma NothingPacked()
    ensures BytesBits(PackBits([])) == [] + Falses(Unfilled(0))
  {
  }
}
