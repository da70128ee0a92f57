/**
 * The integer casts the live-language codec performs: `n as u64` keeps the
 * low 64 bits of a number, and `w as usize` (on a 64-bit target) reads a
 * word back as a number. Both go byte by byte, which keeps every step
 * within a theory the verifier decides quickly.
 */
module Words {
  const BYTE: nat := 0x100
  const U32: nat := 0x1_0000_0000
  const U64_RANGE: nat := 0x1_0000_0000_0000_0000

  /** `256^k`. */
  function Pow(k: nat): (p: nat)
    ensures p >= 1
  {
    if k == 0 then 1 else BYTE * Pow(k - 1)
  }

  /** Byte `k` of a number, counting from the least significant. */
  function ByteOf(n: nat, k: nat): bv8 {
    ToByte((n / Pow(k)) % BYTE)
  }

  /** `d` halved `i` times. */
  function Half(d: nat, i: nat): nat {
    if i == 0 then d else Half(d, i - 1) / 2
  }

  /** Binary digit `i` of `d`. */
  function Flag(d: nat, i: nat): bool {
    Half(d, i) % 2 == 1
  }

  function Weight(a: bool): nat {
    if a then 1 else 0
  }

  /** Eight bits, least significant first. */
  function Bits(a0: bool, a1: bool, a2: bool, a3: bool, a4: bool, a5: bool, a6: bool, a7: bool): bv8 {
    (if a0 then 1 else 0) | (if a1 then 2 else 0) | (if a2 then 4 else 0) | (if a3 then 8 else 0)
    | (if a4 then 16 else 0) | (if a5 then 32 else 0) | (if a6 then 64 else 0) | (if a7 then 128 else 0)
  }

  /** The byte whose bits are the low eight binary digits of `d`. */
  function ToByte(d: nat): bv8 {
    Bits(Flag(d, 0), Flag(d, 1), Flag(d, 2), Flag(d, 3), Flag(d, 4), Flag(d, 5), Flag(d, 6), Flag(d, 7))
  }

  function BitValue(b: bv8, mask: bv8, v: nat): nat {
    if b & mask != 0 then v else 0
  }

  /** The number a byte denotes, bit by bit. */
  function FromByte(b: bv8): (n: nat)
    ensures n < 0x100
  {
    BitValue(b, 1, 1) + BitValue(b, 2, 2) + BitValue(b, 4, 4) + BitValue(b, 8, 8)
    + BitValue(b, 16, 16) + BitValue(b, 32, 32) + BitValue(b, 64, 64) + BitValue(b, 128, 128)
  }

  lemma BitsBack(a0: bool, a1: bool, a2: bool, a3: bool, a4: bool, a5: bool, a6: bool, a7: bool)
    ensures FromByte(Bits(a0, a1, a2, a3, a4, a5, a6, a7)) == Weight(a0) + 2 * Weight(a1) + 4 * Weight(a2)
      + 8 * Weight(a3) + 16 * Weight(a4) + 32 * Weight(a5) + 64 * Weight(a6) + 128 * Weight(a7)
  {
  }

  function Digit(d: nat, i: nat): nat {
    Half(d, i) % 2
  }

  lemma HalfStep(d: nat, i: nat)
    ensures Half(d, i) == Digit(d, i) + 2 * Half(d, i + 1)
    ensures Digit(d, i) == Weight(Flag(d, i))
  {
  }

  lemma HalvingSum(d: nat)
    ensures d == Digit(d, 0) + 2 * Digit(d, 1) + 4 * Digit(d, 2) + 8 * Digit(d, 3)
      + 16 * Digit(d, 4) + 32 * Digit(d, 5) + 64 * Digit(d, 6) + 128 * Digit(d, 7) + 256 * Half(d, 8)
  {
    HalfStep(d, 0); HalfStep(d, 1); HalfStep(d, 2); HalfStep(d, 3);
    HalfStep(d, 4); HalfStep(d, 5); HalfStep(d, 6); HalfStep(d, 7);
  }

  lemma DigitsOfByte(d: nat)
    requires d < 0x100
    ensures d == Weight(Flag(d, 0)) + 2 * Weight(Flag(d, 1)) + 4 * Weight(Flag(d, 2)) + 8 * Weight(Flag(d, 3))
      + 16 * Weight(Flag(d, 4)) + 32 * Weight(Flag(d, 5)) + 64 * Weight(Flag(d, 6)) + 128 * Weight(Flag(d, 7))
  {
    HalfStep(d, 0); HalfStep(d, 1); HalfStep(d, 2); HalfStep(d, 3);
    HalfStep(d, 4); HalfStep(d, 5); HalfStep(d, 6); HalfStep(d, 7);
    HalvingSum(d);
  }

  /** Every digit of zero is clear. */
  lemma ZeroByte()
    ensures ToByte(0) == 0
  {
    assert Half(0, 1) == 0 && Half(0, 2) == 0 && Half(0, 3) == 0 && Half(0, 4) == 0;
    assert Half(0, 5) == 0 && Half(0, 6) == 0 && Half(0, 7) == 0;
  }

  /** A number below 256 survives the trip through a byte. */
  lemma ByteRoundTrip(d: nat)
    requires d < 0x100
    ensures FromByte(ToByte(d)) == d
  {
    var a0, a1, a2, a3 := Flag(d, 0), Flag(d, 1), Flag(d, 2), Flag(d, 3);
    var a4, a5, a6, a7 := Flag(d, 4), Flag(d, 5), Flag(d, 6), Flag(d, 7);
    assert ToByte(d) == Bits(a0, a1, a2, a3, a4, a5, a6, a7);
    BitsBack(a0, a1, a2, a3, a4, a5, a6, a7);
    DigitsOfByte(d);
  }

  /** Eight bytes laid side by side, least significant first. */
  function Pack(b0: bv8, b1: bv8, b2: bv8, b3: bv8, b4: bv8, b5: bv8, b6: bv8, b7: bv8): bv64 {
    (b0 as bv64) | ((b1 as bv64) << 8) | ((b2 as bv64) << 16) | ((b3 as bv64) << 24)
    | ((b4 as bv64) << 32) | ((b5 as bv64) << 40) | ((b6 as bv64) << 48) | ((b7 as bv64) << 56)
  }

  /** `n as u64`: the low 64 bits of a number. */
  function U64(n: nat): (w: bv64)
    ensures Usize(w) == n % U64_RANGE
  {
    UsizeOfU64(n);
    Pack(ByteOf(n, 0), ByteOf(n, 1), ByteOf(n, 2), ByteOf(n, 3), ByteOf(n, 4), ByteOf(n, 5), ByteOf(n, 6), ByteOf(n, 7))
  }

  /** The value of one byte lane. */
  function Lane(x: bv64): (n: nat)
    requires x < 0x100
    ensures n < 0x100
  {
    FromByte(x as bv8)
  }

  /** `w as usize`: the number a word denotes, lane by lane. */
  function Usize(w: bv64): nat
  {
    Lane(w & 0xff) + 0x100 * Lane((w >> 8) & 0xff) + 0x1_0000 * Lane((w >> 16) & 0xff)
    + 0x100_0000 * Lane((w >> 24) & 0xff) + 0x1_0000_0000 * Lane((w >> 32) & 0xff)
    + 0x100_0000_0000 * Lane((w >> 40) & 0xff) + 0x1_0000_0000_0000 * Lane((w >> 48) & 0xff)
    + 0x100_0000_0000_0000 * Lane((w >> 56) & 0xff)
  }

  lemma PackLanes(b0: bv8, b1: bv8, b2: bv8, b3: bv8, b4: bv8, b5: bv8, b6: bv8, b7: bv8)
    ensures var w := Pack(b0, b1, b2, b3, b4, b5, b6, b7);
      (w & 0xff) as bv8 == b0 && ((w >> 8) & 0xff) as bv8 == b1 && ((w >> 16) & 0xff) as bv8 == b2
      && ((w >> 24) & 0xff) as bv8 == b3 && ((w >> 32) & 0xff) as bv8 == b4 && ((w >> 40) & 0xff) as bv8 == b5
      && ((w >> 48) & 0xff) as bv8 == b6 && ((w >> 56) & 0xff) as bv8 == b7
  {
  }

  lemma ByteValue(n: nat, k: nat)
    ensures FromByte(ByteOf(n, k)) == (n / Pow(k)) % BYTE
  {
    ByteRoundTrip((n / Pow(k)) % BYTE);
  }

  lemma PowValues()
    ensures Pow(1) == 0x100 && Pow(2) == 0x1_0000 && Pow(3) == 0x100_0000 && Pow(4) == 0x1_0000_0000
    ensures Pow(5) == 0x100_0000_0000 && Pow(6) == 0x1_0000_0000_0000 && Pow(7) == 0x100_0000_0000_0000
    ensures Pow(8) == U64_RANGE
  {
  }

  lemma UsizeOfPack(b0: bv8, b1: bv8, b2: bv8, b3: bv8, b4: bv8, b5: bv8, b6: bv8, b7: bv8)
    ensures Usize(Pack(b0, b1, b2, b3, b4, b5, b6, b7)) == FromByte(b0) + 0x100 * FromByte(b1)
      + 0x1_0000 * FromByte(b2) + 0x100_0000 * FromByte(b3) + 0x1_0000_0000 * FromByte(b4)
      + 0x100_0000_0000 * FromByte(b5) + 0x1_0000_0000_0000 * FromByte(b6) + 0x100_0000_0000_0000 * FromByte(b7)
  {
    PackLanes(b0, b1, b2, b3, b4, b5, b6, b7);
  }

  /** `n % 256^(k+1)` is `n % 256^k` plus byte `k` in its place. */
  lemma ModPeel(n: nat, k: nat)
    ensures n % Pow(k + 1) == n % Pow(k) + Pow(k) * ((n / Pow(k)) % BYTE)
  {
    var p := Pow(k);
    var bp := Pow(k + 1);
    assert bp == BYTE * p;
    var q, r := n / p, n % p;
    assert n == q * p + r;
    var q2, r2 := q / BYTE, q % BYTE;
    assert q == q2 * BYTE + r2;
    assert n == q2 * bp + (r2 * p + r) by {
      assert q * p == q2 * BYTE * p + r2 * p;
    }
    MulMonotone(r2, BYTE - 1, p);
    DivModUnique(n, bp, q2, r2 * p + r);
  }

  /** Multiplying by the same factor keeps the order. */
  lemma MulMonotone(a: nat, b: nat, c: nat)
    requires a <= b
    ensures a * c <= b * c
  {
    assert b * c == a * c + (b - a) * c;
  }

  /** Division with remainder has one answer. */
  lemma DivModUnique(x: nat, d: nat, q: nat, r: nat)
    requires 0 < d && r < d && x == q * d + r
    ensures x / d == q && x % d == r
  {
    var q', r' := x / d, x % d;
    assert x == q' * d + r';
    if q' < q {
      MulAtLeast(q - q', d);
    } else if q' > q {
      MulAtLeast(q' - q, d);
    }
  }

  /** A positive multiple of `d` is at least `d`. */
  lemma MulAtLeast(k: nat, d: nat)
    requires k >= 1
    ensures k * d >= d
  {
    assert k * d == (k - 1) * d + d;
  }

  /** Reading back a truncated number gives it modulo 2^64. */
  lemma UsizeOfU64(n: nat)
    ensures Usize(Pack(ByteOf(n, 0), ByteOf(n, 1), ByteOf(n, 2), ByteOf(n, 3), ByteOf(n, 4), ByteOf(n, 5), ByteOf(n, 6), ByteOf(n, 7)))
      == n % U64_RANGE
  {
    var b0, b1, b2, b3 := ByteOf(n, 0), ByteOf(n, 1), ByteOf(n, 2), ByteOf(n, 3);
    var b4, b5, b6, b7 := ByteOf(n, 4), ByteOf(n, 5), ByteOf(n, 6), ByteOf(n, 7);
    UsizeOfPack(b0, b1, b2, b3, b4, b5, b6, b7);
    ByteValue(n, 0); ByteValue(n, 1); ByteValue(n, 2); ByteValue(n, 3);
    ByteValue(n, 4); ByteValue(n, 5); ByteValue(n, 6); ByteValue(n, 7);
    ByteSum(n, Usize(Pack(b0, b1, b2, b3, b4, b5, b6, b7)), FromByte(b0), FromByte(b1), FromByte(b2), FromByte(b3),
      FromByte(b4), FromByte(b5), FromByte(b6), FromByte(b7));
  }

  /** A number modulo 2^64 is the sum of its eight low bytes in place. */
  lemma ByteSum(n: nat, u: nat, v0: nat, v1: nat, v2: nat, v3: nat, v4: nat, v5: nat, v6: nat, v7: nat)
    requires v0 == (n / Pow(0)) % BYTE && v1 == (n / Pow(1)) % BYTE && v2 == (n / Pow(2)) % BYTE
    requires v3 == (n / Pow(3)) % BYTE && v4 == (n / Pow(4)) % BYTE && v5 == (n / Pow(5)) % BYTE
    requires v6 == (n / Pow(6)) % BYTE && v7 == (n / Pow(7)) % BYTE
    requires u == v0 + 0x100 * v1 + 0x1_0000 * v2 + 0x100_0000 * v3 + 0x1_0000_0000 * v4
      + 0x100_0000_0000 * v5 + 0x1_0000_0000_0000 * v6 + 0x100_0000_0000_0000 * v7
    ensures u == n % U64_RANGE
  {
    PowValues();
    ModPeel(n, 0); ModPeel(n, 1); ModPeel(n, 2); ModPeel(n, 3);
    ModPeel(n, 4); ModPeel(n, 5); ModPeel(n, 6); ModPeel(n, 7);
  }

  /** Bytes at or above `k` of a number below `256^k` are zero. */
  lemma HighBytesZero(n: nat, k: nat)
    requires n < Pow(k)
    ensures ByteOf(n, k) == 0
  {
    DivModUnique(n, Pow(k), 0, n);
    ZeroByte();
  }

  /** A number that fits in 64 bits survives the cast there and back. */
  lemma UsizeU64(n: nat)
    requires n < U64_RANGE
    ensures Usize(U64(n)) == n
  {
    assert n % U64_RANGE == n;
  }

  lemma PackBelow32(b0: bv8, b1: bv8, b2: bv8, b3: bv8)
    ensures Pack(b0, b1, b2, b3, 0, 0, 0, 0) < 0x1_0000_0000
  {
  }

  lemma PackBelow29(b0: bv8, b1: bv8, b2: bv8, b3: bv8)
    requires FromByte(b3) < 0x20
    ensures Pack(b0, b1, b2, b3, 0, 0, 0, 0) < 0x2000_0000
  {
    ByteBelow(b3);
  }

  lemma PackBelow13(b0: bv8, b1: bv8)
    requires FromByte(b1) < 0x20
    ensures Pack(b0, b1, 0, 0, 0, 0, 0, 0) < 0x2000
  {
    ByteBelow(b1);
  }

  lemma ByteBelow(b: bv8)
    requires FromByte(b) < 0x20
    ensures b < 0x20
  {
  }

  /** The casts of the levels the node-pointer lemmas use. */
  lemma U64Literals()
    ensures U64(0) == 0 && U64(0x2000) == 0x2000 && U64(0x4000) == 0x4000
  {
    U64Zero();
    U64SecondByte(0x2000, 0x20);
    U64SecondByte(0x4000, 0x40);
    ByteLiterals();
  }

  lemma U64Zero()
    ensures U64(0) == 0
  {
    ZeroByte();
    assert forall k: nat :: 0 / Pow(k) == 0;
  }

  lemma ByteLiterals()
    ensures ToByte(0x20) == 0x20 && ToByte(0x40) == 0x40
  {
    Byte20();
    Byte40();
  }

  lemma Byte20()
    ensures ToByte(0x20) == 0x20
  {
    assert Half(0x20, 1) == 0x10 && Half(0x20, 2) == 8 && Half(0x20, 3) == 4 && Half(0x20, 4) == 2;
    assert Half(0x20, 5) == 1 && Half(0x20, 6) == 0 && Half(0x20, 7) == 0;
    assert Bits(false, false, false, false, false, true, false, false) == 0x20;
  }

  lemma Byte40()
    ensures ToByte(0x40) == 0x40
  {
    assert Half(0x40, 1) == 0x20 && Half(0x40, 2) == 0x10 && Half(0x40, 3) == 8 && Half(0x40, 4) == 4;
    assert Half(0x40, 5) == 2 && Half(0x40, 6) == 1 && Half(0x40, 7) == 0;
    assert Bits(false, false, false, false, false, false, true, false) == 0x40;
  }

  /** A multiple of 256 below 2^16 casts to its second byte shifted into place. */
  lemma U64SecondByte(n: nat, b: nat)
    requires b < 0x80 && n == b * 0x100 && (b == 0x20 || b == 0x40)
    ensures U64(n) == (ToByte(b) as bv64) << 8
  {
    PowValues();
    ByteLiterals();
    ZeroByte();
    DivModUnique(n, 1, n, 0);
    DivModUnique(n, 0x100, b, 0);
    DivModUnique(b, 0x100, 0, b);
    assert ByteOf(n, 0) == 0 && ByteOf(n, 1) == ToByte(b);
    HighBytesZero(n, 2); HighBytesZero(n, 3); HighBytesZero(n, 4);
    HighBytesZero(n, 5); HighBytesZero(n, 6); HighBytesZero(n, 7);
  }

  /** A number below 2^32 casts to a word below 2^32. */
  lemma U64Below32(n: nat)
    requires n < U32
    ensures U64(n) < 0x1_0000_0000
  {
    PowValues();
    HighBytesZero(n, 4); HighBytesZero(n, 5); HighBytesZero(n, 6); HighBytesZero(n, 7);
    PackBelow32(ByteOf(n, 0), ByteOf(n, 1), ByteOf(n, 2), ByteOf(n, 3));
  }

  lemma MulMono(a: nat, b: nat, p: nat)
    requires a <= b
    ensures a * p <= b * p
  {
    assert b * p == a * p + (b - a) * p;
  }

  /** A number below `32 * p` has fewer than 32 whole `p`s. */
  lemma SmallDigit(n: nat, p: nat)
    requires p > 0 && n < 0x20 * p
    ensures (n / p) % BYTE < 0x20
  {
    var q := n / p;
    assert q * p <= n;
    if q >= 0x20 {
      MulMono(0x20, q, p);
    }
    DivModUnique(q, BYTE, 0, q);
  }

  /** A number below 2^29 casts to a word below 2^29. */
  lemma U64Below29(n: nat)
    requires n < 0x2000_0000
    ensures U64(n) < 0x2000_0000
  {
    PowValues();
    ByteValue(n, 3);
    SmallDigit(n, Pow(3));
    HighBytesZero(n, 4); HighBytesZero(n, 5); HighBytesZero(n, 6); HighBytesZero(n, 7);
    PackBelow29(ByteOf(n, 0), ByteOf(n, 1), ByteOf(n, 2), ByteOf(n, 3));
  }

  /** A number below 2^13 casts to a word below 2^13. */
  lemma U64Below13(n: nat)
    requires n < 0x2000
    ensures U64(n) < 0x2000
  {
    PowValues();
    ByteValue(n, 1);
    SmallDigit(n, Pow(1));
    HighBytesZero(n, 2); HighBytesZero(n, 3);
    HighBytesZero(n, 4); HighBytesZero(n, 5); HighBytesZero(n, 6); HighBytesZero(n, 7);
    PackBelow13(ByteOf(n, 0), ByteOf(n, 1));
  }

  /** A word below 2^32 denotes a number below 2^32. */
  lemma UsizeBelow32(w: bv64)
    requires w < 0x1_0000_0000
    ensures Usize(w) < U32
  {
    assert (w >> 32) & 0xff == 0 && (w >> 40) & 0xff == 0 && (w >> 48) & 0xff == 0 && (w >> 56) & 0xff == 0;
  }

  /** A word below 2^13 denotes a number below 2^13. */
  lemma UsizeBelow13(w: bv64)
    requires w < 0x2000
    ensures Usize(w) < 0x2000
  {
    HighLanesClear(w);
    LaneBelow((w >> 8) & 0xff);
  }

  lemma HighLanesClear(w: bv64)
    requires w < 0x2000
    ensures (w >> 8) & 0xff < 0x20
    ensures (w >> 16) & 0xff == 0 && (w >> 24) & 0xff == 0
    ensures (w >> 32) & 0xff == 0 && (w >> 40) & 0xff == 0 && (w >> 48) & 0xff == 0 && (w >> 56) & 0xff == 0
  {
  }

  lemma LaneBelow(x: bv64)
    requires x < 0x20
    ensures Lane(x) < 0x20
  {
    var b := x as bv8;
    assert b < 0x20;
  }
}
