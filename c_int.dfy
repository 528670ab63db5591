/**
 * The C integer semantics that wave.c's byte decoding depends on, on unbounded
 * integers. A C `int` or `unsigned int` is represented by its 32-bit pattern, a
 * natural below 2^32; `|`, `&` and `<<` act on patterns the way gcc on x86 does
 * (a left shift into or past the sign bit keeps the low 32 bits), and `Signed`
 * reads a pattern back as a two's-complement `int`. `char` is signed.
 */
module CInt {
  import opened ModArith

  type Byte = b: int | 0 <= b < 256

  const TwoTo31: int := 0x8000_0000
  const TwoTo32: int := 0x1_0000_0000

  function Pow2(k: nat): (p: nat)
    ensures p >= 1
  {
    if k == 0 then 1 else 2 * Pow2(k - 1)
  }

  lemma Pow2Values()
    ensures Pow2(8) == 0x100 && Pow2(16) == 0x1_0000 && Pow2(24) == 0x100_0000
  {
  }

  /** Bitwise OR of two naturals, bit by bit from the lowest. */
  function BitOr(a: nat, b: nat): (c: nat)
    decreases a + b
  {
    if a == 0 then b
    else if b == 0 then a
    else (if a % 2 == 1 || b % 2 == 1 then 1 else 0) + 2 * BitOr(a / 2, b / 2)
  }

  /** Bitwise AND of two naturals, bit by bit from the lowest. */
  function BitAnd(a: nat, b: nat): (c: nat)
    decreases a + b
  {
    if a == 0 || b == 0 then 0
    else (if a % 2 == 1 && b % 2 == 1 then 1 else 0) + 2 * BitAnd(a / 2, b / 2)
  }

  /** The 32-bit pattern of an `int` value: two's complement for a negative one. */
  function Bits(v: int): (p: int)
    ensures 0 <= p < TwoTo32
  {
    v % TwoTo32
  }

  /** The `int` whose pattern is `p`: the conversion of an `unsigned int` to `int` on gcc. */
  function Signed(p: int): (v: int)
    requires 0 <= p < TwoTo32
    ensures -TwoTo31 <= v < TwoTo31 && Bits(v) == p
  {
    if p < TwoTo31 then p else p - TwoTo32
  }

  /** `x << k` on a 32-bit pattern: bits shifted past bit 31 are lost. */
  function Shl(p: int, k: nat): (r: int)
    requires 0 <= p < TwoTo32
    ensures 0 <= r < TwoTo32
  {
    (p * Pow2(k)) % TwoTo32
  }

  /** A byte read into a `char`, which is signed on gcc/x86: 128..255 become -128..-1. */
  function SChar(b: Byte): (c: int)
    ensures -128 <= c < 128 && Bits(c) % 256 == b
  {
    ModUnique(Bits(b - 256), 256, 0xFF_FFFF, b);
    if b < 128 then b else b - 256
  }

  /** OR-ing a value with a field shifted above all its bits is adding them. */
  lemma {:induction false} OrDisjoint(a: nat, b: nat, k: nat)
    requires a < Pow2(k)
    ensures BitOr(a, b * Pow2(k)) == a + b * Pow2(k)
    decreases k
  {
    if k > 0 && a != 0 && b != 0 {
      var m := b * Pow2(k - 1);
      assert b * Pow2(k) == 2 * m;
      OrDisjoint(a / 2, b, k - 1);
    }
  }

  /**
   * `OrDisjoint` for a field `s` given as it stands: when `s` is a multiple of `p == 2^k`
   * and `a < p`, OR-ing is adding.
   */
  lemma OrAbove(a: nat, s: nat, p: nat, k: nat)
    requires p == Pow2(k) && a < p && s % p == 0
    ensures BitOr(a, s) == a + s
  {
    var b := s / p;
    assert s == b * p;
    OrDisjoint(a, b, k);
    assert b * Pow2(k) == s;
  }

  /** Four bytes, each already shifted into place, OR-ed together are their little-endian sum. */
  lemma OrBytes(x0: nat, s1: nat, s2: nat, s3: nat, b0: Byte, b1: Byte, b2: Byte, b3: Byte)
    requires x0 == b0 && s1 == 0x100 * b1 && s2 == 0x1_0000 * b2 && s3 == 0x100_0000 * b3
    ensures BitOr(BitOr(BitOr(x0, s1), s2), s3) == b0 + 0x100 * b1 + 0x1_0000 * b2 + 0x100_0000 * b3
  {
    Pow2Values();
    OrAbove(x0, s1, 0x100, 8);
    OrAbove(BitOr(x0, s1), s2, 0x1_0000, 16);
    OrAbove(BitOr(BitOr(x0, s1), s2), s3, 0x100_0000, 24);
  }

  /** Masking with `2^k - 1` keeps the low `k` bits. */
  lemma {:induction false} AndMask(x: nat, k: nat)
    ensures BitAnd(x, Pow2(k) - 1) == x % Pow2(k)
    decreases k
  {
    if k > 0 && x != 0 {
      AndMask(x / 2, k - 1);
      AndMaskStep(x, Pow2(k - 1), Pow2(k));
    }
  }

  /** One step of `AndMask`: from the mask `p - 1` on `x / 2` to the mask `2 * p - 1` on `x`. */
  lemma AndMaskStep(x: nat, p: int, twice: int)
    requires p >= 1 && twice == 2 * p && x > 0 && BitAnd(x / 2, p - 1) == (x / 2) % p
    ensures BitAnd(x, twice - 1) == x % twice
  {
    var m := twice - 1;
    ModUnique(m, 2, p - 1, 1);
    AndOdd(x, m);
    ModHalves(x, p);
  }

  /** AND-ing with an odd mask keeps the lowest bit and masks the rest with the mask's half. */
  lemma AndOdd(x: nat, m: nat)
    requires x > 0 && m % 2 == 1
    ensures BitAnd(x, m) == x % 2 + 2 * BitAnd(x / 2, m / 2)
  {
  }

  /** The remainder by `2 * p` is the lowest bit plus twice the remainder of the half by `p`. */
  lemma ModHalves(x: nat, p: int)
    requires p >= 1
    ensures x % (2 * p) == x % 2 + 2 * ((x / 2) % p)
  {
    var q, r := (x / 2) / p, (x / 2) % p;
    assert x / 2 == q * p + r;
    assert x == 2 * (x / 2) + x % 2;
    assert x == q * (2 * p) + (x % 2 + 2 * r) by {
      assert 2 * (q * p) == q * (2 * p);
    }
    ModUnique(x, 2 * p, q, x % 2 + 2 * r);
  }

  /** `c & 0x00ff` on a `char` promoted to `int` recovers the byte that was read. */
  lemma LowByte(b: Byte)
    ensures BitAnd(Bits(SChar(b)), 0xFF) == b
  {
    Pow2Values();
    AndMask(Bits(SChar(b)), 8);
  }

  /** A byte shifted left by `k` with `k <= 24` stays inside 32 bits; `p` names `2^k`. */
  lemma ShlByte(b: Byte, k: nat, p: nat)
    requires k <= 24 && p == Pow2(k)
    ensures Shl(b, k) == b * p
  {
    Pow2Values();
    Pow2Mono(k, 24);
    MulMono(b, 255, p, 0x100_0000);
    var x := b * p;
    assert 0 <= x < TwoTo32;
    ModUnique(x, TwoTo32, 0, x);
  }

  lemma {:induction false} Pow2Mono(j: nat, k: nat)
    requires j <= k
    ensures Pow2(j) <= Pow2(k)
    decreases k
  {
    if j < k {
      Pow2Mono(j, k - 1);
    }
  }

  lemma MulMono(a: nat, b: nat, c: nat, d: nat)
    requires a <= b && c <= d
    ensures 0 <= a * c <= b * d
  {
    assert a * c <= b * c;
    assert b * c <= b * d;
  }

  /** `c << 24` on a `char` promoted to `int` puts the byte's own bits at 24..31. */
  lemma ShlChar24(b: Byte)
    ensures Shl(Bits(SChar(b)), 24) == b * 0x100_0000
  {
    Pow2Values();
    if b >= 128 {
      assert Bits(SChar(b)) == b + 0xFFFF_FF00 by {
        ModUnique(b - 256, TwoTo32, -1, b + 0xFFFF_FF00);
      }
      ModUnique((b + 0xFFFF_FF00) * 0x100_0000, TwoTo32, 0xFF_FFFF, b * 0x100_0000);
    } else {
      ModUnique(b, TwoTo32, 0, b);
      ModUnique(b * 0x100_0000, TwoTo32, 0, b * 0x100_0000);
    }
  }

  /**
   * `c << 8` on a `char` promoted to `int` is `256 * m` for the pattern `m` of the
   * sign-extended byte shifted down by 8: the high bits stay set for a negative `char`.
   */
  lemma ShlChar8(b: Byte)
    ensures Shl(Bits(SChar(b)), 8) == 256 * (if b < 128 then b else b + 0xFF_FF00)
  {
    Pow2Values();
    if b >= 128 {
      assert Bits(SChar(b)) == b + 0xFFFF_FF00 by {
        ModUnique(b - 256, TwoTo32, -1, b + 0xFFFF_FF00);
      }
      ModUnique((b + 0xFFFF_FF00) * 0x100, TwoTo32, 0xFF, 256 * (b + 0xFF_FF00));
    } else {
      ModUnique(b, TwoTo32, 0, b);
      ModUnique(b * 0x100, TwoTo32, 0, b * 0x100);
    }
  }
}
