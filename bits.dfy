/**
 * The bit tricks of ispower2.c (on a 32-bit unsigned) and roundpower2.c
 * (on a 64-bit unsigned). Bit-vector arithmetic wraps around as C's
 * unsigned arithmetic does.
 */
module Bits {

  /** 2^k as a 32-bit word. */
  function Pow2(k: bv8): (r: bv32)
    requires k < 32
    ensures r != 0 && r & (r - 1) == 0
  {
    1 << k
  }

  /** A 64-bit word with exactly one bit set: the test of ispower2. */
  ghost predicate SingleBit(p: bv64)
  {
    p != 0 && p & (p - 1) == 0
  }

  /** ispower2: 1 when x has exactly one bit set, 0 otherwise; 0 is not a power of two. */
  function IsPower2(x: bv32): (r: int)
    ensures r == 0 || r == 1
    ensures x == 0 ==> r == 0
  {
    if x != 0 && x & (x - 1) == 0 then 1 else 0
  }

  /** A word with no set bit in common with its predecessor is 0 or a power of two, and which one. */
  lemma {:induction false} Power2Exponent(x: bv32) returns (k: bv8)
    requires x != 0 && x & (x - 1) == 0
    ensures k < 32 && x == Pow2(k)
    decreases x
  {
    if x == 1 {
      k := 0;
    } else {
      assert x & 1 == 0;
      var y := x >> 1;
      assert y != 0 && y & (y - 1) == 0 && y < x && y < 0x8000_0000;
      var j := Power2Exponent(y);
      k := j + 1;
      assert x == y << 1;
    }
  }

  /** ispower2 is 1 exactly for the powers of two 2^0 .. 2^31. */
  lemma IsPower2Correct(x: bv32)
    ensures IsPower2(x) == 1 <==> exists k: bv8 :: k < 32 && x == Pow2(k)
  {
    if IsPower2(x) == 1 {
      var k := Power2Exponent(x);
    } else {
      forall k: bv8 | k < 32
        ensures x != Pow2(k)
      {
      }
    }
  }

  /** The test vectors of ispower2. */
  lemma IsPower2Vectors()
    ensures IsPower2(0) == 0 && IsPower2(1) == 1 && IsPower2(2) == 1 && IsPower2(3) == 0
    ensures IsPower2(4) == 1 && IsPower2(5) == 0 && IsPower2(6) == 0 && IsPower2(7) == 0
    ensures IsPower2(8) == 1 && IsPower2(9) == 0 && IsPower2(10) == 0 && IsPower2(11) == 0
    ensures IsPower2(12) == 0 && IsPower2(13) == 0 && IsPower2(14) == 0 && IsPower2(15) == 0
    ensures IsPower2(16) == 1 && IsPower2(0x8000_0000) == 1 && IsPower2(0x8010_0000) == 0
    ensures IsPower2(0x7FFF_FFFF) == 0 && IsPower2(0xFFFF_FFFF) == 0
  {
  }

  /**
   * s is y with every bit below its highest set bit set as well: s is
   * 2^m - 1 for the least m with y < 2^m.
   */
  ghost predicate Smeared(y: bv64, s: bv64)
  {
    y <= s && s & (s + 1) == 0
    && (y == 0 ==> s == 0)
    && (y != 0 ==> s >> 1 < y)
    && (y < 0x8000_0000_0000_0000 ==> s < 0x8000_0000_0000_0000)
  }

  /** r is the least power of two at least x: a power of two, at least x, and half of it below x. */
  ghost predicate LeastPowerAtLeast(x: bv64, r: bv64)
  {
    SingleBit(r) && x <= r && r >> 1 < x
  }

  /** The OR cascade of roundUpP2. */
  function Smear(y: bv64): (s: bv64)
    ensures Smeared(y, s)
  {
    var y1 := y | (y >> 1);
    var y2 := y1 | (y1 >> 2);
    var y3 := y2 | (y2 >> 4);
    var y4 := y3 | (y3 >> 8);
    var y5 := y4 | (y4 >> 16);
    y5 | (y5 >> 32)
  }

  /** roundUpP2: decrement, smear the bits below the top one, increment. */
  function RoundUpP2(x: bv64): (r: bv64)
    ensures x == 0 ==> r == 0
  {
    Smear(x - 1) + 1
  }

  /** For 1 <= x <= 2^63 the result is the least power of two at least x. */
  lemma RoundUpP2Smallest(x: bv64)
    requires 1 <= x <= 0x8000_0000_0000_0000
    ensures LeastPowerAtLeast(x, RoundUpP2(x))
  {
    NextPower(x, Smear(x - 1));
  }

  /** One more than the smeared x - 1 is the least power of two at least x, for 1 <= x <= 2^63. */
  lemma NextPower(x: bv64, s: bv64)
    requires 1 <= x <= 0x8000_0000_0000_0000
    requires Smeared(x - 1, s)
    ensures LeastPowerAtLeast(x, s + 1)
  {
    if s != 0 {
      assert (s + 1) >> 1 == (s >> 1) + 1;
    }
  }

  /** No power of two p >= x is below the result, for 1 <= x <= 2^63. */
  lemma RoundUpP2Least(x: bv64, p: bv64)
    requires 1 <= x <= 0x8000_0000_0000_0000
    requires SingleBit(p) && x <= p
    ensures RoundUpP2(x) <= p
  {
    RoundUpP2Smallest(x);
    PowersOrdered(p, RoundUpP2(x), x);
  }

  /** The least power of two q at least x is at most every power of two p at least x. */
  lemma PowersOrdered(p: bv64, q: bv64, x: bv64)
    requires LeastPowerAtLeast(x, q)
    requires SingleBit(p) && x <= p
    ensures q <= p
  {
  }

  /** Powers of two are the fixed points of roundUpP2. */
  lemma RoundUpP2Fixed(p: bv64)
    requires SingleBit(p)
    ensures RoundUpP2(p) == p
  {
    assert p <= 0x8000_0000_0000_0000;
    RoundUpP2Smallest(p);
    RoundUpP2Least(p, p);
  }

  /** Above 2^63 no 64-bit power of two is large enough: the increment wraps around to 0. */
  lemma RoundUpP2Wraps(x: bv64)
    requires x > 0x8000_0000_0000_0000
    ensures RoundUpP2(x) == 0
  {
    assert Smear(x - 1) == 0xFFFF_FFFF_FFFF_FFFF;
  }

  /** Rounding up twice rounds up once, for every input. */
  lemma RoundUpP2Idempotent(x: bv64)
    ensures RoundUpP2(RoundUpP2(x)) == RoundUpP2(x)
  {
    if x > 0x8000_0000_0000_0000 {
      RoundUpP2Wraps(x);
    } else if x != 0 {
      RoundUpP2Smallest(x);
      RoundUpP2Fixed(RoundUpP2(x));
    }
  }

  /** The test vectors of roundUpP2. */
  lemma RoundUpP2Vectors()
    ensures RoundUpP2(0) == 0 && RoundUpP2(1) == 1 && RoundUpP2(2) == 2 && RoundUpP2(3) == 4
    ensures RoundUpP2(69) == 128 && RoundUpP2(50) == 64
    ensures RoundUpP2(0x7FFF_FFFF) == 0x8000_0000 && RoundUpP2(0x4000_0000) == 0x4000_0000
  {
  }
}
