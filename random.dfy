/**
 * The linear congruential generator getRand of prng/simplerandom.c (and of
 * its copy simplerandom.c). The caller's unsigned state variable is a
 * RandomState object; C's 32-bit unsigned arithmetic is written out as a
 * reduction modulo 2^32.
 */
module Random {

  /** A 32-bit unsigned integer. */
  newtype uint32 = x: int | 0 <= x < 0x1_0000_0000

  /** The modulus the state is reduced by after the 32-bit multiply-add: 2^31 - 1. */
  const MODULUS: int := 0x7FFF_FFFF

  /**
   * The state after one draw: 1103515245 * s + 12345 computed in 32-bit
   * unsigned arithmetic, then reduced modulo 0x7FFFFFFF.
   */
  function NextState(s: uint32): (r: uint32)
    ensures r as int < MODULUS
  {
    (((1103515245 * s as int + 12345) % 0x1_0000_0000) % MODULUS) as uint32
  }

  /** The caller's state variable that getRand updates through a pointer. */
  class RandomState {
    var state: uint32

    constructor (seed: uint32)
      ensures state == seed
    {
      state := seed;
    }

    /** getRand: advances the state by one draw and returns the new state. */
    method GetRand() returns (r: uint32)
      modifies this
      ensures state == NextState(old(state)) && r == state
    {
      state := (((1103515245 * state as int + 12345) % 0x1_0000_0000) % MODULUS) as uint32;
      r := state;
    }
  }

  /** The numbers n successive draws return, starting from the state seed. */
  function Draws(seed: uint32, n: nat): (r: seq<uint32>)
    ensures |r| == n
    decreases n
  {
    if n == 0 then [] else [NextState(seed)] + Draws(NextState(seed), n - 1)
  }

  /** Every draw is below 0x7FFFFFFF. */
  lemma {:induction false} DrawsBounded(seed: uint32, n: nat)
    ensures forall i :: 0 <= i < n ==> Draws(seed, n)[i] as int < MODULUS
    decreases n
  {
    if n > 0 {
      DrawsBounded(NextState(seed), n - 1);
    }
  }

  /**
   * The generator is deterministic and its only state is the last number
   * returned: m + n draws from seed are the first m draws followed by n
   * draws seeded with the m-th one.
   */
  lemma {:induction false} DrawsResume(seed: uint32, m: nat, n: nat)
    requires m > 0
    ensures Draws(seed, m + n) == Draws(seed, m) + Draws(Draws(seed, m)[m - 1], n)
    decreases m
  {
    var t := NextState(seed);
    assert Draws(seed, m) == [t] + Draws(t, m - 1);
    assert Draws(seed, m + n) == [t] + Draws(t, (m - 1) + n);
    if m == 1 {
      assert Draws(seed, m) == [t];
    } else {
      DrawsResume(t, m - 1, n);
      assert Draws(seed, m)[m - 1] == Draws(t, m - 1)[m - 2];
    }
  }

  /**
   * Calling getRand n times in a row returns exactly the n draws from the
   * state the generator had before the first call, and leaves it at the last.
   */
  method DrawMany(g: RandomState, n: nat) returns (out: seq<uint32>)
    modifies g
    ensures out == Draws(old(g.state), n)
    ensures n > 0 ==> g.state == out[n - 1]
    ensures n == 0 ==> g.state == old(g.state)
  {
    ghost var seed := g.state;
    out := [];
    var i := 0;
    while i < n
      invariant 0 <= i <= n
      invariant out == Draws(seed, i)
      invariant i > 0 ==> g.state == out[i - 1]
      invariant i == 0 ==> g.state == seed
    {
      var r := g.GetRand();
      if i > 0 {
        DrawsResume(seed, i, 1);
      } else {
        assert Draws(seed, 1) == [NextState(seed)];
      }
      out := out + [r];
      i := i + 1;
    }
  }

  /** Two generators with the same state return the same number and stay in step. */
  method SameSeedSameDraw(a: RandomState, b: RandomState) returns (ra: uint32, rb: uint32)
    requires a != b && a.state == b.state
    modifies a, b
    ensures ra == rb && a.state == b.state
  {
    ra := a.GetRand();
    rb := b.GetRand();
  }
}
