/**
 * Machine words and the little-endian value of a word sequence, shared by the
 * two big-integer templates. The word width is fixed at 32 bits
 * (WORD_TYPE uint32_t, HALF_WORD_BITS 16, as in their unit tests).
 */
module Words {

  const HALF_BITS: nat := 16
  const HALF_BASE: nat := 0x1_0000
  const BASE: nat := 0x1_0000_0000

  /** An unsigned 32-bit word. */
  type Word = x: int | 0 <= x < 0x1_0000_0000

  /** BASE raised to the power e: the weight of word number e. */
  function Pow(e: nat): (r: nat)
    ensures r >= 1
  {
    if e == 0 then 1 else BASE * Pow(e - 1)
  }

  /** The number a little-endian word sequence stands for (index 0 least significant). */
  function Val(s: seq<Word>): nat
  {
    if |s| == 0 then 0 else s[0] + BASE * Val(s[1..])
  }

  /** n zero words. */
  function Zeros(n: nat): (z: seq<Word>)
    ensures |z| == n
    ensures forall i :: 0 <= i < n ==> z[i] == 0
  {
    if n == 0 then [] else [0] + Zeros(n - 1)
  }

  /** The first n words of s, reading missing high words as zero. */
  function ZeroExtend(s: seq<Word>, n: nat): (z: seq<Word>)
    ensures |z| == n
    ensures forall i :: 0 <= i < n ==> z[i] == (if i < |s| then s[i] else 0)
  {
    if n <= |s| then s[..n] else s + Zeros(n - |s|)
  }

  lemma {:induction false} PowAdd(x: nat, y: nat)
    ensures Pow(x + y) == Pow(x) * Pow(y)
  {
    if y > 0 {
      PowAdd(x, y - 1);
      calc {
        Pow(x + y);
        BASE * Pow(x + y - 1);
        BASE * (Pow(x) * Pow(y - 1));
        Pow(x) * (BASE * Pow(y - 1));
        Pow(x) * Pow(y);
      }
    }
  }

  lemma {:induction false} PowMonotone(x: nat, y: nat)
    requires x <= y
    ensures Pow(x) <= Pow(y)
  {
    if x < y {
      PowMonotone(x, y - 1);
    }
  }

  /** A sequence of n words stands for a number below BASE^n. */
  lemma {:induction false} ValBound(s: seq<Word>)
    ensures Val(s) < Pow(|s|)
  {
    if |s| > 0 {
      ValBound(s[1..]);
      assert Val(s[1..]) + 1 <= Pow(|s| - 1);
      calc {
        Val(s);
        s[0] + BASE * Val(s[1..]);
      <  BASE + BASE * Val(s[1..]);
        BASE * (Val(s[1..]) + 1);
      <= BASE * Pow(|s| - 1);
      }
    }
  }

  /** Concatenation: the high part is weighted by BASE^|s|. */
  lemma {:induction false} ValAppend(s: seq<Word>, t: seq<Word>)
    ensures Val(s + t) == Val(s) + Pow(|s|) * Val(t)
  {
    if |s| > 0 {
      assert (s + t)[1..] == s[1..] + t;
      ValAppend(s[1..], t);
      calc {
        Val(s + t);
        s[0] + BASE * Val(s[1..] + t);
        s[0] + BASE * (Val(s[1..]) + Pow(|s| - 1) * Val(t));
        s[0] + BASE * Val(s[1..]) + (BASE * Pow(|s| - 1)) * Val(t);
        Val(s) + Pow(|s|) * Val(t);
      }
    } else {
      assert s + t == t;
    }
  }

  /** Adding the word at index i adds s[i] * BASE^i. */
  lemma {:induction false} ValPrefixStep(s: seq<Word>, i: nat)
    requires i < |s|
    ensures Val(s[..i + 1]) == Val(s[..i]) + s[i] * Pow(i)
  {
    assert s[..i + 1] == s[..i] + [s[i]];
    ValAppend(s[..i], [s[i]]);
    assert Val([s[i]]) == s[i] + BASE * Val([s[i]][1..]);
    assert [s[i]][1..] == [];
  }

  /** Splitting a sequence at k. */
  lemma {:induction false} ValSplit(s: seq<Word>, k: nat)
    requires k <= |s|
    ensures Val(s) == Val(s[..k]) + Pow(k) * Val(s[k..])
  {
    assert s == s[..k] + s[k..];
    ValAppend(s[..k], s[k..]);
  }

  lemma {:induction false} ValZeros(n: nat)
    ensures Val(Zeros(n)) == 0
  {
    if n > 0 {
      assert Zeros(n)[1..] == Zeros(n - 1);
      ValZeros(n - 1);
    }
  }

  /** Zero-extending a number does not change its value. */
  lemma {:induction false} ValZeroExtend(s: seq<Word>, n: nat)
    requires |s| <= n
    ensures Val(ZeroExtend(s, n)) == Val(s)
  {
    if n == |s| {
      assert s[..n] == s;
    } else {
      ValAppendZeros(s, n - |s|);
    }
  }

  /** Appending zero words does not change the value. */
  lemma {:induction false} ValAppendZeros(s: seq<Word>, n: nat)
    ensures Val(s + Zeros(n)) == Val(s)
  {
    ValAppend(s, Zeros(n));
    ValZeros(n);
    MulZero(Pow(|s|), Val(Zeros(n)));
  }

  lemma {:induction false} MulZero(x: int, y: int)
    requires y == 0
    ensures x * y == 0
  {
  }

  /** A prefix never stands for more than the whole sequence. */
  lemma {:induction false} ValPrefixLe(s: seq<Word>, k: nat)
    requires k <= |s|
    ensures Val(s[..k]) <= Val(s)
  {
    ValSplit(s, k);
  }

  /** Multiplication by a non-negative factor is monotone. */
  lemma {:induction false} MulMono(x: int, y: int, z: int)
    requires x <= y && 0 <= z
    ensures x * z <= y * z
  {
  }

  /** Multiplication of non-negatives below m stays below m * m. */
  lemma {:induction false} MulBelow(x: nat, y: nat, m: nat)
    requires x < m && y < m
    ensures x * y < m * m
  {
    MulMono(y, m, x);
    MulMono(x, m, m);
    assert x * m < m * m;
  }
}
