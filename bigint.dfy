/**
 * The word-array arithmetic of arbitrary_precision/bigint.h, instantiated for
 * 32-bit words: single-word add with carry, a double-width multiply built from
 * half words, ripple-carry addition of equal and unequal lengths, and
 * schoolbook multiplication into a 2n-word result.
 *
 * A C pointer `p + k` into a word array is modelled as the array together with
 * the offset k.
 */
module BigInt {
  import opened Words

  /** addDigit: the low word of a + b, and the carry read off as `sum < a`. */
  function AddDigit(a: Word, b: Word): (r: (Word, int))
    ensures r.1 == 0 || r.1 == 1
    ensures r.0 + r.1 * BASE == a + b
    ensures r.1 == 1 <==> a + b >= BASE
  {
    var sum := (a + b) % BASE;
    (sum, if sum < a then 1 else 0)
  }

  /** The addDigit test vector: 0xFFFFFFFF + 0xFFFFFFFF leaves 0xFFFFFFFE and carries 1. */
  lemma AddDigitVector()
    ensures AddDigit(0xFFFF_FFFF, 0xFFFF_FFFF) == (0xFFFF_FFFE, 1)
  {
  }

  /**
   * The mulDigit test vector: the only two words whose value is
   * 0xFFFFFFFF * 0xFFFFFFFF are high 0xFFFFFFFE and low 1, so MulDigit
   * gives exactly those.
   */
  lemma MulDigitVector(high: Word, low: Word)
    requires high * BASE + low == 0xFFFF_FFFF * 0xFFFF_FFFF
    ensures high == 0xFFFF_FFFE && low == 1
  {
    assert 0xFFFF_FFFF * 0xFFFF_FFFF == 0xFFFF_FFFE * BASE + 1;
    if high >= 0xFFFF_FFFF {
      MulMono(0xFFFF_FFFF, high, BASE);
    } else if high <= 0xFFFF_FFFD {
      MulMono(high, 0xFFFF_FFFD, BASE);
    }
  }

  /** A word shifted left by HALF_BITS, keeping only the low 32 bits. */
  function ShiftUpHalf(x: Word): (r: Word)
    ensures r == (x % HALF_BASE) * HALF_BASE
  {
    (x * HALF_BASE) % BASE
  }

  /**
   * mulDigit: the product of two words as (high, low), computed from the
   * half words a = a1 H + a0, b = b1 H + b0 with H = 2^16, where
   * a b = a1 b1 H^2 + (a0 b1 + a1 b0) H + a0 b0. The product is exact.
   */
  method MulDigit(a: Word, b: Word) returns (high: Word, low: Word)
    ensures high * BASE + low == a * b
  {
    var a0, a1 := a % HALF_BASE, a / HALF_BASE;
    var b0, b1 := b % HALF_BASE, b / HALF_BASE;
    MulDigitBounds(a0, a1, b0, b1);
    var overlapping1: Word := a0 * b1;
    var overlapping2: Word := a1 * b0;
    // first the easy part: the initial values of the two halves
    high, low := a1 * b1, a0 * b0;
    HalfProducts(a, b, a0, a1, b0, b1);
    // then the cross terms
    high, low := AddCrossTerms(high, low, overlapping1, overlapping2);
  }

  /**
   * The second half of mulDigit: each cross term is shifted up by H and added
   * into the low word, the carries going into the high word, and then the
   * high halves of the cross terms are added into the high word. None of
   * the high-word additions wraps as long as the exact total fits in two words.
   */
  method AddCrossTerms(high0: Word, low0: Word, overlapping1: Word, overlapping2: Word) returns (high: Word, low: Word)
    requires high0 * BASE + low0 + (overlapping1 + overlapping2) * HALF_BASE < BASE * BASE
    ensures high * BASE + low == high0 * BASE + low0 + (overlapping1 + overlapping2) * HALF_BASE
  {
    var s1 := AddDigit(low0, ShiftUpHalf(overlapping1));
    high, low := (high0 + s1.1) % BASE, s1.0;
    var s2 := AddDigit(low, ShiftUpHalf(overlapping2));
    high, low := (high + s2.1) % BASE, s2.0;
    var q1, q2 := overlapping1 / HALF_BASE, overlapping2 / HALF_BASE;
    CrossSum(high0, low0, overlapping1, overlapping2, s1.0, s1.1, s2.0, s2.1);
    HighNoWrap(high0, s1.1, s2.1, q1, q2);
    high := AddDigit(high, q1).0;
    high := AddDigit(high, q2).0;
  }

  /**
   * Adding the two carries and the two high halves into the high word one
   * at a time never wraps when their total stays below BASE.
   */
  lemma {:induction false} HighNoWrap(h: Word, c1: int, c2: int, q1: nat, q2: nat)
    requires c1 == 0 || c1 == 1
    requires c2 == 0 || c2 == 1
    requires h + c1 + c2 + q1 + q2 < BASE
    ensures AddDigit(AddDigit(((h + c1) % BASE + c2) % BASE, q1).0, q2).0 == h + c1 + c2 + q1 + q2
  {
    ModSmall(h + c1);
    ModSmall(h + c1 + c2);
  }

  lemma {:induction false} ModSmall(x: int)
    requires 0 <= x < BASE
    ensures x % BASE == x
  {
  }

  lemma {:induction false} MulDigitBounds(a0: nat, a1: nat, b0: nat, b1: nat)
    requires a0 < HALF_BASE && a1 < HALF_BASE && b0 < HALF_BASE && b1 < HALF_BASE
    ensures 0 <= a0 * b1 < BASE && 0 <= a1 * b0 < BASE
    ensures 0 <= a1 * b1 < BASE && 0 <= a0 * b0 < BASE
  {
    HalfProduct(a0, b1);
    HalfProduct(a1, b0);
    HalfProduct(a1, b1);
    HalfProduct(a0, b0);
  }

  /** The product of two half words fits in a word. */
  lemma {:induction false} HalfProduct(x: nat, y: nat)
    requires x < HALF_BASE && y < HALF_BASE
    ensures 0 <= x * y < BASE
  {
    MulBelow(x, y, HALF_BASE);
    MulMono(0, x, y);
    assert HALF_BASE * HALF_BASE == BASE;
  }

  /** The half-word expansion of a product of two words, which fits in two words. */
  lemma {:induction false} HalfProducts(a: Word, b: Word, a0: int, a1: int, b0: int, b1: int)
    requires a0 == a % HALF_BASE && a1 == a / HALF_BASE
    requires b0 == b % HALF_BASE && b1 == b / HALF_BASE
    ensures a * b == (a1 * b1) * BASE + (a0 * b1 + a1 * b0) * HALF_BASE + a0 * b0
    ensures a * b < BASE * BASE
  {
    HalfSplit(a, a0, a1);
    HalfSplit(b, b0, b1);
    HalfExpand(a1, a0, b1, b0, HALF_BASE);
    assert HALF_BASE * HALF_BASE == BASE;
    MulBelow(a, b, BASE);
  }

  lemma {:induction false} HalfExpand(a1: int, a0: int, b1: int, b0: int, h: int)
    ensures (a1 * h + a0) * (b1 * h + b0) == (a1 * b1) * (h * h) + (a0 * b1 + a1 * b0) * h + a0 * b0
  {
  }

  lemma {:induction false} HalfSplit(a: Word, a0: int, a1: int)
    requires a0 == a % HALF_BASE && a1 == a / HALF_BASE
    ensures a == a1 * HALF_BASE + a0
  {
  }

  /**
   * Collecting the two carries and the high halves of the cross terms into
   * the high word gives the exact total, and that high word fits.
   */
  lemma {:induction false} CrossSum(h: int, l: int, o1: nat, o2: nat, low1: int, c1: int, low2: int, c2: int)
    requires low1 + c1 * BASE == l + (o1 % HALF_BASE) * HALF_BASE
    requires low2 + c2 * BASE == low1 + (o2 % HALF_BASE) * HALF_BASE
    requires 0 <= low2
    requires h * BASE + l + (o1 + o2) * HALF_BASE < BASE * BASE
    ensures (h + c1 + c2 + o1 / HALF_BASE + o2 / HALF_BASE) * BASE + low2 == h * BASE + l + (o1 + o2) * HALF_BASE
    ensures h + c1 + c2 + o1 / HALF_BASE + o2 / HALF_BASE < BASE
  {
    assert o1 == (o1 / HALF_BASE) * HALF_BASE + o1 % HALF_BASE;
    assert o2 == (o2 / HALF_BASE) * HALF_BASE + o2 % HALF_BASE;
    assert HALF_BASE * HALF_BASE == BASE;
    HighBound(h + c1 + c2 + o1 / HALF_BASE + o2 / HALF_BASE, low2, h * BASE + l + (o1 + o2) * HALF_BASE);
  }

  lemma {:induction false} HighBound(h: int, l: int, ab: int)
    requires h * BASE + l == ab && 0 <= l && ab < BASE * BASE
    ensures h < BASE
  {
    if h >= BASE {
      MulMono(BASE, h, BASE);
    }
  }

  /**
   * addBigint: n-word ripple-carry addition. The carry out of word i is the
   * carry of aWords[i] + bWords[i], or 1 when adding the incoming carry wraps.
   * Word i of both inputs is read before result[i] is written, so `result`
   * may be the same array as either input: the contract is stated on the
   * inputs as they were on entry and needs no disjointness.
   */
  method AddBigint(aWords: array<Word>, bWords: array<Word>, result: array<Word>, n: nat) returns (carry: int)
    requires n <= aWords.Length && n <= bWords.Length && n <= result.Length
    modifies result
    ensures carry == 0 || carry == 1
    ensures Val(result[..n]) + carry * Pow(n) == Val(old(aWords[..n])) + Val(old(bWords[..n]))
    ensures result[n..] == old(result[n..])
  {
    ghost var A, B := aWords[..n], bWords[..n];
    ghost var R: seq<Word> := [];
    carry := 0;
    var i := 0;
    while i < n
      invariant 0 <= i <= n
      invariant carry == 0 || carry == 1
      invariant forall j :: i <= j < result.Length ==> result[j] == old(result[j])
      invariant forall j :: i <= j < n ==> aWords[j] == A[j] && bWords[j] == B[j]
      invariant R == result[..i]
      invariant Val(R) + carry * Pow(i) == Val(A[..i]) + Val(B[..i])
    {
      var s := carry;
      var step := RippleAdd(aWords[i], bWords[i], s);
      result[i], carry := step.0, step.1;
      CarryStep(R, result[i], A, B, i, s, carry);
      R := R + [result[i]];
      i := i + 1;
    }
    assert A[..n] == A == old(aWords[..n]) && B[..n] == B == old(bWords[..n]);
  }

  /**
   * The body of the ripple-carry loops of addBigint and addBigintEx:
   * s = carry; carry = addDigit(a, b, &r); result[i] = s + r;
   * if (result[i] < s) carry = 1. The word written and the carry out are the
   * two-word value of a + b + s.
   */
  function RippleAdd(a: Word, b: Word, s: int): (r: (Word, int))
    requires s == 0 || s == 1
    ensures r.1 == 0 || r.1 == 1
    ensures r.0 + r.1 * BASE == a + b + s
  {
    var sum := AddDigit(a, b);
    var word := (s + sum.0) % BASE;
    (word, if word < s then 1 else sum.1)
  }

  /** One ripple-carry step extends the value equation by one word. */
  lemma {:induction false} CarryStep(R: seq<Word>, x: Word, A: seq<Word>, B: seq<Word>, i: nat, s: int, c: int)
    requires |R| == i && i < |A| && i < |B|
    requires Val(R) + s * Pow(i) == Val(A[..i]) + Val(B[..i])
    requires x + c * BASE == A[i] + B[i] + s
    ensures Val(R + [x]) + c * Pow(i + 1) == Val(A[..i + 1]) + Val(B[..i + 1])
  {
    var r := R + [x];
    assert r[..i] == R;
    ValPrefixStep(r, i);
    ValPrefixStep(A, i);
    ValPrefixStep(B, i);
    assert r[..i + 1] == r;
    CarryArith(Val(R), Val(A[..i]), Val(B[..i]), s, c, x, A[i], B[i], Pow(i));
  }

  lemma {:induction false} CarryArith(vr: int, va: int, vb: int, s: int, c: int, ri: int, ai: int, bi: int, p: int)
    requires vr + s * p == va + vb
    requires ri + c * BASE == ai + bi + s
    ensures vr + ri * p + c * (BASE * p) == va + ai * p + (vb + bi * p)
  {
    assert (ri + c * BASE) * p == (ai + bi + s) * p;
  }

  function Max(x: nat, y: nat): nat { if x > y then x else y }

  /**
   * addBigintEx: adds numbers of nA and nB words, reading the missing high
   * words of the shorter one as zero, and writes max(nA, nB) words. Each input
   * may be the output array at the same offset.
   */
  method AddBigintEx(aWords: array<Word>, aOff: nat, nA: nat,
                     bWords: array<Word>, bOff: nat, nB: nat,
                     result: array<Word>, rOff: nat) returns (carry: int)
    requires aOff + nA <= aWords.Length && bOff + nB <= bWords.Length
    requires rOff + Max(nA, nB) <= result.Length
    requires aWords == result ==> aOff == rOff
    requires bWords == result ==> bOff == rOff
    modifies result
    ensures carry == 0 || carry == 1
    ensures Val(result[rOff..rOff + Max(nA, nB)]) + carry * Pow(Max(nA, nB))
         == Val(old(aWords[aOff..aOff + nA])) + Val(old(bWords[bOff..bOff + nB]))
    ensures result[..rOff] == old(result[..rOff])
    ensures result[rOff + Max(nA, nB)..] == old(result[rOff + Max(nA, nB)..])
  {
    var n := Max(nA, nB);
    ghost var A, B := aWords[aOff..aOff + nA], bWords[bOff..bOff + nB];
    ghost var PA, PB := ZeroExtend(A, n), ZeroExtend(B, n);
    ghost var before := result[..];
    ghost var R: seq<Word> := [];
    assert before[..rOff] + R + before[rOff..] == before;
    carry := 0;
    var i := 0;
    while i < n
      invariant 0 <= i <= n && |R| == i
      invariant carry == 0 || carry == 1
      invariant result[..] == before[..rOff] + R + before[rOff + i..]
      invariant Val(R) + carry * Pow(i) == Val(PA[..i]) + Val(PB[..i])
    {
      var s := carry;
      var a := ReadWord(aWords, aOff, nA, i, result, rOff, before, R, A, n);
      var b := ReadWord(bWords, bOff, nB, i, result, rOff, before, R, B, n);
      var w;
      w, carry := AddStep(a, b, s, result, rOff, i, before, R, PA, PB);
      R := R + [w];
      i := i + 1;
    }
    AddExDone(result[..], before, R, rOff, n, carry, A, B);
  }

  /**
   * The body of the addBigintEx loop once words a and b are read: word i of
   * the sum is stored at rOff + i and the carry out of it is returned.
   */
  method AddStep(a: Word, b: Word, s: int, result: array<Word>, rOff: nat, i: nat,
                 ghost before: seq<Word>, ghost R: seq<Word>, ghost PA: seq<Word>, ghost PB: seq<Word>)
    returns (w: Word, carry: int)
    requires s == 0 || s == 1
    requires |R| == i && i < |PA| && i < |PB| && rOff + i < |before| == result.Length
    requires a == PA[i] && b == PB[i]
    requires result[..] == before[..rOff] + R + before[rOff + i..]
    requires Val(R) + s * Pow(i) == Val(PA[..i]) + Val(PB[..i])
    modifies result
    ensures carry == 0 || carry == 1
    ensures result[..] == before[..rOff] + (R + [w]) + before[rOff + (i + 1)..]
    ensures Val(R + [w]) + carry * Pow(i + 1) == Val(PA[..i + 1]) + Val(PB[..i + 1])
  {
    var step := RippleAdd(a, b, s);
    result[rOff + i], carry := step.0, step.1;
    w := step.0;
    CarryStep(R, w, PA, PB, i, s, carry);
    Written(before, R, rOff, i, w);
  }

  /**
   * `i >= n ? 0 : words[off + i]`: word i of the operand, which the loop has
   * not overwritten even when the operand is the output array.
   */
  method ReadWord(words: array<Word>, off: nat, len: nat, i: nat, result: array<Word>, rOff: nat,
                  ghost before: seq<Word>, ghost R: seq<Word>, ghost S: seq<Word>, ghost n: nat) returns (w: Word)
    requires off + len <= words.Length && |S| == len <= n && i < n
    requires |R| == i && rOff + n <= |before| == result.Length
    requires words == result ==> off == rOff && S == before[off..off + len]
    requires words != result && i < len ==> words[off + i] == S[i]
    requires result[..] == before[..rOff] + R + before[rOff + i..]
    ensures w == ZeroExtend(S, n)[i]
  {
    w := if i >= len then 0 else words[off + i];
    if i < len && words == result {
      Unwritten(before, R, rOff, i);
    }
  }

  /** Word rOff + i is still the original one while the loop stands at i. */
  lemma {:induction false} Unwritten(before: seq<Word>, R: seq<Word>, rOff: nat, i: nat)
    requires |R| == i && rOff + i < |before|
    ensures (before[..rOff] + R + before[rOff + i..])[rOff + i] == before[rOff + i]
  {
  }

  /** Writing word rOff + i extends the written part by one word. */
  lemma {:induction false} Written(before: seq<Word>, R: seq<Word>, rOff: nat, i: nat, w: Word)
    requires |R| == i && rOff + i < |before|
    ensures (before[..rOff] + R + before[rOff + i..])[rOff + i := w] == before[..rOff] + (R + [w]) + before[rOff + (i + 1)..]
  {
    assert (before[..rOff] + R + before[rOff + i..])[rOff + i := w] == before[..rOff] + (R + [w]) + before[rOff + (i + 1)..];
  }

  /** What the addBigintEx loop leaves behind once it has run n times. */
  lemma {:induction false} AddExDone(res: seq<Word>, before: seq<Word>, R: seq<Word>, rOff: nat, n: nat, carry: int,
                                     A: seq<Word>, B: seq<Word>)
    requires |R| == n && |A| <= n && |B| <= n && rOff + n <= |before|
    requires res == before[..rOff] + R + before[rOff + n..]
    requires Val(R) + carry * Pow(n) == Val(ZeroExtend(A, n)[..n]) + Val(ZeroExtend(B, n)[..n])
    ensures Val(res[rOff..rOff + n]) + carry * Pow(n) == Val(A) + Val(B)
    ensures res[..rOff] == before[..rOff] && res[rOff + n..] == before[rOff + n..]
  {
    assert res[rOff..rOff + n] == R;
    assert ZeroExtend(A, n)[..n] == ZeroExtend(A, n) && ZeroExtend(B, n)[..n] == ZeroExtend(B, n);
    ValZeroExtend(A, n);
    ValZeroExtend(B, n);
  }

  /**
   * mulBigint: zero-fills result[0..2n) and adds each digit product
   * aWords[j] * bWords[i] at word i + j with addBigintEx. Partial sums are
   * accumulated in `result` while the inputs are read, so `result` must not
   * be either input.
   */
  method MulBigint(aWords: array<Word>, bWords: array<Word>, result: array<Word>, n: nat)
    requires n <= aWords.Length && n <= bWords.Length && 2 * n <= result.Length
    requires result != aWords && result != bWords
    modifies result
    ensures Val(result[..2 * n]) == Val(aWords[..n]) * Val(bWords[..n])
    ensures result[2 * n..] == old(result[2 * n..])
  {
    ghost var A, B := aWords[..n], bWords[..n];
    var k := 0;
    while k < 2 * n
      invariant 0 <= k <= 2 * n
      invariant forall j :: 0 <= j < k ==> result[j] == 0
      invariant result[2 * n..] == old(result[2 * n..])
    {
      result[k] := 0;
      k := k + 1;
    }
    assert result[..2 * n] == Zeros(2 * n);
    ValZeros(2 * n);
    var tmp := new Word[2];
    var i := 0;
    assert B[..0] == [];
    while i < n
      invariant 0 <= i <= n
      invariant aWords[..n] == A && bWords[..n] == B
      invariant result[2 * n..] == old(result[2 * n..])
      invariant Val(result[..2 * n]) == Val(A) * Val(B[..i])
    {
      var j := 0;
      assert A[..0] == [];
      ZeroTerm(Val(A) * Val(B[..i]), B[i], Pow(i));
      while j < n
        invariant 0 <= j <= n
        invariant aWords[..n] == A && bWords[..n] == B
        invariant result[2 * n..] == old(result[2 * n..])
        invariant Val(result[..2 * n]) == Val(A) * Val(B[..i]) + Val(A[..j]) * B[i] * Pow(i)
      {
        AddDigitProduct(aWords, bWords, result, tmp, n, i, j, A, B);
        j := j + 1;
      }
      assert A[..n] == A;
      ValPrefixStep(B, i);
      RowDone(Val(A), Val(B[..i]), Val(B[..i + 1]), B[i], Pow(i));
      i := i + 1;
    }
    assert B[..n] == B;
  }

  lemma {:induction false} ZeroTerm(x: int, bi: int, p: int)
    ensures x == x + Val([]) * bi * p
  {
  }

  /** A finished row of partial products: A * B[..i] + A * B[i] * BASE^i == A * B[..i + 1]. */
  lemma {:induction false} RowDone(va: int, vbi: int, vbi1: int, bi: int, p: int)
    requires vbi1 == vbi + bi * p
    ensures va * vbi + va * bi * p == va * vbi1
  {
    assert va * (vbi + bi * p) == va * vbi + va * (bi * p);
  }

  /**
   * The body of mulBigint's inner loop: tmp := aWords[j] * bWords[i] as two
   * words, then addBigintEx(result + k, 2n - k, tmp, 2, result + k) with k = i + j.
   */
  method AddDigitProduct(aWords: array<Word>, bWords: array<Word>, result: array<Word>, tmp: array<Word>,
                         n: nat, i: nat, j: nat, ghost A: seq<Word>, ghost B: seq<Word>)
    requires i < n && j < n && n <= aWords.Length && n <= bWords.Length && 2 * n <= result.Length
    requires tmp.Length == 2
    requires result != aWords && result != bWords && tmp != result && tmp != aWords && tmp != bWords
    requires aWords[..n] == A && bWords[..n] == B
    requires Val(result[..2 * n]) == Val(A) * Val(B[..i]) + Val(A[..j]) * B[i] * Pow(i)
    modifies result, tmp
    ensures Val(result[..2 * n]) == Val(A) * Val(B[..i]) + Val(A[..j + 1]) * B[i] * Pow(i)
    ensures result[2 * n..] == old(result[2 * n..])
  {
    var k := i + j;
    var m := 2 * n - k;
    tmp[1], tmp[0] := MulDigit(aWords[j], bWords[i]);
    assert aWords[j] == A[j] && bWords[i] == B[i];
    ghost var t := tmp[0..0 + 2];
    ghost var lo, hiB := result[..k], result[k..k + m];
    JoinAt(result[..], k, m);
    assert Max(m, 2) == m;
    var carry := AddBigintEx(result, k, m, tmp, 0, 2, result, k);
    ghost var hiA := result[k..k + m];
    JoinAt(result[..], k, m);
    MulStep(lo, hiB, hiA, A, B, i, j, t, carry);
  }

  /** A prefix of s cut in two at k. */
  lemma {:induction false} JoinAt(s: seq<Word>, k: nat, m: nat)
    requires k + m <= |s|
    ensures s[..k + m] == s[..k] + s[k..k + m]
  {
  }

  /** Adding one digit product at word i + j, with no carry out of the 2n words. */
  lemma {:induction false} MulStep(lo: seq<Word>, hiB: seq<Word>, hiA: seq<Word>, A: seq<Word>, B: seq<Word>,
                                   i: nat, j: nat, t: seq<Word>, c: int)
    requires |A| == |B| && i < |A| && j < |A| && |lo| == i + j
    requires |lo| + |hiB| == 2 * |A| && |hiA| == |hiB|
    requires |t| == 2 && (t[1] as int) * BASE + t[0] == (A[j] as int) * (B[i] as int)
    requires Val(lo + hiB) == Val(A) * Val(B[..i]) + Val(A[..j]) * B[i] * Pow(i)
    requires c == 0 || c == 1
    requires Val(hiA) + c * Pow(|hiB|) == Val(hiB) + Val(t)
    ensures Val(lo + hiA) == Val(A) * Val(B[..i]) + Val(A[..j + 1]) * B[i] * Pow(i)
  {
    MulStepFacts(lo, hiB, hiA, A, B, i, j, t);
    var n: nat, k: nat := |A|, i + j;
    var x: int := Val(A) * Val(B[..i]);
    var aj: int, aj1: int, ajt: int, bi: int := Val(A[..j]), Val(A[..j + 1]), A[j], B[i];
    var pi: int, pj: int, pk: int, pr: int, pn2: int := Pow(i), Pow(j), Pow(k), Pow(2 * n - k), Pow(2 * n);
    var vlo: int, vhiB: int, vhiA: int := Val(lo), Val(hiB), Val(hiA);
    var vBefore: int, vAfter: int, vt: int := Val(lo + hiB), Val(lo + hiA), Val(t);
    MulStepArith(x, aj, aj1, ajt, bi, pi, pj, pk, pr, pn2, vlo, vhiB, vhiA, vBefore, vAfter, vt, c);
  }

  /** The facts about words and powers that MulStep combines. */
  lemma {:induction false} MulStepFacts(lo: seq<Word>, hiB: seq<Word>, hiA: seq<Word>, A: seq<Word>, B: seq<Word>,
                                        i: nat, j: nat, t: seq<Word>)
    requires |A| == |B| && i < |A| && j < |A| && |lo| == i + j
    requires |lo| + |hiB| == 2 * |A| && |hiA| == |hiB|
    requires |t| == 2 && (t[1] as int) * BASE + t[0] == (A[j] as int) * (B[i] as int)
    ensures Pow(i + j) == Pow(i) * Pow(j)
    ensures Pow(2 * |A|) == Pow(i + j) * Pow(2 * |A| - (i + j))
    ensures Val(lo + hiB) == Val(lo) + Pow(i + j) * Val(hiB)
    ensures Val(lo + hiA) == Val(lo) + Pow(i + j) * Val(hiA)
    ensures Val(t) == (A[j] as int) * (B[i] as int)
    ensures Val(A[..j + 1]) == Val(A[..j]) + A[j] * Pow(j)
    ensures Val(A) * Val(B[..i]) + Val(A[..j + 1]) * B[i] * Pow(i) < Pow(2 * |A|)
  {
    var n, k := |A|, i + j;
    PowAdd(i, j);
    PowAdd(k, 2 * n - k);
    ValAppend(lo, hiB);
    ValAppend(lo, hiA);
    ValPair(t);
    ValPrefixStep(A, j);
    PartialProductBound(A, B, i, j);
  }

  /** The value of a two-word sequence. */
  lemma {:induction false} ValPair(t: seq<Word>)
    requires |t| == 2
    ensures Val(t) == t[0] + BASE * t[1]
  {
    assert t[1..][1..] == [];
    assert Val(t[1..]) == t[1] + BASE * Val(t[1..][1..]);
  }

  /** The ring identity behind MulStep, over plain integers, and why the carry is 0. */
  lemma {:induction false} MulStepArith(x: int, aj: int, aj1: int, ajt: int, bi: int, pi: int, pj: int, pk: int, pr: int, pn2: int,
                     lo: int, hiB: int, hiA: int, vBefore: int, vAfter: int, vt: int, c: int)
    requires pk == pi * pj && pn2 == pk * pr
    requires vBefore == lo + pk * hiB && vAfter == lo + pk * hiA
    requires vBefore == x + aj * bi * pi
    requires aj1 == aj + ajt * pj
    requires vt == ajt * bi
    requires hiA + c * pr == hiB + vt
    requires c == 0 || c == 1
    requires 0 <= vAfter && x + aj1 * bi * pi < pn2
    ensures vAfter == x + aj1 * bi * pi
  {
    assert vAfter + c * pn2 == lo + pk * (hiA + c * pr);
    assert lo + pk * (hiA + c * pr) == vBefore + pk * (ajt * bi);
    assert pk * (ajt * bi) == ajt * pj * bi * pi;
    assert vAfter + c * pn2 == x + aj1 * bi * pi;
  }

  /** Every partial product stays below BASE^(2n). */
  lemma {:induction false} PartialProductBound(A: seq<Word>, B: seq<Word>, i: nat, j: nat)
    requires |A| == |B| && i < |A| && j < |A|
    ensures Val(A) * Val(B[..i]) + Val(A[..j + 1]) * B[i] * Pow(i) < Pow(2 * |A|)
  {
    var n := |A|;
    ValPrefixLe(A, j + 1);
    ValPrefixStep(B, i);
    ValPrefixLe(B, i + 1);
    ValBound(A);
    ValBound(B);
    PowAdd(n, n);
    PartialArith(Val(A), Val(B[..i]), Val(A[..j + 1]), B[i], Pow(i), Val(B), Pow(n), Pow(2 * n));
  }

  lemma {:induction false} PartialArith(va: int, vbi: int, aj1: int, bi: int, pi: int, vb: int, pn: int, pn2: int)
    requires 0 <= aj1 <= va < pn && 0 <= vbi && 0 <= bi && 0 <= pi
    requires vbi + bi * pi <= vb < pn && pn2 == pn * pn
    ensures va * vbi + aj1 * bi * pi < pn2
  {
    MulMono(aj1, va, bi * pi);
    assert aj1 * bi * pi == aj1 * (bi * pi);
    assert va * vbi + va * (bi * pi) == va * (vbi + bi * pi);
    assert va * (vbi + bi * pi) <= va * vb by { MulMono(vbi + bi * pi, vb, va); }
    MulBelow(va, vb, pn);
  }
}
