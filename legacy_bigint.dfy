/**
 * The older word-array addition of bigint.h. Its addDigit and mulDigit are
 * the same code as in arbitrary_precision/bigint.h and are modelled once, by
 * BigInt.AddDigit and BigInt.MulDigit. Its addBigint differs: it stores the
 * incoming carry in result[i] first and then adds the low word of
 * aWords[i] + bWords[i] to it, dropping the carry out of that second
 * addition. The returned carry is therefore only the carry of the top word
 * pair, and a carry that should ripple through a word pair summing to
 * 2^32 - 1 is lost.
 */
module LegacyBigint {
  import opened Words
  import opened BigInt

  /**
   * The words and the carry the as-written loop produces for the first n
   * word pairs: word i is (carry-in + low word of a[i] + b[i]) mod 2^32,
   * and the carry passed on is the carry of a[i] + b[i] alone.
   */
  function LegacyAdd(a: seq<Word>, b: seq<Word>, n: nat): (r: (seq<Word>, int))
    requires n <= |a| && n <= |b|
    ensures |r.0| == n
    ensures r.1 == 0 || r.1 == 1
  {
    if n == 0 then ([], 0)
    else
      var p := LegacyAdd(a, b, n - 1);
      var d := AddDigit(a[n - 1], b[n - 1]);
      (p.0 + [(p.1 + d.0) % BASE], d.1)
  }

  /** Word pair i receives a carry of 1 and sums to 2^32 - 1, so the carry is dropped. */
  predicate Dropped(a: seq<Word>, b: seq<Word>, i: nat)
    requires i < |a| && i < |b|
  {
    0 < i && a[i - 1] as int + b[i - 1] >= BASE && a[i] as int + b[i] == BASE - 1
  }

  /** The total weight of the carries dropped in the first n positions. */
  function Lost(a: seq<Word>, b: seq<Word>, n: nat): nat
    requires n <= |a| && n <= |b|
  {
    if n == 0 then 0 else Lost(a, b, n - 1) + (if Dropped(a, b, n - 1) then Pow(n) else 0)
  }

  /** The carry out of the as-written loop is the carry of the top word pair alone. */
  lemma {:induction false} LegacyCarryOut(a: seq<Word>, b: seq<Word>, n: nat)
    requires 0 < n <= |a| && n <= |b|
    ensures LegacyAdd(a, b, n).1 == 1 <==> a[n - 1] + b[n - 1] >= BASE
  {
  }

  /**
   * What the as-written addBigint computes: the exact sum less the dropped
   * carries, each at the weight of the word it should have gone into.
   */
  lemma {:induction false} LegacyAddValue(a: seq<Word>, b: seq<Word>, n: nat)
    requires n <= |a| && n <= |b|
    ensures Val(LegacyAdd(a, b, n).0) + LegacyAdd(a, b, n).1 * Pow(n) + Lost(a, b, n)
         == Val(a[..n]) + Val(b[..n])
  {
    if n == 0 {
      assert a[..0] == [] && b[..0] == [];
    } else {
      var m := n - 1;
      LegacyAddValue(a, b, m);
      var p := LegacyAdd(a, b, m);
      var d := AddDigit(a[m], b[m]);
      var w := (p.1 + d.0) % BASE;
      var r := p.0 + [w];
      var drop := if Dropped(a, b, m) then 1 else 0;
      assert p.1 == 1 <==> m > 0 && a[m - 1] as int + b[m - 1] >= BASE by {
        if m > 0 {
          LegacyCarryOut(a, b, m);
        }
      }
      DropStep(p.1, d.0, d.1, a[m] as int + b[m], w, drop);
      assert LegacyAdd(a, b, n) == (r, d.1);
      assert Lost(a, b, n) == Lost(a, b, m) + drop * Pow(n);
      assert r[..m] == p.0 && r[..n] == r;
      ValPrefixStep(r, m);
      ValPrefixStep(a, m);
      ValPrefixStep(b, m);
      PowStep(m);
      LegacyArith(Val(p.0), p.1, Lost(a, b, m), Val(a[..m]), Val(b[..m]), w, drop, d.0, d.1, a[m], b[m], Pow(m), Pow(n));
    }
  }

  /** Adding the carry-in to the low word wraps exactly when the pair sums to 2^32 - 1. */
  lemma {:induction false} DropStep(s: int, t: Word, k: int, ab: int, w: int, drop: int)
    requires s == 0 || s == 1
    requires 0 <= ab <= 2 * BASE - 2
    requires t + k * BASE == ab && (k == 0 || k == 1)
    requires w == (s + t) % BASE
    requires drop == (if s == 1 && ab == BASE - 1 then 1 else 0)
    ensures w + drop * BASE == s + t
  {
  }

  lemma {:induction false} PowStep(m: nat)
    ensures Pow(m + 1) == BASE * Pow(m)
  {
  }

  lemma {:induction false} LegacyArith(vr: int, s: int, lost: int, va: int, vb: int, w: int, drop: int,
                                       t: int, k: int, am: int, bm: int, p: int, pn: int)
    requires vr + s * p + lost == va + vb
    requires w + drop * BASE == s + t
    requires t + k * BASE == am + bm
    requires pn == BASE * p
    ensures vr + w * p + k * pn + (lost + drop * pn) == va + am * p + (vb + bm * p)
  {
    assert (w + drop * BASE) * p == (s + t) * p;
    assert (t + k * BASE) * p == (am + bm) * p;
  }

  /** No carry is lost exactly when no position is Dropped. */
  lemma {:induction false} LostZero(a: seq<Word>, b: seq<Word>, n: nat)
    requires n <= |a| && n <= |b|
    ensures Lost(a, b, n) == 0 <==> forall i :: 0 <= i < n ==> !Dropped(a, b, i)
  {
    if n > 0 {
      LostZero(a, b, n - 1);
    }
  }

  /**
   * The as-written addBigint is exact (value and carry) if and only if no
   * word pair that receives a carry sums to 2^32 - 1.
   */
  lemma {:induction false} LegacyAddExact(a: seq<Word>, b: seq<Word>, n: nat)
    requires n <= |a| && n <= |b|
    ensures Val(LegacyAdd(a, b, n).0) + LegacyAdd(a, b, n).1 * Pow(n) == Val(a[..n]) + Val(b[..n])
        <==> forall i :: 0 <= i < n ==> !Dropped(a, b, i)
  {
    LegacyAddValue(a, b, n);
    LostZero(a, b, n);
  }

  /**
   * The dropped carry: 0xFFFFFFFF + 1 carries into a word pair 0 + 0xFFFFFFFF,
   * the true sum is 2^64 (words 0, 0 and carry 1), but the as-written loop
   * returns words 0, 0 and carry 0.
   */
  lemma LegacyAddDropsCarry()
    ensures LegacyAdd([0xFFFF_FFFF, 0], [1, 0xFFFF_FFFF], 2) == ([0, 0], 0)
    ensures Val([0xFFFF_FFFF, 0]) + Val([1, 0xFFFF_FFFF]) == Val([0, 0]) + 1 * Pow(2)
  {
    var a: seq<Word> := [0xFFFF_FFFF, 0];
    var b: seq<Word> := [1, 0xFFFF_FFFF];
    assert AddDigit(a[0], b[0]) == (0, 1);
    assert AddDigit(a[1], b[1]) == (0xFFFF_FFFF, 0);
    assert LegacyAdd(a, b, 0) == ([], 0);
    ModSmall(0);
    assert [] + [0] == [0];
    assert LegacyAdd(a, b, 1) == ([0], 1);
    assert (1 + 0xFFFF_FFFF) % BASE == 0;
    assert [0] + [0] == [0, 0];
    assert LegacyAdd(a, b, 2) == ([0, 0], 0);
    assert Val(a) == 0xFFFF_FFFF by {
      assert a[1..][1..] == [];
    }
    assert Val(b) == 1 + BASE * 0xFFFF_FFFF by {
      assert b[1..][1..] == [];
    }
    assert Val([0, 0]) == 0 by {
      assert [0, 0][1..][1..] == [];
    }
    assert Pow(2) == BASE * BASE by {
      assert Pow(1) == BASE * Pow(0);
    }
  }

  /** The two sums of bigint.c, which the as-written loop gets right. */
  lemma LegacyAddVectors()
    ensures LegacyAdd([0x87654321, 0x2468ACE0, 0x369CF258, 0x48C048C0],
                      [0x88888888, 0xF2222222, 0x33333333, 0x44444444], 4)
         == ([0x0FEDCBA9, 0x168ACF03, 0x69D0258C, 0x8D048D04], 0)
    ensures LegacyAdd([0xFFFFFFFF, 0xEEEEEEEE, 0xDDDDDDDD, 0xCCCCCCCC],
                      [0xFFFFFFFF, 0xEEEEEEEE, 0xDDDDDDDD, 0xCCCCCCCC], 4)
         == ([0xFFFFFFFE, 0xDDDDDDDD, 0xBBBBBBBB, 0x99999999], 1)
  {
    var a: seq<Word> := [0x87654321, 0x2468ACE0, 0x369CF258, 0x48C048C0];
    var b: seq<Word> := [0x88888888, 0xF2222222, 0x33333333, 0x44444444];
    assert AddDigit(a[0], b[0]) == (0x0FEDCBA9, 1);
    assert AddDigit(a[1], b[1]) == (0x168ACF02, 1);
    assert AddDigit(a[2], b[2]) == (0x69D0258B, 0);
    assert AddDigit(a[3], b[3]) == (0x8D048D04, 0);
    assert LegacyAdd(a, b, 0) == ([], 0);
    ModSmall(0x0FEDCBA9);
    ModSmall(0x168ACF03);
    ModSmall(0x69D0258C);
    ModSmall(0x8D048D04);
    assert [] + [0x0FEDCBA9] == [0x0FEDCBA9];
    assert LegacyAdd(a, b, 1) == ([0x0FEDCBA9], 1);
    assert [0x0FEDCBA9] + [0x168ACF03] == [0x0FEDCBA9, 0x168ACF03];
    assert LegacyAdd(a, b, 2) == ([0x0FEDCBA9, 0x168ACF03], 1);
    assert [0x0FEDCBA9, 0x168ACF03] + [0x69D0258C] == [0x0FEDCBA9, 0x168ACF03, 0x69D0258C];
    assert LegacyAdd(a, b, 3) == ([0x0FEDCBA9, 0x168ACF03, 0x69D0258C], 0);
    assert [0x0FEDCBA9, 0x168ACF03, 0x69D0258C] + [0x8D048D04] == [0x0FEDCBA9, 0x168ACF03, 0x69D0258C, 0x8D048D04];
    assert LegacyAdd(a, b, 4) == ([0x0FEDCBA9, 0x168ACF03, 0x69D0258C, 0x8D048D04], 0);
    var c: seq<Word> := [0xFFFFFFFF, 0xEEEEEEEE, 0xDDDDDDDD, 0xCCCCCCCC];
    assert AddDigit(c[0], c[0]) == (0xFFFFFFFE, 1);
    assert AddDigit(c[1], c[1]) == (0xDDDDDDDC, 1);
    assert AddDigit(c[2], c[2]) == (0xBBBBBBBA, 1);
    assert AddDigit(c[3], c[3]) == (0x99999998, 1);
    assert LegacyAdd(c, c, 0) == ([], 0);
    ModSmall(0xFFFFFFFE);
    ModSmall(0xDDDDDDDD);
    ModSmall(0xBBBBBBBB);
    ModSmall(0x99999999);
    assert [] + [0xFFFFFFFE] == [0xFFFFFFFE];
    assert LegacyAdd(c, c, 1) == ([0xFFFFFFFE], 1);
    assert [0xFFFFFFFE] + [0xDDDDDDDD] == [0xFFFFFFFE, 0xDDDDDDDD];
    assert LegacyAdd(c, c, 2) == ([0xFFFFFFFE, 0xDDDDDDDD], 1);
    assert [0xFFFFFFFE, 0xDDDDDDDD] + [0xBBBBBBBB] == [0xFFFFFFFE, 0xDDDDDDDD, 0xBBBBBBBB];
    assert LegacyAdd(c, c, 3) == ([0xFFFFFFFE, 0xDDDDDDDD, 0xBBBBBBBB], 1);
    assert [0xFFFFFFFE, 0xDDDDDDDD, 0xBBBBBBBB] + [0x99999999] == [0xFFFFFFFE, 0xDDDDDDDD, 0xBBBBBBBB, 0x99999999];
    assert LegacyAdd(c, c, 4) == ([0xFFFFFFFE, 0xDDDDDDDD, 0xBBBBBBBB, 0x99999999], 1);
  }

  /**
   * addBigint as written in bigint.h. result[i] is written before aWords[i]
   * and bWords[i] are read, so result must not be either input.
   */
  method AddBigint(aWords: array<Word>, bWords: array<Word>, result: array<Word>, n: nat) returns (carry: int)
    requires n <= aWords.Length && n <= bWords.Length && n <= result.Length
    requires result != aWords && result != bWords
    modifies result
    ensures (result[..n], carry) == LegacyAdd(aWords[..n], bWords[..n], n)
    ensures result[n..] == old(result[n..])
  {
    ghost var A, B := aWords[..n], bWords[..n];
    carry := 0;
    var i := 0;
    while i < n
      invariant 0 <= i <= n
      invariant aWords[..n] == A && bWords[..n] == B
      invariant (result[..i], carry) == LegacyAdd(A, B, i)
      invariant result[i..] == old(result[i..])
    {
      result[i] := carry;
      var d := AddDigit(aWords[i], bWords[i]);
      carry := d.1;
      result[i] := (result[i] + d.0) % BASE;
      assert result[..i + 1] == result[..i] + [result[i]];
      i := i + 1;
    }
  }
}
