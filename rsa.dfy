/**
 * Key derivation of crypto/pubkey/rsa.h over abstract big-number operations.
 * Big numbers are mathematical integers; the operations the template takes
 * as macros (MUL, SUB, LCM, XGCD, EQUAL) are the functions below, each with
 * the contract its macro documents. The key relations are those of sections
 * 3.1 and 3.2 of RFC 8017: n = p q, lambda(n) = LCM(p - 1, q - 1) and
 * e d == 1 (mod lambda(n)).
 *
 * The storage of every big number the function allocates or releases is
 * tracked as a multiset of names, so that the cleanup sequence can be stated.
 */
module Rsa {

  /** d divides x (0 divides only 0). */
  predicate Divides(d: nat, x: int)
  {
    if d == 0 then x == 0 else x % d == 0
  }

  lemma {:induction false} MultipleDivides(d: nat, m: int)
    ensures Divides(d, d * m)
  {
    if d > 0 {
      assert d * m == m * d;
    }
  }

  /** A common divisor of x and y divides every combination p x + q y. */
  lemma {:induction false} DividesCombination(d: nat, x: int, y: int, p: int, q: int)
    requires Divides(d, x) && Divides(d, y)
    ensures Divides(d, p * x + q * y)
  {
    if d > 0 {
      var x', y' := x / d, y / d;
      assert x == d * x' && y == d * y';
      assert p * x + q * y == d * (p * x' + q * y') by {
        assert p * (d * x') == d * (p * x');
        assert q * (d * y') == d * (q * y');
      }
      MultipleDivides(d, p * x' + q * y');
    }
  }

  /** Euclid's greatest common divisor; Gcd(a, 0) == a. */
  function Gcd(a: nat, b: nat): nat
    decreases b
  {
    if b == 0 then a else Gcd(b, a % b)
  }

  /**
   * XGCD: the extended Euclidean algorithm, giving x and y with
   * a x + b y == gcd(a, b). The coefficients may be negative.
   */
  function XGcd(a: nat, b: nat): (r: (int, int, nat))
    ensures a * r.0 + b * r.1 == r.2
    ensures r.2 == Gcd(a, b)
    decreases b
  {
    if b == 0 then (1, 0, a)
    else
      var t := XGcd(b, a % b);
      BezoutStep(a, b, t.0, t.1, t.2);
      (t.1, t.0 - (a / b) * t.1, t.2)
  }

  lemma {:induction false} BezoutStep(a: nat, b: nat, x: int, y: int, g: int)
    requires b > 0
    requires b * x + (a % b) * y == g
    ensures a * y + b * (x - (a / b) * y) == g
  {
    var q, r := a / b, a % b;
    assert a == b * q + r;
    assert a * y == b * q * y + r * y;
    assert b * (x - q * y) == b * x - b * q * y;
  }

  /** The gcd divides both arguments. */
  lemma {:induction false} GcdDivides(a: nat, b: nat)
    ensures Divides(Gcd(a, b), a) && Divides(Gcd(a, b), b)
    decreases b
  {
    var g := Gcd(a, b);
    if b == 0 {
      MultipleDivides(a, 1);
      MultipleDivides(a, 0);
    } else {
      GcdDivides(b, a % b);
      assert a == (a / b) * b + 1 * (a % b);
      DividesCombination(g, b, a % b, a / b, 1);
    }
  }

  /** Every common divisor of a and b divides the gcd: it is the greatest one. */
  lemma {:induction false} GcdGreatest(a: nat, b: nat, d: nat)
    requires Divides(d, a) && Divides(d, b)
    ensures Divides(d, Gcd(a, b))
  {
    var r := XGcd(a, b);
    DividesCombination(d, a, b, r.0, r.1);
    assert r.0 * a + r.1 * b == Gcd(a, b);
  }

  lemma {:induction false} GcdPositive(a: nat, b: nat)
    requires a > 0 || b > 0
    ensures Gcd(a, b) > 0
  {
    GcdDivides(a, b);
  }

  /**
   * LCM: the least common multiple, 0 when either argument is 0. It is a
   * common multiple, and with the gcd it multiplies to a b.
   */
  function Lcm(a: nat, b: nat): (l: nat)
    ensures Divides(a, l) && Divides(b, l)
    ensures Gcd(a, b) * l == a * b
  {
    if a == 0 || b == 0 then
      MultipleDivides(a, 0);
      MultipleDivides(b, 0);
      0
    else
      var g := Gcd(a, b);
      GcdPositive(a, b);
      GcdDivides(a, b);
      LcmFacts(a, b, g, a / g, b / g);
      (a / g) * b
  }

  lemma {:induction false} LcmFacts(a: nat, b: nat, g: nat, a': nat, b': nat)
    requires g > 0 && a == g * a' && b == g * b'
    ensures Divides(a, a' * b) && Divides(b, a' * b)
    ensures g * (a' * b) == a * b && a' * b >= 0
  {
    assert a' * b == a * b' by {
      assert a' * (g * b') == (g * a') * b';
    }
    MultipleDivides(a, b');
    assert a' * b == b * a';
    MultipleDivides(b, a');
  }

  /** Storage the key derivation allocates: its two outputs and five temporaries. */
  datatype Number = Modulus | PrivExponent | PM1 | PM2 | Totient | K | GcdValue

  /** Every big number the key derivation allocates, each once. */
  const ALLOCATED: multiset<Number> := multiset{Modulus, PM1, PM2, Totient, PrivExponent, K, GcdValue}

  /** The outcome of rsaMakeKeys: the return code, the two outputs and the storage released. */
  datatype KeyResult = KeyResult(ret: int, privExponent: int, modulus: nat, released: multiset<Number>)

  /** The Carmichael value lambda(p q) = LCM(p - 1, q - 1) for primes p and q. */
  function CarmichaelTotient(prime1: nat, prime2: nat): nat
    requires prime1 >= 1 && prime2 >= 1
  {
    Lcm(prime1 - 1, prime2 - 1)
  }

  /**
   * rsaMakeKeys as written: modulus = p q; totient = LCM(p - 1, q - 1);
   * XGCD(e, totient) gives privExponent, k and gcd; if gcd != 1 the result is
   * -1 and both outputs are released. Then totient, pM1, pM2 and k are
   * released; gcd never is.
   */
  method RsaMakeKeys(prime1: nat, prime2: nat, pubExponent: nat) returns (r: KeyResult)
    requires prime1 >= 1 && prime2 >= 1
    ensures r.ret == 0 || r.ret == -1
    ensures r.modulus == prime1 * prime2
    ensures r.ret == -1 <==> Gcd(pubExponent, CarmichaelTotient(prime1, prime2)) != 1
    ensures r.ret == 0 ==> Divides(CarmichaelTotient(prime1, prime2), pubExponent * r.privExponent - 1)
    ensures r.released == multiset{Totient, PM1, PM2, K}
                        + (if r.ret == -1 then multiset{PrivExponent, Modulus} else multiset{})
    ensures r.released <= ALLOCATED && r.released[GcdValue] == 0
  {
    var modulus := prime1 * prime2;
    var pM1 := prime1 - 1;
    var pM2 := prime2 - 1;
    var totient := Lcm(pM1, pM2);
    var x := XGcd(pubExponent, totient);
    var privExponent, k, gcd := x.0, x.1, x.2;
    var retVal := 0;
    var released: multiset<Number> := multiset{};
    if gcd != 1 {
      retVal := -1;
      released := released + multiset{PrivExponent, Modulus};
    } else {
      Inverse(pubExponent, privExponent, totient, k);
    }
    released := released + multiset{Totient, PM1, PM2, K};
    r := KeyResult(retVal, privExponent, modulus, released);
  }

  /**
   * rsaMakeKeys with gcd released in the cleanup as well: every temporary is
   * released exactly once, and only the outputs of a successful call survive.
   */
  method RsaMakeKeysReleasingGcd(prime1: nat, prime2: nat, pubExponent: nat) returns (r: KeyResult)
    requires prime1 >= 1 && prime2 >= 1
    ensures r.ret == 0 || r.ret == -1
    ensures r.modulus == prime1 * prime2
    ensures r.ret == -1 <==> Gcd(pubExponent, CarmichaelTotient(prime1, prime2)) != 1
    ensures r.ret == 0 ==> Divides(CarmichaelTotient(prime1, prime2), pubExponent * r.privExponent - 1)
    ensures r.released <= ALLOCATED
    ensures ALLOCATED - r.released == if r.ret == 0 then multiset{PrivExponent, Modulus} else multiset{}
  {
    var modulus := prime1 * prime2;
    var pM1 := prime1 - 1;
    var pM2 := prime2 - 1;
    var totient := Lcm(pM1, pM2);
    var x := XGcd(pubExponent, totient);
    var privExponent, k, gcd := x.0, x.1, x.2;
    var retVal := 0;
    var released: multiset<Number> := multiset{};
    if gcd != 1 {
      retVal := -1;
      released := released + multiset{PrivExponent, Modulus};
    } else {
      Inverse(pubExponent, privExponent, totient, k);
    }
    released := released + multiset{Totient, PM1, PM2, K, GcdValue};
    r := KeyResult(retVal, privExponent, modulus, released);
  }

  /** A Bezout identity e d + m k == 1 makes d the inverse of e modulo m. */
  lemma {:induction false} Inverse(e: nat, d: int, m: nat, k: int)
    requires e * d + m * k == 1
    ensures Divides(m, e * d - 1)
  {
    MultipleDivides(m, -k);
    assert e * d - 1 == m * -k;
  }

  /** The textbook key of p = 61, q = 53: n = 3233 and lambda(n) = LCM(60, 52) = 780. */
  lemma TotientVector()
    ensures 61 * 53 == 3233
    ensures CarmichaelTotient(61, 53) == 780
  {
    assert Gcd(4, 0) == 4;
    assert Gcd(8, 4) == 4;
    assert Gcd(52, 8) == 4;
    assert Gcd(60, 52) == 4;
    assert Lcm(60, 52) == (60 / 4) * 52;
  }

  /**
   * With e = 17 the key is accepted, and 413 is a private exponent for it:
   * 17 * 413 = 9 * 780 + 1.
   */
  lemma InverseVector()
    ensures Gcd(17, 780) == 1
    ensures Divides(780, 17 * 413 - 1)
  {
    assert Gcd(17, 780) == Gcd(780, 17) == Gcd(17, 15) == Gcd(15, 2) == Gcd(2, 1) == Gcd(1, 0) == 1;
  }
}
