/** Congruence of integers modulo a positive number, powers, and the theorems about a
    prime modulus that the Ed25519 field arithmetic relies on. */
module Modular {
  import opened Ring

  // ---- Divisibility by the modulus ----

  /** a is congruent to zero modulo p. */
  ghost predicate Zero(p: int, a: int)
    requires p > 0
  {
    a % p == 0
  }

  ghost predicate Divides(d: int, n: int)
    requires d > 0
  {
    n % d == 0
  }

  ghost predicate IsPrime(p: int) {
    p > 1 && forall d :: 1 < d < p ==> !Divides(d, p)
  }

  lemma ProductAtLeast(k: int, p: int)
    requires k >= 1 && p > 0
    ensures k * p >= p
  {
    assert (k - 1) * p >= 0;
  }

  lemma DivModUnique(a: int, q: int, r: int, p: int)
    requires p > 0 && 0 <= r < p && a == q * p + r
    ensures a / p == q && a % p == r
  {
    var k := a / p - q;
    assert k * p == (a / p) * p - q * p;
    assert a == (a / p) * p + a % p;
    if k >= 1 {
      ProductAtLeast(k, p);
    } else if k <= -1 {
      ProductAtLeast(-k, p);
    }
  }

  lemma DivMod(a: int, p: int)
    requires p > 0
    ensures (a / p) * p + a % p == a && 0 <= a % p < p && (a >= 0 ==> a / p >= 0)
  {
    if a / p <= -1 {
      ProductAtLeast(-(a / p), p);
    }
  }

  lemma ZeroMultiple(p: int, k: int)
    requires p > 0
    ensures Zero(p, k * p)
  {
    DivModUnique(k * p, k, 0, p);
  }

  lemma ZeroQuotient(p: int, a: int)
    requires p > 0 && Zero(p, a)
    ensures a == (a / p) * p
  {
  }

  lemma ZeroMul(p: int, k: int, a: int)
    requires p > 0 && Zero(p, a)
    ensures Zero(p, k * a)
  {
    var q := a / p;
    ZeroQuotient(p, a);
    assert k * a == (k * q) * p by {
      hide *;
      assert a == q * p;
    }
    ZeroMultiple(p, k * q);
  }

  lemma ZeroAdd(p: int, a: int, b: int)
    requires p > 0 && Zero(p, a) && Zero(p, b)
    ensures Zero(p, a + b) && Zero(p, a - b)
  {
    ZeroQuotient(p, a);
    ZeroQuotient(p, b);
    assert a + b == (a / p + b / p) * p;
    assert a - b == (a / p - b / p) * p;
    ZeroMultiple(p, a / p + b / p);
    ZeroMultiple(p, a / p - b / p);
  }

  /** Any integer combination of two multiples of p is a multiple of p. */
  lemma ZeroCombo(p: int, k: int, a: int, l: int, b: int)
    requires p > 0 && Zero(p, a) && Zero(p, b)
    ensures Zero(p, k * a + l * b)
  {
    ZeroMul(p, k, a);
    ZeroMul(p, l, b);
    ZeroAdd(p, k * a, l * b);
  }

  lemma ZeroCombo3(p: int, k: int, a: int, l: int, b: int, m: int, c: int)
    requires p > 0 && Zero(p, a) && Zero(p, b) && Zero(p, c)
    ensures Zero(p, k * a + l * b + m * c)
  {
    ZeroCombo(p, k, a, l, b);
    ZeroMul(p, m, c);
    ZeroAdd(p, k * a + l * b, m * c);
  }

  lemma ZeroMod(p: int, a: int)
    requires p > 0
    ensures Zero(p, a - a % p)
  {
    assert a - a % p == (a / p) * p;
    ZeroMultiple(p, a / p);
  }

  lemma SameRemainderFromCongruent(p: int, a: int, b: int)
    requires p > 0 && Zero(p, a - b)
    ensures a % p == b % p
  {
    var q, s, r := (a - b) / p, b / p, b % p;
    ZeroQuotient(p, a - b);
    assert b == s * p + r;
    assert a == (q + s) * p + r by {
      hide *;
      assert a == q * p + (s * p + r);
    }
    DivModUnique(a, q + s, r, p);
  }

  /** Congruence modulo p is equality of remainders. */
  lemma CongruentIffSameRemainder(p: int, a: int, b: int)
    requires p > 0
    ensures Zero(p, a - b) <==> a % p == b % p
  {
    if a % p == b % p {
      var s, t := a / p, b / p;
      assert a - b == (s - t) * p by {
        assert a == s * p + a % p && b == t * p + b % p;
      }
      ZeroMultiple(p, s - t);
    }
    if Zero(p, a - b) {
      SameRemainderFromCongruent(p, a, b);
    }
  }

  /** a and b are congruent modulo p. */
  ghost predicate Cong(p: int, a: int, b: int)
    requires p > 0
  {
    Zero(p, a - b)
  }

  lemma CongIntro(p: int, a: int, b: int)
    requires p > 0
    ensures Zero(p, a - b) <==> Cong(p, a, b)
  {
  }

  lemma CongRefl(p: int, a: int)
    requires p > 0
    ensures Cong(p, a, a)
  {
    ZeroMultiple(p, 0);
  }

  lemma CongSym(p: int, a: int, b: int)
    requires p > 0 && Cong(p, a, b)
    ensures Cong(p, b, a)
  {
    ZeroMul(p, -1, a - b);
  }

  lemma CongTrans(p: int, a: int, b: int, c: int)
    requires p > 0 && Cong(p, a, b) && Cong(p, b, c)
    ensures Cong(p, a, c)
  {
    ZeroAdd(p, a - b, b - c);
  }

  lemma CongAdd(p: int, a: int, b: int, c: int, d: int)
    requires p > 0 && Cong(p, a, b) && Cong(p, c, d)
    ensures Cong(p, a + c, b + d) && Cong(p, a - c, b - d)
  {
    ZeroAdd(p, a - b, c - d);
    assert (a + c) - (b + d) == (a - b) + (c - d) && (a - c) - (b - d) == (a - b) - (c - d);
  }

  lemma CongMul(p: int, a: int, b: int, c: int, d: int)
    requires p > 0 && Cong(p, a, b) && Cong(p, c, d)
    ensures Cong(p, a * c, b * d)
  {
    hide Zero;
    TelescopeProduct(a, c, b, d);
    ZeroCombo(p, a, c - d, d, a - b);
  }

  lemma CongScale(p: int, k: int, a: int, b: int)
    requires p > 0 && Cong(p, a, b)
    ensures Cong(p, k * a, k * b)
  {
    CongRefl(p, k);
    CongMul(p, k, k, a, b);
  }

  lemma CongMod(p: int, a: int)
    requires p > 0
    ensures Cong(p, a % p, a) && Cong(p, a, a % p) && 0 <= a % p < p
  {
    ZeroMod(p, a);
    ZeroMul(p, -1, a - a % p);
  }

  lemma CongZero(p: int, a: int, b: int)
    requires p > 0 && Cong(p, a, b)
    ensures Zero(p, a) <==> Zero(p, b)
  {
    if Zero(p, b) {
      ZeroAdd(p, a - b, b);
    }
    if Zero(p, a) {
      ZeroAdd(p, a, a - b);
    }
  }

  /** Reduced numbers are congruent only when equal. */
  lemma CongReduced(p: int, a: int, b: int)
    requires 0 <= a < p && 0 <= b < p && Cong(p, a, b)
    ensures a == b
  {
    SameRemainderFromCongruent(p, a, b);
    ModRange(p, a);
    ModRange(p, b);
  }

  /** A common factor that is not zero cancels. */
  lemma CongCancel(p: int, k: int, a: int, b: int)
    requires IsPrime(p) && !Zero(p, k) && Cong(p, k * a, k * b)
    ensures Cong(p, a, b)
  {
    assert k * a - k * b == k * (a - b) by { hide *; }
    Euclid(p, k, a - b);
  }

  lemma ModRange(p: int, a: int)
    requires 0 <= a < p
    ensures a % p == a
  {
    DivModUnique(a, 0, a, p);
  }

  lemma NonzeroBelow(p: int, a: int)
    requires 0 < a < p
    ensures !Zero(p, a)
  {
    ModRange(p, a);
  }

  /** Euclid's lemma, by descent through remainders of p. */
  lemma {:induction false} EuclidBelow(p: int, a: int, b: int)
    requires IsPrime(p) && 0 < a < p && Zero(p, a * b)
    ensures Zero(p, b)
    decreases a
  {
    if a > 1 {
      var r := p % a;
      assert !Divides(a, p);
      assert p == (p / a) * a + r;
      assert r * b == b * p - (p / a) * (a * b) by {
        var q := p / a;
        assert r == p - q * a;
        hide *;
        assert (p - q * a) * b == b * p - q * (a * b);
      }
      ZeroMultiple(p, b);
      ZeroMul(p, p / a, a * b);
      ZeroAdd(p, b * p, (p / a) * (a * b));
      EuclidBelow(p, r, b);
    }
  }

  lemma Euclid(p: int, a: int, b: int)
    requires IsPrime(p)
    ensures Zero(p, a * b) <==> Zero(p, a) || Zero(p, b)
  {
    if Zero(p, b) {
      ZeroMul(p, a, b);
    }
    if Zero(p, a) {
      ZeroMul(p, b, a);
    }
    if Zero(p, a * b) && !Zero(p, a) {
      var r := a % p;
      ZeroMod(p, a);
      ZeroMul(p, b, a - r);
      assert r * b == a * b - b * (a - r) by { hide *; }
      ZeroAdd(p, a * b, b * (a - r));
      EuclidBelow(p, r, b);
    }
  }

  // ---- Powers ----

  function Pow(b: int, e: nat): int
    decreases e, b
  {
    if e == 0 then 1 else b * Pow(b, e - 1)
  }

  lemma PowNext(b: int, e: nat)
    ensures Pow(b, e) == if e == 0 then 1 else b * Pow(b, e - 1)
  {
  }

  lemma {:induction false} PowAdd(b: int, m: nat, n: nat)
    ensures Pow(b, m + n) == Pow(b, m) * Pow(b, n)
  {
    if m > 0 {
      PowAdd(b, m - 1, n);
      Regroup(b, Pow(b, m - 1), Pow(b, n));
    }
  }

  lemma {:induction false} PowOfProduct(a: int, b: int, e: nat)
    ensures Pow(a * b, e) == Pow(a, e) * Pow(b, e)
  {
    if e > 0 {
      PowOfProduct(a, b, e - 1);
      Interchange(a, b, Pow(a, e - 1), Pow(b, e - 1));
    }
  }

  lemma {:induction false} PowOfPow(b: int, m: nat, n: nat)
    ensures m * n >= 0 && Pow(Pow(b, m), n) == Pow(b, m * n)
  {
    if n > 0 {
      PowOfPow(b, m, n - 1);
      assert m * n == m + m * (n - 1) by { hide *; }
      PowAdd(b, m, m * (n - 1));
    }
  }

  /** Congruent bases have congruent powers. */
  lemma {:induction false} PowCongruent(p: int, a: int, b: int, e: nat)
    requires p > 0 && Zero(p, a - b)
    ensures Zero(p, Pow(a, e) - Pow(b, e))
  {
    hide *;
    PowNext(a, e);
    PowNext(b, e);
    if e == 0 {
      ZeroMultiple(p, 0);
    } else {
      PowCongruent(p, a, b, e - 1);
      TelescopeProduct(a, Pow(a, e - 1), b, Pow(b, e - 1));
      ZeroCombo(p, a, Pow(a, e - 1) - Pow(b, e - 1), Pow(b, e - 1), a - b);
    }
  }

  lemma {:induction false} PowZeroOnlyFromZero(p: int, a: int, e: nat)
    requires IsPrime(p) && Zero(p, Pow(a, e))
    ensures Zero(p, a)
  {
    if e == 0 {
      NonzeroBelow(p, 1);
    } else {
      Euclid(p, a, Pow(a, e - 1));
      if !Zero(p, a) {
        PowZeroOnlyFromZero(p, a, e - 1);
      }
    }
  }
}
