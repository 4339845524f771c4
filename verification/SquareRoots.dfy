/** Square roots modulo a prime that is 5 modulo 8, as in section 5.1.3 of RFC 8032. */
module SquareRoots {
  import opened Ring
  import opened Modular
  import opened Residues

  /** The fourth power of x^((p+3)/8) is x^2, for a square x. */
  lemma FourthPower(p: int, x: int, r: int, m: nat)
    requires IsPrime(p) && p == 8 * m - 3 && Cong(p, x, r * r) && !Zero(p, r)
    ensures Cong(p, Pow(Pow(x, m), 4), x * x)
  {
    assert p - 1 == 2 * (4 * m - 2) && 4 * m - 2 >= 0;
    var h := 4 * m - 2;
    assert Pow(x, 2) == x * (x * Pow(x, 0));
    assert Pow(r, 2) == r * (r * Pow(r, 0));
    hide *;
    PowOfPow(x, m, 4);
    PowAdd(x, 2, h);
    PowOfPow(r, 2, h);
    PowCongruent(p, x, r * r, h);
    Fermat(p, r);
    CongIntro(p, Pow(x, h), Pow(r * r, h));
    CongIntro(p, Pow(r, p - 1), 1);
    CongTrans(p, Pow(x, h), Pow(r, p - 1), 1);
    CongScale(p, x * x, Pow(x, h), 1);
  }

  lemma EqualSquares(p: int, a: int, b: int)
    requires IsPrime(p) && Cong(p, a * a, b * b)
    ensures Cong(p, a, b) || Cong(p, a, -b)
  {
    assert a * a - b * b == (a - b) * (a - -b) by { hide *; }
    Euclid(p, a - b, a - -b);
  }

  lemma PowZero(p: int, x: int, m: nat)
    requires p > 0 && Zero(p, x) && m > 0
    ensures Zero(p, Pow(x, m))
  {
    var q := Pow(x, m - 1);
    hide Zero;
    ZeroMul(p, q, x);
    assert q * x == x * q;
  }

  lemma RotatedSquare(p: int, i: int, v: int, x: int)
    requires p > 0 && Zero(p, i * i + 1) && Cong(p, v * v, -x)
    ensures Cong(p, (v * i) * (v * i), x)
  {
    CongIntro(p, v * v, -x);
    hide *;
    ZeroCombo(p, i * i, v * v - -x, -x, i * i + 1);
    RotatedIdentity(v * v, i * i, x);
    Interchange(v, i, v, i);
    assert (v * v) * (i * i) == (i * i) * (v * v);
    CongIntro(p, (v * i) * (v * i), x);
  }

  lemma RotatedIdentity(v: int, j: int, x: int)
    ensures j * (v - -x) + (-x) * (j + 1) == j * v - x
  {
  }

  lemma FourthIsSquareOfSquare(v: int)
    ensures Pow(v, 4) == (v * v) * (v * v)
  {
    assert Pow(v, 2) == v * (v * Pow(v, 0));
    hide Pow;
    PowAdd(v, 2, 2);
  }

  /** Either the candidate x^((p+3)/8) or its product with the root i of -1 squares to x. */
  lemma CandidateRoot(p: int, i: int, x: int, r: int, m: nat)
    requires IsPrime(p) && p == 8 * m - 3 && Zero(p, i * i + 1) && Cong(p, x, r * r)
    ensures var v := Pow(x, m); Cong(p, v * v, x) || Cong(p, (v * i) * (v * i), x)
  {
    var v := Pow(x, m);
    if Zero(p, r) {
      ZeroMul(p, r, r);
      CongZero(p, x, r * r);
      PowZero(p, x, m);
      ZeroMul(p, v, v);
      ZeroAdd(p, v * v, x);
    } else {
      hide *;
      FourthPower(p, x, r, m);
      FourthIsSquareOfSquare(v);
      EqualSquares(p, v * v, x);
      if Cong(p, v * v, -x) {
        RotatedSquare(p, i, v, x);
      }
    }
  }

  /** Two reduced numbers with congruent squares are equal or add up to p. */
  lemma RootsOfSameSquare(p: int, a: int, b: int)
    requires IsPrime(p) && 0 <= a < p && 0 <= b < p && Cong(p, a * a, b * b)
    ensures a == b || a == p - b
  {
    EqualSquares(p, a, b);
    if Cong(p, a, b) {
      CongReduced(p, a, b);
    } else {
      ZeroMultiple(p, 1);
      ZeroAdd(p, a - -b, 1 * p);
      if a + b >= p {
        ModRange(p, a + b - p);
      } else {
        ModRange(p, a + b);
      }
    }
  }

  /** The power of two that the source multiplies by is a square root of -1. */
  lemma RootOfMinusOne(p: int, i: int)
    requires IsPrime(p) && p % 8 == 5 && i == Pow(2, (p - 1) / 4) % p
    ensures Zero(p, i * i + 1)
  {
    TwoIsNonResidue(p);
    var m := Quarter(p);
    assert (p - 1) / 4 == m;
    var v := Pow(2, m);
    hide *;
    PowAdd(2, m, m);
    CongMod(p, v);
    CongMul(p, i, v, i, v);
    CongIntro(p, i * i, v * v);
    ZeroAdd(p, i * i - v * v, Pow(2, 2 * m) + 1);
  }
}
