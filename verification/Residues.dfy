/** Fermat's little theorem and the quadratic character of two, by permuting a product. */
module Residues {
  import opened Ring
  import opened Modular

  function Product(s: seq<int>): int {
    if s == [] then 1 else Product(s[..|s| - 1]) * s[|s| - 1]
  }

  function Factorial(n: nat): int {
    if n == 0 then 1 else Factorial(n - 1) * n
  }

  function Without(s: seq<int>, i: nat): seq<int>
    requires i < |s|
  {
    s[..i] + s[i + 1..]
  }

  ghost predicate DistinctUpTo(s: seq<int>, m: int) {
    && (forall i :: 0 <= i < |s| ==> 1 <= s[i] <= m)
    && (forall i, j :: 0 <= i < j < |s| ==> s[i] != s[j])
  }

  lemma {:induction false} ProductWithout(s: seq<int>, i: nat)
    requires i < |s|
    ensures Product(s) == Product(Without(s, i)) * s[i]
    decreases |s|
  {
    var n := |s| - 1;
    if i == n {
      assert Without(s, i) == s[..n];
    } else {
      ProductWithout(s[..n], i);
      assert Without(s, i)[..n - 1] == Without(s[..n], i);
      Reorder(Product(Without(s[..n], i)), s[i], s[n]);
    }
  }

  lemma WithoutDistinct(s: seq<int>, i: nat, m: int)
    requires i < |s| && DistinctUpTo(s, m) && s[i] == m
    ensures DistinctUpTo(Without(s, i), m - 1)
  {
    var t := Without(s, i);
    forall k | 0 <= k < |t|
      ensures t[k] == s[if k < i then k else k + 1] && t[k] != m
    {
    }
  }

  /** Distinct numbers between 1 and m are at most m many. */
  lemma {:induction false} Pigeonhole(s: seq<int>, m: nat)
    requires DistinctUpTo(s, m)
    ensures |s| <= m
    decreases m
  {
    if s != [] {
      assert 1 <= s[0] <= m;
      if i :| 0 <= i < |s| && s[i] == m {
        WithoutDistinct(s, i, m);
        Pigeonhole(Without(s, i), m - 1);
      } else {
        Pigeonhole(s, m - 1);
      }
    }
  }

  /** The product of a permutation of 1..n is n factorial. */
  lemma {:induction false} PermutationProduct(s: seq<int>)
    requires DistinctUpTo(s, |s|)
    ensures Product(s) == Factorial(|s|)
    decreases |s|
  {
    if s != [] {
      if forall i :: 0 <= i < |s| ==> s[i] != |s| {
        Pigeonhole(s, |s| - 1);
      }
      var i :| 0 <= i < |s| && s[i] == |s|;
      WithoutDistinct(s, i, |s|);
      ProductWithout(s, i);
      PermutationProduct(Without(s, i));
    }
  }

  lemma {:induction false} FactorialNonzero(p: int, n: nat)
    requires IsPrime(p) && n < p
    ensures !Zero(p, Factorial(n))
  {
    if n == 0 {
      NonzeroBelow(p, 1);
    } else {
      FactorialNonzero(p, n - 1);
      NonzeroBelow(p, n);
      Euclid(p, Factorial(n - 1), n);
    }
  }

  /** Every s[i] is congruent to f[i] times i+1. */
  ghost predicate Scales(p: int, f: seq<int>, s: seq<int>)
    requires p > 0
  {
    |s| == |f| && forall i :: 0 <= i < |s| ==> Zero(p, s[i] - f[i] * (i + 1))
  }

  lemma ScaledProductStep(p: int, x: int, y: int, q: int, g: int, h: int, k: int)
    requires p > 0 && Zero(p, x - q * h) && Zero(p, y - g * k)
    ensures Zero(p, x * y - (q * g) * (h * k))
  {
    hide *;
    ZeroCombo(p, y, x - q * h, q * h, y - g * k);
    assert y * (x - q * h) + q * h * (y - g * k) == x * y - (q * g) * (h * k);
  }

  /** If s scales 1..n by f, its product is congruent to the product of f times n factorial. */
  lemma {:induction false} ScaledProduct(p: int, f: seq<int>, s: seq<int>)
    requires p > 0 && Scales(p, f, s)
    ensures Zero(p, Product(s) - Product(f) * Factorial(|s|))
    decreases |s|
  {
    if s == [] {
      ZeroMultiple(p, 0);
    } else {
      hide Zero;
      var n := |s| - 1;
      ScaledProduct(p, f[..n], s[..n]);
      ScaledProductStep(p, Product(s[..n]), s[n], Product(f[..n]), f[n], Factorial(n), n + 1);
    }
  }

  /** A permutation of 1..n that scales termwise by f shows the product of f to be 1. */
  lemma ScalingIsOne(p: int, f: seq<int>, s: seq<int>)
    requires IsPrime(p) && Scales(p, f, s) && |s| < p
    requires DistinctUpTo(s, |s|)
    ensures Zero(p, Product(f) - 1)
  {
    hide *;
    ScaledProduct(p, f, s);
    PermutationProduct(s);
    FactorialNonzero(p, |s|);
    var h, q := Factorial(|s|), Product(f);
    ZeroMul(p, -1, h - q * h);
    assert -1 * (h - q * h) == h * (q - 1);
    Euclid(p, h, q - 1);
  }

  lemma {:induction false} ProductConstant(a: int, n: nat)
    ensures Product(seq(n, i => a)) == Pow(a, n)
  {
    if n > 0 {
      ProductConstant(a, n - 1);
      assert seq(n, i => a)[..n - 1] == seq(n - 1, i => a);
    }
  }

  lemma {:induction false} ProductConcat(s: seq<int>, t: seq<int>)
    ensures Product(s + t) == Product(s) * Product(t)
    decreases |t|
  {
    if t == [] {
      assert s + t == s;
    } else {
      var n := |t| - 1;
      assert (s + t)[..|s + t| - 1] == s + t[..n];
      ProductConcat(s, t[..n]);
      Regroup(Product(s), Product(t[..n]), t[n]);
    }
  }

  lemma MultiplesAreDistinct(p: int, a: int, i: int, j: int)
    requires IsPrime(p) && !Zero(p, a) && 0 < i < j < p
    ensures (a * i) % p != (a * j) % p
  {
    if (a * i) % p == (a * j) % p {
      CongruentIffSameRemainder(p, a * j, a * i);
      assert a * j - a * i == a * (j - i);
      Euclid(p, a, j - i);
      NonzeroBelow(p, j - i);
    }
  }

  /** The multiples of a, reduced, are a permutation of 1..p-1. */
  lemma MultiplesPermute(p: int, a: int, f: seq<int>, s: seq<int>)
    requires IsPrime(p) && !Zero(p, a)
    requires f == seq(p - 1, i => a) && s == seq(p - 1, i => (a * (i + 1)) % p)
    ensures DistinctUpTo(s, p - 1) && Scales(p, f, s)
  {
    hide Zero, IsPrime;
    assert |s| == |f| == p - 1 by { PrimeAboveOne(p); }
    forall i | 0 <= i < p - 1
      ensures 1 <= s[i] <= p - 1 && Zero(p, s[i] - f[i] * (i + 1))
    {
      ReducedMultiple(p, a, i + 1);
    }
    forall i, j | 0 <= i < j < p - 1
      ensures s[i] != s[j]
    {
      MultiplesAreDistinct(p, a, i + 1, j + 1);
    }
  }

  lemma PrimeAboveOne(p: int)
    requires IsPrime(p)
    ensures p > 1
  {
  }

  lemma ReducedMultiple(p: int, a: int, k: int)
    requires IsPrime(p) && !Zero(p, a) && 0 < k < p
    ensures 1 <= (a * k) % p <= p - 1 && Zero(p, (a * k) % p - a * k)
  {
    CongMod(p, a * k);
    Euclid(p, a, k);
    NonzeroBelow(p, k);
  }

  /** Fermat's little theorem. */
  lemma Fermat(p: int, a: int)
    requires IsPrime(p) && !Zero(p, a)
    ensures Zero(p, Pow(a, p - 1) - 1)
  {
    var s := seq(p - 1, i => (a * (i + 1)) % p);
    var f := seq(p - 1, i => a);
    assert |s| == p - 1;
    hide *;
    MultiplesPermute(p, a, f, s);
    ScalingIsOne(p, f, s);
    ProductConstant(a, p - 1);
  }

  lemma {:induction false} PowMinusOneOdd(m: nat)
    requires m % 2 == 1
    ensures Pow(-1, m) == -1
  {
    if m > 1 {
      PowMinusOneOdd(m - 2);
      assert Pow(-1, m) == (-1) * ((-1) * Pow(-1, m - 2));
    }
  }

  /** The product of m twos and m minus-twos, for odd m. */
  lemma ProductOfSignedTwos(m: nat)
    requires m % 2 == 1
    ensures Product(seq(m, i => 2) + seq(m, i => -2)) == -Pow(2, 2 * m)
  {
    ProductConcat(seq(m, i => 2), seq(m, i => -2));
    ProductConstant(2, m);
    ProductConstant(-2, m);
    PowOfProduct(-1, 2, m);
    PowMinusOneOdd(m);
    PowAdd(2, m, m);
    var x := Pow(2, m);
    assert x * (-1 * x) == -(x * x);
  }

  /** Doubling 1..2m, with the results above p/2 negated, is a permutation of 1..2m. */
  lemma FoldedDoubling(p: int, m: nat, s: seq<int>, f: seq<int>)
    requires p == 4 * m + 1 && p > 0
    requires s == seq(2 * m, i => if i < m then 2 * (i + 1) else p - 2 * (i + 1))
    requires f == seq(m, i => 2) + seq(m, i => -2)
    ensures DistinctUpTo(s, 2 * m) && Scales(p, f, s)
  {
    hide Zero;
    forall i | 0 <= i < 2 * m
      ensures Zero(p, s[i] - f[i] * (i + 1))
    {
      assert s[i] - f[i] * (i + 1) == if i < m then 0 * p else 1 * p;
      ZeroMultiple(p, if i < m then 0 else 1);
    }
  }

  lemma Quarter(p: int) returns (m: nat)
    requires p > 0 && p % 8 == 5
    ensures p == 4 * m + 1 && m % 2 == 1 && (p - 1) / 2 == 2 * m
  {
    m := (p - 1) / 4;
  }

  /** 2 to the power (p-1)/2 is -1 modulo a prime p that is 5 modulo 8. */
  lemma TwoIsNonResidue(p: int)
    requires IsPrime(p) && p % 8 == 5
    ensures Zero(p, Pow(2, (p - 1) / 2) + 1)
  {
    var m := Quarter(p);
    var s := seq(2 * m, i => if i < m then 2 * (i + 1) else p - 2 * (i + 1));
    var f := seq(m, i => 2) + seq(m, i => -2);
    assert |s| == |f| == 2 * m && p > 1;
    hide *;
    FoldedDoubling(p, m, s, f);
    ScalingIsOne(p, f, s);
    ProductOfSignedTwos(m);
    ZeroMul(p, -1, Product(f) - 1);
  }
}
