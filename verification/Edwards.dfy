/** The affine group law of the twisted Edwards curve -x^2 + y^2 = 1 + d x^2 y^2 over the
    integers modulo a prime: complete, closed, commutative and associative. */
module Edwards {
  import opened Ring
  import opened Modular
  import opened Residues
  import opened EdwardsIdentities

  datatype Affine = Affine(x: int, y: int)

  const NEUTRAL := Affine(0, 1)

  ghost predicate IsRoot(p: int, a: int, r: int)
    requires p > 0
  {
    Cong(p, r * r, a)
  }

  /** The field and curve: p is an odd prime, i a square root of -1, and d is not a square. */
  ghost predicate Curve(p: int, d: int, i: int) {
    p > 2 && IsPrime(p) && Zero(p, i * i + 1) && forall r :: !IsRoot(p, d, r)
  }

  ghost predicate Satisfies(p: int, d: int, a: Affine)
    requires p > 0
  {
    Zero(p, CurveError(d, a.x, a.y))
  }

  /** A point with reduced coordinates on the curve. */
  ghost predicate OnCurve(p: int, d: int, a: Affine)
    requires p > 0
  {
    0 <= a.x < p && 0 <= a.y < p && Satisfies(p, d, a)
  }

  function Twist(d: int, a: Affine, b: Affine): int {
    d * ((a.x * a.y) * (b.x * b.y))
  }

  function XNumerator(a: Affine, b: Affine): int {
    a.x * b.y + b.x * a.y
  }

  function YNumerator(a: Affine, b: Affine): int {
    a.y * b.y + a.x * b.x
  }

  /** The multiplicative inverse by Fermat's theorem. */
  function Inverse(p: int, a: int): int
    requires p > 2
  {
    Pow(a, p - 2) % p
  }

  /** The affine sum of two points. */
  function Add(p: int, d: int, a: Affine, b: Affine): Affine
    requires p > 2
  {
    Affine((XNumerator(a, b) * Inverse(p, 1 + Twist(d, a, b))) % p,
           (YNumerator(a, b) * Inverse(p, 1 - Twist(d, a, b))) % p)
  }

  /** c satisfies the two equations that define the sum of a and b. */
  ghost predicate IsSum(p: int, d: int, a: Affine, b: Affine, c: Affine)
    requires p > 0
  {
    && Cong(p, (1 + Twist(d, a, b)) * c.x, XNumerator(a, b))
    && Cong(p, (1 - Twist(d, a, b)) * c.y, YNumerator(a, b))
  }

  ghost predicate SamePoint(p: int, a: Affine, b: Affine)
    requires p > 0
  {
    Cong(p, a.x, b.x) && Cong(p, a.y, b.y)
  }

  // ---- Inverses ----

  lemma InverseCorrect(p: int, a: int)
    requires p > 2 && IsPrime(p) && !Zero(p, a)
    ensures Cong(p, a * Inverse(p, a), 1) && 0 <= Inverse(p, a) < p
  {
    Fermat(p, a);
    CongMod(p, Pow(a, p - 2));
    assert Pow(a, p - 1) == a * Pow(a, p - 2);
    hide *;
    CongScale(p, a, Pow(a, p - 2) % p, Pow(a, p - 2));
    InverseStep(p, a);
  }

  lemma InverseStep(p: int, a: int)
    requires p > 2 && Pow(a, p - 1) == a * Pow(a, p - 2)
    requires Zero(p, Pow(a, p - 1) - 1) && Cong(p, a * (Pow(a, p - 2) % p), a * Pow(a, p - 2))
    ensures Cong(p, a * Inverse(p, a), 1)
  {
    CongTrans(p, a * Inverse(p, a), a * Pow(a, p - 2), 1);
  }

  /** Dividing by multiplying with an inverse. */
  lemma DivideCorrect(p: int, k: int, n: int)
    requires p > 2 && IsPrime(p) && !Zero(p, k)
    ensures var q := (n * Inverse(p, k)) % p; 0 <= q < p && Cong(p, k * q, n)
  {
    InverseCorrect(p, k);
    var v := Inverse(p, k);
    CongMod(p, n * v);
    hide *;
    CongScale(p, k, (n * v) % p, n * v);
    assert k * (n * v) == n * (k * v);
    CongScale(p, n, k * v, 1);
    CongTrans(p, k * ((n * v) % p), n * (k * v), n * 1);
  }

  // ---- Completeness ----

  /** If d a^2 = b^2 then a is zero, because d is not a square. */
  lemma NotASquare(p: int, d: int, i: int, a: int, b: int)
    requires Curve(p, d, i) && Cong(p, b * b, d * (a * a))
    ensures Zero(p, a)
  {
    if !Zero(p, a) {
      var v := Inverse(p, a);
      InverseCorrect(p, a);
      var r := b * v;
      assert IsRoot(p, d, r) by {
        hide *;
        CongMul(p, a * v, 1, a * v, 1);
        CongScale(p, v * v, b * b, d * (a * a));
        assert (v * v) * (b * b) == r * r;
        assert (v * v) * (d * (a * a)) == d * ((a * v) * (a * v));
        CongScale(p, d, (a * v) * (a * v), 1 * 1);
        CongTrans(p, r * r, d * ((a * v) * (a * v)), d * (1 * 1));
        RootIntro(p, d, r);
      }
    }
  }

  lemma RootIntro(p: int, d: int, r: int)
    requires p > 0 && Cong(p, r * r, d * (1 * 1))
    ensures IsRoot(p, d, r)
  {
  }

  lemma FourMultiples(p: int, x: int, m: int, j: int, n: int, e2: int, e1: int, l: int, t: int)
    requires p > 0 && Zero(p, j) && Zero(p, e2) && Zero(p, e1) && Zero(p, t)
    requires x == m * j + (n * e2 - e1) - l * t
    ensures Zero(p, x)
  {
    hide *;
    ZeroMul(p, m, j);
    ZeroMul(p, n, e2);
    ZeroMul(p, l, t);
    ZeroAdd(p, n * e2, e1);
    ZeroAdd(p, m * j, n * e2 - e1);
    ZeroAdd(p, m * j + (n * e2 - e1), l * t);
  }

  lemma HalfCompleteness(p: int, d: int, i: int, a: Affine, b: Affine)
    requires Curve(p, d, i) && Satisfies(p, d, a) && Satisfies(p, d, b)
    requires Zero(p, Twist(d, a, b) - 1)
    ensures Zero(p, (a.x * a.y) * (i * b.x + b.y))
  {
    var u, v, k, c := a.x * a.y, b.x * b.y, i * a.x + a.y, i * b.x + b.y;
    var e1, e2, t := CurveError(d, a.x, a.y), CurveError(d, b.x, b.y), Twist(d, a, b);
    var m, n, l := a.x * a.x - (d * (u * u)) * (b.x * b.x), d * (u * u), t + 1 + (2 * i) * u;
    assert Cong(p, k * k, d * ((u * c) * (u * c))) by {
      hide Zero;
      CompletenessIdentity(d, i, a.x, a.y, b.x, b.y);
      FourMultiples(p, k * k - d * ((u * c) * (u * c)), m, i * i + 1, n, e2, e1, l, t - 1);
    }
    NotASquare(p, d, i, u * c, k);
  }

  function Negate(a: Affine): Affine {
    Affine(-a.x, a.y)
  }

  lemma NegateSatisfies(p: int, d: int, a: Affine, b: Affine)
    requires p > 0 && Satisfies(p, d, a)
    ensures Satisfies(p, d, Negate(a))
    ensures Twist(d, Negate(a), Negate(b)) == Twist(d, a, b) && Twist(d, Negate(a), b) == -Twist(d, a, b)
  {
    hide Zero;
    Negated(a.x, a.y);
    Negated(b.x, b.y);
    assert (-a.x) * (-a.x) == a.x * a.x;
    assert (-(a.x * a.y)) * (-(a.x * a.y)) == (a.x * a.y) * (a.x * a.y);
    assert (-(a.x * a.y)) * (b.x * b.y) == -((a.x * a.y) * (b.x * b.y));
    assert (-(a.x * a.y)) * (-(b.x * b.y)) == (a.x * a.y) * (b.x * b.y);
    assert d * (-((a.x * a.y) * (b.x * b.y))) == -Twist(d, a, b);
  }

  lemma AddHalves(p: int, u: int, c: int, y: int)
    requires p > 0 && Zero(p, u * (c + y)) && Zero(p, (-u) * (-c + y))
    ensures Zero(p, 2 * (u * y))
  {
    hide *;
    ZeroAdd(p, u * (c + y), (-u) * (-c + y));
    assert u * (c + y) - (-u) * (-c + y) == 2 * (u * y);
  }

  lemma MirroredHalf(i: int, a: Affine, b: Affine)
    ensures (Negate(a).x * Negate(a).y) * (i * Negate(b).x + Negate(b).y) == (-(a.x * a.y)) * (-(i * b.x) + b.y)
  {
    Negated(a.x, a.y);
    assert i * (-b.x) == -(i * b.x);
  }

  lemma TwistFromHalves(p: int, d: int, u: int, x: int, y: int)
    requires p > 0 && Zero(p, 2 * (u * y))
    ensures Zero(p, 2 * (d * (u * (x * y))))
  {
    hide *;
    ZeroMul(p, d * x, 2 * (u * y));
    assert (d * x) * (2 * (u * y)) == 2 * (d * (u * (x * y)));
  }

  lemma TwistNotOne(p: int, d: int, i: int, a: Affine, b: Affine)
    requires Curve(p, d, i) && Satisfies(p, d, a) && Satisfies(p, d, b)
    ensures !Zero(p, 1 - Twist(d, a, b))
  {
    var u, t := a.x * a.y, Twist(d, a, b);
    assert t == d * (u * (b.x * b.y));
    if Zero(p, 1 - t) {
      ZeroMul(p, -1, 1 - t);
      assert Zero(p, 2 * t) by {
        HalfCompleteness(p, d, i, a, b);
        NegateSatisfies(p, d, a, b);
        NegateSatisfies(p, d, b, a);
        HalfCompleteness(p, d, i, Negate(a), Negate(b));
        hide *;
        MirroredHalf(i, a, b);
        AddHalves(p, u, i * b.x, b.y);
        TwistFromHalves(p, d, u, b.x, b.y);
      }
      ZeroMul(p, 2, t - 1);
      ZeroAdd(p, 2 * t, 2 * (t - 1));
      NonzeroBelow(p, 2);
    }
  }

  /** Neither denominator of a sum of curve points vanishes. */
  lemma Complete(p: int, d: int, i: int, a: Affine, b: Affine)
    requires Curve(p, d, i) && Satisfies(p, d, a) && Satisfies(p, d, b)
    ensures !Zero(p, 1 + Twist(d, a, b)) && !Zero(p, 1 - Twist(d, a, b))
  {
    TwistNotOne(p, d, i, a, b);
    NegateSatisfies(p, d, a, b);
    TwistNotOne(p, d, i, Negate(a), b);
  }

  // ---- Sums exist, are unique, and stay on the curve ----

  lemma AddIsSum(p: int, d: int, i: int, a: Affine, b: Affine)
    requires Curve(p, d, i) && Satisfies(p, d, a) && Satisfies(p, d, b)
    ensures var c := Add(p, d, a, b); 0 <= c.x < p && 0 <= c.y < p && IsSum(p, d, a, b, c)
  {
    Complete(p, d, i, a, b);
    DivideCorrect(p, 1 + Twist(d, a, b), XNumerator(a, b));
    DivideCorrect(p, 1 - Twist(d, a, b), YNumerator(a, b));
  }

  lemma SumUnique(p: int, d: int, i: int, a: Affine, b: Affine, c: Affine, e: Affine)
    requires Curve(p, d, i) && Satisfies(p, d, a) && Satisfies(p, d, b)
    requires IsSum(p, d, a, b, c) && IsSum(p, d, a, b, e)
    ensures SamePoint(p, c, e)
  {
    Complete(p, d, i, a, b);
    hide Zero, Cong, Twist, XNumerator, YNumerator;
    var t := Twist(d, a, b);
    CongSym(p, (1 + t) * e.x, XNumerator(a, b));
    CongSym(p, (1 - t) * e.y, YNumerator(a, b));
    CongTrans(p, (1 + t) * c.x, XNumerator(a, b), (1 + t) * e.x);
    CongTrans(p, (1 - t) * c.y, YNumerator(a, b), (1 - t) * e.y);
    CongCancel(p, 1 + t, c.x, e.x);
    CongCancel(p, 1 - t, c.y, e.y);
  }

  lemma ErrorAsDifference(p: int, d: int, a: Affine)
    requires p > 0 && Satisfies(p, d, a)
    ensures Zero(p, (a.y * a.y - a.x * a.x) - (1 + d * ((a.x * a.y) * (a.x * a.y))))
  {
    ZeroMul(p, -1, CurveError(d, a.x, a.y));
  }

  /** The cleared curve error of a sum of two curve points vanishes. */
  lemma ClearedSumError(p: int, d: int, a: Affine, b: Affine, n: int, m: int, t: int)
    requires p > 0 && Satisfies(p, d, a) && Satisfies(p, d, b)
    requires n == XNumerator(a, b) && m == YNumerator(a, b) && t == Twist(d, a, b)
    ensures Zero(p, (1 - t * t) * (1 - t * t) + d * ((n * m) * (n * m)) + (n * n) * ((1 - t) * (1 - t)) - (m * m) * ((1 + t) * (1 + t)))
  {
    ErrorAsDifference(p, d, a);
    ErrorAsDifference(p, d, b);
    var w1, w2 := d * ((a.x * a.y) * (a.x * a.y)), d * ((b.x * b.y) * (b.x * b.y));
    var p1, p2 := a.y * a.y - a.x * a.x, b.y * b.y - b.x * b.x;
    hide Zero, Satisfies;
    ClosureIdentity(d, a.x, a.y, b.x, b.y);
    FactorAtCurve(w1, w2, p1, p2, 1 + w1, 1 + w2, 1 + w1 * w2);
    var f, g := w2 * (p1 + (1 + w1)) - p2 * (1 + w1 * w2), w1 * (p2 + (1 + w2)) - (1 + w1) * (1 + w1 * w2);
    ZeroCombo(p, f, p1 - (1 + w1), g, p2 - (1 + w2));
    assert f * (p1 - (1 + w1)) == (p1 - (1 + w1)) * f && g * (p2 - (1 + w2)) == (p2 - (1 + w2)) * g;
  }

  /** Replacing cleared coordinates by the numerators they are congruent to. */
  lemma ReplaceCleared(p: int, d: int, k: int, x: int, y: int, n: int, m: int, q: int, r: int)
    requires p > 0 && Cong(p, x, n) && Cong(p, y, m)
    ensures Cong(p, k + d * ((x * y) * (x * y)) + (x * x) * (r * r) - (y * y) * (q * q),
                    k + d * ((n * m) * (n * m)) + (n * n) * (r * r) - (m * m) * (q * q))
  {
    hide *;
    CongRefl(p, k);
    CongRefl(p, r * r);
    CongRefl(p, q * q);
    CongMul(p, x, n, y, m);
    CongMul(p, x * y, n * m, x * y, n * m);
    CongScale(p, d, (x * y) * (x * y), (n * m) * (n * m));
    CongMul(p, x, n, x, n);
    CongMul(p, y, m, y, m);
    CongMul(p, x * x, n * n, r * r, r * r);
    CongMul(p, y * y, m * m, q * q, q * q);
    CongAdd(p, k, k, d * ((x * y) * (x * y)), d * ((n * m) * (n * m)));
    CongAdd(p, k + d * ((x * y) * (x * y)), k + d * ((n * m) * (n * m)), (x * x) * (r * r), (n * n) * (r * r));
    CongAdd(p, k + d * ((x * y) * (x * y)) + (x * x) * (r * r), k + d * ((n * m) * (n * m)) + (n * n) * (r * r),
            (y * y) * (q * q), (m * m) * (q * q));
  }

  /** The sum of two curve points is a curve point. */
  lemma SumSatisfies(p: int, d: int, i: int, a: Affine, b: Affine, c: Affine)
    requires Curve(p, d, i) && Satisfies(p, d, a) && Satisfies(p, d, b) && IsSum(p, d, a, b, c)
    ensures Satisfies(p, d, c)
  {
    Complete(p, d, i, a, b);
    var t, n, m := Twist(d, a, b), XNumerator(a, b), YNumerator(a, b);
    ClearedSumError(p, d, a, b, n, m, t);
    var q, r, e := 1 + t, 1 - t, CurveError(d, c.x, c.y);
    hide Zero, Cong, Twist, XNumerator, YNumerator, CurveError;
    assert q * r == 1 - t * t;
    var k := (q * r) * (q * r);
    ReplaceCleared(p, d, k, q * c.x, r * c.y, n, m, q, r);
    ClearedError(d, c.x, c.y, q, r);
    CongZero(p, e * k, k + d * ((n * m) * (n * m)) + (n * n) * (r * r) - (m * m) * (q * q));
    Euclid(p, e, k);
    Euclid(p, q * r, q * r);
    Euclid(p, q, r);
  }

  // ---- Associativity ----

  /** The denominator of (x12, y12) + c, where x12 = a / (1+t) and y12 = b / (1-t). */
  lemma NestedDenominatorCong(p: int, d: int, xy: Affine, a: int, b: int, t: int, c: Affine)
    requires p > 0 && Cong(p, (1 + t) * xy.x, a) && Cong(p, (1 - t) * xy.y, b)
    ensures Cong(p, 1 - t * t + d * ((a * b) * (c.x * c.y)), ((1 + t) * (1 - t)) * (1 + Twist(d, xy, c)))
  {
    var q, r, u, x, y := 1 + t, 1 - t, c.x * c.y, xy.x, xy.y;
    assert Twist(d, xy, c) == d * ((x * y) * u);
    hide *;
    NestedDenominator(d, x, y, q, r, t, u);
    CongMul(p, q * x, a, r * y, b);
    CongRefl(p, u);
    CongMul(p, (q * x) * (r * y), a * b, u, u);
    CongScale(p, d, ((q * x) * (r * y)) * u, (a * b) * u);
    CongRefl(p, 1 - t * t);
    CongAdd(p, 1 - t * t, 1 - t * t, d * (((q * x) * (r * y)) * u), d * ((a * b) * u));
    CongSym(p, (q * r) * (1 + Twist(d, xy, c)), 1 - t * t + d * ((a * b) * u));
  }

  lemma SplitFactor(a: int, t: int, v: int)
    ensures ((1 - t) * v) * a == a * v - t * (a * v) && ((1 + t) * v) * a == a * v + t * (a * v)
  {
  }

  /** The numerator of the x-coordinate of the same sum, over the same denominator. */
  lemma NestedNumeratorCong(p: int, xy: Affine, a: int, b: int, t: int, c: Affine)
    requires p > 0 && Cong(p, (1 + t) * xy.x, a) && Cong(p, (1 - t) * xy.y, b)
    ensures Cong(p, ((1 + t) * (1 - t)) * XNumerator(xy, c), a * c.y - t * (a * c.y) + (b * c.x + t * (b * c.x)))
  {
    var q, r, x, y := 1 + t, 1 - t, xy.x, xy.y;
    assert XNumerator(xy, c) == x * c.y + c.x * y;
    hide *;
    NestedNumerator(x, y, q, r, c.x, c.y);
    CongScale(p, r * c.y, q * x, a);
    CongScale(p, q * c.x, r * y, b);
    CongAdd(p, (r * c.y) * (q * x), (r * c.y) * a, (q * c.x) * (r * y), (q * c.x) * b);
    SplitFactor(a, t, c.y);
    SplitFactor(b, t, c.x);
  }

  /** The x-coordinate of (x12, y12) + c as one fraction. */
  lemma NestedFraction(p: int, d: int, xy: Affine, a: int, b: int, t: int, c: Affine, z: int)
    requires p > 0 && Cong(p, (1 + t) * xy.x, a) && Cong(p, (1 - t) * xy.y, b)
    requires Cong(p, (1 + Twist(d, xy, c)) * z, XNumerator(xy, c))
    ensures Cong(p, (1 - t * t + d * ((a * b) * (c.x * c.y))) * z, a * c.y - t * (a * c.y) + (b * c.x + t * (b * c.x)))
  {
    hide *;
    var k, s, n := (1 + t) * (1 - t), Twist(d, xy, c), XNumerator(xy, c);
    var e, m := 1 - t * t + d * ((a * b) * (c.x * c.y)), a * c.y - t * (a * c.y) + (b * c.x + t * (b * c.x));
    NestedDenominatorCong(p, d, xy, a, b, t, c);
    NestedNumeratorCong(p, xy, a, b, t, c);
    CongRefl(p, z);
    CongMul(p, e, k * (1 + s), z, z);
    Regroup(k, 1 + s, z);
    CongScale(p, k, (1 + s) * z, n);
    CongTrans(p, e * z, k * ((1 + s) * z), k * n);
    CongTrans(p, e * z, k * n, m);
  }

  /** Adding multiples of p to the three parts of a vanishing expression. */
  lemma VanishWithErrors(p: int, f: int, u1: int, u3: int, h: int, l: int, z: int, z': int, x: int, x': int, y: int, y': int)
    requires p > 0 && f * z' + u3 * (l * x') - u1 * (h * y') == 0
    requires Zero(p, z - z') && Zero(p, x - x') && Zero(p, y - y')
    ensures Zero(p, f * z + u3 * (l * x) - u1 * (h * y))
  {
    hide *;
    ZeroCombo3(p, f, z - z', u3 * l, x - x', -(u1 * h), y - y');
    assert f * (z - z') == f * z - f * z';
    assert (u3 * l) * (x - x') == u3 * (l * x) - u3 * (l * x');
    assert -(u1 * h) * (y - y') == -(u1 * (h * y)) + u1 * (h * y');
  }

  lemma OuterGapVanishes(p: int, w1: int, w2: int, p1: int, p2: int, k: int)
    requires p > 0 && Zero(p, 1 + w1 - p1) && Zero(p, 1 + w2 - p2)
    ensures Zero(p, (1 - w1 * w2 + k) - (p1 - w1 * p2 + k))
  {
    hide *;
    ErrorGapOuter(w1, w2, p1, p2, k);
    ZeroMul(p, w1, 1 + w2 - p2);
    ZeroAdd(p, 1 + w1 - p1, w1 * (1 + w2 - p2));
  }

  lemma MiddleGapVanishes(p: int, u: int, w1: int, w3: int, p1: int, p3: int, k: int)
    requires p > 0 && Zero(p, 1 + w1 - p1) && Zero(p, 1 + w3 - p3)
    ensures Zero(p, (u * (w1 - w3) + k) - (k + u * (w1 * p3 - w3 * p1)))
  {
    hide *;
    ErrorGapMiddle(u, w1, w3, p1, p3);
    ZeroMul(p, u * w1, 1 + w3 - p3);
    ZeroMul(p, u * w3, 1 + w1 - p1);
    ZeroAdd(p, (u * w1) * (1 + w3 - p3), (u * w3) * (1 + w1 - p1));
  }

  lemma ErrorForm(p: int, d: int, a: Affine)
    requires p > 0 && Satisfies(p, d, a)
    ensures Zero(p, 1 + d * ((a.x * a.y) * (a.x * a.y)) - (a.y * a.y - a.x * a.x))
  {
  }

  /** The cross-multiplied difference of the two x-coordinates vanishes. */
  lemma CrossVanishes(p: int, d: int, a: Affine, b: Affine, c: Affine,
                      u1: int, u2: int, u3: int, s1: int, s2: int, s3: int,
                      n: int, m: int, o: int, q: int, f: int, h: int, l: int, dl: int, dr: int)
    requires p > 0 && Satisfies(p, d, a) && Satisfies(p, d, b) && Satisfies(p, d, c)
    requires u1 == a.x * a.y && u2 == b.x * b.y && u3 == c.x * c.y
    requires s1 == a.x * a.x + a.y * a.y && s2 == b.x * b.x + b.y * b.y && s3 == c.x * c.x + c.y * c.y
    requires n == a.x * b.y + b.x * a.y && m == a.y * b.y + a.x * b.x
    requires o == b.x * c.y + c.x * b.y && q == b.y * c.y + b.x * c.x
    requires f == n * c.y + m * c.x && h == n * c.y - m * c.x && l == o * a.y - q * a.x
    requires dl == 1 - (d * (u1 * u1)) * (d * (u2 * u2)) + d * (u3 * (u1 * s2 + u2 * s1))
    requires dr == 1 - (d * (u2 * u2)) * (d * (u3 * u3)) + d * (u1 * (u3 * s2 + u2 * s3))
    ensures Zero(p, (f - (d * (u1 * u2)) * h) * dr - (f - (d * (u2 * u3)) * l) * dl)
  {
    ErrorForm(p, d, a);
    ErrorForm(p, d, b);
    ErrorForm(p, d, c);
    hide *;
    var w1, w2, w3 := d * (u1 * u1), d * (u2 * u2), d * (u3 * u3);
    var p1, p2, p3 := a.y * a.y - a.x * a.x, b.y * b.y - b.x * b.x, c.y * c.y - c.x * c.x;
    var g, v, w := n * c.x + m * c.y, m * c.y - n * c.x, q * a.y - o * a.x;
    var k1, k3, k2 := d * (u3 * (u1 * s2 + u2 * s1)), d * (u1 * (u3 * s2 + u2 * s3)), u1 * s3 - u3 * s1;
    var z := u2 * (w1 - w3) + k2;
    TrilinearRelations(a.x, a.y, b.x, b.y, c.x, c.y, n, m, o, q, f, g, h, l, v, w);
    AssociativityResidue(d, u1, u2, u3, s1, s2, s3, p1, p2, p3, w1, w3, f, g, h, l, v, w);
    OuterGapVanishes(p, w1, w2, p1, p2, k1);
    OuterGapVanishes(p, w3, w2, p3, p2, k3);
    MiddleGapVanishes(p, u2, w1, w3, p1, p3, k2);
    assert w2 * w3 == w3 * w2;
    VanishWithErrors(p, f, u1, u3, h, l, z, k2 + u2 * (w1 * p3 - w3 * p1),
                     dl, p1 - w1 * p2 + k1, dr, p3 - w3 * p2 + k3);
    CrossDifference(d, u1, u2, u3, s1, s2, s3, f, h, l, dl, dr, z);
    ZeroMul(p, d * u2, f * z + u3 * (l * dl) - u1 * (h * dr));
  }

  /** The two x-coordinates of three summed points, as fractions, cross-multiply to the same. */
  lemma CrossMultiples(p: int, d: int, a: Affine, b: Affine, c: Affine, nl: int, dl: int, nr: int, dr: int)
    requires p > 0 && Satisfies(p, d, a) && Satisfies(p, d, b) && Satisfies(p, d, c)
    requires var t, n, m := Twist(d, a, b), XNumerator(a, b), YNumerator(a, b);
      dl == 1 - t * t + d * ((n * m) * (c.x * c.y)) && nl == n * c.y - t * (n * c.y) + (m * c.x + t * (m * c.x))
    requires var t, n, m := Twist(d, b, c), XNumerator(b, c), YNumerator(b, c);
      dr == 1 - t * t + d * ((n * m) * (a.x * a.y)) && nr == n * a.y - t * (n * a.y) + (m * a.x + t * (m * a.x))
    ensures Cong(p, nl * dr, nr * dl)
  {
    var n, m := a.x * b.y + b.x * a.y, a.y * b.y + a.x * b.x;
    var o, q := b.x * c.y + c.x * b.y, b.y * c.y + b.x * c.x;
    var u1, u2, u3 := a.x * a.y, b.x * b.y, c.x * c.y;
    var t, r := d * (u1 * u2), d * (u2 * u3);
    assert n == XNumerator(a, b) && m == YNumerator(a, b) && t == Twist(d, a, b);
    assert o == XNumerator(b, c) && q == YNumerator(b, c) && r == Twist(d, b, c);
    var f, h, l := n * c.y + m * c.x, n * c.y - m * c.x, o * a.y - q * a.x;
    var s1, s2, s3 := a.x * a.x + a.y * a.y, b.x * b.x + b.y * b.y, c.x * c.x + c.y * c.y;
    hide *;
    NumeratorProduct(a.x, a.y, b.x, b.y);
    NumeratorProduct(b.x, b.y, c.x, c.y);
    TwistSquared(d, u1, u2);
    TwistSquared(d, u2, u3);
    DenominatorForm(d, n * m, u3, u1 * s2 + u2 * s1, dl, t, (d * (u1 * u1)) * (d * (u2 * u2)));
    DenominatorForm(d, o * q, u1, u3 * s2 + u2 * s3, dr, r, (d * (u2 * u2)) * (d * (u3 * u3)));
    NumeratorForm(n * c.y, m * c.x, t);
    NumeratorForm(o * a.y, q * a.x, r);
    TrilinearForms(a.x, a.y, b.x, b.y, c.x, c.y);
    CrossVanishes(p, d, a, b, c, u1, u2, u3, s1, s2, s3, n, m, o, q, f, h, l, dl, dr);
    CongIntro(p, nl * dr, nr * dl);
  }

  lemma DenominatorForm(d: int, nm: int, u: int, k: int, e: int, t: int, ww: int)
    requires e == 1 - t * t + d * (nm * u) && nm == k && t * t == ww
    ensures e == 1 - ww + d * (u * k)
  {
  }

  lemma NumeratorForm(x: int, y: int, t: int)
    ensures x - t * x + (y + t * y) == (x + y) - t * (x - y)
  {
  }

  lemma FractionsAgree(p: int, dl: int, nl: int, x: int, dr: int, nr: int, y: int)
    requires IsPrime(p) && !Zero(p, dl) && !Zero(p, dr)
    requires Cong(p, dl * x, nl) && Cong(p, dr * y, nr) && Cong(p, nl * dr, nr * dl)
    ensures Cong(p, x, y)
  {
    hide Zero, Cong;
    CongScale(p, dr, dl * x, nl);
    CongScale(p, dl, dr * y, nr);
    assert dr * nl == nl * dr && dl * nr == nr * dl;
    CongTrans(p, dr * (dl * x), nl * dr, nr * dl);
    CongSym(p, dl * (dr * y), nr * dl);
    CongTrans(p, dr * (dl * x), nr * dl, dl * (dr * y));
    Regroup(dr, dl, x);
    Regroup(dl, dr, y);
    assert dl * dr == dr * dl;
    Euclid(p, dr, dl);
    CongCancel(p, dr * dl, x, y);
  }

  lemma NestedDenominatorNonzero(p: int, d: int, i: int, a: Affine, b: Affine, ab: Affine, c: Affine)
    requires Curve(p, d, i) && Satisfies(p, d, a) && Satisfies(p, d, b) && Satisfies(p, d, c) && IsSum(p, d, a, b, ab)
    ensures var t := Twist(d, a, b);
      !Zero(p, 1 - t * t + d * ((XNumerator(a, b) * YNumerator(a, b)) * (c.x * c.y)))
  {
    var t := Twist(d, a, b);
    SumSatisfies(p, d, i, a, b, ab);
    Complete(p, d, i, a, b);
    Complete(p, d, i, ab, c);
    hide Zero, Cong, Twist, XNumerator, YNumerator;
    NestedDenominatorCong(p, d, ab, XNumerator(a, b), YNumerator(a, b), t, c);
    Euclid(p, 1 + t, 1 - t);
    Euclid(p, (1 + t) * (1 - t), 1 + Twist(d, ab, c));
    CongZero(p, 1 - t * t + d * ((XNumerator(a, b) * YNumerator(a, b)) * (c.x * c.y)),
             ((1 + t) * (1 - t)) * (1 + Twist(d, ab, c)));
  }

  lemma Symmetric(d: int, a: Affine, b: Affine)
    ensures Twist(d, a, b) == Twist(d, b, a)
    ensures XNumerator(a, b) == XNumerator(b, a) && YNumerator(a, b) == YNumerator(b, a)
  {
    assert (a.x * a.y) * (b.x * b.y) == (b.x * b.y) * (a.x * a.y);
  }

  /** (a + b) + c and a + (b + c) have the same x-coordinate. */
  lemma AssociativeX(p: int, d: int, i: int, a: Affine, b: Affine, c: Affine, ab: Affine, bc: Affine, l: Affine, r: Affine)
    requires Curve(p, d, i) && Satisfies(p, d, a) && Satisfies(p, d, b) && Satisfies(p, d, c)
    requires IsSum(p, d, a, b, ab) && IsSum(p, d, b, c, bc) && IsSum(p, d, ab, c, l) && IsSum(p, d, a, bc, r)
    ensures Cong(p, l.x, r.x)
  {
    NestedDenominatorNonzero(p, d, i, a, b, ab, c);
    NestedDenominatorNonzero(p, d, i, b, c, bc, a);
    Symmetric(d, a, bc);
    hide Zero, Cong, Twist, XNumerator, YNumerator;
    var t, n, m := Twist(d, a, b), XNumerator(a, b), YNumerator(a, b);
    var s, o, q := Twist(d, b, c), XNumerator(b, c), YNumerator(b, c);
    NestedFraction(p, d, ab, n, m, t, c, l.x);
    NestedFraction(p, d, bc, o, q, s, a, r.x);
    var dl, nl := 1 - t * t + d * ((n * m) * (c.x * c.y)), n * c.y - t * (n * c.y) + (m * c.x + t * (m * c.x));
    var dr, nr := 1 - s * s + d * ((o * q) * (a.x * a.y)), o * a.y - s * (o * a.y) + (q * a.x + s * (q * a.x));
    CrossMultiples(p, d, a, b, c, nl, dl, nr, dr);
    FractionsAgree(p, dl, nl, l.x, dr, nr, r.x);
  }

  // ---- The y-coordinate, by a quarter turn ----

  /** (i y, i x): the sum with the point (i, 0) of order four. */
  function QuarterTurn(i: int, a: Affine): Affine {
    Affine(i * a.y, i * a.x)
  }

  lemma TurnExpand(j: int, w: int, y: int, x: int)
    ensures 1 + (j * j) * w - (j * x - j * y) == 1 + w - (y - x) + (j + 1) * ((j - 1) * w + (y - x))
  {
  }

  lemma TurnError(d: int, i: int, x: int, y: int)
    ensures CurveError(d, i * y, i * x) == CurveError(d, x, y)
      + (i * i + 1) * ((i * i - 1) * (d * ((x * y) * (x * y))) + (y * y - x * x))
  {
    var j, u := i * i, x * y;
    Interchange(i, y, i, x);
    Interchange(i, x, i, x);
    Interchange(i, y, i, y);
    assert y * x == u;
    Interchange(j, u, j, u);
    Rotate(d, j * j, u * u);
    TurnExpand(j, d * (u * u), y * y, x * x);
  }

  lemma TurnSatisfies(p: int, d: int, i: int, a: Affine)
    requires p > 0 && Zero(p, i * i + 1) && Satisfies(p, d, a)
    ensures Satisfies(p, d, QuarterTurn(i, a))
  {
    var e, k := CurveError(d, a.x, a.y), (i * i - 1) * (d * ((a.x * a.y) * (a.x * a.y))) + (a.y * a.y - a.x * a.x);
    assert CurveError(d, i * a.y, i * a.x) == e + (i * i + 1) * k by {
      TurnError(d, i, a.x, a.y);
    }
    assert Zero(p, e);
    hide Zero, CurveError;
    ZeroMul(p, k, i * i + 1);
    assert k * (i * i + 1) == (i * i + 1) * k;
    ZeroAdd(p, e, (i * i + 1) * k);
  }

  lemma TurnNumerators(d: int, i: int, a: Affine, b: Affine)
    ensures XNumerator(a, QuarterTurn(i, b)) == i * YNumerator(a, b)
    ensures YNumerator(a, QuarterTurn(i, b)) == i * XNumerator(a, b)
    ensures Twist(d, a, QuarterTurn(i, b)) == (i * i) * Twist(d, a, b)
  {
    TurnSum(i, a.x, b.x, b.y, a.y);
    TurnSum(i, a.y, b.x, b.y, a.x);
    Interchange(i, b.y, i, b.x);
    assert b.y * b.x == b.x * b.y;
    Rotate(a.x * a.y, i * i, b.x * b.y);
    Rotate(d, i * i, (a.x * a.y) * (b.x * b.y));
  }

  lemma TurnSum(i: int, x: int, y: int, z: int, w: int)
    ensures x * (i * y) + (i * z) * w == i * (w * z + x * y)
    ensures x * (i * y) + w * (i * z) == i * (x * y + z * w)
  {
  }

  lemma TurnSide(p: int, i: int, t: int, y: int, n: int)
    requires p > 0 && Zero(p, i * i + 1)
    requires Cong(p, (1 - t) * y, n)
    ensures Cong(p, (1 + (i * i) * t) * (i * y), i * n)
  {
    hide Zero;
    ZeroCombo(p, i, (1 - t) * y - n, (t * i) * y, i * i + 1);
    TurnSideIdentity(i, i * i, t, y, n);
  }

  lemma TurnSideIdentity(i: int, j: int, t: int, y: int, n: int)
    ensures i * ((1 - t) * y - n) + ((t * i) * y) * (j + 1) == (1 + j * t) * (i * y) - i * n
  {
  }

  lemma TurnIsSum(p: int, d: int, i: int, a: Affine, b: Affine, c: Affine)
    requires p > 0 && Zero(p, i * i + 1) && IsSum(p, d, a, b, c)
    ensures IsSum(p, d, a, QuarterTurn(i, b), QuarterTurn(i, c))
  {
    TurnNumerators(d, i, a, b);
    hide Zero, Cong, Twist, XNumerator, YNumerator;
    var t := Twist(d, a, b);
    TurnSide(p, i, t, c.y, YNumerator(a, b));
    TurnSide(p, i, -t, c.x, XNumerator(a, b));
    assert (i * i) * (-t) == -((i * i) * t);
  }

  lemma RootOfMinusOneNonzero(p: int, i: int)
    requires p > 2 && Zero(p, i * i + 1)
    ensures !Zero(p, i)
  {
    if Zero(p, i) {
      ZeroMul(p, i, i);
      ZeroAdd(p, i * i + 1, i * i);
      NonzeroBelow(p, 1);
    }
  }

  /** Associativity of the group law, for any sums that satisfy the defining equations. */
  lemma Associative(p: int, d: int, i: int, a: Affine, b: Affine, c: Affine, ab: Affine, bc: Affine, l: Affine, r: Affine)
    requires Curve(p, d, i) && Satisfies(p, d, a) && Satisfies(p, d, b) && Satisfies(p, d, c)
    requires IsSum(p, d, a, b, ab) && IsSum(p, d, b, c, bc) && IsSum(p, d, ab, c, l) && IsSum(p, d, a, bc, r)
    ensures SamePoint(p, l, r)
  {
    RootOfMinusOneNonzero(p, i);
    hide Zero, Cong, Twist, XNumerator, YNumerator, Satisfies, IsSum;
    AssociativeX(p, d, i, a, b, c, ab, bc, l, r);
    TurnSatisfies(p, d, i, c);
    TurnIsSum(p, d, i, b, c, bc);
    TurnIsSum(p, d, i, ab, c, l);
    TurnIsSum(p, d, i, a, bc, r);
    AssociativeX(p, d, i, a, b, QuarterTurn(i, c), ab, QuarterTurn(i, bc), QuarterTurn(i, l), QuarterTurn(i, r));
    CongCancel(p, i, l.y, r.y);
  }

  // ---- The group of reduced curve points ----

  lemma AddOnCurve(p: int, d: int, i: int, a: Affine, b: Affine)
    requires Curve(p, d, i) && OnCurve(p, d, a) && OnCurve(p, d, b)
    ensures OnCurve(p, d, Add(p, d, a, b)) && IsSum(p, d, a, b, Add(p, d, a, b))
  {
    hide Zero, Cong, Satisfies, IsSum, Add;
    AddIsSum(p, d, i, a, b);
    SumSatisfies(p, d, i, a, b, Add(p, d, a, b));
  }

  lemma SameReduced(p: int, d: int, a: Affine, b: Affine)
    requires p > 0 && OnCurve(p, d, a) && OnCurve(p, d, b) && SamePoint(p, a, b)
    ensures a == b
  {
    CongReduced(p, a.x, b.x);
    CongReduced(p, a.y, b.y);
  }

  /** A reduced point that satisfies the sum equations is the sum. */
  lemma SumIsAdd(p: int, d: int, i: int, a: Affine, b: Affine, c: Affine)
    requires Curve(p, d, i) && OnCurve(p, d, a) && OnCurve(p, d, b) && IsSum(p, d, a, b, c)
    requires 0 <= c.x < p && 0 <= c.y < p
    ensures c == Add(p, d, a, b)
  {
    hide Zero, Cong, Satisfies, IsSum, Add, SamePoint;
    AddOnCurve(p, d, i, a, b);
    SumSatisfies(p, d, i, a, b, c);
    SumUnique(p, d, i, a, b, c, Add(p, d, a, b));
    SameReduced(p, d, c, Add(p, d, a, b));
  }

  lemma AddCommutes(p: int, d: int, a: Affine, b: Affine)
    requires p > 2
    ensures Add(p, d, a, b) == Add(p, d, b, a)
  {
    Symmetric(d, a, b);
  }

  lemma NeutralOnCurve(p: int, d: int)
    requires p > 2
    ensures OnCurve(p, d, NEUTRAL)
  {
    ZeroMultiple(p, 0);
  }

  lemma AddNeutral(p: int, d: int, i: int, a: Affine)
    requires Curve(p, d, i) && OnCurve(p, d, a)
    ensures Add(p, d, NEUTRAL, a) == a && Add(p, d, a, NEUTRAL) == a
  {
    NeutralOnCurve(p, d);
    assert Twist(d, NEUTRAL, a) == 0;
    assert IsSum(p, d, NEUTRAL, a, a) by {
      ZeroMultiple(p, 0);
    }
    SumIsAdd(p, d, i, NEUTRAL, a, a);
    AddCommutes(p, d, NEUTRAL, a);
  }

  lemma AddAssociates(p: int, d: int, i: int, a: Affine, b: Affine, c: Affine)
    requires Curve(p, d, i) && OnCurve(p, d, a) && OnCurve(p, d, b) && OnCurve(p, d, c)
    ensures Add(p, d, Add(p, d, a, b), c) == Add(p, d, a, Add(p, d, b, c))
  {
    hide Zero, Cong, Satisfies, IsSum, Add, SamePoint;
    var ab, bc := Add(p, d, a, b), Add(p, d, b, c);
    AddOnCurve(p, d, i, a, b);
    AddOnCurve(p, d, i, b, c);
    AddOnCurve(p, d, i, ab, c);
    AddOnCurve(p, d, i, a, bc);
    Associative(p, d, i, a, b, c, ab, bc, Add(p, d, ab, c), Add(p, d, a, bc));
    SameReduced(p, d, Add(p, d, ab, c), Add(p, d, a, bc));
  }

  // ---- Multiples of a point ----

  /** The n-fold sum of a point. */
  ghost function Times(p: int, d: int, n: nat, a: Affine): Affine
    requires p > 2
  {
    if n == 0 then NEUTRAL else Add(p, d, Times(p, d, n - 1, a), a)
  }

  lemma {:induction false} TimesOnCurve(p: int, d: int, i: int, n: nat, a: Affine)
    requires Curve(p, d, i) && OnCurve(p, d, a)
    ensures OnCurve(p, d, Times(p, d, n, a))
  {
    hide Zero, Cong, Satisfies, IsSum, Add, OnCurve;
    if n == 0 {
      NeutralOnCurve(p, d);
    } else {
      TimesOnCurve(p, d, i, n - 1, a);
      AddOnCurve(p, d, i, Times(p, d, n - 1, a), a);
    }
  }

  lemma {:induction false} TimesAdd(p: int, d: int, i: int, m: nat, n: nat, a: Affine)
    requires Curve(p, d, i) && OnCurve(p, d, a)
    ensures Times(p, d, m + n, a) == Add(p, d, Times(p, d, m, a), Times(p, d, n, a))
  {
    hide Zero, Cong, Satisfies, IsSum, Add, OnCurve;
    TimesOnCurve(p, d, i, m, a);
    if n == 0 {
      AddNeutral(p, d, i, Times(p, d, m, a));
    } else {
      TimesAdd(p, d, i, m, n - 1, a);
      TimesOnCurve(p, d, i, n - 1, a);
      AddAssociates(p, d, i, Times(p, d, m, a), Times(p, d, n - 1, a), a);
    }
  }

  lemma {:induction false} TimesTimes(p: int, d: int, i: int, m: nat, n: nat, a: Affine)
    requires Curve(p, d, i) && OnCurve(p, d, a)
    ensures m * n >= 0 && Times(p, d, m, Times(p, d, n, a)) == Times(p, d, m * n, a)
  {
    hide Zero, Cong, Satisfies, IsSum, Add, OnCurve;
    if m > 0 {
      TimesTimes(p, d, i, m - 1, n, a);
      TimesAdd(p, d, i, (m - 1) * n, n, a);
      assert (m - 1) * n + n == m * n;
    }
  }

  lemma {:induction false} TimesNeutral(p: int, d: int, i: int, n: nat)
    requires Curve(p, d, i)
    ensures Times(p, d, n, NEUTRAL) == NEUTRAL
  {
    hide Zero, Cong, Satisfies, IsSum, Add, OnCurve;
    if n > 0 {
      TimesNeutral(p, d, i, n - 1);
      NeutralOnCurve(p, d);
      AddNeutral(p, d, i, NEUTRAL);
    }
  }

  lemma TimesWhole(p: int, d: int, i: int, l: nat, q: nat, r: nat, a: Affine)
    requires Curve(p, d, i) && OnCurve(p, d, a) && Times(p, d, l, a) == NEUTRAL
    ensures q * l >= 0 && Times(p, d, q * l + r, a) == Times(p, d, r, a)
  {
    assert p > 2;
    hide *;
    TimesTimes(p, d, i, q, l, a);
    TimesNeutral(p, d, i, q);
    TimesAdd(p, d, i, q * l, r, a);
    TimesOnCurve(p, d, i, r, a);
    AddNeutral(p, d, i, Times(p, d, r, a));
  }

  /** Multiples of a point whose order divides l depend on the factor modulo l only. */
  lemma TimesMod(p: int, d: int, i: int, l: nat, n: nat, a: Affine)
    requires Curve(p, d, i) && OnCurve(p, d, a) && l > 0 && Times(p, d, l, a) == NEUTRAL
    ensures Times(p, d, n, a) == Times(p, d, n % l, a)
  {
    assert p > 2;
    hide *;
    DivMod(n, l);
    var q, r := n / l, n % l;
    assert n == q * l + r;
    TimesWhole(p, d, i, l, q, r, a);
  }
}
