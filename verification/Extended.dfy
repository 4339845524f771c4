/** Extended homogeneous coordinates over the affine group law: the unified addition
    formulas of section 5.1.4 of RFC 8032, for any odd prime and complete curve. */
module ExtendedCoordinates {
  import opened Ring
  import opened Modular
  import opened Edwards

  datatype Extended = Extended(X: int, Y: int, Z: int, T: int)

  /** q stands for the affine point a: x = X/Z, y = Y/Z and x y = T/Z. */
  ghost predicate Represents(p: int, q: Extended, a: Affine)
    requires p > 0
  {
    && !Zero(p, q.Z)
    && Cong(p, q.X, q.Z * a.x)
    && Cong(p, q.Y, q.Z * a.y)
    && Cong(p, q.T, q.Z * (a.x * a.y))
  }

  predicate Reduced(p: int, q: Extended) {
    0 <= q.X < p && 0 <= q.Y < p && 0 <= q.Z < p && 0 <= q.T < p
  }

  lemma ScaledProduct(p: int, x: int, y: int, z1: int, z2: int, u: int, v: int, z: int)
    requires p > 0 && Cong(p, x, z1 * u) && Cong(p, y, z2 * v) && z == z1 * z2
    ensures Cong(p, x * y, z * (u * v))
  {
    hide *;
    CongMul(p, x, z1 * u, y, z2 * v);
    Interchange(z1, u, z2, v);
  }

  lemma ScaledSum(p: int, x: int, y: int, z: int, u: int, v: int)
    requires p > 0 && Cong(p, x, z * u) && Cong(p, y, z * v)
    ensures Cong(p, x + y, z * (u + v)) && Cong(p, x - y, z * (u - v))
  {
    hide *;
    CongAdd(p, x, z * u, y, z * v);
    Distribute(z, u, v);
  }

  /** The three products of the addition formulas. */
  lemma ProductsOfCoordinates(p: int, d: int, q: Extended, r: Extended, a: Affine, b: Affine, z: int)
    requires p > 0 && Represents(p, q, a) && Represents(p, r, b) && z == q.Z * r.Z
    ensures Cong(p, (q.Y - q.X) * (r.Y - r.X), z * ((a.y - a.x) * (b.y - b.x)))
    ensures Cong(p, (q.Y + q.X) * (r.Y + r.X), z * ((a.y + a.x) * (b.y + b.x)))
    ensures Cong(p, 2 * q.T * r.T * d, 2 * (z * Twist(d, a, b)))
  {
    var t := Twist(d, a, b);
    assert t == d * ((a.x * a.y) * (b.x * b.y));
    hide Zero, Cong, Twist;
    ScaledSum(p, q.Y, q.X, q.Z, a.y, a.x);
    ScaledSum(p, r.Y, r.X, r.Z, b.y, b.x);
    ScaledProduct(p, q.Y - q.X, r.Y - r.X, q.Z, r.Z, a.y - a.x, b.y - b.x, z);
    ScaledProduct(p, q.Y + q.X, r.Y + r.X, q.Z, r.Z, a.y + a.x, b.y + b.x, z);
    ScaledProduct(p, q.T, r.T, q.Z, r.Z, a.x * a.y, b.x * b.y, z);
    CongScale(p, 2 * d, q.T * r.T, z * ((a.x * a.y) * (b.x * b.y)));
    TwistScale(d, q.T, r.T, z, (a.x * a.y) * (b.x * b.y));
  }

  lemma TwistScale(d: int, t: int, s: int, z: int, u: int)
    ensures (2 * d) * (t * s) == 2 * t * s * d && (2 * d) * (z * u) == 2 * (z * (d * u))
  {
  }

  lemma NumeratorForms(z: int, x1: int, y1: int, x2: int, y2: int)
    ensures z * ((y1 + x1) * (y2 + x2)) - z * ((y1 - x1) * (y2 - x2)) == (2 * z) * (x1 * y2 + x2 * y1)
    ensures z * ((y1 + x1) * (y2 + x2)) + z * ((y1 - x1) * (y2 - x2)) == (2 * z) * (y1 * y2 + x1 * x2)
  {
    assert (y1 + x1) * (y2 + x2) == (x1 * y2 + x2 * y1) + (y1 * y2 + x1 * x2);
    assert (y1 - x1) * (y2 - x2) == (y1 * y2 + x1 * x2) - (x1 * y2 + x2 * y1);
    Distribute(z, x1 * y2 + x2 * y1, y1 * y2 + x1 * x2);
    Distribute(z, y1 * y2 + x1 * x2, x1 * y2 + x2 * y1);
  }

  lemma DenominatorForms(z: int, t: int)
    ensures 2 * z - 2 * (z * t) == (2 * z) * (1 - t) && 2 * z + 2 * (z * t) == (2 * z) * (1 + t)
  {
  }

  /** The sums and differences e, f, g, h of the addition formulas. */
  lemma SumsOfProducts(p: int, d: int, q: Extended, r: Extended, a: Affine, b: Affine, z: int,
                       k: int, l: int, m: int, n: int)
    requires p > 0 && Represents(p, q, a) && Represents(p, r, b) && z == q.Z * r.Z
    requires Cong(p, k, (q.Y - q.X) * (r.Y - r.X)) && Cong(p, l, (q.Y + q.X) * (r.Y + r.X))
    requires Cong(p, m, 2 * q.T * r.T * d) && Cong(p, n, 2 * q.Z * r.Z)
    ensures Cong(p, l - k, (2 * z) * XNumerator(a, b)) && Cong(p, l + k, (2 * z) * YNumerator(a, b))
    ensures Cong(p, n - m, (2 * z) * (1 - Twist(d, a, b))) && Cong(p, n + m, (2 * z) * (1 + Twist(d, a, b)))
  {
    ProductsOfCoordinates(p, d, q, r, a, b, z);
    var t, u, v := Twist(d, a, b), z * ((a.y - a.x) * (b.y - b.x)), z * ((a.y + a.x) * (b.y + b.x));
    assert XNumerator(a, b) == a.x * b.y + b.x * a.y && YNumerator(a, b) == a.y * b.y + a.x * b.x;
    hide *;
    CongTrans(p, k, (q.Y - q.X) * (r.Y - r.X), u);
    CongTrans(p, l, (q.Y + q.X) * (r.Y + r.X), v);
    CongTrans(p, m, 2 * q.T * r.T * d, 2 * (z * t));
    assert 2 * q.Z * r.Z == 2 * z;
    CongAdd(p, l, v, k, u);
    CongAdd(p, n, 2 * z, m, 2 * (z * t));
    NumeratorForms(z, a.x, a.y, b.x, b.y);
    DenominatorForms(z, t);
  }

  lemma SquareScale(w: int, a: int, b: int)
    ensures (w * a) * (w * b) == (w * w) * (a * b)
  {
  }

  lemma ScaledCross(p: int, w: int, x: int, y: int, a: int, b: int)
    requires p > 0 && Cong(p, x, w * a) && Cong(p, y, w * b)
    ensures Cong(p, x * y, (w * w) * (a * b))
  {
    hide *;
    CongMul(p, x, w * a, y, w * b);
    SquareScale(w, a, b);
  }

  lemma CoordinateFromSum(p: int, w: int, s: int, r: int, c: int, n: int)
    requires p > 0 && Cong(p, s * c, n)
    ensures Cong(p, w * (n * r), (w * (r * s)) * c)
  {
    hide *;
    CongScale(p, w * r, s * c, n);
    assert (w * r) * (s * c) == (w * (r * s)) * c;
    assert (w * r) * n == w * (n * r);
    CongSym(p, (w * (r * s)) * c, w * (n * r));
  }

  lemma ProductFromSum(p: int, w: int, s: int, r: int, x: int, y: int, n: int, m: int)
    requires p > 0 && Cong(p, s * x, n) && Cong(p, r * y, m)
    ensures Cong(p, w * (n * m), (w * (r * s)) * (x * y))
  {
    hide *;
    CongMul(p, s * x, n, r * y, m);
    CongScale(p, w, (s * x) * (r * y), n * m);
    Interchange(s, x, r, y);
    Regroup(w, s * r, x * y);
    assert s * r == r * s;
    CongSym(p, w * ((s * x) * (r * y)), w * (n * m));
  }

  /** Products (ef, gh, fg, eh) of the sums represent the affine sum. */
  lemma ProductsRepresent(p: int, d: int, i: int, a: Affine, b: Affine, w: int, e: int, f: int, g: int, h: int, s: Extended)
    requires Curve(p, d, i) && OnCurve(p, d, a) && OnCurve(p, d, b) && !Zero(p, w)
    requires Cong(p, e, w * XNumerator(a, b)) && Cong(p, h, w * YNumerator(a, b))
    requires Cong(p, f, w * (1 - Twist(d, a, b))) && Cong(p, g, w * (1 + Twist(d, a, b)))
    requires Cong(p, s.X, e * f) && Cong(p, s.Y, g * h) && Cong(p, s.Z, f * g) && Cong(p, s.T, e * h)
    ensures Represents(p, s, Add(p, d, a, b))
  {
    var c, t, n, m := Add(p, d, a, b), Twist(d, a, b), XNumerator(a, b), YNumerator(a, b);
    assert Satisfies(p, d, a) && Satisfies(p, d, b);
    AddIsSum(p, d, i, a, b);
    Complete(p, d, i, a, b);
    assert Cong(p, (1 + t) * c.x, n) && Cong(p, (1 - t) * c.y, m);
    hide *;
    var k := (w * w) * ((1 - t) * (1 + t));
    ScaledCross(p, w, e, f, n, 1 - t);
    ScaledCross(p, w, g, h, 1 + t, m);
    ScaledCross(p, w, f, g, 1 - t, 1 + t);
    ScaledCross(p, w, e, h, n, m);
    CoordinateFromSum(p, w * w, 1 + t, 1 - t, c.x, n);
    CoordinateFromSum(p, w * w, 1 - t, 1 + t, c.y, m);
    assert (1 + t) * (1 - t) == (1 - t) * (1 + t) && (1 + t) * m == m * (1 + t);
    ProductFromSum(p, w * w, 1 + t, 1 - t, c.x, c.y, n, m);
    CongTrans(p, s.Z, f * g, k);
    TimesDenominator(p, s.X, e * f, (w * w) * (n * (1 - t)), k, s.Z, c.x);
    TimesDenominator(p, s.Y, g * h, (w * w) * (m * (1 + t)), k, s.Z, c.y);
    TimesDenominator(p, s.T, e * h, (w * w) * (n * m), k, s.Z, c.x * c.y);
    Euclid(p, w, w);
    Euclid(p, 1 - t, 1 + t);
    Euclid(p, w * w, (1 - t) * (1 + t));
    CongZero(p, s.Z, k);
    RepresentsIntro(p, s, c);
  }

  lemma TimesDenominator(p: int, x: int, e: int, v: int, k: int, z: int, c: int)
    requires p > 0 && Cong(p, x, e) && Cong(p, e, v) && Cong(p, v, k * c) && Cong(p, z, k)
    ensures Cong(p, x, z * c)
  {
    hide *;
    CongTrans(p, x, e, v);
    CongTrans(p, x, v, k * c);
    CongRefl(p, c);
    CongSym(p, z, k);
    CongMul(p, k, z, c, c);
    CongTrans(p, x, k * c, z * c);
  }

  lemma RepresentsIntro(p: int, s: Extended, c: Affine)
    requires p > 0 && !Zero(p, s.Z)
    requires Cong(p, s.X, s.Z * c.x) && Cong(p, s.Y, s.Z * c.y) && Cong(p, s.T, s.Z * (c.x * c.y))
    ensures Represents(p, s, c)
  {
  }

  lemma DoubleNonzero(p: int, z: int)
    requires p > 2 && IsPrime(p) && !Zero(p, z)
    ensures !Zero(p, 2 * z)
  {
    NonzeroBelow(p, 2);
    Euclid(p, 2, z);
  }

  /** The source's formulas compute the affine sum, for inputs that represent curve points. */
  lemma FormulasRepresentSum(p: int, d: int, i: int, q: Extended, r: Extended, a: Affine, b: Affine,
                             k: int, l: int, m: int, n: int, s: Extended)
    requires Curve(p, d, i) && OnCurve(p, d, a) && OnCurve(p, d, b) && Represents(p, q, a) && Represents(p, r, b)
    requires Cong(p, k, (q.Y - q.X) * (r.Y - r.X)) && Cong(p, l, (q.Y + q.X) * (r.Y + r.X))
    requires Cong(p, m, 2 * q.T * r.T * d) && Cong(p, n, 2 * q.Z * r.Z)
    requires Cong(p, s.X, (l - k) * (n - m)) && Cong(p, s.Y, (n + m) * (l + k))
    requires Cong(p, s.Z, (n - m) * (n + m)) && Cong(p, s.T, (l - k) * (l + k))
    ensures Represents(p, s, Add(p, d, a, b))
  {
    var z := q.Z * r.Z;
    assert p > 2 && IsPrime(p) && !Zero(p, q.Z) && !Zero(p, r.Z);
    hide *;
    SumsOfProducts(p, d, q, r, a, b, z, k, l, m, n);
    Euclid(p, q.Z, r.Z);
    DoubleNonzero(p, z);
    ProductsRepresent(p, d, i, a, b, 2 * z, l - k, n - m, n + m, l + k, s);
  }
}
