/** Integer polynomial identities behind the group law of the twisted Edwards curve
    -x^2 + y^2 = 1 + d x^2 y^2. Each one writes an expression that has to vanish modulo the
    field prime as a combination of the curve errors of the points involved. */
module EdwardsIdentities {
  import opened Ring

  /** Zero exactly on the curve: the right-hand side less the left-hand side. */
  function CurveError(d: int, x: int, y: int): int {
    1 + d * ((x * y) * (x * y)) - (y * y - x * x)
  }

  // ---- Completeness: no denominator vanishes ----

  lemma SquareOfRotated(i: int, x: int, y: int)
    ensures (i * x + y) * (i * x + y) == (i * i + 1) * (x * x) + (y * y - x * x) + (2 * i) * (x * y)
  {
  }

  /** If d (x1 y1)(x2 y2) were 1, d would be the square of b / (u c) for these b, u and c. */
  lemma CompletenessIdentity(d: int, i: int, x1: int, y1: int, x2: int, y2: int)
    ensures
      var u, v, b, c := x1 * y1, x2 * y2, i * x1 + y1, i * x2 + y2;
      b * b - d * ((u * c) * (u * c)) ==
        (x1 * x1 - (d * (u * u)) * (x2 * x2)) * (i * i + 1)
        + ((d * (u * u)) * CurveError(d, x2, y2) - CurveError(d, x1, y1))
        - (d * (u * v) + 1 + (2 * i) * u) * (d * (u * v) - 1)
  {
    var u, v, b, c := x1 * y1, x2 * y2, i * x1 + y1, i * x2 + y2;
    SquareOfRotated(i, x1, y1);
    SquareOfRotated(i, x2, y2);
    Interchange(u, c, u, c);
    Regroup(d, u * u, c * c);
    CompletenessTwist(d, u, v, 2 * i);
    CompletenessStep(d * (u * u), d * (u * v), 2 * i, u, v, i * i + 1, x1 * x1, x2 * x2,
                     y1 * y1 - x1 * x1, y2 * y2 - x2 * x2, d * (v * v));
  }

  lemma CompletenessTwist(d: int, u: int, v: int, j: int)
    ensures (d * (u * u)) * (j * v) == j * u * (d * (u * v))
    ensures (d * (u * u)) * (d * (v * v)) == (d * (u * v)) * (d * (u * v))
  {
  }

  lemma CompletenessExpandSquare(w: int, j: int, q: int, p: int, k: int)
    ensures w * (j * q + p + k) == w * (j * q) + w * p + w * k
  {
  }

  lemma CompletenessExpandError(w: int, x: int, p: int)
    ensures w * (1 + x - p) == w + w * x - w * p
  {
  }

  lemma CompletenessExpandTwist(t: int, k: int)
    ensures (t + 1 + k) * (t - 1) == t * t - 1 + k * t - k
  {
  }

  lemma CompletenessExpandRoot(q1: int, w: int, q2: int, j: int)
    ensures (q1 - w * q2) * j == j * q1 - w * (j * q2)
  {
  }

  lemma CompletenessStep(w: int, t: int, k: int, u: int, v: int, j: int, q1: int, q2: int, p1: int, p2: int, z: int)
    requires w * (k * v) == k * u * t && w * z == t * t
    ensures (j * q1 + p1 + k * u) - w * (j * q2 + p2 + k * v) ==
      (q1 - w * q2) * j + (w * (1 + z - p2) - (1 + w - p1)) - (t + 1 + k * u) * (t - 1)
  {
    CompletenessExpandSquare(w, j, q2, p2, k * v);
    CompletenessExpandError(w, z, p2);
    CompletenessExpandTwist(t, k * u);
    CompletenessExpandRoot(q1, w, q2, j);
  }

  // ---- Closure of the sum of two points ----

  lemma SquareOfNorm(x: int, y: int)
    ensures (x * x + y * y) * (x * x + y * y) == (y * y - x * x) * (y * y - x * x) + 4 * ((x * y) * (x * y))
  {
  }

  lemma CrossProduct(x: int, y: int, z: int, w: int)
    ensures (x + y) * (z + w) == x * z + y * w + x * w + y * z
  {
  }

  lemma SquareOut(a: int, b: int, c: int)
    ensures (a * b) * (c * a) == (c * b) * (a * a) && (a * b) * (b * c) == (a * c) * (b * b)
  {
  }

  /** The product of the numerators x1 y2 + x2 y1 and y1 y2 + x1 x2 of a sum. */
  lemma NumeratorProduct(x1: int, y1: int, x2: int, y2: int)
    ensures (x1 * y2 + x2 * y1) * (y1 * y2 + x1 * x2)
      == (x1 * y1) * (x2 * x2 + y2 * y2) + (x2 * y2) * (x1 * x1 + y1 * y1)
  {
    CrossProduct(x1 * y2, x2 * y1, y1 * y2, x1 * x2);
    Interchange(x1, y2, y1, y2);
    Interchange(x1, y2, x1, x2);
    SquareOut(x2, y1, x1);
    SquareOut(x2, y1, y2);
    assert y2 * x2 == x2 * y2;
    assert (x1 * x1) * (x2 * y2) == (x2 * y2) * (x1 * x1);
    Distribute(x1 * y1, x2 * x2, y2 * y2);
    Distribute(x2 * y2, x1 * x1, y1 * y1);
  }

  lemma ProductOfDifferences(x: int, y: int, z: int, w: int)
    ensures (y - x) * (w - z) == y * w + x * z - x * w - z * y
    ensures (x + y) * (z + w) == y * w + x * z + x * w + z * y
  {
  }

  /** The squares of the numerators a = x1 y2 + x2 y1 and b = y1 y2 + x1 x2 of a sum. */
  lemma NumeratorSquares(x1: int, y1: int, x2: int, y2: int)
    ensures var a, b := x1 * y2 + x2 * y1, y1 * y2 + x1 * x2;
      && a * a - b * b == -((y1 * y1 - x1 * x1) * (y2 * y2 - x2 * x2))
      && a * a + b * b == (x1 * x1 + y1 * y1) * (x2 * x2 + y2 * y2) + 4 * ((x1 * y1) * (x2 * y2))
  {
    SquareOfSum(x1, y2, x2, y1);
    SquareOfSum(y1, y2, x1, x2);
    ProductOfDifferences(x1 * x1, y1 * y1, x2 * x2, y2 * y2);
    Interchange(x1, y1, x2, y2);
    Interchange(x1, x2, y1, y2);
    CrossTerms(x1, y1, x2, y2);
  }

  lemma CrossTerms(x1: int, y1: int, x2: int, y2: int)
    ensures (x1 * y2) * (x2 * y1) == (x1 * y1) * (x2 * y2)
    ensures (y1 * y2) * (x1 * x2) == (x1 * y1) * (x2 * y2)
  {
  }

  lemma FactorStep(p: int, a: int, w: int, q: int, c: int)
    ensures (p - a) * (w * (p + a) - q * c) == w * (p * p) - w * (a * a) - (p * q) * c + (a * q) * c
  {
  }

  lemma ExpandAtCurve(w1: int, w2: int)
    ensures (1 - w1 * w2) * (1 - w1 * w2)
      == ((1 + w2) * (1 + w1)) * (1 + w1 * w2) - w2 * ((1 + w1) * (1 + w1)) - w1 * ((1 + w2) * (1 + w2))
  {
  }

  /** A polynomial that vanishes when p1 = 1 + w1 and p2 = 1 + w2: with a, b and c for
      1 + w1, 1 + w2 and 1 + w1 w2, the two differences divide it. */
  lemma FactorAtCurve(w1: int, w2: int, p1: int, p2: int, a: int, b: int, c: int)
    requires a == 1 + w1 && b == 1 + w2 && c == 1 + w1 * w2
    ensures w1 * (p2 * p2) + w2 * (p1 * p1) - (p1 * p2) * c + (1 - w1 * w2) * (1 - w1 * w2)
      == (p1 - a) * (w2 * (p1 + a) - p2 * c) + (p2 - b) * (w1 * (p2 + b) - a * c)
  {
    FactorStep(p1, a, w2, p2, c);
    FactorStep(p2, b, w1, a, c);
    ExpandAtCurve(w1, w2);
    assert a * p2 == p2 * a;
  }

  lemma TwistedDifference(aa: int, bb: int, t: int)
    ensures aa * ((1 - t) * (1 - t)) - bb * ((1 + t) * (1 + t)) == (aa - bb) * (1 + t * t) - 2 * (t * (aa + bb))
  {
  }

  lemma SquareOfCross(d: int, u1: int, u2: int, s1: int, s2: int)
    ensures d * ((u1 * s2 + u2 * s1) * (u1 * s2 + u2 * s1))
      == (d * (u1 * u1)) * (s2 * s2) + (d * (u2 * u2)) * (s1 * s1) + 2 * ((d * (u1 * u2)) * (s2 * s1))
  {
    SquareOfSum(u1, s2, u2, s1);
    Interchange(u1, s2, u2, s1);
    Distribute3(d, (u1 * u1) * (s2 * s2), (u2 * u2) * (s1 * s1), (u1 * u2) * (s2 * s1));
    Regroup(d, u1 * u1, s2 * s2);
    Regroup(d, u2 * u2, s1 * s1);
    Regroup(d, u1 * u2, s2 * s1);
  }

  lemma TwistSquared(d: int, u1: int, u2: int)
    ensures (d * (u1 * u2)) * (d * (u1 * u2)) == (d * (u1 * u1)) * (d * (u2 * u2))
  {
  }

  lemma TwistTimes(d: int, u1: int, u2: int)
    ensures (d * (u1 * u2)) * (u1 * u2) == (d * (u1 * u1)) * (u2 * u2)
    ensures (d * (u1 * u1)) * (u2 * u2) == (d * (u2 * u2)) * (u1 * u1)
  {
  }

  /** The curve error of the sum (a / (1+t), b / (1-t)), cleared of its denominators, in
      terms of w = d (xy)^2 and p = y^2 - x^2 of the two points. */
  lemma ClosureIdentity(d: int, x1: int, y1: int, x2: int, y2: int)
    ensures
      var a, b, t := x1 * y2 + x2 * y1, y1 * y2 + x1 * x2, d * ((x1 * y1) * (x2 * y2));
      var w1, w2 := d * ((x1 * y1) * (x1 * y1)), d * ((x2 * y2) * (x2 * y2));
      var p1, p2 := y1 * y1 - x1 * x1, y2 * y2 - x2 * x2;
      (1 - t * t) * (1 - t * t) + d * ((a * b) * (a * b)) + (a * a) * ((1 - t) * (1 - t)) - (b * b) * ((1 + t) * (1 + t))
      == w1 * (p2 * p2) + w2 * (p1 * p1) - (p1 * p2) * (1 + w1 * w2) + (1 - w1 * w2) * (1 - w1 * w2)
  {
    var a, b := x1 * y2 + x2 * y1, y1 * y2 + x1 * x2;
    SquareOfNorm(x1, y1);
    SquareOfNorm(x2, y2);
    NumeratorProduct(x1, y1, x2, y2);
    NumeratorSquares(x1, y1, x2, y2);
    ClosureStep(d, x1 * y1, x2 * y2, y1 * y1 - x1 * x1, y2 * y2 - x2 * x2,
                x1 * x1 + y1 * y1, x2 * x2 + y2 * y2, a * b, a * a, b * b);
  }

  lemma ClosureStep(d: int, u1: int, u2: int, p1: int, p2: int, s1: int, s2: int, ab: int, aa: int, bb: int)
    requires s1 * s1 == p1 * p1 + 4 * (u1 * u1) && s2 * s2 == p2 * p2 + 4 * (u2 * u2)
    requires ab == u1 * s2 + u2 * s1 && aa - bb == -(p1 * p2) && aa + bb == s1 * s2 + 4 * (u1 * u2)
    ensures var w1, w2, t := d * (u1 * u1), d * (u2 * u2), d * (u1 * u2);
      (1 - t * t) * (1 - t * t) + d * (ab * ab) + aa * ((1 - t) * (1 - t)) - bb * ((1 + t) * (1 + t))
      == w1 * (p2 * p2) + w2 * (p1 * p1) - (p1 * p2) * (1 + w1 * w2) + (1 - w1 * w2) * (1 - w1 * w2)
  {
    var w1, w2, t := d * (u1 * u1), d * (u2 * u2), d * (u1 * u2);
    TwistedDifference(aa, bb, t);
    SquareOfCross(d, u1, u2, s1, s2);
    assert s1 * s2 == s2 * s1;
    TwistSquared(d, u1, u2);
    TwistTimes(d, u1, u2);
    ClosureSum(w1, w2, t, s2 * s1, s1 * s1, s2 * s2, p1 * p1, p2 * p2, p1 * p2, u1 * u1, u2 * u2, u1 * u2, aa, bb);
  }

  lemma ClosureSum(w1: int, w2: int, t: int, ss: int, s11: int, s22: int, p11: int, p22: int, pp: int,
                   u11: int, u22: int, uu: int, aa: int, bb: int)
    requires s11 == p11 + 4 * u11 && s22 == p22 + 4 * u22
    requires aa - bb == -pp && aa + bb == ss + 4 * uu
    requires t * t == w1 * w2 && t * uu == w1 * u22 == w2 * u11
    ensures w1 * s22 + w2 * s11 + 2 * (t * ss) + (aa - bb) * (1 + t * t) - 2 * (t * (aa + bb))
      == w1 * p22 + w2 * p11 - pp * (1 + w1 * w2)
  {
    DistributeFour(w1, p22, u22);
    DistributeFour(w2, p11, u11);
    DistributeFour(t, ss, uu);
    Negated(pp, 1 + t * t);
  }

  lemma ClearedProduct(x: int, y: int, q: int, r: int)
    ensures (x * y) * (x * y) * ((q * r) * (q * r)) == ((q * x) * (r * y)) * ((q * x) * (r * y))
  {
    Interchange(q, x, r, y);
    Interchange(q * r, x * y, q * r, x * y);
  }

  lemma ClearedSquare(x: int, q: int, r: int)
    ensures (x * x) * ((q * r) * (q * r)) == ((q * x) * (q * x)) * (r * r)
  {
    Interchange(q, r, q, r);
    Interchange(q, x, q, x);
    Regroup(x * x, q * q, r * r);
    assert (x * x) * (q * q) == (q * q) * (x * x);
  }

  lemma DistributeError(k: int, w: int, y: int, x: int)
    ensures (1 + w - (y - x)) * k == k + w * k - y * k + x * k
  {
  }

  /** The curve error of a point with its coordinates cleared of denominators q and r. */
  lemma ClearedError(d: int, x: int, y: int, q: int, r: int)
    ensures CurveError(d, x, y) * ((q * r) * (q * r))
      == (q * r) * (q * r) + d * (((q * x) * (r * y)) * ((q * x) * (r * y)))
         + ((q * x) * (q * x)) * (r * r) - ((r * y) * (r * y)) * (q * q)
  {
    var k := (q * r) * (q * r);
    ClearedProduct(x, y, q, r);
    Regroup(d, (x * y) * (x * y), k);
    ClearedSquare(x, q, r);
    ClearedSquare(y, r, q);
    assert q * r == r * q;
    DistributeError(k, d * ((x * y) * (x * y)), y * y, x * x);
  }

  // ---- Associativity of the x-coordinate ----

  lemma PivotProducts(m: int, n: int, q: int, r: int)
    ensures (m + n) * (q + r) - (m - n) * (r - q) == 2 * (m * q) + 2 * (n * r)
    ensures (m + n) * (r - q) - (m - n) * (q + r) == 2 * (n * r) - 2 * (m * q)
  {
  }

  lemma PivotTerms(a: int, b: int, x: int, y: int)
    ensures (a * y) * (x * x) == (x * y) * (a * x)
    ensures (b * x) * (y * y) == (x * y) * (b * y)
  {
  }

  /** With s = x^2 + y^2 and p = y^2 - x^2, how the forms f = a y + b x and h = a y - b x meet. */
  lemma Pivot(a: int, b: int, x: int, y: int, f: int, h: int, g: int, m: int)
    requires f == a * y + b * x && h == a * y - b * x && g == a * x + b * y && m == b * y - a * x
    ensures f * (x * x + y * y) - h * (y * y - x * x) == 2 * ((x * y) * g)
    ensures f * (y * y - x * x) - h * (x * x + y * y) == 2 * ((x * y) * m)
  {
    PivotProducts(a * y, b * x, x * x, y * y);
    PivotTerms(a, b, x, y);
    Distribute(x * y, a * x, b * y);
    Distribute(x * y, b * y, a * x);
  }

  lemma BracketSum(a: int, b: int, c: int, e: int, z: int)
    ensures (a * b + c * e) * z == a * b * z + c * e * z
    ensures (a * b - c * e) * z == a * b * z - c * e * z
  {
  }

  /** The trilinear forms of three points, bracketed to the left, right and middle. */
  lemma TrilinearForms(x1: int, y1: int, x2: int, y2: int, x3: int, y3: int)
    ensures
      var a, b, c, e := x1 * y2 + x2 * y1, y1 * y2 + x1 * x2, x2 * y3 + x3 * y2, y2 * y3 + x2 * x3;
      var v, w := y1 * y3 - x1 * x3, x1 * y3 - x3 * y1;
      && a * y3 + b * x3 == c * y1 + e * x1
      && a * x3 + b * y3 == c * x1 + e * y1
      && a * y3 - b * x3 == w * y2 + v * x2
      && c * y1 - e * x1 == v * x2 - w * y2
      && b * y3 - a * x3 == v * y2 + w * x2
      && e * y1 - c * x1 == v * y2 - w * x2
  {
    BracketSum(x1, y2, x2, y1, y3);
    BracketSum(x1, y2, x2, y1, x3);
    BracketSum(y1, y2, x1, x2, y3);
    BracketSum(y1, y2, x1, x2, x3);
    BracketSum(x2, y3, x3, y2, y1);
    BracketSum(x2, y3, x3, y2, x1);
    BracketSum(y2, y3, x2, x3, y1);
    BracketSum(y2, y3, x2, x3, x1);
    BracketSum(y1, y3, x1, x3, x2);
    BracketSum(y1, y3, x1, x3, y2);
    BracketSum(x1, y3, x3, y1, x2);
    BracketSum(x1, y3, x3, y1, y2);
    Reorder(x1, y2, y3);
    Reorder(x2, y1, y3);
    Reorder(x1, y2, x3);
    Reorder(x2, y1, x3);
    Reorder(y1, y2, y3);
    Reorder(x1, x2, y3);
    Reorder(y1, y2, x3);
    Reorder(x1, x2, x3);
  }

  /** How the trilinear forms f, g, h, l, m and n of three points are related. */
  lemma TrilinearRelations(x1: int, y1: int, x2: int, y2: int, x3: int, y3: int,
                           a: int, b: int, c: int, e: int, f: int, g: int, h: int, l: int, m: int, n: int)
    requires a == x1 * y2 + x2 * y1 && b == y1 * y2 + x1 * x2
    requires c == x2 * y3 + x3 * y2 && e == y2 * y3 + x2 * x3
    requires f == a * y3 + b * x3 && g == a * x3 + b * y3
    requires h == a * y3 - b * x3 && l == c * y1 - e * x1
    requires m == b * y3 - a * x3 && n == e * y1 - c * x1
    ensures f == c * y1 + e * x1
    ensures f * (x3 * x3 + y3 * y3) - h * (y3 * y3 - x3 * x3) == 2 * ((x3 * y3) * g)
    ensures f * (y3 * y3 - x3 * x3) - h * (x3 * x3 + y3 * y3) == 2 * ((x3 * y3) * m)
    ensures f * (x1 * x1 + y1 * y1) - l * (y1 * y1 - x1 * x1) == 2 * ((x1 * y1) * g)
    ensures f * (y1 * y1 - x1 * x1) - l * (x1 * x1 + y1 * y1) == 2 * ((x1 * y1) * n)
    ensures h * (y2 * y2 - x2 * x2) + l * (x2 * x2 + y2 * y2) == 2 * ((x2 * y2) * n)
    ensures l * (y2 * y2 - x2 * x2) + h * (x2 * x2 + y2 * y2) == 2 * ((x2 * y2) * m)
  {
    TrilinearForms(x1, y1, x2, y2, x3, y3);
    Pivot(a, b, x3, y3, f, h, g, m);
    Pivot(c, e, x1, y1, f, l, g, n);
    var v, w := y1 * y3 - x1 * x3, x1 * y3 - x3 * y1;
    Pivot(w, v, x2, y2, h, -l, w * x2 + v * y2, n);
    Negated(l, x2 * x2 + y2 * y2);
    Negated(w, y2);
    Negated(w, x2);
    Pivot(-w, v, x2, y2, l, -h, v * y2 - w * x2, m);
    Negated(h, x2 * x2 + y2 * y2);
  }

  lemma FirstTermInner(f: int, u2: int, w1: int, w3: int, p1: int, p3: int)
    ensures f * (u2 * (w1 * p3 - w3 * p1)) == (u2 * w1) * (f * p3) - (u2 * w3) * (f * p1)
  {
  }

  lemma FirstTermOuter(f: int, u1: int, u3: int, s1: int, s3: int, k: int)
    ensures f * (u1 * s3 - u3 * s1 + k) == u1 * (f * s3) - u3 * (f * s1) + f * k
  {
  }

  lemma TwistTerm(d: int, u: int, k: int)
    ensures u * (d * (u * k)) == (d * (u * u)) * k
  {
  }

  lemma OuterTermExpand(u: int, l: int, p: int, w: int, q: int, k: int)
    ensures u * (l * (p - w * q + k)) == u * (l * p) - (u * w) * (l * q) + l * (u * k)
  {
  }

  lemma OuterTermInner(l: int, w: int, u1: int, u2: int, s1: int, s2: int)
    ensures l * (w * (u1 * s2 + u2 * s1)) == (u1 * w) * (l * s2) + (u2 * w) * (l * s1)
  {
  }

  lemma OuterTerm(d: int, l: int, u1: int, u2: int, u3: int, s1: int, s2: int, p1: int, p2: int, w1: int, w3: int)
    requires w3 == d * (u3 * u3)
    ensures u3 * (l * (p1 - w1 * p2 + d * (u3 * (u1 * s2 + u2 * s1))))
      == u3 * (l * p1) - (u3 * w1) * (l * p2) + (u1 * w3) * (l * s2) + (u2 * w3) * (l * s1)
  {
    TwistTerm(d, u3, u1 * s2 + u2 * s1);
    OuterTermExpand(u3, l, p1, w1, p2, d * (u3 * (u1 * s2 + u2 * s1)));
    OuterTermInner(l, w3, u1, u2, s1, s2);
  }

  lemma Double(k: int, u: int, g: int)
    ensures k * (2 * (u * g)) == 2 * ((k * u) * g)
  {
  }

  lemma Cancel(u1: int, u2: int, u3: int, w1: int, w3: int, g: int, m: int, n: int)
    ensures u1 * (2 * (u3 * g)) - u3 * (2 * (u1 * g))
      + (u2 * w1) * (2 * (u3 * m)) - (u2 * w3) * (2 * (u1 * n))
      + (u1 * w3) * (2 * (u2 * n)) - (u3 * w1) * (2 * (u2 * m)) == 0
  {
    Double(u1, u3, g);
    Double(u3, u1, g);
    assert u1 * u3 == u3 * u1;
    Double(u2 * w1, u3, m);
    Double(u3 * w1, u2, m);
    Reorder(u2, w1, u3);
    Double(u2 * w3, u1, n);
    Double(u1 * w3, u2, n);
    Reorder(u2, w3, u1);
  }

  lemma Collect(u1: int, u3: int, k: int, l: int, m: int, n: int, a: int, b: int, c: int, e: int, f: int, g: int,
                h: int, i: int, o: int, q: int, r: int, v: int)
    ensures (u1 * a - u3 * b + k * c - l * e) + (u3 * f - n * g + m * h + l * i) - (u1 * o - m * q + n * r + k * v)
      == u1 * (a - o) - u3 * (b - f) + k * (c - v) - l * (e - i) + m * (q + h) - n * (g + r)
  {
  }

  /** The exact vanishing that remains of the associativity equation once the curve errors
      of the three points are removed from it. */
  lemma AssociativityResidue(d: int, u1: int, u2: int, u3: int, s1: int, s2: int, s3: int, p1: int, p2: int, p3: int,
                             w1: int, w3: int, f: int, g: int, h: int, l: int, m: int, n: int)
    requires w1 == d * (u1 * u1) && w3 == d * (u3 * u3)
    requires f * s3 - h * p3 == 2 * (u3 * g) && f * p3 - h * s3 == 2 * (u3 * m)
    requires f * s1 - l * p1 == 2 * (u1 * g) && f * p1 - l * s1 == 2 * (u1 * n)
    requires h * p2 + l * s2 == 2 * (u2 * n) && l * p2 + h * s2 == 2 * (u2 * m)
    ensures f * (u1 * s3 - u3 * s1 + u2 * (w1 * p3 - w3 * p1))
      + u3 * (l * (p1 - w1 * p2 + d * (u3 * (u1 * s2 + u2 * s1))))
      - u1 * (h * (p3 - w3 * p2 + d * (u1 * (u3 * s2 + u2 * s3)))) == 0
  {
    FirstTermOuter(f, u1, u3, s1, s3, u2 * (w1 * p3 - w3 * p1));
    FirstTermInner(f, u2, w1, w3, p1, p3);
    OuterTerm(d, l, u1, u2, u3, s1, s2, p1, p2, w1, w3);
    OuterTerm(d, h, u3, u2, u1, s3, s2, p3, p2, w3, w1);
    Collect(u1, u3, u2 * w1, u2 * w3, u1 * w3, u3 * w1, f * s3, f * s1, f * p3, f * p1, l * p1, l * p2,
            l * s2, l * s1, h * p3, h * p2, h * s2, h * s3);
    Cancel(u1, u2, u3, w1, w3, g, m, n);
  }

  lemma NestedDenominator(d: int, x: int, y: int, q: int, r: int, t: int, u: int)
    requires q == 1 + t && r == 1 - t
    ensures (q * r) * (1 + d * ((x * y) * u)) == 1 - t * t + d * (((q * x) * (r * y)) * u)
  {
    Interchange(q, x, r, y);
    Rotate(q * r, d, (x * y) * u);
    Regroup(q * r, x * y, u);
    Distribute(q * r, 1, d * ((x * y) * u));
    assert (1 + t) * (1 - t) == 1 - t * t;
  }

  lemma NestedNumerator(x: int, y: int, q: int, r: int, u: int, v: int)
    ensures (q * r) * (x * v + u * y) == (r * v) * (q * x) + (q * u) * (r * y)
  {
    Distribute(q * r, x * v, u * y);
    assert (q * r) * (x * v) == (r * v) * (q * x);
    assert (q * r) * (u * y) == (q * u) * (r * y);
  }

  lemma DenominatorDifference(d: int, u1: int, u2: int, u3: int, s1: int, s2: int, s3: int)
    ensures d * (u1 * (u3 * s2 + u2 * s3)) - d * (u3 * (u1 * s2 + u2 * s1)) == (d * u2) * (u1 * s3 - u3 * s1)
  {
    CyclicDifference(u1, u2, u3, s1, s2, s3);
    Distribute(d, u1 * (u3 * s2 + u2 * s3), u3 * (u1 * s2 + u2 * s1));
    Regroup(d, u2, u1 * s3 - u3 * s1);
  }

  lemma CyclicDifference(u1: int, u2: int, u3: int, s1: int, s2: int, s3: int)
    ensures u1 * (u3 * s2 + u2 * s3) - u3 * (u1 * s2 + u2 * s1) == u2 * (u1 * s3 - u3 * s1)
  {
  }

  lemma DifferenceOfTwists(d: int, u1: int, u2: int, u3: int)
    ensures (d * (u1 * u1)) * (d * (u2 * u2)) - (d * (u2 * u2)) * (d * (u3 * u3))
      == (d * u2) * (u2 * (d * (u1 * u1) - d * (u3 * u3)))
  {
  }

  lemma ScaleOut(e: int, f: int, h: int, l: int, u1: int, u3: int, x: int, y: int, z: int)
    ensures f * (e * z) - (e * u1) * h * y + (e * u3) * l * x == e * (f * z + u3 * (l * x) - u1 * (h * y))
  {
  }

  lemma CrossExpand(t: int, r: int, f: int, h: int, l: int, x: int, y: int)
    ensures (f - t * h) * y - (f - r * l) * x == f * (y - x) - t * h * y + r * l * x
  {
  }

  lemma CrossCombine(e: int, u1: int, u3: int, f: int, h: int, l: int, x: int, y: int, z: int, t: int, r: int)
    requires y - x == e * z && t == e * u1 && r == e * u3
    ensures (f - t * h) * y - (f - r * l) * x == e * (f * z + u3 * (l * x) - u1 * (h * y))
  {
    CrossExpand(t, r, f, h, l, x, y);
    ScaleOut(e, f, h, l, u1, u3, x, y, z);
  }

  lemma Gap(e: int, m: int, n: int, x: int, y: int, tl: int, tr: int, kl: int, kr: int, z: int)
    requires x == 1 - tl + kl && y == 1 - tr + kr && tl - tr == e * m && kr - kl == e * n && z == m + n
    ensures y - x == e * z
  {
  }

  lemma RotateTwist(d: int, u: int, v: int)
    ensures d * (u * v) == (d * v) * u == (d * u) * v
  {
  }

  /** Cross-multiplying the two x-coordinates (f - t h) / dl and (f - r l) / dr leaves a
      multiple of d u2. */
  lemma CrossDifference(d: int, u1: int, u2: int, u3: int, s1: int, s2: int, s3: int,
                        f: int, h: int, l: int, dl: int, dr: int, z: int)
    requires dl == 1 - (d * (u1 * u1)) * (d * (u2 * u2)) + d * (u3 * (u1 * s2 + u2 * s1))
    requires dr == 1 - (d * (u2 * u2)) * (d * (u3 * u3)) + d * (u1 * (u3 * s2 + u2 * s3))
    requires z == u2 * (d * (u1 * u1) - d * (u3 * u3)) + (u1 * s3 - u3 * s1)
    ensures (f - (d * (u1 * u2)) * h) * dr - (f - (d * (u2 * u3)) * l) * dl
      == (d * u2) * (f * z + u3 * (l * dl) - u1 * (h * dr))
  {
    DenominatorDifference(d, u1, u2, u3, s1, s2, s3);
    DifferenceOfTwists(d, u1, u2, u3);
    Gap(d * u2, u2 * (d * (u1 * u1) - d * (u3 * u3)), u1 * s3 - u3 * s1, dl, dr,
        (d * (u1 * u1)) * (d * (u2 * u2)), (d * (u2 * u2)) * (d * (u3 * u3)),
        d * (u3 * (u1 * s2 + u2 * s1)), d * (u1 * (u3 * s2 + u2 * s3)), z);
    RotateTwist(d, u1, u2);
    RotateTwist(d, u2, u3);
    CrossCombine(d * u2, u1, u3, f, h, l, dl, dr, z, d * (u1 * u2), d * (u2 * u3));
  }

  lemma ErrorGapOuter(w1: int, w2: int, p1: int, p2: int, k: int)
    ensures (1 - w1 * w2 + k) - (p1 - w1 * p2 + k) == (1 + w1 - p1) - w1 * (1 + w2 - p2)
  {
  }

  lemma ErrorGapMiddle(u: int, w1: int, w3: int, p1: int, p3: int)
    ensures u * (w1 - w3) - u * (w1 * p3 - w3 * p1) == (u * w1) * (1 + w3 - p3) - (u * w3) * (1 + w1 - p1)
  {
  }
}
