/** The field operations of the source, connected to the group law. */
module Ed25519Points {
  import opened Options
  import opened Ring
  import opened Bytes
  import opened Modular
  import opened EdwardsIdentities
  import opened Edwards
  import opened ExtendedCoordinates
  import opened SquareRoots
  import opened Ed25519

  /** The facts about the fixed parameters that are taken as given: P is prime and D is not a
      square modulo P. */
  ghost predicate FieldPremises() {
    IsPrime(P) && forall r :: !IsRoot(P, D, r)
  }

  lemma {:induction false} RepeatedTop(n: nat, tail: seq<Byte>)
    ensures FromLittle(Repeat(0xff, n) + tail) == Pow256(n) - 1 + Pow256(n) * FromLittle(tail)
  {
    if n == 0 {
      assert Repeat(0xff, 0) + tail == tail;
    } else {
      RepeatedTop(n - 1, tail);
      var s := Repeat(0xff, n) + tail;
      assert s[0] == 0xff && s[1..] == Repeat(0xff, n - 1) + tail;
      Regroup(256, Pow256(n - 1), FromLittle(tail));
    }
  }

  lemma Pow256Of30()
    ensures 32768 * Pow256(30) == TWO_255
  {
    assert Pow256(8) == 0x1_0000_0000_0000_0000;
    assert Pow256(16) == 0x1_0000_0000_0000_0000 * 0x1_0000_0000_0000_0000;
    assert Pow256(24) == 0x1_0000_0000_0000_0000 * 0x1_0000_0000_0000_0000 * 0x1_0000_0000_0000_0000;
  }

  lemma {:induction false} RepeatedZero(n: nat, tail: seq<Byte>)
    ensures FromLittle(Repeat(0, n) + tail) == Pow256(n) * FromLittle(tail)
  {
    if n == 0 {
      assert Repeat(0, 0) + tail == tail;
    } else {
      RepeatedZero(n - 1, tail);
      var s := Repeat(0, n) + tail;
      assert s[0] == 0 && s[1..] == Repeat(0, n - 1) + tail;
      Regroup(256, Pow256(n - 1), FromLittle(tail));
    }
  }

  lemma EightBytes(a: Byte, b: Byte, c: Byte, d: Byte, e: Byte, f: Byte, g: Byte, h: Byte)
    ensures FromLittle([a, b, c, d, e, f, g, h])
         == a + 256 * (b + 256 * (c + 256 * (d + 256 * (e + 256 * (f + 256 * (g + 256 * h))))))
  {
    FourBytes(e, f, g, h);
    FourBytes(a, b, c, d);
    FromLittleConcat([a, b, c, d], [e, f, g, h]);
    assert [a, b, c, d] + [e, f, g, h] == [a, b, c, d, e, f, g, h];
    assert Pow256(4) == 0x1_0000_0000;
  }

  lemma FourBytes(a: Byte, b: Byte, c: Byte, d: Byte)
    ensures FromLittle([a, b, c, d]) == a + 256 * (b + 256 * (c + 256 * d))
  {
    assert [a, b, c, d][1..] == [b, c, d] && [b, c, d][1..] == [c, d] && [c, d][1..] == [d] && [d][1..] == [];
    assert FromLittle([d]) == d;
    assert FromLittle([c, d]) == c + 256 * FromLittle([d]);
    assert FromLittle([b, c, d]) == b + 256 * FromLittle([c, d]);
  }

  lemma Pow256Of8()
    ensures Pow256(8) == 0x1_0000_0000_0000_0000
  {
  }

  lemma LowBytes()
    ensures FromLittle([0xed, 0xd3, 0xf5, 0x5c, 0x1a, 0x63, 0x12, 0x58, 0xd6, 0x9c, 0xf7, 0xa2, 0xde, 0xf9, 0xde, 0x14])
         == 27742317777372353535851937790883648493
  {
    hide *;
    Pow256Of8();
    var s, t: seq<Byte> := [0xed, 0xd3, 0xf5, 0x5c, 0x1a, 0x63, 0x12, 0x58], [0xd6, 0x9c, 0xf7, 0xa2, 0xde, 0xf9, 0xde, 0x14];
    EightBytes(0xed, 0xd3, 0xf5, 0x5c, 0x1a, 0x63, 0x12, 0x58);
    EightBytes(0xd6, 0x9c, 0xf7, 0xa2, 0xde, 0xf9, 0xde, 0x14);
    FromLittleConcat(s, t);
    assert s + t == [0xed, 0xd3, 0xf5, 0x5c, 0x1a, 0x63, 0x12, 0x58, 0xd6, 0x9c, 0xf7, 0xa2, 0xde, 0xf9, 0xde, 0x14];
  }

  lemma OrderSplit(low: seq<Byte>)
    requires low == [0xed, 0xd3, 0xf5, 0x5c, 0x1a, 0x63, 0x12, 0x58, 0xd6, 0x9c, 0xf7, 0xa2, 0xde, 0xf9, 0xde, 0x14]
    ensures L == FromLittle(low + (Repeat(0, 15) + [0x10])) && |low| == 16
  {
    hide FromLittle, Repeat;
    assert low + Repeat(0, 15) + [0x10] == low + (Repeat(0, 15) + [0x10]);
  }

  lemma OrderNumbers()
    ensures FromLittle([0x10]) == 0x10
    ensures Pow256(15) == 0x1_0000_0000_0000_0000 * 0x100_0000_0000_0000
    ensures Pow256(16) == 0x1_0000_0000_0000_0000 * 0x1_0000_0000_0000_0000
  {
    Pow256Of8();
    assert Pow256(12) == 0x1_0000_0000_0000_0000 * 0x1_0000_0000;
  }

  /** The group order is 2^252 + 27742317777372353535851937790883648493. */
  lemma OrderValue()
    ensures L == 0x1000000000000000000000000000000014def9dea2f79cd65812631a5cf5d3ed
    ensures 8 * L == 0x8000000000000000000000000000000000000000000000000000000000000000 + 8 * 27742317777372353535851937790883648493
  {
    hide *;
    var low: seq<Byte> := [0xed, 0xd3, 0xf5, 0x5c, 0x1a, 0x63, 0x12, 0x58, 0xd6, 0x9c, 0xf7, 0xa2, 0xde, 0xf9, 0xde, 0x14];
    OrderSplit(low);
    OrderNumbers();
    LowBytes();
    FromLittleConcat(low, Repeat(0, 15) + [0x10]);
    RepeatedZero(15, [0x10]);
  }

  /** The field prime is 2^255 - 19. */
  lemma ConstantValues()
    ensures P == TWO_255 - 19
    ensures P == 0x7fffffffffffffffffffffffffffffffffffffffffffffffffffffffffffffed
  {
    var rest := Repeat(0xff, 30) + [0x7f];
    var s := [0xed] + Repeat(0xff, 30) + [0x7f];
    assert s[0] == 0xed && s[1..] == rest;
    RepeatedTop(30, [0x7f]);
    Pow256Of30();
    assert FromLittle([0x7f]) == 0x7f;
    hide Pow256, Repeat;
  }

  lemma Shapes()
    ensures P > 2 && P % 8 == 5 && P == 8 * ((P + 3) / 8) - 3 && P % 2 == 1 && P < TWO_255
    ensures 0 < L < TWO_255
  {
    ConstantValues();
    OrderValue();
  }

  lemma SquareStep(p: int, x: int, h: int, b: int)
    requires p > 0 && h == x % p
    ensures (h * h) % p == (x * x) % p && (((h * h) % p) * b) % p == ((x * x) * b) % p
  {
    CongMod(p, x);
    CongMul(p, x, h, x, h);
    CongMod(p, h * h);
    CongRefl(p, b);
    CongMul(p, h * h, (h * h) % p, b, b);
    CongMul(p, x * x, h * h, b, b);
    SameRemainder(p, x * x, h * h);
    SameRemainder(p, (x * x) * b, (h * h) * b);
    SameRemainder(p, (h * h) * b, ((h * h) % p) * b);
  }

  lemma SameRemainder(p: int, a: int, b: int)
    requires p > 0 && Cong(p, a, b)
    ensures a % p == b % p
  {
    CongruentIffSameRemainder(p, a, b);
  }

  lemma PowStep(p: int, b: int, e: nat, half: int)
    requires p > 0 && e > 0 && half == Pow(b, e / 2) % p
    ensures (if e % 2 == 1 then (((half * half) % p) * b) % p else (half * half) % p) == Pow(b, e) % p
  {
    var x := Pow(b, e / 2);
    SquareStep(p, x, half, b);
    PowAdd(b, e / 2, e / 2);
    if e % 2 == 1 {
      assert e / 2 + e / 2 == e - 1;
      assert Pow(b, e) == b * Pow(b, e - 1);
      assert Pow(b, e) == (x * x) * b;
    } else {
      assert e / 2 + e / 2 == e;
    }
  }

  lemma ModPowUnfold(b: int, e: nat)
    requires P > 0
    ensures ModPow(b, 0) == 1 % P
    ensures e > 0 ==>
      var half := ModPow(b, e / 2);
      ModPow(b, e) == if e % 2 == 1 then (((half * half) % P) * b) % P else (half * half) % P
  {
    hide P;
  }

  /** Powers by squaring are powers. */
  lemma {:induction false} ModPowIsPow(b: int, e: nat)
    requires P > 0
    ensures ModPow(b, e) == Pow(b, e) % P
    decreases e
  {
    hide P, ModPow;
    ModPowUnfold(b, e);
    if e > 0 {
      ModPowIsPow(b, e / 2);
      PowStep(P, b, e, ModPow(b, e / 2));
    }
  }

  lemma CurveHolds()
    requires FieldPremises()
    ensures P > 2 && Curve(P, D, I) && 0 <= D < P && 0 <= I < P
  {
    Shapes();
    CongMod(P, -121665 * ModPow(121666, P - 2));
    CongMod(P, Pow(2, (P - 1) / 4));
    ModPowIsPow(2, (P - 1) / 4);
    assert D == (-121665 * ModPow(121666, P - 2)) % P;
    assert I == Pow(2, (P - 1) / 4) % P;
    hide P, D, I, Zero, IsPrime, Pow, ModPow;
    RootOfMinusOne(P, I);
  }

  lemma CurvePointRange(p: int, d: int, i: int, a: Affine)
    requires p > 0 && Curve(p, d, i) && OnCurve(p, d, a)
    ensures IsPrime(p) && 0 <= a.x < p && 0 <= a.y < p && Satisfies(p, d, a) && Zero(p, i * i + 1)
  {
  }

  lemma PointAddParts(q: Extended, r: Extended, a: int, b: int, c: int, d: int)
    requires a == ((q.Y - q.X) * (r.Y - r.X)) % P && b == ((q.Y + q.X) * (r.Y + r.X)) % P
    requires c == (2 * q.T * r.T * D) % P && d == (2 * q.Z * r.Z) % P
    ensures PointAdd(q, r) == Extended(((b - a) * (d - c)) % P, ((d + c) * (b + a)) % P,
                                       ((d - c) * (d + c)) % P, ((b - a) * (b + a)) % P)
  {
    hide P, D;
  }

  /** _point_add computes the affine Edwards sum, for any representatives of curve points. */
  lemma PointAddCorrect(q: Extended, r: Extended, a: Affine, b: Affine)
    requires FieldPremises() && OnCurve(P, D, a) && OnCurve(P, D, b)
    requires Represents(P, q, a) && Represents(P, r, b)
    ensures OnCurve(P, D, Add(P, D, a, b)) && Represents(P, PointAdd(q, r), Add(P, D, a, b))
    ensures Reduced(P, PointAdd(q, r))
  {
    hide *;
    Shapes();
    CurveHolds();
    var k, l := (q.Y - q.X) * (r.Y - r.X), (q.Y + q.X) * (r.Y + r.X);
    var m, n := 2 * q.T * r.T * D, 2 * q.Z * r.Z;
    CongMod(P, k);
    CongMod(P, l);
    CongMod(P, m);
    CongMod(P, n);
    PointAddParts(q, r, k % P, l % P, m % P, n % P);
    var e, f, g, h := l % P - k % P, n % P - m % P, n % P + m % P, l % P + k % P;
    CongMod(P, e * f);
    CongMod(P, g * h);
    CongMod(P, f * g);
    CongMod(P, e * h);
    FormulasRepresentSum(P, D, I, q, r, a, b, k % P, l % P, m % P, n % P, PointAdd(q, r));
    AddOnCurve(P, D, I, a, b);
    ReducedIntro(P, PointAdd(q, r));
  }

  lemma ReducedIntro(p: int, q: Extended)
    requires 0 <= q.X < p && 0 <= q.Y < p && 0 <= q.Z < p && 0 <= q.T < p
    ensures Reduced(p, q)
  {
  }

  lemma NeutralRepresented()
    ensures P > 2 && Represents(P, Extended(0, 1, 1, 0), NEUTRAL) && Reduced(P, Extended(0, 1, 1, 0))
  {
    ZeroMultiple(P, 0);
    NonzeroBelow(P, 1);
  }

  /** One halving step of the double-and-add recursion. */
  lemma ScalarMulStep(q: Extended, e: nat)
    requires e > 0
    ensures var twice := PointAdd(ScalarMul(q, e / 2), ScalarMul(q, e / 2));
      ScalarMul(q, e) == if e % 2 == 1 then PointAdd(twice, q) else twice
  {
    hide PointAdd;
  }

  lemma TimesStep(h: nat, e: nat, a: Affine)
    requires P > 2 && h == e / 2 && e > 0
    ensures Times(P, D, e, a) == if e % 2 == 1 then Add(P, D, Times(P, D, h + h, a), a) else Times(P, D, h + h, a)
  {
    hide P, D, Add;
    assert h + h == if e % 2 == 1 then e - 1 else e;
  }

  lemma ScalarMulZero(q: Extended, a: Affine)
    ensures P > 2 && ScalarMul(q, 0) == Extended(0, 1, 1, 0) && Times(P, D, 0, a) == NEUTRAL
    ensures OnCurve(P, D, NEUTRAL) && Represents(P, ScalarMul(q, 0), NEUTRAL) && Reduced(P, ScalarMul(q, 0))
  {
    hide D, Pow, ModPow;
    NeutralRepresented();
    NeutralOnCurve(P, D);
  }

  /** _scalar_mul computes the e-fold affine sum. */
  lemma {:induction false} ScalarMulCorrect(q: Extended, a: Affine, e: nat)
    requires FieldPremises() && OnCurve(P, D, a) && Represents(P, q, a)
    ensures OnCurve(P, D, Times(P, D, e, a)) && Represents(P, ScalarMul(q, e), Times(P, D, e, a))
    ensures Reduced(P, ScalarMul(q, e))
    decreases e
  {
    if e == 0 {
      ScalarMulZero(q, a);
    } else {
      hide *;
      Shapes();
      CurveHolds();
      var h := e / 2;
      ScalarMulCorrect(q, a, h);
      var half, m := ScalarMul(q, h), Times(P, D, h, a);
      PointAddCorrect(half, half, m, m);
      TimesAdd(P, D, I, h, h, a);
      ScalarMulStep(q, e);
      TimesStep(h, e, a);
      if e % 2 == 1 {
        PointAddCorrect(PointAdd(half, half), q, Times(P, D, h + h, a), a);
      }
    }
  }

  // ---- Encoding ----

  lemma InverseIsModPow(z: int)
    requires P > 2
    ensures Inverse(P, z) == ModPow(z, P - 2)
  {
    hide P, Pow, ModPow;
    ModPowIsPow(z, P - 2);
  }

  lemma RepresentedParts(q: Extended, a: Affine)
    requires P > 0 && Represents(P, q, a)
    ensures !Zero(P, q.Z) && Cong(P, q.X, q.Z * a.x) && Cong(P, q.Y, q.Z * a.y)
  {
    hide P;
  }

  lemma PrimeFromCurve(p: int, d: int, i: int)
    requires Curve(p, d, i)
    ensures IsPrime(p)
  {
  }

  /** Dividing a represented point by its Z gives back the affine coordinates. */
  lemma Dehomogenize(q: Extended, a: Affine)
    requires FieldPremises() && Represents(P, q, a) && 0 <= a.x < P && 0 <= a.y < P
    ensures var zinv := ModPow(q.Z, P - 2); (q.X * zinv) % P == a.x && (q.Y * zinv) % P == a.y
  {
    RepresentedParts(q, a);
    hide *;
    Shapes();
    CurveHolds();
    var zinv := ModPow(q.Z, P - 2);
    InverseIsModPow(q.Z);
    PrimeFromCurve(P, D, I);
    InverseCorrect(P, q.Z);
    DivideOut(P, q.X, q.Z, a.x, zinv);
    DivideOut(P, q.Y, q.Z, a.y, zinv);
  }

  lemma DivideOut(p: int, x: int, z: int, a: int, v: int)
    requires 0 <= a < p && Cong(p, x, z * a) && Cong(p, z * v, 1)
    ensures (x * v) % p == a
  {
    hide *;
    CongRefl(p, v);
    CongMul(p, x, z * a, v, v);
    CongScale(p, a, z * v, 1);
    assert (z * a) * v == a * (z * v);
    CongTrans(p, x * v, a * (z * v), a * 1);
    CongMod(p, x * v);
    CongTrans(p, (x * v) % p, x * v, a);
    CongReduced(p, (x * v) % p, a);
  }

  lemma Pow256Is()
    ensures Pow256(32) == 2 * TWO_255
  {
    assert Pow256(8) == 0x1_0000_0000_0000_0000;
    assert Pow256(16) == 0x1_0000_0000_0000_0000 * 0x1_0000_0000_0000_0000;
    assert Pow256(24) == 0x1_0000_0000_0000_0000 * 0x1_0000_0000_0000_0000 * 0x1_0000_0000_0000_0000;
  }

  /** The integer that the encoding of a curve point stands for. */
  function EncodedValue(a: Affine): int {
    a.y + (a.x % 2) * TWO_255
  }

  lemma EncodedValueRange(a: Affine)
    requires 0 <= a.y < TWO_255
    ensures 0 <= EncodedValue(a) < 2 * TWO_255
  {
    hide TWO_255;
  }

  lemma EncodeUnfold(q: Extended, a: Affine)
    requires P > 2 && 0 <= a.y < TWO_255
    requires var zinv := ModPow(q.Z, P - 2); (q.X * zinv) % P == a.x && (q.Y * zinv) % P == a.y
    ensures 0 <= EncodedValue(a) && EncodePoint(q) == ToLittle(EncodedValue(a), 32)
  {
    EncodedValueRange(a);
    hide P, TWO_255, ModPow, ToLittle;
  }

  /** _encode_point depends only on the affine point and stores y and the parity of x. */
  lemma EncodeCorrect(q: Extended, a: Affine)
    requires FieldPremises() && Represents(P, q, a) && 0 <= a.x < P && 0 <= a.y < P
    ensures FromLittle(EncodePoint(q)) == EncodedValue(a)
  {
    hide *;
    Shapes();
    Dehomogenize(q, a);
    Pow256Is();
    EncodeUnfold(q, a);
    EncodedValueRange(a);
    FromToLittle(EncodedValue(a), 32);
  }

  // ---- Recovering x and decoding ----

  /** The denominator d y^2 + 1 of the recovery never vanishes. */
  lemma RecoveryDenominator(p: int, d: int, i: int, y: int)
    requires Curve(p, d, i)
    ensures !Zero(p, d * y * y + 1)
  {
    if Zero(p, d * y * y + 1) {
      assert Cong(p, i * i, d * (y * y)) by {
        hide Zero;
        assert d * y * y == d * (y * y);
        ZeroAdd(p, i * i + 1, d * y * y + 1);
      }
      NotASquare(p, d, i, y, i);
      assert Zero(p, 1) by {
        hide Zero;
        ZeroMul(p, d * y, y);
        ZeroAdd(p, d * y * y + 1, d * y * y);
      }
      NonzeroBelow(p, 1);
    }
  }

  lemma RecoveryIdentity(d: int, x: int, y: int)
    ensures (d * y * y + 1) * (x * x) - (y * y - 1) == CurveError(d, x, y)
  {
    assert (d * y * y + 1) * (x * x) == d * ((x * y) * (x * y)) + x * x;
  }

  /** For y on the curve, (y^2 - 1) / (d y^2 + 1) is the square of x; and conversely. */
  lemma RecoverySquare(p: int, d: int, i: int, x: int, y: int)
    requires Curve(p, d, i)
    ensures Satisfies(p, d, Affine(x, y)) <==> Cong(p, (y * y - 1) * Inverse(p, d * y * y + 1), x * x)
  {
    var k, n := d * y * y + 1, y * y - 1;
    var v := Inverse(p, k);
    RecoveryDenominator(p, d, i, y);
    InverseCorrect(p, k);
    RecoveryIdentity(d, x, y);
    assert Satisfies(p, d, Affine(x, y)) <==> Cong(p, k * (x * x), n);
    hide Zero, Cong, Satisfies, Inverse, CurveError;
    CongScale(p, n, k * v, 1);
    assert n * (k * v) == k * (n * v);
    if Cong(p, k * (x * x), n) {
      CongSym(p, k * (x * x), n);
      CongTrans(p, k * (n * v), n, k * (x * x));
      CongCancel(p, k, n * v, x * x);
    }
    if Cong(p, n * v, x * x) {
      CongScale(p, k, n * v, x * x);
      CongSym(p, k * (n * v), k * (x * x));
      CongTrans(p, k * (x * x), k * (n * v), n);
    }
  }

  lemma XRecoverUnfold(y: int)
    requires P > 2
    ensures var xx := (y * y - 1) * Inverse(P, D * y * y + 1);
      var x := Pow(xx, (P + 3) / 8) % P;
      var x' := if Zero(P, x * x - xx) then x else (x * I) % P;
      XRecover(y) == if x' % 2 != 0 then P - x' else x'
  {
    hide P, D, I, Pow, ModPow;
    ModPowIsPow(D * y * y + 1, P - 2);
    ModPowIsPow((y * y - 1) * Inverse(P, D * y * y + 1), (P + 3) / 8);
  }

  lemma EvenMirror(p: int, x: int)
    requires p % 2 == 1 && 0 <= x < p
    ensures var e := if x % 2 != 0 then p - x else x; 0 <= e < p && e % 2 == 0
  {
  }

  lemma XRecoverEven(y: int)
    ensures 0 <= XRecover(y) < P && XRecover(y) % 2 == 0
  {
    Shapes();
    hide *;
    XRecoverUnfold(y);
    var xx := (y * y - 1) * Inverse(P, D * y * y + 1);
    CongMod(P, Pow(xx, (P + 3) / 8));
    CongMod(P, (Pow(xx, (P + 3) / 8) % P) * I);
    EvenMirror(P, Pow(xx, (P + 3) / 8) % P);
    EvenMirror(P, ((Pow(xx, (P + 3) / 8) % P) * I) % P);
  }

  /** _x_recover finds a square root of (y^2 - 1) / (d y^2 + 1) whenever there is one. */
  lemma XRecoverRoot(a: Affine)
    requires FieldPremises() && OnCurve(P, D, a)
    ensures Cong(P, XRecover(a.y) * XRecover(a.y), a.x * a.x)
  {
    hide *;
    Shapes();
    CurveHolds();
    CurvePointRange(P, D, I, a);
    var y := a.y;
    var xx, m := (y * y - 1) * Inverse(P, D * y * y + 1), (P + 3) / 8;
    var v, w := Pow(xx, m), Pow(xx, m) % P;
    XRecoverUnfold(y);
    assert a == Affine(a.x, y);
    RecoverySquare(P, D, I, a.x, y);
    CandidateRoot(P, I, xx, a.x, m);
    CongMod(P, v);
    CongMul(P, w, v, w, v);
    CongMod(P, w * I);
    CongRefl(P, I);
    CongMul(P, w, v, I, I);
    CongTrans(P, (w * I) % P, w * I, v * I);
    CongMul(P, (w * I) % P, v * I, (w * I) % P, v * I);
    SquareRootIntro(P, xx, v, w, I, (w * I) % P);
    var x' := if Zero(P, w * w - xx) then w else (w * I) % P;
    assert Cong(P, x' * x', xx) by { SquareRootIntro(P, xx, v, w, I, (w * I) % P); }
    CongTrans(P, x' * x', xx, a.x * a.x);
    MirrorSquare(P, x', a.x * a.x);
  }

  lemma SquareRootIntro(p: int, xx: int, v: int, w: int, i: int, z: int)
    requires p > 0 && Cong(p, w * w, v * v) && Cong(p, z * z, (v * i) * (v * i))
    requires Cong(p, v * v, xx) || Cong(p, (v * i) * (v * i), xx)
    ensures if Zero(p, w * w - xx) then Cong(p, w * w, xx) else Cong(p, z * z, xx)
  {
    CongIntro(p, w * w, xx);
    hide *;
    if Cong(p, v * v, xx) {
      CongTrans(p, w * w, v * v, xx);
    } else {
      CongTrans(p, z * z, (v * i) * (v * i), xx);
    }
  }

  lemma MirrorSquare(p: int, x: int, s: int)
    requires p > 0 && Cong(p, x * x, s)
    ensures Cong(p, (p - x) * (p - x), s)
  {
    hide *;
    ZeroMultiple(p, p - 2 * x);
    assert (p - x) * (p - x) - x * x == (p - 2 * x) * p;
    CongIntro(p, (p - x) * (p - x), x * x);
    CongTrans(p, (p - x) * (p - x), x * x, s);
  }

  /** _x_recover returns the even one of the two x-coordinates that go with y. */
  lemma XRecoverCorrect(a: Affine)
    requires FieldPremises() && OnCurve(P, D, a)
    ensures XRecover(a.y) == if a.x % 2 == 0 then a.x else P - a.x
  {
    hide *;
    Shapes();
    CurveHolds();
    CurvePointRange(P, D, I, a);
    XRecoverEven(a.y);
    XRecoverRoot(a);
    RootsOfSameSquare(P, XRecover(a.y), a.x);
    EvenOfPair(P, XRecover(a.y), a.x);
  }

  lemma EvenOfPair(p: int, x: int, a: int)
    requires p % 2 == 1 && 0 <= x < p && 0 <= a < p && x % 2 == 0 && (x == a || x == p - a)
    ensures x == if a % 2 == 0 then a else p - a
  {
  }

  lemma {:induction false} PowOne(e: nat)
    ensures Pow(1, e) == 1
  {
    if e > 0 {
      PowOne(e - 1);
    }
  }

  lemma RearrangeCurve(d: int, x: int, y: int)
    ensures (1 + d * x * x * y * y) - (-x * x + y * y) == CurveError(d, x, y)
  {
    assert d * x * x * y * y == d * ((x * y) * (x * y));
  }

  /** The membership test of the source, for a point with Z = 1. */
  lemma IsOnCurveUnfold(q: Extended, x: int, y: int)
    requires P > 2
    requires var zinv := ModPow(q.Z, P - 2); (q.X * zinv) % P == x && (q.Y * zinv) % P == y
    ensures IsOnCurve(q) <==> (-x * x + y * y) % P == (1 + D * x * x * y * y) % P
  {
    hide P, D, ModPow;
  }

  lemma ModPowOne(e: nat)
    requires P > 1
    ensures ModPow(1, e) == 1
  {
    hide P, Pow;
    PowOne(e);
    ModRange(P, 1);
  }

  lemma OnCurveIntro(p: int, d: int, a: Affine)
    requires p > 0 && 0 <= a.x < p && 0 <= a.y < p
    ensures OnCurve(p, d, a) <==> Zero(p, CurveError(d, a.x, a.y))
  {
  }

  lemma OnCurveByRemainders(x: int, y: int)
    requires P > 2 && 0 <= x < P && 0 <= y < P
    ensures (-x * x + y * y) % P == (1 + D * x * x * y * y) % P <==> OnCurve(P, D, Affine(x, y))
  {
    hide *;
    CongruentIffSameRemainder(P, 1 + D * x * x * y * y, -x * x + y * y);
    RearrangeCurve(D, x, y);
    OnCurveIntro(P, D, Affine(x, y));
  }

  /** _is_on_curve decides the curve equation of the point that is represented. */
  lemma IsOnCurveCorrect(q: Extended, a: Affine)
    requires FieldPremises() && Represents(P, q, a) && 0 <= a.x < P && 0 <= a.y < P
    ensures IsOnCurve(q) <==> OnCurve(P, D, a)
  {
    hide *;
    Shapes();
    Dehomogenize(q, a);
    IsOnCurveUnfold(q, a.x, a.y);
    OnCurveByRemainders(a.x, a.y);
  }

  /** Points with Z = 1, as decoding makes them. */
  lemma UnitOnCurve(q: Extended)
    requires q.Z == 1
    ensures P > 0 && (IsOnCurve(q) <==> OnCurve(P, D, Affine(q.X % P, q.Y % P)))
  {
    hide *;
    Shapes();
    ModPowOne(P - 2);
    CongMod(P, q.X);
    CongMod(P, q.Y);
    IsOnCurveUnfold(q, q.X % P, q.Y % P);
    OnCurveByRemainders(q.X % P, q.Y % P);
  }

  lemma RepresentedByUnit(q: Extended)
    requires P > 1 && q.Z == 1 && q.T == (q.X * q.Y) % P
    ensures Represents(P, q, Affine(q.X % P, q.Y % P))
  {
    NonzeroBelow(P, 1);
    hide P, Zero, Cong;
    CongMod(P, q.X);
    CongMod(P, q.Y);
    CongMod(P, q.X * q.Y);
    CongMul(P, q.X, q.X % P, q.Y, q.Y % P);
    CongTrans(P, q.T, q.X * q.Y, (q.X % P) * (q.Y % P));
  }

  /** s carries the y-coordinate of a and, unless x is zero, the parity of its x. */
  ghost predicate Carries(s: seq<Byte>, a: Affine) {
    FromLittle(s) % TWO_255 == a.y && (a.x == 0 || FromLittle(s) / TWO_255 == a.x % 2)
  }

  /** What _decode_point computes from the sign bit and y of a 32-byte string. */
  function DecodedPoint(sign: int, y: int): Extended
    requires P > 0
  {
    var x := XRecover(y);
    var x' := if x % 2 != sign then P - x else x;
    Extended(x', y, 1, (x' * y) % P)
  }

  lemma DecodeUnfold(s: seq<Byte>)
    ensures P > 0 && TWO_255 > 0
    ensures |s| != 32 ==> DecodePoint(s) == None
    ensures |s| == 32 ==> 0 <= FromLittle(s) / TWO_255 <= 1 && 0 <= FromLittle(s) % TWO_255
    ensures |s| == 32 ==>
      var sign, y := FromLittle(s) / TWO_255, FromLittle(s) % TWO_255;
      DecodePoint(s) == if y < P && IsOnCurve(DecodedPoint(sign, y)) then Some(DecodedPoint(sign, y)) else None
  {
    hide IsOnCurve, XRecover, FromLittle, Pow256, FieldPrime, ModPow, Repeat;
    Pow256Is();
    ConstantValues();
    if |s| == 32 {
      ToFromLittle(s);
    }
  }

  lemma DecodedParts(sign: int, y: int)
    requires P > 0
    ensures var q := DecodedPoint(sign, y);
      q.Z == 1 && q.T == (q.X * q.Y) % P && q.Y == y && q.X == if XRecover(y) % 2 != sign then P - XRecover(y) else XRecover(y)
  {
    hide P, XRecover;
  }

  lemma CarriesParts(s: seq<Byte>, a: Affine)
    requires TWO_255 > 0 && Carries(s, a)
    ensures FromLittle(s) % TWO_255 == a.y && (a.x == 0 || FromLittle(s) / TWO_255 == a.x % 2)
  {
    hide TWO_255, FromLittle;
  }

  lemma CarriesIntro(s: seq<Byte>, a: Affine)
    requires TWO_255 > 0 && FromLittle(s) % TWO_255 == a.y && (a.x == 0 || FromLittle(s) / TWO_255 == a.x % 2)
    ensures Carries(s, a)
  {
    hide TWO_255, FromLittle;
  }

  lemma ParityOfMirror(p: int, x: int, sign: int)
    requires p % 2 == 1 && 0 <= x < p && x % 2 == 0 && 0 <= sign <= 1
    ensures var z := if x % 2 != sign then p - x else x;
      && 0 <= z <= p && z % 2 == sign
      && z % p == (if x == 0 then 0 else z) && (x == 0 || 0 < z < p)
  {
    if x == 0 {
      ModRange(p, 0);
      DivModUnique(p, 1, 0, p);
    } else {
      ModRange(p, if x % 2 != sign then p - x else x);
    }
  }

  /** q represents the curve point a, and the 32-byte string s carries a. */
  ghost predicate IsDecoded(s: seq<Byte>, q: Extended, a: Affine) {
    |s| == 32 && P > 0 && OnCurve(P, D, a) && Represents(P, q, a) && Carries(s, a)
  }

  /** An accepted string decodes to a representative of a curve point that it carries. */
  lemma DecodeSound(s: seq<Byte>) returns (a: Affine)
    ensures DecodePoint(s).Some? ==> IsDecoded(s, DecodePoint(s).value, a)
  {
    hide *;
    Shapes();
    DecodeUnfold(s);
    a := NEUTRAL;
    if DecodePoint(s).Some? {
      var sign, y := FromLittle(s) / TWO_255, FromLittle(s) % TWO_255;
      var q := DecodedPoint(sign, y);
      XRecoverEven(y);
      a := Affine(q.X % P, q.Y % P);
      DecodedParts(sign, y);
      UnitOnCurve(q);
      RepresentedByUnit(q);
      ModRange(P, y);
      ParityOfMirror(P, XRecover(y), sign);
      CarriesIntro(s, a);
      IsDecodedParts(s, q, a);
    }
  }

  lemma IsDecodedParts(s: seq<Byte>, q: Extended, a: Affine)
    ensures IsDecoded(s, q, a) <==> |s| == 32 && P > 0 && OnCurve(P, D, a) && Represents(P, q, a) && Carries(s, a)
  {
    hide P, D, OnCurve, Represents, Carries;
  }

  /** Every 32-byte string that carries a curve point is accepted and represents it. */
  lemma DecodeComplete(s: seq<Byte>, a: Affine)
    requires FieldPremises() && |s| == 32 && OnCurve(P, D, a) && Carries(s, a)
    ensures DecodePoint(s).Some? && Represents(P, DecodePoint(s).value, a)
  {
    hide *;
    Shapes();
    CurveHolds();
    CurvePointRange(P, D, I, a);
    DecodeUnfold(s);
    CarriesParts(s, a);
    var sign, y := FromLittle(s) / TWO_255, FromLittle(s) % TWO_255;
    var q := DecodedPoint(sign, y);
    DecodedParts(sign, y);
    XRecoverCorrect(a);
    XRecoverEven(y);
    UnitOnCurve(q);
    RepresentedByUnit(q);
    ModRange(P, y);
    ParityOfMirror(P, XRecover(y), sign);
  }

  // ---- The base point ----

  function BaseLow(): seq<Byte> {
    [0x1a, 0xd5, 0x25, 0x8f, 0x60, 0x2d, 0x56, 0xc9, 0xb2, 0xa7, 0x25, 0x95, 0x60, 0xc7, 0x2c, 0x69]
  }

  function BaseHigh(): seq<Byte> {
    [0x5c, 0xdc, 0xd6, 0xfd, 0x31, 0xe2, 0xa4, 0xc0, 0xfe, 0x53, 0x6e, 0xcd, 0xd3, 0x36, 0x69, 0x21]
  }

  function BasePoint(): Affine {
    Affine(FromLittle(BaseLow() + BaseHigh()), FromLittle([0x58] + Repeat(0x66, 31)))
  }

  /** The base point of section 5.1 of RFC 8032; BaseValue gives its digits. */
  const BASE: Affine := BasePoint()

  lemma {:induction false} RepeatedSixes(n: nat)
    ensures 5 * FromLittle(Repeat(0x66, n)) == 2 * (Pow256(n) - 1)
  {
    if n > 0 {
      RepeatedSixes(n - 1);
      var s := Repeat(0x66, n);
      assert s[0] == 0x66 && s[1..] == Repeat(0x66, n - 1);
    }
  }

  lemma HalfValues()
    ensures FromLittle(BaseLow()) == 0x692cc7609525a7b2c9562d608f25d51a
    ensures FromLittle(BaseHigh()) == 0x216936d3cd6e53fec0a4e231fdd6dc5c
  {
    hide FromLittle, Pow256;
    Pow256Of8();
    EightBytes(0x1a, 0xd5, 0x25, 0x8f, 0x60, 0x2d, 0x56, 0xc9);
    EightBytes(0xb2, 0xa7, 0x25, 0x95, 0x60, 0xc7, 0x2c, 0x69);
    EightBytes(0x5c, 0xdc, 0xd6, 0xfd, 0x31, 0xe2, 0xa4, 0xc0);
    EightBytes(0xfe, 0x53, 0x6e, 0xcd, 0xd3, 0x36, 0x69, 0x21);
    var a: seq<Byte>, b: seq<Byte> := [0x1a, 0xd5, 0x25, 0x8f, 0x60, 0x2d, 0x56, 0xc9], [0xb2, 0xa7, 0x25, 0x95, 0x60, 0xc7, 0x2c, 0x69];
    var c: seq<Byte>, d: seq<Byte> := [0x5c, 0xdc, 0xd6, 0xfd, 0x31, 0xe2, 0xa4, 0xc0], [0xfe, 0x53, 0x6e, 0xcd, 0xd3, 0x36, 0x69, 0x21];
    FromLittleConcat(a, b);
    FromLittleConcat(c, d);
    assert a + b == BaseLow() && c + d == BaseHigh();
  }

  lemma BaseParts()
    ensures BASE.x == FromLittle(BaseLow() + BaseHigh()) && |BaseLow()| == 16
    ensures BASE.y == 0x58 + 256 * FromLittle(Repeat(0x66, 31))
  {
    hide Repeat;
    var s := [0x58] + Repeat(0x66, 31);
    assert s[0] == 0x58 && s[1..] == Repeat(0x66, 31);
  }

  lemma BaseValue()
    ensures BASE.x == 15112221349535400772501151409588531511454012693041857206046113283949847762202
    ensures BASE.y == 46316835694926478169428394003475163141307993866256225615783033603165251855960
  {
    hide *;
    BaseParts();
    HalfValues();
    OrderNumbers();
    FromLittleConcat(BaseLow(), BaseHigh());
    RepeatedSixes(31);
    Pow256Of31();
  }

  lemma Pow256Of31()
    ensures Pow256(31) == 0x1_0000_0000_0000_0000 * 0x1_0000_0000_0000_0000 * 0x1_0000_0000_0000_0000 * 0x100_0000_0000_0000
  {
    Pow256Of30();
    assert Pow256(31) == 256 * Pow256(30);
  }

  lemma BaseNumbers(x: int, y: int, p: int)
    requires x == 0x216936d3cd6e53fec0a4e231fdd6dc5c692cc7609525a7b2c9562d608f25d51a
    requires y == 0x6666666666666666666666666666666666666666666666666666666666666658
    requires p == 0x7fffffffffffffffffffffffffffffffffffffffffffffffffffffffffffffed
    ensures 121666 * (y * y - x * x - 1) + 121665 * ((x * y) * (x * y))
      == 0x29727744beaeafac1137359ebb6e2d8d8a48bb0e89f43ac089fee1cb480f9c78a92c3c1a3e29c3efa3a856cfa8c585aa4b7d25c5c707c2be3946ad675e966ab9588078eaea7120aa15fef0f9d5c3a15e3873149b5ce7c3417002d4af0760c27350e * p
    ensures 5 * y == 4 + 4 * p && 0 <= x < p && 0 <= y < p && x % 2 == 0
  {
    assert x * y == 0xd5d4921855f54cc4d0ec0e0cbef8b582a11e959d54243145088def36c75886eebae84160b64e011f6b9ad301f1d3466e247fc2acf7b5df1798d72918c459cf0;
  }

  lemma CurveConstant()
    requires P > 2 && IsPrime(P)
    ensures Cong(P, 121666 * D, -121665)
  {
    ConstantValues();
    NonzeroBelow(P, 121666);
    InverseIsModPow(121666);
    DefinitionOfD();
    hide *;
    InverseCorrect(P, 121666);
    CongMod(P, -121665 * Inverse(P, 121666));
    CongScale(P, 121666, D, -121665 * Inverse(P, 121666));
    CongScale(P, -121665, 121666 * Inverse(P, 121666), 1);
    CongTrans(P, 121666 * D, -121665 * (121666 * Inverse(P, 121666)), -121665 * 1);
  }

  lemma DefinitionOfD()
    requires P > 2
    ensures D == (-121665 * ModPow(121666, P - 2)) % P
  {
    hide ModPow, P;
  }

  lemma BaseOnCurve()
    requires FieldPremises()
    ensures P > 2 && OnCurve(P, D, BASE) && BASE.x % 2 == 0 && 5 * BASE.y == 4 + 4 * P
  {
    ConstantValues();
    BaseValue();
    var x, y := BASE.x, BASE.y;
    BaseNumbers(x, y, P);
    CurveHolds();
    PrimeFromCurve(P, D, I);
    CurveConstant();
    hide *;
    var w := (x * y) * (x * y);
    ZeroMultiple(P, 0x29727744beaeafac1137359ebb6e2d8d8a48bb0e89f43ac089fee1cb480f9c78a92c3c1a3e29c3efa3a856cfa8c585aa4b7d25c5c707c2be3946ad675e966ab9588078eaea7120aa15fef0f9d5c3a15e3873149b5ce7c3417002d4af0760c27350e);
    CongIntro(P, 121666 * D, -121665);
    ZeroCombo(P, w, 121666 * D - -121665, -1, 0x29727744beaeafac1137359ebb6e2d8d8a48bb0e89f43ac089fee1cb480f9c78a92c3c1a3e29c3efa3a856cfa8c585aa4b7d25c5c707c2be3946ad675e966ab9588078eaea7120aa15fef0f9d5c3a15e3873149b5ce7c3417002d4af0760c27350e * P);
    ScaledCurveError(D, x, y);
    NonzeroBelow(P, 121666);
    Euclid(P, 121666, CurveError(D, x, y));
    OnCurveIntro(P, D, Affine(x, y));
  }

  lemma ScaledCurveError(d: int, x: int, y: int)
    ensures var w := (x * y) * (x * y);
      121666 * CurveError(d, x, y)
      == w * (121666 * d - -121665) + -1 * (121666 * (y * y - x * x - 1) + 121665 * w)
  {
    var w := (x * y) * (x * y);
    assert w * (121666 * d - -121665) == 121666 * (d * w) + 121665 * w;
  }

  /** The source derives exactly the base point of the standard. */
  lemma BaseRepresented()
    requires FieldPremises()
    ensures P > 2 && BX == BASE.x && BY == BASE.y && OnCurve(P, D, BASE) && Represents(P, B, BASE)
  {
    hide *;
    Shapes();
    CurveHolds();
    PrimeFromCurve(P, D, I);
    BaseOnCurve();
    CurvePointRange(P, D, I, BASE);
    BaseY(BASE.y);
    DefinitionOfBase();
    XRecoverCorrect(BASE);
    ModRange(P, BASE.x);
    ModRange(P, BASE.y);
    RepresentedByUnit(B);
  }

  lemma DefinitionOfBase()
    requires P > 2
    ensures BX == XRecover(BY) && B == Extended(BX % P, BY % P, 1, (BX * BY) % P)
    ensures BY == (4 * ModPow(5, P - 2)) % P
  {
    hide ModPow, P, XRecover;
  }

  lemma BaseY(y: int)
    requires P > 2 && IsPrime(P) && 5 * y == 4 + 4 * P && 0 <= y < P
    ensures BY == y
  {
    hide *;
    ConstantValues();
    NonzeroBelow(P, 5);
    DefinitionOfBase();
    InverseIsModPow(5);
    InverseCorrect(P, 5);
    CongMod(P, 4 * Inverse(P, 5));
    CongScale(P, 5, BY, 4 * Inverse(P, 5));
    CongScale(P, 4, 5 * Inverse(P, 5), 1);
    CongTrans(P, 5 * BY, 4 * (5 * Inverse(P, 5)), 4 * 1);
    ZeroMultiple(P, -4);
    CongIntro(P, 4, 5 * y);
    CongTrans(P, 5 * BY, 4, 5 * y);
    CongCancel(P, 5, BY, y);
    CongReduced(P, BY, y);
  }
}
