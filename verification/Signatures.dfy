/** Every signature verifies, and what an accepting verification means in the group. */
module Ed25519Signatures {
  import opened Ring
  import opened Bytes
  import opened Modular
  import opened Edwards
  import opened ExtendedCoordinates
  import opened Ed25519
  import opened Ed25519Points

  ghost predicate IsBase(a: Affine) {
    a == BASE
  }

  /** The base point has order L, or an order that divides it. */
  ghost predicate OrderPremise() {
    P > 2 && forall a :: IsBase(a) ==> Times(P, D, L, a) == NEUTRAL
  }

  /** The n-th multiple of the base point. */
  ghost function BaseTimes(n: nat): Affine
    requires P > 2
  {
    Times(P, D, n, BASE)
  }

  lemma BaseMultiple(n: nat)
    requires FieldPremises()
    ensures P > 2 && OnCurve(P, D, BaseTimes(n)) && Represents(P, ScalarMul(B, n), BaseTimes(n))
  {
    hide P, D, BASE, B, Times, OnCurve, Represents, ScalarMul, FieldPremises;
    BaseRepresented();
    ScalarMulCorrect(B, BASE, n);
  }

  // ---- Round trips of the point encoding ----

  lemma EncodedParts(p: int, a: Affine)
    requires 0 <= a.y < p < TWO_255
    ensures EncodedValue(a) % TWO_255 == a.y && EncodedValue(a) / TWO_255 == a.x % 2
  {
    hide TWO_255;
    DivModUnique(EncodedValue(a), a.x % 2, a.y, TWO_255);
  }

  /** Two representatives encode to the same bytes exactly when they are the same point. */
  lemma EncodeInjective(q: Extended, r: Extended, a: Affine, b: Affine)
    requires FieldPremises() && P > 2 && OnCurve(P, D, a) && OnCurve(P, D, b)
    requires Represents(P, q, a) && Represents(P, r, b)
    ensures EncodePoint(q) == EncodePoint(r) <==> a == b
  {
    hide *;
    Shapes();
    CurveHolds();
    CurvePointRange(P, D, I, a);
    CurvePointRange(P, D, I, b);
    EncodeCorrect(q, a);
    EncodeCorrect(r, b);
    EncodedParts(P, a);
    EncodedParts(P, b);
    if a == b {
      FromLittleInjective(EncodePoint(q), EncodePoint(r));
    } else if EncodePoint(q) == EncodePoint(r) {
      XRecoverCorrect(a);
      XRecoverCorrect(b);
      SamePointFromParity(P, a, b, XRecover(a.y));
    }
  }

  lemma SamePointFromParity(p: int, a: Affine, b: Affine, x: int)
    requires a.y == b.y && a.x % 2 == b.x % 2
    requires x == (if a.x % 2 == 0 then a.x else p - a.x) && x == (if b.x % 2 == 0 then b.x else p - b.x)
    ensures a == b
  {
  }

  /** Decoding an encoded curve point gives a representative of the same affine point. */
  lemma DecodeOfEncode(q: Extended, a: Affine)
    requires FieldPremises() && P > 2 && OnCurve(P, D, a) && Represents(P, q, a)
    ensures DecodePoint(EncodePoint(q)).Some? && Represents(P, DecodePoint(EncodePoint(q)).value, a)
  {
    hide *;
    Shapes();
    CurveHolds();
    CurvePointRange(P, D, I, a);
    EncodeCorrect(q, a);
    EncodedParts(P, a);
    CarriesIntro(EncodePoint(q), a);
    DecodeComplete(EncodePoint(q), a);
  }

  lemma SignBit(s: seq<Byte>, a: Affine, v: int)
    requires TWO_255 > 0 && 0 <= v / TWO_255 <= 1 && v == FromLittle(s)
    requires FromLittle(s) % TWO_255 == a.y && (a.x == 0 || FromLittle(s) / TWO_255 == a.x % 2)
    requires EncodedValue(a) % TWO_255 == a.y && EncodedValue(a) / TWO_255 == a.x % 2
    ensures EncodedValue(a) == v <==> !(a.x == 0 && v / TWO_255 == 1)
  {
    hide TWO_255, FromLittle, EncodedValue;
    DivMod(v, TWO_255);
    DivMod(EncodedValue(a), TWO_255);
  }

  /** Re-encoding an accepted string gives the string back, except when it carries x = 0 with
      the sign bit set: such strings are accepted, and re-encode with the sign bit cleared. */
  lemma EncodeOfDecode(s: seq<Byte>, a: Affine)
    requires FieldPremises() && |s| == 32 && OnCurve(P, D, a) && Carries(s, a)
    ensures TWO_255 > 0 && DecodePoint(s).Some? && Represents(P, DecodePoint(s).value, a)
    ensures EncodePoint(DecodePoint(s).value) == s <==> !(a.x == 0 && FromLittle(s) / TWO_255 == 1)
  {
    hide *;
    Shapes();
    CurveHolds();
    DecodeComplete(s, a);
    DecodeUnfold(s);
    CurvePointRange(P, D, I, a);
    CarriesParts(s, a);
    EncodeCorrect(DecodePoint(s).value, a);
    EncodedParts(P, a);
    SignBit(s, a, FromLittle(s));
    if EncodedValue(a) == FromLittle(s) {
      FromLittleInjective(EncodePoint(DecodePoint(s).value), s);
    }
  }

  /** The neutral point with its sign bit set is such a string: section 5.1.3 of RFC 8032
      rejects it, the source accepts it. */
  lemma AcceptsNegativeZero(s: seq<Byte>)
    requires FieldPremises() && s == ToLittle(1 + TWO_255, 32)
    ensures DecodePoint(s).Some? && EncodePoint(DecodePoint(s).value) != s
  {
    hide *;
    Shapes();
    CurveHolds();
    Pow256Is();
    NegativeZeroParts();
    FromToLittle(1 + TWO_255, 32);
    NeutralOnCurve(P, D);
    CarriesIntro(s, NEUTRAL);
    EncodeOfDecode(s, NEUTRAL);
  }

  lemma NegativeZeroParts()
    ensures TWO_255 > 0 && (1 + TWO_255) % TWO_255 == 1 && (1 + TWO_255) / TWO_255 == 1 && 1 + TWO_255 < 2 * TWO_255
    ensures NEUTRAL == Affine(0, 1) && P > 2 && P % 2 == 1
  {
  }

  // ---- Clamping ----

  const TWO_254: nat := 0x4000000000000000000000000000000000000000000000000000000000000000

  lemma ClampNumbers()
    ensures Pow256(1) == 256 && 64 * (256 * Pow256(30)) == TWO_254
  {
    assert Pow256(8) == 0x1_0000_0000_0000_0000;
    assert Pow256(16) == 0x1_0000_0000_0000_0000 * 0x1_0000_0000_0000_0000;
    assert Pow256(24) == 0x1_0000_0000_0000_0000 * 0x1_0000_0000_0000_0000 * 0x1_0000_0000_0000_0000;
  }

  lemma HeadAndLast(s: seq<Byte>)
    requires |s| == 32
    ensures FromLittle(s) == s[0] + 256 * FromLittle(s[1..]) && FromLittle(s[31..]) == s[31]
    ensures s[1..] == s[1..31] + s[31..]
  {
  }

  lemma ThirtyTwoBytes(s: seq<Byte>)
    requires |s| == 32
    ensures FromLittle(s) == s[0] + 256 * FromLittle(s[1..31]) + (256 * Pow256(30)) * s[31]
    ensures FromLittle(s[1..31]) < Pow256(30)
  {
    hide *;
    HeadAndLast(s);
    FromLittleConcat(s[1..31], s[31..]);
    ToFromLittle(s[1..31]);
    Regroup(256, Pow256(30), s[31]);
  }

  lemma TopByte(w: int, k: int, m: int)
    requires w >= 0 && 0 <= m <= 63
    ensures w * (64 * k + m) == k * (64 * w) + w * m && 0 <= w * m <= 63 * w
    ensures w * (m + 64) == w * m + 64 * w
  {
    assert (63 - m) * w >= 0;
  }

  lemma ClampArithmetic(b: int, mid: int, w: int, t: int, q: int)
    requires 0 <= b < 256 && 0 <= t < 256 && 0 <= mid < q && w == 256 * q
    ensures (b + 256 * mid + w * t) % (64 * w) == b + 256 * mid + w * (t % 64)
  {
    var k, m := t / 64, t % 64;
    assert t == 64 * k + m;
    TopByte(w, k, m);
    hide *;
    DivModUnique(b + 256 * mid + w * t, k, b + 256 * mid + w * m, 64 * w);
  }

  lemma ClampedParts(h: seq<Byte>)
    requires |h| >= 32
    ensures var s, t := h[..32], ClampBytes(h);
      |s| == 32 && t[1..31] == s[1..31] && t[0] == s[0] - s[0] % 8 && t[31] == s[31] % 64 + 64
      && Clamp(h) == FromLittle(t)
  {
    hide FromLittle;
  }

  /** The secret scalar: bits 3 to 253 of the digest's first half, with bit 254 set and the
      other bits clear, as in section 5.1.5 of RFC 8032. */
  lemma ClampCorrect(h: seq<Byte>)
    requires |h| >= 32
    ensures Clamp(h) == TWO_254 + (FromLittle(h[..32]) % TWO_254) / 8 * 8
  {
    hide *;
    ClampedParts(h);
    var s, t := h[..32], ClampBytes(h);
    var w, mid := 256 * Pow256(30), FromLittle(s[1..31]);
    ThirtyTwoBytes(s);
    ThirtyTwoBytes(t);
    ClampNumbers();
    ClampArithmetic(s[0], mid, w, s[31], Pow256(30));
    TopByte(w, 0, s[31] % 64);
    ClampLowBits(s[0], mid, Pow256(30), s[31] % 64);
  }

  lemma ClampLowBits(b: int, mid: int, q: int, m: int)
    requires 0 <= b < 256
    ensures (b + 256 * mid + (256 * q) * m) / 8 * 8 == b - b % 8 + 256 * mid + (256 * q) * m
  {
    var k := q * m;
    assert (256 * q) * m == 256 * k;
  }

  // ---- Signing and verifying ----

  lemma SignParts(sha: seq<Byte> -> seq<Byte>, message: seq<Byte>, seed: seq<Byte>,
                  a: nat, r: nat, k: nat, s: nat, pub: seq<Byte>, rEnc: seq<Byte>)
    requires IsDigest(sha) && |seed| == 32
    requires a == Clamp(sha(seed)) && pub == EncodePoint(ScalarMul(B, a))
    requires L > 0 && r == FromLittle(sha(sha(seed)[32..] + message)) % L && rEnc == EncodePoint(ScalarMul(B, r))
    requires k == FromLittle(sha(rEnc + pub + message)) % L && s == (r + k * a) % L
    ensures Sign(sha, message, seed) == Ok(rEnc + ToLittle(s, 32)) && SeedToPublic(sha, seed) == Ok(pub)
  {
    hide B, L, EncodePoint, ScalarMul, Clamp;
  }

  lemma VerifyParts(sha: seq<Byte> -> seq<Byte>, message: seq<Byte>, rEnc: seq<Byte>, sBytes: seq<Byte>, pub: seq<Byte>)
    requires |rEnc| == 32 && |sBytes| == 32 && |pub| == 32
    requires DecodePoint(rEnc).Some? && DecodePoint(pub).Some? && FromLittle(sBytes) < L
    ensures var k := FromLittle(sha(rEnc + pub + message)) % L;
      Verify(sha, message, rEnc + sBytes, pub)
      <==> (EncodePoint(ScalarMul(B, FromLittle(sBytes)))
            == EncodePoint(PointAdd(DecodePoint(rEnc).value, ScalarMul(DecodePoint(pub).value, k))))
  {
    assert (rEnc + sBytes)[..32] == rEnc && (rEnc + sBytes)[32..] == sBytes;
    hide B, L, EncodePoint, ScalarMul, PointAdd, DecodePoint, FromLittle;
  }

  lemma BaseTimesTimes(k: nat, a: nat)
    requires FieldPremises() && P > 2
    ensures k * a >= 0 && Times(P, D, k, BaseTimes(a)) == BaseTimes(k * a)
  {
    hide *;
    CurveHolds();
    BaseRepresented();
    TimesTimes(P, D, I, k, a, BASE);
    BaseTimesUnfold(a);
    BaseTimesUnfold(k * a);
  }

  lemma BaseTimesAdd(m: nat, n: nat)
    requires FieldPremises() && P > 2
    ensures BaseTimes(m + n) == Add(P, D, BaseTimes(m), BaseTimes(n))
  {
    hide *;
    CurveHolds();
    BaseRepresented();
    TimesAdd(P, D, I, m, n, BASE);
    BaseTimesUnfold(m);
    BaseTimesUnfold(n);
    BaseTimesUnfold(m + n);
  }

  lemma BaseTimesMod(n: nat, s: nat)
    requires FieldPremises() && OrderPremise() && P > 2 && L > 0 && s == n % L
    ensures BaseTimes(n) == BaseTimes(s)
  {
    hide *;
    OrderUnfold();
    CurveHolds();
    BaseRepresented();
    TimesMod(P, D, I, L, n, BASE);
    BaseTimesUnfold(n);
    BaseTimesUnfold(s);
  }

  /** [r + k a mod L] B = [r] B + [k] [a] B. */
  lemma SignatureEquation(a: nat, r: nat, k: nat, s: nat)
    requires FieldPremises() && OrderPremise() && L > 0 && s == (r + k * a) % L
    ensures P > 2 && BaseTimes(s) == Add(P, D, BaseTimes(r), Times(P, D, k, BaseTimes(a)))
  {
    hide *;
    Shapes();
    BaseTimesTimes(k, a);
    BaseTimesAdd(r, k * a);
    BaseTimesMod(r + k * a, s);
  }

  lemma OrderUnfold()
    requires OrderPremise()
    ensures P > 2 && L > 0 && Times(P, D, L, BASE) == NEUTRAL
  {
    hide Times, D;
    assert IsBase(BASE);
  }

  lemma BaseTimesUnfold(n: nat)
    requires P > 2
    ensures BaseTimes(n) == Times(P, D, n, BASE)
  {
    hide Times, D, P, BASE;
  }

  /** A value below L fits the 32 bytes it is stored in. */
  lemma ScalarFits(s: nat)
    requires s < L
    ensures FromLittle(ToLittle(s, 32)) == s
  {
    Shapes();
    Pow256Is();
    hide P, L, TWO_255, Pow256;
    FromToLittle(s, 32);
  }

  /** Verification of R || S under a public key that represents known points is the group
      equation [S] B = R + [k] A. */
  lemma VerifyEquation(sha: seq<Byte> -> seq<Byte>, message: seq<Byte>, rEnc: seq<Byte>, sBytes: seq<Byte>, pub: seq<Byte>,
                       r: Affine, a: Affine)
    requires FieldPremises() && P > 2 && OnCurve(P, D, r) && OnCurve(P, D, a)
    requires |rEnc| == 32 && |sBytes| == 32 && |pub| == 32
    requires DecodePoint(rEnc).Some? && Represents(P, DecodePoint(rEnc).value, r)
    requires DecodePoint(pub).Some? && Represents(P, DecodePoint(pub).value, a)
    requires FromLittle(sBytes) < L
    ensures var k := FromLittle(sha(rEnc + pub + message)) % L;
      Verify(sha, message, rEnc + sBytes, pub)
      <==> BaseTimes(FromLittle(sBytes)) == Add(P, D, r, Times(P, D, k, a))
  {
    hide *;
    Shapes();
    CurveHolds();
    var s, k := FromLittle(sBytes), FromLittle(sha(rEnc + pub + message)) % L;
    VerifyParts(sha, message, rEnc, sBytes, pub);
    BaseMultiple(s);
    var q, t := DecodePoint(rEnc).value, DecodePoint(pub).value;
    ScalarMulCorrect(t, a, k);
    PointAddCorrect(q, ScalarMul(t, k), r, Times(P, D, k, a));
    EncodeInjective(ScalarMul(B, s), PointAdd(q, ScalarMul(t, k)), BaseTimes(s), Add(P, D, r, Times(P, D, k, a)));
  }

  /** Verification of a signature with these parts succeeds. */
  lemma PartsVerify(sha: seq<Byte> -> seq<Byte>, message: seq<Byte>, a: nat, r: nat, k: nat, s: nat,
                    pub: seq<Byte>, rEnc: seq<Byte>)
    requires FieldPremises() && OrderPremise() && L > 0
    requires pub == EncodePoint(ScalarMul(B, a)) && rEnc == EncodePoint(ScalarMul(B, r))
    requires k == FromLittle(sha(rEnc + pub + message)) % L && s == (r + k * a) % L
    ensures Verify(sha, message, rEnc + ToLittle(s, 32), pub)
  {
    hide *;
    Shapes();
    SignatureEquation(a, r, k, s);
    BaseMultiple(a);
    BaseMultiple(r);
    DecodeOfEncode(ScalarMul(B, a), BaseTimes(a));
    DecodeOfEncode(ScalarMul(B, r), BaseTimes(r));
    DivMod(r + k * a, L);
    ScalarFits(s);
    VerifyEquation(sha, message, rEnc, ToLittle(s, 32), pub, BaseTimes(r), BaseTimes(a));
  }

  /** Every signature verifies under the public key of the seed that made it. */
  lemma EverySignatureVerifies(sha: seq<Byte> -> seq<Byte>, message: seq<Byte>, seed: seq<Byte>)
    requires FieldPremises() && OrderPremise() && IsDigest(sha) && |seed| == 32
    ensures Sign(sha, message, seed).Ok? && SeedToPublic(sha, seed).Ok?
    ensures |Sign(sha, message, seed).value| == 64
    ensures Verify(sha, message, Sign(sha, message, seed).value, SeedToPublic(sha, seed).value)
  {
    DigestLength(sha, seed);
    hide *;
    Shapes();
    var a := Clamp(sha(seed));
    var r := FromLittle(sha(sha(seed)[32..] + message)) % L;
    var pub, rEnc := EncodePoint(ScalarMul(B, a)), EncodePoint(ScalarMul(B, r));
    var k := FromLittle(sha(rEnc + pub + message)) % L;
    var s := (r + k * a) % L;
    SignParts(sha, message, seed, a, r, k, s, pub, rEnc);
    PartsVerify(sha, message, a, r, k, s, pub, rEnc);
  }

  /** What sign returns, from the digests alone: the encodings of [r] B and of the scalar
      r + k a modulo L, where a is the clamped scalar of the seed. */
  lemma SignMeaning(sha: seq<Byte> -> seq<Byte>, message: seq<Byte>, seed: seq<Byte>)
    requires FieldPremises() && IsDigest(sha)
    ensures P > 2 && L > 0
    ensures Sign(sha, message, seed).Ok? <==> |seed| == 32
    ensures SeedToPublic(sha, seed).Ok? <==> |seed| == 32
    ensures |seed| == 32 ==>
      var a := TWO_254 + (FromLittle(sha(seed)[..32]) % TWO_254) / 8 * 8;
      var r := FromLittle(sha(sha(seed)[32..] + message)) % L;
      var public, signature := SeedToPublic(sha, seed).value, Sign(sha, message, seed).value;
      && |public| == 32 && FromLittle(public) == EncodedValue(BaseTimes(a))
      && |signature| == 64 && FromLittle(signature[..32]) == EncodedValue(BaseTimes(r))
      && FromLittle(signature[32..]) == (r + FromLittle(sha(signature[..32] + public + message)) % L * a) % L
  {
    hide *;
    Shapes();
    SeedLength(sha, message, seed);
    if |seed| == 32 {
      DigestLength(sha, seed);
      ClampCorrect(sha(seed));
      var a := Clamp(sha(seed));
      var r := FromLittle(sha(sha(seed)[32..] + message)) % L;
      var pub, rEnc := EncodePoint(ScalarMul(B, a)), EncodePoint(ScalarMul(B, r));
      var k := FromLittle(sha(rEnc + pub + message)) % L;
      var s := (r + k * a) % L;
      SignParts(sha, message, seed, a, r, k, s, pub, rEnc);
      assert (rEnc + ToLittle(s, 32))[..32] == rEnc && (rEnc + ToLittle(s, 32))[32..] == ToLittle(s, 32);
      DivMod(r + k * a, L);
      ScalarFits(s);
      EncodedMultiple(a);
      EncodedMultiple(r);
    }
  }

  lemma EncodedMultiple(n: nat)
    requires FieldPremises()
    ensures P > 2 && FromLittle(EncodePoint(ScalarMul(B, n))) == EncodedValue(BaseTimes(n))
  {
    hide *;
    Shapes();
    CurveHolds();
    BaseMultiple(n);
    CurvePointRange(P, D, I, BaseTimes(n));
    EncodeCorrect(ScalarMul(B, n), BaseTimes(n));
  }

  lemma SeedLength(sha: seq<Byte> -> seq<Byte>, message: seq<Byte>, seed: seq<Byte>)
    requires IsDigest(sha)
    ensures Sign(sha, message, seed).Ok? <==> |seed| == 32
    ensures SeedToPublic(sha, seed).Ok? <==> |seed| == 32
  {
    hide B, L, EncodePoint, ScalarMul, Clamp, FromLittle, Sha512Int;
  }

  lemma DigestLength(sha: seq<Byte> -> seq<Byte>, m: seq<Byte>)
    requires IsDigest(sha)
    ensures |sha(m)| == 64
  {
  }

  /** What verify accepts, in terms of the group alone: s below L and curve points r and a
      carried by the two strings, with [s] B = r + [k] a. */
  ghost predicate GroupEquation(sha: seq<Byte> -> seq<Byte>, message: seq<Byte>, signature: seq<Byte>, publicKey: seq<Byte>,
                                r: Affine, a: Affine)
    requires P > 2 && L > 0 && |signature| == 64
  {
    && OnCurve(P, D, r) && Carries(signature[..32], r)
    && OnCurve(P, D, a) && Carries(publicKey, a)
    && BaseTimes(FromLittle(signature[32..]))
       == Add(P, D, r, Times(P, D, FromLittle(sha(signature[..32] + publicKey + message)) % L, a))
  }

  lemma VerifyAccepts(sha: seq<Byte> -> seq<Byte>, message: seq<Byte>, signature: seq<Byte>, publicKey: seq<Byte>)
    returns (r: Affine, a: Affine)
    requires FieldPremises() && Verify(sha, message, signature, publicKey)
    ensures P > 2 && L > 0 && |signature| == 64 && |publicKey| == 32 && FromLittle(signature[32..]) < L
    ensures GroupEquation(sha, message, signature, publicKey, r, a)
  {
    VerifyPreconditions(sha, message, signature, publicKey);
    hide *;
    Shapes();
    r := DecodeSound(signature[..32]);
    a := DecodeSound(publicKey);
    IsDecodedParts(signature[..32], DecodePoint(signature[..32]).value, r);
    IsDecodedParts(publicKey, DecodePoint(publicKey).value, a);
    VerifyEquation(sha, message, signature[..32], signature[32..], publicKey, r, a);
    GroupEquationIntro(sha, message, signature, publicKey, r, a);
  }

  lemma VerifyPreconditions(sha: seq<Byte> -> seq<Byte>, message: seq<Byte>, signature: seq<Byte>, publicKey: seq<Byte>)
    requires Verify(sha, message, signature, publicKey)
    ensures |signature| == 64 && |publicKey| == 32 && signature == signature[..32] + signature[32..]
    ensures DecodePoint(signature[..32]).Some? && DecodePoint(publicKey).Some? && FromLittle(signature[32..]) < L
  {
    hide B, L, EncodePoint, ScalarMul, PointAdd, DecodePoint, FromLittle;
  }

  lemma GroupEquationIntro(sha: seq<Byte> -> seq<Byte>, message: seq<Byte>, signature: seq<Byte>, publicKey: seq<Byte>,
                           r: Affine, a: Affine)
    requires P > 2 && L > 0 && |signature| == 64
    ensures GroupEquation(sha, message, signature, publicKey, r, a) <==>
      && OnCurve(P, D, r) && Carries(signature[..32], r)
      && OnCurve(P, D, a) && Carries(publicKey, a)
      && BaseTimes(FromLittle(signature[32..]))
         == Add(P, D, r, Times(P, D, FromLittle(sha(signature[..32] + publicKey + message)) % L, a))
  {
    hide P, D, L, OnCurve, Carries, BaseTimes, Times, Add, FromLittle;
  }

  /** verify returns true exactly when the lengths are right, s is below L and the group
      equation holds for curve points carried by the signature and the key. */
  lemma VerifyMeaning(sha: seq<Byte> -> seq<Byte>, message: seq<Byte>, signature: seq<Byte>, publicKey: seq<Byte>)
    requires FieldPremises()
    ensures P > 2 && L > 0
    ensures Verify(sha, message, signature, publicKey) <==>
      && |signature| == 64 && |publicKey| == 32 && FromLittle(signature[32..]) < L
      && exists r, a :: GroupEquation(sha, message, signature, publicKey, r, a)
  {
    hide *;
    Shapes();
    if Verify(sha, message, signature, publicKey) {
      var r, a := VerifyAccepts(sha, message, signature, publicKey);
    }
    if |signature| == 64 && |publicKey| == 32 && FromLittle(signature[32..]) < L {
      forall r, a | GroupEquation(sha, message, signature, publicKey, r, a)
        ensures Verify(sha, message, signature, publicKey)
      {
        GroupEquationIntro(sha, message, signature, publicKey, r, a);
        DecodeComplete(signature[..32], r);
        DecodeComplete(publicKey, a);
        VerifyEquation(sha, message, signature[..32], signature[32..], publicKey, r, a);
        assert signature == signature[..32] + signature[32..];
      }
    }
  }
}
