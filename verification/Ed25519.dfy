/** The pure-Python Ed25519 of offwork/core/ed25519.py: the scheme of sections 5.1.2 to 5.1.7
    of RFC 8032. SHA-512 is a parameter. */
module Ed25519 {
  import opened Options
  import opened Bytes
  import opened ExtendedCoordinates

  datatype Result<+T> = Ok(value: T) | ValueError(message: string)

  const TWO_255: nat := 0x8000000000000000000000000000000000000000000000000000000000000000
  function Repeat(b: Byte, n: nat): seq<Byte> {
    seq(n, _ => b)
  }

  /** 2^255 - 19, as the little-endian number it is used as; ConstantValues gives its digits. */
  function FieldPrime(): nat {
    FromLittle([0xed] + Repeat(0xff, 30) + [0x7f])
  }

  /** 2^252 + 27742317777372353535851937790883648493, likewise. */
  function GroupOrder(): nat {
    FromLittle([0xed, 0xd3, 0xf5, 0x5c, 0x1a, 0x63, 0x12, 0x58, 0xd6, 0x9c, 0xf7, 0xa2, 0xde, 0xf9, 0xde, 0x14]
               + Repeat(0, 15) + [0x10])
  }

  const P: nat := FieldPrime()
  const L: nat := GroupOrder()

  /** Python's three-argument pow with modulus P, by squaring. */
  function ModPow(b: int, e: nat): int
    decreases e, b
  {
    if e == 0 then 1 % P
    else
      var half := ModPow(b, e / 2);
      var square := (half * half) % P;
      if e % 2 == 1 then (square * b) % P else square
  }

  const D: int := (-121665 * ModPow(121666, P - 2)) % P
  const I: int := ModPow(2, (P - 1) / 4)

  function XRecover(y: int): int {
    var xx := (y * y - 1) * ModPow(D * y * y + 1, P - 2);
    var x := ModPow(xx, (P + 3) / 8);
    var x := if (x * x - xx) % P != 0 then (x * I) % P else x;
    if x % 2 != 0 then P - x else x
  }

  const BY: int := (4 * ModPow(5, P - 2)) % P
  const BX: int := XRecover(BY)
  const B: Extended := Extended(BX % P, BY % P, 1, (BX * BY) % P)

  function PointAdd(q: Extended, r: Extended): Extended {
    var a := ((q.Y - q.X) * (r.Y - r.X)) % P;
    var b := ((q.Y + q.X) * (r.Y + r.X)) % P;
    var c := (2 * q.T * r.T * D) % P;
    var d := (2 * q.Z * r.Z) % P;
    var e := b - a;
    var f := d - c;
    var g := d + c;
    var h := b + a;
    Extended((e * f) % P, (g * h) % P, (f * g) % P, (e * h) % P)
  }

  function ScalarMul(q: Extended, e: nat): Extended {
    if e == 0 then Extended(0, 1, 1, 0)
    else
      var half := ScalarMul(q, e / 2);
      var twice := PointAdd(half, half);
      if e % 2 == 1 then PointAdd(twice, q) else twice
  }

  /** The 32-byte encoding; y | ((x & 1) << 255) is a sum because y is below 2^255. */
  function EncodePoint(q: Extended): (s: seq<Byte>)
    ensures |s| == 32
  {
    var zinv := ModPow(q.Z, P - 2);
    var x := (q.X * zinv) % P;
    var y := (q.Y * zinv) % P;
    ToLittle(y + (x % 2) * TWO_255, 32)
  }

  predicate IsOnCurve(q: Extended) {
    var zinv := ModPow(q.Z, P - 2);
    var xn := (q.X * zinv) % P;
    var yn := (q.Y * zinv) % P;
    (-xn * xn + yn * yn) % P == (1 + D * xn * xn * yn * yn) % P
  }

  function DecodePoint(s: seq<Byte>): Option<Extended> {
    if |s| != 32 then None
    else
      var v := FromLittle(s);
      var sign := (v / TWO_255) % 2;
      var y := v % TWO_255;
      if y >= P then None
      else
        var x := XRecover(y);
        var x := if x % 2 != sign then P - x else x;
        var q := Extended(x, y, 1, (x * y) % P);
        if IsOnCurve(q) then Some(q) else None
  }

  /** sha stands for SHA-512: any function that returns 64 bytes. */
  ghost predicate IsDigest(sha: seq<Byte> -> seq<Byte>) {
    forall m :: |sha(m)| == 64
  }

  function Sha512Int(sha: seq<Byte> -> seq<Byte>, data: seq<Byte>): nat {
    FromLittle(sha(data))
  }

  /** a[0] &= 248, a[31] &= 127, a[31] |= 64, on the first 32 bytes of a digest. */
  function ClampBytes(h: seq<Byte>): (a: seq<Byte>)
    requires |h| >= 32
    ensures |a| == 32
  {
    h[..32][0 := h[0] - h[0] % 8][31 := h[31] % 64 + 64]
  }

  function Clamp(h: seq<Byte>): nat
    requires |h| >= 32
  {
    FromLittle(ClampBytes(h))
  }

  /** _clamp edits a local byte array in place. */
  method ClampBuffer(h: seq<Byte>) returns (n: nat)
    requires |h| >= 32
    ensures n == Clamp(h)
  {
    var a := new Byte[32](i requires 0 <= i < 32 => h[i]);
    a[0] := a[0] - a[0] % 8;
    a[31] := a[31] % 128;
    if a[31] < 64 {
      a[31] := a[31] + 64;
    }
    assert a[..] == ClampBytes(h);
    n := FromLittle(a[..]);
  }

  function SeedToPublic(sha: seq<Byte> -> seq<Byte>, seed: seq<Byte>): Result<seq<Byte>>
    requires IsDigest(sha)
  {
    if |seed| != 32 then ValueError("seed must be 32 bytes")
    else Ok(EncodePoint(ScalarMul(B, Clamp(sha(seed)))))
  }

  function Sign(sha: seq<Byte> -> seq<Byte>, message: seq<Byte>, seed: seq<Byte>): Result<seq<Byte>>
    requires IsDigest(sha)
  {
    if |seed| != 32 then ValueError("seed must be 32 bytes")
    else
      var h := sha(seed);
      var a := Clamp(h);
      var prefix := h[32..];
      var pub := EncodePoint(ScalarMul(B, a));
      var r := Sha512Int(sha, prefix + message) % L;
      var rEnc := EncodePoint(ScalarMul(B, r));
      var k := Sha512Int(sha, rEnc + pub + message) % L;
      var s := (r + k * a) % L;
      Ok(rEnc + ToLittle(s, 32))
  }

  predicate Verify(sha: seq<Byte> -> seq<Byte>, message: seq<Byte>, signature: seq<Byte>, publicKey: seq<Byte>) {
    if |signature| != 64 || |publicKey| != 32 then false
    else
      var r := DecodePoint(signature[..32]);
      var a := DecodePoint(publicKey);
      var s := FromLittle(signature[32..]);
      if r.None? || a.None? || s >= L then false
      else
        var k := Sha512Int(sha, signature[..32] + publicKey + message) % L;
        EncodePoint(ScalarMul(B, s)) == EncodePoint(PointAdd(r.value, ScalarMul(a.value, k)))
  }
}
