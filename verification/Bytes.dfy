/** Byte strings and their little-endian integer values. */
module Bytes {
  import opened Ring

  type Byte = b: int | 0 <= b < 256

  function Pow256(n: nat): nat {
    if n == 0 then 1 else 256 * Pow256(n - 1)
  }

  /** The integer a byte string stands for, least significant byte first. */
  function FromLittle(s: seq<Byte>): nat {
    if s == [] then 0 else s[0] + 256 * FromLittle(s[1..])
  }

  /** The n-byte string of an integer, least significant byte first. */
  function ToLittle(v: nat, n: nat): (s: seq<Byte>)
    ensures |s| == n
  {
    if n == 0 then [] else [v % 256] + ToLittle(v / 256, n - 1)
  }

  lemma {:induction false} FromToLittle(v: nat, n: nat)
    requires v < Pow256(n)
    ensures FromLittle(ToLittle(v, n)) == v
  {
    if n > 0 {
      FromToLittle(v / 256, n - 1);
      assert ToLittle(v, n)[1..] == ToLittle(v / 256, n - 1);
    }
  }

  lemma {:induction false} ToFromLittle(s: seq<Byte>)
    ensures ToLittle(FromLittle(s), |s|) == s
    ensures FromLittle(s) < Pow256(|s|)
  {
    if s != [] {
      ToFromLittle(s[1..]);
    }
  }

  lemma {:induction false} FromLittleInjective(s: seq<Byte>, t: seq<Byte>)
    requires |s| == |t| && FromLittle(s) == FromLittle(t)
    ensures s == t
  {
    ToFromLittle(s);
    ToFromLittle(t);
  }

  lemma {:induction false} FromLittleConcat(s: seq<Byte>, t: seq<Byte>)
    ensures FromLittle(s + t) == FromLittle(s) + Pow256(|s|) * FromLittle(t)
  {
    if s == [] {
      assert s + t == t;
    } else {
      FromLittleConcat(s[1..], t);
      assert (s + t)[1..] == s[1..] + t;
      Regroup(256, Pow256(|s| - 1), FromLittle(t));
    }
  }
}
