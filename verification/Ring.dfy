/** Rearrangements of integer sums and products, one step each, so that larger proofs only
    have to match terms. */
module Ring {
  lemma Interchange(a: int, b: int, c: int, e: int)
    ensures (a * b) * (c * e) == (a * c) * (b * e)
  {
  }

  lemma Regroup(a: int, b: int, c: int)
    ensures a * (b * c) == (a * b) * c
  {
  }

  lemma Rotate(a: int, b: int, c: int)
    ensures a * (b * c) == b * (a * c)
  {
  }

  lemma Distribute(a: int, b: int, c: int)
    ensures a * (b + c) == a * b + a * c && a * (b - c) == a * b - a * c
  {
  }

  lemma Distribute3(a: int, b: int, c: int, e: int)
    ensures a * (b + c + 2 * e) == a * b + a * c + 2 * (a * e)
  {
  }

  lemma DistributeFour(a: int, b: int, c: int)
    ensures a * (b + 4 * c) == a * b + 4 * (a * c)
  {
  }

  lemma Negated(a: int, b: int)
    ensures (-a) * b == -(a * b)
  {
  }

  lemma SquareOfSum(a: int, b: int, c: int, e: int)
    ensures (a * b + c * e) * (a * b + c * e) == (a * a) * (b * b) + (c * c) * (e * e) + 2 * ((a * b) * (c * e))
  {
  }

  lemma Reorder(a: int, b: int, c: int)
    ensures a * b * c == b * a * c == a * c * b == c * b * a == b * c * a == c * a * b
  {
  }

  lemma TelescopeProduct(a: int, c: int, b: int, d: int)
    ensures a * (c - d) + d * (a - b) == a * c - b * d
  {
  }
}
