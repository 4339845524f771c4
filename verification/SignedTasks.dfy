/** The envelope over the Ed25519 of this repository. */
module SignedTasks {
  import opened Options
  import B = Bytes
  import Ed = Ed25519
  import EdPoints = Ed25519Points
  import EdSigs = Ed25519Signatures
  import opened Tasks
  import opened Envelopes
  import R = ReplayCache

  type Digest = seq<B.Byte> -> seq<B.Byte>

  /** The signature scheme is Ed25519 over the given digest, and hexadecimal text reads back. */
  ghost predicate UsesEd25519(p: Primitives, sha: Digest)
    requires Ed.IsDigest(sha)
  {
    && (forall m, seed :: |seed| == 32 && Ed.Sign(sha, m, seed).Ok? ==> p.sign(m, seed) == Ed.Sign(sha, m, seed).value)
    && (forall m, sig, pub :: p.verifies(m, sig, pub) == Ed.Verify(sha, m, sig, pub))
    && (forall b :: p.unhex(p.hex(b)) == Some(b))
  }

  lemma SchemeIsSound(p: Primitives, sha: Digest, seed: Octets)
    requires EdPoints.FieldPremises() && EdSigs.OrderPremise() && Ed.IsDigest(sha)
    requires |seed| == 32 && UsesEd25519(p, sha)
    ensures Ed.SeedToPublic(sha, seed).Ok? && Sound(p, seed, Ed.SeedToPublic(sha, seed).value)
  {
    hide Ed.Sign, Ed.Verify, Ed.SeedToPublic, EdPoints.FieldPremises, EdSigs.OrderPremise, Ed.IsDigest;
    EdSigs.EverySignatureVerifies(sha, [], seed);
    forall m
      ensures p.verifies(m, p.sign(m, seed), Ed.SeedToPublic(sha, seed).value)
    {
      EdSigs.EverySignatureVerifies(sha, m, seed);
    }
  }

  /** Every task that a client with a 32-byte seed signs is accepted by a worker that shares its
      token, and arrives with its arguments encoded. */
  lemma SignedTaskIsAccepted(p: Primitives, sha: Digest, t: Task, c: Client, iat: real, nonce: string,
                             known: map<string, ClientEntry>, skew: real, now: real)
    requires EdPoints.FieldPremises() && EdSigs.OrderPremise() && Ed.IsDigest(sha)
    requires |c.seed| == 32 && UsesEd25519(p, sha)
    requires Ed.SeedToPublic(sha, c.seed) == Ed.Ok(c.pub)
    requires ArgumentsWellFormed(t)
    requires c.id in known ==> !known[c.id].revoked && known[c.id].pubkey == p.hex(c.pub)
    requires R.Fresh(iat, now, skew)
    ensures Build(p, t, c, iat, nonce).Dict?
    ensures Judge(p, Build(p, t, c, iat, nonce).pairs, c.token, known, false, skew, now) == Accepted(Encoded(t))
  {
    hide *;
    SchemeIsSound(p, sha, c.seed);
    BuiltIsAccepted(p, t, c, iat, nonce, known, skew, now);
  }
}
