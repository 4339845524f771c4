/** The signed task envelope: building, verifying, and what the two agree on. */
module Envelopes {
  import opened Options
  import opened Values
  import opened Codec
  import opened CodecRoundTrip
  import opened Tasks
  import ReplayCache
  import B = Bytes

  type Octets = seq<B.Byte>

  /** What the envelope needs from elsewhere: the canonical text of a JSON value, the keyed
      hash and its per-client key, hexadecimal text, and the signature scheme. */
  datatype Primitives = Primitives(
    text: Value -> Octets,
    hmac: (Octets, Octets) -> string,
    clientKey: (Octets, string) -> Octets,
    hex: Octets -> string,
    unhex: string -> Option<Octets>,
    sign: (Octets, Octets) -> Octets,
    verifies: (Octets, Octets, Octets) -> bool)

  /** Hexadecimal text can be read back, and signatures of a seed verify under its public key. */
  ghost predicate Sound(p: Primitives, seed: Octets, pub: Octets) {
    && p.unhex(p.hex(pub)) == Some(pub)
    && (forall m :: p.unhex(p.hex(p.sign(m, seed))) == Some(p.sign(m, seed)))
    && (forall m :: p.verifies(m, p.sign(m, seed), pub))
  }

  datatype Client = Client(id: string, seed: Octets, pub: Octets, token: Octets)

  // ---- Building ----

  function Extra(p: Primitives, c: Client, iat: real, nonce: string): Pairs {
    With(ClientId, Some(Str(c.id)), With(Iat, Some(Float(iat)),
    With(Nonce, Some(Str(nonce)), With(Pubkey, Some(Str(p.hex(c.pub))), Empty))))
  }

  function Body(p: Primitives, t: Task, c: Client, iat: real, nonce: string): Pairs {
    Join(ToDict(t), Extra(p, c, iat, nonce))
  }

  function Signatures(hmac: string, ed: string): Pairs {
    With(Signature, Some(Str(hmac)), With(EdSig, Some(Str(ed)), Empty))
  }

  /** The text that is signed. */
  function Payload(p: Primitives, t: Task, c: Client, iat: real, nonce: string): Octets {
    p.text(Sent(Dict(Body(p, t, c, iat, nonce))))
  }

  /** build_signed_envelope, as the worker parses it. */
  function Build(p: Primitives, t: Task, c: Client, iat: real, nonce: string): Value {
    var payload := Payload(p, t, c, iat, nonce);
    Sent(Dict(Join(Body(p, t, c, iat, nonce),
                   Signatures(p.hmac(payload, p.clientKey(c.token, c.id)), p.hex(p.sign(payload, c.seed))))))
  }

  // ---- The payload the worker checks ----

  /** Drops both signature fields. */
  function Strip(ps: Pairs): Pairs {
    match ps
    case Empty => Empty
    case Entry(k, v, rest) =>
      if k == Str(Text(Signature)) || k == Str(Text(EdSig)) then Strip(rest) else Entry(k, v, Strip(rest))
  }

  function CanonicalPayload(p: Primitives, data: Pairs): Octets {
    p.text(Sent(Dict(Strip(data))))
  }

  lemma {:induction false} FieldJoin(a: Pairs, b: Pairs, name: string)
    ensures Field(Join(a, b), name) == if Field(a, name).Some? then Field(a, name) else Field(b, name)
  {
    if a.Entry? {
      FieldJoin(a.rest, b, name);
    }
  }

  lemma ReadJoin(a: Pairs, b: Pairs)
    ensures forall g: Name :: Read(Join(a, b), g) == if Read(a, g).Some? then Read(a, g) else Read(b, g)
  {
    hide Text;
    forall g: Name
      ensures Read(Join(a, b), g) == if Read(a, g).Some? then Read(a, g) else Read(b, g)
    {
      FieldJoin(a, b, Text(g));
    }
  }

  lemma {:induction false} SentJoin(a: Pairs, b: Pairs)
    ensures SentValues(Join(a, b)) == Join(SentValues(a), SentValues(b))
    ensures AllStr(Join(a, b)) <==> AllStr(a) && AllStr(b)
  {
    if a.Entry? {
      PairsStep(a);
      PairsStep(Join(a, b));
      SentJoin(a.rest, b);
      hide Sent, Wire;
    }
  }

  lemma {:induction false} StripNothing(a: Pairs)
    requires Read(a, Signature).None? && Read(a, EdSig).None?
    ensures Strip(a) == a
  {
    if a.Entry? {
      StripNothing(a.rest);
    }
  }

  lemma {:induction false} StripJoin(a: Pairs, b: Pairs)
    ensures Strip(Join(a, b)) == Join(Strip(a), Strip(b))
  {
    if a.Entry? {
      StripJoin(a.rest, b);
    }
  }

  lemma StripSignatures(hmac: string, ed: string)
    ensures Strip(Signatures(hmac, ed)) == Empty
  {
    assert Strip(With(EdSig, Some(Str(ed)), Empty)) == Empty;
  }

  lemma SentSignatures(hmac: string, ed: string)
    ensures SentValues(Signatures(hmac, ed)) == Signatures(hmac, ed) && AllStr(Signatures(hmac, ed))
  {
    SentScalar(Str(hmac));
    SentScalar(Str(ed));
    assert SentValues(Empty) == Empty && AllStr(Empty);
    hide SentValues, With, AllStr, Sent;
    SentWith(EdSig, Some(Str(ed)), Empty);
    SentWith(Signature, Some(Str(hmac)), With(EdSig, Some(Str(ed)), Empty));
  }

  lemma SentExtra(p: Primitives, c: Client, iat: real, nonce: string)
    ensures var e := Extra(p, c, iat, nonce); SentValues(e) == e && AllStr(e)
  {
    SentScalar(Str(c.id));
    SentScalar(Float(iat));
    SentScalar(Str(nonce));
    SentScalar(Str(p.hex(c.pub)));
    assert SentValues(Empty) == Empty && AllStr(Empty);
    hide SentValues, With, AllStr, Sent;
    var d4 := With(Pubkey, Some(Str(p.hex(c.pub))), Empty);
    var d3 := With(Nonce, Some(Str(nonce)), d4);
    var d2 := With(Iat, Some(Float(iat)), d3);
    SentWith(Pubkey, Some(Str(p.hex(c.pub))), Empty);
    SentWith(Nonce, Some(Str(nonce)), d4);
    SentWith(Iat, Some(Float(iat)), d3);
    SentWith(ClientId, Some(Str(c.id)), d2);
  }

  lemma ReadExtra(p: Primitives, c: Client, iat: real, nonce: string)
    ensures var e := Extra(p, c, iat, nonce);
      && Read(e, ClientId) == Some(Str(c.id)) && Read(e, Iat) == Some(Float(iat))
      && Read(e, Nonce) == Some(Str(nonce)) && Read(e, Pubkey) == Some(Str(p.hex(c.pub)))
      && forall g: Name :: !(g.ClientId? || g.Iat? || g.Nonce? || g.Pubkey?) ==> Read(e, g) == None
  {
    hide Read, With;
    ReadEmpty();
    var d4 := With(Pubkey, Some(Str(p.hex(c.pub))), Empty);
    var d3 := With(Nonce, Some(Str(nonce)), d4);
    var d2 := With(Iat, Some(Float(iat)), d3);
    ReadWith(Pubkey, Some(Str(p.hex(c.pub))), Empty);
    ReadWith(Nonce, Some(Str(nonce)), d4);
    ReadWith(Iat, Some(Float(iat)), d3);
    ReadWith(ClientId, Some(Str(c.id)), d2);
  }

  lemma ReadSignatures(hmac: string, ed: string)
    ensures var s := Signatures(hmac, ed);
      && Read(s, Signature) == Some(Str(hmac)) && Read(s, EdSig) == Some(Str(ed))
      && forall g: Name :: !(g.Signature? || g.EdSig?) ==> Read(s, g) == None
  {
    hide Read, With;
    ReadEmpty();
    ReadWith(EdSig, Some(Str(ed)), Empty);
    ReadWith(Signature, Some(Str(hmac)), With(EdSig, Some(Str(ed)), Empty));
  }

  lemma ReadTask(t: Task)
    ensures forall g :: !IsHead(g) && !IsOption(g) ==> Read(ToDict(t), g) == None
  {
    ReadHead(t, Optional(t));
    ReadOptions(t);
    hide Read, Head, Optional;
  }

  /** What a task's arguments must be: well-formed values, keyword names. */
  ghost predicate ArgumentsWellFormed(t: Task) {
    AllWellFormed(t.args) && PairsWellFormed(t.kwargs) && AllNames(t.kwargs)
  }

  /** Encoding a task's arguments a second time, as the worker's host does for the sandbox,
      changes nothing. */
  lemma EncodedOnce(t: Task)
    requires ArgumentsWellFormed(t)
    ensures Encoded(Encoded(t)) == Encoded(t)
    ensures AllStr(t.kwargs) && AllStr(Encoded(t).kwargs)
  {
    NamesRecoverable(t.kwargs, map[]);
    AllSentJson(t.args);
    PairsSentJson(t.kwargs);
    AllUnchanged(SentAll(t.args));
    PairsUnchanged(SentValues(t.kwargs));
  }

  lemma SentBody(p: Primitives, t: Task, c: Client, iat: real, nonce: string)
    requires AllStr(t.kwargs)
    ensures SentValues(Body(p, t, c, iat, nonce)) == Body(p, Encoded(t), c, iat, nonce)
    ensures AllStr(Body(p, t, c, iat, nonce))
  {
    SentOptions(t);
    SentHead(t, Optional(t));
    SentExtra(p, c, iat, nonce);
    SentJoin(ToDict(t), Extra(p, c, iat, nonce));
    assert Optional(Encoded(t)) == Optional(t);
  }

  lemma BodyUnsigned(p: Primitives, t: Task, c: Client, iat: real, nonce: string)
    ensures Read(Body(p, t, c, iat, nonce), Signature).None? && Read(Body(p, t, c, iat, nonce), EdSig).None?
  {
    hide ToDict, Extra, Read, Join;
    ReadTask(t);
    ReadExtra(p, c, iat, nonce);
    ReadJoin(ToDict(t), Extra(p, c, iat, nonce));
  }

  lemma StripBody(p: Primitives, t: Task, c: Client, iat: real, nonce: string, hmac: string, ed: string)
    ensures Strip(Join(Body(p, t, c, iat, nonce), Signatures(hmac, ed))) == Body(p, t, c, iat, nonce)
  {
    hide *;
    BodyUnsigned(p, t, c, iat, nonce);
    var body := Body(p, t, c, iat, nonce);
    StripNothing(body);
    StripJoin(body, Signatures(hmac, ed));
    StripSignatures(hmac, ed);
    JoinEmpty(body);
  }

  /** A built envelope holds the body with its arguments encoded, and the signatures. */
  lemma BuiltForm(p: Primitives, t: Task, c: Client, iat: real, nonce: string)
    requires ArgumentsWellFormed(t)
    ensures var payload := Payload(p, t, c, iat, nonce);
      Build(p, t, c, iat, nonce)
      == Dict(Join(Body(p, Encoded(t), c, iat, nonce),
                   Signatures(p.hmac(payload, p.clientKey(c.token, c.id)), p.hex(p.sign(payload, c.seed)))))
  {
    var payload := Payload(p, t, c, iat, nonce);
    var hmac, ed := p.hmac(payload, p.clientKey(c.token, c.id)), p.hex(p.sign(payload, c.seed));
    EncodedOnce(t);
    SentBody(p, t, c, iat, nonce);
    SentSignatures(hmac, ed);
    SentJoin(Body(p, t, c, iat, nonce), Signatures(hmac, ed));
    SentDict(Join(Body(p, t, c, iat, nonce), Signatures(hmac, ed)));
    hide SentValues, Sent, Body, Signatures, Join, AllStr, Encoded;
  }

  /** For every task, the payload the worker checks is the very payload the client signed. */
  lemma PayloadAgrees(p: Primitives, t: Task, c: Client, iat: real, nonce: string)
    requires ArgumentsWellFormed(t)
    ensures Build(p, t, c, iat, nonce).Dict?
    ensures CanonicalPayload(p, Build(p, t, c, iat, nonce).pairs) == Payload(p, t, c, iat, nonce)
  {
    var payload := Payload(p, t, c, iat, nonce);
    var hmac, ed := p.hmac(payload, p.clientKey(c.token, c.id)), p.hex(p.sign(payload, c.seed));
    var encoded := Body(p, Encoded(t), c, iat, nonce);
    BuiltForm(p, t, c, iat, nonce);
    StripBody(p, Encoded(t), c, iat, nonce, hmac, ed);
    EncodedOnce(t);
    SentBody(p, t, c, iat, nonce);
    SentBody(p, Encoded(t), c, iat, nonce);
    SentDict(Body(p, t, c, iat, nonce));
    SentDict(encoded);
  }

  // ---- Verifying ----

  datatype Verdict =
    | Accepted(task: Task) | Malformed | Revoked | Stale | Replayed | BadHmac | BadMaterial | BadSignature
    | IdentityMismatch | MissingField

  datatype ClientEntry = ClientEntry(pubkey: string, revoked: bool)

  /** The checked fields of an envelope. */
  datatype Fields = Fields(client: string, iat: real, nonce: string, pubHex: string, edHex: string, hmac: string)

  /** isinstance(iat, (int, float)): a bool is an int. */
  function Number(v: Option<Value>): Option<real> {
    match v
    case Some(Bool(b)) => Some(if b then 1.0 else 0.0)
    case _ => AsReal(v)
  }

  function FieldsOf(data: Pairs): Option<Fields> {
    var client, nonce := AsStr(Read(data, ClientId)), AsStr(Read(data, Nonce));
    var pub, ed := AsStr(Read(data, Pubkey)), AsStr(Read(data, EdSig));
    var hmac, iat := AsStr(Read(data, Signature)), Number(Read(data, Iat));
    if client.None? || nonce.None? || pub.None? || ed.None? || hmac.None? || iat.None? then None
    else Some(Fields(client.value, iat.value, nonce.value, pub.value, ed.value, hmac.value))
  }

  predicate IsFresh(iat: real, now: real, skew: real) {
    (if now - iat >= 0.0 then now - iat else iat - now) <= skew
  }

  predicate IsRevoked(known: map<string, ClientEntry>, client: string) {
    client in known && known[client].revoked
  }

  /** The signatures are good: what is left to check is the pinned key. */
  function CheckSignatures(p: Primitives, data: Pairs, f: Fields, token: Octets): Option<Verdict> {
    var payload := CanonicalPayload(p, data);
    if p.hmac(payload, p.clientKey(token, f.client)) != f.hmac then Some(BadHmac)
    else if p.unhex(f.pubHex).None? || p.unhex(f.edHex).None? then Some(BadMaterial)
    else if !p.verifies(payload, p.unhex(f.edHex).value, p.unhex(f.pubHex).value) then Some(BadSignature)
    else None
  }

  /** The checks in their order; seen says what the replay cache would answer. */
  function Judge(p: Primitives, data: Pairs, token: Octets, known: map<string, ClientEntry>, seen: bool,
                 skew: real, now: real): Verdict {
    var f := FieldsOf(data);
    if f.None? then Malformed
    else if IsRevoked(known, f.value.client) then Revoked
    else if !IsFresh(f.value.iat, now, skew) then Stale
    else if seen then Replayed
    else
      var bad := CheckSignatures(p, data, f.value, token);
      if bad.Some? then bad.value
      else if f.value.client in known && known[f.value.client].pubkey != f.value.pubHex then IdentityMismatch
      else match FromDict(data, "") case Some(t) => Accepted(t) case None => MissingField
  }

  /** The pinned keys of the clients. */
  class KnownClients {
    var entries: map<string, ClientEntry>

    constructor ()
      ensures entries == map[]
    {
      entries := map[];
    }

    /** Pins a key on first sight; afterwards only that key is good. */
    method RegisterOrVerify(client: string, pubkey: string) returns (ok: bool)
      modifies this
      ensures ok == (client !in old(entries) || old(entries)[client].pubkey == pubkey)
      ensures entries == if client in old(entries) then old(entries) else old(entries)[client := ClientEntry(pubkey, false)]
    {
      if client !in entries {
        entries := entries[client := ClientEntry(pubkey, false)];
        return true;
      }
      ok := entries[client].pubkey == pubkey;
    }
  }

  /** The replay cache is asked exactly when the fields are there, the client is not revoked and
      the envelope is fresh. */
  predicate AsksCache(data: Pairs, known: map<string, ClientEntry>, skew: real, now: real) {
    var f := FieldsOf(data);
    f.Some? && !IsRevoked(known, f.value.client) && IsFresh(f.value.iat, now, skew)
  }

  /** verify_task_envelope. */
  method Verify(p: Primitives, data: Pairs, token: Octets, known: KnownClients, lru: ReplayCache.NonceLRU,
                skew: real, now: real) returns (v: Verdict)
    modifies known, lru
    ensures var kept := ReplayCache.Evicted(old(lru.items), lru.ttl, lru.capacity, now);
      if AsksCache(data, old(known.entries), skew, now) then
        var key := (FieldsOf(data).value.client, FieldsOf(data).value.nonce);
        var seen := ReplayCache.Recorded(kept, key);
        && v == Judge(p, data, token, old(known.entries), seen, skew, now)
        && lru.items == if seen then kept else kept + [(key, now)]
      else
        v == Judge(p, data, token, old(known.entries), false, skew, now) && lru.items == old(lru.items)
    ensures v.Accepted? ==>
      var f := FieldsOf(data); f.Some? && f.value.client in known.entries && known.entries[f.value.client].pubkey == f.value.pubHex
    ensures forall c :: c in old(known.entries) ==> c in known.entries && known.entries[c] == old(known.entries)[c]
  {
    hide FromDict, FieldsOf, CanonicalPayload, ReplayCache.Evicted, ReplayCache.Recorded;
    var f := FieldsOf(data);
    if f.None? {
      return Malformed;
    }
    if f.value.client in known.entries && known.entries[f.value.client].revoked {
      return Revoked;
    }
    if !IsFresh(f.value.iat, now, skew) {
      return Stale;
    }
    var isNew := lru.CheckAndAdd(f.value.client, f.value.nonce, now);
    if !isNew {
      return Replayed;
    }
    var payload := CanonicalPayload(p, data);
    if p.hmac(payload, p.clientKey(token, f.value.client)) != f.value.hmac {
      return BadHmac;
    }
    var pub, ed := p.unhex(f.value.pubHex), p.unhex(f.value.edHex);
    if pub.None? || ed.None? {
      return BadMaterial;
    }
    if !p.verifies(payload, ed.value, pub.value) {
      return BadSignature;
    }
    var same := known.RegisterOrVerify(f.value.client, f.value.pubHex);
    if !same {
      return IdentityMismatch;
    }
    var t := FromDict(data, "");
    v := if t.Some? then Accepted(t.value) else MissingField;
  }

  lemma ReadBuilt(p: Primitives, t: Task, c: Client, iat: real, nonce: string, hmac: string, ed: string)
    ensures var data := Join(Body(p, t, c, iat, nonce), Signatures(hmac, ed));
      && (forall g: Name :: IsHead(g) || IsOption(g) ==> Read(data, g) == Read(ToDict(t), g))
      && Read(data, ClientId) == Some(Str(c.id)) && Read(data, Iat) == Some(Float(iat))
      && Read(data, Nonce) == Some(Str(nonce)) && Read(data, Pubkey) == Some(Str(p.hex(c.pub)))
      && Read(data, Signature) == Some(Str(hmac)) && Read(data, EdSig) == Some(Str(ed))
  {
    hide Read, ToDict, Extra, Signatures, Join;
    var extra := Extra(p, c, iat, nonce);
    var body, sigs := Body(p, t, c, iat, nonce), Signatures(hmac, ed);
    ReadTask(t);
    ReadExtra(p, c, iat, nonce);
    ReadSignatures(hmac, ed);
    ReadJoin(body, sigs);
    ReadJoin(ToDict(t), extra);
  }

  lemma BuiltFields(p: Primitives, t: Task, c: Client, iat: real, nonce: string, hmac: string, ed: string)
    ensures var data := Join(Body(p, t, c, iat, nonce), Signatures(hmac, ed));
      && FieldsOf(data) == Some(Fields(c.id, iat, nonce, p.hex(c.pub), ed, hmac))
      && FromDict(data, "") == Some(t)
  {
    hide Read, ToDict, Body, Signatures, Join, HoldsTask, FromDict;
    var data := Join(Body(p, t, c, iat, nonce), Signatures(hmac, ed));
    ReadBuilt(p, t, c, iat, nonce, hmac, ed);
    ToDictHolds(t);
    SameKeysHold(ToDict(t), data, t);
    TaskRoundTrip(t, data, "");
  }

  /** An envelope that a client built is accepted, and gives the task with its arguments
      encoded: for every task, while the client is not revoked, the clock is within the skew,
      the nonce is new, and the client's key is unknown or the pinned one. */
  lemma BuiltIsAccepted(p: Primitives, t: Task, c: Client, iat: real, nonce: string,
                        known: map<string, ClientEntry>, skew: real, now: real)
    requires ArgumentsWellFormed(t) && Sound(p, c.seed, c.pub)
    requires c.id in known ==> !known[c.id].revoked && known[c.id].pubkey == p.hex(c.pub)
    requires ReplayCache.Fresh(iat, now, skew)
    ensures Build(p, t, c, iat, nonce).Dict?
    ensures Judge(p, Build(p, t, c, iat, nonce).pairs, c.token, known, false, skew, now) == Accepted(Encoded(t))
  {
    var payload := Payload(p, t, c, iat, nonce);
    var hmac, ed := p.hmac(payload, p.clientKey(c.token, c.id)), p.hex(p.sign(payload, c.seed));
    BuiltForm(p, t, c, iat, nonce);
    PayloadAgrees(p, t, c, iat, nonce);
    BuiltFields(p, Encoded(t), c, iat, nonce, hmac, ed);
    hide Build, Payload, FieldsOf, FromDict, CanonicalPayload, ArgumentsWellFormed, Body, Signatures, Join, Encoded;
    var data := Join(Body(p, Encoded(t), c, iat, nonce), Signatures(hmac, ed));
    assert IsFresh(iat, now, skew);
    assert CheckSignatures(p, data, FieldsOf(data).value, c.token).None?;
  }

  /** Only envelopes pass whose payload carries both signatures, made with the token's key for
      that client and with the private key of the pinned identity. */
  lemma AcceptedIsSigned(p: Primitives, data: Pairs, token: Octets, known: map<string, ClientEntry>, seen: bool, skew: real, now: real)
    requires Judge(p, data, token, known, seen, skew, now).Accepted?
    ensures FieldsOf(data).Some? && !seen
    ensures var f := FieldsOf(data).value;
      && f.hmac == p.hmac(CanonicalPayload(p, data), p.clientKey(token, f.client))
      && p.unhex(f.edHex).Some? && p.unhex(f.pubHex).Some?
      && p.verifies(CanonicalPayload(p, data), p.unhex(f.edHex).value, p.unhex(f.pubHex).value)
      && (f.client in known ==> !known[f.client].revoked && known[f.client].pubkey == f.pubHex)
      && ReplayCache.Fresh(f.iat, now, skew)
  {
    hide FieldsOf, FromDict, CanonicalPayload;
  }

  /** Accepted twice within one run of the cache: impossible, whatever else it was asked. */
  lemma NoReplay(data: Pairs, known: map<string, ClientEntry>, known': map<string, ClientEntry>, skew: real,
                 calls: seq<ReplayCache.Call>, i: nat, j: nat, ttl: real, capacity: nat)
    requires ReplayCache.ClockRuns(calls) && ReplayCache.NeverFull(ReplayCache.Run(calls, ttl, capacity).log, ttl, capacity)
    requires ttl >= 2.0 * skew && i < j < |calls|
    requires AsksCache(data, known, skew, calls[i].now) && AsksCache(data, known', skew, calls[j].now)
    requires var key := (FieldsOf(data).value.client, FieldsOf(data).value.nonce); calls[i].key == key && calls[j].key == key
    ensures !(ReplayCache.Accepts(calls, i, ttl, capacity) && ReplayCache.Accepts(calls, j, ttl, capacity))
  {
    hide FieldsOf;
    ReplayCache.NothingPassesTwice(calls, i, j, FieldsOf(data).value.iat, skew, ttl, capacity);
  }

  // ---- What the signatures cover ----

  /** Different JSON dictionaries have different texts. */
  ghost predicate TextTells(p: Primitives) {
    forall a, b :: IsJson(Dict(a)) && IsJson(Dict(b)) && p.text(Dict(a)) == p.text(Dict(b)) ==> a == b
  }

  lemma {:induction false} StripJson(ps: Pairs)
    requires PairsJson(ps)
    ensures PairsJson(Strip(ps))
  {
    if ps.Entry? {
      StripJson(ps.rest);
    }
  }

  lemma {:induction false} StripKeeps(ps: Pairs, name: string)
    requires PairsJson(ps) && name != Text(Signature) && name != Text(EdSig)
    ensures Field(Strip(ps), name) == Field(ps, name)
  {
    if ps.Entry? {
      StripKeeps(ps.rest, name);
    }
  }

  lemma ReadStripped(data: Pairs, g: Name)
    requires PairsJson(data) && g != Signature && g != EdSig
    ensures Read(Strip(data), g) == Read(data, g)
  {
    if Text(g) == Text(Signature) {
      TextInjective(g, Signature);
    }
    if Text(g) == Text(EdSig) {
      TextInjective(g, EdSig);
    }
    hide Text;
    StripKeeps(data, Text(g));
  }

  /** The signed payload tells the whole envelope but its two signatures: envelopes with the same
      payload name the same client, time, nonce and key, and carry the same task. */
  lemma PayloadTellsAll(p: Primitives, data: Pairs, data': Pairs, freshId: string)
    requires TextTells(p) && PairsJson(data) && PairsJson(data')
    requires CanonicalPayload(p, data) == CanonicalPayload(p, data')
    ensures forall g :: g != Signature && g != EdSig ==> Read(data, g) == Read(data', g)
    ensures FromDict(data, freshId) == FromDict(data', freshId)
  {
    StripJson(data);
    StripJson(data');
    JsonUnchanged(Dict(Strip(data)));
    JsonUnchanged(Dict(Strip(data')));
    assert Strip(data) == Strip(data');
    hide Read, Strip, PairsJson, CanonicalPayload, TextTells;
    forall g: Name | g != Signature && g != EdSig
      ensures Read(data, g) == Read(data', g)
    {
      ReadStripped(data, g);
      ReadStripped(data', g);
    }
    SameReading(data, data', freshId);
  }

  lemma SameReading(data: Pairs, data': Pairs, freshId: string)
    requires forall g :: g != Signature && g != EdSig ==> Read(data, g) == Read(data', g)
    ensures FromDict(data, freshId) == FromDict(data', freshId)
  {
    hide *;
    forall g | IsHead(g) || IsOption(g)
      ensures Read(data, g) == Read(data', g)
    {
      NotSignatures(g);
    }
    ReadsAlike(data, data', freshId);
  }

  lemma NotSignatures(g: Name)
    requires IsHead(g) || IsOption(g)
    ensures g != Signature && g != EdSig
  {
  }

  lemma ReadsAlike(data: Pairs, data': Pairs, freshId: string)
    requires forall g :: IsHead(g) || IsOption(g) ==> Read(data, g) == Read(data', g)
    ensures FromDict(data, freshId) == FromDict(data', freshId)
  {
    hide Read, AsReal, AsInt, AsStr;
    assert IsHead(Id) && IsHead(Graph) && IsHead(Function) && IsHead(Args) && IsHead(Kwargs);
    assert IsOption(Timeout) && IsOption(Retries) && IsOption(RetryDelay) && IsOption(ScheduledAt);
    assert IsOption(RecurInterval) && IsOption(RecurDeadline) && IsOption(RecurRemaining);
    assert IsOption(ScheduleId) && IsOption(Throttle) && IsOption(Storage);
    hide IsHead, IsOption;
  }
}
