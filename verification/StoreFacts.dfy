/** What garbage collection and extraction leave unchanged, and how a store survives
    serialization. */
module StoreFacts {
  import opened Options
  import opened Dictionary
  import opened Reachability
  import opened Nodes
  import opened StoreContents
  import opened StoreClass

  /** Two graphs that agree on what a node reaches give it the same reach. */
  lemma SameReach(g: Edges, g': Edges, a: Node)
    requires forall n :: Reaches(g, a, n) ==> Successors(g, n) == Successors(g', n)
    ensures Walk(g, a) == Walk(g', a)
    ensures forall n :: Reaches(g, a, n) <==> Reaches(g', a, n)
  {
    WalkAgrees(g, g', a);
    WalkExact(g, a);
    WalkExact(g', a);
  }

  // ---- When two stores collect the same nodes ----

  /** Two stores say the same about a hash, including the names of what it refers to. */
  ghost predicate AgreeAt(c: Contents, c': Contents, h: Hash) {
    && (h in c.objects <==> h in c'.objects)
    && NameOf(c.refs, h) == NameOf(c'.refs, h)
    && Successors(c.deps, h) == Successors(c'.deps, h)
    && (forall d :: d in Successors(c.deps, h) ==> NameOf(c.refs, d) == NameOf(c'.refs, d))
    && (h in c.objects ==>
          && c.objects[h] == c'.objects[h]
          && ResolveRefs(c.refs, c.objects[h].closureFuncRefs) == ResolveRefs(c'.refs, c.objects[h].closureFuncRefs))
  }

  lemma NodeAgrees(c: Contents, c': Contents, h: Hash)
    requires AgreeAt(c, c', h) && h in c.objects
    ensures NodeOf(c, h, c.objects[h]) == NodeOf(c', h, c'.objects[h])
    ensures QualifiedName(c, h, c.objects[h]) == QualifiedName(c', h, c'.objects[h])
  {
    var hashes := Successors(c.deps, h);
    forall i | 0 <= i < |hashes|
      ensures NamesOf(c.refs, hashes)[i] == NamesOf(c'.refs, hashes)[i]
    {
      assert hashes[i] in hashes;
    }
    assert NamesOf(c.refs, hashes) == NamesOf(c'.refs, hashes);
  }

  lemma {:induction false} CollectAgrees(c: Contents, c': Contents, hashes: seq<Hash>, needed: Dict<FunctionNode>)
    requires forall h :: h in hashes ==> AgreeAt(c, c', h)
    ensures CollectFrom(c, hashes, needed) == CollectFrom(c', hashes, needed)
  {
    if hashes != [] {
      var h := hashes[0];
      assert AgreeAt(c, c', h) && (h in c.objects <==> h in c'.objects);
      assert forall g :: g in hashes[1..] ==> g in hashes;
      if h in c.objects {
        NodeAgrees(c, c', h);
        hide AgreeAt, NodeOf, QualifiedName;
        CollectAgrees(c, c', hashes[1..], Put(needed, QualifiedName(c, h, c.objects[h]), NodeOf(c, h, c.objects[h])));
      } else {
        hide AgreeAt;
        CollectAgrees(c, c', hashes[1..], needed);
      }
    }
  }

  /** Agreement on everything a root reaches gives the same needed nodes. */
  lemma NeededAgrees(c: Contents, c': Contents, root: Hash)
    requires forall h :: Reaches(c.deps, root, h) ==> AgreeAt(c, c', h)
    ensures Needed(c, root) == Needed(c', root)
  {
    forall h | Reaches(c.deps, root, h)
      ensures Successors(c.deps, h) == Successors(c'.deps, h)
    {
      assert AgreeAt(c, c', h);
    }
    SameReach(c.deps, c'.deps, root);
    WalkExact(c.deps, root);
    CollectAgrees(c, c', Walk(c.deps, root), []);
  }

  // ---- Garbage collection ----

  ghost predicate Garbage(c: Contents, garbage: set<Hash>) {
    forall h :: h in garbage <==> h in c.objects && !Live(c.refs, c.deps, h)
  }

  /** The contents after garbage collection. */
  function Swept(c: Contents, garbage: set<Hash>): Contents {
    Contents(Without(c.objects, garbage), Without(c.deps, garbage), c.refs)
  }

  lemma LiveReaches(c: Contents, i: nat, n: Hash)
    requires i < |c.refs| && Reaches(c.deps, c.refs[i].1, n)
    ensures Live(c.refs, c.deps, n)
  {
  }

  lemma SweptReach(c: Contents, garbage: set<Hash>, i: nat)
    requires Garbage(c, garbage) && i < |c.refs|
    ensures Walk(c.deps, c.refs[i].1) == Walk(Swept(c, garbage).deps, c.refs[i].1)
    ensures forall n :: Reaches(c.deps, c.refs[i].1, n) <==> Reaches(Swept(c, garbage).deps, c.refs[i].1, n)
    ensures forall n :: Reaches(c.deps, c.refs[i].1, n) ==> n !in garbage
  {
    var a := c.refs[i].1;
    forall n | Reaches(c.deps, a, n)
      ensures n !in garbage && Successors(c.deps, n) == Successors(Swept(c, garbage).deps, n)
    {
      LiveReaches(c, i, n);
    }
    SameReach(c.deps, Swept(c, garbage).deps, a);
  }

  /** Every object that is left is reachable from a reference: a second collection removes
      nothing. */
  lemma GcIdempotent(c: Contents, garbage: set<Hash>)
    requires Garbage(c, garbage)
    ensures Garbage(Swept(c, garbage), {})
  {
    var s := Swept(c, garbage);
    forall h | h in s.objects
      ensures Live(s.refs, s.deps, h)
    {
      assert Live(c.refs, c.deps, h);
      var i :| 0 <= i < |c.refs| && Reaches(c.deps, c.refs[i].1, h);
      SweptReach(c, garbage, i);
      LiveReaches(s, i, h);
    }
  }

  lemma {:induction false} FindSimpleIsRef(c: Contents, refs: Dict<Hash>, name: string)
    requires FindSimple(c, refs, name).Some?
    ensures exists i :: 0 <= i < |refs| && refs[i].1 == FindSimple(c, refs, name).value
  {
    if refs[0].1 in c.objects && c.objects[refs[0].1].name == name {
      assert refs[0].1 == FindSimple(c, refs, name).value;
    } else {
      FindSimpleIsRef(c, refs[1..], name);
      var i :| 0 <= i < |refs[1..]| && refs[1..][i].1 == FindSimple(c, refs, name).value;
      assert refs[i + 1].1 == FindSimple(c, refs, name).value;
    }
  }

  /** Only hashes that some name refers to can be resolved. */
  lemma ResolveIsRef(c: Contents, name: string) returns (i: nat)
    requires Resolve(c, name).Some?
    ensures i < |c.refs| && c.refs[i].1 == Resolve(c, name).value
  {
    GetSome(c.refs, name);
    if Get(c.refs, name).Some? {
      i :| 0 <= i < |c.refs| && c.refs[i] == (name, Get(c.refs, name).value);
    } else {
      FindSimpleIsRef(c, c.refs, name);
      i :| 0 <= i < |c.refs| && c.refs[i].1 == FindSimple(c, c.refs, name).value;
    }
  }

  lemma {:induction false} FindSimpleSwept(c: Contents, garbage: set<Hash>, k: nat, name: string)
    requires Garbage(c, garbage) && k <= |c.refs|
    ensures FindSimple(c, c.refs[k..], name) == FindSimple(Swept(c, garbage), c.refs[k..], name)
    decreases |c.refs| - k
  {
    if k < |c.refs| {
      ReachesSelf(c.deps, c.refs[k].1);
      LiveReaches(c, k, c.refs[k].1);
      assert c.refs[k..][1..] == c.refs[k + 1..];
      FindSimpleSwept(c, garbage, k + 1, name);
    }
  }

  /** Garbage collection changes the reconstruction of no name. */
  lemma GcKeepsPrograms(c: Contents, garbage: set<Hash>, name: string)
    requires Garbage(c, garbage)
    ensures Reconstruct(Swept(c, garbage), name) == Reconstruct(c, name)
  {
    var s := Swept(c, garbage);
    FindSimpleSwept(c, garbage, 0, name);
    assert c.refs[0..] == c.refs;
    if Resolve(c, name).Some? {
      var i := ResolveIsRef(c, name);
      var root := Resolve(c, name).value;
      SweptReach(c, garbage, i);
      forall h | Reaches(c.deps, root, h)
        ensures AgreeAt(c, s, h)
      {
        assert h !in garbage;
      }
      NeededAgrees(c, s, root);
    }
  }

  // ---- Extraction of a subgraph ----

  /** A copied hash keeps its name, and no other hash has one. */
  lemma CopiedName(c: Contents, sub: Contents, done: set<Hash>, h: Hash)
    requires UniqueKeys(c.refs) && UniqueKeys(sub.refs) && Copied(c, sub, done)
    ensures NameOf(sub.refs, h) == if h in done then NameOf(c.refs, h) else None
  {
    if NameOf(sub.refs, h).Some? {
      NameOfUnique(sub.refs, h);
    }
    if h in done && NameOf(c.refs, h).Some? {
      var n := NameOf(c.refs, h).value;
      assert Get(sub.refs, n) == Some(h);
      GetSome(sub.refs, n);
      NameOfIsRef(sub.refs, h);
    }
  }

  /** Captured functions of copied blobs are copied too, or go by no name in the store. */
  ghost predicate CapturesCopied(c: Contents, done: set<Hash>) {
    forall h, i :: h in done && h in c.objects && 0 <= i < |c.objects[h].closureFuncRefs| ==>
      var r := c.objects[h].closureFuncRefs[i].1; r in done || NameOf(c.refs, r).None?
  }

  lemma CopiedAgrees(c: Contents, sub: Contents, done: set<Hash>, h: Hash)
    requires UniqueKeys(c.refs) && UniqueKeys(sub.refs) && Copied(c, sub, done) && CapturesCopied(c, done)
    requires h in done && forall d :: d in Successors(c.deps, h) ==> d in done
    ensures AgreeAt(c, sub, h)
  {
    CopiedName(c, sub, done, h);
    forall d | d in Successors(c.deps, h)
      ensures NameOf(c.refs, d) == NameOf(sub.refs, d)
    {
      CopiedName(c, sub, done, d);
    }
    if h in c.objects {
      var captured := c.objects[h].closureFuncRefs;
      forall i | 0 <= i < |captured|
        ensures ResolveRefs(c.refs, captured)[i] == ResolveRefs(sub.refs, captured)[i]
      {
        CopiedName(c, sub, done, captured[i].1);
        assert captured[i].1 in done || NameOf(c.refs, captured[i].1).None?;
      }
      assert ResolveRefs(c.refs, captured) == ResolveRefs(sub.refs, captured);
    }
  }

  /** Extraction keeps the reconstruction of every qualified name it takes along: that is, of
      every name that is the last one of a copied hash. */
  lemma SubgraphKeepsPrograms(c: Contents, sub: Contents, done: set<Hash>, name: string, root: Hash)
    requires UniqueKeys(c.refs) && UniqueKeys(sub.refs) && Copied(c, sub, done) && CapturesCopied(c, done)
    requires Closed(c.deps, done) && root in done && NameOf(c.refs, root) == Some(name)
    ensures Reconstruct(sub, name) == Reconstruct(c, name)
  {
    NameOfUnique(c.refs, root);
    assert Get(sub.refs, name) == Some(root);
    CopiedName(c, sub, done, root);
    forall h | Reaches(c.deps, root, h)
      ensures AgreeAt(c, sub, h)
    {
      var p :| PathBetween(c.deps, p, root, h);
      ClosedContains(c.deps, done, p, h);
      CopiedAgrees(c, sub, done, h);
    }
    NeededAgrees(c, sub, root);
  }

  /** Every name has a hash of its own, and captured functions are held by names, which are no
      hashes: what a graph puts into a store. */
  ghost predicate HeldByName(c: Contents) {
    && (forall i, j :: 0 <= i < j < |c.refs| ==> c.refs[i].1 != c.refs[j].1)
    && forall h, i :: h in c.objects && 0 <= i < |c.objects[h].closureFuncRefs| ==> NameOf(c.refs, c.objects[h].closureFuncRefs[i].1).None?
  }

  /** From such a store extraction keeps the reconstruction of every name of a copied hash. */
  lemma SubgraphKeepsEveryProgram(c: Contents, sub: Contents, done: set<Hash>, name: string)
    requires UniqueKeys(c.refs) && UniqueKeys(sub.refs) && Copied(c, sub, done) && HeldByName(c)
    requires Closed(c.deps, done) && Get(c.refs, name).Some? && Get(c.refs, name).value in done
    ensures Reconstruct(sub, name) == Reconstruct(c, name)
  {
    var root := Get(c.refs, name).value;
    GetSome(c.refs, name);
    NameOfIsRef(c.refs, root);
    var i :| 0 <= i < |c.refs| && c.refs[i] == (name, root);
    var j :| 0 <= j < |c.refs| && c.refs[j] == (NameOf(c.refs, root).value, root);
    hide Reconstruct, Copied, Closed;
    assert i == j;
    SubgraphKeepsPrograms(c, sub, done, name, root);
  }
}
