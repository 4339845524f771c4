/** The dependency graph: its rooted subgraphs, and its way into a store and back. */
module GraphClass {
  import opened Options
  import opened Dictionary
  import opened Reachability
  import opened Nodes
  import opened StoreContents
  import opened Reconstruction
  import opened StoreClass

  // ---- Rooted subgraphs ----

  /** The dependency edges between the names of a graph. */
  function NameEdges(nodes: Dict<FunctionNode>): Edges {
    map q | q in Keys(nodes) && Get(nodes, q).Some? :: Get(nodes, q).value.dependencies
  }

  /** Everything the roots need: a closed set with the roots in it. */
  ghost predicate ClosedWith(nodes: Dict<FunctionNode>, roots: seq<string>, s: set<string>) {
    (forall r :: r in roots ==> r in s) && Closed(NameEdges(nodes), s)
  }

  /** The collected names form the smallest dependency-closed set that contains the roots. */
  lemma CollectedIsSmallest(nodes: Dict<FunctionNode>, roots: seq<string>, s: set<string>)
    ensures var r := WalkFrom(NameEdges(nodes), [], roots);
      && Distinct(r) && ClosedWith(nodes, roots, Elements(r))
      && (ClosedWith(nodes, roots, s) ==> Elements(r) <= s)
  {
    var g := NameEdges(nodes);
    var r := WalkFrom(g, [], roots);
    WalkFromClosed(g, [], roots);
    if ClosedWith(nodes, roots, s) {
      forall n | n in r
        ensures n in s
      {
        WalkFromOrigin(g, [], roots, n);
        var root :| root in roots && Reaches(g, root, n);
        var p :| PathBetween(g, p, root, n);
        ClosedContains(g, s, p, n);
      }
    }
  }

  // ---- Into a store ----

  type ContentHash = Blob -> Hash

  /** The hashes of the dependencies that are nodes of the graph. */
  function DepHashes(nodes: Dict<FunctionNode>, hash: ContentHash, names: seq<string>): seq<Hash> {
    if names == [] then []
    else
      (if Get(nodes, names[0]).Some? then [hash(Get(nodes, names[0]).value.content)] else [])
      + DepHashes(nodes, hash, names[1..])
  }

  /** The store holds every node: blob under its hash, name, and dependency list. */
  ghost predicate Holds(nodes: Dict<FunctionNode>, hash: ContentHash, c: Contents) {
    && |c.refs| == |nodes|
    && forall i :: 0 <= i < |nodes| ==>
         var h := hash(nodes[i].1.content);
         && c.refs[i] == (nodes[i].0, h)
         && h in c.objects && c.objects[h] == nodes[i].1.content
         && Successors(c.deps, h) == DepHashes(nodes, hash, nodes[i].1.dependencies)
  }

  /** Different nodes have different content hashes. */
  ghost predicate DistinctHashes(nodes: Dict<FunctionNode>, hash: ContentHash) {
    forall i, j :: 0 <= i < j < |nodes| ==> hash(nodes[i].1.content) != hash(nodes[j].1.content)
  }

  // ---- Through the serialized form ----

  /** A captured reference survives: as a name it is the last name of its hash, and otherwise
      it is not a hash that goes by a name. */
  predicate Survives(refs: Dict<Hash>, v: string) {
    match Get(refs, v)
    case Some(h) => NameOf(refs, h) == Some(v)
    case None => NameOf(refs, v).None?
  }

  lemma SurvivesExactly(refs: Dict<Hash>, v: string)
    requires UniqueKeys(refs)
    ensures GetOr(NameOf(refs, RefToHash(refs, v)), RefToHash(refs, v)) == v <==> Survives(refs, v)
  {
    if Get(refs, v).Some? {
      GetSome(refs, v);
      NameOfIsRef(refs, Get(refs, v).value);
    } else if NameOf(refs, v).Some? {
      NameOfUnique(refs, v);
    }
  }

  lemma BlobSurvives(refs: Dict<Hash>, captured: seq<(string, string)>)
    requires UniqueKeys(refs)
    ensures ResolveRefs(refs, HashesForRefs(refs, captured)) == captured
       <==> forall i :: 0 <= i < |captured| ==> Survives(refs, captured[i].1)
  {
    var r := ResolveRefs(refs, HashesForRefs(refs, captured));
    forall i | 0 <= i < |captured|
      ensures r[i] == captured[i] <==> Survives(refs, captured[i].1)
    {
      SurvivesExactly(refs, captured[i].1);
    }
    if r == captured {
      forall i | 0 <= i < |captured|
        ensures Survives(refs, captured[i].1)
      {
        assert r[i] == captured[i];
      }
    }
  }

  /** Writing a store out and reading it back gives the same store exactly when no dependency
      list is empty and every captured reference survives. */
  lemma StoreRoundTrip(c: Contents)
    requires UniqueKeys(c.refs)
    ensures Deserialized(Serialized(c)) == c <==>
      && (forall h :: h in c.deps ==> c.deps[h] != [])
      && forall h, i :: h in c.objects && 0 <= i < |c.objects[h].closureFuncRefs| ==>
           Survives(c.refs, c.objects[h].closureFuncRefs[i].1)
  {
    var r := Deserialized(Serialized(c));
    assert r.objects.Keys == c.objects.Keys;
    forall h | h in c.objects
      ensures r.objects[h] == c.objects[h] <==>
        forall i :: 0 <= i < |c.objects[h].closureFuncRefs| ==> Survives(c.refs, c.objects[h].closureFuncRefs[i].1)
    {
      BlobSurvives(c.refs, c.objects[h].closureFuncRefs);
    }
    hide Survives, Serialized, Deserialized;
    DepsSurvive(c);
    if r == c {
      forall h | h in c.objects
        ensures r.objects[h] == c.objects[h]
      {
      }
    } else if forall h :: h in c.objects ==> r.objects[h] == c.objects[h] {
      assert r.objects == c.objects;
    }
  }

  lemma DepsSurvive(c: Contents)
    ensures Deserialized(Serialized(c)).refs == c.refs
    ensures Deserialized(Serialized(c)).deps == c.deps <==> forall h :: h in c.deps ==> c.deps[h] != []
    ensures forall h :: Successors(Deserialized(Serialized(c)).deps, h) == Successors(c.deps, h)
  {
    var r := Deserialized(Serialized(c)).deps;
    if forall h :: h in c.deps ==> c.deps[h] != [] {
      assert r == c.deps;
    } else {
      var h :| h in c.deps && c.deps[h] == [];
      assert h !in r;
    }
  }

  // ---- to_store ----

  /** The first loop of to_store: blobs and names. */
  function StoreNodes(nodes: Dict<FunctionNode>, hash: ContentHash): Contents {
    if nodes == [] then Contents(map[], map[], [])
    else
      var k := |nodes| - 1;
      var c := StoreNodes(nodes[..k], hash);
      var h := hash(nodes[k].1.content);
      Contents(if h in c.objects then c.objects else c.objects[h := nodes[k].1.content], map[], Put(c.refs, nodes[k].0, h))
  }

  lemma NodesHaveNoDeps(nodes: Dict<FunctionNode>, hash: ContentHash)
    ensures StoreNodes(nodes, hash).deps == map[]
  {
  }

  /** The second loop: dependency lists, an empty one removing the entry. */
  function StoreDeps(nodes: Dict<FunctionNode>, hash: ContentHash, todo: Dict<FunctionNode>): map<Hash, seq<Hash>> {
    if todo == [] then map[]
    else
      var k := |todo| - 1;
      var deps := StoreDeps(nodes, hash, todo[..k]);
      var h := hash(todo[k].1.content);
      var found := DepHashes(nodes, hash, todo[k].1.dependencies);
      if found != [] then deps[h := found] else Without(deps, {h})
  }

  function StoreOf(nodes: Dict<FunctionNode>, hash: ContentHash): Contents {
    StoreNodes(nodes, hash).(deps := StoreDeps(nodes, hash, nodes))
  }

  ghost predicate IsNodeHash(nodes: Dict<FunctionNode>, hash: ContentHash, h: Hash) {
    exists i :: 0 <= i < |nodes| && hash(nodes[i].1.content) == h
  }

  lemma {:induction false} ObjectsAreNodes(nodes: Dict<FunctionNode>, hash: ContentHash, h: Hash)
    requires h in StoreNodes(nodes, hash).objects
    ensures IsNodeHash(nodes, hash, h)
  {
    var k := |nodes| - 1;
    if h == hash(nodes[k].1.content) {
      assert IsNodeHash(nodes, hash, h);
    } else {
      ObjectsAreNodes(nodes[..k], hash, h);
      var i :| 0 <= i < k && hash(nodes[..k][i].1.content) == h;
      assert nodes[i] == nodes[..k][i];
    }
  }

  /** The blob and the reference of one node are stored. */
  ghost predicate HoldsNode(nodes: Dict<FunctionNode>, hash: ContentHash, c: Contents, i: nat)
    requires i < |nodes| && i < |c.refs|
  {
    var h := hash(nodes[i].1.content);
    c.refs[i] == (nodes[i].0, h) && h in c.objects && c.objects[h] == nodes[i].1.content
  }

  lemma {:induction false} StoreNodesHold(nodes: Dict<FunctionNode>, hash: ContentHash)
    requires UniqueKeys(nodes) && DistinctHashes(nodes, hash)
    ensures var c := StoreNodes(nodes, hash);
      |c.refs| == |nodes| && forall i :: 0 <= i < |nodes| ==> HoldsNode(nodes, hash, c, i)
  {
    if nodes != [] {
      var k := |nodes| - 1;
      var before := nodes[..k];
      var c := StoreNodes(before, hash);
      StoreNodesHold(before, hash);
      forall i | 0 <= i < k
        ensures c.refs[i].0 == nodes[i].0 && HoldsNode(nodes, hash, c, i)
      {
        assert HoldsNode(before, hash, c, i) && before[i] == nodes[i];
      }
      GetSome(c.refs, nodes[k].0);
      var h := hash(nodes[k].1.content);
      PutNew(c.refs, nodes[k].0, h);
      if h in c.objects {
        ObjectsAreNodes(before, hash, h);
      }
      var c' := StoreNodes(nodes, hash);
      forall i | 0 <= i < |nodes|
        ensures HoldsNode(nodes, hash, c', i)
      {
        if i < k {
          assert HoldsNode(nodes, hash, c, i);
        }
      }
    }
  }

  lemma {:induction false} StoreDepsHold(nodes: Dict<FunctionNode>, hash: ContentHash, k: nat)
    requires DistinctHashes(nodes, hash) && k <= |nodes|
    ensures forall i :: 0 <= i < k ==>
      Successors(StoreDeps(nodes, hash, nodes[..k]), hash(nodes[i].1.content)) == DepHashes(nodes, hash, nodes[i].1.dependencies)
    decreases k
  {
    hide DepHashes;
    if k > 0 {
      assert nodes[..k][..k - 1] == nodes[..k - 1];
      StoreDepsHold(nodes, hash, k - 1);
    }
  }

  /** With different content hashes, the store holds every node as it is. */
  lemma StoreHolds(nodes: Dict<FunctionNode>, hash: ContentHash)
    requires UniqueKeys(nodes) && DistinctHashes(nodes, hash)
    ensures Holds(nodes, hash, StoreOf(nodes, hash))
  {
    StoreNodesHold(nodes, hash);
    StoreDepsHold(nodes, hash, |nodes|);
    assert nodes[..|nodes|] == nodes;
    var c := StoreNodes(nodes, hash);
    hide DepHashes, StoreNodes, StoreDeps;
    forall i | 0 <= i < |nodes|
      ensures var h := hash(nodes[i].1.content);
        && c.refs[i] == (nodes[i].0, h) && h in c.objects && c.objects[h] == nodes[i].1.content
        && Successors(StoreOf(nodes, hash).deps, h) == DepHashes(nodes, hash, nodes[i].1.dependencies)
    {
      assert HoldsNode(nodes, hash, c, i);
    }
  }

  // ---- deserialize_graph ----

  /** hash_to_qname as a dictionary: keys in order of first use, the last name wins. */
  function ByHash(refs: Dict<Hash>): Dict<string> {
    if refs == [] then []
    else var k := |refs| - 1; Put(ByHash(refs[..k]), refs[k].1, refs[k].0)
  }

  /** The loop of deserialize_graph. */
  function ReadNodes(c: Contents, todo: Dict<string>): Dict<FunctionNode> {
    if todo == [] then []
    else
      var k := |todo| - 1;
      var nodes := ReadNodes(c, todo[..k]);
      var h, q := todo[k].0, todo[k].1;
      if h in c.objects then Put(nodes, q, NodeOf(c, h, c.objects[h]).(qualifiedName := q)) else nodes
  }

  function GraphOf(c: Contents): Dict<FunctionNode> {
    ReadNodes(c, ByHash(c.refs))
  }

  /** What the round trip needs of a graph: nodes know their name, dependencies are nodes, and
      no captured reference looks like a content hash. */
  ghost predicate WellFormed(nodes: Dict<FunctionNode>, hash: ContentHash) {
    forall i :: 0 <= i < |nodes| ==>
      var node := nodes[i].1;
      && node.qualifiedName == nodes[i].0
      && (forall d :: d in node.dependencies ==> Get(nodes, d).Some?)
      && (forall j, n :: 0 <= j < |node.content.closureFuncRefs| && 0 <= n < |nodes| ==>
            node.content.closureFuncRefs[j].1 != hash(nodes[n].1.content))
  }

  /** In a list of references to different hashes, every hash has exactly its own name. */
  lemma {:induction false} OwnName(refs: Dict<Hash>, i: nat)
    requires i < |refs| && forall a, b :: 0 <= a < b < |refs| ==> refs[a].1 != refs[b].1
    ensures NameOf(refs, refs[i].1) == Some(refs[i].0)
    decreases |refs|
  {
    var k := |refs| - 1;
    if i < k {
      assert refs[i].1 != refs[k].1;
      assert refs[..k][i] == refs[i];
      OwnName(refs[..k], i);
    }
  }

  lemma {:induction false} ByHashIsInverse(refs: Dict<Hash>)
    requires forall a, b :: 0 <= a < b < |refs| ==> refs[a].1 != refs[b].1
    ensures |ByHash(refs)| == |refs| && forall i :: 0 <= i < |refs| ==> ByHash(refs)[i] == (refs[i].1, refs[i].0)
  {
    if refs != [] {
      var k := |refs| - 1;
      ByHashIsInverse(refs[..k]);
      GetSome(ByHash(refs[..k]), refs[k].1);
      PutNew(ByHash(refs[..k]), refs[k].1, refs[k].0);
    }
  }

  lemma HeldRefs(nodes: Dict<FunctionNode>, hash: ContentHash, c: Contents)
    requires UniqueKeys(nodes) && DistinctHashes(nodes, hash) && Holds(nodes, hash, c)
    ensures UniqueKeys(c.refs)
    ensures forall a, b :: 0 <= a < b < |c.refs| ==> c.refs[a].1 != c.refs[b].1
    ensures forall i :: 0 <= i < |nodes| ==> NameOf(c.refs, hash(nodes[i].1.content)) == Some(nodes[i].0)
    ensures forall i :: 0 <= i < |nodes| ==> Get(c.refs, nodes[i].0) == Some(hash(nodes[i].1.content))
  {
    assert forall i :: 0 <= i < |nodes| ==> c.refs[i] == (nodes[i].0, hash(nodes[i].1.content));
    assert forall a, b :: 0 <= a < b < |c.refs| ==> c.refs[a].1 != c.refs[b].1;
    forall i | 0 <= i < |nodes|
      ensures NameOf(c.refs, hash(nodes[i].1.content)) == Some(nodes[i].0)
      ensures Get(c.refs, nodes[i].0) == Some(hash(nodes[i].1.content))
    {
      OwnName(c.refs, i);
      GetUnique(c.refs, i);
    }
  }

  lemma NameOfNode(nodes: Dict<FunctionNode>, hash: ContentHash, c: Contents, q: string)
    requires UniqueKeys(nodes) && DistinctHashes(nodes, hash) && Holds(nodes, hash, c)
    requires Get(nodes, q).Some?
    ensures NameOf(c.refs, hash(Get(nodes, q).value.content)) == Some(q)
  {
    HeldRefs(nodes, hash, c);
    GetSome(nodes, q);
    var i :| 0 <= i < |nodes| && nodes[i] == (q, Get(nodes, q).value);
  }

  lemma {:induction false} DepNames(nodes: Dict<FunctionNode>, hash: ContentHash, c: Contents, names: seq<string>)
    requires UniqueKeys(nodes) && DistinctHashes(nodes, hash) && Holds(nodes, hash, c)
    requires forall d :: d in names ==> Get(nodes, d).Some?
    ensures NamesOf(c.refs, DepHashes(nodes, hash, names)) == names
  {
    if names != [] {
      var rest := names[1..];
      assert names[0] in names && forall d :: d in rest ==> d in names;
      var h := hash(Get(nodes, names[0]).value.content);
      assert DepHashes(nodes, hash, names) == [h] + DepHashes(nodes, hash, rest);
      hide *;
      DepNames(nodes, hash, c, rest);
      NameOfNode(nodes, hash, c, names[0]);
      NamesOfCons(c.refs, h, DepHashes(nodes, hash, rest));
      GetOrSome(NameOf(c.refs, h), h, names[0]);
      assert [names[0]] + rest == names;
    }
  }

  lemma GetOrSome(o: Option<string>, d: string, v: string)
    requires o == Some(v)
    ensures GetOr(o, d) == v
  {
  }

  lemma NamesOfCons(refs: Dict<Hash>, h: Hash, hs: seq<Hash>)
    ensures NamesOf(refs, [h] + hs) == [GetOr(NameOf(refs, h), h)] + NamesOf(refs, hs)
  {
  }

  /** A captured reference that is no hash is read back as it was written. */
  lemma RefSurvives(nodes: Dict<FunctionNode>, hash: ContentHash, c: Contents, v: string)
    requires UniqueKeys(nodes) && DistinctHashes(nodes, hash) && Holds(nodes, hash, c)
    requires forall n :: 0 <= n < |nodes| ==> v != hash(nodes[n].1.content)
    ensures NameOf(c.refs, v).None? && Survives(c.refs, v)
  {
    HeldRefs(nodes, hash, c);
    NameOfIsRef(c.refs, v);
    GetSome(c.refs, v);
    if Get(c.refs, v).Some? {
      var i :| 0 <= i < |c.refs| && c.refs[i] == (v, Get(c.refs, v).value);
      assert nodes[i].0 == v;
    }
  }

  /** One node comes back as it went in. */
  lemma NodeReadBack(nodes: Dict<FunctionNode>, hash: ContentHash, c: Contents, i: nat)
    requires UniqueKeys(nodes) && DistinctHashes(nodes, hash) && WellFormed(nodes, hash) && Holds(nodes, hash, c)
    requires i < |nodes|
    ensures var h, d := hash(nodes[i].1.content), Deserialized(Serialized(c));
      h in d.objects && NodeOf(d, h, d.objects[h]).(qualifiedName := nodes[i].0) == nodes[i].1
  {
    var node := nodes[i].1;
    var captured := node.content.closureFuncRefs;
    var h, d := hash(node.content), Deserialized(Serialized(c));
    HeldRefs(nodes, hash, c);
    forall j | 0 <= j < |captured|
      ensures NameOf(c.refs, captured[j].1).None? && Survives(c.refs, captured[j].1)
    {
      RefSurvives(nodes, hash, c, captured[j].1);
    }
    BlobSurvives(c.refs, captured);
    assert d.objects[h] == node.content;
    assert ResolveRefs(d.refs, captured) == captured;
    DepsSurvive(c);
    DepNames(nodes, hash, c, node.dependencies);
  }

  lemma ReadOne(nodes: Dict<FunctionNode>, hash: ContentHash, c: Contents, k: nat)
    requires UniqueKeys(nodes) && DistinctHashes(nodes, hash) && Holds(nodes, hash, c) && k < |nodes|
    ensures |ByHash(c.refs)| == |nodes| && ByHash(c.refs)[k] == (hash(nodes[k].1.content), nodes[k].0)
    ensures Put(nodes[..k], nodes[k].0, nodes[k].1) == nodes[..k + 1]
  {
    HeldRefs(nodes, hash, c);
    ByHashIsInverse(c.refs);
    assert c.refs[k] == (nodes[k].0, hash(nodes[k].1.content));
    hide Holds, DistinctHashes, ByHash;
    PutNextNode(nodes, k);
  }

  lemma PutNextNode(nodes: Dict<FunctionNode>, k: nat)
    requires UniqueKeys(nodes) && k < |nodes|
    ensures Put(nodes[..k], nodes[k].0, nodes[k].1) == nodes[..k + 1]
  {
    GetSome(nodes[..k], nodes[k].0);
    PutNew(nodes[..k], nodes[k].0, nodes[k].1);
  }

  lemma {:induction false} ReadBack(nodes: Dict<FunctionNode>, hash: ContentHash, c: Contents, k: nat)
    requires UniqueKeys(nodes) && DistinctHashes(nodes, hash) && WellFormed(nodes, hash) && Holds(nodes, hash, c)
    requires k <= |nodes|
    ensures |ByHash(c.refs)| == |nodes|
    ensures ReadNodes(Deserialized(Serialized(c)), ByHash(c.refs)[..k]) == nodes[..k]
    decreases k
  {
    hide WellFormed, Serialized, Deserialized, NodeOf, DistinctHashes, UniqueKeys, Holds, ByHash, Put;
    var todo := ByHash(c.refs);
    if k > 0 {
      ReadBack(nodes, hash, c, k - 1);
      NodeReadBack(nodes, hash, c, k - 1);
      ReadOne(nodes, hash, c, k - 1);
      assert todo[..k][..k - 1] == todo[..k - 1] && todo[..k][k - 1] == todo[k - 1];
    } else {
      HeldRefs(nodes, hash, c);
      ByHashIsInverse(c.refs);
      HeldLength(nodes, hash, c);
    }
  }

  lemma HeldLength(nodes: Dict<FunctionNode>, hash: ContentHash, c: Contents)
    requires Holds(nodes, hash, c)
    ensures |c.refs| == |nodes|
  {
  }

  /** Serializing a graph and deserializing it gives the same nodes in the same order: names,
      contents, captured references and dependency lists. */
  lemma GraphRoundTrip(nodes: Dict<FunctionNode>, hash: ContentHash)
    requires UniqueKeys(nodes) && DistinctHashes(nodes, hash) && WellFormed(nodes, hash)
    ensures GraphOf(Deserialized(Serialized(StoreOf(nodes, hash)))) == nodes
  {
    var c := StoreOf(nodes, hash);
    StoreHolds(nodes, hash);
    ReadBack(nodes, hash, c, |nodes|);
    DepsSurvive(c);
    assert nodes[..|nodes|] == nodes && ByHash(c.refs)[..|nodes|] == ByHash(c.refs);
  }

  /** Every collected entry is the graph's own node of that name. */
  ghost predicate TakenFrom(nodes: Dict<FunctionNode>, found: Dict<FunctionNode>) {
    forall i :: 0 <= i < |found| ==> Some(found[i].1) == Get(nodes, found[i].0)
  }

  lemma AllTaken(nodes: Dict<FunctionNode>, found: Dict<FunctionNode>)
    requires TakenFrom(nodes, found)
    ensures forall n :: n in Keys(found) ==> Get(nodes, n).Some?
  {
    forall n | n in Keys(found)
      ensures Get(nodes, n).Some?
    {
      var i :| 0 <= i < |found| && found[i].0 == n;
    }
  }

  lemma WalkDone(g: Edges, names: seq<string>)
    ensures WalkFrom(g, names, []) == names
  {
  }

  /** One round of the collecting loop, as the walk sees it. */
  lemma CollectStep(nodes: Dict<FunctionNode>, names: seq<string>, stack: seq<string>)
    requires stack != []
    ensures var g, q, rest := NameEdges(nodes), stack[|stack| - 1], stack[..|stack| - 1];
      if q in names then
        && WalkFrom(g, names, stack) == WalkFrom(g, names, rest)
        && Pending(g, names, rest) <= Pending(g, names, stack)
      else
        && q in WalkFrom(g, names, stack)
        && (Get(nodes, q).Some? ==>
              var more := rest + Get(nodes, q).value.dependencies;
              && WalkFrom(g, names, stack) == WalkFrom(g, names + [q], more)
              && Pending(g, names + [q], more) < Pending(g, names, stack))
  {
    var g, q, rest := NameEdges(nodes), stack[|stack| - 1], stack[..|stack| - 1];
    if q in names {
      PendingSkip(g, names, stack);
    } else {
      PendingVisit(g, names, stack);
      WalkExtends(g, names + [q], rest + Successors(g, q));
      assert q in names + [q];
      KeysExact(nodes);
    }
  }

  class Graph {
    var nodes: Dict<FunctionNode>

    constructor (nodes: Dict<FunctionNode>)
      requires UniqueKeys(nodes)
      ensures this.nodes == nodes
    {
      this.nodes := nodes;
    }

    /** Collects the roots and all they need; a name without a node is a KeyError. */
    method CollectSubgraph(roots: seq<string>) returns (collected: Result<Dict<FunctionNode>>)
      ensures if exists n :: n in WalkFrom(NameEdges(nodes), [], roots) && Get(nodes, n).None? then collected == KeyError
              else collected.Ok? && TakenFrom(nodes, collected.value)
                   && Keys(collected.value) == WalkFrom(NameEdges(nodes), [], roots)
    {
      hide WalkFrom, Pending, Get, Reaches;
      var g := NameEdges(nodes);
      var found: Dict<FunctionNode> := [];
      assert Keys(found) == [];
      var stack := roots;
      while stack != []
        invariant WalkFrom(g, Keys(found), stack) == WalkFrom(g, [], roots)
        invariant TakenFrom(nodes, found)
        decreases Pending(g, Keys(found), stack), |stack|
      {
        var q := stack[|stack| - 1];
        var rest := stack[..|stack| - 1];
        KeysExact(found);
        CollectStep(nodes, Keys(found), stack);
        if Get(found, q).Some? {
          stack := rest;
        } else {
          var node := Get(nodes, q);
          if node.None? {
            return KeyError;
          }
          assert Keys(found + [(q, node.value)]) == Keys(found) + [q];
          found := found + [(q, node.value)];
          stack := rest + node.value.dependencies;
        }
      }
      WalkDone(g, Keys(found));
      AllTaken(nodes, found);
      collected := Ok(found);
    }

    /** The first loop of to_store: puts every node and its name. */
    static method PutNodes(subgraph: Dict<FunctionNode>, hash: ContentHash, store: Store)
      requires store.Valid() && store.Now() == Contents(map[], map[], [])
      modifies store
      ensures store.Valid() && store.Now() == StoreNodes(subgraph, hash)
    {
      for i := 0 to |subgraph|
        invariant store.Valid() && store.Now() == StoreNodes(subgraph[..i], hash)
      {
        assert subgraph[..i + 1][..i] == subgraph[..i];
        var h := hash(subgraph[i].1.content);
        store.PutNode(h, subgraph[i].1.content);
        store.SetRef(subgraph[i].0, h);
      }
      assert subgraph[..|subgraph|] == subgraph;
    }

    /** The second loop: sets every dependency list. */
    static method PutDependencies(subgraph: Dict<FunctionNode>, hash: ContentHash, store: Store)
      requires store.deps == map[]
      modifies store`deps
      ensures store.deps == StoreDeps(subgraph, hash, subgraph)
    {
      hide DepHashes;
      for i := 0 to |subgraph|
        invariant store.deps == StoreDeps(subgraph, hash, subgraph[..i])
      {
        assert subgraph[..i + 1][..i] == subgraph[..i];
        store.SetDeps(hash(subgraph[i].1.content), DepHashes(subgraph, hash, subgraph[i].1.dependencies));
      }
      assert subgraph[..|subgraph|] == subgraph;
    }

    /** Builds a store of the given nodes of the graph. */
    static method ToStore(subgraph: Dict<FunctionNode>, hash: ContentHash) returns (store: Store)
      ensures fresh(store) && store.Valid() && store.Now() == StoreOf(subgraph, hash)
    {
      store := new Store();
      PutNodes(subgraph, hash, store);
      NodesHaveNoDeps(subgraph, hash);
      PutDependencies(subgraph, hash, store);
    }

    /** Reads a graph back from a deserialized store. */
    constructor Deserialize(store: Store)
      ensures nodes == GraphOf(store.Now())
    {
      nodes := [];
      new;
      var todo := ByHash(store.refs);
      for i := 0 to |todo|
        invariant nodes == ReadNodes(store.Now(), todo[..i])
        invariant store.Now() == old(store.Now())
      {
        assert todo[..i + 1][..i] == todo[..i];
        var h, q := todo[i].0, todo[i].1;
        if h in store.objects {
          nodes := Put(nodes, q, NodeOf(store.Now(), h, store.objects[h]).(qualifiedName := q));
        }
      }
      assert todo[..|todo|] == todo;
    }
  }
}
