/** The worker's cache of built functions, keyed by the set of reachable hashes. */
module WorkerCache {
  import opened Options
  import opened Dictionary
  import opened Reachability
  import opened TopologicalSort
  import opened Nodes
  import opened StoreContents
  import opened Reconstruction
  import opened StoreClass
  import opened StoreFacts
  import opened Semantics
  import opened Renaming

  /** The program's text, and where the target is found in it: by name, or in a class. */
  datatype CachedFunction = CachedFunction(source: seq<Text>, owner: Option<string>, name: string)

  datatype Failure = UnknownName | Cycle | UndefinedName | MissingTarget

  datatype BuildResult = Built(f: CachedFunction) | Failed(why: Failure)

  /** The key: all hashes the resolved root reaches. */
  function KeyOf(deps: map<Hash, seq<Hash>>, root: Hash): set<Hash> {
    Elements(Walk(deps, root))
  }

  /** A fresh build: reconstruct, run the definitions, and find the target. */
  function Build(c: Contents, name: string): BuildResult {
    match Collect(c, name)
    case KeyError => Failed(UnknownName)
    case CycleError => Failed(Cycle)
    case Ok((qname, needed)) =>
      match Program(needed)
      case KeyError => Failed(UnknownName)
      case CycleError => Failed(Cycle)
      case Ok(parts) =>
        if Exec(parts).None? then Failed(UndefinedName)
        else
          var target := Get(needed, qname);
          if target.None? then Failed(MissingTarget)
          else Built(CachedFunction(ProgramText(parts), target.value.content.ownerClass, target.value.content.name))
  }

  /** A build succeeds exactly when the name is found, the program can be sorted and runs, and
      the target is among its nodes; it gives the program's text and the target's place in it. */
  lemma BuildTells(c: Contents, name: string)
    ensures match Build(c, name)
      case Built(f) =>
        && Collect(c, name).Ok? && Reconstruct(c, name).Ok? && Exec(Reconstruct(c, name).value).Some?
        && f.source == ProgramText(Reconstruct(c, name).value)
        && var (q, needed) := Collect(c, name).value;
           Get(needed, q).Some? && f.owner == Get(needed, q).value.content.ownerClass && f.name == Get(needed, q).value.content.name
      case Failed(UnknownName) => Reconstruct(c, name) == KeyError
      case Failed(Cycle) => Reconstruct(c, name) == CycleError
      case Failed(UndefinedName) => Reconstruct(c, name).Ok? && Exec(Reconstruct(c, name).value).None?
      case Failed(MissingTarget) => Collect(c, name).Ok? && Get(Collect(c, name).value.1, Collect(c, name).value.0).None?
  {
    hide Exec, ProgramText, Order, Emit, Resolve, Needed;
  }

  // ---- What a task's store says below a root ----

  /** The needed nodes under their hashes, as the task carries them. */
  function HashNode(w: Contents, h: Hash): FunctionNode {
    if h in w.objects then FunctionNode(h, w.objects[h], Successors(w.deps, h))
    else FunctionNode(h, Blob("", "", Source([], [], Num(0)), None, [], [], []), [])
  }

  function HashNodes(w: Contents, hashes: seq<Hash>): Dict<FunctionNode> {
    seq(|hashes|, i requires 0 <= i < |hashes| => (hashes[i], HashNode(w, hashes[i])))
  }

  /** The name that a store has for a hash. */
  function NameFor(w: Contents): Renaming {
    (h: string) => GetOr(NameOf(w.refs, h), h)
  }

  /** Everything below a root is there, named, and captures only what is below it, too. */
  ghost predicate Whole(w: Contents, root: Hash) {
    forall h :: Reaches(w.deps, root, h) ==> PresentAt(w, root, h)
  }

  ghost predicate PresentAt(w: Contents, root: Hash, h: Hash) {
    && h in w.objects && NameOf(w.refs, h).Some?
    && forall i :: 0 <= i < |w.objects[h].closureFuncRefs| ==> Reaches(w.deps, root, w.objects[h].closureFuncRefs[i].1)
  }

  ghost predicate NamesAreNotHashes(refs: Dict<Hash>) {
    forall i, j :: 0 <= i < |refs| && 0 <= j < |refs| ==> refs[i].0 != refs[j].1
  }

  /** The task's store says the same as the common contents about every hash below a root; the
      names may differ. */
  ghost predicate SameBelow(w: Contents, common: Contents, root: Hash) {
    forall h :: Reaches(w.deps, root, h) ==>
      && h in w.objects && h in common.objects && w.objects[h] == common.objects[h]
      && Successors(w.deps, h) == Successors(common.deps, h)
  }

  lemma NamesApart(w: Contents, s: set<Hash>)
    requires UniqueKeys(w.refs) && forall h :: h in s ==> NameOf(w.refs, h).Some?
    ensures Apart(NameFor(w), s)
  {
    forall a, b | a in s && b in s && NameFor(w)(a) == NameFor(w)(b)
      ensures a == b
    {
      NameBelongs(w.refs, a);
    }
  }

  lemma ReadSuccessors(w: Contents, h: Hash)
    ensures Successors(Deserialized(w).deps, h) == Successors(w.deps, h)
  {
  }

  lemma ReadReach(w: Contents, root: Hash)
    ensures Walk(Deserialized(w).deps, root) == Walk(w.deps, root)
    ensures forall h :: Reaches(Deserialized(w).deps, root, h) <==> Reaches(w.deps, root, h)
  {
    forall h
      ensures Successors(Deserialized(w).deps, h) == Successors(w.deps, h)
    {
      ReadSuccessors(w, h);
    }
    hide Deserialized;
    SameReach(w.deps, Deserialized(w).deps, root);
  }

  lemma NameIsNoHash(refs: Dict<Hash>, h: Hash)
    requires NamesAreNotHashes(refs) && NameOf(refs, h).Some?
    ensures NameOf(refs, NameOf(refs, h).value).None?
  {
    NameOfIsRef(refs, h);
    NameOfIsRef(refs, NameOf(refs, h).value);
  }

  /** A node read from the task's store is the node under its hash, renamed. */
  lemma ReadNode(w: Contents, root: Hash, h: Hash)
    requires Whole(w, root) && NamesAreNotHashes(w.refs) && Reaches(w.deps, root, h)
    ensures var c := Deserialized(w);
      && h in c.objects && QualifiedName(c, h, c.objects[h]) == NameFor(w)(h)
      && NodeOf(c, h, c.objects[h]) == RenameNode(NameFor(w), HashNode(w, h))
  {
    var c := Deserialized(w);
    assert PresentAt(w, root, h);
    var refs := w.objects[h].closureFuncRefs;
    ReadSuccessors(w, h);
    forall i | 0 <= i < |refs|
      ensures ResolveRefs(c.refs, ResolveRefs(w.refs, refs))[i] == RenamedRefs(NameFor(w), refs)[i]
    {
      assert PresentAt(w, root, refs[i].1);
      NameIsNoHash(w.refs, refs[i].1);
    }
    assert ResolveRefs(c.refs, ResolveRefs(w.refs, refs)) == RenamedRefs(NameFor(w), refs);
    assert NamesOf(c.refs, Successors(w.deps, h)) == Renamed(NameFor(w), Successors(w.deps, h));
  }

  lemma HashNodesStep(w: Contents, done: seq<Hash>, h: Hash)
    ensures Rename(NameFor(w), HashNodes(w, done + [h]))
         == Rename(NameFor(w), HashNodes(w, done)) + [(NameFor(w)(h), RenameNode(NameFor(w), HashNode(w, h)))]
  {
    hide HashNode, RenameNode;
  }

  lemma NotYetNamed(w: Contents, done: seq<Hash>, h: Hash)
    requires Apart(NameFor(w), Elements(done + [h])) && h !in done
    ensures Get(Rename(NameFor(w), HashNodes(w, done)), NameFor(w)(h)).None?
  {
    var d := Rename(NameFor(w), HashNodes(w, done));
    GetSome(d, NameFor(w)(h));
    forall i | 0 <= i < |d|
      ensures d[i].0 != NameFor(w)(h)
    {
      assert done[i] in done;
      assert done[i] in Elements(done + [h]) && h in Elements(done + [h]);
    }
  }

  lemma {:induction false} CollectIsRenamed(w: Contents, root: Hash, done: seq<Hash>, hashes: seq<Hash>)
    requires Whole(w, root) && NamesAreNotHashes(w.refs) && UniqueKeys(w.refs) && Distinct(done + hashes)
    requires forall h :: h in done + hashes ==> Reaches(w.deps, root, h)
    ensures CollectFrom(Deserialized(w), hashes, Rename(NameFor(w), HashNodes(w, done)))
         == Rename(NameFor(w), HashNodes(w, done + hashes))
    decreases |hashes|
  {
    hide Whole, Deserialized, NamesAreNotHashes, Rename, HashNodes, NodeOf, QualifiedName, RenameNode, UniqueKeys;
    if hashes == [] {
      assert done + hashes == done;
    } else {
      var h, rest := hashes[0], hashes[1..];
      assert (done + [h]) + rest == done + hashes;
      assert h in done + hashes && (done + hashes)[|done|] == h;
      forall i | 0 <= i < |done|
        ensures done[i] != h
      {
        assert (done + hashes)[i] == done[i];
      }
      ReadNode(w, root, h);
      forall g | g in Elements(done + [h])
        ensures NameOf(w.refs, g).Some?
      {
        assert g in done + hashes;
        assert PresentAt(w, root, g) by { WholeAt(w, root, g); }
      }
      NamesApart(w, Elements(done + [h]));
      NotYetNamed(w, done, h);
      HashNodesStep(w, done, h);
      PutNew(Rename(NameFor(w), HashNodes(w, done)), NameFor(w)(h), RenameNode(NameFor(w), HashNode(w, h)));
      CollectIsRenamed(w, root, done + [h], rest);
    }
  }

  lemma WholeAt(w: Contents, root: Hash, h: Hash)
    requires Whole(w, root) && Reaches(w.deps, root, h)
    ensures PresentAt(w, root, h)
  {
  }

  /** The needed nodes of a task's store are those under their hashes, renamed apart. */
  lemma NeededIsRenamed(w: Contents, root: Hash)
    requires Whole(w, root) && NamesAreNotHashes(w.refs) && UniqueKeys(w.refs)
    ensures var nodes := HashNodes(w, Walk(w.deps, root));
      && Needed(Deserialized(w), root) == Rename(NameFor(w), nodes)
      && SelfContained(nodes) && Apart(NameFor(w), Elements(Keys(nodes)))
      && Keys(nodes) == Walk(w.deps, root)
  {
    var hashes := Walk(w.deps, root);
    var nodes := HashNodes(w, hashes);
    WalkExact(w.deps, root);
    ReadReach(w, root);
    assert Keys(nodes) == hashes;
    assert [] + hashes == hashes && HashNodes(w, []) == [] && Rename(NameFor(w), []) == [];
    CollectIsRenamed(w, root, [], hashes);
    forall h | h in Elements(hashes)
      ensures NameOf(w.refs, h).Some?
    {
      assert PresentAt(w, root, h);
    }
    NamesApart(w, Elements(hashes));
    NodesSelfContained(w, root, hashes);
  }

  lemma NodesSelfContained(w: Contents, root: Hash, hashes: seq<Hash>)
    requires Whole(w, root) && forall h :: h in hashes <==> Reaches(w.deps, root, h)
    ensures SelfContained(HashNodes(w, hashes))
  {
    var nodes := HashNodes(w, hashes);
    assert Keys(nodes) == hashes;
    hide Keys, Reaches;
    forall i | 0 <= i < |nodes|
      ensures Inside(nodes[i].1.dependencies, Elements(hashes))
      ensures forall j :: 0 <= j < |nodes[i].1.content.closureFuncRefs| ==> nodes[i].1.content.closureFuncRefs[j].1 in hashes
    {
      assert hashes[i] in hashes && PresentAt(w, root, hashes[i]);
      forall d | d in Successors(w.deps, hashes[i])
        ensures d in hashes
      {
        ReachesExtend(w.deps, root, hashes[i], d);
      }
    }
  }

  /** What a build makes of the nodes under their hashes. */
  function HashBuild(nodes: Dict<FunctionNode>, root: Hash): BuildResult {
    match Program(nodes)
    case KeyError => Failed(UnknownName)
    case CycleError => Failed(Cycle)
    case Ok(parts) =>
      if Exec(parts).None? then Failed(UndefinedName)
      else
        var target := Get(nodes, root);
        if target.None? then Failed(MissingTarget)
        else Built(CachedFunction(ProgramText(parts), target.value.content.ownerClass, target.value.content.name))
  }

  lemma ResolvedHasName(c: Contents, name: string)
    requires Resolve(c, name).Some?
    ensures NameOf(c.refs, Resolve(c, name).value).Some?
  {
    var i := ResolveIsRef(c, name);
    NameOfIsRef(c.refs, c.refs[i].1);
  }

  lemma InsideItself(names: seq<string>)
    ensures Inside(names, Elements(names))
  {
  }

  /** A build does not depend on the names that the store has for the hashes. */
  lemma BuildIsByHash(w: Contents, name: string, root: Hash)
    requires Resolve(Deserialized(w), name) == Some(root)
    requires Whole(w, root) && NamesAreNotHashes(w.refs) && UniqueKeys(w.refs)
    ensures Build(Deserialized(w), name) == HashBuild(HashNodes(w, Walk(w.deps, root)), root)
  {
    hide Whole, NamesAreNotHashes, UniqueKeys, Walk, HashNode, Rename, Needed, SelfContained, Apart, Keys, Program, Exec, Get;
    var c, f := Deserialized(w), NameFor(w);
    var nodes := HashNodes(w, Walk(w.deps, root));
    ResolvedHasName(c, name);
    assert GetOr(NameOf(c.refs, root), "unknown." + name) == f(root);
    NeededIsRenamed(w, root);
    WalkExact(w.deps, root);
    ReachesSelf(w.deps, root);
    hide Deserialized, HashNodes, NameFor, Resolve;
    TextKeepsUnderRenaming(f, nodes);
    InsideItself(Keys(nodes));
    GetRenamed(f, nodes, Elements(Keys(nodes)), root);
    if Program(nodes).Ok? {
      SameTextRuns(Program(nodes).value, Program(Rename(f, nodes)).value);
    }
  }

  /** Stores that say the same below a root build the same for it, whatever names they have. */
  lemma SameBuild(common: Contents, w: Contents, w': Contents, name: string, name': string, root: Hash)
    requires Resolve(Deserialized(w), name) == Some(root) && Resolve(Deserialized(w'), name') == Some(root)
    requires Faithful(common, w, root) && Faithful(common, w', root)
    ensures Build(Deserialized(w), name) == Build(Deserialized(w'), name')
  {
    hide Build, Resolve, Whole, NamesAreNotHashes, UniqueKeys, HashBuild, Deserialized;
    BuildIsByHash(w, name, root);
    BuildIsByHash(w', name', root);
    FaithfulReach(common, w, root);
    FaithfulReach(common, w', root);
    WalkExact(common.deps, root);
    var hashes := Walk(common.deps, root);
    forall i | 0 <= i < |hashes|
      ensures HashNode(w, hashes[i]) == HashNode(w', hashes[i])
    {
      assert hashes[i] in hashes;
      assert Reaches(w.deps, root, hashes[i]) && Reaches(w'.deps, root, hashes[i]);
    }
    assert HashNodes(w, hashes) == HashNodes(w', hashes);
  }

  // ---- Equal keys mean equal roots ----

  /** Everything below a root is there and has a name. */
  ghost predicate Complete(c: Contents, root: Hash) {
    forall h :: Reaches(c.deps, root, h) ==> h in c.objects && NameOf(c.refs, h).Some?
  }

  lemma {:induction false} CollectedNode(c: Contents, hashes: seq<Hash>, needed: Dict<FunctionNode>, h: Hash)
    requires UniqueKeys(c.refs)
    requires forall g :: g in hashes ==> g in c.objects && NameOf(c.refs, g).Some?
    requires h in c.objects && NameOf(c.refs, h).Some?
    requires h in hashes || Get(needed, NameOf(c.refs, h).value) == Some(NodeOf(c, h, c.objects[h]))
    ensures Get(CollectFrom(c, hashes, needed), NameOf(c.refs, h).value) == Some(NodeOf(c, h, c.objects[h]))
  {
    if hashes != [] {
      var g, rest := hashes[0], hashes[1..];
      assert g in hashes && forall f :: f in rest ==> f in hashes;
      var q := NameOf(c.refs, h).value;
      NameBelongs(c.refs, h);
      GetPut(needed, NameOf(c.refs, g).value, NodeOf(c, g, c.objects[g]), q);
      hide NodeOf, Put, Get, NameOf, UniqueKeys;
      CollectedNode(c, rest, Put(needed, QualifiedName(c, g, c.objects[g]), NodeOf(c, g, c.objects[g])), h);
    }
  }

  lemma NeededNode(c: Contents, root: Hash, h: Hash)
    requires UniqueKeys(c.refs) && Complete(c, root) && Reaches(c.deps, root, h)
    ensures h in c.objects && NameOf(c.refs, h).Some?
    ensures Get(Needed(c, root), NameOf(c.refs, h).value) == Some(NodeOf(c, h, c.objects[h]))
  {
    WalkExact(c.deps, root);
    CollectedNode(c, Walk(c.deps, root), [], h);
  }

  /** The target that is collected for a name is the one found by it: a reference goes by that
      name, or the target's own simple name is that name. */
  lemma TargetGoesByName(c: Contents, name: string)
    requires UniqueKeys(c.refs) && Resolve(c, name).Some? && Complete(c, Resolve(c, name).value)
    ensures Collect(c, name).Ok?
    ensures var (q, needed) := Collect(c, name).value;
      && Get(needed, q).Some? && Get(c.refs, q) == Resolve(c, name)
      && if exists i :: 0 <= i < |c.refs| && c.refs[i].0 == name then Get(c.refs, name) == Resolve(c, name)
         else Get(needed, q).value.content.name == name
  {
    var root := Resolve(c, name).value;
    ResolveExact(c, name);
    ReachesSelf(c.deps, root);
    NeededNode(c, root, root);
    NameOfUnique(c.refs, root);
    GetSome(c.refs, name);
  }

  /** An edge between reachable hashes is an edge between their names. */
  lemma EdgeHasNames(c: Contents, root: Hash, h: Hash, d: Hash)
    requires UniqueKeys(c.refs) && Complete(c, root) && Reaches(c.deps, root, h) && d in Successors(c.deps, h)
    ensures NameOf(c.refs, h).Some? && NameOf(c.refs, d).Some?
    ensures NameOf(c.refs, d).value in Successors(NeededEdges(Needed(c, root)), NameOf(c.refs, h).value)
  {
    ReachesExtend(c.deps, root, h, d);
    NeededNode(c, root, h);
    NeededNode(c, root, d);
    var needed := Needed(c, root);
    var p, q := NameOf(c.refs, h).value, NameOf(c.refs, d).value;
    KeysExact(needed);
    var hashes := Successors(c.deps, h);
    var i :| 0 <= i < |hashes| && hashes[i] == d;
    assert NamesOf(c.refs, hashes)[i] == q;
    FilterExact(Get(needed, p).value.dependencies, Keys(needed));
  }

  function NamePath(c: Contents, p: seq<Hash>): seq<string> {
    seq(|p|, i requires 0 <= i < |p| => GetOr(NameOf(c.refs, p[i]), p[i]))
  }

  lemma {:induction false} PathStaysReachable(g: Edges, root: Hash, p: seq<Hash>, i: nat)
    requires IsPath(g, p) && Reaches(g, root, p[0]) && i < |p|
    ensures Reaches(g, root, p[i])
  {
    if i > 0 {
      PathStaysReachable(g, root, p, i - 1);
      assert p[i - 1 + 1] in Successors(g, p[i - 1]);
      ReachesExtend(g, root, p[i - 1], p[i]);
    }
  }

  /** A cycle of hashes below a root is a cycle of names, on which the sort fails. */
  lemma CycleFails(c: Contents, root: Hash, p: seq<Hash>)
    requires UniqueKeys(c.refs) && Complete(c, root) && IsCycle(c.deps, p) && p[0] == root
    ensures Order(Needed(c, root)).None?
  {
    var needed := Needed(c, root);
    var g := NeededEdges(needed);
    var names := NamePath(c, p);
    forall i | 0 <= i < |names| - 1
      ensures names[i + 1] in Successors(g, names[i])
    {
      ReachesSelf(c.deps, root);
      PathStaysReachable(c.deps, root, p, i);
      assert p[i + 1] in Successors(c.deps, p[i]);
      EdgeHasNames(c, root, p[i], p[i + 1]);
    }
    assert IsCycle(g, names);
    CollectUnique(c, Walk(c.deps, root), []);
    KeysExact(needed);
    NeededWithin(needed);
    StaticOrderFailsOnCycles(Keys(needed), g);
  }

  /** Since a build fails on cycles, two roots that reach the same hashes are the same root. */
  lemma EqualKeysSameRoot(c: Contents, a: Hash, b: Hash)
    requires UniqueKeys(c.refs) && Complete(c, a) && Order(Needed(c, a)).Some?
    requires KeyOf(c.deps, a) == KeyOf(c.deps, b)
    ensures a == b
  {
    WalkExact(c.deps, a);
    WalkExact(c.deps, b);
    ReachesSelf(c.deps, a);
    ReachesSelf(c.deps, b);
    assert a in KeyOf(c.deps, a) && b in KeyOf(c.deps, b);
    if a != b {
      var p := MutualReachIsCycle(c.deps, a, b);
      CycleFails(c, a, p);
    }
  }

  // ---- The cache over any sequence of calls ----

  /** A task's store is complete below a root and says there what the common contents say. */
  ghost predicate Faithful(common: Contents, w: Contents, root: Hash) {
    UniqueKeys(w.refs) && NamesAreNotHashes(w.refs) && Whole(w, root) && SameBelow(w, common, root)
  }

  lemma FaithfulReach(common: Contents, w: Contents, root: Hash)
    requires SameBelow(w, common, root)
    ensures Walk(w.deps, root) == Walk(common.deps, root)
    ensures forall h :: Reaches(w.deps, root, h) <==> Reaches(common.deps, root, h)
  {
    SameReach(w.deps, common.deps, root);
  }

  /** A cache entry was built for a root with exactly these reachable hashes. */
  ghost predicate Entry(common: Contents, key: set<Hash>, f: CachedFunction, w: Contents, name: string) {
    var c := Deserialized(w);
    && Resolve(c, name).Some? && Faithful(common, w, Resolve(c, name).value)
    && KeyOf(c.deps, Resolve(c, name).value) == key
    && Build(c, name) == Built(f)
  }

  lemma ReadComplete(w: Contents, root: Hash)
    requires Whole(w, root)
    ensures Complete(Deserialized(w), root)
  {
    ReadReach(w, root);
    forall h | Reaches(w.deps, root, h)
      ensures h in Deserialized(w).objects && NameOf(Deserialized(w).refs, h).Some?
    {
      assert PresentAt(w, root, h);
    }
  }

  /** Below a reachable hash a store still says what the common contents say. */
  lemma SameFurtherBelow(w: Contents, common: Contents, root: Hash, h: Hash)
    requires SameBelow(w, common, root) && Reaches(w.deps, root, h)
    ensures SameBelow(w, common, h)
  {
    forall n | Reaches(w.deps, h, n)
      ensures Reaches(w.deps, root, n)
    {
      ReachesTransitive(w.deps, root, h, n);
    }
  }

  /** Equal keys mean the same root, across stores. */
  lemma SameKeySameRoot(common: Contents, w: Contents, w': Contents, a: Hash, b: Hash)
    requires Faithful(common, w, a) && Faithful(common, w', b)
    requires KeyOf(Deserialized(w).deps, a) == KeyOf(Deserialized(w').deps, b)
    requires Order(Needed(Deserialized(w), a)).Some?
    ensures a == b
  {
    hide UniqueKeys, NamesAreNotHashes, Whole, SameBelow, Order, Needed, Deserialized;
    ReadReach(w, a);
    ReadReach(w, b);
    ReadReach(w', b);
    FaithfulReach(common, w', b);
    WalkExact(w.deps, a);
    WalkExact(w'.deps, b);
    ReachesSelf(w'.deps, b);
    assert b in KeyOf(Deserialized(w').deps, b);
    SameFurtherBelow(w, common, a, b);
    FaithfulReach(common, w, b);
    ReadComplete(w, a);
    SameRefs(w);
    EqualKeysSameRoot(Deserialized(w), a, b);
  }

  lemma SameRefs(w: Contents)
    ensures Deserialized(w).refs == w.refs
  {
  }

  lemma BuiltIsSorted(c: Contents, name: string)
    requires Build(c, name).Built?
    ensures Resolve(c, name).Some? && Order(Needed(c, Resolve(c, name).value)).Some?
  {
  }

  /** A hit returns what a fresh build would return, as text: whatever store and name filled the
      entry, and whatever qualified names that store had for the same content. */
  lemma HitIsFresh(common: Contents, key: set<Hash>, f: CachedFunction, w: Contents, name: string, w': Contents, name': string)
    requires Entry(common, key, f, w, name)
    requires Resolve(Deserialized(w'), name').Some? && Faithful(common, w', Resolve(Deserialized(w'), name').value)
    requires KeyOf(Deserialized(w').deps, Resolve(Deserialized(w'), name').value) == key
    ensures Build(Deserialized(w'), name') == Built(f)
  {
    var a, b := Resolve(Deserialized(w), name).value, Resolve(Deserialized(w'), name').value;
    hide Build, Resolve, Faithful, KeyOf, Deserialized, Order, Needed;
    BuiltIsSorted(Deserialized(w), name);
    SameKeySameRoot(common, w, w', a, b);
    SameBuild(common, w, w', name, name', a);
  }

  class Worker {
    var cache: map<set<Hash>, CachedFunction>
    var lastHit: Option<bool>
    var locked: bool

    /** Every entry is what some call built. */
    ghost predicate Valid(common: Contents)
      reads this
    {
      forall key :: key in cache ==> exists w, name :: Entry(common, key, cache[key], w, name)
    }

    constructor ()
      ensures cache == map[] && !locked && lastHit.None?
      ensures forall common :: Valid(common)
    {
      cache, lastHit, locked := map[], None, false;
    }

    /** Reads the task's store and returns the cached function, or builds it: in either case
        what a fresh build returns. Only a build, or a hit while the build info is not locked,
        is recorded. */
    method GetCached(ghost common: Contents, w: Contents, name: string) returns (result: BuildResult)
      requires Valid(common)
      requires Resolve(Deserialized(w), name).Some? ==> Faithful(common, w, Resolve(Deserialized(w), name).value)
      modifies this`cache, this`lastHit
      ensures Valid(common)
      ensures result == Build(Deserialized(w), name)
      ensures var c := Deserialized(w);
        lastHit == if Resolve(c, name).None? then old(lastHit)
                   else if KeyOf(c.deps, Resolve(c, name).value) !in old(cache) then Some(false)
                   else if locked then old(lastHit) else Some(true)
      ensures result.Built? ==> KeyOf(Deserialized(w).deps, Resolve(Deserialized(w), name).value) in cache
      ensures forall key :: key in old(cache) ==> key in cache && cache[key] == old(cache)[key]
    {
      hide Build, Resolve, Faithful, KeyOf, UniqueKeys, Entry, Deserialized;
      var c := Deserialized(w);
      UnknownFails(c, name);
      var root := Resolve(c, name);
      if root.None? {
        return Failed(UnknownName);
      }
      var key := KeyOf(c.deps, root.value);
      if key !in cache {
        lastHit := Some(false);
        result := Build(c, name);
        if result.Built? {
          EntryMade(common, w, name);
          cache := cache[key := result.f];
        }
      } else {
        if !locked {
          lastHit := Some(true);
        }
        ghost var w', name' :| Entry(common, key, cache[key], w', name');
        HitIsFresh(common, key, cache[key], w', name', w, name);
        result := Built(cache[key]);
      }
    }

    /** is_streaming and then run, as the worker loop calls them for one task: the build info
        in the end tells whether the task found the function built, and both lookups return
        the fresh build. */
    method LookUpTwice(ghost common: Contents, w: Contents, name: string) returns (result: BuildResult)
      requires Valid(common)
      requires Resolve(Deserialized(w), name).Some? ==> Faithful(common, w, Resolve(Deserialized(w), name).value)
      modifies this
      ensures Valid(common) && result == Build(Deserialized(w), name)
      ensures result.Built? ==>
        !locked && lastHit == Some(KeyOf(Deserialized(w).deps, Resolve(Deserialized(w), name).value) in old(cache))
    {
      hide Build, Resolve, Faithful, KeyOf, UniqueKeys, Entry, Deserialized;
      UnknownFails(Deserialized(w), name);
      locked := false;
      result := GetCached(common, w, name);
      if result.Built? {
        locked := true;
        result := GetCached(common, w, name);
        locked := false;
      }
    }
  }

  lemma UnknownFails(c: Contents, name: string)
    ensures Resolve(c, name).None? ==> Build(c, name) == Failed(UnknownName)
  {
  }

  lemma EntryMade(common: Contents, w: Contents, name: string)
    requires Resolve(Deserialized(w), name).Some? && Faithful(common, w, Resolve(Deserialized(w), name).value)
    requires Build(Deserialized(w), name).Built?
    ensures Entry(common, KeyOf(Deserialized(w).deps, Resolve(Deserialized(w), name).value),
                  Build(Deserialized(w), name).f, w, name)
  {
  }
}
