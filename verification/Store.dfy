/** The content-addressed store: its operations in place, each tied to its contents. */
module StoreClass {
  import opened Options
  import opened Reachability
  import opened Dictionary
  import opened Nodes
  import opened StoreContents
  import opened Reconstruction

  /** Counters and conflicts of a merge. */
  datatype MergeResult = MergeResult(addedObjects: nat, addedRefs: nat, conflicts: map<string, (Hash, Hash)>)

  function Without<V>(m: map<Hash, V>, hashes: set<Hash>): map<Hash, V> {
    map h | h in m && h !in hashes :: m[h]
  }

  function Only<V>(m: map<Hash, V>, hashes: set<Hash>): map<Hash, V> {
    map h | h in m && h in hashes :: m[h]
  }

  /** list(dict.fromkeys(s)): the first occurrence of every element. */
  function Dedupe(s: seq<Hash>): seq<Hash> {
    if s == [] then []
    else
      var r := Dedupe(s[..|s| - 1]);
      if s[|s| - 1] in r then r else r + [s[|s| - 1]]
  }

  lemma {:induction false} DedupeElements(s: seq<Hash>)
    ensures Elements(Dedupe(s)) == Elements(s) && Distinct(Dedupe(s))
  {
    if s != [] {
      var p, x := s[..|s| - 1], s[|s| - 1];
      DedupeElements(p);
      assert s == p + [x];
      assert x in Dedupe(p) <==> x in Elements(Dedupe(p));
      assert Elements(s) == Elements(p) + {x};
      assert Elements(Dedupe(p) + [x]) == Elements(Dedupe(p)) + {x};
    }
  }

  /** The dependency lists of a merge: lists of both stores are united per hash. */
  function MergeDeps(mine: map<Hash, seq<Hash>>, theirs: map<Hash, seq<Hash>>): map<Hash, seq<Hash>> {
    map h | h in mine.Keys + theirs.Keys ::
      if h !in theirs then mine[h] else if h !in mine then theirs[h] else Dedupe(mine[h] + theirs[h])
  }

  /** The references of a merge: existing ones win, new ones are appended in order. */
  function MergeRefs(mine: Dict<Hash>, theirs: Dict<Hash>): Dict<Hash> {
    if theirs == [] then mine
    else
      var k := |theirs| - 1;
      var r := MergeRefs(mine, theirs[..k]);
      if Get(r, theirs[k].0).Some? then r else r + [theirs[k]]
  }

  /** The names on which two stores disagree, with both hashes. */
  ghost predicate AreConflicts(mine: Dict<Hash>, theirs: Dict<Hash>, conflicts: map<string, (Hash, Hash)>) {
    && (forall n :: n in conflicts <==> Get(mine, n).Some? && Get(theirs, n).Some? && Get(mine, n) != Get(theirs, n))
    && (forall n :: n in conflicts ==> conflicts[n] == (Get(mine, n).value, Get(theirs, n).value))
  }

  /** Keys of both; where both have a key, the value is ours. */
  ghost predicate UnitedObjects(mine: map<Hash, Blob>, theirs: map<Hash, Blob>, merged: map<Hash, Blob>) {
    && (forall h :: h in merged <==> h in mine || h in theirs)
    && forall h :: h in merged ==> merged[h] == if h in mine then mine[h] else theirs[h]
  }

  lemma SameSize(taken: set<Hash>, mine: set<Hash>, theirs: set<Hash>)
    requires forall h :: h in taken <==> h in theirs && h !in mine
    ensures |taken| == |theirs - mine|
  {
    assert taken == theirs - mine;
  }

  lemma ConflictsWith(mine: Dict<Hash>, before: Dict<Hash>, after: Dict<Hash>, name: string, h: Hash,
                      conflicts: map<string, (Hash, Hash)>)
    requires AreConflicts(mine, before, conflicts) && Get(before, name).None?
    requires forall n :: Get(after, n) == if n == name then Some(h) else Get(before, n)
    ensures AreConflicts(mine, after,
                         if Get(mine, name).Some? && Get(mine, name).value != h
                         then conflicts[name := (Get(mine, name).value, h)] else conflicts)
  {
    hide Get;
  }

  /** What one more name of theirs adds to the conflicts. */
  lemma ConflictStep(mine: Dict<Hash>, theirs: Dict<Hash>, i: nat, conflicts: map<string, (Hash, Hash)>)
    requires UniqueKeys(mine) && UniqueKeys(theirs) && i < |theirs|
    requires AreConflicts(mine, theirs[..i], conflicts)
    ensures Get(theirs[..i], theirs[i].0).None?
    ensures UniqueKeys(theirs[..i])
    ensures var name, h := theirs[i].0, theirs[i].1;
      AreConflicts(mine, theirs[..i + 1],
                   if Get(mine, name).Some? && Get(mine, name).value != h
                   then conflicts[name := (Get(mine, name).value, h)] else conflicts)
  {
    var before := theirs[..i];
    GetSome(before, theirs[i].0);
    assert theirs[..i + 1] == before + [theirs[i]];
    forall n
      ensures Get(theirs[..i + 1], n) == if n == theirs[i].0 then Some(theirs[i].1) else Get(before, n)
    {
      GetAppend(before, [theirs[i]], n);
    }
    ConflictsWith(mine, before, theirs[..i + 1], theirs[i].0, theirs[i].1, conflicts);
  }

  /** Reachable from some reference. */
  ghost predicate Live(refs: Dict<Hash>, deps: map<Hash, seq<Hash>>, h: Hash) {
    exists i :: 0 <= i < |refs| && Reaches(deps, refs[i].1, h)
  }

  lemma LiveStep(refs: Dict<Hash>, deps: map<Hash, seq<Hash>>, h: Hash, i: nat)
    requires i < |refs|
    ensures Live(refs[..i + 1], deps, h) <==> Live(refs[..i], deps, h) || h in Walk(deps, refs[i].1)
  {
    WalkExact(deps, refs[i].1);
    var p, q := refs[..i], refs[..i + 1];
    assert q[i] == refs[i];
    if Live(p, deps, h) {
      var j :| 0 <= j < |p| && Reaches(deps, p[j].1, h);
      assert q[j] == p[j];
    }
    if Live(q, deps, h) {
      var j :| 0 <= j < |q| && Reaches(deps, q[j].1, h);
      if j < i {
        assert p[j] == q[j];
      }
    }
  }

  lemma {:induction false} NameOfIsRef(refs: Dict<Hash>, h: Hash)
    ensures NameOf(refs, h).Some? <==> exists i :: 0 <= i < |refs| && refs[i].1 == h
    ensures NameOf(refs, h).Some? ==> exists i :: 0 <= i < |refs| && refs[i] == (NameOf(refs, h).value, h)
  {
    if refs != [] {
      var k := |refs| - 1;
      NameOfIsRef(refs[..k], h);
      if refs[k].1 == h {
        assert refs[k] == (NameOf(refs, h).value, h);
      } else if NameOf(refs, h).Some? {
        var i :| 0 <= i < |refs[..k]| && refs[..k][i] == (NameOf(refs, h).value, h);
        assert refs[i] == (NameOf(refs, h).value, h);
      }
    }
  }

  lemma NameOfUnique(refs: Dict<Hash>, h: Hash)
    requires UniqueKeys(refs) && NameOf(refs, h).Some?
    ensures Get(refs, NameOf(refs, h).value) == Some(h)
  {
    NameOfIsRef(refs, h);
    var i :| 0 <= i < |refs| && refs[i] == (NameOf(refs, h).value, h);
    GetUnique(refs, i);
  }

  function FilterSet(s: seq<Hash>, keep: set<Hash>): seq<Hash> {
    if s == [] then [] else (if s[0] in keep then [s[0]] else []) + FilterSet(s[1..], keep)
  }

  lemma {:induction false} FilterInAll(s: seq<Hash>, keep: set<Hash>)
    requires forall d :: d in s ==> d in keep
    ensures FilterSet(s, keep) == s
  {
    if s != [] {
      assert s[0] in s && s == [s[0]] + s[1..];
      FilterInAll(s[1..], keep);
    }
  }

  /** Reachable from one of the roots. */
  ghost predicate FromRoots(deps: map<Hash, seq<Hash>>, roots: seq<Hash>, h: Hash) {
    exists i :: 0 <= i < |roots| && Reaches(deps, roots[i], h)
  }

  lemma FromRootsStep(deps: map<Hash, seq<Hash>>, roots: seq<Hash>, h: Hash, i: nat)
    requires i < |roots|
    ensures FromRoots(deps, roots[..i + 1], h) <==> FromRoots(deps, roots[..i], h) || h in Walk(deps, roots[i])
  {
    WalkExact(deps, roots[i]);
    var p, q := roots[..i], roots[..i + 1];
    assert q[i] == roots[i];
    if FromRoots(deps, p, h) {
      var j :| 0 <= j < |p| && Reaches(deps, p[j], h);
      assert q[j] == p[j];
    }
    if FromRoots(deps, q, h) {
      var j :| 0 <= j < |q| && Reaches(deps, q[j], h);
      if j < i {
        assert p[j] == q[j];
      }
    }
  }

  lemma FromRootsClosed(deps: map<Hash, seq<Hash>>, roots: seq<Hash>, h: Hash, d: Hash)
    requires FromRoots(deps, roots, h) && d in Successors(deps, h)
    ensures FromRoots(deps, roots, d)
  {
    var i :| 0 <= i < |roots| && Reaches(deps, roots[i], h);
    ReachesExtend(deps, roots[i], h, d);
  }

  lemma ClosedUnderSuccessors(deps: map<Hash, seq<Hash>>, roots: seq<Hash>, reachable: set<Hash>, h: Hash)
    requires h in reachable && forall g :: g in reachable <==> FromRoots(deps, roots, g)
    ensures forall d :: d in Successors(deps, h) ==> d in reachable
  {
    forall d | d in Successors(deps, h)
      ensures d in reachable
    {
      FromRootsClosed(deps, roots, h, d);
    }
  }

  /** With unique keys, only one hash goes by a name. */
  lemma NameBelongs(refs: Dict<Hash>, h: Hash)
    requires UniqueKeys(refs)
    ensures forall g, n :: NameOf(refs, g) == Some(n) && NameOf(refs, h) == Some(n) ==> g == h
  {
    forall g, n | NameOf(refs, g) == Some(n) && NameOf(refs, h) == Some(n)
      ensures g == h
    {
      NameOfUnique(refs, g);
      NameOfUnique(refs, h);
    }
  }

  /** sub holds exactly what c holds about the hashes in done: blobs, dependency lists, and
      the last name of each. */
  ghost predicate Copied(c: Contents, sub: Contents, done: set<Hash>) {
    && sub.objects == Only(c.objects, done)
    && (forall h :: Successors(sub.deps, h) == if h in done then Successors(c.deps, h) else [])
    && (forall n, h :: Get(sub.refs, n) == Some(h) <==> h in done && NameOf(c.refs, h) == Some(n))
  }

  /** What copying one hash does to the new store. */
  ghost predicate CopiedOne(c: Contents, before: Contents, after: Contents, h: Hash) {
    && after.objects == (if h in c.objects then before.objects[h := c.objects[h]] else before.objects)
    && (Successors(after.deps, h) == if Successors(c.deps, h) == [] then Successors(before.deps, h) else Successors(c.deps, h))
    && (forall g :: g != h ==> Successors(after.deps, g) == Successors(before.deps, g))
    && (forall n :: Get(after.refs, n) == if NameOf(c.refs, h) == Some(n) then Some(h) else Get(before.refs, n))
  }

  lemma NothingCopied(c: Contents)
    ensures Copied(c, Contents(map[], map[], []), {})
  {
  }

  lemma CopiedStep(c: Contents, before: Contents, after: Contents, done: set<Hash>, h: Hash)
    requires UniqueKeys(c.refs) && h !in done
    requires Copied(c, before, done) && CopiedOne(c, before, after, h)
    ensures Copied(c, after, done + {h})
  {
    hide Get, NameOf, Successors, UniqueKeys;
    NameBelongs(c.refs, h);
    forall n, g
      ensures Get(after.refs, n) == Some(g) <==> g in done + {h} && NameOf(c.refs, g) == Some(n)
    {
      assert Get(before.refs, n) == Some(g) <==> g in done && NameOf(c.refs, g) == Some(n);
    }
    forall g
      ensures Successors(after.deps, g) == if g in done + {h} then Successors(c.deps, g) else []
    {
    }
  }

  lemma {:induction false} MergeRefsGet(mine: Dict<Hash>, theirs: Dict<Hash>)
    requires UniqueKeys(mine) && UniqueKeys(theirs)
    ensures UniqueKeys(MergeRefs(mine, theirs)) && |MergeRefs(mine, theirs)| >= |mine|
    ensures forall n :: Get(MergeRefs(mine, theirs), n) == if Get(mine, n).Some? then Get(mine, n) else Get(theirs, n)
  {
    if theirs != [] {
      var k := |theirs| - 1;
      var r := MergeRefs(mine, theirs[..k]);
      MergeRefsGet(mine, theirs[..k]);
      GetSome(r, theirs[k].0);
      forall n
        ensures Get(MergeRefs(mine, theirs), n) == if Get(mine, n).Some? then Get(mine, n) else Get(theirs, n)
      {
        assert theirs == theirs[..k] + [theirs[k]];
        GetAppend(theirs[..k], [theirs[k]], n);
        GetAppend(r, [theirs[k]], n);
      }
    }
  }

  /** An edge of the merged graph is an edge of one of the two. */
  lemma MergedEdges(mine: map<Hash, seq<Hash>>, theirs: map<Hash, seq<Hash>>, h: Hash, d: Hash)
    ensures d in Successors(MergeDeps(mine, theirs), h) <==> d in Successors(mine, h) || d in Successors(theirs, h)
  {
    if h in mine && h in theirs {
      DedupeElements(mine[h] + theirs[h]);
      assert d in Elements(mine[h] + theirs[h]) <==> d in mine[h] || d in theirs[h];
      assert d in Dedupe(mine[h] + theirs[h]) <==> d in Elements(Dedupe(mine[h] + theirs[h]));
    }
  }

  /** A path each of whose steps is an edge of one graph or the other. */
  ghost predicate PathOfEither(mine: Edges, theirs: Edges, p: seq<Hash>, a: Hash, b: Hash) {
    && |p| > 0 && p[0] == a && p[|p| - 1] == b
    && forall i :: 0 <= i < |p| - 1 ==> p[i + 1] in Successors(mine, p[i]) || p[i + 1] in Successors(theirs, p[i])
  }

  /** Removing repetitions keeps what comes first in its place. */
  lemma {:induction false} DedupeKeepsFirst(a: seq<Hash>, b: seq<Hash>)
    ensures Dedupe(a) <= Dedupe(a + b)
    ensures Distinct(a) ==> Dedupe(a) == a
    decreases |a| + |b|
  {
    if b != [] {
      assert (a + b)[..|a + b| - 1] == a + b[..|b| - 1];
      DedupeKeepsFirst(a, b[..|b| - 1]);
    } else {
      assert a + b == a;
      if a != [] {
        var front := a[..|a| - 1];
        DedupeKeepsFirst(front, []);
        assert front + [a[|a| - 1]] == a;
        if Distinct(a) {
          assert a[|a| - 1] !in front;
        }
      }
    }
  }

  /** Our dependencies come first in a merged list, in our order. */
  lemma MergedOursFirst(mine: map<Hash, seq<Hash>>, theirs: map<Hash, seq<Hash>>, h: Hash)
    requires h in mine && Distinct(mine[h])
    ensures h in MergeDeps(mine, theirs) && mine[h] <= MergeDeps(mine, theirs)[h]
  {
    if h in theirs {
      DedupeKeepsFirst(mine[h], theirs[h]);
    }
  }

  /** After a merge, reachability is that of the united edges. */
  lemma MergeReaches(mine: map<Hash, seq<Hash>>, theirs: map<Hash, seq<Hash>>, a: Hash, b: Hash)
    ensures Reaches(MergeDeps(mine, theirs), a, b) <==> exists p :: PathOfEither(mine, theirs, p, a, b)
  {
    var g := MergeDeps(mine, theirs);
    forall p
      ensures PathBetween(g, p, a, b) <==> PathOfEither(mine, theirs, p, a, b)
    {
      forall i | 0 <= i < |p| - 1
        ensures p[i + 1] in Successors(g, p[i]) <==> p[i + 1] in Successors(mine, p[i]) || p[i + 1] in Successors(theirs, p[i])
      {
        MergedEdges(mine, theirs, p[i], p[i + 1]);
      }
    }
  }

  // ---- What collected nodes are ----

  /** x is what h is called: the last name that refers to it, or other if none does. */
  ghost predicate IsCalled(refs: Dict<Hash>, h: Hash, x: string, other: string) {
    if exists i :: 0 <= i < |refs| && refs[i].1 == h then
      exists i :: 0 <= i < |refs| && refs[i] == (x, h) && forall j :: i < j < |refs| ==> refs[j].1 != h
    else x == other
  }

  lemma {:induction false} NameOfIsLast(refs: Dict<Hash>, h: Hash, other: string)
    ensures IsCalled(refs, h, GetOr(NameOf(refs, h), other), other)
  {
    if refs != [] {
      var k := |refs| - 1;
      var x := GetOr(NameOf(refs, h), other);
      if refs[k].1 == h {
        assert refs[k] == (x, h);
      } else {
        NameOfIsLast(refs[..k], h, other);
        if i :| 0 <= i < |refs| && refs[i].1 == h {
          assert refs[..k][i].1 == h;
          var n :| 0 <= n < k && refs[..k][n] == (x, h) && forall j :: n < j < k ==> refs[..k][j].1 != h;
          assert refs[n] == (x, h);
          forall j | n < j < |refs|
            ensures refs[j].1 != h
          {
            assert j < k ==> refs[..k][j] == refs[j];
          }
        }
      }
    }
  }

  /** A collected node has the blob's content; it, its dependencies and what it captures are
      called by the last names of their hashes. Without a name it is called by module and simple
      name, and the others by what refers to them. */
  lemma NodeTells(c: Contents, h: Hash, blob: Blob)
    ensures var node := NodeOf(c, h, blob);
      && IsCalled(c.refs, h, node.qualifiedName, blob.moduleName + "." + blob.name)
      && node.content == blob.(closureFuncRefs := node.content.closureFuncRefs)
      && |node.content.closureFuncRefs| == |blob.closureFuncRefs| && |node.dependencies| == |Successors(c.deps, h)|
      && (forall i :: 0 <= i < |blob.closureFuncRefs| ==>
            node.content.closureFuncRefs[i].0 == blob.closureFuncRefs[i].0
            && IsCalled(c.refs, blob.closureFuncRefs[i].1, node.content.closureFuncRefs[i].1, blob.closureFuncRefs[i].1))
      && forall i :: 0 <= i < |node.dependencies| ==> IsCalled(c.refs, Successors(c.deps, h)[i], node.dependencies[i], Successors(c.deps, h)[i])
  {
    NameOfIsLast(c.refs, h, blob.moduleName + "." + blob.name);
    var node := NodeOf(c, h, blob);
    var hashes := Successors(c.deps, h);
    hide IsCalled, NameOf;
    forall i | 0 <= i < |blob.closureFuncRefs|
      ensures node.content.closureFuncRefs[i].0 == blob.closureFuncRefs[i].0
      ensures IsCalled(c.refs, blob.closureFuncRefs[i].1, node.content.closureFuncRefs[i].1, blob.closureFuncRefs[i].1)
    {
      NameOfIsLast(c.refs, blob.closureFuncRefs[i].1, blob.closureFuncRefs[i].1);
    }
    forall i | 0 <= i < |hashes|
      ensures IsCalled(c.refs, hashes[i], node.dependencies[i], hashes[i])
    {
      NameOfIsLast(c.refs, hashes[i], hashes[i]);
    }
  }

  /** The last segment of a dotted name: what follows its last dot. */
  lemma {:induction false} LastSegmentExact(q: string)
    ensures var s := LastSegment(q);
      '.' !in s && |s| <= |q| && q[|q| - |s|..] == s && (s == q || q[|q| - |s| - 1] == '.')
  {
    if '.' in q && q[|q| - 1] != '.' {
      var front := q[..|q| - 1];
      var s := LastSegment(front);
      LastSegmentExact(front);
      assert '.' in front;
      assert front[|front| - |s|..] == s;
      assert q[|q| - |s| - 1..] == s + [q[|q| - 1]];
    }
  }

  // ---- Name lookup ----

  ghost predicate GoesBy(objects: map<Hash, Blob>, h: Hash, name: string) {
    h in objects && objects[h].name == name
  }

  /** What a lookup finds: the hash of the reference with that qualified name; without one, the
      hash of the first reference to a blob with that simple name; nothing if neither exists. */
  ghost predicate IsFound(objects: map<Hash, Blob>, refs: Dict<Hash>, name: string, found: Option<Hash>) {
    if exists i :: 0 <= i < |refs| && refs[i].0 == name then
      found.Some? && exists i :: 0 <= i < |refs| && refs[i] == (name, found.value) && forall j :: 0 <= j < i ==> refs[j].0 != name
    else match found
      case None => forall i :: 0 <= i < |refs| ==> !GoesBy(objects, refs[i].1, name)
      case Some(h) =>
        exists i :: 0 <= i < |refs| && refs[i].1 == h && GoesBy(objects, h, name)
                    && forall j :: 0 <= j < i ==> !GoesBy(objects, refs[j].1, name)
  }

  lemma {:induction false} GetFirstEntry(refs: Dict<Hash>, name: string)
    requires Get(refs, name).Some?
    ensures exists i :: 0 <= i < |refs| && refs[i] == (name, Get(refs, name).value) && forall j :: 0 <= j < i ==> refs[j].0 != name
  {
    if refs[0].0 == name {
      assert refs[0] == (name, Get(refs, name).value);
    } else {
      GetFirstEntry(refs[1..], name);
      var i :| 0 <= i < |refs| - 1 && refs[1..][i] == (name, Get(refs, name).value) && forall j :: 0 <= j < i ==> refs[1..][j].0 != name;
      assert refs[i + 1] == (name, Get(refs, name).value);
      forall j | 0 <= j < i + 1
        ensures refs[j].0 != name
      {
        if j > 0 {
          assert refs[1..][j - 1] == refs[j];
        }
      }
    }
  }

  lemma {:induction false} FindSimpleExact(c: Contents, refs: Dict<Hash>, name: string)
    ensures match FindSimple(c, refs, name)
      case None => forall i :: 0 <= i < |refs| ==> !GoesBy(c.objects, refs[i].1, name)
      case Some(h) =>
        exists i :: 0 <= i < |refs| && refs[i].1 == h && GoesBy(c.objects, h, name)
                    && forall j :: 0 <= j < i ==> !GoesBy(c.objects, refs[j].1, name)
  {
    if refs != [] && !GoesBy(c.objects, refs[0].1, name) {
      FindSimpleExact(c, refs[1..], name);
      var found := FindSimple(c, refs[1..], name);
      if found.Some? {
        var i :| 0 <= i < |refs| - 1 && refs[1..][i].1 == found.value && forall j :: 0 <= j < i ==> !GoesBy(c.objects, refs[1..][j].1, name);
        assert refs[i + 1].1 == found.value;
        forall j | 0 <= j < i + 1
          ensures !GoesBy(c.objects, refs[j].1, name)
        {
          if j > 0 {
            assert refs[1..][j - 1] == refs[j];
          }
        }
      } else {
        forall i | 0 <= i < |refs|
          ensures !GoesBy(c.objects, refs[i].1, name)
        {
          if i > 0 {
            assert refs[1..][i - 1] == refs[i];
          }
        }
      }
    } else if refs != [] {
      assert refs[0].1 == FindSimple(c, refs, name).value;
    }
  }

  /** The lookup finds just that. */
  lemma ResolveExact(c: Contents, name: string)
    ensures IsFound(c.objects, c.refs, name, Resolve(c, name))
  {
    GetSome(c.refs, name);
    FindSimpleExact(c, c.refs, name);
    hide FindSimple, GoesBy, Get;
    if Get(c.refs, name).Some? {
      GetFirstEntry(c.refs, name);
      var i :| 0 <= i < |c.refs| && c.refs[i] == (name, Get(c.refs, name).value);
      assert c.refs[i].0 == name;
    }
  }

  class Store {
    var objects: map<Hash, Blob>
    var deps: map<Hash, seq<Hash>>
    var refs: Dict<Hash>

    ghost predicate Valid()
      reads this
    {
      UniqueKeys(refs)
    }

    function Now(): Contents
      reads this
    {
      Contents(objects, deps, refs)
    }

    constructor ()
      ensures Valid() && Now() == Contents(map[], map[], [])
    {
      objects, deps, refs := map[], map[], [];
    }

    /** Returns every hash reachable from the root once, in the order of the stack walk. */
    method WalkHashes(root: Hash) returns (visited: seq<Hash>)
      ensures visited == Walk(deps, root)
    {
      visited := [];
      var stack := [root];
      while stack != []
        invariant WalkFrom(deps, visited, stack) == Walk(deps, root)
        decreases Pending(deps, visited, stack), |stack|
      {
        var h := stack[|stack| - 1];
        var rest := stack[..|stack| - 1];
        if h in visited {
          PendingSkip(deps, visited, stack);
          stack := rest;
        } else {
          PendingVisit(deps, visited, stack);
          visited := visited + [h];
          stack := rest + Successors(deps, h);
        }
      }
    }

    /** Sets a dependency list; an empty one removes the entry. */
    method SetDeps(h: Hash, depHashes: seq<Hash>)
      modifies this`deps
      ensures deps == if depHashes != [] then old(deps)[h := depHashes] else Without(old(deps), {h})
      ensures Successors(deps, h) == depHashes
      ensures forall g :: g != h ==> Successors(deps, g) == Successors(old(deps), g)
    {
      if depHashes != [] {
        deps := deps[h := depHashes];
      } else {
        deps := Without(deps, {h});
      }
    }

    method Delete(garbage: set<Hash>)
      modifies this`objects, this`deps
      ensures objects == Without(old(objects), garbage) && deps == Without(old(deps), garbage)
    {
      var todo := garbage;
      assert garbage - todo == {};
      assert objects == Without(objects, {}) && deps == Without(deps, {});
      while todo != {}
        invariant todo <= garbage
        invariant objects == Without(old(objects), garbage - todo) && deps == Without(old(deps), garbage - todo)
        decreases todo
      {
        var h :| h in todo;
        todo := todo - {h};
        objects := Without(objects, {h});
        deps := Without(deps, {h});
      }
    }

    /** Stores a blob under its content hash, unless the hash is there already. */
    method PutNode(h: Hash, blob: Blob)
      modifies this`objects
      ensures objects == if h in old(objects) then old(objects) else old(objects)[h := blob]
    {
      if h !in objects {
        objects := objects[h := blob];
      }
    }

    /** Removes the objects unreachable from any reference, with their dependency lists, and
        returns their hashes. */
    method Gc() returns (garbage: set<Hash>)
      requires Valid()
      modifies this`objects, this`deps
      ensures Valid()
      ensures forall h :: h in garbage <==> h in old(objects) && !Live(refs, old(deps), h)
      ensures objects == Without(old(objects), garbage) && deps == Without(old(deps), garbage)
    {
      var reachable: set<Hash> := {};
      for i := 0 to |refs|
        invariant objects == old(objects) && deps == old(deps)
        invariant forall h :: h in reachable <==> Live(refs[..i], deps, h)
      {
        var visited := WalkHashes(refs[i].1);
        forall h
          ensures h in reachable + Elements(visited) <==> Live(refs[..i + 1], deps, h)
        {
          LiveStep(refs, deps, h, i);
        }
        reachable := reachable + Elements(visited);
      }
      assert refs[..|refs|] == refs;
      garbage := objects.Keys - reachable;
      Delete(garbage);
    }

    /** Maps a name to a hash, in place when the name is already there. */
    method SetRef(name: string, h: Hash)
      requires Valid()
      modifies this`refs
      ensures Valid() && refs == Put(old(refs), name, h)
      ensures forall n :: Get(refs, n) == if n == name then Some(h) else Get(old(refs), n)
    {
      forall n
        ensures Get(Put(refs, name, h), n) == if n == name then Some(h) else Get(refs, n)
      {
        GetPut(refs, name, h, n);
      }
      PutUnique(refs, name, h);
      refs := Put(refs, name, h);
    }

    /** The union of the walks from the roots. */
    method ReachableFrom(roots: seq<Hash>) returns (reachable: set<Hash>)
      ensures forall h :: h in reachable <==> FromRoots(deps, roots, h)
    {
      reachable := {};
      for i := 0 to |roots|
        invariant forall h :: h in reachable <==> FromRoots(deps, roots[..i], h)
      {
        var visited := WalkHashes(roots[i]);
        forall h
          ensures h in reachable + Elements(visited) <==> FromRoots(deps, roots[..i + 1], h)
        {
          FromRootsStep(deps, roots, h, i);
        }
        reachable := reachable + Elements(visited);
      }
      assert roots[..|roots|] == roots;
    }

    /** One round of subgraph's loop: copies the blob, the dependency list cut to what is
        reachable, and the name of a hash. */
    method CopyEntry(sub: Store, h: Hash, reachable: set<Hash>)
      requires Valid() && sub.Valid() && sub != this
      requires forall d :: d in Successors(deps, h) ==> d in reachable
      modifies sub
      ensures sub.Valid() && CopiedOne(Now(), old(sub.Now()), sub.Now(), h)
    {
      if h in objects {
        sub.objects := sub.objects[h := objects[h]];
      }
      if h in deps && deps[h] != [] {
        FilterInAll(deps[h], reachable);
        sub.SetDeps(h, FilterSet(deps[h], reachable));
      }
      var name := NameOf(refs, h);
      if name.Some? {
        sub.SetRef(name.value, h);
      }
    }

    /** Extracts everything reachable from the roots into a new store: blobs, dependency
        lists, and for each hash the last name that refers to it. */
    method Subgraph(roots: seq<Hash>) returns (sub: Store)
      requires Valid()
      ensures fresh(sub) && sub.Valid()
      ensures exists done :: (forall h :: h in done <==> FromRoots(deps, roots, h)) && Copied(Now(), sub.Now(), done)
    {
      hide FromRoots, NameOf, Get, FilterSet, Successors, Copied, CopiedOne;
      var reachable := ReachableFrom(roots);
      sub := new Store();
      var todo := reachable;
      assert Copied(Now(), sub.Now(), {}) by { NothingCopied(Now()); }
      assert reachable - todo == {};
      while todo != {}
        invariant todo <= reachable && fresh(sub) && sub.Valid()
        invariant Copied(Now(), sub.Now(), reachable - todo)
        decreases todo
      {
        var h :| h in todo;
        ghost var before := sub.Now();
        ClosedUnderSuccessors(deps, roots, reachable, h);
        CopyEntry(sub, h, reachable);
        CopiedStep(Now(), before, sub.Now(), reachable - todo, h);
        assert reachable - todo + {h} == reachable - (todo - {h});
        todo := todo - {h};
      }
      assert reachable - todo == reachable;
    }

    /** Adds the blobs whose hash is not there yet; returns how many there were. */
    method MergeObjects(theirs: map<Hash, Blob>) returns (added: nat)
      modifies this`objects
      ensures UnitedObjects(old(objects), theirs, objects)
      ensures added == |theirs.Keys - old(objects).Keys|
    {
      added := 0;
      var todo := theirs.Keys;
      ghost var taken: set<Hash> := {};
      while todo != {}
        invariant todo <= theirs.Keys
        invariant forall h :: h in objects <==> h in old(objects) || (h in theirs && h !in todo)
        invariant forall h :: h in objects ==> objects[h] == if h in old(objects) then old(objects)[h] else theirs[h]
        invariant added == |taken|
        invariant forall h :: h in taken <==> h in theirs && h !in todo && h !in old(objects)
        decreases todo
      {
        var h :| h in todo;
        if h !in objects {
          assert h !in taken;
          taken := taken + {h};
          objects := objects[h := theirs[h]];
          added := added + 1;
        }
        todo := todo - {h};
      }
      SameSize(taken, old(objects).Keys, theirs.Keys);
    }

    /** Unites the dependency lists hash by hash. */
    method MergeEdges(theirs: map<Hash, seq<Hash>>)
      modifies this`deps
      ensures deps == MergeDeps(old(deps), theirs)
    {
      var todo := theirs.Keys;
      while todo != {}
        invariant todo <= theirs.Keys
        invariant deps.Keys == old(deps).Keys + (theirs.Keys - todo)
        invariant forall h :: h in deps ==>
          deps[h] == if h in todo then old(deps)[h] else MergeDeps(old(deps), theirs)[h]
        decreases todo
      {
        var h :| h in todo;
        if h !in deps {
          deps := deps[h := theirs[h]];
        } else {
          deps := deps[h := Dedupe(deps[h] + theirs[h])];
        }
        todo := todo - {h};
      }
    }

    /** Keeps existing names, adds new ones, and reports disagreements. */
    method MergeNames(theirs: Dict<Hash>) returns (added: nat, conflicts: map<string, (Hash, Hash)>)
      requires Valid() && UniqueKeys(theirs)
      modifies this`refs
      ensures Valid() && refs == MergeRefs(old(refs), theirs)
      ensures added == |refs| - |old(refs)|
      ensures AreConflicts(old(refs), theirs, conflicts)
    {
      ghost var mine := refs;
      added, conflicts := 0, map[];
      assert theirs[..0] == [];
      for i := 0 to |theirs|
        invariant refs == MergeRefs(mine, theirs[..i])
        invariant added == |refs| - |mine|
        invariant AreConflicts(mine, theirs[..i], conflicts)
      {
        var before, now := theirs[..i], theirs[..i + 1];
        MergeRefsGet(mine, before);
        ConflictStep(mine, theirs, i, conflicts);
        assert now[..i] == before && now[i] == theirs[i];
        var name, h := theirs[i].0, theirs[i].1;
        var existing := Get(refs, name);
        if existing.None? {
          refs := refs + [(name, h)];
          added := added + 1;
        } else if existing.value != h {
          conflicts := conflicts[name := (existing.value, h)];
        }
      }
      assert theirs[..|theirs|] == theirs;
      MergeRefsGet(mine, theirs);
    }

    /** Takes over everything the other store holds; what both name differently stays ours. */
    method Merge(other: Store) returns (result: MergeResult)
      requires Valid() && other.Valid()
      modifies this
      ensures Valid()
      ensures UnitedObjects(old(objects), old(other.objects), objects)
      ensures deps == MergeDeps(old(deps), old(other.deps))
      ensures refs == MergeRefs(old(refs), old(other.refs))
      ensures result.addedObjects == |old(other.objects).Keys - old(objects).Keys|
      ensures result.addedRefs == |refs| - |old(refs)|
      ensures AreConflicts(old(refs), old(other.refs), result.conflicts)
    {
      var addedObjects := MergeObjects(other.objects);
      MergeEdges(other.deps);
      var addedRefs, conflicts := MergeNames(other.refs);
      result := MergeResult(addedObjects, addedRefs, conflicts);
    }

    /** The hash of a qualified name, or of the first reference whose blob has that simple name. */
    method ResolveHash(name: string) returns (found: Option<Hash>)
      ensures found == Resolve(Now(), name)
      ensures IsFound(objects, refs, name, found)
    {
      ResolveExact(Now(), name);
      found := Get(refs, name);
      if found.None? {
        assert refs[0..] == refs;
        for i := 0 to |refs|
          invariant FindSimple(Now(), refs[i..], name) == FindSimple(Now(), refs, name)
        {
          if refs[i].1 in objects && objects[refs[i].1].name == name {
            return Some(refs[i].1);
          }
          assert refs[i..][1..] == refs[i + 1..];
        }
      }
    }

    /** Resolves a name and collects the nodes it needs, in walk order. */
    method CollectNodes(name: string) returns (found: Result<(string, Dict<FunctionNode>)>)
      ensures found == Collect(Now(), name)
    {
      var root := ResolveHash(name);
      if root.None? {
        return KeyError;
      }
      var reachable := WalkHashes(root.value);
      var needed: Dict<FunctionNode> := [];
      assert reachable[0..] == reachable;
      for i := 0 to |reachable|
        invariant CollectFrom(Now(), reachable[i..], needed) == Needed(Now(), root.value)
      {
        assert reachable[i..][1..] == reachable[i + 1..];
        var h := reachable[i];
        if h in objects {
          needed := Put(needed, QualifiedName(Now(), h, objects[h]), NodeOf(Now(), h, objects[h]));
        }
      }
      found := Ok((GetOr(NameOf(refs, root.value), "unknown." + name), needed));
    }

    /** Turns a named function and everything it needs into one flat program. */
    method ReconstructProgram(name: string) returns (program: Result<seq<Part>>)
      ensures program == Reconstruct(Now(), name)
    {
      var found := CollectNodes(name);
      if found.KeyError? {
        return KeyError;
      }
      var needed := found.value.1;
      var order := Order(needed);
      if order.None? {
        return CycleError;
      }
      CollectUnique(Now(), Walk(deps, Resolve(Now(), name).value), []);
      OrderIsNeeded(needed);
      var parts := EmitParts(needed, order.value);
      program := Ok(parts);
    }

    /** The serialized form: captured functions are written as hashes. */
    method ToDict() returns (data: Contents)
      ensures data == Serialized(Now())
    {
      var written: map<Hash, Blob> := map[];
      var todo := objects.Keys;
      while todo != {}
        invariant todo <= objects.Keys
        invariant forall h :: h in written <==> h in objects && h !in todo
        invariant forall h :: h in written ==> written[h] == Serialized(Now()).objects[h]
        decreases todo
      {
        var h :| h in todo;
        written := written[h := objects[h].(closureFuncRefs := HashesForRefs(refs, objects[h].closureFuncRefs))];
        todo := todo - {h};
      }
      assert written == Serialized(Now()).objects;
      data := Contents(written, deps, refs);
    }

    method PutBlobs(blobs: map<Hash, Blob>)
      requires objects == map[]
      modifies this`objects
      ensures objects == blobs
    {
      var todo := blobs.Keys;
      while todo != {}
        invariant todo <= blobs.Keys
        invariant forall h :: h in objects <==> h in blobs && h !in todo
        invariant forall h :: h in objects ==> objects[h] == blobs[h]
        decreases todo
      {
        var h :| h in todo;
        objects := objects[h := blobs[h]];
        todo := todo - {h};
      }
    }

    method PutEdges(lists: map<Hash, seq<Hash>>)
      requires deps == map[]
      modifies this`deps
      ensures deps == map h | h in lists && lists[h] != [] :: lists[h]
    {
      var todo := lists.Keys;
      while todo != {}
        invariant todo <= lists.Keys
        invariant forall h :: h in deps <==> h in lists && h !in todo && lists[h] != []
        invariant forall h :: h in deps ==> deps[h] == lists[h]
        decreases todo
      {
        var h :| h in todo;
        SetDeps(h, lists[h]);
        todo := todo - {h};
      }
    }

    /** Reads a serialized store: captured functions are read back as names. */
    constructor FromDict(data: Contents)
      requires UniqueKeys(data.refs)
      ensures Valid() && Now() == Deserialized(data)
    {
      objects, deps, refs := map[], map[], [];
      new;
      PutBlobs(Deserialized(data).objects);
      PutEdges(data.deps);
      for i := 0 to |data.refs|
        invariant Valid() && objects == Deserialized(data).objects && deps == Deserialized(data).deps
        invariant refs == data.refs[..i]
      {
        GetSome(data.refs[..i], data.refs[i].0);
        PutNew(data.refs[..i], data.refs[i].0, data.refs[i].1);
        SetRef(data.refs[i].0, data.refs[i].1);
      }
    }
  }
}
