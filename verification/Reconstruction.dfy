/** The loops of offwork/graph/store.py and offwork/graph/analyzer.py that turn collected nodes
    into a program, each tied to what it computes. */
module Reconstruction {
  import opened Options
  import opened Dictionary
  import opened Reachability
  import opened TopologicalSort
  import opened Nodes
  import opened StoreContents

  /** Appends every captured value as a keyword-only parameter with that default. */
  method HoistClosureVars(source: Source, vars: seq<(string, int)>) returns (hoisted: Source)
    ensures hoisted == source.(kwonly := source.kwonly + ValueDefaults(vars))
  {
    var kwonly := source.kwonly;
    for i := 0 to |vars|
      invariant kwonly == source.kwonly + ValueDefaults(vars)[..i]
    {
      kwonly := kwonly + [(vars[i].0, Value(vars[i].1))];
    }
    hoisted := source.(kwonly := kwonly);
  }

  /** Appends every captured function as a keyword-only parameter that defaults to its name. */
  method HoistClosureFuncRefs(source: Source, closureRefs: seq<(string, string)>, needed: Dict<FunctionNode>)
      returns (hoisted: Source)
    ensures hoisted == source.(kwonly := source.kwonly + NameDefaults(needed, closureRefs))
  {
    var kwonly := source.kwonly;
    for i := 0 to |closureRefs|
      invariant kwonly == source.kwonly + NameDefaults(needed, closureRefs)[..i]
    {
      var node := Get(needed, closureRefs[i].1);
      var name := if node.Some? then node.value.content.name else LastSegment(closureRefs[i].1);
      kwonly := kwonly + [(closureRefs[i].0, FunctionName(name))];
    }
    hoisted := source.(kwonly := kwonly);
  }

  method ApplyClosureTransforms(node: FunctionNode, needed: Dict<FunctionNode>) returns (source: Source)
    ensures source == Transform(node, needed)
  {
    source := node.content.source;
    if node.content.closureVars != [] {
      source := HoistClosureVars(source, node.content.closureVars);
    }
    if node.content.closureFuncRefs != [] {
      source := HoistClosureFuncRefs(source, node.content.closureFuncRefs, needed);
    }
  }

  /** Groups the members of every class, in order. */
  method GroupByClass(needed: Dict<FunctionNode>, order: seq<string>) returns (groups: Dict<seq<string>>)
    ensures forall owner :: GetOr(Get(groups, owner), []) == Members(needed, order, owner)
  {
    groups := [];
    for i := 0 to |order|
      invariant forall owner :: GetOr(Get(groups, owner), []) == Members(needed, order[..i], owner)
    {
      assert order[..i + 1][..i] == order[..i];
      var owner := OwnerOf(needed, order[i]);
      if owner.Some? {
        var grown := GetOr(Get(groups, owner.value), []) + [order[i]];
        forall other
          ensures Get(Put(groups, owner.value, grown), other) == if other == owner.value then Some(grown) else Get(groups, other)
        {
          GetPut(groups, owner.value, grown, other);
        }
        groups := Put(groups, owner.value, grown);
      }
    }
    assert order[..|order|] == order;
  }

  method BuildClassBlock(owner: string, members: seq<string>, needed: Dict<FunctionNode>) returns (part: Part)
    requires forall q :: q in members ==> Get(needed, q).Some?
    ensures part == ClassPart(owner, DefsOf(needed, members))
  {
    var methods: seq<Def> := [];
    for i := 0 to |members|
      invariant methods == DefsOf(needed, members)[..i]
    {
      assert members[i] in members;
      var node := Get(needed, members[i]).value;
      var source := ApplyClosureTransforms(node, needed);
      methods := methods + [Def(members[i], node.content.name, source)];
    }
    part := ClassPart(owner, methods);
  }

  lemma {:induction false} MembersAreNeeded(needed: Dict<FunctionNode>, order: seq<string>, owner: string)
    ensures forall q :: q in Members(needed, order, owner) <==> q in order && OwnerOf(needed, q) == Some(owner)
  {
    if order != [] {
      var k := |order| - 1;
      MembersAreNeeded(needed, order[..k], owner);
      assert order == order[..k] + [order[k]];
    }
  }

  lemma {:induction false} CollectUnique(c: Contents, hashes: seq<Hash>, needed: Dict<FunctionNode>)
    requires UniqueKeys(needed)
    ensures UniqueKeys(CollectFrom(c, hashes, needed))
  {
    hide UniqueKeys, NodeOf, QualifiedName;
    if hashes != [] {
      if hashes[0] in c.objects {
        var blob := c.objects[hashes[0]];
        PutUnique(needed, QualifiedName(c, hashes[0], blob), NodeOf(c, hashes[0], blob));
        CollectUnique(c, hashes[1..], Put(needed, QualifiedName(c, hashes[0], blob), NodeOf(c, hashes[0], blob)));
      } else {
        CollectUnique(c, hashes[1..], needed);
      }
    }
  }

  lemma KeysExact<V>(d: Dict<V>)
    ensures forall q :: q in Keys(d) <==> Get(d, q).Some?
    ensures UniqueKeys(d) ==> Distinct(Keys(d))
  {
    forall q
      ensures q in Keys(d) <==> Get(d, q).Some?
    {
      GetSome(d, q);
      if Get(d, q).Some? {
        var i :| 0 <= i < |d| && d[i].0 == q;
        assert Keys(d)[i] == q;
      }
    }
  }

  lemma {:induction false} FilterExact(names: seq<string>, within: seq<string>)
    ensures forall q :: q in FilterIn(names, within) <==> q in names && q in within
  {
    if names != [] {
      assert names == [names[0]] + names[1..];
      FilterExact(names[1..], within);
    }
  }

  lemma NeededWithin(needed: Dict<FunctionNode>)
    ensures Within(NeededEdges(needed), Keys(needed))
  {
    var g := NeededEdges(needed);
    forall n, m | n in g && m in g[n]
      ensures m in Keys(needed)
    {
      FilterExact(Get(needed, n).value.dependencies, Keys(needed));
    }
  }

  /** A successful sort lists exactly the needed names, each once. */
  lemma OrderIsNeeded(needed: Dict<FunctionNode>)
    requires UniqueKeys(needed) && Order(needed).Some?
    ensures Distinct(Order(needed).value)
    ensures forall q :: q in Order(needed).value <==> Get(needed, q).Some?
  {
    KeysExact(needed);
    NeededWithin(needed);
    StaticOrderSorts(Keys(needed), NeededEdges(needed));
  }

  /** The parts that one position of the order contributes. */
  function EmitAt(needed: Dict<FunctionNode>, order: seq<string>, q: string, emitted: set<string>): seq<Part> {
    var owner := OwnerOf(needed, q);
    if owner.None? then [FunctionPart(DefOf(needed, q))]
    else if owner.value !in emitted then [ClassBlock(needed, order, owner.value)]
    else []
  }

  function EmittedAfter(needed: Dict<FunctionNode>, q: string, emitted: set<string>): set<string> {
    var owner := OwnerOf(needed, q);
    if owner.None? then emitted else emitted + {owner.value}
  }

  lemma EmitStep(needed: Dict<FunctionNode>, order: seq<string>, todo: seq<string>, emitted: set<string>)
    requires todo != []
    ensures Emit(needed, order, todo, emitted)
         == EmitAt(needed, order, todo[0], emitted) + Emit(needed, order, todo[1..], EmittedAfter(needed, todo[0], emitted))
  {
    hide DefOf, ClassBlock, OwnerOf;
    var owner := OwnerOf(needed, todo[0]);
    if owner.Some? && owner.value in emitted {
      assert EmittedAfter(needed, todo[0], emitted) == emitted;
    }
  }

  /** The definition or block for one position of the order. */
  method EmitOne(needed: Dict<FunctionNode>, order: seq<string>, groups: Dict<seq<string>>, q: string, emitted: set<string>)
      returns (parts: seq<Part>)
    requires forall owner :: GetOr(Get(groups, owner), []) == Members(needed, order, owner)
    requires forall n :: n in order ==> Get(needed, n).Some?
    requires q in order
    ensures parts == EmitAt(needed, order, q, emitted)
  {
    var node := Get(needed, q).value;
    var source := ApplyClosureTransforms(node, needed);
    var owner := node.content.ownerClass;
    if owner.None? {
      return [FunctionPart(Def(q, node.content.name, source))];
    } else if owner.value !in emitted {
      MembersAreNeeded(needed, order, owner.value);
      var part := BuildClassBlock(owner.value, GetOr(Get(groups, owner.value), []), needed);
      return [part];
    }
    return [];
  }

  /** The part of reconstruct that follows the sort: one part per function or class. */
  method EmitParts(needed: Dict<FunctionNode>, order: seq<string>) returns (parts: seq<Part>)
    requires forall q :: q in order ==> Get(needed, q).Some?
    ensures parts == Emit(needed, order, order, {})
  {
    hide Emit, EmitAt, Members, OwnerOf, Get;
    var groups := GroupByClass(needed, order);
    parts := [];
    var emitted: set<string> := {};
    assert order[0..] == order;
    for i := 0 to |order|
      invariant parts + Emit(needed, order, order[i..], emitted) == Emit(needed, order, order, {})
    {
      assert order[i] in order && order[i..][1..] == order[i + 1..];
      EmitStep(needed, order, order[i..], emitted);
      var more := EmitOne(needed, order, groups, order[i], emitted);
      var owner := OwnerOf(needed, order[i]);
      emitted := if owner.Some? then emitted + {owner.value} else emitted;
      parts := parts + more;
    }
    EmitNothing(needed, order, emitted);
  }

  lemma EmitNothing(needed: Dict<FunctionNode>, order: seq<string>, emitted: set<string>)
    ensures Emit(needed, order, [], emitted) == []
  {
  }
}
