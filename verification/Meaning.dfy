/** The reconstructed program means what the captured functions meant. */
module Meaning {
  import opened Options
  import opened Dictionary
  import opened Reachability
  import opened TopologicalSort
  import opened Nodes
  import opened StoreContents
  import opened Reconstruction
  import opened Emission
  import opened Semantics
  import opened Scripts
  import opened Running
  import opened Orders

  ghost predicate Standalone(needed: Dict<FunctionNode>, q: string) {
    Get(needed, q).Some? && OwnerOf(needed, q).None?
  }

  /** Top-level names are unambiguous. */
  ghost predicate DistinctTop(needed: Dict<FunctionNode>) {
    forall q, q' :: Get(needed, q).Some? && Get(needed, q').Some? && TopName(needed, q) == TopName(needed, q') ==>
      TopValue(needed, q) == TopValue(needed, q')
  }

  /** Every captured function of a node is a needed standalone function. */
  ghost predicate CapturesKnown(needed: Dict<FunctionNode>) {
    forall q, i :: Standalone(needed, q) && 0 <= i < |Get(needed, q).value.content.closureFuncRefs| ==>
      Standalone(needed, Get(needed, q).value.content.closureFuncRefs[i].1)
  }

  /** The names a function looks up at module level: in its own defaults, and in its body
      where nothing closer binds them. */
  ghost predicate Mentions(needed: Dict<FunctionNode>, q: string, x: string)
    requires Standalone(needed, q)
  {
    var node := Get(needed, q).value;
    var s := node.content.source;
    x in DefaultNames(s.kwonly)
    || (x in Names(s.body) && x !in s.params
        && Get(OriginalDefaults(Scope(needed, q), s.kwonly) + Cells(node.content), x).None?)
  }

  /** Dependency discovery missed nothing: a mentioned name that some needed node goes by names
      a dependency, and own defaults could be evaluated. */
  ghost predicate ScopeComplete(needed: Dict<FunctionNode>) {
    forall q, x :: Standalone(needed, q) && Mentions(needed, q, x) ==>
      && (Get(Scope(needed, q), x).None? ==> forall d :: Get(needed, d).Some? ==> TopName(needed, d) != x)
      && (x in DefaultNames(Get(needed, q).value.content.source.kwonly) ==> Get(Scope(needed, q), x).Some?)
  }

  // ---- Parts and nodes ----

  /** Every part comes from a node of the order. */
  lemma {:induction false} PartHasNode(needed: Dict<FunctionNode>, order: seq<string>, todo: seq<string>,
                                       emitted: set<string>, i: nat) returns (q: string)
    requires i < |Emit(needed, order, todo, emitted)|
    ensures q in todo
    ensures Emit(needed, order, todo, emitted)[i]
         == match OwnerOf(needed, q) case None => FunctionPart(DefOf(needed, q)) case Some(o) => ClassBlock(needed, order, o)
  {
    hide DefOf, ClassBlock, OwnerOf;
    EmitStep(needed, order, todo, emitted);
    var here := EmitAt(needed, order, todo[0], emitted);
    if i < |here| {
      q := todo[0];
    } else {
      q := PartHasNode(needed, order, todo[1..], EmittedAfter(needed, todo[0], emitted), i - |here|);
    }
  }

  /** A part and its node go by the same name and stand for the same thing. */
  lemma NodeOfPart(needed: Dict<FunctionNode>, parts: seq<Part>, i: nat) returns (q: string)
    requires UniqueKeys(needed) && Program(needed) == Ok(parts) && i < |parts|
    ensures Get(needed, q).Some?
    ensures TopNameOf(parts[i]) == TopName(needed, q) && TopValueOf(parts[i]) == TopValue(needed, q)
    ensures parts[i].FunctionPart? ==> Standalone(needed, q) && parts[i] == FunctionPart(DefOf(needed, q))
  {
    var order := Order(needed).value;
    OrderIsNeeded(needed);
    q := PartHasNode(needed, order, order, {}, i);
  }

  lemma PartOfNode(needed: Dict<FunctionNode>, parts: seq<Part>, q: string) returns (i: nat)
    requires UniqueKeys(needed) && Program(needed) == Ok(parts) && Get(needed, q).Some?
    ensures i < |parts| && TopNameOf(parts[i]) == TopName(needed, q) && TopValueOf(parts[i]) == TopValue(needed, q)
    ensures Standalone(needed, q) ==> parts[i] == FunctionPart(DefOf(needed, q))
  {
    if OwnerOf(needed, q).None? {
      i := FunctionAfterDependencies(needed, parts, q);
    } else {
      var first: string;
      i, first := BlockAfterDependencies(needed, parts, OwnerOf(needed, q).value, q);
    }
  }

  lemma PartsStable(needed: Dict<FunctionNode>, parts: seq<Part>)
    requires UniqueKeys(needed) && Program(needed) == Ok(parts) && DistinctTop(needed)
    ensures Stable(parts)
  {
    forall i, j | 0 <= i < |parts| && 0 <= j < |parts| && TopNameOf(parts[i]) == TopNameOf(parts[j])
      ensures TopValueOf(parts[i]) == TopValueOf(parts[j])
    {
      var q := NodeOfPart(needed, parts, i);
      var q' := NodeOfPart(needed, parts, j);
      assert TopName(needed, q) == TopName(needed, q');
    }
  }

  lemma PartsDefinedOnce(needed: Dict<FunctionNode>, parts: seq<Part>)
    requires UniqueKeys(needed) && Program(needed) == Ok(parts)
    ensures DefinedOnce(parts)
  {
    EmitsEachOnce(needed, parts);
    hide AllNames, Program, UniqueKeys, Distinct;
    forall i, j | 0 <= i < j < |parts| && parts[i].FunctionPart? && parts[j].FunctionPart?
      ensures parts[i].def.qname != parts[j].def.qname
    {
      ListedOnce(parts, i, j, parts[i].def.qname);
    }
  }

  // ---- What module globals mean ----

  /** After the program has run, a needed node's top-level name means that node. */
  lemma GlobalOfNode(needed: Dict<FunctionNode>, parts: seq<Part>, d: string)
    requires UniqueKeys(needed) && Program(needed) == Ok(parts) && DistinctTop(needed) && Exec(parts).Some?
    requires Get(needed, d).Some?
    ensures Get(Exec(parts).value.globals, TopName(needed, d)) == Some(TopValue(needed, d))
  {
    PartsStable(needed, parts);
    var i := PartOfNode(needed, parts, d);
    TopStable(parts, i);
    ExecGlobals(parts, TopName(needed, d));
  }

  lemma NodeOfGlobal(needed: Dict<FunctionNode>, parts: seq<Part>, x: string) returns (d: string)
    requires UniqueKeys(needed) && Program(needed) == Ok(parts) && Exec(parts).Some?
    requires Get(Exec(parts).value.globals, x).Some?
    ensures Get(needed, d).Some? && TopName(needed, d) == x
  {
    ExecGlobals(parts, x);
    TopIsDefined(parts, x);
    var i :| 0 <= i < |parts| && TopNameOf(parts[i]) == x;
    d := NodeOfPart(needed, parts, i);
  }

  /** A name in a function's scope comes from a node visible to it. */
  lemma NodeOfScope(needed: Dict<FunctionNode>, q: string, x: string) returns (d: string)
    requires Get(Scope(needed, q), x).Some?
    ensures Get(needed, d).Some? && TopName(needed, d) == x && Get(Scope(needed, q), x) == Some(TopValue(needed, d))
    ensures d in Visible(needed, q)
  {
    var scope := Scope(needed, q);
    GetSome(scope, x);
    var i :| 0 <= i < |scope| && scope[i] == (x, Get(scope, x).value);
    d := Visible(needed, q)[i];
    assert d in Visible(needed, q);
    KeysExact(needed);
    FilterExact(Get(needed, q).value.dependencies + [q], Keys(needed));
  }

  /** A name mentioned by a function means the same in its original scope and in the program. */
  lemma GlobalsAgree(needed: Dict<FunctionNode>, parts: seq<Part>, q: string, x: string)
    requires UniqueKeys(needed) && Program(needed) == Ok(parts) && DistinctTop(needed) && Exec(parts).Some?
    requires ScopeComplete(needed) && Standalone(needed, q) && Mentions(needed, q, x)
    ensures Get(Exec(parts).value.globals, x) == Get(Scope(needed, q), x)
  {
    hide Exec, Program, Scope, TopName, TopValue, Mentions, DistinctTop;
    if Get(Scope(needed, q), x).Some? {
      var d := NodeOfScope(needed, q, x);
      GlobalOfNode(needed, parts, d);
    } else if Get(Exec(parts).value.globals, x).Some? {
      var d := NodeOfGlobal(needed, parts, x);
      assert false;
    }
  }

  // ---- Moved captures ----

  /** Defaults that all have a value evaluate to the list of those values. */
  lemma {:induction false} DefaultsGive(globals: Dict<Val>, kwonly: seq<(string, Default)>, values: Dict<Val>)
    requires |kwonly| == |values|
    requires forall i :: 0 <= i < |kwonly| ==>
      kwonly[i].0 == values[i].0 && DefaultValue(globals, kwonly[i].1) == Some(values[i].1)
    ensures EvalDefaults(globals, kwonly) == Some(values)
  {
    if kwonly != [] {
      DefaultsGive(globals, kwonly[1..], values[1..]);
      assert values == [values[0]] + values[1..];
    }
  }

  lemma CaptureName(needed: Dict<FunctionNode>, r: string)
    requires Standalone(needed, r)
    ensures FunctionNameFor(needed, r) == TopName(needed, r) && TopValue(needed, r) == Fun(r)
  {
  }

  lemma OwnDefault(needed: Dict<FunctionNode>, parts: seq<Part>, q: string, i: nat)
    requires UniqueKeys(needed) && Program(needed) == Ok(parts) && DistinctTop(needed) && Exec(parts).Some?
    requires ScopeComplete(needed) && Standalone(needed, q)
    requires i < |Get(needed, q).value.content.source.kwonly|
    requires Get(needed, q).value.content.source.kwonly[i].1.FunctionName?
    ensures var x := Get(needed, q).value.content.source.kwonly[i].1.name;
      Get(Exec(parts).value.globals, x) == Get(Scope(needed, q), x) && Get(Scope(needed, q), x).Some?
  {
    var x := Get(needed, q).value.content.source.kwonly[i].1.name;
    assert x in DefaultNames(Get(needed, q).value.content.source.kwonly);
    assert Mentions(needed, q, x);
    GlobalsAgree(needed, parts, q, x);
  }

  function MovedDefaults(needed: Dict<FunctionNode>, content: Blob): seq<(string, Default)> {
    content.source.kwonly + ValueDefaults(content.closureVars) + NameDefaults(needed, content.closureFuncRefs)
  }

  /** One default: the program's value for it is the original default or cell. */
  lemma DefaultIsCell(needed: Dict<FunctionNode>, parts: seq<Part>, q: string, i: nat)
    requires UniqueKeys(needed) && Program(needed) == Ok(parts) && DistinctTop(needed) && Exec(parts).Some?
    requires CapturesKnown(needed) && ScopeComplete(needed) && Standalone(needed, q)
    requires i < |MovedDefaults(needed, Get(needed, q).value.content)|
    ensures var content := Get(needed, q).value.content;
      var moved, original := MovedDefaults(needed, content), OriginalDefaults(Scope(needed, q), content.source.kwonly) + Cells(content);
      && |moved| == |original| && moved[i].0 == original[i].0
      && DefaultValue(Exec(parts).value.globals, moved[i].1) == Some(original[i].1)
  {
    var content := Get(needed, q).value.content;
    var own := content.source.kwonly;
    hide Program, Exec, Scope, TopName, TopValue, DistinctTop, ScopeComplete, FunctionNameFor, DefaultNames, OwnerOf;
    hide CapturesKnown, Standalone, UniqueKeys, Get;
    if i < |own| {
      if own[i].1.FunctionName? {
        OwnDefault(needed, parts, q, i);
      }
    } else if i >= |own| + |content.closureVars| {
      var r := content.closureFuncRefs[i - |own| - |content.closureVars|].1;
      CaptureIsKnown(needed, q, i - |own| - |content.closureVars|);
      CaptureName(needed, r);
      StandaloneIsNeeded(needed, r);
      GlobalOfNode(needed, parts, r);
    }
  }

  lemma CaptureIsKnown(needed: Dict<FunctionNode>, q: string, n: nat)
    requires CapturesKnown(needed) && Standalone(needed, q) && n < |Get(needed, q).value.content.closureFuncRefs|
    ensures Standalone(needed, Get(needed, q).value.content.closureFuncRefs[n].1)
  {
  }

  lemma StandaloneIsNeeded(needed: Dict<FunctionNode>, q: string)
    requires Standalone(needed, q)
    ensures Get(needed, q).Some?
  {
  }

  /** The defaults evaluated by the program are the original defaults and cells, in order. */
  lemma DefaultsAreCells(needed: Dict<FunctionNode>, parts: seq<Part>, q: string)
    requires UniqueKeys(needed) && Program(needed) == Ok(parts) && DistinctTop(needed) && Exec(parts).Some?
    requires CapturesKnown(needed) && ScopeComplete(needed) && Standalone(needed, q)
    ensures var content := Get(needed, q).value.content;
      EvalDefaults(Exec(parts).value.globals, DefOf(needed, q).source.kwonly)
      == Some(OriginalDefaults(Scope(needed, q), content.source.kwonly) + Cells(content))
  {
    var content := Get(needed, q).value.content;
    var moved := MovedDefaults(needed, content);
    var original := OriginalDefaults(Scope(needed, q), content.source.kwonly) + Cells(content);
    assert |moved| == |original|;
    assert DefOf(needed, q).source.kwonly == moved;
    hide *;
    forall i | 0 <= i < |moved|
      ensures moved[i].0 == original[i].0 && DefaultValue(Exec(parts).value.globals, moved[i].1) == Some(original[i].1)
    {
      DefaultIsCell(needed, parts, q, i);
    }
    DefaultsGive(Exec(parts).value.globals, moved, original);
  }

  // ---- The two worlds ----

  lemma {:induction false} OriginalWorldGet(needed: Dict<FunctionNode>, todo: Dict<FunctionNode>, q: string)
    requires UniqueKeys(todo)
    ensures Get(OriginalWorld(needed, todo), q)
         == if Get(todo, q).Some? && Get(todo, q).value.content.ownerClass.None?
            then Some(OriginalClosure(needed, Get(todo, q).value, q)) else None
  {
    hide OriginalClosure;
    if todo != [] {
      OriginalWorldGet(needed, todo[1..], q);
      GetSome(todo[1..], todo[0].0);
      var rest := OriginalWorld(needed, todo[1..]);
      if todo[0].1.content.ownerClass.None? {
        GetAppend([(todo[0].0, OriginalClosure(needed, todo[0].1, todo[0].0))], rest, q);
      } else {
        assert [] + rest == rest;
      }
    }
  }

  /** One function: its final object and its original closure agree. */
  lemma FunctionAgrees(needed: Dict<FunctionNode>, parts: seq<Part>, q: string)
    requires UniqueKeys(needed) && Program(needed) == Ok(parts) && DistinctTop(needed) && Exec(parts).Some?
    requires CapturesKnown(needed) && ScopeComplete(needed) && Standalone(needed, q)
    ensures var flat, world := Get(FlatWorld(Exec(parts).value), q), Get(OriginalWorld(needed, needed), q);
      flat.Some? && world.Some? && ClosuresAgree(flat.value, world.value)
  {
    var m := Exec(parts).value;
    PartsStable(needed, parts);
    PartsDefinedOnce(needed, parts);
    var i := PartOfNode(needed, parts, q);
    FunctionsFinished(parts, i);
    FlatWorldGet(m, q);
    OriginalWorldGet(needed, needed, q);
    DefaultsAreCells(needed, parts, q);
    var node := Get(needed, q).value;
    var own, cells := OriginalDefaults(Scope(needed, q), node.content.source.kwonly), Cells(node.content);
    var flat, world := Get(FlatWorld(m), q).value, Get(OriginalWorld(needed, needed), q).value;
    hide Program, Exec, EvalDefaults, Scope, OriginalWorld, FlatWorld, Names, OriginalDefaults, Cells, DistinctTop, ScopeComplete, CapturesKnown;
    forall x | x in Names(flat.body) && x !in flat.params
      ensures Outer(flat, x) == Outer(world, x)
    {
      GetAppend(own, cells, x);
      if Get(own + cells, x).None? {
        assert Mentions(needed, q, x);
        GlobalsAgree(needed, parts, q, x);
      }
    }
  }

  lemma WorldsMatch(needed: Dict<FunctionNode>, parts: seq<Part>)
    requires UniqueKeys(needed) && Program(needed) == Ok(parts) && DistinctTop(needed) && Exec(parts).Some?
    requires CapturesKnown(needed) && ScopeComplete(needed)
    ensures WorldsAgree(FlatWorld(Exec(parts).value), OriginalWorld(needed, needed))
  {
    var m := Exec(parts).value;
    hide ClosuresAgree, CapturesKnown, ScopeComplete, DistinctTop;
    forall q
      ensures var flat, world := Get(FlatWorld(m), q), Get(OriginalWorld(needed, needed), q);
        flat.Some? == world.Some? && (flat.Some? ==> ClosuresAgree(flat.value, world.value))
    {
      OriginalWorldGet(needed, needed, q);
      FlatWorldGet(m, q);
      if Get(m.functions, q).Some? {
        var i := FunctionsDefined(parts, q);
        var n := NodeOfPart(needed, parts, i);
        assert Standalone(needed, q);
      }
      if Standalone(needed, q) {
        FunctionAgrees(needed, parts, q);
      }
    }
  }

  /** A program that runs to its end leaves behind functions that give, for every argument list
      and every amount of fuel, the outcome they have with their original closures. */
  lemma FinishedProgramKeepsMeaning(needed: Dict<FunctionNode>, parts: seq<Part>, q: string, fuel: nat, args: seq<Val>)
    requires UniqueKeys(needed) && Program(needed) == Ok(parts) && Exec(parts).Some?
    requires DistinctTop(needed) && CapturesKnown(needed) && ScopeComplete(needed) && Standalone(needed, q)
    ensures RunFlat(Exec(parts).value, fuel, Get(needed, q).value.content.name, args) == RunOriginal(needed, fuel, q, args)
  {
    GlobalOfNode(needed, parts, q);
    WorldsMatch(needed, parts);
    ApplyAgrees(FlatWorld(Exec(parts).value), OriginalWorld(needed, needed), fuel, Fun(q), args);
  }

  // ---- When the program runs ----

  /** All captured functions are dependencies, or the function itself; own defaults name
      dependencies. */
  ghost predicate CapturesAreDependencies(needed: Dict<FunctionNode>) {
    forall q :: Standalone(needed, q) ==>
      var node := Get(needed, q).value;
      && (forall i :: 0 <= i < |node.content.closureFuncRefs| ==>
            node.content.closureFuncRefs[i].1 == q || node.content.closureFuncRefs[i].1 in node.dependencies)
      && (forall x :: x in DefaultNames(node.content.source.kwonly) ==>
            exists d :: d in node.dependencies && Get(needed, d).Some? && TopName(needed, d) == x)
  }

  ghost predicate CapturesItself(needed: Dict<FunctionNode>, q: string) {
    Standalone(needed, q) && exists i :: 0 <= i < |Get(needed, q).value.content.closureFuncRefs|
                                         && Get(needed, q).value.content.closureFuncRefs[i].1 == q
  }

  lemma {:induction false} DefaultNamesAppend(a: seq<(string, Default)>, b: seq<(string, Default)>)
    ensures DefaultNames(a + b) == DefaultNames(a) + DefaultNames(b)
  {
    forall i | 0 <= i < |a|
      ensures (a + b)[i] == a[i]
    {
    }
    forall i | 0 <= i < |b|
      ensures (a + b)[|a| + i] == b[i]
    {
    }
  }

  /** The names in a moved definition's defaults: its own, and those of what it captures. */
  lemma TransformedNames(needed: Dict<FunctionNode>, q: string, x: string)
    requires Standalone(needed, q) && CapturesKnown(needed)
    ensures var node := Get(needed, q).value;
      x in DefaultNames(DefOf(needed, q).source.kwonly)
      <==> x in DefaultNames(node.content.source.kwonly)
           || exists i :: 0 <= i < |node.content.closureFuncRefs| && TopName(needed, node.content.closureFuncRefs[i].1) == x
  {
    var content := Get(needed, q).value.content;
    var own, vars := content.source.kwonly, ValueDefaults(content.closureVars);
    var captured := NameDefaults(needed, content.closureFuncRefs);
    assert DefOf(needed, q).source.kwonly == own + vars + captured;
    DefaultNamesAppend(own + vars, captured);
    DefaultNamesAppend(own, vars);
    assert DefaultNames(vars) == {};
    forall i | 0 <= i < |captured|
      ensures captured[i].1 == FunctionName(TopName(needed, content.closureFuncRefs[i].1))
    {
      CaptureName(needed, content.closureFuncRefs[i].1);
    }
    hide TopName, OwnerOf, CapturesKnown;
    CapturedNames(captured, seq(|captured|, i requires 0 <= i < |captured| => TopName(needed, content.closureFuncRefs[i].1)), x);
  }

  lemma CapturedNames(captured: seq<(string, Default)>, names: seq<string>, x: string)
    requires |captured| == |names| && forall i :: 0 <= i < |captured| ==> captured[i].1 == FunctionName(names[i])
    ensures x in DefaultNames(captured) <==> exists i :: 0 <= i < |names| && names[i] == x
  {
  }

  /** All that the defaults of methods look up is defined in time. */
  ghost predicate MethodsInTime(needed: Dict<FunctionNode>)
    requires Order(needed).Some?
  {
    forall q, x :: OwnerOf(needed, q).Some? && x in LooksUp(needed, q) ==> InTime(needed, Order(needed).value, q, x)
  }

  /** A dependency is listed before a standalone function. */
  lemma DependencyInTime(needed: Dict<FunctionNode>, q: string, d: string)
    requires UniqueKeys(needed) && Order(needed).Some? && Standalone(needed, q)
    requires Get(needed, d).Some? && d in Get(needed, q).value.dependencies
    ensures InTime(needed, Order(needed).value, q, TopName(needed, d))
  {
    var order := Order(needed).value;
    OrderIsNeeded(needed);
    var k := PositionOf(order, q);
    DependenciesEarlier(needed, k, d);
    var i :| 0 <= i < k && order[i] == d;
    hide Order, TopName, Get;
    assert AheadOf(needed, order, i, q);
    assert ListedBefore(needed, order, d, q);
  }

  /** Nothing listed before a function goes by its name. */
  lemma OwnNameTooLate(needed: Dict<FunctionNode>, q: string)
    requires UniqueKeys(needed) && Order(needed).Some? && DistinctTop(needed) && Standalone(needed, q)
    ensures !InTime(needed, Order(needed).value, q, TopName(needed, q))
  {
    var order := Order(needed).value;
    OrderIsNeeded(needed);
    hide Order, TopName, UniqueKeys;
    forall d | ListedBefore(needed, order, d, q)
      ensures TopName(needed, d) != TopName(needed, q)
    {
      var i :| 0 <= i < |order| && order[i] == d && AheadOf(needed, order, i, q);
      var k := PositionOf(order, q);
      assert i < k && d != q && Get(needed, d).Some?;
      assert TopValue(needed, d) != TopValue(needed, q);
    }
  }

  /** The defaults of a standalone function are defined in time exactly when it does not
      capture itself: a default that names the function being defined is evaluated before that
      name exists. */
  lemma FunctionInTimeIff(needed: Dict<FunctionNode>, q: string)
    requires UniqueKeys(needed) && Order(needed).Some? && DistinctTop(needed)
    requires CapturesKnown(needed) && CapturesAreDependencies(needed) && Standalone(needed, q)
    ensures (forall x :: x in LooksUp(needed, q) ==> InTime(needed, Order(needed).value, q, x)) <==> !CapturesItself(needed, q)
  {
    var node := Get(needed, q).value;
    var refs := node.content.closureFuncRefs;
    hide Order, DefOf, DefaultNames, DistinctTop, TopName, InTime, UniqueKeys;
    if CapturesItself(needed, q) {
      TransformedNames(needed, q, TopName(needed, q));
      OwnNameTooLate(needed, q);
    } else {
      forall x | x in LooksUp(needed, q)
        ensures InTime(needed, Order(needed).value, q, x)
      {
        TransformedNames(needed, q, x);
        if x in DefaultNames(node.content.source.kwonly) {
          var d :| d in node.dependencies && Get(needed, d).Some? && TopName(needed, d) == x;
          DependencyInTime(needed, q, d);
        } else {
          var n :| 0 <= n < |refs| && TopName(needed, refs[n].1) == x;
          DependencyInTime(needed, q, refs[n].1);
        }
      }
    }
  }

  /** For captures that are dependencies the program runs exactly when no function captures
      itself and all that methods look up is defined in time. */
  lemma CapturedProgramRunsIff(needed: Dict<FunctionNode>, parts: seq<Part>)
    requires UniqueKeys(needed) && Program(needed) == Ok(parts) && DistinctTop(needed)
    requires CapturesKnown(needed) && CapturesAreDependencies(needed)
    ensures Exec(parts).Some? <==> (forall q :: !CapturesItself(needed, q)) && MethodsInTime(needed)
  {
    ProgramRunsIff(needed, parts);
    hide Program, Order, Exec, InTime, DistinctTop, UniqueKeys, LooksUp, CapturesKnown, CapturesAreDependencies;
    forall q | Standalone(needed, q)
      ensures (forall x :: x in LooksUp(needed, q) ==> InTime(needed, Order(needed).value, q, x)) <==> !CapturesItself(needed, q)
    {
      FunctionInTimeIff(needed, q);
    }
    forall q
      ensures CapturesItself(needed, q) ==> Standalone(needed, q)
      ensures OwnerOf(needed, q).Some? ==> Get(needed, q).Some?
    {
    }
  }

  /** The target run from the flat program gives, for every argument list and every amount of
      fuel, the outcome it has with its original closures; the program runs to its end. */
  lemma ReconstructionPreservesMeaning(needed: Dict<FunctionNode>, parts: seq<Part>, q: string, fuel: nat, args: seq<Val>)
    requires UniqueKeys(needed) && Program(needed) == Ok(parts)
    requires DistinctTop(needed) && CapturesKnown(needed) && CapturesAreDependencies(needed) && ScopeComplete(needed)
    requires (forall f :: !CapturesItself(needed, f)) && MethodsInTime(needed)
    requires Standalone(needed, q)
    ensures Exec(parts).Some?
    ensures RunFlat(Exec(parts).value, fuel, Get(needed, q).value.content.name, args) == RunOriginal(needed, fuel, q, args)
  {
    CapturedProgramRunsIff(needed, parts);
    FinishedProgramKeepsMeaning(needed, parts, q, fuel, args);
  }

  /** The same when the dependencies alone see to it that the program runs, in whatever order
      they are sorted. */
  lemma MeaningByDependencies(needed: Dict<FunctionNode>, parts: seq<Part>, q: string, fuel: nat, args: seq<Val>)
    requires UniqueKeys(needed) && Program(needed) == Ok(parts)
    requires DistinctTop(needed) && CapturesKnown(needed) && ScopeComplete(needed) && AlwaysInTime(needed)
    requires Standalone(needed, q)
    ensures Exec(parts).Some?
    ensures RunFlat(Exec(parts).value, fuel, Get(needed, q).value.content.name, args) == RunOriginal(needed, fuel, q, args)
  {
    RunsByDependencies(needed, parts);
    FinishedProgramKeepsMeaning(needed, parts, q, fuel, args);
  }

  /** The same for a whole store: whatever name its target was asked for by. */
  lemma StoredProgramKeepsMeaning(c: Contents, name: string, parts: seq<Part>, fuel: nat, args: seq<Val>)
    requires Collect(c, name).Ok? && Reconstruct(c, name) == Ok(parts)
    requires var needed := Collect(c, name).value.1;
      && DistinctTop(needed) && CapturesKnown(needed) && CapturesAreDependencies(needed) && ScopeComplete(needed)
      && (forall f :: !CapturesItself(needed, f)) && MethodsInTime(needed)
      && Standalone(needed, Collect(c, name).value.0)
    ensures Exec(parts).Some?
    ensures var (q, needed) := Collect(c, name).value;
      RunFlat(Exec(parts).value, fuel, Get(needed, q).value.content.name, args) == RunOriginal(needed, fuel, q, args)
  {
    var needed := Collect(c, name).value.1;
    CollectUnique(c, Walk(c.deps, Resolve(c, name).value), []);
    ReconstructionPreservesMeaning(needed, parts, Collect(c, name).value.0, fuel, args);
  }

  // ---- Programs that do not run, and one that does ----

  function NodeNamed(q: string, name: string, owner: Option<string>, captured: seq<(string, string)>, deps: seq<string>): FunctionNode {
    FunctionNode(q, Blob(name, "m", Source(["n"], [], Num(0)), owner, [], captured, []), deps)
  }

  lemma GetFirst(k: string, node: FunctionNode, rest: Dict<FunctionNode>)
    ensures forall x :: Get([(k, node)] + rest, x) == if x == k then Some(node) else Get(rest, x)
    ensures Keys([(k, node)] + rest) == [k] + Keys(rest)
    ensures (forall x :: Get<FunctionNode>([], x) == None) && Keys<FunctionNode>([]) == []
  {
    assert ([(k, node)] + rest)[1..] == rest;
  }

  lemma SingleOrder(n: string, g: Edges)
    requires Successors(g, n) == []
    ensures StaticOrder([n], g) == Some([n])
  {
    assert [n][1..] == [] && Mentioned([], [n], g) == [n];
    assert Roots([n], g) == [n];
    assert Released([n], g, [], n) == [];
    assert [n] + [] == [n] && [n][..0] == [];
    QueueStep([n], g, [n], 0);
    QueueStep([n], g, [n], 1);
    hide Queue, Released;
  }

  lemma QueueStep(names: seq<string>, g: Edges, order: seq<string>, i: nat)
    ensures Queue(names, g, order, i)
         == if i >= |order| || i >= |names| then order else Queue(names, g, order + Released(names, g, order[..i], order[i]), i + 1)
  {
  }

  /** One node that depends on two others is walked first, and sorted last; the others are sorted
      as it names them. */
  lemma OrderOfThree(n: string, u: string, v: string, g: Edges)
    requires n != u && n != v && u != v
    requires Successors(g, n) == [u, v] && Successors(g, u) == [] && Successors(g, v) == []
    ensures StaticOrder([n, v, u], g) == Some([u, v, n])
  {
    hide *;
    var names := [n, v, u];
    MentionThree(n, u, v, g);
    RootsOfThree(n, u, v, g);
    ReleasedOfThree(n, u, v, g);
    assert [u, v] + [] == [u, v] && [u, v] + [n] == [u, v, n] && [u, v, n] + [] == [u, v, n];
    assert [u, v][..0] == [] && [u, v][..1] == [u] && [u, v, n][..2] == [u, v];
    QueueStep(names, g, [u, v], 0);
    QueueStep(names, g, [u, v], 1);
    QueueStep(names, g, [u, v, n], 2);
    QueueStep(names, g, [u, v, n], 3);
    SortedBy(names, g, [u, v, n]);
  }

  lemma SortedBy(names: seq<string>, g: Edges, order: seq<string>)
    requires Queue(names, g, Roots(Mentioned([], names, g), g), 0) == order && |order| == |names|
    ensures StaticOrder(names, g) == Some(order)
  {
  }

  lemma OrderSorts(needed: Dict<FunctionNode>)
    ensures Order(needed) == StaticOrder(Keys(needed), NeededEdges(needed))
  {
  }

  lemma MentionThree(n: string, u: string, v: string, g: Edges)
    requires n != u && n != v && u != v
    requires Successors(g, n) == [u, v] && Successors(g, u) == [] && Successors(g, v) == []
    ensures Mentioned([], [n, v, u], g) == [n, u, v]
  {
    assert [n, v, u][1..] == [v, u] && [v, u][1..] == [u] && [u][1..] == [] && [u, v][1..] == [v] && [v][1..] == [];
    assert [] + [n] == [n] && [n] + [u] == [n, u] && [n, u] + [v] == [n, u, v];
    assert MentionAll([n, u], [v]) == [n, u, v];
    assert MentionAll([n], [u, v]) == [n, u, v];
    hide Successors;
    assert Mentioned([n, u, v], [u], g) == [n, u, v];
    assert Mentioned([n, u, v], [v, u], g) == [n, u, v];
  }

  lemma RootsOfThree(n: string, u: string, v: string, g: Edges)
    requires Successors(g, n) == [u, v] && Successors(g, u) == [] && Successors(g, v) == []
    ensures Roots([n, u, v], g) == [u, v]
  {
    assert [n, u, v][1..] == [u, v] && [u, v][1..] == [v] && [v][1..] == [];
    hide Successors;
    assert Roots([v], g) == [v];
    assert Roots([u, v], g) == [u] + [v];
    assert [] + [u, v] == [u, v];
  }

  lemma ReleasedOfThree(n: string, u: string, v: string, g: Edges)
    requires n != u && n != v && u != v
    requires Successors(g, n) == [u, v] && Successors(g, u) == [] && Successors(g, v) == []
    ensures Released([n, v, u], g, [], u) == []
    ensures Released([n, v, u], g, [u], v) == [n]
    ensures Released([n, v, u], g, [u, v], n) == []
  {
    assert [n, v, u][1..] == [v, u] && [v, u][1..] == [u] && [u][1..] == [];
    assert u in [u, v] && v in [u, v];
    assert !IsReleased(g, [], u, n) && IsReleased(g, [u], v, n) && !IsReleased(g, [u, v], n, n);
    assert forall done: seq<string>, m :: !IsReleased(g, done, m, u) && !IsReleased(g, done, m, v);
    hide IsReleased, Successors;
    assert forall done, m :: Released([u], g, done, m) == [] && Released([v, u], g, done, m) == [];
    assert [n] + [] == [n];
  }

  /** A nested recursive function captures itself and does not depend on itself. */
  function NestedRecursion(q: string): Dict<FunctionNode> {
    [(q, NodeNamed(q, "f", None, [("f", q)], []))]
  }

  lemma NestedRecursionOrder(q: string)
    ensures UniqueKeys(NestedRecursion(q)) && Order(NestedRecursion(q)) == Some([q])
    ensures Get(NestedRecursion(q), q) == Some(NodeNamed(q, "f", None, [("f", q)], []))
    ensures forall x :: Get(NestedRecursion(q), x).Some? ==> x == q
  {
    var node, needed := NodeNamed(q, "f", None, [("f", q)], []), NestedRecursion(q);
    GetFirst(q, node, []);
    assert needed == [(q, node)] + [] && [q] + [] == [q] && [] + [q] == [q];
    assert Keys(needed) == [q] && Successors(NeededEdges(needed), q) == [];
    SingleOrder(q, NeededEdges(needed));
  }

  lemma {:induction false} CapturedDefault(needed: Dict<FunctionNode>, q: string, n: nat)
    requires Get(needed, q).Some? && n < |Get(needed, q).value.content.closureFuncRefs|
    ensures FunctionNameFor(needed, Get(needed, q).value.content.closureFuncRefs[n].1) in DefaultNames(DefOf(needed, q).source.kwonly)
  {
    var content := Get(needed, q).value.content;
    var captured := NameDefaults(needed, content.closureFuncRefs);
    var front := content.source.kwonly + ValueDefaults(content.closureVars);
    assert DefOf(needed, q).source.kwonly == front + captured;
    DefaultNamesAppend(front, captured);
    assert captured[n].1 == FunctionName(FunctionNameFor(needed, content.closureFuncRefs[n].1));
  }

  lemma NestedRecursionFails(q: string)
    ensures Program(NestedRecursion(q)).Ok? && Exec(Program(NestedRecursion(q)).value).None?
  {
    var needed := NestedRecursion(q);
    NestedRecursionOrder(q);
    hide Order, Exec, UniqueKeys;
    ProgramRunsIff(needed, Program(needed).value);
    CapturedDefault(needed, q, 0);
    assert !ListedBefore(needed, [q], q, q);
    assert forall d :: ListedBefore(needed, [q], d, q) ==> d == q;
    assert OwnerOf(needed, q).None?;
    assert "f" in LooksUp(needed, q) && !InTime(needed, [q], q, "f");
  }

  // Method b of K uses method a and captures the function f. The walk from b lists what b
  // depends on last first.

  function MethodB(b: string, f: string, deps: seq<string>): FunctionNode { NodeNamed(b, "b", Some("K"), [("f", f)], deps) }

  function MethodA(a: string): FunctionNode { NodeNamed(a, "a", Some("K"), [], []) }

  function FunctionF(f: string): FunctionNode { NodeNamed(f, "f", None, [], []) }

  /** b names a before f. */
  function LateCapture(a: string, b: string, f: string): Dict<FunctionNode> {
    [(b, MethodB(b, f, [a, f]))] + ([(f, FunctionF(f))] + ([(a, MethodA(a))] + []))
  }

  /** b names f before a. */
  function EarlyCapture(a: string, b: string, f: string): Dict<FunctionNode> {
    [(b, MethodB(b, f, [f, a]))] + ([(a, MethodA(a))] + ([(f, FunctionF(f))] + []))
  }

  lemma ThreeNodes(n: string, v: string, u: string, x: FunctionNode, y: FunctionNode, z: FunctionNode)
    requires n != u && n != v && u != v
    requires x.dependencies == [u, v] && y.dependencies == [] && z.dependencies == []
    ensures var needed := [(n, x)] + ([(v, y)] + ([(u, z)] + []));
      && UniqueKeys(needed) && Order(needed) == Some([u, v, n])
      && Get(needed, n) == Some(x) && Get(needed, v) == Some(y) && Get(needed, u) == Some(z)
      && forall q :: Get(needed, q).Some? ==> q == n || q == v || q == u
  {
    hide *;
    var last := [(u, z)] + [];
    var rest := [(v, y)] + last;
    var needed := [(n, x)] + rest;
    GetFirst(u, z, []);
    GetFirst(v, y, last);
    GetFirst(n, x, rest);
    assert [n] + ([v] + ([u] + [])) == [n, v, u];
    KeysApart(needed, n, v, u);
    ThreeEdges(needed, n, v, u);
    OrderOfThree(n, u, v, NeededEdges(needed));
    OrderSorts(needed);
  }

  lemma KeysApart(needed: Dict<FunctionNode>, n: string, v: string, u: string)
    requires Keys(needed) == [n, v, u] && n != u && n != v && u != v
    ensures UniqueKeys(needed)
  {
    assert |needed| == |Keys(needed)| == 3;
    assert Keys(needed)[0] == needed[0].0 && Keys(needed)[1] == needed[1].0 && Keys(needed)[2] == needed[2].0;
  }

  lemma ThreeEdges(needed: Dict<FunctionNode>, n: string, v: string, u: string)
    requires n != u && n != v && u != v && Keys(needed) == [n, v, u]
    requires Get(needed, n).Some? && Get(needed, v).Some? && Get(needed, u).Some?
    requires Get(needed, n).value.dependencies == [u, v]
    requires Get(needed, v).value.dependencies == [] && Get(needed, u).value.dependencies == []
    ensures var g := NeededEdges(needed); Successors(g, n) == [u, v] && Successors(g, u) == [] && Successors(g, v) == []
  {
    var names := [n, v, u];
    hide Get, Keys;
    assert [u, v][1..] == [v] && [v][1..] == [] && names[0] == n && names[1] == v && names[2] == u;
    assert FilterIn([], names) == [];
    assert FilterIn([v], names) == [v];
    assert FilterIn([u, v], names) == [u, v];
    var g := NeededEdges(needed);
    assert n in names && v in names && u in names;
    assert g[n] == [u, v] && g[v] == [] && g[u] == [];
  }

  /** The order is a, f, b: the block of K stands where a is listed, so that the default of b
      names a function further down. */
  lemma LateCaptureFails(a: string, b: string, f: string)
    requires a != b && a != f && b != f
    ensures Program(LateCapture(a, b, f)).Ok? && Exec(Program(LateCapture(a, b, f)).value).None?
  {
    var needed, order := LateCapture(a, b, f), [a, f, b];
    ThreeNodes(b, f, a, MethodB(b, f, [a, f]), FunctionF(f), MethodA(a));
    hide LateCapture, Order, Exec, UniqueKeys, Get;
    ProgramRunsIff(needed, Program(needed).value);
    CapturedDefault(needed, b, 0);
    LateForB(needed, a, b, f);
    assert "f" in LooksUp(needed, b) && !InTime(needed, order, b, "f");
  }

  /** Nothing is listed before the class, and its other method is not called f. */
  lemma LateForB(needed: Dict<FunctionNode>, a: string, b: string, f: string)
    requires a != b && a != f && b != f
    requires Get(needed, a) == Some(MethodA(a)) && Get(needed, f) == Some(FunctionF(f))
    requires Get(needed, b) == Some(MethodB(b, f, [a, f]))
    ensures !InTime(needed, [a, f, b], b, "f")
  {
    var order := [a, f, b];
    assert order[0] == a && SameClass(needed, a, b) && !SameClass(needed, f, b);
    assert DefOf(needed, a).name == "a" && "a"[0] != "f"[0];
    hide Get, OwnerOf, SameClass, DefOf, TopName;
    assert forall d :: !ListedBefore(needed, order, d, b);
    assert forall m :: EarlierMember(needed, order, m, b) ==> m == a;
  }

  /** The order is f, a, b: the same class comes after the function, and the program runs. Which
      of the two it is depends on the order in which b names what it depends on. */
  lemma EarlyCaptureRuns(a: string, b: string, f: string)
    requires a != b && a != f && b != f
    ensures Program(EarlyCapture(a, b, f)).Ok? && Exec(Program(EarlyCapture(a, b, f)).value).Some?
  {
    var needed, order := EarlyCapture(a, b, f), [f, a, b];
    ThreeNodes(b, a, f, MethodB(b, f, [f, a]), MethodA(a), FunctionF(f));
    hide EarlyCapture, Order, Exec, UniqueKeys, Get;
    ProgramRunsIff(needed, Program(needed).value);
    InTimeForB(needed, a, b, f);
    assert LooksUp(needed, a) == {} && LooksUp(needed, f) == {};
    OnlyF(needed, b, f, [f, a]);
    hide LooksUp, InTime;
  }

  lemma InTimeForB(needed: Dict<FunctionNode>, a: string, b: string, f: string)
    requires a != b && a != f && b != f
    requires Get(needed, f) == Some(FunctionF(f)) && Get(needed, b) == Some(MethodB(b, f, [f, a]))
    ensures InTime(needed, [f, a, b], b, "f")
  {
    var order := [f, a, b];
    assert TopName(needed, f) == "f" && !SameClass(needed, f, b);
    hide TopName, Get, OwnerOf, SameClass;
    assert order[0] == f && AheadOf(needed, order, 0, b);
    assert ListedBefore(needed, order, f, b);
  }

  lemma OnlyF(needed: Dict<FunctionNode>, b: string, f: string, deps: seq<string>)
    requires Get(needed, b) == Some(MethodB(b, f, deps))
    requires Get(needed, f) == Some(FunctionF(f))
    ensures forall x :: x in LooksUp(needed, b) ==> x == "f"
  {
  }

  /** The store of that class: b names a before f, and holds f by its name. */
  function LateStore(a: string, b: string, f: string, ha: Hash, hb: Hash, hf: Hash): Contents {
    Contents(map[hb := MethodB(b, f, []).content, ha := MethodA(a).content, hf := FunctionF(f).content],
             map[hb := [ha, hf]], [(b, hb), (f, hf), (a, ha)])
  }

  lemma LateStoreNames(a: string, b: string, f: string, ha: Hash, hb: Hash, hf: Hash)
    requires a != b && a != f && b != f && ha != hb && ha != hf && hb != hf && f != ha && f != hb && f != hf
    ensures var refs := LateStore(a, b, f, ha, hb, hf).refs;
      && NameOf(refs, hb) == Some(b) && NameOf(refs, hf) == Some(f) && NameOf(refs, ha) == Some(a) && NameOf(refs, f) == None
      && Get(refs, b) == Some(hb)
  {
    var refs := LateStore(a, b, f, ha, hb, hf).refs;
    var two, one := [(b, hb), (f, hf)], [(b, hb)];
    assert refs[..2] == two && two[..1] == one && one[..0] == [];
    assert forall h :: NameOf(one, h) == if h == hb then Some(b) else None;
    assert forall h :: NameOf(two, h) == if h == hf then Some(f) else NameOf(one, h);
    assert forall h :: NameOf(refs, h) == if h == ha then Some(a) else NameOf(two, h);
  }

  lemma LateStoreCollects(a: string, b: string, f: string, ha: Hash, hb: Hash, hf: Hash)
    requires a != b && a != f && b != f && ha != hb && ha != hf && hb != hf && f != ha && f != hb && f != hf
    ensures Collect(LateStore(a, b, f, ha, hb, hf), b) == Ok((b, LateCapture(a, b, f)))
  {
    var c := LateStore(a, b, f, ha, hb, hf);
    LateStoreNames(a, b, f, ha, hb, hf);
    LateWalk(c.deps, ha, hb, hf);
    hide NameOf, Walk;
    assert NodeOf(c, hb, c.objects[hb]) == MethodB(b, f, [a, f]) by { LateNode(c, a, b, f, ha, hb, hf); }
    assert NamesOf(c.refs, []) == [] && ResolveRefs(c.refs, []) == [];
    assert NodeOf(c, hf, c.objects[hf]) == FunctionF(f) && NodeOf(c, ha, c.objects[ha]) == MethodA(a);
    hide NodeOf;
    CollectThree(c, [hb, hf, ha], [(b, MethodB(b, f, [a, f])), (f, FunctionF(f)), (a, MethodA(a))]);
    assert LateCapture(a, b, f) == [(b, MethodB(b, f, [a, f])), (f, FunctionF(f)), (a, MethodA(a))];
  }

  lemma LateWalk(g: Edges, ha: Hash, hb: Hash, hf: Hash)
    requires ha != hb && ha != hf && hb != hf && g == map[hb := [ha, hf]]
    ensures Walk(g, hb) == [hb, hf, ha]
  {
    WalkReversesLeaves(g, hb);
    hide Walk;
    assert [ha, hf][..1] == [ha] && [ha][..0] == [];
    assert Reversed([ha]) == [ha];
    assert Reversed([ha, hf]) == [hf] + [ha];
    assert [hb] + [hf, ha] == [hb, hf, ha];
  }

  lemma LateNode(c: Contents, a: string, b: string, f: string, ha: Hash, hb: Hash, hf: Hash)
    requires NameOf(c.refs, hb) == Some(b) && NameOf(c.refs, hf) == Some(f) && NameOf(c.refs, ha) == Some(a) && NameOf(c.refs, f) == None
    requires hb in c.objects && c.objects[hb] == MethodB(b, f, []).content && Successors(c.deps, hb) == [ha, hf]
    ensures NodeOf(c, hb, c.objects[hb]) == MethodB(b, f, [a, f])
  {
    hide NameOf, Successors;
    assert NamesOf(c.refs, [ha, hf]) == [a, f];
    assert ResolveRefs(c.refs, [("f", f)]) == [("f", f)];
  }

  lemma CollectThree(c: Contents, hashes: seq<Hash>, nodes: Dict<FunctionNode>)
    requires |hashes| == 3 && |nodes| == 3 && nodes[0].0 != nodes[1].0 && nodes[0].0 != nodes[2].0 && nodes[1].0 != nodes[2].0
    requires forall i :: 0 <= i < 3 ==>
      hashes[i] in c.objects && QualifiedName(c, hashes[i], c.objects[hashes[i]]) == nodes[i].0 && NodeOf(c, hashes[i], c.objects[hashes[i]]) == nodes[i].1
    ensures CollectFrom(c, hashes, []) == nodes
  {
    hide QualifiedName, NodeOf;
    var one, two := [nodes[0]], [nodes[0], nodes[1]];
    assert Put([], nodes[0].0, nodes[0].1) == one;
    PutNew(one, nodes[1].0, nodes[1].1);
    GetSome(two, nodes[2].0);
    assert forall i :: 0 <= i < |two| ==> two[i] == nodes[i];
    PutNew(two, nodes[2].0, nodes[2].1);
    assert one + [nodes[1]] == two && two + [nodes[2]] == nodes;
    assert hashes[1..][0] == hashes[1] && hashes[1..][1..] == [hashes[2]] && [hashes[2]][1..] == [];
    hide Put;
    assert CollectFrom(c, [hashes[2]], two) == nodes;
    assert CollectFrom(c, hashes[1..], one) == nodes;
  }

  /** Reconstructing b from that store gives a program that raises NameError. */
  lemma LateStoreFails(a: string, b: string, f: string, ha: Hash, hb: Hash, hf: Hash)
    requires a != b && a != f && b != f && ha != hb && ha != hf && hb != hf && f != ha && f != hb && f != hf
    ensures var program := Reconstruct(LateStore(a, b, f, ha, hb, hf), b); program.Ok? && Exec(program.value).None?
  {
    LateStoreCollects(a, b, f, ha, hb, hf);
    LateCaptureFails(a, b, f);
    hide Collect, LateCapture, LateStore, Program, Exec;
  }
}
