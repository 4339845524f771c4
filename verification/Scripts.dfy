/** Executing a flat program: when it runs to the end, and what it leaves behind. */
module Scripts {
  import opened Options
  import opened Dictionary
  import opened Nodes
  import opened StoreContents
  import opened Semantics

  function TopNameOf(part: Part): string {
    match part
    case FunctionPart(d) => d.name
    case ClassPart(owner, _) => LastSegment(owner)
  }

  function TopValueOf(part: Part): Val {
    match part
    case FunctionPart(d) => Fun(d.qname)
    case ClassPart(owner, _) => Class(owner)
  }

  /** What a name stands for after a program: its last definition. */
  function Top(parts: seq<Part>, x: string): Option<Val> {
    if parts == [] then None
    else if TopNameOf(parts[|parts| - 1]) == x then Some(TopValueOf(parts[|parts| - 1]))
    else Top(parts[..|parts| - 1], x)
  }

  /** No name is defined twice with different meanings. */
  ghost predicate Stable(parts: seq<Part>) {
    forall i, j :: 0 <= i < |parts| && 0 <= j < |parts| && TopNameOf(parts[i]) == TopNameOf(parts[j]) ==>
      TopValueOf(parts[i]) == TopValueOf(parts[j])
  }

  lemma {:induction false} ExecGlobals(parts: seq<Part>, x: string)
    requires Exec(parts).Some?
    ensures Get(Exec(parts).value.globals, x) == Top(parts, x)
  {
    if parts != [] {
      var k := |parts| - 1;
      var m := Exec(parts[..k]).value;
      ExecGlobals(parts[..k], x);
      GetPut(m.globals, TopNameOf(parts[k]), TopValueOf(parts[k]), x);
    }
  }

  lemma {:induction false} TopIsDefined(parts: seq<Part>, x: string)
    ensures Top(parts, x).Some? <==> exists i :: 0 <= i < |parts| && TopNameOf(parts[i]) == x
    ensures Top(parts, x).Some? ==> exists i :: 0 <= i < |parts| && TopNameOf(parts[i]) == x && Top(parts, x) == Some(TopValueOf(parts[i]))
  {
    if parts != [] {
      var k := |parts| - 1;
      TopIsDefined(parts[..k], x);
      if TopNameOf(parts[k]) != x {
        if i :| 0 <= i < |parts| && TopNameOf(parts[i]) == x {
          assert parts[..k][i] == parts[i];
        }
        if Top(parts, x).Some? {
          var i :| 0 <= i < k && TopNameOf(parts[..k][i]) == x && Top(parts, x) == Some(TopValueOf(parts[..k][i]));
          assert parts[i] == parts[..k][i];
        }
      }
    }
  }

  lemma TopStable(parts: seq<Part>, i: nat)
    requires Stable(parts) && i < |parts|
    ensures Top(parts, TopNameOf(parts[i])) == Some(TopValueOf(parts[i]))
  {
    TopIsDefined(parts, TopNameOf(parts[i]));
  }

  // ---- When a program runs ----

  lemma {:induction false} DefaultsRun(globals: Dict<Val>, kwonly: seq<(string, Default)>)
    ensures EvalDefaults(globals, kwonly).Some? <==> forall x :: x in DefaultNames(kwonly) ==> Get(globals, x).Some?
  {
    if kwonly != [] {
      DefaultsRun(globals, kwonly[1..]);
      DefaultNamesStep(kwonly);
    }
  }

  lemma DefaultNamesStep(kwonly: seq<(string, Default)>)
    requires kwonly != []
    ensures DefaultNames(kwonly) == (if kwonly[0].1.FunctionName? then {kwonly[0].1.name} else {}) + DefaultNames(kwonly[1..])
  {
    var rest := kwonly[1..];
    forall x | x in DefaultNames(kwonly)
      ensures x in (if kwonly[0].1.FunctionName? then {kwonly[0].1.name} else {}) + DefaultNames(rest)
    {
      var i :| 0 <= i < |kwonly| && kwonly[i].1.FunctionName? && kwonly[i].1.name == x;
      if i > 0 {
        assert rest[i - 1] == kwonly[i];
      }
    }
    forall x | x in DefaultNames(rest)
      ensures x in DefaultNames(kwonly)
    {
      var i :| 0 <= i < |rest| && rest[i].1.FunctionName? && rest[i].1.name == x;
      assert kwonly[i + 1] == rest[i];
    }
  }

  /** A name is defined by one of the parts. */
  ghost predicate DefinedIn(parts: seq<Part>, x: string) {
    exists i :: 0 <= i < |parts| && TopNameOf(parts[i]) == x
  }

  ghost predicate EarlierMethod(methods: seq<Def>, k: nat, x: string)
    requires k <= |methods|
  {
    exists j :: 0 <= j < k && methods[j].name == x
  }

  /** All defaults of a part name definitions further up: earlier parts, or for a method also
      earlier methods of its own class block. */
  ghost predicate DefaultsAbove(before: seq<Part>, part: Part) {
    match part
    case FunctionPart(d) => forall x :: x in DefaultNames(d.source.kwonly) ==> DefinedIn(before, x)
    case ClassPart(_, methods) =>
      forall k, x :: 0 <= k < |methods| && x in DefaultNames(methods[k].source.kwonly) ==>
        DefinedIn(before, x) || EarlierMethod(methods, k, x)
  }

  ghost function NamesAbove(methods: seq<Def>, k: nat): (r: set<string>)
    requires k <= |methods|
    ensures forall x :: x in r <==> EarlierMethod(methods, k, x)
  {
    set d | d in methods[..k] :: d.name
  }

  /** All default names of the methods from k on are defined. */
  ghost predicate DefaultsDefined(globals: Dict<Val>, methods: seq<Def>, k: nat) {
    forall n, x :: k <= n < |methods| && x in DefaultNames(methods[n].source.kwonly) ==>
      Get(globals, x).Some? || EarlierMethod(methods, n, x)
  }

  lemma {:induction false} MethodsRunIff(globals: Dict<Val>, methods: seq<Def>, k: nat)
    requires k <= |methods|
    ensures MethodsRun(globals, NamesAbove(methods, k), methods[k..]) <==> DefaultsDefined(globals, methods, k)
    decreases |methods| - k
  {
    hide EarlierMethod, DefaultNames, Get;
    if k == |methods| {
      assert methods[k..] == [];
    } else {
      assert methods[k..][1..] == methods[k + 1..] && methods[k..][0] == methods[k];
      NextAbove(methods, k);
      MethodsRunIff(globals, methods, k + 1);
    }
  }

  lemma NextAbove(methods: seq<Def>, k: nat)
    requires k < |methods|
    ensures NamesAbove(methods, k + 1) == NamesAbove(methods, k) + {methods[k].name}
  {
    assert methods[..k + 1] == methods[..k] + [methods[k]];
  }

  lemma PartRunsIff(before: seq<Part>, part: Part)
    requires Exec(before).Some?
    ensures ExecPart(Exec(before).value, part).Some? <==> DefaultsAbove(before, part)
  {
    var m := Exec(before).value;
    forall x
      ensures Get(m.globals, x).Some? <==> DefinedIn(before, x)
    {
      ExecGlobals(before, x);
      TopIsDefined(before, x);
    }
    match part
    case FunctionPart(d) =>
      DefaultsRun(m.globals, d.source.kwonly);
    case ClassPart(_, methods) =>
      MethodsRunIff(m.globals, methods, 0);
      assert methods[0..] == methods && NamesAbove(methods, 0) == {};
  }

  /** A program runs without NameError exactly when every default is defined further up. */
  lemma {:induction false} RunsIff(parts: seq<Part>)
    ensures Exec(parts).Some? <==> forall i :: 0 <= i < |parts| ==> DefaultsAbove(parts[..i], parts[i])
  {
    if parts != [] {
      var k := |parts| - 1;
      var before := parts[..k];
      RunsIff(before);
      forall i | 0 <= i < k
        ensures DefaultsAbove(before[..i], before[i]) == DefaultsAbove(parts[..i], parts[i])
      {
        assert before[..i] == parts[..i] && before[i] == parts[i];
      }
      if Exec(before).Some? {
        PartRunsIff(before, parts[k]);
      }
    }
  }

  // ---- The functions a program leaves behind ----

  lemma {:induction false} DefaultsKept(globals: Dict<Val>, globals': Dict<Val>, kwonly: seq<(string, Default)>)
    requires EvalDefaults(globals, kwonly).Some?
    requires forall x :: Get(globals, x).Some? ==> Get(globals', x) == Get(globals, x)
    ensures EvalDefaults(globals', kwonly) == EvalDefaults(globals, kwonly)
  {
    if kwonly != [] {
      DefaultsKept(globals, globals', kwonly[1..]);
    }
  }

  /** No function is defined twice. */
  ghost predicate DefinedOnce(parts: seq<Part>) {
    forall i, j :: 0 <= i < j < |parts| && parts[i].FunctionPart? && parts[j].FunctionPart? ==>
      parts[i].def.qname != parts[j].def.qname
  }

  /** The final function object of a definition: its defaults mean what they mean at the end. */
  ghost predicate Finished(m: Module, d: Def) {
    && EvalDefaults(m.globals, d.source.kwonly).Some?
    && Get(m.functions, d.qname)
       == Some(FunObj(d.source.params, EvalDefaults(m.globals, d.source.kwonly).value, d.source.body))
  }

  lemma StepKeepsGlobals(parts: seq<Part>, x: string)
    requires parts != [] && Stable(parts) && Exec(parts).Some?
    requires Get(Exec(parts[..|parts| - 1]).value.globals, x).Some?
    ensures Get(Exec(parts).value.globals, x) == Get(Exec(parts[..|parts| - 1]).value.globals, x)
  {
    var before := parts[..|parts| - 1];
    ExecGlobals(before, x);
    ExecGlobals(parts, x);
    TopIsDefined(before, x);
    var i :| 0 <= i < |before| && TopNameOf(before[i]) == x && Top(before, x) == Some(TopValueOf(before[i]));
    assert parts[i] == before[i];
    TopStable(parts, i);
  }

  lemma {:induction false} FunctionsFinished(parts: seq<Part>, i: nat)
    requires Stable(parts) && DefinedOnce(parts) && Exec(parts).Some?
    requires i < |parts| && parts[i].FunctionPart?
    ensures Finished(Exec(parts).value, parts[i].def)
    decreases |parts|
  {
    var k := |parts| - 1;
    var before := parts[..k];
    var m, m' := Exec(before).value, Exec(parts).value;
    var d := parts[i].def;
    forall x | Get(m.globals, x).Some?
      ensures Get(m'.globals, x) == Get(m.globals, x)
    {
      StepKeepsGlobals(parts, x);
    }
    if i == k {
      DefaultsKept(m.globals, m'.globals, d.source.kwonly);
      GetPut(m.functions, d.qname, FunObj(d.source.params, EvalDefaults(m.globals, d.source.kwonly).value, d.source.body), d.qname);
    } else {
      assert before[i] == parts[i];
      FunctionsFinished(before, i);
      DefaultsKept(m.globals, m'.globals, d.source.kwonly);
      if parts[k].FunctionPart? {
        var e := parts[k].def;
        assert e.qname != d.qname;
        GetPut(m.functions, e.qname, FunObj(e.source.params, EvalDefaults(m.globals, e.source.kwonly).value, e.source.body), d.qname);
      }
    }
  }

  /** Every function object comes from a definition. */
  lemma {:induction false} FunctionsDefined(parts: seq<Part>, q: string) returns (i: nat)
    requires Exec(parts).Some? && Get(Exec(parts).value.functions, q).Some?
    ensures i < |parts| && parts[i].FunctionPart? && parts[i].def.qname == q
    decreases |parts|
  {
    var k := |parts| - 1;
    var before := parts[..k];
    var m := Exec(before).value;
    if parts[k].FunctionPart? {
      var e := parts[k].def;
      if e.qname == q {
        return k;
      }
      GetPut(m.functions, e.qname, FunObj(e.source.params, EvalDefaults(m.globals, e.source.kwonly).value, e.source.body), q);
    }
    i := FunctionsDefined(before, q);
  }

  lemma {:induction false} FlatWorldGet(m: Module, q: string)
    ensures Get(FlatWorld(m), q)
         == match Get(m.functions, q)
            case None => None
            case Some(f) => Some(Closure(f.params, f.kwonly, [], m.globals, f.body))
    decreases |m.functions|
  {
    if m.functions != [] {
      var m' := m.(functions := m.functions[1..]);
      FlatWorldGet(m', q);
      assert FlatWorld(m)[1..] == FlatWorld(m');
    }
  }
}
