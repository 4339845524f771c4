/** Programs with the same text run alike, whatever their definitions are called by the store. */
module SameText {
  import opened Options
  import opened Dictionary
  import opened Nodes
  import opened StoreContents
  import opened Semantics
  import opened Scripts
  import opened Renaming

  /** No two parts define the same name. */
  ghost predicate DistinctNames(parts: seq<Part>) {
    forall i, j :: 0 <= i < j < |parts| ==> TopNameOf(parts[i]) != TopNameOf(parts[j])
  }

  /** Equal numbers, or what stands at the same position of the two programs. */
  ghost predicate Corresponds(ps: seq<Part>, ps': seq<Part>, v: Val, v': Val) {
    (v.Int? && v == v') || exists i :: AtPosition(ps, ps', v, v', i)
  }

  ghost predicate AtPosition(ps: seq<Part>, ps': seq<Part>, v: Val, v': Val, i: int) {
    0 <= i < |ps| && i < |ps'| && v == TopValueOf(ps[i]) && v' == TopValueOf(ps'[i])
  }

  ghost predicate AllCorrespond(ps: seq<Part>, ps': seq<Part>, vs: seq<Val>, vs': seq<Val>) {
    |vs| == |vs'| && forall i :: 0 <= i < |vs| ==> Corresponds(ps, ps', vs[i], vs'[i])
  }

  ghost predicate MaybeCorrespond(ps: seq<Part>, ps': seq<Part>, o: Option<Val>, o': Option<Val>) {
    o.Some? == o'.Some? && (o.Some? ==> Corresponds(ps, ps', o.value, o'.value))
  }

  /** The same outcome, up to what functions and classes are called by the store. */
  ghost predicate SameOutcome(ps: seq<Part>, ps': seq<Part>, o: Outcome, o': Outcome) {
    match o
    case Returned(v) => o'.Returned? && Corresponds(ps, ps', v, o'.v)
    case Instantiates(owner) => o'.Instantiates? && Corresponds(ps, ps', Class(owner), Class(o'.owner))
    case _ => o == o'
  }

  // ---- Closures ----

  ghost predicate SameClosure(ps: seq<Part>, ps': seq<Part>, c: Closure, c': Closure) {
    && c.params == c'.params && c.body == c'.body
    && forall x :: MaybeCorrespond(ps, ps', Outer(c, x), Outer(c', x))
  }

  ghost predicate SameWorld(ps: seq<Part>, ps': seq<Part>, w: Dict<Closure>, w': Dict<Closure>) {
    && ProgramText(ps) == ProgramText(ps')
    && forall i :: 0 <= i < |ps| && i < |ps'| && ps[i].FunctionPart? && ps'[i].FunctionPart? ==>
         var c, c' := Get(w, ps[i].def.qname), Get(w', ps'[i].def.qname);
         c.Some? && c'.Some? && SameClosure(ps, ps', c.value, c'.value)
  }

  ghost predicate SameLocals(ps: seq<Part>, ps': seq<Part>, locals: Dict<Val>, locals': Dict<Val>) {
    forall x :: MaybeCorrespond(ps, ps', Get(locals, x), Get(locals', x))
  }

  lemma SameKinds(ps: seq<Part>, ps': seq<Part>, v: Val, v': Val)
    requires ProgramText(ps) == ProgramText(ps') && Corresponds(ps, ps', v, v')
    ensures v.Int? == v'.Int? && v.Fun? == v'.Fun? && v.Class? == v'.Class?
    ensures v.Int? ==> v == v'
  {
    if i :| AtPosition(ps, ps', v, v', i) {
      assert ProgramText(ps)[i] == ProgramText(ps')[i];
    }
  }

  lemma {:induction false} EvalSame(ps: seq<Part>, ps': seq<Part>, w: Dict<Closure>, w': Dict<Closure>, fuel: nat,
                                    c: Closure, c': Closure, locals: Dict<Val>, locals': Dict<Val>, e: Expr)
    requires SameWorld(ps, ps', w, w') && SameClosure(ps, ps', c, c') && SameLocals(ps, ps', locals, locals')
    ensures SameOutcome(ps, ps', Eval(w, fuel, c, locals, e), Eval(w', fuel, c', locals', e))
    decreases fuel, e
  {
    hide SameWorld, SameClosure, SameLocals, Corresponds, Outer, Apply;
    match e
    case Num(_) =>
      assert Corresponds(ps, ps', Int(e.n), Int(e.n)) by { NumbersCorrespond(ps, ps', e.n); }
    case Name(x) =>
      LookupSame(ps, ps', c, c', locals, locals', x);
    case Sum(left, right) =>
      EvalSame(ps, ps', w, w', fuel, c, c', locals, locals', left);
      EvalSame(ps, ps', w, w', fuel, c, c', locals, locals', right);
      SumSame(ps, ps', w, w', Eval(w, fuel, c, locals, left), Eval(w', fuel, c', locals', left));
      SumSame(ps, ps', w, w', Eval(w, fuel, c, locals, right), Eval(w', fuel, c', locals', right));
    case If(cond, thn, els) =>
      EvalSame(ps, ps', w, w', fuel, c, c', locals, locals', cond);
      EvalSame(ps, ps', w, w', fuel, c, c', locals, locals', thn);
      EvalSame(ps, ps', w, w', fuel, c, c', locals, locals', els);
      SumSame(ps, ps', w, w', Eval(w, fuel, c, locals, cond), Eval(w', fuel, c', locals', cond));
    case Call(callee, args) =>
      EvalSame(ps, ps', w, w', fuel, c, c', locals, locals', callee);
      ArgsSame(ps, ps', w, w', fuel, c, c', locals, locals', args);
      var f, f' := Eval(w, fuel, c, locals, callee), Eval(w', fuel, c', locals', callee);
      var vs, vs' := EvalArgs(w, fuel, c, locals, args), EvalArgs(w', fuel, c', locals', args);
      if f.Returned? && vs.Values? && fuel > 0 {
        ApplySame(ps, ps', w, w', fuel - 1, f.v, f'.v, vs.vs, vs'.vs);
      }
  }

  lemma NumbersCorrespond(ps: seq<Part>, ps': seq<Part>, n: int)
    ensures forall k :: Corresponds(ps, ps', Int(k), Int(k))
  {
  }

  /** What two outcomes that are the same have to do with sums and conditions. */
  lemma SumSame(ps: seq<Part>, ps': seq<Part>, w: Dict<Closure>, w': Dict<Closure>, o: Outcome, o': Outcome)
    requires SameWorld(ps, ps', w, w') && SameOutcome(ps, ps', o, o')
    ensures o.Returned? == o'.Returned?
    ensures o.Returned? ==> o.v.Int? == o'.v.Int? && (o.v.Int? ==> o.v == o'.v) && Truth(o.v) == Truth(o'.v)
    ensures forall n :: Corresponds(ps, ps', Int(n), Int(n))
  {
    hide Corresponds;
    NumbersCorrespond(ps, ps', 0);
    if o.Returned? {
      SameKinds(ps, ps', o.v, o'.v);
    }
  }

  lemma LookupSame(ps: seq<Part>, ps': seq<Part>, c: Closure, c': Closure, locals: Dict<Val>, locals': Dict<Val>, x: string)
    requires SameClosure(ps, ps', c, c') && SameLocals(ps, ps', locals, locals')
    ensures SameOutcome(ps, ps', Lookup(c, locals, x), Lookup(c', locals', x))
  {
    hide Corresponds, Outer, Get;
    assert MaybeCorrespond(ps, ps', Get(locals, x), Get(locals', x));
    assert MaybeCorrespond(ps, ps', Outer(c, x), Outer(c', x));
  }

  ghost predicate SameArgs(ps: seq<Part>, ps': seq<Part>, a: Args, a': Args) {
    match a
    case Values(vs) => a'.Values? && AllCorrespond(ps, ps', vs, a'.vs)
    case Stopped(o) => a'.Stopped? && !o.Returned? && SameOutcome(ps, ps', o, a'.o)
  }

  lemma {:induction false} ArgsSame(ps: seq<Part>, ps': seq<Part>, w: Dict<Closure>, w': Dict<Closure>, fuel: nat,
                                    c: Closure, c': Closure, locals: Dict<Val>, locals': Dict<Val>, args: Exprs)
    requires SameWorld(ps, ps', w, w') && SameClosure(ps, ps', c, c') && SameLocals(ps, ps', locals, locals')
    ensures SameArgs(ps, ps', EvalArgs(w, fuel, c, locals, args), EvalArgs(w', fuel, c', locals', args))
    decreases fuel, args
  {
    hide SameWorld, SameClosure, SameLocals, Corresponds, Eval;
    if args.Arg? {
      EvalSame(ps, ps', w, w', fuel, c, c', locals, locals', args.first);
      ArgsSame(ps, ps', w, w', fuel, c, c', locals, locals', args.rest);
    }
  }

  lemma BindSame(ps: seq<Part>, ps': seq<Part>, params: seq<string>, vs: seq<Val>, vs': seq<Val>)
    requires AllCorrespond(ps, ps', vs, vs') && |params| == |vs|
    ensures SameLocals(ps, ps', Bind(params, vs), Bind(params, vs'))
  {
    hide Corresponds;
    forall x
      ensures MaybeCorrespond(ps, ps', Get(Bind(params, vs), x), Get(Bind(params, vs'), x))
    {
      BindSameAt(ps, ps', params, vs, vs', x);
    }
  }

  lemma {:induction false} BindSameAt(ps: seq<Part>, ps': seq<Part>, params: seq<string>, vs: seq<Val>, vs': seq<Val>, x: string)
    requires AllCorrespond(ps, ps', vs, vs') && |params| == |vs|
    ensures MaybeCorrespond(ps, ps', Get(Bind(params, vs), x), Get(Bind(params, vs'), x))
    decreases |params|
  {
    hide Corresponds;
    if params != [] {
      assert Bind(params, vs)[1..] == Bind(params[1..], vs[1..]);
      assert Bind(params, vs')[1..] == Bind(params[1..], vs'[1..]);
      BindSameAt(ps, ps', params[1..], vs[1..], vs'[1..], x);
    }
  }

  lemma {:induction false} ApplySame(ps: seq<Part>, ps': seq<Part>, w: Dict<Closure>, w': Dict<Closure>, fuel: nat,
                                     f: Val, f': Val, vs: seq<Val>, vs': seq<Val>)
    requires SameWorld(ps, ps', w, w') && Corresponds(ps, ps', f, f') && AllCorrespond(ps, ps', vs, vs')
    ensures SameOutcome(ps, ps', Apply(w, fuel, f, vs), Apply(w', fuel, f', vs'))
    decreases fuel
  {
    SameKinds(ps, ps', f, f');
    if f.Fun? {
      var i :| AtPosition(ps, ps', f, f', i);
      assert ProgramText(ps)[i] == ProgramText(ps')[i];
      var c, c' := Get(w, f.qname).value, Get(w', f'.qname).value;
      assert SameClosure(ps, ps', c, c');
      hide SameWorld, SameClosure, Corresponds, AtPosition, Get;
      if |c.params| == |vs| {
        BindSame(ps, ps', c.params, vs, vs');
        EvalSame(ps, ps', w, w', fuel, c, c', Bind(c.params, vs), Bind(c'.params, vs'), c.body);
      }
    }
  }

  // ---- Finished programs ----

  lemma DistinctIsStable(parts: seq<Part>)
    requires DistinctNames(parts)
    ensures Stable(parts)
  {
    forall i, j | 0 <= i < |parts| && 0 <= j < |parts| && TopNameOf(parts[i]) == TopNameOf(parts[j])
      ensures i == j
    {
    }
  }

  lemma SameNames(ps: seq<Part>, ps': seq<Part>)
    requires ProgramText(ps) == ProgramText(ps')
    ensures |ps| == |ps'|
    ensures forall i :: 0 <= i < |ps| ==> TopNameOf(ps[i]) == TopNameOf(ps'[i]) && ps[i].FunctionPart? == ps'[i].FunctionPart?
    ensures DistinctNames(ps) ==> DistinctNames(ps')
  {
    assert |ProgramText(ps)| == |ps| && |ProgramText(ps')| == |ps'|;
    forall i | 0 <= i < |ps|
      ensures TopNameOf(ps[i]) == TopNameOf(ps'[i]) && ps[i].FunctionPart? == ps'[i].FunctionPart?
    {
      assert ProgramText(ps)[i] == ProgramText(ps')[i];
    }
  }

  lemma GlobalsSame(ps: seq<Part>, ps': seq<Part>, x: string)
    requires ProgramText(ps) == ProgramText(ps') && DistinctNames(ps) && Exec(ps).Some? && Exec(ps').Some?
    ensures MaybeCorrespond(ps, ps', Get(Exec(ps).value.globals, x), Get(Exec(ps').value.globals, x))
  {
    SameNames(ps, ps');
    DistinctIsStable(ps);
    DistinctIsStable(ps');
    ExecGlobals(ps, x);
    ExecGlobals(ps', x);
    TopIsDefined(ps, x);
    TopIsDefined(ps', x);
    hide Exec, DistinctNames, ProgramText;
    if Top(ps, x).Some? {
      var i :| 0 <= i < |ps| && TopNameOf(ps[i]) == x && Top(ps, x) == Some(TopValueOf(ps[i]));
      TopStable(ps', i);
      assert AtPosition(ps, ps', TopValueOf(ps[i]), TopValueOf(ps'[i]), i);
    }
  }

  ghost predicate SameDict(ps: seq<Part>, ps': seq<Part>, d: Dict<Val>, d': Dict<Val>) {
    |d| == |d'| && forall i :: 0 <= i < |d| ==> d[i].0 == d'[i].0 && Corresponds(ps, ps', d[i].1, d'[i].1)
  }

  lemma {:induction false} DefaultsSame(ps: seq<Part>, ps': seq<Part>, globals: Dict<Val>, globals': Dict<Val>, kwonly: seq<(string, Default)>)
    requires forall x :: MaybeCorrespond(ps, ps', Get(globals, x), Get(globals', x))
    requires EvalDefaults(globals, kwonly).Some? && EvalDefaults(globals', kwonly).Some?
    ensures SameDict(ps, ps', EvalDefaults(globals, kwonly).value, EvalDefaults(globals', kwonly).value)
  {
    hide Corresponds, Get;
    NumbersCorrespond(ps, ps', 0);
    if kwonly != [] {
      DefaultsSame(ps, ps', globals, globals', kwonly[1..]);
      if kwonly[0].1.FunctionName? {
        assert MaybeCorrespond(ps, ps', Get(globals, kwonly[0].1.name), Get(globals', kwonly[0].1.name));
      }
    }
  }

  lemma {:induction false} SameDictGet(ps: seq<Part>, ps': seq<Part>, d: Dict<Val>, d': Dict<Val>, x: string)
    requires SameDict(ps, ps', d, d')
    ensures MaybeCorrespond(ps, ps', Get(d, x), Get(d', x))
    decreases |d|
  {
    hide Corresponds;
    if d != [] {
      SameDictGet(ps, ps', d[1..], d'[1..], x);
    }
  }

  lemma FunctionSame(ps: seq<Part>, ps': seq<Part>, i: nat)
    requires ProgramText(ps) == ProgramText(ps') && DistinctNames(ps) && DefinedOnce(ps) && DefinedOnce(ps')
    requires Exec(ps).Some? && Exec(ps').Some?
    requires i < |ps| && i < |ps'| && ps[i].FunctionPart? && ps'[i].FunctionPart?
    ensures var c, c' := Get(FlatWorld(Exec(ps).value), ps[i].def.qname), Get(FlatWorld(Exec(ps').value), ps'[i].def.qname);
      c.Some? && c'.Some? && SameClosure(ps, ps', c.value, c'.value)
  {
    var m, m' := Exec(ps).value, Exec(ps').value;
    SameNames(ps, ps');
    DistinctIsStable(ps);
    DistinctIsStable(ps');
    FunctionsFinished(ps, i);
    FunctionsFinished(ps', i);
    FlatWorldGet(m, ps[i].def.qname);
    FlatWorldGet(m', ps'[i].def.qname);
    assert ProgramText(ps)[i] == ProgramText(ps')[i];
    var kwonly := ps[i].def.source.kwonly;
    hide Exec, FlatWorld, Corresponds, EvalDefaults, DistinctNames, DefinedOnce, Stable, ProgramText;
    forall x
      ensures MaybeCorrespond(ps, ps', Get(m.globals, x), Get(m'.globals, x))
    {
      GlobalsSame(ps, ps', x);
    }
    DefaultsSame(ps, ps', m.globals, m'.globals, kwonly);
    var c, c' := Get(FlatWorld(m), ps[i].def.qname).value, Get(FlatWorld(m'), ps'[i].def.qname).value;
    forall x
      ensures MaybeCorrespond(ps, ps', Outer(c, x), Outer(c', x))
    {
      SameDictGet(ps, ps', c.kwonly, c'.kwonly, x);
      assert Get(c.cells, x) == Get(c'.cells, x) == None;
    }
  }

  /** Equal texts are equal programs: under the same name they give the same outcome for every
      amount of fuel and all arguments that are numbers, or what stands at the same position. */
  lemma SameTextRunsAlike(ps: seq<Part>, ps': seq<Part>, name: string, fuel: nat, vs: seq<Val>, vs': seq<Val>)
    requires ProgramText(ps) == ProgramText(ps') && DistinctNames(ps) && DefinedOnce(ps) && DefinedOnce(ps')
    requires Exec(ps).Some? && Exec(ps').Some? && AllCorrespond(ps, ps', vs, vs')
    ensures SameOutcome(ps, ps', RunFlat(Exec(ps).value, fuel, name, vs), RunFlat(Exec(ps').value, fuel, name, vs'))
  {
    var m, m' := Exec(ps).value, Exec(ps').value;
    hide Exec, FlatWorld, Corresponds, Get, SameClosure, AllCorrespond;
    forall i | 0 <= i < |ps| && i < |ps'| && ps[i].FunctionPart? && ps'[i].FunctionPart?
      ensures var c, c' := Get(FlatWorld(m), ps[i].def.qname), Get(FlatWorld(m'), ps'[i].def.qname);
        c.Some? && c'.Some? && SameClosure(ps, ps', c.value, c'.value)
    {
      FunctionSame(ps, ps', i);
    }
    assert SameWorld(ps, ps', FlatWorld(m), FlatWorld(m'));
    GlobalsSame(ps, ps', name);
    var f, f' := Get(m.globals, name), Get(m'.globals, name);
    if f.Some? {
      ApplySame(ps, ps', FlatWorld(m), FlatWorld(m'), fuel, f.value, f'.value, vs, vs');
    }
  }
}
