/** Running functions: an evaluator for function bodies, the original closures of the needed
    nodes, and the execution of a reconstructed program. */
module Semantics {
  import opened Options
  import opened Dictionary
  import opened Nodes
  import opened StoreContents

  /** A function object is identified by the definition that created it. */
  datatype Val = Int(n: int) | Fun(qname: string) | Class(owner: string)

  datatype Outcome = Returned(v: Val) | NameError(name: string) | TypeError | Instantiates(owner: string) | OutOfFuel

  /** A function with the values its names stand for: keyword-only defaults, captured cells,
      module globals. */
  datatype Closure = Closure(params: seq<string>, kwonly: Dict<Val>, cells: Dict<Val>, globals: Dict<Val>, body: Expr)

  function OrElse<V>(a: Option<V>, b: Option<V>): Option<V> {
    if a.Some? then a else b
  }

  /** What a name stands for when it is not a positional parameter. */
  function Outer(c: Closure, x: string): Option<Val> {
    OrElse(Get(c.kwonly, x), OrElse(Get(c.cells, x), Get(c.globals, x)))
  }

  function Bind(params: seq<string>, args: seq<Val>): Dict<Val>
    requires |params| == |args|
  {
    seq(|params|, i requires 0 <= i < |params| => (params[i], args[i]))
  }

  function Lookup(c: Closure, locals: Dict<Val>, x: string): Outcome {
    var found := OrElse(Get(locals, x), Outer(c, x));
    if found.Some? then Returned(found.value) else NameError(x)
  }

  predicate Truth(v: Val) {
    v.Int? ==> v.n != 0
  }

  datatype Args = Values(vs: seq<Val>) | Stopped(o: Outcome)

  /** Evaluates an expression in the body of a closure; every call uses one unit of fuel. */
  function Eval(w: Dict<Closure>, fuel: nat, c: Closure, locals: Dict<Val>, e: Expr): Outcome
    decreases fuel, e
  {
    match e
    case Num(n) => Returned(Int(n))
    case Name(x) => Lookup(c, locals, x)
    case Sum(left, right) =>
      var a := Eval(w, fuel, c, locals, left);
      if !a.Returned? then a else
      var b := Eval(w, fuel, c, locals, right);
      if !b.Returned? then b
      else if a.v.Int? && b.v.Int? then Returned(Int(a.v.n + b.v.n)) else TypeError
    case If(cond, thn, els) =>
      var a := Eval(w, fuel, c, locals, cond);
      if !a.Returned? then a
      else if Truth(a.v) then Eval(w, fuel, c, locals, thn) else Eval(w, fuel, c, locals, els)
    case Call(callee, args) =>
      var f := Eval(w, fuel, c, locals, callee);
      if !f.Returned? then f else
      var vs := EvalArgs(w, fuel, c, locals, args);
      if vs.Stopped? then vs.o
      else if fuel == 0 then OutOfFuel else Apply(w, fuel - 1, f.v, vs.vs)
  }

  function EvalArgs(w: Dict<Closure>, fuel: nat, c: Closure, locals: Dict<Val>, args: Exprs): Args
    decreases fuel, args
  {
    match args
    case NoArgs => Values([])
    case Arg(first, rest) =>
      var v := Eval(w, fuel, c, locals, first);
      if !v.Returned? then Stopped(v) else
      var vs := EvalArgs(w, fuel, c, locals, rest);
      if vs.Stopped? then vs else Values([v.v] + vs.vs)
  }

  /** Calls a value with positional arguments. */
  function Apply(w: Dict<Closure>, fuel: nat, f: Val, vs: seq<Val>): Outcome
    decreases fuel
  {
    match f
    case Int(_) => TypeError
    case Class(owner) => Instantiates(owner)
    case Fun(q) =>
      var c := Get(w, q);
      if c.None? || |c.value.params| != |vs| then TypeError
      else Eval(w, fuel, c.value, Bind(c.value.params, vs), c.value.body)
  }

  // ---- The functions as they were captured ----

  /** The name a node goes by at module level, and what it stands for. */
  function TopName(needed: Dict<FunctionNode>, q: string): string {
    var node := Get(needed, q);
    if node.None? then q
    else match node.value.content.ownerClass
      case None => node.value.content.name
      case Some(owner) => LastSegment(owner)
  }

  function TopValue(needed: Dict<FunctionNode>, q: string): Val {
    match OwnerOf(needed, q)
    case None => Fun(q)
    case Some(owner) => Class(owner)
  }

  /** The needed nodes a function can name: its dependencies and itself. */
  function Visible(needed: Dict<FunctionNode>, q: string): seq<string> {
    var node := Get(needed, q);
    if node.None? then [] else FilterIn(node.value.dependencies + [q], Keys(needed))
  }

  /** The original module scope of a function. */
  function Scope(needed: Dict<FunctionNode>, q: string): Dict<Val> {
    var names := Visible(needed, q);
    seq(|names|, i requires 0 <= i < |names| => (TopName(needed, names[i]), TopValue(needed, names[i])))
  }

  function OriginalDefault(scope: Dict<Val>, d: Default): Val {
    match d
    case Value(n) => Int(n)
    case FunctionName(x) => GetOr(Get(scope, x), Int(0))
  }

  function OriginalDefaults(scope: Dict<Val>, kwonly: seq<(string, Default)>): Dict<Val> {
    seq(|kwonly|, i requires 0 <= i < |kwonly| => (kwonly[i].0, OriginalDefault(scope, kwonly[i].1)))
  }

  /** The captured cells: values, then functions. */
  function Cells(content: Blob): Dict<Val> {
    seq(|content.closureVars|, i requires 0 <= i < |content.closureVars| =>
      (content.closureVars[i].0, Int(content.closureVars[i].1)))
    + seq(|content.closureFuncRefs|, i requires 0 <= i < |content.closureFuncRefs| =>
      (content.closureFuncRefs[i].0, Fun(content.closureFuncRefs[i].1)))
  }

  function OriginalClosure(needed: Dict<FunctionNode>, node: FunctionNode, q: string): Closure {
    var s := node.content.source;
    Closure(s.params, OriginalDefaults(Scope(needed, q), s.kwonly), Cells(node.content), Scope(needed, q), s.body)
  }

  function OriginalWorld(needed: Dict<FunctionNode>, todo: Dict<FunctionNode>): Dict<Closure> {
    if todo == [] then []
    else
      (if todo[0].1.content.ownerClass.None? then [(todo[0].0, OriginalClosure(needed, todo[0].1, todo[0].0))] else [])
      + OriginalWorld(needed, todo[1..])
  }

  /** Runs a captured function. */
  function RunOriginal(needed: Dict<FunctionNode>, fuel: nat, q: string, args: seq<Val>): Outcome {
    Apply(OriginalWorld(needed, needed), fuel, Fun(q), args)
  }

  // ---- The flat program ----

  datatype FunObj = FunObj(params: seq<string>, kwonly: Dict<Val>, body: Expr)

  /** Module globals and the function objects created so far. */
  datatype Module = Module(globals: Dict<Val>, functions: Dict<FunObj>)

  function DefaultValue(globals: Dict<Val>, d: Default): Option<Val> {
    match d
    case Value(n) => Some(Int(n))
    case FunctionName(x) => Get(globals, x)
  }

  /** Defaults are evaluated when the definition is; None stands for NameError. */
  function EvalDefaults(globals: Dict<Val>, kwonly: seq<(string, Default)>): Option<Dict<Val>> {
    if kwonly == [] then Some([])
    else
      var v := DefaultValue(globals, kwonly[0].1);
      var rest := EvalDefaults(globals, kwonly[1..]);
      if v.Some? && rest.Some? then Some([(kwonly[0].0, v.value)] + rest.value) else None
  }

  /** The names a list of defaults mentions. */
  function DefaultNames(kwonly: seq<(string, Default)>): set<string> {
    set i | 0 <= i < |kwonly| && kwonly[i].1.FunctionName? :: kwonly[i].1.name
  }

  /** A method default may name a global or a method further up in the same class body. */
  predicate MethodsRun(globals: Dict<Val>, above: set<string>, methods: seq<Def>)
    decreases |methods|
  {
    if methods == [] then true
    else
      (forall x :: x in DefaultNames(methods[0].source.kwonly) ==> x in above || Get(globals, x).Some?)
      && MethodsRun(globals, above + {methods[0].name}, methods[1..])
  }

  function ExecPart(m: Module, part: Part): Option<Module> {
    match part
    case FunctionPart(d) =>
      (var kwonly := EvalDefaults(m.globals, d.source.kwonly);
       if kwonly.None? then None
       else Some(Module(Put(m.globals, d.name, Fun(d.qname)),
                        Put(m.functions, d.qname, FunObj(d.source.params, kwonly.value, d.source.body)))))
    case ClassPart(owner, methods) =>
      if MethodsRun(m.globals, {}, methods) then Some(m.(globals := Put(m.globals, LastSegment(owner), Class(owner))))
      else None
  }

  /** Runs a program top to bottom; None stands for NameError. */
  function Exec(parts: seq<Part>): Option<Module> {
    if parts == [] then Some(Module([], []))
    else
      var k := |parts| - 1;
      var m := Exec(parts[..k]);
      if m.None? then None else ExecPart(m.value, parts[k])
  }

  /** The function objects of a finished module: their free names mean the final globals. */
  function FlatWorld(m: Module): Dict<Closure> {
    seq(|m.functions|, i requires 0 <= i < |m.functions| =>
      (m.functions[i].0,
       Closure(m.functions[i].1.params, m.functions[i].1.kwonly, [], m.globals, m.functions[i].1.body)))
  }

  /** Runs a function of the module, found by its simple name. */
  function RunFlat(m: Module, fuel: nat, name: string, args: seq<Val>): Outcome {
    var f := Get(m.globals, name);
    if f.None? then NameError(name) else Apply(FlatWorld(m), fuel, f.value, args)
  }

  // ---- Closures that agree run alike ----

  function Names(e: Expr): set<string> {
    match e
    case Num(_) => {}
    case Name(x) => {x}
    case Sum(left, right) => Names(left) + Names(right)
    case If(cond, thn, els) => Names(cond) + Names(thn) + Names(els)
    case Call(callee, args) => Names(callee) + ArgNames(args)
  }

  function ArgNames(args: Exprs): set<string> {
    match args
    case NoArgs => {}
    case Arg(first, rest) => Names(first) + ArgNames(rest)
  }

  /** Same parameters and body, and every other name in the body means the same. */
  ghost predicate ClosuresAgree(c: Closure, c': Closure) {
    && c.params == c'.params && c.body == c'.body
    && forall x :: x in Names(c.body) && x !in c.params ==> Outer(c, x) == Outer(c', x)
  }

  ghost predicate WorldsAgree(w: Dict<Closure>, w': Dict<Closure>) {
    forall q :: Get(w, q).Some? == Get(w', q).Some? && (Get(w, q).Some? ==> ClosuresAgree(Get(w, q).value, Get(w', q).value))
  }

  /** The names of e mean the same in both closures, given the local bindings. */
  ghost predicate NamesAgree(c: Closure, c': Closure, locals: Dict<Val>, names: set<string>) {
    forall x :: x in names ==> Lookup(c, locals, x) == Lookup(c', locals, x)
  }

  lemma {:induction false} EvalAgrees(w: Dict<Closure>, w': Dict<Closure>, fuel: nat, c: Closure, c': Closure,
                                      locals: Dict<Val>, e: Expr)
    requires WorldsAgree(w, w') && NamesAgree(c, c', locals, Names(e))
    ensures Eval(w, fuel, c, locals, e) == Eval(w', fuel, c', locals, e)
    decreases fuel, e
  {
    hide WorldsAgree, Lookup;
    match e
    case Num(_) =>
    case Name(x) =>
      assert x in Names(e);
    case Sum(left, right) =>
      EvalAgrees(w, w', fuel, c, c', locals, left);
      EvalAgrees(w, w', fuel, c, c', locals, right);
    case If(cond, thn, els) =>
      EvalAgrees(w, w', fuel, c, c', locals, cond);
      EvalAgrees(w, w', fuel, c, c', locals, thn);
      EvalAgrees(w, w', fuel, c, c', locals, els);
    case Call(callee, args) =>
      EvalAgrees(w, w', fuel, c, c', locals, callee);
      ArgsAgree(w, w', fuel, c, c', locals, args);
      var f := Eval(w, fuel, c, locals, callee);
      var vs := EvalArgs(w, fuel, c, locals, args);
      if f.Returned? && vs.Values? && fuel > 0 {
        ApplyAgrees(w, w', fuel - 1, f.v, vs.vs);
      }
  }

  lemma {:induction false} ArgsAgree(w: Dict<Closure>, w': Dict<Closure>, fuel: nat, c: Closure, c': Closure,
                                     locals: Dict<Val>, args: Exprs)
    requires WorldsAgree(w, w') && NamesAgree(c, c', locals, ArgNames(args))
    ensures EvalArgs(w, fuel, c, locals, args) == EvalArgs(w', fuel, c', locals, args)
    decreases fuel, args
  {
    hide WorldsAgree, Lookup;
    if args.Arg? {
      EvalAgrees(w, w', fuel, c, c', locals, args.first);
      ArgsAgree(w, w', fuel, c, c', locals, args.rest);
    }
  }

  lemma {:induction false} BindGet(params: seq<string>, args: seq<Val>, x: string)
    requires |params| == |args|
    ensures Get(Bind(params, args), x).Some? <==> x in params
  {
    GetSome(Bind(params, args), x);
    if x in params {
      var i :| 0 <= i < |params| && params[i] == x;
      assert Bind(params, args)[i].0 == x;
    }
  }

  /** Worlds that agree function by function give every call the same outcome. */
  lemma {:induction false} ApplyAgrees(w: Dict<Closure>, w': Dict<Closure>, fuel: nat, f: Val, vs: seq<Val>)
    requires WorldsAgree(w, w')
    ensures Apply(w, fuel, f, vs) == Apply(w', fuel, f, vs)
    decreases fuel
  {
    if f.Fun? && Get(w, f.qname).Some? {
      var c, c' := Get(w, f.qname).value, Get(w', f.qname).value;
      assert ClosuresAgree(c, c');
      if |c.params| == |vs| {
        var locals := Bind(c.params, vs);
        forall x | x in Names(c.body)
          ensures Lookup(c, locals, x) == Lookup(c', locals, x)
        {
          BindGet(c.params, vs, x);
        }
        EvalAgrees(w, w', fuel, c, c', locals, c.body);
      }
    }
  }
}
