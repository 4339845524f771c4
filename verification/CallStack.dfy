/** The call stack that tracing keeps, and the caller-callee edges it records. */
module CallStack {

  type Name = string

  /** What a piece of code does with wrapped functions. */
  datatype Event =
    | Call(name: Name, inside: Events)        // a wrapped function is called, and runs
    | Create(name: Name)                      // a wrapped generator function is called
    | Resume(name: Name, inside: Events)      // a proxy is advanced, and its body runs on
    | Close(name: Name, inside: Events)       // a proxy is closed, and its body cleans up
    | Guarded(inside: Events)                 // code under a handler that catches everything

  /** Code runs to its end, or raises. */
  datatype Events = Nothing | Raise | Then(first: Event, rest: Events)

  // ---- What escapes, and which edges are recorded ----

  /** An exception leaves the code. */
  predicate Escapes(es: Events)
    decreases es
  {
    match es case Nothing => false case Raise => true case Then(e, rest) => EscapesFrom(e) || Escapes(rest)
  }

  predicate EscapesFrom(e: Event)
    decreases e
  {
    match e
    case Call(_, inside) => Escapes(inside)
    case Create(_) => false
    case Resume(_, inside) => Escapes(inside)
    case Close(_, inside) => Escapes(inside)
    case Guarded(_) => false
  }

  /** The edges a piece of code adds under a stack, up to where it raises. */
  function Edges(stack: seq<Name>, es: Events): set<(Name, Name)>
    decreases es
  {
    match es
    case Nothing => {}
    case Raise => {}
    case Then(e, rest) => EdgesOf(stack, e) + if EscapesFrom(e) then {} else Edges(stack, rest)
  }

  /** Only calls and resumes stand on the stack while they run: a close runs the body's cleanup
      under the stack of whoever closes. */
  function EdgesOf(stack: seq<Name>, e: Event): set<(Name, Name)>
    decreases e
  {
    match e
    case Call(name, inside) => EdgeAt(stack, name) + Edges(stack + [name], inside)
    case Create(name) => EdgeAt(stack, name)
    case Resume(name, inside) => Edges(stack + [name], inside)
    case Close(_, inside) => Edges(stack, inside)
    case Guarded(inside) => Edges(stack, inside)
  }

  function EdgeAt(stack: seq<Name>, callee: Name): set<(Name, Name)> {
    if stack != [] && stack[|stack| - 1] != callee then {(stack[|stack| - 1], callee)} else {}
  }

  /** A call of callee that is reached, with caller at the top of the stack at that moment. */
  ghost predicate Happens(stack: seq<Name>, es: Events, caller: Name, callee: Name)
    decreases es
  {
    match es
    case Nothing => false
    case Raise => false
    case Then(e, rest) =>
      HappensIn(stack, e, caller, callee) || (!EscapesFrom(e) && Happens(stack, rest, caller, callee))
  }

  ghost predicate HappensIn(stack: seq<Name>, e: Event, caller: Name, callee: Name)
    decreases e
  {
    match e
    case Call(name, inside) =>
      (name == callee && stack != [] && stack[|stack| - 1] == caller) || Happens(stack + [name], inside, caller, callee)
    case Create(name) => name == callee && stack != [] && stack[|stack| - 1] == caller
    case Resume(name, inside) => Happens(stack + [name], inside, caller, callee)
    case Close(_, inside) => Happens(stack, inside, caller, callee)
    case Guarded(inside) => Happens(stack, inside, caller, callee)
  }

  /** The edges are exactly the calls from another function at the top of the stack. */
  lemma {:induction false} EdgesAreCalls(stack: seq<Name>, es: Events, caller: Name, callee: Name)
    ensures (caller, callee) in Edges(stack, es) <==> caller != callee && Happens(stack, es, caller, callee)
    decreases es
  {
    if es.Then? {
      EdgesAreCalls(stack, es.rest, caller, callee);
      match es.first
      case Call(name, inside) => EdgesAreCalls(stack + [name], inside, caller, callee);
      case Create(_) =>
      case Resume(name, inside) => EdgesAreCalls(stack + [name], inside, caller, callee);
      case Close(_, inside) => EdgesAreCalls(stack, inside, caller, callee);
      case Guarded(inside) => EdgesAreCalls(stack, inside, caller, callee);
    }
  }

  class Tracer {
    var stack: seq<Name>
    var edges: set<(Name, Name)>

    constructor ()
      ensures stack == [] && edges == {}
    {
      stack, edges := [], {};
    }

    /** Records an edge if a caller is on the stack, and it is another function. */
    method RecordEdge(name: Name)
      modifies this`edges
      ensures edges == old(edges) + EdgeAt(stack, name)
    {
      if stack != [] && stack[|stack| - 1] != name {
        edges := edges + {(stack[|stack| - 1], name)};
      }
    }

    /** Runs code under the wrappers: the stack afterwards is the one before, however the code
        ends. */
    method Perform(es: Events) returns (raised: bool)
      modifies this
      ensures stack == old(stack)
      ensures edges == old(edges) + Edges(old(stack), es)
      ensures raised == Escapes(es)
      decreases es
    {
      match es {
        case Nothing =>
          raised := false;
        case Raise =>
          raised := true;
        case Then(e, rest) =>
          raised := PerformOne(e);
          if !raised {
            raised := Perform(rest);
          }
      }
    }

    /** A call or a resume: push, run, and pop in any case. */
    method PerformOne(e: Event) returns (raised: bool)
      modifies this
      ensures stack == old(stack)
      ensures edges == old(edges) + EdgesOf(old(stack), e)
      ensures raised == EscapesFrom(e)
      decreases e
    {
      match e {
        case Call(name, inside) =>
          RecordEdge(name);
          stack := stack + [name];
          raised := Perform(inside);
          stack := stack[..|stack| - 1];
        case Create(name) =>
          RecordEdge(name);
          raised := false;
        case Resume(name, inside) =>
          stack := stack + [name];
          raised := Perform(inside);
          stack := stack[..|stack| - 1];
        case Close(_, inside) =>
          raised := Perform(inside);
        case Guarded(inside) =>
          var _ := Perform(inside);
          raised := false;
      }
    }
  }

  /** No function is recorded as its own caller. */
  lemma NoSelfEdges(stack: seq<Name>, es: Events)
    ensures forall f :: (f, f) !in Edges(stack, es)
  {
    forall f
      ensures (f, f) !in Edges(stack, es)
    {
      EdgesAreCalls(stack, es, f, f);
    }
  }
}
