/** Generators and the proxies that tracing wraps around them. */
module Generators {

  datatype Val = NoneVal | Obj(n: int)

  datatype Exn = GeneratorExit | StopIteration | TypeError | RuntimeError | Other(name: string)

  /** How a generator body is resumed, and how it stops. */
  datatype Resume = Start | Sent(v: Val) | Thrown(e: Exn)

  datatype Pause = Yielded(v: Val) | Returned(v: Val) | Raised(e: Exn)

  /** A generator object over a body with states S. */
  datatype Gen<S> = Unstarted(s: S) | Suspended(s: S) | Closed

  datatype Op = Next | Send(v: Val) | Throw(e: Exn) | Close

  datatype Seen = YieldsValue(v: Val) | Stops(v: Val) | Raises(e: Exn) | Closes

  /** A StopIteration that leaves a body becomes a RuntimeError. */
  function Leaving(e: Exn): Exn {
    if e == StopIteration then RuntimeError else e
  }

  function After<S>(r: (S, Pause)): (Gen<S>, Seen) {
    match r.1
    case Yielded(v) => (Suspended(r.0), YieldsValue(v))
    case Returned(v) => (Closed, Stops(v))
    case Raised(e) => (Closed, Raises(Leaving(e)))
  }

  /** close() on a suspended generator: it may end, but not yield. */
  function AfterClose<S>(r: (S, Pause)): (Gen<S>, Seen) {
    match r.1
    case Yielded(_) => (Suspended(r.0), Raises(RuntimeError))
    case Returned(_) => (Closed, Closes)
    case Raised(e) => (Closed, if e == GeneratorExit then Closes else Raises(Leaving(e)))
  }

  /** The operations of a generator object. */
  function Do<S>(body: (S, Resume) -> (S, Pause), g: Gen<S>, op: Op): (Gen<S>, Seen) {
    match (g, op)
    case (Unstarted(s), Next) => After(body(s, Start))
    case (Unstarted(s), Send(v)) => if v == NoneVal then After(body(s, Start)) else (g, Raises(TypeError))
    case (Unstarted(_), Throw(e)) => (Closed, Raises(Leaving(e)))
    case (Unstarted(_), Close) => (Closed, Closes)
    case (Suspended(s), Next) => After(body(s, Sent(NoneVal)))
    case (Suspended(s), Send(v)) => After(body(s, Sent(v)))
    case (Suspended(s), Throw(e)) => After(body(s, Thrown(e)))
    case (Suspended(s), Close) => AfterClose(body(s, Thrown(GeneratorExit)))
    case (Closed, Throw(e)) => (Closed, Raises(e))
    case (Closed, Close) => (Closed, Closes)
    case (Closed, _) => (Closed, Stops(NoneVal))
  }

  /** What the proxy makes of an operation on the wrapped generator. */
  function Forward<S>(r: (Gen<S>, Seen)): (Gen<S>, Pause) {
    match r.1
    case YieldsValue(v) => (r.0, Yielded(v))
    case Stops(v) => (r.0, Returned(v))
    case Raises(e) => (r.0, if e == StopIteration then Returned(NoneVal) else Raised(e))
    case Closes => (r.0, Returned(NoneVal))
  }

  /** The body of _proxy_generator, whose state is the wrapped generator. */
  function Proxy<S>(body: (S, Resume) -> (S, Pause), g: Gen<S>, r: Resume): (Gen<S>, Pause) {
    match r
    case Start => Forward(Do(body, g, Next))
    case Sent(v) => Forward(Do(body, g, Send(v)))
    case Thrown(e) => if e == GeneratorExit then Forward(Do(body, g, Close)) else Forward(Do(body, g, Throw(e)))
  }

  function Observe<S>(body: (S, Resume) -> (S, Pause), g: Gen<S>, ops: seq<Op>): seq<Seen>
    decreases |ops|
  {
    if ops == [] then []
    else var r := Do(body, g, ops[0]); [r.1] + Observe(body, r.0, ops[1..])
  }

  /** A close that the body answers with another yield. */
  predicate Ignores<S>(body: (S, Resume) -> (S, Pause), g: Gen<S>, op: Op) {
    op == Close && g.Suspended? && body(g.s, Thrown(GeneratorExit)).1.Yielded?
  }

  /** The operation finds the generator's body at its end, as it would find a finished one:
      resumed it returns nothing, thrown into it lets the exception through, closed it obeys. */
  predicate EndsHere<S>(body: (S, Resume) -> (S, Pause), g: Gen<S>, op: Op) {
    match (g, op)
    case (Suspended(s), Next) => body(s, Sent(NoneVal)).1 == Returned(NoneVal)
    case (Suspended(s), Send(v)) => body(s, Sent(v)).1 == Returned(NoneVal)
    case (Suspended(s), Throw(e)) => body(s, Thrown(e)).1.Raised? && Leaving(body(s, Thrown(e)).1.e) == e
    case (Suspended(s), Close) => body(s, Thrown(GeneratorExit)).1.Returned? || body(s, Thrown(GeneratorExit)).1 == Raised(GeneratorExit)
    case _ => true
  }

  /** No close is ignored but the last operation, or the next operation ends the generator. */
  predicate ClosesObeyed<S>(body: (S, Resume) -> (S, Pause), g: Gen<S>, ops: seq<Op>)
    decreases |ops|
  {
    if |ops| <= 1 then true
    else if Ignores(body, g, ops[0]) then EndsHere(body, Do(body, g, ops[0]).0, ops[1])
    else ClosesObeyed(body, Do(body, g, ops[0]).0, ops[1..])
  }

  /** The proxy around a generator: in the same phase, with the generator inside. */
  function Wrapped<S>(g: Gen<S>): Gen<Gen<S>> {
    match g case Unstarted(_) => Unstarted(g) case Suspended(_) => Suspended(g) case Closed => Closed
  }

  /** One operation, other than throwing GeneratorExit: the proxy shows what the generator shows,
      and stays around it, unless a close was ignored. */
  lemma StepAgrees<S>(body: (S, Resume) -> (S, Pause), g: Gen<S>, op: Op)
    requires op != Throw(GeneratorExit)
    ensures var inner, outer := Do(body, g, op), Do((p, r) => Proxy(body, p, r), Wrapped(g), op);
      outer.1 == inner.1 && outer.0 == if Ignores(body, g, op) then Closed else Wrapped(inner.0)
  {
  }

  /** A finished generator shows the same whatever its body was. */
  lemma {:induction false} FinishedAlike<S, T>(body: (S, Resume) -> (S, Pause), other: (T, Resume) -> (T, Pause), ops: seq<Op>)
    ensures Observe(body, Gen<S>.Closed, ops) == Observe(other, Gen<T>.Closed, ops)
    decreases |ops|
  {
    if ops != [] {
      assert Do(body, Gen<S>.Closed, ops[0]).0.Closed? && Do(other, Gen<T>.Closed, ops[0]).0.Closed?;
      FinishedAlike(body, other, ops[1..]);
    }
  }

  /** An operation on a suspended generator shows what a finished one shows exactly when the
      body ends there, and then the generator is finished. */
  lemma EndsHereIff<S>(body: (S, Resume) -> (S, Pause), g: Gen<S>, op: Op)
    requires g.Suspended?
    ensures Do(body, g, op).1 == Do(body, Closed, op).1 <==> EndsHere(body, g, op)
    ensures EndsHere(body, g, op) ==> Do(body, g, op).0.Closed?
  {
  }

  /** After an ignored close the proxy has ended. */
  lemma AfterIgnored<S>(body: (S, Resume) -> (S, Pause), g: Gen<S>, ops: seq<Op>)
    requires g.Suspended?
    ensures Observe((p, r) => Proxy(body, p, r), Gen<Gen<S>>.Closed, ops) == Observe(body, g, ops)
       <==> ops == [] || EndsHere(body, g, ops[0])
  {
    if ops != [] {
      FinishedAlike((p, r) => Proxy(body, p, r), body, ops);
      EndsHereIff(body, g, ops[0]);
      assert Observe(body, Closed, ops)[0] == Do(body, Gen<S>.Closed, ops[0]).1;
      assert Observe(body, g, ops)[0] == Do(body, g, ops[0]).1;
    }
  }

  /** The proxy is a bisimulation: for every generator body and every sequence of next, send,
      throw (other than GeneratorExit) and close, it yields, returns and raises what the wrapped
      generator does, exactly when no close is ignored in the middle of the body. */
  lemma {:induction false} ProxyAgrees<S>(body: (S, Resume) -> (S, Pause), g: Gen<S>, ops: seq<Op>)
    requires Throw(GeneratorExit) !in ops
    ensures Observe((p, r) => Proxy(body, p, r), Wrapped(g), ops) == Observe(body, g, ops) <==> ClosesObeyed(body, g, ops)
    decreases |ops|
  {
    if ops != [] {
      StepAgrees(body, g, ops[0]);
      var rest, inner := ops[1..], Do(body, g, ops[0]);
      var proxy := (p, r) => Proxy(body, p, r);
      var outer := Do(proxy, Wrapped(g), ops[0]);
      assert Observe(proxy, Wrapped(g), ops) == [outer.1] + Observe(proxy, outer.0, rest);
      assert Observe(body, g, ops) == [inner.1] + Observe(body, inner.0, rest);
      assert Observe(proxy, Wrapped(g), ops)[1..] == Observe(proxy, outer.0, rest);
      assert Observe(body, g, ops)[1..] == Observe(body, inner.0, rest);
      if Ignores(body, g, ops[0]) {
        AfterIgnored(body, inner.0, rest);
      } else {
        ProxyAgrees(body, inner.0, rest);
      }
    }
  }

  /** After an ignored close the generator goes on, but its proxy has ended. */
  lemma IgnoredCloseEndsProxy<S>(body: (S, Resume) -> (S, Pause), g: Gen<S>, ops: seq<Op>)
    requires Ignores(body, g, Close)
    ensures var inner, outer := Do(body, g, Close), Do((p, r) => Proxy(body, p, r), Wrapped(g), Close);
      && inner.1 == outer.1 == Raises(RuntimeError) && inner.0.Suspended? && outer.0.Closed?
      && Do((p, r) => Proxy(body, p, r), outer.0, Next).1 == Stops(NoneVal)
      && Do(body, inner.0, Next) == After(body(inner.0.s, Sent(NoneVal)))
  {
    StepAgrees(body, g, Close);
  }

  /** Thrown into a suspended generator, GeneratorExit is turned into a close: what is seen
      agrees exactly when the body returns nothing or raises something else. */
  lemma ThrownExitAgreesIff<S>(body: (S, Resume) -> (S, Pause), s: S)
    ensures var g: Gen<S> := Suspended(s);
      Do((p, r) => Proxy(body, p, r), Wrapped(g), Throw(GeneratorExit)).1 == Do(body, g, Throw(GeneratorExit)).1
      <==> match body(s, Thrown(GeneratorExit)).1
           case Yielded(_) => false
           case Returned(v) => v == NoneVal
           case Raised(e) => e != GeneratorExit
  {
  }
}
