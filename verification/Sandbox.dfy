/** The sandbox channel: the host's requests under its lock, connections that break at any
    moment, and a guest that answers each connection in turn. */
module Sandbox {
  import opened Options

  /** A request is known by the number of the call that sends it; generator says whether its
      function is an async generator. */
  datatype Request = Request(call: nat, generator: bool)

  /** What the guest writes, marked with the request it is about. */
  datatype Frame = Progress(about: nat) | YieldFrame(about: nat) | Answer(about: nat)

  datatype Guest = Idle | Working(request: Request)

  datatype Connection = Connection(toGuest: seq<Request>, guest: Guest, toHost: seq<Frame>)

  /** The host's lock holder: none; with a request to send, on its first or second try; reading
      the response. */
  datatype Host = Free | ToSend(request: Request, stream: bool, retried: bool) | Reading(request: Request, stream: bool, retried: bool)

  /** One finished call: the frame it returned, or none if it failed. */
  datatype Outcome = Outcome(call: nat, response: Option<Frame>)

  datatype System = System(
    connections: seq<Connection>, current: Option<nat>, host: Host, calls: nat,
    sends: seq<nat>,                 // how often each call sent its request
    streams: set<nat>,               // the streaming calls
    outcomes: seq<Outcome>, delivered: seq<(nat, Frame)>)

  const INITIAL := System([], None, Free, 0, [], {}, [], [])

  datatype Action =
    | Begin(stream: bool, generator: bool)   // a call takes the lock and connects if needed
    | Send                                // the request goes out
    | Receive                             // the host reads one frame
    | Lost(arrived: bool)                 // the connection fails while sending or reading
    | GiveUp                              // timeout, cancellation, or an exception in a callback
    | GuestTake(c: nat)
    | GuestProgress(c: nat, about: nat)   // from the function or from a thread it left behind
    | GuestYield(c: nat)
    | GuestAnswer(c: nat)

  const FRESH := Connection([], Idle, [])

  function Connect(s: System): System {
    s.(connections := s.connections + [FRESH], current := Some(|s.connections|))
  }

  function Fail(s: System, call: nat): System {
    s.(host := Free, current := None, outcomes := s.outcomes + [Outcome(call, None)])
  }

  ghost predicate Connected(s: System) {
    s.current.Some? && s.current.value < |s.connections|
  }

  function Put(s: System, c: nat, conn: Connection): System
    requires c < |s.connections|
  {
    s.(connections := s.connections[c := conn])
  }

  function Counted(sends: seq<nat>, call: nat): seq<nat> {
    if call < |sends| then sends[call := sends[call] + 1] else sends
  }

  /** The request reaches the guest's end of a connection. */
  function Deliver(s: System, r: Request): System {
    if s.current.Some? && s.current.value < |s.connections| then
      var conn := s.connections[s.current.value];
      Put(s, s.current.value, conn.(toGuest := conn.toGuest + [r]))
    else s
  }

  /** _send_request and _send_stream_request. */
  function HostStep(s: System, a: Action): System {
    match (s.host, a)
    case (Free, Begin(stream, generator)) =>
      var r := Request(s.calls, generator);
      var t := if s.current.Some? then s else Connect(s);
      t.(host := ToSend(r, stream, false), calls := s.calls + 1, sends := s.sends + [0],
         streams := if stream then s.streams + {s.calls} else s.streams)
    case (ToSend(r, stream, retried), Send) =>
      Deliver(s, r).(host := Reading(r, stream, retried), sends := Counted(s.sends, r.call))
    case (ToSend(r, stream, retried), Lost(arrived)) =>
      var t := (if arrived then Deliver(s, r) else s).(sends := Counted(s.sends, r.call));
      if stream || retried then Fail(t, r.call) else Connect(t).(host := ToSend(r, stream, true))
    case (Reading(r, stream, retried), Lost(_)) =>
      if stream || retried then Fail(s, r.call) else Connect(s).(host := ToSend(r, stream, true))
    case (Reading(r, stream, retried), Receive) =>
      if s.current.None? || s.current.value >= |s.connections| || s.connections[s.current.value].toHost == [] then s
      else
        var conn := s.connections[s.current.value];
        var frame, t := conn.toHost[0], Put(s, s.current.value, conn.(toHost := conn.toHost[1..]));
        if frame.Progress? then t
        else if stream && frame.YieldFrame? then t.(delivered := s.delivered + [(r.call, frame)])
        else t.(host := Free, outcomes := s.outcomes + [Outcome(r.call, Some(frame))])
    case (ToSend(r, _, _), GiveUp) => Fail(s, r.call)
    case (Reading(r, _, _), GiveUp) => Fail(s, r.call)
    case _ => s
  }

  /** _handle_client and the response protocol of _execute_request, on one connection. */
  function GuestStep(conn: Connection, a: Action): Connection {
    match (conn.guest, a)
    case (Idle, GuestTake(_)) =>
      if conn.toGuest == [] then conn else conn.(guest := Working(conn.toGuest[0]), toGuest := conn.toGuest[1..])
    case (Working(r), GuestYield(_)) => if r.generator then conn.(toHost := conn.toHost + [YieldFrame(r.call)]) else conn
    case (Working(r), GuestAnswer(_)) => conn.(toHost := conn.toHost + [Answer(r.call)], guest := Idle)
    case (_, GuestProgress(_, about)) => conn.(toHost := conn.toHost + [Progress(about)])
    case _ => conn
  }

  function Step(s: System, a: Action): System {
    if a.GuestTake? || a.GuestProgress? || a.GuestYield? || a.GuestAnswer? then
      (if a.c < |s.connections| then Put(s, a.c, GuestStep(s.connections[a.c], a)) else s)
    else HostStep(s, a)
  }

  function Run(actions: seq<Action>): System {
    if actions == [] then INITIAL else Step(Run(actions[..|actions| - 1]), actions[|actions| - 1])
  }

  // ---- The invariant ----

  /** The frames that are not progress. */
  function Telling(frames: seq<Frame>): seq<Frame> {
    if frames == [] then []
    else Telling(frames[..|frames| - 1]) + if frames[|frames| - 1].Progress? then [] else [frames[|frames| - 1]]
  }

  lemma {:induction false} TellingHead(frames: seq<Frame>)
    requires frames != []
    ensures Telling(frames) == (if frames[0].Progress? then [] else [frames[0]]) + Telling(frames[1..])
  {
    var k := |frames| - 1;
    if k > 0 {
      assert frames[..k][1..] == frames[1..][..k - 1];
      TellingHead(frames[..k]);
    } else {
      assert frames[..0] == [] && frames[1..] == [];
    }
  }

  /** Nothing is under way: no request, no answer that was not read. */
  ghost predicate Quiet(conn: Connection) {
    conn.toGuest == [] && conn.guest == Idle && Telling(conn.toHost) == []
  }

  ghost predicate AllYields(frames: seq<Frame>, r: Request) {
    forall i :: 0 <= i < |frames| ==> frames[i] == YieldFrame(r.call) && r.generator
  }

  /** Exactly one request is under way on the connection, and everything the guest wrote and
      the host did not read yet is about it. */
  ghost predicate UnderWay(toGuest: seq<Request>, guest: Guest, told: seq<Frame>, r: Request) {
    if toGuest != [] then toGuest == [r] && guest == Idle && told == []
    else if guest.Working? then guest == Working(r) && AllYields(told, r)
    else told != [] && told[|told| - 1] == Answer(r.call) && AllYields(told[..|told| - 1], r)
  }

  ghost predicate Busy(conn: Connection, r: Request) {
    UnderWay(conn.toGuest, conn.guest, Telling(conn.toHost), r)
  }

  ghost predicate ChannelOk(s: System) {
    match s.host
    case Free => s.current.Some? ==> Connected(s) && Quiet(s.connections[s.current.value])
    case ToSend(_, _, _) => Connected(s) && Quiet(s.connections[s.current.value])
    case Reading(r, _, _) => Connected(s) && Busy(s.connections[s.current.value], r)
  }

  /** A plain request is never made for an async generator. */
  ghost predicate PlainDoesNotYield(actions: seq<Action>) {
    forall i :: 0 <= i < |actions| && actions[i].Begin? ==> actions[i].stream || !actions[i].generator
  }

  ghost predicate KindOk(s: System) {
    match s.host
    case Free => true
    case ToSend(r, stream, _) => r.generator ==> stream
    case Reading(r, stream, _) => r.generator ==> stream
  }

  /** How often each call has sent its request. */
  ghost predicate SendsOk(s: System) {
    && |s.sends| == s.calls
    && (forall c :: c in s.streams ==> c < s.calls)
    && (forall c :: 0 <= c < s.calls ==> s.sends[c] <= if c in s.streams then 1 else 2)
    && match s.host
       case Free => true
       case ToSend(r, stream, retried) =>
         r.call < s.calls && (stream <==> r.call in s.streams) && s.sends[r.call] <= (if retried then 1 else 0) && !(stream && retried)
       case Reading(r, stream, retried) =>
         r.call < s.calls && (stream <==> r.call in s.streams) && s.sends[r.call] <= (if retried then 2 else 1) && !(stream && retried)
  }

  /** Every response is the answer to the call that returns it, every yielded value its own. */
  ghost predicate Paired(s: System) {
    && (forall i :: 0 <= i < |s.outcomes| && s.outcomes[i].response.Some? ==> s.outcomes[i].response.value == Answer(s.outcomes[i].call))
    && (forall i :: 0 <= i < |s.delivered| ==> s.delivered[i].1 == YieldFrame(s.delivered[i].0))
  }

  ghost predicate Invariant(s: System) {
    ChannelOk(s) && KindOk(s) && SendsOk(s) && Paired(s)
  }

  lemma TellingLast(frames: seq<Frame>, frame: Frame)
    ensures Telling(frames + [frame]) == Telling(frames) + if frame.Progress? then [] else [frame]
  {
    assert (frames + [frame])[..|frames|] == frames;
  }

  lemma GuestKeepsQuiet(conn: Connection, a: Action)
    requires Quiet(conn)
    ensures Quiet(GuestStep(conn, a))
  {
    if a.GuestProgress? {
      TellingLast(conn.toHost, Progress(a.about));
    }
    hide Telling;
  }

  lemma MoreTold(told: seq<Frame>, r: Request)
    requires AllYields(told, r)
    ensures r.generator ==> AllYields(told + [YieldFrame(r.call)], r)
    ensures UnderWay([], Idle, told + [Answer(r.call)], r)
  {
    assert (told + [Answer(r.call)])[..|told|] == told;
  }

  lemma GuestKeepsBusy(conn: Connection, a: Action, r: Request)
    requires Busy(conn, r)
    ensures Busy(GuestStep(conn, a), r)
  {
    var told := Telling(conn.toHost);
    hide Telling, AllYields;
    if a.GuestProgress? {
      TellingLast(conn.toHost, Progress(a.about));
      assert Telling(conn.toHost + [Progress(a.about)]) == told;
    } else if conn.guest.Working? {
      TellingLast(conn.toHost, YieldFrame(r.call));
      TellingLast(conn.toHost, Answer(r.call));
      MoreTold(told, r);
    } else if a.GuestTake? && conn.toGuest != [] {
      assert AllYields([], r) by { NoYields(r); }
    }
  }

  lemma NoYields(r: Request)
    ensures AllYields([], r)
  {
  }

  lemma DeliverMakesBusy(conn: Connection, r: Request)
    requires Quiet(conn)
    ensures Busy(conn.(toGuest := conn.toGuest + [r]), r)
  {
    hide Telling;
  }

  /** The first frame that tells something is a yield of the request, or its answer and the last. */
  lemma ToldNext(toGuest: seq<Request>, guest: Guest, told: seq<Frame>, r: Request)
    requires UnderWay(toGuest, guest, told, r) && told != []
    ensures if told[0] == Answer(r.call) then toGuest == [] && guest == Idle && told[1..] == []
            else told[0] == YieldFrame(r.call) && r.generator && UnderWay(toGuest, guest, told[1..], r)
  {
    if |told| > 1 && guest == Idle {
      assert told[..|told| - 1][0] == told[0];
      assert told[1..][..|told| - 2] == told[..|told| - 1][1..];
    }
  }

  /** Reading one frame: progress leaves the request under way, a yield too, the answer ends it. */
  lemma ReadKeeps(conn: Connection, r: Request)
    requires Busy(conn, r) && conn.toHost != []
    ensures var next := conn.(toHost := conn.toHost[1..]);
      match conn.toHost[0]
      case Progress(_) => Busy(next, r)
      case YieldFrame(about) => about == r.call && r.generator && Busy(next, r)
      case Answer(about) => about == r.call && Quiet(next)
  {
    TellingHead(conn.toHost);
    var told, rest := Telling(conn.toHost), Telling(conn.toHost[1..]);
    hide Telling, UnderWay;
    if conn.toHost[0].Progress? {
      assert told == rest;
    } else {
      assert told[0] == conn.toHost[0] && told[1..] == rest;
      ToldNext(conn.toGuest, conn.guest, told, r);
    }
  }

  lemma ChannelOnly(s: System, c: nat, conn: Connection)
    requires KindOk(s) && SendsOk(s) && Paired(s) && c < |s.connections|
    ensures var t := Put(s, c, conn); KindOk(t) && SendsOk(t) && Paired(t)
  {
  }

  lemma GuestKeeps(s: System, a: Action)
    requires Invariant(s) && (a.GuestTake? || a.GuestProgress? || a.GuestYield? || a.GuestAnswer?)
    ensures Invariant(Step(s, a))
  {
    hide Busy, Quiet, GuestStep, KindOk, SendsOk, Paired;
    if a.c < |s.connections| {
      var conn := s.connections[a.c];
      ChannelOnly(s, a.c, GuestStep(conn, a));
      if s.current == Some(a.c) {
        match s.host
        case Reading(r, _, _) => GuestKeepsBusy(conn, a, r);
        case _ => GuestKeepsQuiet(conn, a);
      }
    }
  }

  lemma FreshIsQuiet()
    ensures Quiet(FRESH)
  {
  }

  lemma BeginKeeps(s: System, a: Action)
    requires Invariant(s) && s.host.Free? && (a.Begin? ==> a.stream || !a.generator)
    ensures Invariant(HostStep(s, a))
  {
    FreshIsQuiet();
    hide Busy, Quiet, FRESH;
  }

  lemma SendKeeps(s: System, a: Action)
    requires Invariant(s) && s.host.ToSend?
    ensures Invariant(HostStep(s, a))
  {
    FreshIsQuiet();
    DeliverMakesBusy(s.connections[s.current.value], s.host.request);
    hide Busy, Quiet, FRESH, Paired;
    var t := HostStep(s, a);
    assert Paired(t) by { SameResponses(s, t, s.host.request.call); }
  }

  lemma SameResponses(s: System, t: System, call: nat)
    requires Paired(s) && t.delivered == s.delivered
    requires t.outcomes == s.outcomes || t.outcomes == s.outcomes + [Outcome(call, None)]
    ensures Paired(t)
  {
  }

  lemma ReadingKeeps(s: System, a: Action)
    requires Invariant(s) && s.host.Reading?
    ensures Invariant(HostStep(s, a))
  {
    FreshIsQuiet();
    hide Busy, Quiet, FRESH, Paired;
    var r, t := s.host.request, HostStep(s, a);
    if a == Receive && s.connections[s.current.value].toHost != [] {
      var frame := s.connections[s.current.value].toHost[0];
      ReadKeeps(s.connections[s.current.value], r);
      assert frame.YieldFrame? ==> s.host.stream;
      assert Paired(t) by { NewResponse(s, t, r.call); }
    } else {
      assert Paired(t) by { SameResponses(s, t, r.call); }
    }
  }

  lemma NewResponse(s: System, t: System, call: nat)
    requires Paired(s)
    requires t.outcomes == s.outcomes || t.outcomes == s.outcomes + [Outcome(call, Some(Answer(call)))]
    requires t.delivered == s.delivered || t.delivered == s.delivered + [(call, YieldFrame(call))]
    ensures Paired(t)
  {
  }

  lemma HostKeeps(s: System, a: Action)
    requires Invariant(s) && (a.Begin? ==> a.stream || !a.generator)
    ensures Invariant(HostStep(s, a))
  {
    hide Invariant, HostStep;
    match s.host
    case Free => BeginKeeps(s, a);
    case ToSend(_, _, _) => SendKeeps(s, a);
    case Reading(_, _, _) => ReadingKeeps(s, a);
  }

  lemma StepKeeps(s: System, a: Action)
    requires Invariant(s) && (a.Begin? ==> a.stream || !a.generator)
    ensures Invariant(Step(s, a))
  {
    hide Invariant, HostStep, GuestStep;
    if a.GuestTake? || a.GuestProgress? || a.GuestYield? || a.GuestAnswer? {
      GuestKeeps(s, a);
    } else {
      HostKeeps(s, a);
    }
  }

  lemma {:induction false} RunKeeps(actions: seq<Action>)
    requires PlainDoesNotYield(actions)
    ensures Invariant(Run(actions))
  {
    if actions != [] {
      var before := actions[..|actions| - 1];
      forall i | 0 <= i < |before| && before[i].Begin?
        ensures before[i].stream || !before[i].generator
      {
        assert before[i] == actions[i];
      }
      RunKeeps(before);
      StepKeeps(Run(before), actions[|actions| - 1]);
    }
  }

  // ---- Safety over every run ----

  /** With timeouts, cancellations and lost connections at any point, a response is the guest's
      answer to that same request and never a leftover, and so is every yielded value. */
  lemma ResponsesArePaired(actions: seq<Action>)
    requires PlainDoesNotYield(actions)
    ensures Paired(Run(actions))
  {
    RunKeeps(actions);
  }

  lemma HostKeepsSends(s: System, a: Action)
    requires SendsOk(s)
    ensures SendsOk(HostStep(s, a))
  {
  }

  lemma SendsKeep(s: System, a: Action)
    requires SendsOk(s)
    ensures SendsOk(Step(s, a))
  {
    HostKeepsSends(s, a);
    hide GuestStep, HostStep;
  }

  lemma {:induction false} RunKeepsSends(actions: seq<Action>)
    ensures SendsOk(Run(actions))
  {
    if actions != [] {
      RunKeepsSends(actions[..|actions| - 1]);
      SendsKeep(Run(actions[..|actions| - 1]), actions[|actions| - 1]);
    }
  }

  /** A request is sent at most twice, a streaming one at most once. */
  lemma SendsAreBounded(actions: seq<Action>, call: nat)
    requires call < Run(actions).calls
    ensures call < |Run(actions).sends|
    ensures Run(actions).sends[call] <= if call in Run(actions).streams then 1 else 2
  {
    RunKeepsSends(actions);
  }

  // ---- What a request comes to ----

  /** The request goes out on a connection, the guest takes it and answers, the host reads. */
  function Exchange(c: nat): seq<Action> {
    [Send, GuestTake(c), GuestAnswer(c), Receive]
  }

  function Steps(s: System, actions: seq<Action>): System
    decreases |actions|
  {
    if actions == [] then s else Steps(Step(s, actions[0]), actions[1..])
  }

  lemma FourSteps(s: System, a: Action, b: Action, d: Action, e: Action)
    ensures Steps(s, [a, b, d, e]) == Step(Step(Step(Step(s, a), b), d), e)
  {
    hide Step;
    assert [a, b, d, e][1..] == [b, d, e] && [b, d, e][1..] == [d, e] && [d, e][1..] == [e] && [e][1..] == [];
    assert Steps(Step(Step(Step(Step(s, a), b), d), e), []) == Step(Step(Step(Step(s, a), b), d), e);
    assert Steps(Step(Step(Step(s, a), b), d), [e]) == Step(Step(Step(Step(s, a), b), d), e);
    assert Steps(Step(Step(s, a), b), [d, e]) == Step(Step(Step(Step(s, a), b), d), e);
  }

  /** On an idle, empty connection an exchange gives the call its own answer, and leaves the
      connection idle and empty. */
  lemma ExchangeAnswers(s: System, c: nat)
    requires s.host.ToSend? && s.current == Some(c) && c < |s.connections| && s.connections[c] == FRESH
    requires s.host.request.call < |s.sends|
    ensures var t, r := Steps(s, Exchange(c)), s.host.request;
      && t.host == Free && t.current == Some(c) && t.connections == s.connections
      && t.outcomes == s.outcomes + [Outcome(r.call, Some(Answer(r.call)))] && t.delivered == s.delivered
      && t.sends == s.sends[r.call := s.sends[r.call] + 1]
  {
    var r := s.host.request;
    FourSteps(s, Send, GuestTake(c), GuestAnswer(c), Receive);
    hide Steps, Step;
    var sends := s.sends[r.call := s.sends[r.call] + 1];
    var waiting := s.(host := Reading(r, s.host.stream, s.host.retried), sends := sends);
    SendGoesOut(s, c);
    GuestHandles(waiting, c, r);
    AnswerIsRead(waiting, c, r);
  }

  lemma SendGoesOut(s: System, c: nat)
    requires s.host.ToSend? && s.current == Some(c) && c < |s.connections| && s.connections[c] == FRESH
    requires s.host.request.call < |s.sends|
    ensures var r := s.host.request;
      Step(s, Send) == s.(connections := s.connections[c := Connection([r], Idle, [])], host := Reading(r, s.host.stream, s.host.retried),
                          sends := s.sends[r.call := s.sends[r.call] + 1])
  {
    assert [] + [s.host.request] == [s.host.request];
  }

  /** The guest takes a request and answers it. */
  lemma GuestHandles(s: System, c: nat, r: Request)
    requires c < |s.connections|
    ensures Step(Step(s.(connections := s.connections[c := Connection([r], Idle, [])]), GuestTake(c)), GuestAnswer(c))
         == s.(connections := s.connections[c := Connection([], Idle, [Answer(r.call)])])
  {
    assert [r][1..] == [] && [] + [Answer(r.call)] == [Answer(r.call)];
    hide HostStep;
    var taken := s.(connections := s.connections[c := Connection([], Working(r), [])]);
    assert Step(s.(connections := s.connections[c := Connection([r], Idle, [])]), GuestTake(c)) == taken;
  }

  lemma AnswerIsRead(s: System, c: nat, r: Request)
    requires c < |s.connections| && s.connections[c] == FRESH && s.current == Some(c) && s.host.Reading? && s.host.request == r
    ensures Step(s.(connections := s.connections[c := Connection([], Idle, [Answer(r.call)])]), Receive)
         == s.(host := Free, outcomes := s.outcomes + [Outcome(r.call, Some(Answer(r.call)))])
  {
    assert [Answer(r.call)][1..] == [];
    assert s.connections[c := FRESH] == s.connections;
  }

  /** A yielded value that is read by a streaming call is delivered, and the call reads on. */
  lemma YieldIsDelivered(s: System, c: nat, rest: seq<Frame>)
    requires s.host.Reading? && s.host.stream && s.current == Some(c) && c < |s.connections|
    requires s.connections[c].toHost == [YieldFrame(s.host.request.call)] + rest
    ensures var t, r := Step(s, Receive), s.host.request;
      t.host == s.host && t.delivered == s.delivered + [(r.call, YieldFrame(r.call))] && t.connections[c].toHost == rest
  {
  }

  /** A plain request whose connection fails once, while it is sent or while its response is
      read, goes out a second time on a new connection, and returns its own answer. */
  lemma RetryAnswers(s: System, arrived: bool)
    requires (s.host.ToSend? || s.host.Reading?) && !s.host.stream && !s.host.retried && s.host.request.call < |s.sends|
    ensures var r, c := s.host.request, |s.connections|;
      var t := Steps(Step(s, Lost(arrived)), Exchange(c));
      && t.host == Free && t.current == Some(c)
      && t.outcomes == s.outcomes + [Outcome(r.call, Some(Answer(r.call)))]
      && t.sends == s.sends[r.call := s.sends[r.call] + if s.host.ToSend? then 2 else 1]
  {
    hide Steps;
    var t := Step(s, Lost(arrived));
    assert t.connections[|s.connections|] == FRESH && t.current == Some(|s.connections|);
    ExchangeAnswers(t, |s.connections|);
  }

  /** A second failure ends the call without a response, and so does the first one of a stream. */
  lemma LostEnds(s: System, arrived: bool)
    requires (s.host.ToSend? || s.host.Reading?) && (s.host.stream || s.host.retried)
    ensures var t := Step(s, Lost(arrived));
      t.host == Free && t.current.None? && t.outcomes == s.outcomes + [Outcome(s.host.request.call, None)]
  {
  }

  /** In every run without plain requests for generators, a call that begins while the channel is
      free gets its own answer when nothing fails. */
  lemma CallAnswers(actions: seq<Action>, stream: bool, generator: bool)
    requires PlainDoesNotYield(actions) && Run(actions).host.Free?
    requires var s := Run(actions); s.current.Some? ==> s.current.value < |s.connections| && s.connections[s.current.value] == FRESH
    ensures var s := Run(actions);
      var begun := Step(s, Begin(stream, generator));
      && begun.current.Some?
      && var t := Steps(begun, Exchange(begun.current.value));
         t.host == Free && t.outcomes == s.outcomes + [Outcome(s.calls, Some(Answer(s.calls)))]
  {
    RunKeeps(actions);
    var s := Run(actions);
    var begun := Step(s, Begin(stream, generator));
    hide Run, Steps, Busy, Quiet;
    assert begun.connections[begun.current.value] == FRESH;
    ExchangeAnswers(begun, begun.current.value);
  }

  // ---- When responses are paired ----

  /** Every call is of one of the given kinds: streaming or not, for an async generator or not. */
  ghost predicate OfKinds(actions: seq<Action>, kinds: set<(bool, bool)>) {
    forall i :: 0 <= i < |actions| && actions[i].Begin? ==> (actions[i].stream, actions[i].generator) in kinds
  }

  /** Some call returned the answer to another one. */
  ghost predicate Mixed(s: System) {
    exists i, c :: 0 <= i < |s.outcomes| && s.outcomes[i].response == Some(Answer(c)) && c != s.outcomes[i].call
  }

  lemma RunOne(actions: seq<Action>, a: Action)
    ensures Run(actions + [a]) == Step(Run(actions), a)
  {
    assert (actions + [a])[..|actions|] == actions;
    hide Step;
  }

  lemma RunMore(before: seq<Action>, a: Action, b: Action, c: Action)
    ensures Run(before + [a, b, c]) == Step(Step(Step(Run(before), a), b), c)
  {
    RunOne(before, a);
    RunOne(before + [a], b);
    RunOne(before + [a] + [b], c);
    assert before + [a] + [b] + [c] == before + [a, b, c];
    hide Step;
  }

  /** A plain call for a generator whose body yields once. */
  function OneYield(): seq<Action> {
    [Begin(false, true), Send, GuestTake(0)] + [GuestYield(0), GuestAnswer(0), Receive]
  }

  /** The same call once more, on the connection that the first one left. */
  function TwoPlainCalls(): seq<Action> {
    OneYield() + [Begin(false, true), Send, Receive]
  }

  lemma FirstSends()
    ensures var r := Request(0, true);
      Step(Step(INITIAL, Begin(false, true)), Send)
      == System([Connection([r], Idle, [])], Some(0), Reading(r, false, false), 1, [1], {}, [], [])
  {
    var r := Request(0, true);
    var begun := Step(INITIAL, Begin(false, true));
    assert [FRESH] == [] + [FRESH] && [0] == [] + [0] && [r] == [] + [r];
    assert begun == System([FRESH], Some(0), ToSend(r, false, false), 1, [0], {}, [], []);
    assert [FRESH][0 := Connection([r], Idle, [])] == [Connection([r], Idle, [])] && [0][0 := 1] == [1];
  }

  lemma FirstTaken()
    ensures var r := Request(0, true);
      Run([Begin(false, true), Send, GuestTake(0)])
      == System([Connection([], Working(r), [])], Some(0), Reading(r, false, false), 1, [1], {}, [], [])
  {
    var r := Request(0, true);
    FirstSends();
    RunMore([], Begin(false, true), Send, GuestTake(0));
    assert [] + [Begin(false, true), Send, GuestTake(0)] == [Begin(false, true), Send, GuestTake(0)];
    assert [r][1..] == [];
    assert [Connection([r], Idle, [])][0 := Connection([], Working(r), [])] == [Connection([], Working(r), [])];
    hide HostStep, Run;
    assert Run([]) == INITIAL by { NothingDone(); }
  }

  lemma NothingDone()
    ensures Run([]) == INITIAL
  {
  }

  /** The call returns the yielded value as its response, and its answer stays unread. */
  lemma YieldTaken(s: System, r: Request)
    requires r == Request(0, true)
    requires s == System([Connection([], Working(r), [])], Some(0), Reading(r, false, false), 1, [1], {}, [], [])
    ensures Step(Step(Step(s, GuestYield(0)), GuestAnswer(0)), Receive)
         == System([Connection([], Idle, [Answer(0)])], Some(0), Free, 1, [1], {}, [Outcome(0, Some(YieldFrame(0)))], [])
  {
    var told := Step(s, GuestYield(0));
    assert [] + [YieldFrame(0)] == [YieldFrame(0)];
    assert told == s.(connections := [Connection([], Working(r), [YieldFrame(0)])]);
    var answered := Step(told, GuestAnswer(0));
    assert [YieldFrame(0)] + [Answer(0)] == [YieldFrame(0), Answer(0)];
    assert answered == s.(connections := [Connection([], Idle, [YieldFrame(0), Answer(0)])]);
    assert [YieldFrame(0), Answer(0)][1..] == [Answer(0)];
    assert [] + [Outcome(0, Some(YieldFrame(0)))] == [Outcome(0, Some(YieldFrame(0)))];
  }

  /** The next call reads that answer as its own. */
  lemma LeftoverTaken(s: System)
    requires s == System([Connection([], Idle, [Answer(0)])], Some(0), Free, 1, [1], {}, [Outcome(0, Some(YieldFrame(0)))], [])
    ensures var t := Step(Step(Step(s, Begin(false, true)), Send), Receive);
      t.outcomes == s.outcomes + [Outcome(1, Some(Answer(0)))]
  {
    var next := Request(1, true);
    var begun := Step(s, Begin(false, true));
    assert begun.host == ToSend(next, false, false) && begun.current == Some(0) && begun.connections == s.connections;
    var sent := Step(begun, Send);
    assert sent.host == Reading(next, false, false) && sent.connections[0] == Connection([] + [next], Idle, [Answer(0)]);
  }

  lemma AfterOneYield()
    ensures Run(OneYield())
         == System([Connection([], Idle, [Answer(0)])], Some(0), Free, 1, [1], {}, [Outcome(0, Some(YieldFrame(0)))], [])
  {
    FirstTaken();
    hide Step, Run;
    RunMore([Begin(false, true), Send, GuestTake(0)], GuestYield(0), GuestAnswer(0), Receive);
    YieldTaken(Run([Begin(false, true), Send, GuestTake(0)]), Request(0, true));
  }

  lemma PlainGeneratorCallsAreMixed()
    ensures Mixed(Run(TwoPlainCalls()))
  {
    AfterOneYield();
    hide Step, Run, OneYield;
    RunMore(OneYield(), Begin(false, true), Send, Receive);
    LeftoverTaken(Run(OneYield()));
    assert Run(TwoPlainCalls()).outcomes[1] == Outcome(1, Some(Answer(0)));
  }

  lemma OnlyPlainGeneratorCalls(kinds: set<(bool, bool)>)
    requires (false, true) in kinds
    ensures OfKinds(TwoPlainCalls(), kinds)
  {
  }

  /** For calls of given kinds the responses are paired in every run exactly when there are no
      plain requests for async generators among them; otherwise a call may even return the
      answer to another one. */
  lemma PairedExactly(kinds: set<(bool, bool)>)
    ensures (forall actions :: OfKinds(actions, kinds) ==> Paired(Run(actions))) <==> (false, true) !in kinds
    ensures (false, true) in kinds ==> exists actions :: OfKinds(actions, kinds) && Mixed(Run(actions))
  {
    hide Run, TwoPlainCalls, Mixed, Paired;
    if (false, true) in kinds {
      PlainGeneratorCallsAreMixed();
      MixedIsNotPaired(Run(TwoPlainCalls()));
      OnlyPlainGeneratorCalls(kinds);
    } else {
      forall actions | OfKinds(actions, kinds)
        ensures Paired(Run(actions))
      {
        assert PlainDoesNotYield(actions);
        ResponsesArePaired(actions);
      }
    }
  }

  lemma MixedIsNotPaired(s: System)
    requires Mixed(s)
    ensures !Paired(s)
  {
  }
}
