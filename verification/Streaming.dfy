/** A streaming task: one worker, the broker and one client, in any interleaving. */
module Streaming {
  import opened Options
  import opened Broker

  const TASK: Id := "task"

  /** Between two values; a value handed to the broker; a result to be sent; done, with the result
      that was sent. */
  datatype WorkerPhase = Generating | Holding(text: string) | Finishing(env: Envelope) | Finished(env: Envelope)

  /** The client's loop: asking for yields, reading a batch, asking for the result, looking once
      more for yields; stopped by a result, or failed on a gap. */
  datatype ClientPhase =
    Polling | Reading(batch: seq<(nat, string)>) | Checking | Draining | Stopped(final: Envelope) | Gap

  datatype System = System(
    broker: State, worker: WorkerPhase, sent: nat, produced: seq<string>, lost: bool,
    client: ClientPhase, next: nat, delivered: seq<string>, envelope: Option<Envelope>, seeded: bool)

  const INITIAL := System(START, Generating, 0, [], false, Polling, 0, [], None, false)

  const CANCELLED := Envelope(Status.Cancelled, None, "")

  datatype Action =
    | Yield(text: string)          // the generator yields a value
    | Send                         // the value reaches the broker, the reply reaches the worker
    | SendFails(arrived: bool)     // sending raises; the value may have arrived all the same
    | Complete                     // the generator ends
    | Raise(payload: string)       // the generator raises
    | Reject(status: Status)       // throttled or failed before the start
    | Abort(arrived: bool)         // the worker cancels the execution
    | Finish                       // the worker sends its result
    | Poll                         // the client asks for yields
    | Read                         // the client takes the next item of the batch
    | Check                        // the client asks for the result
    | Drain                        // the client looks for yields once more
    | SeedResult                   // the client's cancellation stores a cancelled result
    | SeedLocally                  // and remembers it
    | TakeResult                   // a waiting cancellation takes the result
    | Other(m: Msg)                // any message about other tasks

  predicate Concerns(m: Msg) {
    match m
    case ResultPut(id, _) => id == TASK
    case ResultTry(id) => id == TASK
    case YieldPut(id, _, _) => id == TASK
    case _ => false
  }

  /** The task's result slot. */
  function Slot(b: State): Option<Envelope> {
    if TASK in b.results then Some(b.results[TASK]) else None
  }

  function Post(s: System, m: Msg): System {
    s.(broker := Dispatch(s.broker, m).0)
  }

  function Items(s: System): seq<(nat, string)> {
    From(Buffer(s.broker, TASK), s.next)
  }

  function WorkerStep(s: System, a: Action): System {
    match (s.worker, a)
    case (Generating, Yield(text)) => if text == "" then s else s.(worker := Holding(text), produced := s.produced + [text])
    case (Generating, Complete) => s.(worker := Finishing(Envelope(Succeeded, Some(s.sent), "")))
    case (Generating, Raise(payload)) => s.(worker := Finishing(Envelope(Failed, None, payload)))
    case (Generating, Reject(status)) =>
      if s.produced == [] && (status == Throttled || status == Failed) then s.(worker := Finishing(Envelope(status, None, ""))) else s
    case (Generating, Abort(_)) => s.(worker := Finishing(CANCELLED))
    case (Holding(text), Send) => Post(s, YieldPut(TASK, s.sent, text)).(worker := Generating, sent := s.sent + 1)
    case (Holding(text), SendFails(arrived)) => Arrives(s, text, arrived).(worker := Finishing(Envelope(Failed, None, "")))
    case (Holding(text), Abort(arrived)) => Arrives(s, text, arrived).(worker := Finishing(CANCELLED))
    case (Finishing(env), Finish) => Post(s, ResultPut(TASK, env)).(worker := Finished(env))
    case _ => s
  }

  function Arrives(s: System, text: string, arrived: bool): System {
    if arrived then Post(s, YieldPut(TASK, s.sent, text)) else s.(lost := true)
  }

  function Answer(s: System): Option<Envelope> {
    match Dispatch(s.broker, ResultTry(TASK)).1 case Result(env) => env case _ => None
  }

  /** What a message does to the task's buffer and result slot. */
  lemma Effects(b: State, m: Msg)
    ensures var b' := Dispatch(b, m).0;
      && Buffer(b', TASK) == (if m.YieldPut? && m.id == TASK then Placed(Buffer(b, TASK), m.index, m.text) else Buffer(b, TASK))
      && Slot(b') == (
        if m.ResultPut? && m.id == TASK && Slot(b).None? then Some(m.env) else if m == ResultTry(TASK) then None else Slot(b))
      && (m == ResultTry(TASK) ==> Dispatch(b, m).1 == Result(Slot(b)))
  {
  }

  /** The loop of Stream._stream, one broker message or one item at a time. */
  function ClientStep(s: System, a: Action): System {
    match (s.client, a)
    case (Polling, Poll) => if Items(s) == [] then s.(client := Checking) else s.(client := Reading(Items(s)))
    case (Reading(batch), Read) =>
      if batch == [] then s.(client := Polling)
      else if batch[0].0 < s.next then s.(client := Reading(batch[1..]))
      else if batch[0].0 != s.next then s.(client := Gap)
      else s.(client := Reading(batch[1..]), next := s.next + 1, delivered := s.delivered + [batch[0].1])
    case (Checking, Check) =>
      var known := if s.envelope.Some? then s else Post(s, ResultTry(TASK)).(envelope := Answer(s));
      if known.envelope.Some? then known.(client := Draining) else known.(client := Polling)
    case (Draining, Drain) =>
      if s.envelope.None? || Items(s) != [] then s.(client := Polling)
      else if s.envelope.value.streamYields.None? || s.next >= s.envelope.value.streamYields.value then
        s.(client := Stopped(s.envelope.value))
      else s.(client := Polling)
    case _ => s
  }

  function Step(s: System, a: Action): System {
    match a
    case SeedResult => Post(Post(s, Cancel(TASK)), ResultPut(TASK, CANCELLED)).(seeded := true)
    case SeedLocally => if s.seeded then s.(envelope := Some(CANCELLED)) else s
    case TakeResult =>
      if Answer(s).Some? then Post(s, ResultTry(TASK)).(envelope := Answer(s)) else s
    case Other(m) => if Concerns(m) then s else Post(s, m)
    case _ => ClientStep(WorkerStep(s, a), a)
  }

  function Run(actions: seq<Action>): System {
    if actions == [] then INITIAL else Step(Run(actions[..|actions| - 1]), actions[|actions| - 1])
  }

  // ---- The invariant ----

  ghost predicate NoGaps(buf: seq<string>) {
    forall i :: 0 <= i < |buf| ==> buf[i] != ""
  }

  /** The broker's buffer has no gaps and holds the start of what was produced: all of it, once
      the worker has nothing in hand and nothing was lost. */
  ghost predicate BufferOk(buf: seq<string>, worker: WorkerPhase, sent: nat, produced: seq<string>, lost: bool) {
    && NoGaps(buf) && buf <= produced
    && match worker
       case Generating => buf == produced && sent == |buf| && !lost
       case Holding(text) => produced == buf + [text] && text != "" && sent == |buf| && !lost
       case Finishing(env) => |produced| == |buf| + (if lost then 1 else 0) && Counts(env, buf)
       case Finished(env) => |produced| == |buf| + (if lost then 1 else 0) && Counts(env, buf)
  }

  /** A success counts the values in the broker; no other result counts anything. */
  ghost predicate Counts(env: Envelope, buf: seq<string>) {
    env.streamYields == if env.status == Succeeded then Some(|buf|) else None
  }

  /** Only a finished worker's own result is anything but a cancellation. */
  ghost predicate Genuine(env: Envelope, worker: WorkerPhase, buf: seq<string>) {
    Counts(env, buf) && (env.status != Status.Cancelled ==> worker == Finished(env))
  }

  ghost predicate ResultsOk(slot: Option<Envelope>, known: Option<Envelope>, worker: WorkerPhase, buf: seq<string>) {
    (slot.Some? ==> Genuine(slot.value, worker, buf)) && (known.Some? ==> Genuine(known.value, worker, buf))
  }

  /** The client has read the start of the buffer, and its batch continues there. */
  ghost predicate ClientOk(client: ClientPhase, next: nat, delivered: seq<string>, worker: WorkerPhase, buf: seq<string>) {
    && next == |delivered| && delivered <= buf
    && match client
       case Gap => false
       case Reading(batch) => next + |batch| <= |buf| && forall i :: 0 <= i < |batch| ==> batch[i] == (next + i, buf[next + i])
       case Stopped(env) => env.status != Status.Cancelled ==> worker == Finished(env) && next == |buf|
       case _ => true
  }

  ghost predicate Invariant(s: System) {
    var buf := Buffer(s.broker, TASK);
    && BufferOk(buf, s.worker, s.sent, s.produced, s.lost)
    && ResultsOk(Slot(s.broker), s.envelope, s.worker, buf)
    && ClientOk(s.client, s.next, s.delivered, s.worker, buf)
    && (s.client.Draining? ==> s.envelope.Some?)
  }

  lemma {:induction false} FromExact(buf: seq<string>, start: nat)
    requires NoGaps(buf)
    ensures |From(buf, start)| == if start >= |buf| then 0 else |buf| - start
    ensures forall i :: 0 <= i < |From(buf, start)| ==> From(buf, start)[i] == (start + i, buf[start + i])
    decreases |buf| - start
  {
    if start < |buf| {
      FromExact(buf, start + 1);
    }
  }

  /** While the worker has not finished, the buffer may grow under everybody's feet. */
  lemma Grows(s: System, buf: seq<string>, more: seq<string>, worker: WorkerPhase)
    requires !s.worker.Finished? && buf <= more
    requires ResultsOk(Slot(s.broker), s.envelope, s.worker, buf) && ClientOk(s.client, s.next, s.delivered, s.worker, buf)
    ensures ResultsOk(Slot(s.broker), s.envelope, worker, more) && ClientOk(s.client, s.next, s.delivered, worker, more)
  {
  }

  lemma PlacedAtEnd(buf: seq<string>, text: string)
    ensures Placed(buf, |buf|, text) == buf + [text]
  {
  }

  lemma GeneratingKeeps(s: System, a: Action)
    requires Invariant(s) && s.worker.Generating?
    ensures Invariant(WorkerStep(s, a))
  {
    hide Dispatch, Buffer, Slot, ResultsOk, ClientOk;
    var buf := Buffer(s.broker, TASK);
    Grows(s, buf, buf, WorkerStep(s, a).worker);
  }

  lemma HoldingKeeps(s: System, a: Action)
    requires Invariant(s) && s.worker.Holding?
    ensures Invariant(WorkerStep(s, a))
  {
    var buf, text := Buffer(s.broker, TASK), s.worker.text;
    Effects(s.broker, YieldPut(TASK, s.sent, text));
    hide Dispatch, Buffer, Slot, ResultsOk, ClientOk, Placed;
    PlacedAtEnd(buf, text);
    var t := WorkerStep(s, a);
    Grows(s, buf, buf + [text], t.worker);
    Grows(s, buf, buf, t.worker);
  }

  lemma FinishingKeeps(s: System, a: Action)
    requires Invariant(s) && s.worker.Finishing?
    ensures Invariant(WorkerStep(s, a))
  {
    Effects(s.broker, ResultPut(TASK, s.worker.env));
    hide Dispatch, Buffer, Slot;
  }

  lemma WorkerKeeps(s: System, a: Action)
    requires Invariant(s)
    ensures Invariant(WorkerStep(s, a))
  {
    match s.worker
    case Generating => GeneratingKeeps(s, a);
    case Holding(_) => HoldingKeeps(s, a);
    case Finishing(_) => FinishingKeeps(s, a);
    case Finished(_) =>
  }

  lemma ReadingKeeps(s: System, a: Action)
    requires Invariant(s) && s.client.Reading?
    ensures Invariant(ClientStep(s, a))
  {
    hide Dispatch, Buffer, Slot, BufferOk, ResultsOk;
    var buf := Buffer(s.broker, TASK);
    if a == Read && s.client.batch != [] {
      var batch, rest := s.client.batch, s.client.batch[1..];
      assert batch[0] == (s.next + 0, buf[s.next + 0]);
      forall i | 0 <= i < |rest|
        ensures rest[i] == (s.next + 1 + i, buf[s.next + 1 + i])
      {
        assert rest[i] == batch[i + 1];
      }
      assert s.delivered + [batch[0].1] <= buf;
    }
  }

  lemma AskingKeeps(s: System, a: Action)
    requires Invariant(s) && (s.client.Polling? || s.client.Draining?)
    ensures Invariant(ClientStep(s, a))
  {
    FromExact(Buffer(s.broker, TASK), s.next);
    hide Dispatch, Buffer, Slot, From, NoGaps;
  }

  lemma CheckingKeeps(s: System, a: Action)
    requires Invariant(s) && s.client.Checking?
    ensures Invariant(ClientStep(s, a))
  {
    Effects(s.broker, ResultTry(TASK));
    hide Dispatch, Buffer, Slot, BufferOk;
  }

  lemma ClientKeeps(s: System, a: Action)
    requires Invariant(s)
    ensures Invariant(ClientStep(s, a))
  {
    match s.client
    case Reading(_) => ReadingKeeps(s, a);
    case Checking => CheckingKeeps(s, a);
    case Polling => AskingKeeps(s, a);
    case Draining => AskingKeeps(s, a);
    case _ =>
  }

  lemma SeedKeeps(s: System)
    requires Invariant(s)
    ensures Invariant(Step(s, SeedResult)) && Invariant(Step(s, SeedLocally))
  {
    var b := Dispatch(s.broker, Cancel(TASK)).0;
    Effects(s.broker, Cancel(TASK));
    Effects(b, ResultPut(TASK, CANCELLED));
    hide Dispatch, Buffer, Slot, BufferOk, ClientOk, WorkerStep, ClientStep;
  }

  lemma TakeKeeps(s: System)
    requires Invariant(s)
    ensures Invariant(Step(s, TakeResult))
  {
    Effects(s.broker, ResultTry(TASK));
    hide Dispatch, Buffer, Slot, BufferOk, ClientOk, WorkerStep, ClientStep;
  }

  lemma OtherKeeps(s: System, m: Msg)
    requires Invariant(s)
    ensures Invariant(Step(s, Other(m)))
  {
    Effects(s.broker, m);
    hide Dispatch, Buffer, Slot, BufferOk, ClientOk, ResultsOk, WorkerStep, ClientStep;
  }

  lemma StepKeeps(s: System, a: Action)
    requires Invariant(s)
    ensures Invariant(Step(s, a))
  {
    hide Invariant, WorkerStep, ClientStep, Post, Answer, Concerns;
    match a
    case SeedResult => SeedKeeps(s);
    case SeedLocally => SeedKeeps(s);
    case TakeResult => TakeKeeps(s);
    case Other(m) => OtherKeeps(s, m);
    case _ =>
      WorkerKeeps(s, a);
      ClientKeeps(WorkerStep(s, a), a);
  }

  lemma {:induction false} RunKeeps(actions: seq<Action>)
    ensures Invariant(Run(actions))
  {
    if actions != [] {
      RunKeeps(actions[..|actions| - 1]);
      StepKeeps(Run(actions[..|actions| - 1]), actions[|actions| - 1]);
    }
  }

  // ---- Safety over every run ----

  /** In every interleaving what the client delivered is a prefix of what the generator produced,
      in order and without repeats, and the gap error is never raised. */
  lemma DeliversInOrder(actions: seq<Action>)
    ensures Run(actions).delivered <= Run(actions).produced
    ensures Run(actions).client != Gap
  {
    RunKeeps(actions);
  }

  /** When the stream ends with the worker's own result, by success, error or throttling,
      everything that reached the broker has been delivered first: everything produced, exactly
      if no value was lost on its way to the broker. */
  lemma DeliversEverything(actions: seq<Action>)
    requires var s := Run(actions); s.client.Stopped? && s.client.final.status != Status.Cancelled
    ensures var s := Run(actions); s.delivered == Buffer(s.broker, TASK) && (s.delivered == s.produced <==> !s.lost)
  {
    RunKeeps(actions);
  }

  // ---- Progress ----

  /** After asking and reading, the next buffered value has been delivered. */
  lemma PollThenReadDelivers(actions: seq<Action>)
    requires var s := Run(actions); s.client == Polling && s.next < |Buffer(s.broker, TASK)|
    ensures var s := Run(actions);
      s.next == |s.delivered| && Step(Step(s, Poll), Read).delivered == s.delivered + [Buffer(s.broker, TASK)[s.next]]
  {
    RunKeeps(actions);
    var s := Run(actions);
    FromExact(Buffer(s.broker, TASK), s.next);
    hide Run, Buffer, From;
  }

  /** What the client's loop does next. */
  function Turn(s: System): Action {
    match s.client
    case Reading(_) => Read
    case Checking => Check
    case Draining => Drain
    case _ => Poll
  }

  /** The client alone, for some steps. */
  function Alone(s: System, n: nat): System
    decreases n
  {
    if n == 0 then s else Alone(Step(s, Turn(s)), n - 1)
  }

  /** The result as the client will find it. */
  function Known(s: System): Option<Envelope> {
    if s.envelope.Some? then s.envelope else Slot(s.broker)
  }

  function FromPolling(left: int): int {
    if left > 0 then left + 5 else 3
  }

  /** How many steps the client needs when a result is there and no more values come. */
  function StepsLeft(client: ClientPhase, left: int): int {
    match client
    case Polling => FromPolling(left)
    case Reading(batch) => |batch| + 1 + FromPolling(left - |batch|)
    case Checking => if left > 0 then left + 7 else 2
    case Draining => if left > 0 then left + 6 else 1
    case _ => 0
  }

  /** The worker is done, and the client knows or will find its result. */
  ghost predicate Settled(s: System, env: Envelope) {
    Invariant(s) && s.worker.Finished? && Known(s) == Some(env) && !s.client.Stopped?
  }

  /** One step further: the worker's side is as it was, and the client is a step closer to its
      end, or there. */
  ghost predicate Closer(s: System, t: System, env: Envelope) {
    var buf := Buffer(s.broker, TASK);
    && Buffer(t.broker, TASK) == buf && t.worker == s.worker && t.produced == s.produced && t.lost == s.lost
    && StepsLeft(t.client, |buf| - t.next) == StepsLeft(s.client, |buf| - s.next) - 1
    && if t.client.Stopped? then t.client.final == env && t.delivered == buf else Known(t) == Some(env)
  }

  lemma PollIsCloser(s: System, env: Envelope)
    requires Settled(s, env) && s.client.Polling?
    ensures Closer(s, ClientStep(s, Poll), env)
  {
    FromExact(Buffer(s.broker, TASK), s.next);
    hide Dispatch, Buffer, Slot, From, NoGaps, ResultsOk;
  }

  lemma ReadIsCloser(s: System, env: Envelope)
    requires Settled(s, env) && s.client.Reading?
    ensures Closer(s, ClientStep(s, Read), env)
  {
    var batch, buf := s.client.batch, Buffer(s.broker, TASK);
    if batch != [] {
      assert batch[0] == (s.next + 0, buf[s.next + 0]);
    }
    hide Dispatch, Buffer, Slot, BufferOk, ResultsOk;
  }

  lemma CheckIsCloser(s: System, env: Envelope)
    requires Settled(s, env) && s.client.Checking?
    ensures Closer(s, ClientStep(s, Check), env)
  {
    Effects(s.broker, ResultTry(TASK));
    hide Dispatch, Buffer, Slot, BufferOk, ResultsOk;
  }

  lemma DrainIsCloser(s: System, env: Envelope)
    requires Settled(s, env) && s.client.Draining?
    ensures Closer(s, ClientStep(s, Drain), env)
  {
    FromExact(Buffer(s.broker, TASK), s.next);
    hide Dispatch, Buffer, Slot, From, BufferOk;
  }

  lemma TurnSettles(s: System, env: Envelope)
    requires Settled(s, env)
    ensures Invariant(Step(s, Turn(s))) && Closer(s, Step(s, Turn(s)), env)
  {
    StepKeeps(s, Turn(s));
    WorkerIsDone(s);
    match s.client
    case Polling => PollIsCloser(s, env);
    case Reading(_) => ReadIsCloser(s, env);
    case Checking => CheckIsCloser(s, env);
    case Draining => DrainIsCloser(s, env);
    case _ =>
  }

  lemma WorkerIsDone(s: System)
    requires s.worker.Finished?
    ensures Step(s, Turn(s)) == ClientStep(s, Turn(s))
  {
    hide ClientStep;
  }

  lemma {:induction false} AloneCompletes(s: System, env: Envelope)
    requires Settled(s, env)
    ensures var buf := Buffer(s.broker, TASK);
      var n := StepsLeft(s.client, |buf| - s.next);
      && 0 < n <= |buf| + 7
      && var t := Alone(s, n);
         t.client == Stopped(env) && t.delivered == buf && t.produced == s.produced && t.lost == s.lost
    decreases StepsLeft(s.client, |Buffer(s.broker, TASK)| - s.next)
  {
    TurnSettles(s, env);
    StepsLeftBound(s);
    var t := Step(s, Turn(s));
    AloneStep(s, StepsLeft(s.client, |Buffer(s.broker, TASK)| - s.next));
    hide Step, Buffer, Turn, Invariant, Known, StepsLeft, Alone;
    if t.client.Stopped? {
      StoppedIsDone(t);
      AloneNothing(t);
    } else {
      AloneCompletes(t, env);
    }
  }

  lemma StoppedIsDone(t: System)
    requires t.client.Stopped?
    ensures forall left :: StepsLeft(t.client, left) == 0
  {
  }

  lemma AloneStep(s: System, n: int)
    requires n > 0
    ensures Alone(s, n) == Alone(Step(s, Turn(s)), n - 1)
  {
    hide Step, Turn;
  }

  lemma StepsLeftBound(s: System)
    requires Invariant(s) && !s.client.Stopped?
    ensures 0 < StepsLeft(s.client, |Buffer(s.broker, TASK)| - s.next) <= |Buffer(s.broker, TASK)| + 7
  {
    hide Buffer, Slot, BufferOk, ResultsOk;
  }

  /** The client neither cancels nor takes the result aside. */
  ghost predicate Undisturbed(actions: seq<Action>) {
    forall i :: 0 <= i < |actions| ==> !actions[i].SeedResult? && !actions[i].SeedLocally? && !actions[i].TakeResult?
  }

  /** The client finds the worker's own result, and stops with it when all is delivered. */
  ghost predicate OwnResult(s: System) {
    && Known(s) == (if s.worker.Finished? then Some(s.worker.env) else None)
    && (s.client.Stopped? ==> s.worker == Finished(s.client.final) && s.delivered == Buffer(s.broker, TASK))
  }

  lemma StepKeepsOwn(s: System, a: Action)
    requires Invariant(s) && OwnResult(s) && !a.SeedResult? && !a.SeedLocally? && !a.TakeResult?
    ensures OwnResult(Step(s, a))
  {
    if a.Other? {
      Effects(s.broker, a.m);
      hide Dispatch, Buffer, Slot, Invariant;
    } else {
      WorkerKeeps(s, a);
      WorkerKeepsOwn(s, a);
      hide Invariant, WorkerStep;
      ClientKeepsOwn(WorkerStep(s, a), a);
    }
  }

  lemma WorkerKeepsOwn(s: System, a: Action)
    requires Invariant(s) && OwnResult(s)
    ensures OwnResult(WorkerStep(s, a))
  {
    if s.worker.Finishing? {
      Effects(s.broker, ResultPut(TASK, s.worker.env));
    }
    if s.worker.Holding? {
      Effects(s.broker, YieldPut(TASK, s.sent, s.worker.text));
    }
    hide Dispatch, Buffer, Slot, Placed, Invariant;
  }

  lemma ClientKeepsOwn(s: System, a: Action)
    requires Invariant(s) && OwnResult(s)
    ensures OwnResult(ClientStep(s, a))
  {
    Effects(s.broker, ResultTry(TASK));
    FromExact(Buffer(s.broker, TASK), s.next);
    hide Dispatch, Buffer, Slot, From, BufferOk, ResultsOk;
  }

  lemma {:induction false} RunKeepsOwn(actions: seq<Action>)
    requires Undisturbed(actions)
    ensures OwnResult(Run(actions))
  {
    if actions != [] {
      var k := |actions| - 1;
      RunKeeps(actions[..k]);
      RunKeepsOwn(actions[..k]);
      StepKeepsOwn(Run(actions[..k]), actions[k]);
    }
  }

  /** From every state that is reached without a cancellation and in which the worker is done, the
      client alone comes to the end, within as many steps as there are values and seven more: it
      stops with the worker's own result, and has delivered everything in the broker, which is
      everything produced unless a value was lost. */
  lemma StreamEnds(actions: seq<Action>) returns (n: nat)
    requires Undisturbed(actions) && Run(actions).worker.Finished?
    ensures var s := Run(actions);
      var t := Alone(s, n);
      && n <= |Buffer(s.broker, TASK)| + 7
      && t.client == Stopped(s.worker.env) && t.delivered == Buffer(s.broker, TASK)
      && (t.delivered == s.produced <==> !s.lost)
  {
    RunKeeps(actions);
    RunKeepsOwn(actions);
    var s := Run(actions);
    hide Run, Alone, Buffer;
    if s.client.Stopped? {
      n := 0;
      AloneNothing(s);
    } else {
      n := StepsLeft(s.client, |Buffer(s.broker, TASK)| - s.next);
      AloneCompletes(s, s.worker.env);
    }
  }

  lemma AloneNothing(s: System)
    ensures Alone(s, 0) == s
  {
  }

  // ---- A whole stream ----

  /** The generator yields these values, each is sent, and it ends. */
  function Producing(texts: seq<string>): seq<Action> {
    if texts == [] then [] else Producing(texts[..|texts| - 1]) + [Yield(texts[|texts| - 1]), Send]
  }

  /** The worker has sent these values, and nothing else has happened. */
  ghost predicate HasProduced(s: System, texts: seq<string>) {
    && s.worker == Generating && s.sent == |texts| && s.produced == texts && !s.lost
    && Buffer(s.broker, TASK) == texts && s.client == Polling && Slot(s.broker).None? && s.envelope.None?
  }

  lemma {:induction false} ProducingRuns(texts: seq<string>)
    requires forall i :: 0 <= i < |texts| ==> texts[i] != ""
    ensures HasProduced(Run(Producing(texts)), texts) && Undisturbed(Producing(texts))
  {
    hide *;
    if texts == [] {
      NothingProduced();
    } else {
      var before, text := texts[..|texts| - 1], texts[|texts| - 1];
      var first := Producing(before);
      ProducingRuns(before);
      ProducingStep(texts);
      assert before + [text] == texts && first + [Yield(text)] + [Send] == first + [Yield(text), Send];
      RunOne(first, Yield(text));
      RunOne(first + [Yield(text)], Send);
      YieldAndSend(Run(first), before, text);
      TwoMore(first, Yield(text), Send);
    }
  }

  lemma ProducingStep(texts: seq<string>)
    requires texts != []
    ensures Producing(texts) == Producing(texts[..|texts| - 1]) + [Yield(texts[|texts| - 1]), Send]
  {
  }

  lemma TwoMore(actions: seq<Action>, a: Action, b: Action)
    requires Undisturbed(actions)
    requires !a.SeedResult? && !a.SeedLocally? && !a.TakeResult? && !b.SeedResult? && !b.SeedLocally? && !b.TakeResult?
    ensures Undisturbed(actions + [a, b])
  {
  }

  lemma NothingProduced()
    ensures HasProduced(Run(Producing([])), []) && Undisturbed(Producing([]))
  {
  }

  lemma YieldAndSend(s: System, before: seq<string>, text: string)
    requires HasProduced(s, before) && text != ""
    ensures HasProduced(Step(Step(s, Yield(text)), Send), before + [text])
  {
    Effects(s.broker, YieldPut(TASK, |before|, text));
    PlacedAtEnd(before, text);
    hide Dispatch, Buffer, Slot, Placed;
  }

  /** Every stream that nobody cancels and that loses nothing is delivered whole: the client ends
      with a success that counts the values, and has delivered just those. */
  lemma StreamsAll(texts: seq<string>) returns (n: nat)
    requires forall i :: 0 <= i < |texts| ==> texts[i] != ""
    ensures var s := Alone(Run(Producing(texts) + [Complete, Finish]), n);
      s.client == Stopped(Envelope(Succeeded, Some(|texts|), "")) && s.delivered == texts
  {
    hide *;
    var first := Producing(texts);
    var actions := first + [Complete, Finish];
    ProducingRuns(texts);
    RunOne(first, Complete);
    RunOne(first + [Complete], Finish);
    assert first + [Complete] + [Finish] == actions;
    CompleteAndFinish(Run(first), texts);
    TwoMore(first, Complete, Finish);
    n := StreamEnds(actions);
  }

  lemma CompleteAndFinish(s: System, texts: seq<string>)
    requires HasProduced(s, texts)
    ensures var t := Step(Step(s, Complete), Finish);
      t.worker == Finished(Envelope(Succeeded, Some(|texts|), "")) && Buffer(t.broker, TASK) == texts
  {
    Effects(s.broker, ResultPut(TASK, Envelope(Succeeded, Some(s.sent), "")));
    hide Dispatch, Buffer, Slot;
  }

  /** A result that says success counts exactly the values that reached the broker. */
  lemma SuccessCounts(actions: seq<Action>)
    requires var s := Run(actions); s.envelope.Some? && s.envelope.value.status == Succeeded
    ensures var s := Run(actions); s.envelope.value.streamYields == Some(|Buffer(s.broker, TASK)|)
  {
    RunKeeps(actions);
  }

  /** A value is lost when sending it raises before it arrives: the worker then reports the
      error as its own result, and the client ends without the value. */
  lemma LostValueIsNotDelivered(text: string)
    requires text != ""
    ensures var s := Run([Yield(text), SendFails(false), Finish, Poll, Check, Drain]);
      s.client.Stopped? && s.client.final.status == Failed && s.produced == [text] && s.delivered == []
  {
    var failed := Envelope(Failed, None, "");
    var sent := START.(results := map[TASK := failed]);
    var s3 := System(sent, Finished(failed), 0, [text], true, Polling, 0, [], None, false);
    WorkerGivesUp(text);
    RunThree([Yield(text), SendFails(false), Finish], Poll, Check, Drain);
    assert [Yield(text), SendFails(false), Finish] + [Poll, Check, Drain] == [Yield(text), SendFails(false), Finish, Poll, Check, Drain];
    var s4 := Step(s3, Poll);
    assert s4 == s3.(client := Checking);
    ClientGivesUp(s4, failed);
  }

  lemma RunThree(actions: seq<Action>, a: Action, b: Action, c: Action)
    ensures Run(actions + [a, b, c]) == Step(Step(Step(Run(actions), a), b), c)
  {
    hide *;
    RunOne(actions, a);
    RunOne(actions + [a], b);
    RunOne(actions + [a] + [b], c);
    assert actions + [a] + [b] + [c] == actions + [a, b, c];
  }

  lemma RunOne(actions: seq<Action>, a: Action)
    ensures Run(actions + [a]) == Step(Run(actions), a)
  {
    assert (actions + [a])[..|actions|] == actions;
  }

  lemma WorkerGivesUp(text: string)
    requires text != ""
    ensures Run([Yield(text), SendFails(false), Finish])
         == System(START.(results := map[TASK := Envelope(Failed, None, "")]), Finished(Envelope(Failed, None, "")), 0, [text], true,
                   Polling, 0, [], None, false)
  {
    RunThree([], Yield(text), SendFails(false), Finish);
    assert [] + [Yield(text), SendFails(false), Finish] == [Yield(text), SendFails(false), Finish];
  }

  lemma ClientGivesUp(s: System, env: Envelope)
    requires s.client == Checking && s.envelope.None? && Slot(s.broker) == Some(env) && env.streamYields.None?
    requires TASK !in s.broker.buffers
    ensures var t := Step(Step(s, Check), Drain);
      t.client == Stopped(env) && t.produced == s.produced && t.delivered == s.delivered
  {
    var t := Step(s, Check);
    Effects(s.broker, ResultTry(TASK));
    hide Dispatch;
    assert t.client == Draining && t.envelope == Some(env) && t.produced == s.produced && t.delivered == s.delivered;
    assert Items(t) == [];
  }
}
