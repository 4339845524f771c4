/** The broker: its operations in place, each tied to one atomic step on its state. */
module Broker {
  import opened Options

  type Id = string

  datatype Status = Succeeded | Failed | Cancelled | Throttled

  /** A result: its status and, for a finished stream, the number of values it yielded. */
  datatype Envelope = Envelope(status: Status, streamYields: Option<nat>, payload: string)

  datatype Msg =
    | Submit(data: string)
    | ResultPut(id: Id, env: Envelope)
    | ResultTry(id: Id)
    | Cancel(id: Id)
    | IsCancelled(id: Id)
    | YieldPut(id: Id, index: nat, text: string)
    | YieldGet(id: Id, start: nat)               // start is after_seq + 1
    | ScheduleCancel(id: Id)
    | ScheduleCheck(id: Id)
    | ThrottleCheck(fn: string, now: real)
    | ThrottleRecord(fn: string, seconds: real, now: real)

  datatype Reply = Done | Result(env: Option<Envelope>) | Flag(b: bool) | Yields(items: seq<(nat, string)>)

  /** The broker's state. An empty slot is a missing key; an empty text is a gap in a buffer. */
  datatype State = State(
    tasks: seq<string>, results: map<Id, Envelope>, cancelled: set<Id>, cancelledSchedules: set<Id>,
    buffers: map<Id, seq<string>>, throttles: map<string, real>)

  const START := State([], map[], {}, {}, map[], map[])

  function Buffer(s: State, id: Id): seq<string> {
    if id in s.buffers then s.buffers[id] else []
  }

  function Padding(n: nat): seq<string> {
    seq(n, _ => "")
  }

  /** The buffer with a text at an index, padded with gaps up to it. */
  function Placed(buf: seq<string>, index: nat, text: string): (r: seq<string>)
    ensures |r| == (if index < |buf| then |buf| else index + 1) && r[index] == text
    ensures forall i :: 0 <= i < |r| && i != index ==> r[i] == if i < |buf| then buf[i] else ""
  {
    if index < |buf| then buf[index := text] else buf + Padding(index - |buf|) + [text]
  }

  /** All texts from an index on, with their indices, leaving out the gaps. */
  function From(buf: seq<string>, start: nat): seq<(nat, string)>
    decreases |buf| - start
  {
    if start >= |buf| then []
    else (if buf[start] != "" then [(start, buf[start])] else []) + From(buf, start + 1)
  }

  lemma FromNext(buf: seq<string>, i: nat)
    requires i < |buf|
    ensures From(buf, i) == (if buf[i] != "" then [(i, buf[i])] else []) + From(buf, i + 1)
  {
  }

  lemma FromEnd(buf: seq<string>, i: nat)
    requires i >= |buf|
    ensures From(buf, i) == []
  {
  }

  /** One operation of _dispatch. */
  function Dispatch(s: State, m: Msg): (State, Reply) {
    match m
    case Submit(data) => (s.(tasks := s.tasks + [data]), Done)
    case ResultPut(id, env) => (if id in s.results then s else s.(results := s.results[id := env]), Done)
    case ResultTry(id) =>
      if id in s.results then (s.(results := map k | k in s.results && k != id :: s.results[k]), Result(Some(s.results[id])))
      else (s, Result(None))
    case Cancel(id) => (s.(cancelled := s.cancelled + {id}), Done)
    case IsCancelled(id) => (s, Flag(id in s.cancelled))
    case YieldPut(id, index, text) => (s.(buffers := s.buffers[id := Placed(Buffer(s, id), index, text)]), Done)
    case YieldGet(id, start) => (s, Yields(From(Buffer(s, id), start)))
    case ScheduleCancel(id) => (s.(cancelledSchedules := s.cancelledSchedules + {id}), Done)
    case ScheduleCheck(id) => (s, Flag(id in s.cancelledSchedules))
    case ThrottleCheck(fn, now) =>
      if fn in s.throttles && now < s.throttles[fn] then (s, Flag(false))
      else (s.(throttles := map k | k in s.throttles && k != fn :: s.throttles[k]), Flag(true))
    case ThrottleRecord(fn, seconds, now) => (s.(throttles := s.throttles[fn := now + seconds]), Done)
  }

  class BrokerServer {
    var tasks: seq<string>
    var results: map<Id, Envelope>
    var cancelled: set<Id>
    var cancelledSchedules: set<Id>
    var buffers: map<Id, seq<string>>
    var throttles: map<string, real>

    function Now(): State
      reads this
    {
      State(tasks, results, cancelled, cancelledSchedules, buffers, throttles)
    }

    constructor ()
      ensures Now() == START
    {
      tasks, results, cancelled, cancelledSchedules, buffers, throttles := [], map[], {}, {}, map[], map[];
    }

    /** Pads the task's buffer up to the index and writes the text there. */
    method PutYield(id: Id, index: nat, text: string)
      modifies this`buffers
      ensures buffers == old(buffers)[id := Placed(Buffer(old(Now()), id), index, text)]
    {
      var buf := if id in buffers then buffers[id] else [];
      hide Placed;
      ghost var before := buf;
      while |buf| <= index
        invariant |before| <= |buf| <= if |before| > index then |before| else index + 1
        invariant forall i :: 0 <= i < |buf| ==> buf[i] == if i < |before| then before[i] else ""
        decreases index + 1 - |buf|
      {
        buf := buf + [""];
      }
      assert buf[index := text] == Placed(before, index, text);
      buffers := buffers[id := buf[index := text]];
    }

    /** Collects the texts from an index on. */
    method GetYields(id: Id, start: nat) returns (items: seq<(nat, string)>)
      ensures items == From(Buffer(Now(), id), start)
    {
      hide From;
      var buf := if id in buffers then buffers[id] else [];
      items := [];
      var i := start;
      while i < |buf|
        invariant items + From(buf, i) == From(buf, start)
        decreases |buf| - i
      {
        FromNext(buf, i);
        if buf[i] != "" {
          items := items + [(i, buf[i])];
        }
        i := i + 1;
      }
      FromEnd(buf, i);
    }

    /** _dispatch: every message is one step. */
    method Handle(m: Msg) returns (reply: Reply)
      modifies this
      ensures (Now(), reply) == Dispatch(old(Now()), m)
    {
      match m {
        case Submit(data) =>
          tasks := tasks + [data];
          reply := Done;
        case ResultPut(id, env) =>
          if id !in results {
            results := results[id := env];
          }
          reply := Done;
        case ResultTry(id) =>
          if id in results {
            reply := Result(Some(results[id]));
            results := map k | k in results && k != id :: results[k];
          } else {
            reply := Result(None);
          }
        case Cancel(id) =>
          cancelled := cancelled + {id};
          reply := Done;
        case IsCancelled(id) =>
          reply := Flag(id in cancelled);
        case YieldPut(id, index, text) =>
          PutYield(id, index, text);
          reply := Done;
        case YieldGet(id, start) =>
          var items := GetYields(id, start);
          reply := Yields(items);
        case ScheduleCancel(id) =>
          cancelledSchedules := cancelledSchedules + {id};
          reply := Done;
        case ScheduleCheck(id) =>
          reply := Flag(id in cancelledSchedules);
        case ThrottleCheck(fn, now) =>
          if fn in throttles && now < throttles[fn] {
            reply := Flag(false);
          } else {
            throttles := map k | k in throttles && k != fn :: throttles[k];
            reply := Flag(true);
          }
        case ThrottleRecord(fn, seconds, now) =>
          throttles := throttles[fn := now + seconds];
          reply := Done;
      }
    }
  }

  // ---- The result slot over any run ----

  function Continue(s: State, msgs: seq<Msg>): State {
    if msgs == [] then s else Dispatch(Continue(s, msgs[..|msgs| - 1]), msgs[|msgs| - 1]).0
  }

  /** The earliest result put for a task in a run. */
  function FirstPut(msgs: seq<Msg>, id: Id): Option<Envelope> {
    if msgs == [] then None
    else
      var before := FirstPut(msgs[..|msgs| - 1], id);
      var m := msgs[|msgs| - 1];
      if before.Some? then before else if m.ResultPut? && m.id == id then Some(m.env) else None
  }

  /** Nobody has taken a result for the task yet: every reading so far came too early. */
  ghost predicate NotYetRead(msgs: seq<Msg>, id: Id) {
    forall i :: 0 <= i < |msgs| && msgs[i] == ResultTry(id) ==> FirstPut(msgs[..i], id).None?
  }

  /** Until it is read, the slot holds the earliest result, whatever is put after it. */
  lemma {:induction false} SlotHoldsFirst(msgs: seq<Msg>, id: Id)
    requires NotYetRead(msgs, id)
    ensures var s := Continue(START, msgs);
      FirstPut(msgs, id) == if id in s.results then Some(s.results[id]) else None
  {
    if msgs != [] {
      var k := |msgs| - 1;
      var before := msgs[..k];
      forall i | 0 <= i < k && before[i] == ResultTry(id)
        ensures FirstPut(before[..i], id).None?
      {
        assert before[..i] == msgs[..i] && msgs[i] == ResultTry(id);
      }
      SlotHoldsFirst(before, id);
      if msgs[k] == ResultTry(id) {
        assert FirstPut(msgs[..k], id).None?;
      }
    }
  }

  /** The first reader that gets a result gets the earliest one put, whatever order the client's
      cancellation and the worker's completion took. */
  lemma FirstReaderGetsFirst(msgs: seq<Msg>, id: Id)
    requires NotYetRead(msgs, id)
    ensures Dispatch(Continue(START, msgs), ResultTry(id)).1 == Result(FirstPut(msgs, id))
  {
    SlotHoldsFirst(msgs, id);
  }

  // ---- Cooldowns and cancellations over any run ----

  /** A message leaves a cooldown alone: it neither starts it anew nor asks after it has ended. */
  predicate LeavesCooldown(m: Msg, fn: string, expiry: real) {
    match m
    case ThrottleCheck(f, now) => f == fn ==> now < expiry
    case ThrottleRecord(f, _, _) => f != fn
    case _ => true
  }

  /** From a recorded cooldown to its end every check is refused, and the first check after it
      is allowed, whatever else happens in between. */
  lemma {:induction false} CooldownHolds(s: State, fn: string, seconds: real, start: real, msgs: seq<Msg>, now: real)
    requires forall m :: m in msgs ==> LeavesCooldown(m, fn, start + seconds)
    ensures var recorded := Dispatch(s, ThrottleRecord(fn, seconds, start)).0;
      var later := Continue(recorded, msgs);
      && fn in later.throttles && later.throttles[fn] == start + seconds
      && Dispatch(later, ThrottleCheck(fn, now)).1 == Flag(now >= start + seconds)
  {
    if msgs != [] {
      var k := |msgs| - 1;
      var last := msgs[k];
      assert last in msgs;
      assert forall m :: m in msgs[..k] ==> m in msgs;
      assert LeavesCooldown(last, fn, start + seconds);
      CooldownHolds(s, fn, seconds, start, msgs[..k], now);
    }
  }

  /** A cancellation is never taken back, of a task or of a schedule. */
  lemma {:induction false} CancellationsStay(s: State, msgs: seq<Msg>)
    ensures forall id :: id in s.cancelled || Cancel(id) in msgs ==> id in Continue(s, msgs).cancelled
    ensures forall id :: id in s.cancelledSchedules || ScheduleCancel(id) in msgs ==> id in Continue(s, msgs).cancelledSchedules
  {
    if msgs != [] {
      var k := |msgs| - 1;
      CancellationsStay(s, msgs[..k]);
      OneCancellation(Continue(s, msgs[..k]), msgs[k]);
      assert msgs == msgs[..k] + [msgs[k]];
      hide Dispatch;
    }
  }

  lemma OneCancellation(s: State, m: Msg)
    ensures forall id :: id in s.cancelled || m == Cancel(id) ==> id in Dispatch(s, m).0.cancelled
    ensures forall id :: id in s.cancelledSchedules || m == ScheduleCancel(id) ==> id in Dispatch(s, m).0.cancelledSchedules
  {
  }

  // ---- What the flags and the queue tell over any run ----

  /** The tasks of a run of messages, in order. */
  function Submitted(msgs: seq<Msg>): seq<string> {
    if msgs == [] then []
    else
      var m := msgs[|msgs| - 1];
      Submitted(msgs[..|msgs| - 1]) + if m.Submit? then [m.data] else []
  }

  /** Everything submitted is queued, in order. */
  lemma {:induction false} QueuedInOrder(msgs: seq<Msg>)
    ensures Continue(START, msgs).tasks == Submitted(msgs)
  {
    if msgs != [] {
      QueuedInOrder(msgs[..|msgs| - 1]);
    }
  }

  /** The flags are raised by exactly their cancellations. */
  lemma {:induction false} FlagsExact(msgs: seq<Msg>, id: Id)
    ensures Dispatch(Continue(START, msgs), IsCancelled(id)).1 == Flag(Cancel(id) in msgs)
    ensures Dispatch(Continue(START, msgs), ScheduleCheck(id)).1 == Flag(ScheduleCancel(id) in msgs)
  {
    if msgs != [] {
      var k := |msgs| - 1;
      FlagsExact(msgs[..k], id);
      assert msgs == msgs[..k] + [msgs[k]];
      OneFlag(Continue(START, msgs[..k]), msgs[k], id);
      hide Dispatch;
    }
  }

  lemma OneFlag(s: State, m: Msg, id: Id)
    ensures Dispatch(s, IsCancelled(id)).1 == Flag(id in s.cancelled)
    ensures Dispatch(s, ScheduleCheck(id)).1 == Flag(id in s.cancelledSchedules)
    ensures id in Dispatch(s, m).0.cancelled <==> id in s.cancelled || m == Cancel(id)
    ensures id in Dispatch(s, m).0.cancelledSchedules <==> id in s.cancelledSchedules || m == ScheduleCancel(id)
  {
  }

  /** Without a recorded cooldown a function is allowed. */
  lemma {:induction false} NoCooldownAllows(msgs: seq<Msg>, fn: string, now: real)
    requires forall i :: 0 <= i < |msgs| ==> !(msgs[i].ThrottleRecord? && msgs[i].fn == fn)
    ensures fn !in Continue(START, msgs).throttles && Dispatch(Continue(START, msgs), ThrottleCheck(fn, now)).1 == Flag(true)
  {
    if msgs != [] {
      var k := |msgs| - 1;
      NoCooldownAllows(msgs[..k], fn, now);
      OneThrottle(Continue(START, msgs[..k]), msgs[k], fn, now);
      hide Dispatch;
    } else {
      OneThrottle(START, ThrottleCheck(fn, now), fn, now);
      hide Dispatch;
    }
  }

  lemma OneThrottle(s: State, m: Msg, fn: string, now: real)
    requires fn !in s.throttles && !(m.ThrottleRecord? && m.fn == fn)
    ensures fn !in Dispatch(s, m).0.throttles
    ensures Dispatch(s, ThrottleCheck(fn, now)).1 == Flag(true)
    ensures Dispatch(Dispatch(s, m).0, ThrottleCheck(fn, now)).1 == Flag(true)
  {
  }

  /** Taking a result empties the slot: the next reader gets nothing, until another result is put. */
  lemma TakenOnce(s: State, id: Id, env: Envelope)
    ensures var taken := Dispatch(s, ResultTry(id)).0;
      && Dispatch(taken, ResultTry(id)).1 == Result(None)
      && Dispatch(Dispatch(taken, ResultPut(id, env)).0, ResultTry(id)).1 == Result(Some(env))
  {
  }
}
