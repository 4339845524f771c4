/** One task on the worker: which results it puts, and what it submits again. */
module Outcomes {
  import opened Options
  import opened Broker

  datatype Recurrence = Recurrence(interval: real, deadline: Option<real>, remaining: Option<int>, schedule: Id)

  datatype Task = Task(id: Id, fn: string, throttle: Option<real>, scheduledAt: Option<real>, recurrence: Option<Recurrence>)

  /** Something raised: an Exception whose text can be told; one whose own __str__ raises, so that
      no failure can be made of it; or anything that is not an Exception, which no handler
      catches. */
  datatype Thrown = Told(error: string) | Untellable | Uncaught

  /** A payload that was accepted, or rejected with the identifier that could be read from it. */
  datatype Received = Accepted(task: Task) | Rejected(id: Option<Id>, error: Thrown)

  /** The answer of a backend check, or of the inspection of the function, which runs the code of
      the whole program. */
  datatype Answer = Yes | No | Raises(error: Thrown)

  /** WasCancelled is the one error outside Exception that is caught. */
  datatype Execution = Value(payload: string) | Streamed(count: nat) | Threw(error: Thrown) | WasCancelled

  /** What becomes of a result that is sent: it arrives; it does not, and sending raises; or it
      arrives, and notifying raises. */
  datatype Sending = Arrives | IsLost | ArrivesThenRaises

  /** Later calls of the backend, which may raise without an effect. */
  datatype Call = RecordThrottle | CancelSchedule | AskSchedule | SubmitNext

  /** Everything that is decided outside: the answers of the backend, the function's behaviour,
      what writing its result as JSON raises, if anything, whether each progress it reports can be
      written, what becomes of the result, the calls that raise, and the clock. */
  datatype World = World(
    cancelled: Answer, allowed: Answer, streaming: Answer, execution: Execution, writing: Option<Thrown>,
    progress: seq<bool>, sending: Sending, fails: set<Call>, now: real, scheduleCancelled: bool)

  class Backend {
    var results: seq<(Id, Envelope)>
    var submitted: seq<Task>
    var cancelledSchedules: set<Id>
    var cooldowns: seq<(string, real)>

    constructor ()
      ensures results == [] && submitted == [] && cancelledSchedules == {} && cooldowns == []
    {
      results, submitted, cancelledSchedules, cooldowns := [], [], {}, [];
    }

    /** send_result and notify_result. */
    method SendResult(id: Id, env: Envelope, sending: Sending) returns (raised: bool)
      modifies this`results
      ensures results == if sending == IsLost then old(results) else old(results) + [(id, env)]
      ensures raised <==> sending != Arrives
    {
      if sending != IsLost {
        results := results + [(id, env)];
      }
      raised := sending != Arrives;
    }

    /** Sends a failure, if one can be made of the error. */
    method Report(id: Id, error: Thrown, sending: Sending)
      modifies this`results
      ensures results == if error.Told? && sending != IsLost then old(results) + [(id, Failure(error.error))] else old(results)
    {
      if error.Told? {
        var _ := SendResult(id, Failure(error.error), sending);
      }
    }
  }

  function Failure(error: string): Envelope {
    Envelope(Failed, None, error)
  }

  /** The task got as far as being executed. */
  predicate Executes(t: Task, w: World) {
    && w.cancelled == No
    && (t.throttle.Some? ==> w.allowed == Yes)
    && !w.streaming.Raises?
  }

  /** The last progress that the function reported, if any, can be written as JSON: it is sent
      again before the result. */
  predicate Flushes(w: World) {
    w.progress != [] ==> w.progress[|w.progress| - 1]
  }

  /** What the execution raised, and what writing its result did, can be told. */
  predicate CanBeTold(w: World) {
    match w.execution
    case Value(_) => w.writing.Some? ==> w.writing.value.Told?
    case Threw(error) => error.Told?
    case _ => true
  }

  /** The failure that stops a task before it is executed, or that rejects it, can be told. */
  predicate StopCanBeTold(t: Task, w: World) {
    if w.cancelled.Raises? then w.cancelled.error.Told?
    else if t.throttle.Some? && w.allowed.Raises? then w.allowed.error.Told?
    else if t.throttle.Some? && w.allowed == No then true
    else w.streaming.Raises? ==> w.streaming.error.Told?
  }

  /** A task gets a result unless sending it fails, what was raised cannot be told, its
      cancellation was seen before the start, or it was executed and its last progress cannot be
      written. */
  predicate GetsResult(received: Received, w: World) {
    w.sending != IsLost &&
    match received
    case Rejected(id, error) => id.Some? && error.Told?
    case Accepted(t) =>
      w.cancelled != Yes && if Executes(t, w) then CanBeTold(w) && Flushes(w) else StopCanBeTold(t, w)
  }

  /** The result of an execution: success only for a value that can be written, or for a stream
      that ended. */
  function ResultOf(w: World): Envelope
    requires CanBeTold(w)
  {
    match w.execution
    case Value(payload) => if w.writing.None? then Envelope(Succeeded, None, payload) else Failure(w.writing.value.error)
    case Streamed(count) => Envelope(Succeeded, Some(count), "")
    case Threw(error) => Failure(error.error)
    case WasCancelled => Envelope(Status.Cancelled, None, "")
  }

  predicate Exhausted(r: Recurrence, nextAt: real) {
    (r.deadline.Some? && nextAt > r.deadline.value) || (r.remaining.Some? && r.remaining.value <= 1)
  }

  /** An execution whose result was sent without raising. */
  predicate Finishes(t: Task, w: World) {
    Executes(t, w) && CanBeTold(w) && Flushes(w) && w.sending == Arrives
  }

  predicate Throttles(t: Task, w: World) {
    Finishes(t, w) && t.throttle.Some? && ResultOf(w).status == Succeeded
  }

  predicate CoolsDown(t: Task, w: World) {
    Throttles(t, w) && RecordThrottle !in w.fails
  }

  /** The recurrence is looked at. */
  predicate Recurs(t: Task, w: World) {
    Finishes(t, w) && (Throttles(t, w) ==> RecordThrottle !in w.fails) && t.recurrence.Some?
  }

  /** The last occurrence of a recurring task. */
  predicate Exhausts(t: Task, w: World) {
    Recurs(t, w) && Exhausted(t.recurrence.value, w.now + t.recurrence.value.interval) && CancelSchedule !in w.fails
  }

  /** The task is submitted again: it recurs, and is neither exhausted nor cancelled. */
  predicate Resubmits(t: Task, w: World) {
    && Recurs(t, w) && !Exhausted(t.recurrence.value, w.now + t.recurrence.value.interval)
    && AskSchedule !in w.fails && !w.scheduleCancelled && SubmitNext !in w.fails
  }

  /** The occurrence that follows: an interval later, with one run less. */
  predicate IsNext(t: Task, w: World, next: Task)
    requires t.recurrence.Some?
  {
    var r := t.recurrence.value;
    && next.scheduledAt == Some(w.now + r.interval) && next.fn == t.fn && next.throttle == t.throttle
    && next.recurrence == Some(r.(remaining := if r.remaining.Some? then Some(r.remaining.value - 1) else None))
  }

  /** The end of an execution: the last progress, the result, the cooldown, the next
      occurrence; what raises ends it. */
  method Conclude(t: Task, w: World, b: Backend)
    requires Executes(t, w)
    modifies b
    ensures b.results == if GetsResult(Accepted(t), w) then old(b.results) + [(t.id, ResultOf(w))] else old(b.results)
    ensures |b.submitted| == |old(b.submitted)| + (if Resubmits(t, w) then 1 else 0) && old(b.submitted) <= b.submitted
    ensures Resubmits(t, w) ==> IsNext(t, w, b.submitted[|old(b.submitted)|])
    ensures b.cancelledSchedules == if Exhausts(t, w) then old(b.cancelledSchedules) + {t.recurrence.value.schedule} else old(b.cancelledSchedules)
    ensures b.cooldowns == if CoolsDown(t, w) then old(b.cooldowns) + [(t.fn, t.throttle.value)] else old(b.cooldowns)
  {
    var env: Envelope;
    match w.execution {
      case Value(payload) => env := Envelope(Succeeded, None, payload);
      case Streamed(count) => env := Envelope(Succeeded, Some(count), "");
      case WasCancelled => env := Envelope(Status.Cancelled, None, "");
      case Threw(error) =>
        if !error.Told? {
          return;
        }
        env := Failure(error.error);
    }
    if w.progress != [] && !w.progress[|w.progress| - 1] {
      return;
    }
    if w.execution.Value? && w.writing.Some? {
      if !w.writing.value.Told? {
        return;
      }
      env := Failure(w.writing.value.error);
    }
    var raised := b.SendResult(t.id, env, w.sending);
    if raised {
      return;
    }
    if t.throttle.Some? && env.status == Succeeded {
      if RecordThrottle in w.fails {
        return;
      }
      b.cooldowns := b.cooldowns + [(t.fn, t.throttle.value)];
    }
    if t.recurrence.Some? {
      Reschedule(t, w, b);
    }
  }

  /** The next occurrence, or the end of the schedule. */
  method Reschedule(t: Task, w: World, b: Backend)
    requires Recurs(t, w)
    modifies b`submitted, b`cancelledSchedules
    ensures |b.submitted| == |old(b.submitted)| + (if Resubmits(t, w) then 1 else 0) && old(b.submitted) <= b.submitted
    ensures Resubmits(t, w) ==> IsNext(t, w, b.submitted[|old(b.submitted)|])
    ensures b.cancelledSchedules == if Exhausts(t, w) then old(b.cancelledSchedules) + {t.recurrence.value.schedule} else old(b.cancelledSchedules)
  {
    var r := t.recurrence.value;
    var nextAt := w.now + r.interval;
    var deadlineExceeded := r.deadline.Some? && nextAt > r.deadline.value;
    var runsExhausted := r.remaining.Some? && r.remaining.value <= 1;
    if deadlineExceeded || runsExhausted {
      if CancelSchedule !in w.fails {
        b.cancelledSchedules := b.cancelledSchedules + {r.schedule};
      }
    } else if AskSchedule !in w.fails && !w.scheduleCancelled && SubmitNext !in w.fails {
      var remaining := if r.remaining.Some? then Some(r.remaining.value - 1) else None;
      b.submitted := b.submitted + [Task("", t.fn, t.throttle, Some(nextAt), Some(r.(remaining := remaining)))];
    }
  }

  /** A run of a ready task. */
  method ExecuteTask(t: Task, w: World, b: Backend)
    modifies b
    ensures if GetsResult(Accepted(t), w)
            then |b.results| == |old(b.results)| + 1 && old(b.results) <= b.results && b.results[|old(b.results)|].0 == t.id
            else b.results == old(b.results)
    ensures Executes(t, w) && GetsResult(Accepted(t), w) ==> b.results == old(b.results) + [(t.id, ResultOf(w))]
    ensures !Executes(t, w) && GetsResult(Accepted(t), w) ==>
      b.results[|old(b.results)|].1.status == if w.cancelled == No && t.throttle.Some? && w.allowed == No then Throttled else Failed
    ensures |b.submitted| == |old(b.submitted)| + (if Resubmits(t, w) then 1 else 0) && old(b.submitted) <= b.submitted
    ensures Resubmits(t, w) ==> IsNext(t, w, b.submitted[|old(b.submitted)|])
    ensures b.cancelledSchedules == if Exhausts(t, w) then old(b.cancelledSchedules) + {t.recurrence.value.schedule} else old(b.cancelledSchedules)
    ensures b.cooldowns == if CoolsDown(t, w) then old(b.cooldowns) + [(t.fn, t.throttle.value)] else old(b.cooldowns)
  {
    if w.cancelled.Raises? {
      b.Report(t.id, w.cancelled.error, w.sending);
      return;
    }
    if w.cancelled == Yes {
      return;
    }
    if t.throttle.Some? {
      if w.allowed.Raises? {
        b.Report(t.id, w.allowed.error, w.sending);
        return;
      }
      if w.allowed == No {
        var _ := b.SendResult(t.id, Envelope(Throttled, None, ""), w.sending);
        return;
      }
    }
    if w.streaming.Raises? {
      b.Report(t.id, w.streaming.error, w.sending);
      return;
    }
    Conclude(t, w, b);
  }

  /** A task gets exactly one result or none, and one exactly when GetsResult holds. */
  method HandleTask(received: Received, w: World, b: Backend)
    modifies b
    ensures |b.results| == |old(b.results)| + (if GetsResult(received, w) then 1 else 0)
    ensures old(b.results) <= b.results
    ensures forall i :: |old(b.results)| <= i < |b.results| ==>
      b.results[i].0 == match received case Accepted(t) => t.id case Rejected(id, _) => id.value
    ensures |b.submitted| == |old(b.submitted)| + match received
      case Accepted(t) => (if Resubmits(t, w) then 1 else 0)
      case Rejected(_, _) => 0
  {
    match received {
      case Rejected(id, error) =>
        if id.Some? {
          b.Report(id.value, error, w.sending);
        }
      case Accepted(t) =>
        ExecuteTask(t, w, b);
    }
  }

  /** A world in which nothing goes wrong but what is given. */
  function OnlyWrong(execution: Execution, progress: seq<bool>): World {
    World(No, Yes, No, execution, None, progress, Arrives, {}, 0.0, false)
  }

  /** A task that reports two progresses, the last of which JSON cannot hold, and then returns a
      value: it gets no result at all, and does not recur. */
  method BadProgressIsSilent(t: Task) returns (b: Backend)
    ensures fresh(b) && b.results == [] && b.submitted == []
  {
    b := new Backend();
    HandleTask(Accepted(t), OnlyWrong(Value("1"), [true, false]), b);
  }

  /** The same for a function that raises something other than an Exception. */
  method UncaughtIsSilent(t: Task) returns (b: Backend)
    ensures fresh(b) && b.results == [] && b.submitted == []
  {
    b := new Backend();
    HandleTask(Accepted(t), OnlyWrong(Threw(Uncaught), []), b);
  }

  /** The same for a function that raises an Exception whose text cannot be made, and for one
      whose program raises it while it is built. */
  method UntellableIsSilent(t: Task, whileBuilt: bool) returns (b: Backend)
    ensures fresh(b) && b.results == [] && b.submitted == []
  {
    b := new Backend();
    var w := OnlyWrong(Threw(Untellable), []);
    HandleTask(Accepted(t), if whileBuilt then w.(streaming := Raises(Untellable)) else w, b);
  }

  // ---- Retries ----

  datatype Attempt = Success(payload: string) | Failing(error: Thrown)

  datatype Policy = Returned(payload: string, attempts: nat) | Raised(error: Thrown, attempts: nat) | NothingToRaise

  /** An attempt after which there may be another one. */
  predicate Retried(a: Attempt) {
    a.Failing? && a.error != Uncaught
  }

  /** Runs up to 1 + retries attempts: the first success is returned; an error outside Exception
      is raised at once, any other one when it is the last; without any attempt there is nothing
      to raise. */
  method RunWithPolicy(attempt: nat -> Attempt, retries: int) returns (r: Policy)
    ensures match r
      case Returned(payload, n) =>
        && 1 <= n <= 1 + retries && attempt(n - 1) == Success(payload)
        && forall i :: 0 <= i < n - 1 ==> Retried(attempt(i))
      case Raised(error, n) =>
        && 1 <= n <= 1 + retries && attempt(n - 1) == Failing(error) && (n == 1 + retries || error == Uncaught)
        && forall i :: 0 <= i < n - 1 ==> Retried(attempt(i))
      case NothingToRaise => retries < 0
  {
    r := NothingToRaise;
    var i := 0;
    while i < 1 + retries
      invariant 0 <= i && (retries < 0 ==> i == 0) && (retries >= 0 ==> i <= 1 + retries)
      invariant forall j: nat :: j < i ==> Retried(attempt(j))
      invariant r == if i == 0 then NothingToRaise else Raised(attempt(i - 1).error, i)
    {
      match attempt(i) {
        case Success(payload) => return Returned(payload, i + 1);
        case Failing(error) =>
          r := Raised(error, i + 1);
          if error == Uncaught {
            return;
          }
      }
      i := i + 1;
    }
  }
}
