/** A recurring schedule: from the first submission through every re-enqueue, in any run. */
module Schedules {
  import opened Options

  /** What submit_recurring was asked for. */
  datatype Config = Config(start: real, interval: real, runFor: Option<real>, maxRuns: Option<int>)

  /** The checks of run(run_every=...) before a schedule is submitted, with an hour as the limit
      where none was given; None stands for ValueError. */
  function Configure(start: real, interval: real, runFor: Option<real>, maxRuns: Option<int>): Option<Config> {
    var limit := if runFor.None? && maxRuns.None? then Some(3600.0) else runFor;
    if (limit.Some? && limit.value <= 0.0) || (maxRuns.Some? && maxRuns.value <= 0) then None
    else Some(Config(start, interval, limit, maxRuns))
  }

  function Deadline(c: Config): Option<real> {
    if c.runFor.Some? then Some(c.start + c.runFor.value) else None
  }

  datatype Occurrence = Occurrence(scheduledAt: real, remaining: Option<int>)

  /** In the broker's queue; with a worker, before its time; executing; executed, with the time
      of the next occurrence; checked against cancellation, about to be submitted. */
  datatype Phase = Queued | Waiting | Running | Deciding(nextAt: real) | Submitting

  datatype Live = Live(phase: Phase, task: Occurrence)

  /** taken: the occurrences that workers have received so far. */
  datatype System = System(
    now: real, live: seq<Live>, taken: seq<Occurrence>, executions: nat, cancelled: bool, executionsAtCancel: nat)

  function Initial(c: Config, now: real): System {
    System(now, [Live(Queued, Occurrence(c.start, c.maxRuns))], [], 0, false, 0)
  }

  datatype Action =
    | Tick(seconds: real)
    | Take(i: nat)          // a worker receives the task
    | Requeue(i: nat)       // the worker was gone; the broker keeps the task
    | PutBack(i: nat)       // a fault: a task is queued again although a worker received it before
    | Start(i: nat)         // its time has come
    | Finish(i: nat)        // the result is sent; the next time is computed
    | Decide(i: nat)        // exhausted, cancelled, or to be submitted again
    | Resubmit(i: nat)
    | Lose(i: nat)          // rejected, cancelled, throttled or crashed: the chain ends here
    | CancelSchedule

  function Without(live: seq<Live>, i: nat): seq<Live>
    requires i < |live|
  {
    live[..i] + live[i + 1..]
  }

  predicate DeadlineExceeded(c: Config, nextAt: real) {
    Deadline(c).Some? && nextAt > Deadline(c).value
  }

  predicate RunsExhausted(o: Occurrence) {
    o.remaining.Some? && o.remaining.value <= 1
  }

  function NextOccurrence(o: Occurrence, nextAt: real): Occurrence {
    Occurrence(nextAt, if o.remaining.Some? then Some(o.remaining.value - 1) else None)
  }

  function MarkCancelled(s: System): System {
    if s.cancelled then s else s.(cancelled := true, executionsAtCancel := s.executions)
  }

  /** One step on occurrence i. */
  function Advance(c: Config, s: System, a: Action, i: nat): System
    requires i < |s.live|
  {
    var o := s.live[i].task;
    match (s.live[i].phase, a)
    case (Queued, Take(_)) => s.(live := s.live[i := Live(Waiting, o)], taken := s.taken + [o])
    case (Waiting, Requeue(_)) => s.(live := s.live[i := Live(Queued, o)])
    case (Waiting, Start(_)) =>
      if s.now >= o.scheduledAt then s.(live := s.live[i := Live(Running, o)], executions := s.executions + 1) else s
    case (Running, Finish(_)) => s.(live := s.live[i := Live(Deciding(s.now + c.interval), o)])
    case (Deciding(nextAt), Decide(_)) =>
      if DeadlineExceeded(c, nextAt) || RunsExhausted(o) then MarkCancelled(s).(live := Without(s.live, i))
      else if s.cancelled then s.(live := Without(s.live, i))
      else s.(live := s.live[i := Live(Submitting, NextOccurrence(o, nextAt))])
    case (Submitting, Resubmit(_)) => s.(live := s.live[i := Live(Queued, o)])
    case (_, Lose(_)) => s.(live := Without(s.live, i))
    case _ => s
  }

  /** A task that a worker received is queued again, at once or much later. */
  predicate Repeats(s: System, a: Action) {
    a.PutBack? && a.i < |s.taken|
  }

  function Step(c: Config, s: System, a: Action): System {
    match a
    case Tick(seconds) => if seconds >= 0.0 then s.(now := s.now + seconds) else s
    case CancelSchedule => MarkCancelled(s)
    case PutBack(i) => if i < |s.taken| then s.(live := s.live + [Live(Queued, s.taken[i])]) else s
    case _ => if a.i < |s.live| then Advance(c, s, a, a.i) else s
  }

  function Run(c: Config, now: real, actions: seq<Action>): System {
    if actions == [] then Initial(c, now)
    else Step(c, Run(c, now, actions[..|actions| - 1]), actions[|actions| - 1])
  }

  ghost predicate NeverRepeats(c: Config, now: real, actions: seq<Action>) {
    forall k :: 0 <= k < |actions| ==> !Repeats(Run(c, now, actions[..k]), actions[k])
  }

  /** No task is queued again while an occurrence is alive. */
  ghost predicate NeverOverlaps(c: Config, now: real, actions: seq<Action>) {
    forall k :: 0 <= k < |actions| ==> !(Repeats(Run(c, now, actions[..k]), actions[k]) && Run(c, now, actions[..k]).live != [])
  }

  // ---- The invariant ----

  /** Executions of the occurrence that is alive are counted once it runs. */
  predicate Started(p: Phase) {
    p.Running? || p.Deciding?
  }

  /** The executions before this occurrence. */
  function Before(s: System, l: Live): int {
    if Started(l.phase) then s.executions - 1 else s.executions
  }

  /** The live occurrence has the runs left that were not used, unless it is the first. */
  ghost predicate RunsOk(c: Config, s: System, l: Live) {
    && Before(s, l) >= 0
    && (c.maxRuns.None? <==> l.task.remaining.None?)
    && (c.maxRuns.Some? ==>
          l.task.remaining.value == c.maxRuns.value - Before(s, l)
          && (Before(s, l) > 0 ==> l.task.remaining.value >= 1))
  }

  /** The earliest time of the execution after n others. */
  function Nth(c: Config, n: int): real {
    c.start + n as real * c.interval
  }

  lemma NthNext(c: Config, n: int)
    ensures Nth(c, n) + c.interval == Nth(c, n + 1)
  {
    assert (n + 1) as real == n as real + 1.0;
  }

  /** Its time is at least an interval after the one before, and within the deadline. */
  ghost predicate TimeOk(c: Config, s: System, l: Live) {
    && l.task.scheduledAt >= Nth(c, Before(s, l))
    && (Before(s, l) > 0 ==> !DeadlineExceeded(c, l.task.scheduledAt))
    && (Started(l.phase) ==> s.now >= l.task.scheduledAt)
    && (l.phase.Deciding? ==> l.phase.nextAt >= l.task.scheduledAt + c.interval)
  }

  /** After a cancellation only an occurrence that was already alive can still start. */
  ghost predicate CancelOk(s: System, l: Live) {
    s.cancelled ==> if Started(l.phase) then s.executions <= s.executionsAtCancel + 1 else s.executions == s.executionsAtCancel
  }

  /** What is known of the number of executions. */
  ghost predicate CountOk(c: Config, s: System) {
    && (c.maxRuns.Some? ==> s.executions <= 1 || s.executions <= c.maxRuns.value)
    && (s.executions > 1 ==> !DeadlineExceeded(c, Nth(c, s.executions - 1)))
    && (s.cancelled ==> s.executionsAtCancel <= s.executions <= s.executionsAtCancel + 1)
  }

  ghost predicate Invariant(c: Config, s: System) {
    && |s.live| <= 1 && CountOk(c, s)
    && forall i :: 0 <= i < |s.live| ==> RunsOk(c, s, s.live[i]) && TimeOk(c, s, s.live[i]) && CancelOk(s, s.live[i])
  }

  lemma Single(live: seq<Live>, i: nat, l: Live)
    requires |live| <= 1 && i < |live|
    ensures Without(live, i) == [] && live[i := l] == [l]
  {
  }

  lemma StartKeeps(c: Config, s: System, l: Live)
    requires Invariant(c, s) && s.live == [l] && l.phase.Waiting? && s.now >= l.task.scheduledAt
    ensures Invariant(c, s.(live := [Live(Running, l.task)], executions := s.executions + 1))
  {
    hide Nth;
    assert RunsOk(c, s, s.live[0]) && TimeOk(c, s, s.live[0]) && CancelOk(s, s.live[0]);
  }

  lemma MoveKeeps(c: Config, s: System, l: Live, p: Phase)
    requires Invariant(c, s) && s.live == [l]
    requires (!Started(l.phase) && !Started(p)) || (l.phase.Running? && p == Deciding(s.now + c.interval))
    ensures Invariant(c, s.(live := [Live(p, l.task)]))
  {
    hide Nth;
    assert RunsOk(c, s, s.live[0]) && TimeOk(c, s, s.live[0]) && CancelOk(s, s.live[0]);
  }

  lemma DropKeeps(c: Config, s: System)
    requires Invariant(c, s)
    ensures Invariant(c, s.(live := [])) && Invariant(c, MarkCancelled(s).(live := []))
  {
    hide Nth;
  }

  lemma NextKeeps(c: Config, s: System, l: Live)
    requires Invariant(c, s) && s.live == [l] && l.phase.Deciding? && !s.cancelled
    requires !DeadlineExceeded(c, l.phase.nextAt) && !RunsExhausted(l.task)
    ensures Invariant(c, s.(live := [Live(Submitting, NextOccurrence(l.task, l.phase.nextAt))]))
  {
    assert RunsOk(c, s, s.live[0]) && TimeOk(c, s, s.live[0]);
    NthNext(c, s.executions - 1);
    hide Nth;
  }

  lemma AdvanceKeeps(c: Config, s: System, a: Action, i: nat)
    requires Invariant(c, s) && i < |s.live| && !a.PutBack?
    ensures Invariant(c, Advance(c, s, a, i))
  {
    var l := s.live[i];
    assert s.live == [l];
    Single(s.live, i, Live(Waiting, l.task));
    Single(s.live, i, Live(Queued, l.task));
    Single(s.live, i, Live(Running, l.task));
    Single(s.live, i, Live(Deciding(s.now + c.interval), l.task));
    DropKeeps(c, s);
    hide Invariant, MarkCancelled, Without, DeadlineExceeded, RunsExhausted, NextOccurrence;
    if a.Lose? {
      return;
    }
    match l.phase
    case Queued => MoveKeeps(c, s, l, Waiting);
    case Waiting =>
      MoveKeeps(c, s, l, Queued);
      if s.now >= l.task.scheduledAt {
        StartKeeps(c, s, l);
      }
    case Running => MoveKeeps(c, s, l, Deciding(s.now + c.interval));
    case Deciding(nextAt) =>
      if !s.cancelled && !DeadlineExceeded(c, nextAt) && !RunsExhausted(l.task) {
        NextKeeps(c, s, l);
        Single(s.live, i, Live(Submitting, NextOccurrence(l.task, nextAt)));
      }
    case Submitting => MoveKeeps(c, s, l, Queued);
  }

  lemma StepKeeps(c: Config, s: System, a: Action)
    requires Invariant(c, s) && !Repeats(s, a)
    ensures Invariant(c, Step(c, s, a))
  {
    if !a.Tick? && !a.CancelSchedule? && !a.PutBack? && a.i < |s.live| {
      AdvanceKeeps(c, s, a, a.i);
    }
  }

  lemma {:induction false} RunKeeps(c: Config, now: real, actions: seq<Action>)
    requires NeverRepeats(c, now, actions)
    ensures Invariant(c, Run(c, now, actions))
  {
    if actions != [] {
      var k := |actions| - 1;
      NeverRepeatsBefore(c, now, actions, k);
      RunKeeps(c, now, actions[..k]);
      StepKeeps(c, Run(c, now, actions[..k]), actions[k]);
    }
  }

  lemma NeverRepeatsBefore(c: Config, now: real, actions: seq<Action>, n: nat)
    requires NeverRepeats(c, now, actions) && n <= |actions|
    ensures NeverRepeats(c, now, actions[..n])
  {
    forall k | 0 <= k < n
      ensures !Repeats(Run(c, now, actions[..n][..k]), actions[..n][k])
    {
      assert actions[..n][..k] == actions[..k];
    }
  }

  // ---- Safety over every run ----

  lemma StepAlive(c: Config, s: System, a: Action)
    ensures |Step(c, s, a).live| <= |s.live| + if Repeats(s, a) then 1 else 0
    ensures Repeats(s, a) ==> |Step(c, s, a).live| == |s.live| + 1
  {
  }

  lemma {:induction false} AliveBound(c: Config, now: real, actions: seq<Action>)
    requires NeverOverlaps(c, now, actions)
    ensures |Run(c, now, actions).live| <= 1
  {
    if actions != [] {
      var k := |actions| - 1;
      NeverOverlapsBefore(c, now, actions, k);
      AliveBound(c, now, actions[..k]);
      StepAlive(c, Run(c, now, actions[..k]), actions[k]);
    }
  }

  lemma NeverOverlapsBefore(c: Config, now: real, actions: seq<Action>, n: nat)
    requires NeverOverlaps(c, now, actions) && n <= |actions|
    ensures NeverOverlaps(c, now, actions[..n])
  {
    forall k | 0 <= k < n
      ensures actions[..n][..k] == actions[..k] && actions[..n][k] == actions[k]
    {
    }
  }

  /** At most one occurrence is ever queued, waiting, running or about to be submitted, exactly
      as long as no task that a worker received is queued again while an occurrence is alive. */
  lemma OneOccurrence(c: Config, now: real, actions: seq<Action>)
    ensures (forall k :: 0 <= k <= |actions| ==> |Run(c, now, actions[..k]).live| <= 1) <==> NeverOverlaps(c, now, actions)
  {
    if NeverOverlaps(c, now, actions) {
      forall k | 0 <= k <= |actions|
        ensures |Run(c, now, actions[..k]).live| <= 1
      {
        NeverOverlapsBefore(c, now, actions, k);
        AliveBound(c, now, actions[..k]);
      }
    } else {
      var k :| 0 <= k < |actions| && Repeats(Run(c, now, actions[..k]), actions[k]) && Run(c, now, actions[..k]).live != [];
      RunStep(c, now, actions, k);
      StepAlive(c, Run(c, now, actions[..k]), actions[k]);
      assert |Run(c, now, actions[..k + 1]).live| > 1;
    }
  }

  lemma RunStep(c: Config, now: real, actions: seq<Action>, k: nat)
    requires k < |actions|
    ensures Run(c, now, actions[..k + 1]) == Step(c, Run(c, now, actions[..k]), actions[k])
  {
    assert actions[..k + 1][..k] == actions[..k];
  }

  /** Executions never exceed max_runs. */
  lemma WithinMaxRuns(start: real, interval: real, runFor: Option<real>, maxRuns: int, now: real, actions: seq<Action>)
    requires var c := Configure(start, interval, runFor, Some(maxRuns)); c.Some? && NeverRepeats(c.value, now, actions)
    ensures Run(Configure(start, interval, runFor, Some(maxRuns)).value, now, actions).executions <= maxRuns
  {
    RunKeeps(Configure(start, interval, runFor, Some(maxRuns)).value, now, actions);
  }

  /** The checks are needed: a max_runs below one would still run the first occurrence. So the
      bound holds in every run exactly when max_runs is at least one. */
  lemma MaxRunsExactly(c: Config, n: int)
    requires c.maxRuns == Some(n)
    ensures (forall now, actions :: NeverRepeats(c, now, actions) ==> Run(c, now, actions).executions <= n) <==> n >= 1
  {
    forall now, actions | NeverRepeats(c, now, actions)
      ensures Run(c, now, actions).executions <= 1 || Run(c, now, actions).executions <= n
    {
      RunKeeps(c, now, actions);
    }
    if n < 1 {
      var actions := [Take(0), Start(0)];
      RunStep(c, c.start, actions, 0);
      RunStep(c, c.start, actions, 1);
      assert actions[..2] == actions;
      assert NeverRepeats(c, c.start, actions);
      assert Run(c, c.start, actions).executions == 1;
    }
  }

  /** A task that is queued again although a worker has it runs twice, whatever max_runs is. */
  lemma PutBackRunsTwice(c: Config)
    ensures Run(c, c.start, [Take(0), PutBack(0), Start(0), Take(1), Start(1)]).executions == 2
  {
    var actions := [Take(0), PutBack(0), Start(0), Take(1), Start(1)];
    var o := Occurrence(c.start, c.maxRuns);
    hide Advance, Run;
    assert actions[..5] == actions && actions[..0] == [];
    RunStep(c, c.start, actions, 0);
    RunStep(c, c.start, actions, 1);
    RunStep(c, c.start, actions, 2);
    RunStep(c, c.start, actions, 3);
    RunStep(c, c.start, actions, 4);
    FirstThree(c, actions);
    StartSecond(c, Run(c, c.start, actions[..3]), o);
  }

  lemma FirstThree(c: Config, actions: seq<Action>)
    requires |actions| >= 3 && actions[..3] == [Take(0), PutBack(0), Start(0)]
    ensures var o := Occurrence(c.start, c.maxRuns);
      Run(c, c.start, actions[..3]) == System(c.start, [Live(Running, o), Live(Queued, o)], [o], 1, false, 0)
  {
    var o := Occurrence(c.start, c.maxRuns);
    hide Run;
    assert Run(c, c.start, actions[..0]) == Initial(c, c.start) by { NoActions(c, c.start); assert actions[..0] == []; }
    RunStep(c, c.start, actions, 0);
    RunStep(c, c.start, actions, 1);
    RunStep(c, c.start, actions, 2);
    assert actions[0] == actions[..3][0] && actions[1] == actions[..3][1] && actions[2] == actions[..3][2];
    assert [] + [o] == [o];
    assert Run(c, c.start, actions[..1]).live == [Live(Waiting, o)] && Run(c, c.start, actions[..1]).taken == [o];
    assert Run(c, c.start, actions[..2]).live == [Live(Waiting, o), Live(Queued, o)];
  }

  lemma NoActions(c: Config, now: real)
    ensures Run(c, now, []) == Initial(c, now)
  {
  }

  lemma StartSecond(c: Config, s: System, o: Occurrence)
    requires s.live == [Live(Running, o), Live(Queued, o)] && s.executions == 1 && s.now >= o.scheduledAt
    ensures Step(c, Step(c, s, Take(1)), Start(1)).executions == 2
  {
    assert Step(c, s, Take(1)).live == [Live(Running, o), Live(Waiting, o)];
  }

  lemma Scaled(a: real, b: real, factor: real)
    requires factor > 0.0
    ensures a > b ==> a * factor > b * factor
  {
    if a > b {
      assert (a - b) * factor > 0.0;
    }
  }

  /** With a positive interval, executions never exceed the number of intervals in the duration
      plus one; the duration is an hour when neither limit was given. */
  lemma WithinDuration(start: real, interval: real, runFor: Option<real>, maxRuns: Option<int>, now: real, actions: seq<Action>)
    requires interval > 0.0 && (runFor.Some? || maxRuns.None?)
    requires var c := Configure(start, interval, runFor, maxRuns); c.Some? && NeverRepeats(c.value, now, actions)
    ensures Run(Configure(start, interval, runFor, maxRuns).value, now, actions).executions
         <= (GivenOr(runFor, 3600.0) / interval).Floor + 1
  {
    hide *;
    var c := Configure(start, interval, runFor, maxRuns).value;
    Configured(start, interval, runFor, maxRuns);
    Spacing(c, now, actions);
    CountBound(Run(c, now, actions).executions - 1, interval, GivenOr(runFor, 3600.0));
  }

  lemma Configured(start: real, interval: real, runFor: Option<real>, maxRuns: Option<int>)
    requires (runFor.Some? || maxRuns.None?) && Configure(start, interval, runFor, maxRuns).Some?
    ensures var c := Configure(start, interval, runFor, maxRuns).value;
      c.interval == interval && c.runFor == Some(GivenOr(runFor, 3600.0)) && GivenOr(runFor, 3600.0) > 0.0
  {
  }

  function GivenOr(o: Option<real>, r: real): real {
    if o.Some? then o.value else r
  }

  lemma Spacing(c: Config, now: real, actions: seq<Action>)
    requires c.runFor.Some? && NeverRepeats(c, now, actions)
    ensures var k := Run(c, now, actions).executions - 1; k >= 1 ==> k as real * c.interval <= c.runFor.value
  {
    hide *;
    RunKeeps(c, now, actions);
    Enough(c, Run(c, now, actions));
  }

  lemma Enough(c: Config, s: System)
    requires Invariant(c, s) && c.runFor.Some?
    ensures s.executions >= 2 ==> (s.executions - 1) as real * c.interval <= c.runFor.value
  {
  }

  lemma CountBound(k: int, interval: real, runFor: real)
    requires interval > 0.0 && runFor >= 0.0 && (k >= 1 ==> k as real * interval <= runFor)
    ensures k <= (runFor / interval).Floor
  {
    var r := runFor / interval;
    assert r * interval == runFor;
    Scaled(k as real, r, interval);
    Scaled(0.0, r, interval);
  }

  /** After the schedule is cancelled at most one more execution starts. */
  lemma OneMoreAfterCancel(c: Config, now: real, actions: seq<Action>)
    requires NeverRepeats(c, now, actions) && Run(c, now, actions).cancelled
    ensures Run(c, now, actions).executions <= Run(c, now, actions).executionsAtCancel + 1
  {
    RunKeeps(c, now, actions);
  }

  // ---- What a schedule does when nothing is lost ----

  /** How long a worker waits for an occurrence. */
  function Wait(now: real, o: Occurrence): real {
    if o.scheduledAt > now then o.scheduledAt - now else 0.0
  }

  /** An occurrence is taken, waited for, started with some delay, executed for some time, and
      followed by the next. */
  function Round(s: System, delay: real, duration: real): seq<Action> {
    var wait := if s.live == [] then 0.0 else Wait(s.now, s.live[0].task);
    [Take(0), Tick(wait + delay), Start(0), Tick(duration), Finish(0), Decide(0), Resubmit(0)]
  }

  function Steps(c: Config, s: System, actions: seq<Action>): System
    decreases |actions|
  {
    if actions == [] then s else Steps(c, Step(c, s, actions[0]), actions[1..])
  }

  /** The state after some rounds, given as delays and durations. */
  function Rounds(c: Config, now: real, rounds: seq<(real, real)>): System {
    if rounds == [] then Initial(c, now)
    else
      var s := Rounds(c, now, rounds[..|rounds| - 1]);
      Steps(c, s, Round(s, rounds[|rounds| - 1].0, rounds[|rounds| - 1].1))
  }

  lemma {:induction false} RunSteps(c: Config, now: real, actions: seq<Action>, more: seq<Action>)
    ensures Run(c, now, actions + more) == Steps(c, Run(c, now, actions), more)
    decreases |more|
  {
    if more == [] {
      assert actions + more == actions;
    } else {
      var first := actions + [more[0]];
      assert first[..|first|] == first && first[..|actions|] == actions;
      RunStep(c, now, first, |actions|);
      assert first + more[1..] == actions + more;
      RunSteps(c, now, first, more[1..]);
      hide Run, Step;
    }
  }

  /** Rounds are runs. */
  lemma {:induction false} RoundsAreRuns(c: Config, now: real, rounds: seq<(real, real)>) returns (actions: seq<Action>)
    ensures Run(c, now, actions) == Rounds(c, now, rounds)
  {
    if rounds == [] {
      actions := [];
    } else {
      var k := |rounds| - 1;
      var before := RoundsAreRuns(c, now, rounds[..k]);
      var more := Round(Rounds(c, now, rounds[..k]), rounds[k].0, rounds[k].1);
      actions := before + more;
      hide Run, Round, Steps;
      RunSteps(c, now, before, more);
    }
  }

  lemma SevenSteps(c: Config, s: System, a: Action, b: Action, d: Action, e: Action, f: Action, g: Action, h: Action)
    ensures Steps(c, s, [a, b, d, e, f, g, h])
         == Step(c, Step(c, Step(c, Step(c, Step(c, Step(c, Step(c, s, a), b), d), e), f), g), h)
  {
    hide Step;
    StepsFirst(c, s, a, [b, d, e, f, g, h]);
    var s1 := Step(c, s, a);
    StepsFirst(c, s1, b, [d, e, f, g, h]);
    var s2 := Step(c, s1, b);
    StepsFirst(c, s2, d, [e, f, g, h]);
    var s3 := Step(c, s2, d);
    StepsFirst(c, s3, e, [f, g, h]);
    var s4 := Step(c, s3, e);
    StepsFirst(c, s4, f, [g, h]);
    StepsFirst(c, Step(c, s4, f), g, [h]);
    StepsFirst(c, Step(c, Step(c, s4, f), g), h, []);
    hide Steps;
    assert [a] + [b, d, e, f, g, h] == [a, b, d, e, f, g, h] && [b] + [d, e, f, g, h] == [b, d, e, f, g, h];
    assert [d] + [e, f, g, h] == [d, e, f, g, h] && [e] + [f, g, h] == [e, f, g, h] && [f] + [g, h] == [f, g, h];
    assert [g] + [h] == [g, h] && [h] + [] == [h];
  }

  lemma StepsFirst(c: Config, s: System, a: Action, rest: seq<Action>)
    ensures Steps(c, s, [a] + rest) == Steps(c, Step(c, s, a), rest) && Steps(c, Step(c, s, a), []) == Step(c, s, a)
  {
    assert ([a] + rest)[1..] == rest;
    hide Step;
  }

  /** One round executes the occurrence once. Then the schedule is over, and marked cancelled, if
      the next time is past the deadline or this was the last run; it just ends if it was
      cancelled; otherwise the next occurrence is queued, an interval later, with one run less. */
  lemma RoundExact(c: Config, s: System, o: Occurrence, delay: real, duration: real)
    requires s.live == [Live(Queued, o)] && delay >= 0.0 && duration >= 0.0
    ensures var t := Steps(c, s, Round(s, delay, duration));
      var done := (if o.scheduledAt > s.now then o.scheduledAt else s.now) + delay + duration;
      var late := c.runFor.Some? && done + c.interval > c.start + c.runFor.value;
      var last := o.remaining.Some? && o.remaining.value <= 1;
      && t.executions == s.executions + 1 && t.now == done
      && t.cancelled == (s.cancelled || late || last)
      && t.live == if late || last || s.cancelled then []
                   else [Live(Queued, Occurrence(done + c.interval, if o.remaining.Some? then Some(o.remaining.value - 1) else None))]
  {
    var wait := Wait(s.now, o);
    SevenSteps(c, s, Take(0), Tick(wait + delay), Start(0), Tick(duration), Finish(0), Decide(0), Resubmit(0));
    hide Steps, Run;
    var s1 := Step(c, s, Take(0));
    assert s1.live == [Live(Waiting, o)];
    var s2 := Step(c, s1, Tick(wait + delay));
    var s3 := Step(c, s2, Start(0));
    assert s3.live == [Live(Running, o)] && s3.executions == s.executions + 1;
    var s4 := Step(c, s3, Tick(duration));
    var s5 := Step(c, s4, Finish(0));
    assert s5.live == [Live(Deciding(s4.now + c.interval), o)];
    EndOfRound(c, s5, o, s4.now + c.interval);
  }

  lemma EndOfRound(c: Config, s: System, o: Occurrence, nextAt: real)
    requires s.live == [Live(Deciding(nextAt), o)]
    ensures var t := Step(c, Step(c, s, Decide(0)), Resubmit(0));
      var late := c.runFor.Some? && nextAt > c.start + c.runFor.value;
      var last := o.remaining.Some? && o.remaining.value <= 1;
      && t.executions == s.executions && t.now == s.now && t.cancelled == (s.cancelled || late || last)
      && t.live == if late || last || s.cancelled then []
                   else [Live(Queued, Occurrence(nextAt, if o.remaining.Some? then Some(o.remaining.value - 1) else None))]
  {
    Single(s.live, 0, Live(Submitting, NextOccurrence(o, nextAt)));
    var t := Step(c, s, Decide(0));
    assert t.live == [] || t.live == [Live(Submitting, NextOccurrence(o, nextAt))];
  }

  ghost predicate NoneNegative(rounds: seq<(real, real)>) {
    forall i :: 0 <= i < |rounds| ==> rounds[i].0 >= 0.0 && rounds[i].1 >= 0.0
  }

  /** A schedule of n runs without a deadline runs exactly n times, however late and long the runs
      are, and is marked cancelled only then. */
  lemma {:induction false} RunsExactly(c: Config, now: real, n: int, rounds: seq<(real, real)>)
    requires c.maxRuns == Some(n) && n >= 1 && c.runFor.None? && |rounds| <= n && NoneNegative(rounds)
    ensures var s := Rounds(c, now, rounds);
      && s.executions == |rounds| && (s.cancelled <==> |rounds| == n)
      && if |rounds| == n then s.live == []
         else |s.live| == 1 && s.live[0].phase == Queued && s.live[0].task.remaining == Some(n - |rounds|)
  {
    if rounds != [] {
      var k := |rounds| - 1;
      var before := rounds[..k];
      RunsExactly(c, now, n, before);
      var s := Rounds(c, now, before);
      hide Round, Steps;
      RoundExact(c, s, s.live[0].task, rounds[k].0, rounds[k].1);
    }
  }

  lemma Multiples(k: int, interval: real, runFor: real)
    requires interval > 0.0 && runFor > 0.0
    ensures k as real * interval > runFor <==> k > (runFor / interval).Floor
  {
    var r := runFor / interval;
    assert r * interval == runFor;
    Scaled(k as real, r, interval);
    Scaled(r, k as real, interval);
  }

  /** Rounds without delay that take no time. */
  function AtOnce(k: nat): seq<(real, real)> {
    seq(k, i => (0.0, 0.0))
  }

  lemma AtOnceStep(c: Config, k: nat)
    requires k > 0
    ensures var s := Rounds(c, c.start, AtOnce(k - 1)); Rounds(c, c.start, AtOnce(k)) == Steps(c, s, Round(s, 0.0, 0.0))
  {
    assert AtOnce(k)[..k - 1] == AtOnce(k - 1);
    hide Steps, Round;
  }

  /** The k-th next time is past the deadline exactly from the last round on. */
  lemma LateIff(c: Config, k: nat)
    requires c.runFor.Some? && c.runFor.value > 0.0 && c.interval > 0.0
    ensures Nth(c, k) > c.start + c.runFor.value <==> k >= (c.runFor.value / c.interval).Floor + 1
    ensures 1 <= (c.runFor.value / c.interval).Floor + 1
  {
    Multiples(k, c.interval, c.runFor.value);
    Multiples(0, c.interval, c.runFor.value);
    NthValue(c, k);
  }

  /** A schedule with a deadline that is run without delay uses it up: it runs exactly
      floor(run_for / interval) + 1 times, and stops at the first next time past the deadline. */
  lemma {:induction false} FillsDuration(c: Config, k: nat)
    requires c.maxRuns.None? && c.runFor.Some? && c.runFor.value > 0.0 && c.interval > 0.0
    requires k <= (c.runFor.value / c.interval).Floor + 1
    ensures var s := Rounds(c, c.start, AtOnce(k));
      var n := (c.runFor.value / c.interval).Floor + 1;
      && s.executions == k && (s.cancelled <==> k == n)
      && s.live == (if k == n then [] else [Live(Queued, Occurrence(Nth(c, k), None))])
      && s.now == Nth(c, if k == 0 then 0 else k - 1)
  {
    LateIff(c, k);
    NthValue(c, 0);
    if k > 0 {
      FillsDuration(c, k - 1);
      AtOnceStep(c, k);
      NthNext(c, k - 1);
      NthValue(c, k - 1);
      NthValue(c, if k == 1 then 0 else k - 2);
      var s := Rounds(c, c.start, AtOnce(k - 1));
      NotEarlier(c, k - 1);
      hide *;
      RoundExact(c, s, Occurrence(Nth(c, k - 1), None), 0.0, 0.0);
    }
  }

  lemma NotEarlier(c: Config, k: nat)
    requires c.interval > 0.0
    ensures Nth(c, k) >= Nth(c, if k == 0 then 0 else k - 1)
  {
    if k > 0 {
      NthNext(c, k - 1);
    }
  }

  lemma NthValue(c: Config, k: nat)
    ensures Nth(c, k) == c.start + k as real * c.interval
    ensures Nth(c, 0) == c.start
  {
  }
}
