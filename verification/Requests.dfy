/** The client's connection to the broker: requests one at a time under a lock, and what a
    request that is cancelled while it waits leaves behind. */
module Requests {
  import opened Options

  /** A reply is read in two pieces: first its length, then its text. */
  datatype Piece = Length(about: nat) | Text(about: nat)

  /** Requests on their way to the broker and replies on their way back; a request is known by
      the number of the call that sends it. */
  datatype Connection = Connection(toBroker: seq<nat>, toClient: seq<Piece>)

  /** The lock holder: none; connecting or about to write; waiting for the length of its reply;
      waiting for the text. */
  datatype Phase = Free | Starting(call: nat) | AwaitLength(call: nat) | AwaitText(call: nat, about: nat)

  /** What became of a call: an exception, a reply, or the text of a reply taken for a length. */
  datatype Outcome = Raised | Reply(about: nat) | Garbled

  datatype System = System(connection: Option<Connection>, phase: Phase, calls: nat, outcomes: map<nat, Outcome>)

  const INITIAL := System(None, Free, 0, map[])

  datatype Action =
    | Begin                    // a call takes the lock
    | Write                    // it connects if needed and writes its request
    | Answer                   // the broker answers the first request that arrived
    | Read                     // one piece of a reply
    | Lost                     // the connection fails
    | CancelEarly              // the call is cancelled before it writes
    | CancelWaiting            // the call is cancelled while it waits for its reply

  const FRESH := Connection([], [])

  predicate Waiting(s: System) {
    s.phase.AwaitLength? || s.phase.AwaitText?
  }

  function End(s: System, call: nat, o: Outcome): System {
    s.(phase := Free, outcomes := s.outcomes[call := o])
  }

  function Connected(s: System): Connection {
    if s.connection.Some? then s.connection.value else FRESH
  }

  /** _request: every way out leaves the lock; only a connection error drops the connection. */
  function Step(s: System, a: Action): System {
    match a
    case Begin => if s.phase.Free? then s.(phase := Starting(s.calls), calls := s.calls + 1) else s
    case Write =>
      if !s.phase.Starting? then s
      else
        var conn := Connected(s);
        s.(connection := Some(conn.(toBroker := conn.toBroker + [s.phase.call])), phase := AwaitLength(s.phase.call))
    case Answer =>
      if s.connection.None? || s.connection.value.toBroker == [] then s
      else
        var conn := s.connection.value;
        var c := conn.toBroker[0];
        s.(connection := Some(Connection(conn.toBroker[1..], conn.toClient + [Length(c), Text(c)])))
    case Read =>
      if !Waiting(s) || s.connection.None? || s.connection.value.toClient == [] then s
      else
        var conn := s.connection.value;
        var piece, t := conn.toClient[0], s.(connection := Some(conn.(toClient := conn.toClient[1..])));
        (match s.phase
         case AwaitLength(call) => if piece.Length? then t.(phase := AwaitText(call, piece.about)) else End(t, call, Garbled)
         case AwaitText(call, about) => End(t, call, Reply(about))
         case _ => s)
    case Lost => if s.phase.Free? then s else End(s, s.phase.call, Raised).(connection := None)
    case CancelEarly => if s.phase.Starting? then End(s, s.phase.call, Raised) else s
    case CancelWaiting => if Waiting(s) then End(s, s.phase.call, Raised) else s
  }

  function Run(actions: seq<Action>): System {
    if actions == [] then INITIAL else Step(Run(actions[..|actions| - 1]), actions[|actions| - 1])
  }

  // ---- The invariant ----

  /** One request is under way: on its way, answered, or answered with the length read. */
  ghost predicate UnderWay(conn: Connection, call: nat, lengthRead: bool) {
    if lengthRead then conn == Connection([], [Text(call)])
    else conn == Connection([call], []) || conn == Connection([], [Length(call), Text(call)])
  }

  /** Between requests the connection is empty; a waiting request is the one under way. */
  ghost predicate Invariant(s: System) {
    match s.phase
    case Free => s.connection.Some? ==> s.connection.value == FRESH
    case Starting(call) => call < s.calls && (s.connection.Some? ==> s.connection.value == FRESH)
    case AwaitLength(call) => call < s.calls && s.connection.Some? && UnderWay(s.connection.value, call, false)
    case AwaitText(call, about) => call < s.calls && about == call && s.connection.Some? && UnderWay(s.connection.value, call, true)
  }

  /** Every reply that a call returned is the reply to that call. */
  ghost predicate Paired(s: System) {
    forall call :: call in s.outcomes ==> s.outcomes[call] == Raised || s.outcomes[call] == Reply(call)
  }

  /** No request is cancelled while it waits. */
  ghost predicate WaitsOut(actions: seq<Action>) {
    forall k :: 0 <= k < |actions| && actions[k].CancelWaiting? ==> !Waiting(Run(actions[..k]))
  }

  lemma StepKeeps(s: System, a: Action)
    requires Invariant(s) && Paired(s) && (a.CancelWaiting? ==> !Waiting(s))
    ensures Invariant(Step(s, a)) && Paired(Step(s, a))
  {
    if s.connection.Some? {
      var conn := s.connection.value;
      assert [] + [Length(s.calls)] == [Length(s.calls)];
      if conn.toBroker != [] {
        assert conn.toBroker == [conn.toBroker[0]] ==> conn.toBroker[1..] == [];
      }
    }
  }

  lemma {:induction false} RunKeeps(actions: seq<Action>)
    requires WaitsOut(actions)
    ensures Invariant(Run(actions)) && Paired(Run(actions))
  {
    if actions != [] {
      var k := |actions| - 1;
      forall i | 0 <= i < k && actions[..k][i].CancelWaiting?
        ensures !Waiting(Run(actions[..k][..i]))
      {
        assert actions[..k][..i] == actions[..i];
      }
      RunKeeps(actions[..k]);
      StepKeeps(Run(actions[..k]), actions[k]);
    }
  }

  // ---- Safety, and its exact limit ----

  /** Whatever fails, and whatever is cancelled before it is written: as long as no request is
      cancelled while it waits, every call gets the reply to its own request. */
  lemma RepliesArePaired(actions: seq<Action>)
    requires WaitsOut(actions)
    ensures Paired(Run(actions))
  {
    RunKeeps(actions);
  }

  /** The next call, answered like any other. */
  function OneMore(): seq<Action> {
    [Begin, Write, Answer, Read, Read]
  }

  function Steps(s: System, actions: seq<Action>): System
    decreases |actions|
  {
    if actions == [] then s else Steps(Step(s, actions[0]), actions[1..])
  }

  lemma {:induction false} RunOn(actions: seq<Action>, more: seq<Action>)
    ensures Run(actions + more) == Steps(Run(actions), more)
    decreases |more|
  {
    if more == [] {
      assert actions + more == actions;
    } else {
      assert (actions + [more[0]])[..|actions|] == actions;
      assert (actions + [more[0]]) + more[1..] == actions + more;
      RunOn(actions + [more[0]], more[1..]);
    }
  }

  lemma FiveSteps(s: System)
    ensures Steps(s, OneMore()) == Step(Step(Step(Step(Step(s, Begin), Write), Answer), Read), Read)
  {
    hide Step;
    var a := OneMore();
    assert a[1..] == [Write, Answer, Read, Read] && a[1..][1..] == [Answer, Read, Read];
    assert a[1..][1..][1..] == [Read, Read] && a[1..][1..][1..][1..] == [Read];
  }

  /** What a cancelled request left behind goes to the next call. */
  lemma LeftoverIsTaken(s: System, c: nat, lengthRead: bool)
    requires s.phase.Free? && c < s.calls && s.connection.Some? && UnderWay(s.connection.value, c, lengthRead)
    ensures var t := Steps(s, OneMore());
      s.calls in t.outcomes && t.outcomes[s.calls] == if lengthRead then Garbled else Reply(c)
  {
    FiveSteps(s);
    var n, conn := s.calls, s.connection.value;
    var begun := Step(s, Begin);
    var written := Step(begun, Write);
    assert written.connection == Some(Connection(conn.toBroker + [n], conn.toClient)) && written.phase == AwaitLength(n);
    var answered := Step(written, Answer);
    assert answered.phase == AwaitLength(n) && answered.connection.Some?;
    var pieces := answered.connection.value.toClient;
    if lengthRead {
      assert pieces[0] == Text(c);
    } else {
      if conn.toBroker == [c] {
        assert (conn.toBroker + [n])[0] == c;
        assert pieces == [] + [Length(c), Text(c)];
      } else {
        assert pieces == [Length(c), Text(c)] + [Length(n), Text(n)];
      }
      assert pieces[0] == Length(c) && pieces[1..][0] == Text(c);
    }
  }

  /** The limit is exact: after any such run, one request that is cancelled while it waits is
      enough. The next call returns the reply to that request, or takes its text for a length. */
  lemma CancelledWaitMixes(actions: seq<Action>)
    requires WaitsOut(actions) && Waiting(Run(actions))
    ensures !Paired(Run(actions + [CancelWaiting] + OneMore()))
    ensures Run(actions).phase.AwaitLength? ==>
      var t := Run(actions + [CancelWaiting] + OneMore());
      Run(actions).calls in t.outcomes && t.outcomes[Run(actions).calls] == Reply(Run(actions).phase.call)
  {
    hide *;
    var s := Run(actions);
    RunKeeps(actions);
    RunOn(actions, [CancelWaiting]);
    OneStep(s, CancelWaiting);
    RunOn(actions + [CancelWaiting], OneMore());
    CancelLeaves(s);
    LeftoverIsTaken(Step(s, CancelWaiting), s.phase.call, s.phase.AwaitText?);
    NotItsOwn(Run(actions + [CancelWaiting] + OneMore()), s.calls);
  }

  lemma OneStep(s: System, a: Action)
    ensures Steps(s, [a]) == Step(s, a)
  {
    assert [a][1..] == [];
    hide Step;
  }

  lemma CancelLeaves(s: System)
    requires Invariant(s) && Waiting(s)
    ensures var t := Step(s, CancelWaiting);
      && t.phase.Free? && t.calls == s.calls && s.phase.call < s.calls
      && t.connection.Some? && UnderWay(t.connection.value, s.phase.call, s.phase.AwaitText?)
    ensures s.phase.AwaitLength? || s.phase.AwaitText?
  {
  }

  lemma NotItsOwn(s: System, call: nat)
    requires call in s.outcomes && s.outcomes[call] != Raised && s.outcomes[call] != Reply(call)
    ensures !Paired(s)
  {
  }
}
