/** Tasks and the dictionaries they travel in. */
module Tasks {
  import opened Options
  import opened Values
  import opened Codec
  import opened CodecRoundTrip

  /** The keys of a task dictionary and of a signed envelope. */
  datatype Name =
    | Id | Graph | Function | Args | Kwargs | Timeout | Retries | RetryDelay | ScheduledAt | RecurInterval
    | RecurDeadline | RecurRemaining | ScheduleId | Throttle | Storage
    | ClientId | Iat | Nonce | Pubkey | Signature | EdSig

  function Text(f: Name): string {
    match f
    case Id => "id" case Graph => "graph" case Function => "function" case Args => "args" case Kwargs => "kwargs"
    case Timeout => "timeout" case Retries => "retries" case RetryDelay => "retry_delay"
    case ScheduledAt => "scheduled_at" case RecurInterval => "recur_interval"
    case RecurDeadline => "recur_deadline" case RecurRemaining => "recur_remaining"
    case ScheduleId => "schedule_id" case Throttle => "throttle" case Storage => "storage"
    case ClientId => "client_id" case Iat => "iat" case Nonce => "nonce" case Pubkey => "pubkey"
    case Signature => "signature" case EdSig => "ed_sig"
  }

  /** The length and two characters of a key tell it from all others. */
  function Mark(s: string): int {
    if s == [] then 0 else |s| + 100 * (s[|s| - 1] as int) + 100000 * (s[0] as int)
  }

  /** The Mark of every key's text, written out so that keys can be compared by a number. */
  function Code(f: Name): int {
    match f
    case Id => 10510002 case Graph => 10310405 case Function => 10211008 case Args => 9711504 case Kwargs => 10711506
    case Timeout => 11611607 case Retries => 11411507 case RetryDelay => 11412111
    case ScheduledAt => 11511612 case RecurInterval => 11410814
    case RecurDeadline => 11410114 case RecurRemaining => 11410315
    case ScheduleId => 11510011 case Throttle => 11610108 case Storage => 11510107
    case ClientId => 9910009 case Iat => 10511603 case Nonce => 11010105 case Pubkey => 11212106
    case Signature => 11510109 case EdSig => 10110306
  }

  lemma TextMark(f: Name)
    ensures Mark(Text(f)) == Code(f)
  {
  }

  /** Different keys have different texts. */
  lemma TextInjective(f: Name, g: Name)
    requires Text(f) == Text(g)
    ensures f == g
  {
    TextMark(f);
    TextMark(g);
    hide Text, Mark;
  }

  datatype Task = Task(
    id: string, graph: string, func: string, args: Values, kwargs: Pairs,
    timeout: Option<real>, retries: int, retryDelay: real,
    scheduledAt: Option<real>, recurInterval: Option<real>, recurDeadline: Option<real>, recurRemaining: Option<int>,
    scheduleId: Option<string>, throttle: Option<real>, storage: bool)

  /** Sets a key if there is a value for it. */
  function With(f: Name, v: Option<Value>, rest: Pairs): Pairs {
    if v.Some? then Entry(Str(Text(f)), v.value, rest) else rest
  }

  function RealField(r: Option<real>): Option<Value> {
    if r.Some? then Some(Float(r.value)) else None
  }

  /** The optional part of _to_dict: only what differs from its default is written. */
  function Optional(t: Task): Pairs {
    With(Timeout, RealField(t.timeout),
    With(Retries, if t.retries != 0 then Some(Int(t.retries)) else None,
    With(RetryDelay, if t.retryDelay != 1.0 then Some(Float(t.retryDelay)) else None,
    With(ScheduledAt, RealField(t.scheduledAt),
    Recurrence(t)))))
  }

  function Recurrence(t: Task): Pairs {
    With(RecurInterval, RealField(t.recurInterval),
    With(RecurDeadline, RealField(t.recurDeadline),
    With(RecurRemaining, if t.recurRemaining.Some? then Some(Int(t.recurRemaining.value)) else None,
    With(ScheduleId, if t.scheduleId.Some? then Some(Str(t.scheduleId.value)) else None,
    With(Throttle, RealField(t.throttle),
    With(Storage, if t.storage then Some(Bool(true)) else None, Empty))))))
  }

  /** The five keys that are always written, in front of any others. */
  function Head(t: Task, rest: Pairs): Pairs {
    With(Id, Some(Str(t.id)), With(Graph, Some(Str(t.graph)), With(Function, Some(Str(t.func)),
    With(Args, Some(List(t.args)), With(Kwargs, Some(Dict(t.kwargs)), rest)))))
  }

  /** _to_dict. */
  function ToDict(t: Task): Pairs { Head(t, Optional(t)) }

  // ---- Reading ----

  function Read(d: Pairs, f: Name): Option<Value> { Field(d, Text(f)) }

  function AsReal(v: Option<Value>): Option<real> {
    match v case Some(Float(r)) => Some(r) case Some(Int(n)) => Some(n as real) case _ => None
  }

  function AsInt(v: Option<Value>): Option<int> {
    match v case Some(Int(n)) => Some(n) case _ => None
  }

  function AsStr(v: Option<Value>): Option<string> {
    match v case Some(Str(s)) => Some(s) case _ => None
  }

  function Else<T>(o: Option<T>, d: T): T { if o.Some? then o.value else d }

  /** from_json on a parsed dictionary, freshId standing for the generated identifier; None
      stands for KeyError. */
  function FromDict(d: Pairs, freshId: string): Option<Task> {
    var graph, func := AsStr(Read(d, Graph)), AsStr(Read(d, Function));
    if graph.None? || func.None? then None
    else
      var args := match Read(d, Args) case Some(List(vs)) => vs case _ => Nil;
      var kwargs := match Read(d, Kwargs) case Some(Dict(ps)) => ps case _ => Empty;
      Some(Task(Else(AsStr(Read(d, Id)), freshId), graph.value, func.value, args, kwargs,
                AsReal(Read(d, Timeout)), Else(AsInt(Read(d, Retries)), 0), Else(AsReal(Read(d, RetryDelay)), 1.0),
                AsReal(Read(d, ScheduledAt)), AsReal(Read(d, RecurInterval)), AsReal(Read(d, RecurDeadline)),
                AsInt(Read(d, RecurRemaining)), AsStr(Read(d, ScheduleId)), AsReal(Read(d, Throttle)),
                Read(d, Storage) == Some(Bool(true))))
  }

  // ---- The round trip ----

  /** Setting a key changes the reading of that key alone. */
  lemma ReadWith(f: Name, v: Option<Value>, rest: Pairs)
    ensures forall g :: Read(With(f, v, rest), g) == if g == f && v.Some? then v else Read(rest, g)
  {
    forall g
      ensures Read(With(f, v, rest), g) == if g == f && v.Some? then v else Read(rest, g)
    {
      if Text(f) == Text(g) {
        TextInjective(f, g);
      }
      hide Text;
      if v.Some? {
        FirstEntry(Text(f), v.value, rest);
      }
    }
  }

  lemma ReadEmpty()
    ensures forall g :: Read(Empty, g) == None
  {
  }

  predicate IsRecurrence(f: Name) {
    f.RecurInterval? || f.RecurDeadline? || f.RecurRemaining? || f.ScheduleId? || f.Throttle? || f.Storage?
  }

  predicate IsOption(f: Name) {
    f.Timeout? || f.Retries? || f.RetryDelay? || f.ScheduledAt? || IsRecurrence(f)
  }

  lemma ReadSix(v1: Option<Value>, v2: Option<Value>, v3: Option<Value>, v4: Option<Value>, v5: Option<Value>, v6: Option<Value>)
    ensures var d := With(RecurInterval, v1, With(RecurDeadline, v2, With(RecurRemaining, v3,
                     With(ScheduleId, v4, With(Throttle, v5, With(Storage, v6, Empty))))));
      && Read(d, RecurInterval) == v1 && Read(d, RecurDeadline) == v2 && Read(d, RecurRemaining) == v3
      && Read(d, ScheduleId) == v4 && Read(d, Throttle) == v5 && Read(d, Storage) == v6
      && forall g :: !IsRecurrence(g) ==> Read(d, g) == None
  {
    hide Read, With;
    ReadEmpty();
    var d6 := With(Storage, v6, Empty);
    var d5 := With(Throttle, v5, d6);
    var d4 := With(ScheduleId, v4, d5);
    var d3 := With(RecurRemaining, v3, d4);
    var d2 := With(RecurDeadline, v2, d3);
    ReadWith(Storage, v6, Empty);
    ReadWith(Throttle, v5, d6);
    ReadWith(ScheduleId, v4, d5);
    ReadWith(RecurRemaining, v3, d4);
    ReadWith(RecurDeadline, v2, d3);
    ReadWith(RecurInterval, v1, d2);
  }

  lemma ReadFour(v1: Option<Value>, v2: Option<Value>, v3: Option<Value>, v4: Option<Value>, rest: Pairs)
    requires forall g :: !IsRecurrence(g) ==> Read(rest, g) == None
    ensures var d := With(Timeout, v1, With(Retries, v2, With(RetryDelay, v3, With(ScheduledAt, v4, rest))));
      && Read(d, Timeout) == v1 && Read(d, Retries) == v2 && Read(d, RetryDelay) == v3 && Read(d, ScheduledAt) == v4
      && (forall g :: IsRecurrence(g) ==> Read(d, g) == Read(rest, g))
      && (forall g :: !IsOption(g) ==> Read(d, g) == None)
  {
    hide Read, With;
    var d4 := With(ScheduledAt, v4, rest);
    var d3 := With(RetryDelay, v3, d4);
    var d2 := With(Retries, v2, d3);
    ReadWith(ScheduledAt, v4, rest);
    ReadWith(RetryDelay, v3, d4);
    ReadWith(Retries, v2, d3);
    ReadWith(Timeout, v1, d2);
  }

  /** What a task's dictionary holds under each optional key. */
  lemma ReadOptions(t: Task)
    ensures var d := Optional(t);
      && Read(d, Timeout) == RealField(t.timeout)
      && Read(d, Retries) == (if t.retries != 0 then Some(Int(t.retries)) else None)
      && Read(d, RetryDelay) == (if t.retryDelay != 1.0 then Some(Float(t.retryDelay)) else None)
      && Read(d, ScheduledAt) == RealField(t.scheduledAt)
      && Read(d, RecurInterval) == RealField(t.recurInterval) && Read(d, RecurDeadline) == RealField(t.recurDeadline)
      && Read(d, RecurRemaining) == (if t.recurRemaining.Some? then Some(Int(t.recurRemaining.value)) else None)
      && Read(d, ScheduleId) == (if t.scheduleId.Some? then Some(Str(t.scheduleId.value)) else None)
      && Read(d, Throttle) == RealField(t.throttle)
      && Read(d, Storage) == (if t.storage then Some(Bool(true)) else None)
    ensures forall g :: !IsOption(g) ==> Read(Optional(t), g) == None
  {
    hide Read, With, RealField;
    ReadSix(RealField(t.recurInterval), RealField(t.recurDeadline),
            if t.recurRemaining.Some? then Some(Int(t.recurRemaining.value)) else None,
            if t.scheduleId.Some? then Some(Str(t.scheduleId.value)) else None,
            RealField(t.throttle), if t.storage then Some(Bool(true)) else None);
    ReadFour(RealField(t.timeout), if t.retries != 0 then Some(Int(t.retries)) else None,
             if t.retryDelay != 1.0 then Some(Float(t.retryDelay)) else None, RealField(t.scheduledAt), Recurrence(t));
  }

  predicate IsHead(f: Name) {
    f.Id? || f.Graph? || f.Function? || f.Args? || f.Kwargs?
  }

  lemma ReadHead(t: Task, rest: Pairs)
    ensures var d := Head(t, rest);
      && Read(d, Id) == Some(Str(t.id)) && Read(d, Graph) == Some(Str(t.graph)) && Read(d, Function) == Some(Str(t.func))
      && Read(d, Args) == Some(List(t.args)) && Read(d, Kwargs) == Some(Dict(t.kwargs))
    ensures forall g :: !IsHead(g) ==> Read(Head(t, rest), g) == Read(rest, g)
  {
    hide Read, With;
    var d4 := With(Kwargs, Some(Dict(t.kwargs)), rest);
    var d3 := With(Args, Some(List(t.args)), d4);
    var d2 := With(Function, Some(Str(t.func)), d3);
    var d1 := With(Graph, Some(Str(t.graph)), d2);
    ReadWith(Kwargs, Some(Dict(t.kwargs)), rest);
    ReadWith(Args, Some(List(t.args)), d4);
    ReadWith(Function, Some(Str(t.func)), d3);
    ReadWith(Graph, Some(Str(t.graph)), d2);
    ReadWith(Id, Some(Str(t.id)), d1);
  }

  /** Under every optional key, the task's value, and nothing where it is left at its default. */
  ghost predicate HoldsOptions(d: Pairs, t: Task) {
    && Read(d, Timeout) == RealField(t.timeout) && Read(d, ScheduledAt) == RealField(t.scheduledAt)
    && (Read(d, Retries) == if t.retries != 0 then Some(Int(t.retries)) else None)
    && (Read(d, RetryDelay) == if t.retryDelay != 1.0 then Some(Float(t.retryDelay)) else None)
    && Read(d, RecurInterval) == RealField(t.recurInterval) && Read(d, RecurDeadline) == RealField(t.recurDeadline)
    && (Read(d, RecurRemaining) == if t.recurRemaining.Some? then Some(Int(t.recurRemaining.value)) else None)
    && (Read(d, ScheduleId) == if t.scheduleId.Some? then Some(Str(t.scheduleId.value)) else None)
    && Read(d, Throttle) == RealField(t.throttle)
    && (Read(d, Storage) == if t.storage then Some(Bool(true)) else None)
  }

  ghost predicate HoldsHead(d: Pairs, t: Task) {
    && Read(d, Id) == Some(Str(t.id)) && Read(d, Graph) == Some(Str(t.graph)) && Read(d, Function) == Some(Str(t.func))
    && Read(d, Args) == Some(List(t.args)) && Read(d, Kwargs) == Some(Dict(t.kwargs))
  }

  /** A dictionary holds a task, perhaps among other keys. */
  ghost predicate HoldsTask(d: Pairs, t: Task) {
    HoldsHead(d, t) && HoldsOptions(d, t)
  }

  lemma SameOptions(d: Pairs, d': Pairs, t: Task)
    requires HoldsOptions(d, t) && forall f :: IsOption(f) ==> Read(d', f) == Read(d, f)
    ensures HoldsOptions(d', t)
  {
    hide Read, RealField;
  }

  lemma OptionsHold(t: Task)
    ensures HoldsOptions(Optional(t), t)
  {
    ReadOptions(t);
    hide Read, Optional, RealField;
  }

  lemma ToDictHolds(t: Task)
    ensures HoldsTask(ToDict(t), t)
  {
    OptionsHold(t);
    ReadHead(t, Optional(t));
    hide Read, Head, Optional, HoldsOptions;
    SameOptions(Optional(t), ToDict(t), t);
  }

  /** Adding other keys does not change what a dictionary holds of a task. */
  lemma SameKeysHold(d: Pairs, d': Pairs, t: Task)
    requires HoldsTask(d, t) && forall f :: IsHead(f) || IsOption(f) ==> Read(d', f) == Read(d, f)
    ensures HoldsTask(d', t)
  {
    hide Read, HoldsOptions;
    SameOptions(d, d', t);
  }

  /** Reading back what was written gives the task: every omitted key stands for the default
      that reading supplies. */
  lemma TaskRoundTrip(t: Task, d: Pairs, freshId: string)
    requires HoldsTask(d, t)
    ensures FromDict(d, freshId) == Some(t)
  {
    hide Read;
  }

  // ---- What is sent ----

  /** The task as the worker gets to see it: arguments encoded, everything else the same. */
  function Encoded(t: Task): Task {
    t.(args := SentAll(t.args), kwargs := SentValues(t.kwargs))
  }

  function SentField(v: Option<Value>): Option<Value> {
    if v.Some? then Some(Sent(v.value)) else None
  }

  lemma SentWith(f: Name, v: Option<Value>, rest: Pairs)
    ensures SentValues(With(f, v, rest)) == With(f, SentField(v), SentValues(rest))
    ensures AllStr(With(f, v, rest)) == AllStr(rest)
  {
    if v.Some? {
      PairsStep(Entry(Str(Text(f)), v.value, rest));
      Scalars(Str(Text(f)));
    }
    hide Text, Sent;
  }

  lemma SentScalars(r: Option<real>)
    ensures SentField(RealField(r)) == RealField(r)
  {
    if r.Some? {
      SentScalar(Float(r.value));
    }
  }

  lemma SentRecurrence(t: Task)
    ensures SentValues(Recurrence(t)) == Recurrence(t) && AllStr(Recurrence(t))
  {
    var storage := if t.storage then Some(Bool(true)) else None;
    var schedule := if t.scheduleId.Some? then Some(Str(t.scheduleId.value)) else None;
    var remaining := if t.recurRemaining.Some? then Some(Int(t.recurRemaining.value)) else None;
    if t.storage { SentScalar(Bool(true)); }
    if schedule.Some? { SentScalar(schedule.value); }
    if remaining.Some? { SentScalar(remaining.value); }
    SentScalars(t.throttle);
    SentScalars(t.recurDeadline);
    SentScalars(t.recurInterval);
    assert SentValues(Empty) == Empty && AllStr(Empty);
    hide SentValues, With, AllStr, Sent;
    var d6 := With(Storage, storage, Empty);
    var d5 := With(Throttle, RealField(t.throttle), d6);
    var d4 := With(ScheduleId, schedule, d5);
    var d3 := With(RecurRemaining, remaining, d4);
    var d2 := With(RecurDeadline, RealField(t.recurDeadline), d3);
    SentWith(Storage, storage, Empty);
    SentWith(Throttle, RealField(t.throttle), d6);
    SentWith(ScheduleId, schedule, d5);
    SentWith(RecurRemaining, remaining, d4);
    SentWith(RecurDeadline, RealField(t.recurDeadline), d3);
    SentWith(RecurInterval, RealField(t.recurInterval), d2);
  }

  lemma SentOptions(t: Task)
    ensures SentValues(Optional(t)) == Optional(t) && AllStr(Optional(t))
  {
    SentRecurrence(t);
    var retries := if t.retries != 0 then Some(Int(t.retries)) else None;
    var delay := if t.retryDelay != 1.0 then Some(Float(t.retryDelay)) else None;
    if retries.Some? { SentScalar(retries.value); }
    if delay.Some? { SentScalar(delay.value); }
    SentScalars(t.timeout);
    SentScalars(t.scheduledAt);
    hide SentValues, With, AllStr, Sent, Recurrence;
    var d4 := With(ScheduledAt, RealField(t.scheduledAt), Recurrence(t));
    var d3 := With(RetryDelay, delay, d4);
    var d2 := With(Retries, retries, d3);
    SentWith(ScheduledAt, RealField(t.scheduledAt), Recurrence(t));
    SentWith(RetryDelay, delay, d4);
    SentWith(Retries, retries, d3);
    SentWith(Timeout, RealField(t.timeout), d2);
  }

  lemma SentHead(t: Task, rest: Pairs)
    requires AllStr(t.kwargs)
    ensures SentValues(Head(t, rest)) == Head(Encoded(t), SentValues(rest))
    ensures AllStr(Head(t, rest)) == AllStr(rest)
  {
    SentCollection(List(t.args));
    SentDict(t.kwargs);
    SentScalar(Str(t.id));
    SentScalar(Str(t.graph));
    SentScalar(Str(t.func));
    hide SentValues, With, Sent, SentAll, AllStr;
    var d4 := With(Kwargs, Some(Dict(t.kwargs)), rest);
    var d3 := With(Args, Some(List(t.args)), d4);
    var d2 := With(Function, Some(Str(t.func)), d3);
    var d1 := With(Graph, Some(Str(t.graph)), d2);
    SentWith(Kwargs, Some(Dict(t.kwargs)), rest);
    SentWith(Args, Some(List(t.args)), d4);
    SentWith(Function, Some(Str(t.func)), d3);
    SentWith(Graph, Some(Str(t.graph)), d2);
    SentWith(Id, Some(Str(t.id)), d1);
  }

  /** to_json then from_json: the task comes back with its arguments encoded. */
  lemma JsonRoundTrip(t: Task, freshId: string)
    requires AllNames(t.kwargs)
    ensures Sent(Dict(ToDict(t))) == Dict(ToDict(Encoded(t)))
    ensures FromDict(ToDict(Encoded(t)), freshId) == Some(Encoded(t))
  {
    NamesRecoverable(t.kwargs, map[]);
    SentOptions(t);
    SentHead(t, Optional(t));
    SentDict(ToDict(t));
    assert Optional(Encoded(t)) == Optional(t);
    ToDictHolds(Encoded(t));
    TaskRoundTrip(Encoded(t), ToDict(Encoded(t)), freshId);
  }

  /** A dictionary with no more than a graph and a function name is read as a task with these
      defaults; without one of the two it is not read at all. */
  lemma ReadDefaults(d: Pairs, graph: string, func: string, freshId: string)
    requires Read(d, Graph) == Some(Str(graph)) && Read(d, Function) == Some(Str(func))
    requires forall f :: f != Graph && f != Function ==> Read(d, f) == None
    ensures FromDict(d, freshId)
         == Some(Task(freshId, graph, func, Nil, Empty, None, 0, 1.0, None, None, None, None, None, None, false))
  {
    hide Read, AsReal, AsInt, AsStr;
    Nothing();
    assert AsStr(Read(d, Graph)) == Some(graph) && AsStr(Read(d, Function)) == Some(func);
    assert Read(d, Id) == None && Read(d, Args) == None && Read(d, Kwargs) == None && Read(d, Timeout) == None;
    assert Read(d, Retries) == None && Read(d, RetryDelay) == None && Read(d, ScheduledAt) == None;
    assert Read(d, RecurInterval) == None && Read(d, RecurDeadline) == None && Read(d, RecurRemaining) == None;
    assert Read(d, ScheduleId) == None && Read(d, Throttle) == None && Read(d, Storage) == None;
  }

  lemma Nothing()
    ensures AsReal(None) == None && AsInt(None) == None && AsStr(None) == None
    ensures forall s :: AsStr(Some(Str(s))) == Some(s)
  {
  }

  lemma ReadNeedsBoth(d: Pairs, freshId: string)
    requires Read(d, Graph).None? || Read(d, Function).None?
    ensures FromDict(d, freshId).None?
  {
    hide Read;
  }
}
