/** The replay cache of the worker: time-ordered entries, evicted by age and by number. */
module ReplayCache {

  type Key = (string, string)
  type Entries = seq<(Key, real)>

  /** Drops entries from the front while they are older than ttl. */
  function DropExpired(items: Entries, ttl: real, now: real): Entries {
    if items != [] && now - items[0].1 > ttl then DropExpired(items[1..], ttl, now) else items
  }

  /** Drops entries from the front until at most capacity are left. */
  function Trim(items: Entries, capacity: nat): Entries {
    if |items| > capacity then items[|items| - capacity..] else items
  }

  function Evicted(items: Entries, ttl: real, capacity: nat, now: real): Entries {
    Trim(DropExpired(items, ttl, now), capacity)
  }

  ghost predicate Recorded(items: Entries, key: Key) {
    exists i :: 0 <= i < |items| && items[i].0 == key
  }

  class NonceLRU {
    const ttl: real
    const capacity: nat
    var items: Entries

    constructor (ttl: real, capacity: nat)
      ensures this.ttl == ttl && this.capacity == capacity && items == []
    {
      this.ttl, this.capacity, this.items := ttl, capacity, [];
    }

    method Evict(now: real)
      modifies this
      ensures items == Evicted(old(items), ttl, capacity, now)
    {
      while items != [] && now - items[0].1 > ttl
        invariant DropExpired(items, ttl, now) == DropExpired(old(items), ttl, now)
        decreases |items|
      {
        items := items[1..];
      }
      ghost var kept := items;
      while |items| > capacity
        invariant |items| <= |kept| && items == kept[|kept| - |items|..]
        invariant Trim(items, capacity) == Trim(kept, capacity)
        decreases |items|
      {
        items := items[1..];
      }
    }

    /** Evicts, then records the pair unless it is there: in time order, and never more than
        capacity + 1 entries. */
    method CheckAndAdd(client: string, nonce: string, now: real) returns (ok: bool)
      modifies this
      ensures var kept := Evicted(old(items), ttl, capacity, now);
        && ok == !Recorded(kept, (client, nonce))
        && items == if ok then kept + [((client, nonce), now)] else kept
      ensures |items| <= capacity + 1
    {
      Evict(now);
      ok := true;
      var kept := items;
      for i := 0 to |kept|
        invariant items == kept
        invariant ok <==> !Recorded(kept[..i], (client, nonce))
      {
        assert kept[..i + 1] == kept[..i] + [kept[i]];
        if items[i].0 == (client, nonce) {
          ok := false;
        }
        RecordedStep(kept[..i], kept[i], (client, nonce));
      }
      assert kept[..|kept|] == kept;
      if ok {
        items := items + [((client, nonce), now)];
      }
    }
  }

  lemma RecordedStep(items: Entries, entry: (Key, real), key: Key)
    ensures Recorded(items + [entry], key) <==> Recorded(items, key) || entry.0 == key
  {
    var more := items + [entry];
    if i :| 0 <= i < |items| && items[i].0 == key {
      assert more[i].0 == key;
    }
    if entry.0 == key {
      assert more[|items|].0 == key;
    }
  }

  // ---- Whole runs ----

  /** One call of check_and_add. */
  datatype Call = Call(key: Key, now: real)

  /** The cache, and the log of everything it ever accepted. */
  datatype State = State(items: Entries, log: Entries)

  ghost function Step(s: State, c: Call, ttl: real, capacity: nat): State {
    var kept := Evicted(s.items, ttl, capacity, c.now);
    if Recorded(kept, c.key) then State(kept, s.log)
    else State(kept + [(c.key, c.now)], s.log + [(c.key, c.now)])
  }

  ghost function Run(calls: seq<Call>, ttl: real, capacity: nat): State {
    if calls == [] then State([], [])
    else Step(Run(calls[..|calls| - 1], ttl, capacity), calls[|calls| - 1], ttl, capacity)
  }

  ghost predicate Accepts(calls: seq<Call>, i: nat, ttl: real, capacity: nat)
    requires i < |calls|
  {
    !Recorded(Evicted(Run(calls[..i], ttl, capacity).items, ttl, capacity, calls[i].now), calls[i].key)
  }

  /** The clock does not go back. */
  ghost predicate ClockRuns(calls: seq<Call>) {
    forall i, j :: 0 <= i < j < |calls| ==> calls[i].now <= calls[j].now
  }

  /** At most capacity pairs are recorded within any stretch of ttl. */
  ghost predicate NeverFull(log: Entries, ttl: real, capacity: nat) {
    forall i :: 0 <= i && i + capacity < |log| ==> log[i + capacity].1 - log[i].1 > ttl
  }

  /** The plain specification: the pair was recorded at most ttl ago. */
  ghost predicate SeenWithin(log: Entries, key: Key, now: real, ttl: real) {
    exists i :: 0 <= i < |log| && log[i].0 == key && now - log[i].1 <= ttl
  }

  ghost predicate TimeOrdered(items: Entries) {
    forall i, j :: 0 <= i < j < |items| ==> items[i].1 <= items[j].1
  }

  /** The cache is the end of the log, and everything before it is too old to count. */
  ghost predicate IsTail(s: State, ttl: real, now: real) {
    && |s.items| <= |s.log| && s.items == s.log[|s.log| - |s.items|..]
    && TimeOrdered(s.log)
    && (forall i :: 0 <= i < |s.log| ==> s.log[i].1 <= now)
    && (forall i :: 0 <= i < |s.log| - |s.items| ==> now - s.log[i].1 > ttl)
  }

  lemma {:induction false} DropIsSuffix(items: Entries, ttl: real, now: real)
    ensures var r := DropExpired(items, ttl, now);
      && |r| <= |items| && r == items[|items| - |r|..]
      && (forall i :: 0 <= i < |items| - |r| ==> now - items[i].1 > ttl)
      && (r != [] ==> now - r[0].1 <= ttl)
  {
    if items != [] && now - items[0].1 > ttl {
      DropIsSuffix(items[1..], ttl, now);
    }
  }

  lemma TooMany(log: Entries, start: nat, ttl: real, capacity: nat, now: real)
    requires NeverFull(log, ttl, capacity) && start + capacity < |log|
    requires forall i :: 0 <= i < |log| ==> log[i].1 <= now
    ensures now - log[start].1 > ttl
  {
    assert log[start + capacity].1 <= now;
  }

  lemma FewEnough(log: Entries, dropped: Entries, start: nat, ttl: real, capacity: nat, now: real)
    requires NeverFull(log, ttl, capacity) && start + |dropped| == |log| && dropped == log[start..]
    requires forall i :: 0 <= i < |log| ==> log[i].1 <= now
    requires dropped != [] ==> now - dropped[0].1 <= ttl
    ensures |dropped| <= capacity
  {
    if |dropped| > capacity {
      TooMany(log, start, ttl, capacity, now);
    }
  }

  /** While the cache never fills up, eviction only drops what is too old. */
  lemma EvictionIsByAge(s: State, ttl: real, capacity: nat, last: real, now: real)
    requires IsTail(s, ttl, last) && last <= now && NeverFull(s.log, ttl, capacity)
    ensures var kept := Evicted(s.items, ttl, capacity, now);
      && IsTail(State(kept, s.log), ttl, now)
      && forall key :: Recorded(kept, key) <==> SeenWithin(s.log, key, now, ttl)
  {
    DropIsSuffix(s.items, ttl, now);
    var dropped := DropExpired(s.items, ttl, now);
    var start := |s.log| - |dropped|;
    FewEnough(s.log, dropped, start, ttl, capacity, now);
    var t := State(dropped, s.log);
    assert Evicted(s.items, ttl, capacity, now) == dropped;
    forall i | 0 <= i < |s.log| - |dropped|
      ensures now - s.log[i].1 > ttl
    {
      if i >= |s.log| - |s.items| {
        assert s.items[i - (|s.log| - |s.items|)] == s.log[i];
      }
    }
    assert IsTail(t, ttl, now);
    hide *;
    forall key
      ensures Recorded(dropped, key) <==> SeenWithin(s.log, key, now, ttl)
    {
      TailDecides(t, ttl, now, key);
    }
  }

  lemma TailDecides(s: State, ttl: real, now: real, key: Key)
    requires IsTail(s, ttl, now) && (s.items != [] ==> now - s.items[0].1 <= ttl)
    ensures Recorded(s.items, key) <==> SeenWithin(s.log, key, now, ttl)
  {
    var start := |s.log| - |s.items|;
    if Recorded(s.items, key) {
      var i :| 0 <= i < |s.items| && s.items[i].0 == key;
      assert s.log[start + i] == s.items[i] && s.log[start] == s.items[0];
      assert s.log[start].1 <= s.log[start + i].1;
    }
    if SeenWithin(s.log, key, now, ttl) {
      var i :| 0 <= i < |s.log| && s.log[i].0 == key && now - s.log[i].1 <= ttl;
      assert i >= start;
      assert s.items[i - start] == s.log[i];
    }
  }

  lemma LogGrows(s: State, c: Call, ttl: real, capacity: nat)
    ensures s.log <= Step(s, c, ttl, capacity).log
  {
  }

  lemma NeverFullBefore(log: Entries, more: Entries, ttl: real, capacity: nat)
    requires log <= more && NeverFull(more, ttl, capacity)
    ensures NeverFull(log, ttl, capacity)
  {
    forall i | 0 <= i && i + capacity < |log|
      ensures log[i + capacity].1 - log[i].1 > ttl
    {
      assert log[i + capacity] == more[i + capacity] && log[i] == more[i];
    }
  }

  lemma TailAppend(s: State, entry: (Key, real), ttl: real, now: real)
    requires IsTail(s, ttl, now) && entry.1 == now
    ensures IsTail(State(s.items + [entry], s.log + [entry]), ttl, now)
  {
    var items, log := s.items + [entry], s.log + [entry];
    assert items == log[|log| - |items|..];
  }

  lemma StepKeepsTail(s: State, c: Call, ttl: real, capacity: nat, last: real)
    requires IsTail(s, ttl, last) && last <= c.now && NeverFull(s.log, ttl, capacity)
    ensures IsTail(Step(s, c, ttl, capacity), ttl, c.now)
  {
    EvictionIsByAge(s, ttl, capacity, last, c.now);
    var kept := Evicted(s.items, ttl, capacity, c.now);
    TailAppend(State(kept, s.log), (c.key, c.now), ttl, c.now);
    hide IsTail, NeverFull, Evicted, SeenWithin;
  }

  /** In every run the cache is the recent end of the log. */
  lemma {:induction false} RunKeepsTail(calls: seq<Call>, ttl: real, capacity: nat, now: real)
    requires ClockRuns(calls) && NeverFull(Run(calls, ttl, capacity).log, ttl, capacity)
    requires calls != [] ==> now == calls[|calls| - 1].now
    ensures IsTail(Run(calls, ttl, capacity), ttl, now)
  {
    if calls != [] {
      var k := |calls| - 1;
      var before := calls[..k];
      var s := Run(before, ttl, capacity);
      LogGrows(s, calls[k], ttl, capacity);
      NeverFullBefore(s.log, Run(calls, ttl, capacity).log, ttl, capacity);
      var last := if k == 0 then now else before[k - 1].now;
      RunKeepsTail(before, ttl, capacity, last);
      StepKeepsTail(s, calls[k], ttl, capacity, last);
    }
  }

  lemma {:induction false} LogOfPrefix(calls: seq<Call>, i: nat, ttl: real, capacity: nat)
    requires i <= |calls|
    ensures Run(calls[..i], ttl, capacity).log <= Run(calls, ttl, capacity).log
    decreases |calls|
  {
    if i < |calls| {
      var before := calls[..|calls| - 1];
      LogOfPrefix(before, i, ttl, capacity);
      assert before[..i] == calls[..i];
      LogGrows(Run(before, ttl, capacity), calls[|calls| - 1], ttl, capacity);
    } else {
      assert calls[..i] == calls;
    }
  }

  /** Every call of every run is decided as the plain specification decides it. */
  lemma AgreesWithPlain(calls: seq<Call>, i: nat, ttl: real, capacity: nat)
    requires ClockRuns(calls) && NeverFull(Run(calls, ttl, capacity).log, ttl, capacity) && i < |calls|
    ensures Accepts(calls, i, ttl, capacity)
       <==> !SeenWithin(Run(calls[..i], ttl, capacity).log, calls[i].key, calls[i].now, ttl)
  {
    var before := calls[..i];
    var s := Run(before, ttl, capacity);
    LogOfPrefix(calls, i, ttl, capacity);
    NeverFullBefore(s.log, Run(calls, ttl, capacity).log, ttl, capacity);
    var last := if i == 0 then calls[i].now else calls[i - 1].now;
    RunKeepsTail(before, ttl, capacity, last);
    EvictionIsByAge(s, ttl, capacity, last, calls[i].now);
  }

  /** An accepted call is in every later log. */
  lemma AcceptedIsLogged(calls: seq<Call>, i: nat, j: nat, ttl: real, capacity: nat) returns (n: nat)
    requires i < j <= |calls| && Accepts(calls, i, ttl, capacity)
    ensures n < |Run(calls[..j], ttl, capacity).log|
    ensures Run(calls[..j], ttl, capacity).log[n] == (calls[i].key, calls[i].now)
  {
    assert calls[..i + 1][..i] == calls[..i];
    var log := Run(calls[..i + 1], ttl, capacity).log;
    n := |log| - 1;
    assert log[n] == (calls[i].key, calls[i].now);
    assert calls[..j][..i + 1] == calls[..i + 1];
    LogOfPrefix(calls[..j], i + 1, ttl, capacity);
  }

  /** Fresh at a time: issued at most clockSkew away. */
  ghost predicate Fresh(issued: real, now: real, clockSkew: real) {
    -clockSkew <= now - issued <= clockSkew
  }

  /** With a ttl of at least twice the clock skew, the same envelope never passes both the
      freshness and the replay check twice. */
  lemma NothingPassesTwice(calls: seq<Call>, i: nat, j: nat, issued: real, clockSkew: real, ttl: real, capacity: nat)
    requires ClockRuns(calls) && NeverFull(Run(calls, ttl, capacity).log, ttl, capacity)
    requires ttl >= 2.0 * clockSkew && i < j < |calls| && calls[i].key == calls[j].key
    requires Fresh(issued, calls[i].now, clockSkew) && Fresh(issued, calls[j].now, clockSkew)
    ensures !(Accepts(calls, i, ttl, capacity) && Accepts(calls, j, ttl, capacity))
  {
    if Accepts(calls, i, ttl, capacity) {
      var n := AcceptedIsLogged(calls, i, j, ttl, capacity);
      AgreesWithPlain(calls, j, ttl, capacity);
      assert SeenWithin(Run(calls[..j], ttl, capacity).log, calls[j].key, calls[j].now, ttl);
    }
  }

  // ---- The bound is needed ----

  /** One call for each key, all at the same moment. */
  function AtOnce(keys: seq<Key>, now: real): seq<Call> {
    seq(|keys|, i requires 0 <= i < |keys| => Call(keys[i], now))
  }

  function Entered(keys: seq<Key>, now: real): Entries {
    seq(|keys|, i requires 0 <= i < |keys| => (keys[i], now))
  }

  ghost predicate AllDifferent(keys: seq<Key>) {
    forall i, j :: 0 <= i < j < |keys| ==> keys[i] != keys[j]
  }

  lemma NothingExpires(keys: seq<Key>, now: real, ttl: real, capacity: nat)
    requires ttl >= 0.0
    ensures Evicted(Entered(keys, now), ttl, capacity, now)
         == Entered(if |keys| > capacity then keys[|keys| - capacity..] else keys, now)
  {
    assert DropExpired(Entered(keys, now), ttl, now) == Entered(keys, now);
  }

  /** Different keys all enter, one more than the capacity included. */
  lemma {:induction false} AllEnter(keys: seq<Key>, now: real, ttl: real, capacity: nat)
    requires ttl >= 0.0 && AllDifferent(keys) && |keys| <= capacity + 1
    ensures Run(AtOnce(keys, now), ttl, capacity).items == Entered(keys, now)
    ensures forall i :: 0 <= i < |keys| ==> Accepts(AtOnce(keys, now), i, ttl, capacity)
  {
    if keys != [] {
      var k := |keys| - 1;
      var before, calls := keys[..k], AtOnce(keys, now);
      AllEnter(before, now, ttl, capacity);
      NothingExpires(before, now, ttl, capacity);
      hide Run, Evicted;
      assert calls[..k] == AtOnce(before, now);
      assert !Recorded(Entered(before, now), keys[k]);
      forall i | 0 <= i < k
        ensures Accepts(calls, i, ttl, capacity)
      {
        assert Accepts(calls[..k], i, ttl, capacity);
        assert calls[..k][..i] == calls[..i];
      }
      EntersLast(keys, now, ttl, capacity);
    }
  }

  lemma EntersLast(keys: seq<Key>, now: real, ttl: real, capacity: nat)
    requires keys != [] && Run(AtOnce(keys, now)[..|keys| - 1], ttl, capacity).items == Entered(keys[..|keys| - 1], now)
    requires Evicted(Entered(keys[..|keys| - 1], now), ttl, capacity, now) == Entered(keys[..|keys| - 1], now)
    requires !Recorded(Entered(keys[..|keys| - 1], now), keys[|keys| - 1])
    ensures Run(AtOnce(keys, now), ttl, capacity).items == Entered(keys, now)
  {
    var k := |keys| - 1;
    hide Evicted;
    assert Entered(keys, now) == Entered(keys[..k], now) + [(keys[k], now)];
  }

  /** One pair more than the capacity, all at one moment, pushes out the first: it is accepted a
      second time at that very moment. */
  lemma FullCacheForgets(keys: seq<Key>, now: real, ttl: real, capacity: nat)
    requires ttl >= 0.0 && |keys| == capacity + 1 && AllDifferent(keys)
    ensures var calls := AtOnce(keys, now) + [Call(keys[0], now)];
      Accepts(calls, 0, ttl, capacity) && Accepts(calls, |keys|, ttl, capacity)
  {
    var calls := AtOnce(keys, now) + [Call(keys[0], now)];
    AllEnter(keys, now, ttl, capacity);
    NothingExpires(keys, now, ttl, capacity);
    hide Run, Evicted;
    assert calls[..|keys|] == AtOnce(keys, now) && calls[..0] == AtOnce(keys, now)[..0];
    assert Accepts(AtOnce(keys, now), 0, ttl, capacity);
    assert calls[0] == AtOnce(keys, now)[0];
    assert keys[|keys| - capacity..] == keys[1..];
    assert !Recorded(Entered(keys[1..], now), keys[0]);
  }
}
