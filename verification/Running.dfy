/** When a reconstructed program runs to its end, in terms of the needed nodes and their order. */
module Running {
  import opened Options
  import opened Dictionary
  import opened Reachability
  import opened Nodes
  import opened StoreContents
  import opened Reconstruction
  import opened Emission
  import opened Semantics
  import opened Scripts

  /** The names that a node's defaults look up when its definition runs, captures included. */
  ghost function LooksUp(needed: Dict<FunctionNode>, q: string): set<string> {
    DefaultNames(DefOf(needed, q).source.kwonly)
  }

  predicate SameClass(needed: Dict<FunctionNode>, a: string, b: string) {
    OwnerOf(needed, a).Some? && OwnerOf(needed, a) == OwnerOf(needed, b)
  }

  /** d is listed before q, and before every other member of q's class. */
  ghost predicate ListedBefore(needed: Dict<FunctionNode>, order: seq<string>, d: string, q: string) {
    exists i :: 0 <= i < |order| && order[i] == d && AheadOf(needed, order, i, q)
  }

  ghost predicate AheadOf(needed: Dict<FunctionNode>, order: seq<string>, i: int, q: string) {
    forall j :: 0 <= j < |order| && (order[j] == q || SameClass(needed, order[j], q)) ==> i < j
  }

  /** m is listed before q, in the same class. */
  ghost predicate EarlierMember(needed: Dict<FunctionNode>, order: seq<string>, m: string, q: string) {
    SameClass(needed, m, q) && exists i, j :: 0 <= i < j < |order| && order[i] == m && order[j] == q
  }

  /** The order defines a name in time for q: by a function or class listed before q and its
      whole class, or by an earlier method of the same class. */
  ghost predicate InTime(needed: Dict<FunctionNode>, order: seq<string>, q: string, x: string) {
    || (exists d :: ListedBefore(needed, order, d, q) && TopName(needed, d) == x)
    || (exists m :: EarlierMember(needed, order, m, q) && DefOf(needed, m).name == x)
  }

  // ---- One position of the order ----

  ghost predicate NamedBefore(needed: Dict<FunctionNode>, order: seq<string>, k: nat, x: string)
    requires k <= |order|
  {
    exists j :: 0 <= j < k && TopName(needed, order[j]) == x
  }

  /** A part is emitted at this position. */
  predicate Emits(needed: Dict<FunctionNode>, order: seq<string>, k: nat)
    requires k < |order|
  {
    OwnerOf(needed, order[k]).None? || OwnerOf(needed, order[k]).value !in Owners(needed, order[..k])
  }

  function PartAt(needed: Dict<FunctionNode>, order: seq<string>, k: nat): Part
    requires k < |order|
  {
    match OwnerOf(needed, order[k])
    case None => FunctionPart(DefOf(needed, order[k]))
    case Some(owner) => ClassBlock(needed, order, owner)
  }

  /** Whatever the part emitted here looks up is named before it, or above it in its block. */
  ghost predicate Supplied(needed: Dict<FunctionNode>, order: seq<string>, k: nat)
    requires k < |order|
  {
    match PartAt(needed, order, k)
    case FunctionPart(d) => forall x :: x in DefaultNames(d.source.kwonly) ==> NamedBefore(needed, order, k, x)
    case ClassPart(_, methods) =>
      forall n, x :: 0 <= n < |methods| && x in DefaultNames(methods[n].source.kwonly) ==>
        NamedBefore(needed, order, k, x) || EarlierMethod(methods, n, x)
  }

  ghost predicate AllAbove(parts: seq<Part>) {
    forall i :: 0 <= i < |parts| ==> DefaultsAbove(parts[..i], parts[i])
  }

  lemma AllAboveStep(parts: seq<Part>, part: Part)
    ensures AllAbove(parts + [part]) <==> AllAbove(parts) && DefaultsAbove(parts, part)
  {
    var more := parts + [part];
    assert more[..|parts|] == parts;
    assert forall i :: 0 <= i < |parts| ==> more[..i] == parts[..i] && more[i] == parts[i];
    hide DefaultsAbove;
    if AllAbove(more) {
      assert DefaultsAbove(more[..|parts|], more[|parts|]);
      forall i | 0 <= i < |parts|
        ensures DefaultsAbove(parts[..i], parts[i])
      {
        assert DefaultsAbove(more[..i], more[i]);
      }
    }
  }

  lemma DefinedInStep(parts: seq<Part>, part: Part, x: string)
    ensures DefinedIn(parts + [part], x) <==> DefinedIn(parts, x) || TopNameOf(part) == x
  {
    var more := parts + [part];
    if i :| 0 <= i < |parts| && TopNameOf(parts[i]) == x {
      assert TopNameOf(more[i]) == x;
    }
    if TopNameOf(part) == x {
      assert TopNameOf(more[|parts|]) == x;
    }
  }

  lemma PartName(needed: Dict<FunctionNode>, order: seq<string>, k: nat)
    requires k < |order| && Get(needed, order[k]).Some?
    ensures TopNameOf(PartAt(needed, order, k)) == TopName(needed, order[k])
  {
  }

  lemma SuppliedIsAbove(needed: Dict<FunctionNode>, order: seq<string>, k: nat, before: seq<Part>)
    requires k < |order|
    requires forall x :: DefinedIn(before, x) <==> NamedBefore(needed, order, k, x)
    ensures DefaultsAbove(before, PartAt(needed, order, k)) <==> Supplied(needed, order, k)
  {
    hide PartAt, DefinedIn, NamedBefore, DefaultNames, EarlierMethod;
  }

  /** A class that was met before gives nothing new. */
  lemma MetBefore(needed: Dict<FunctionNode>, order: seq<string>, k: nat)
    requires k < |order| && !Emits(needed, order, k) && forall q :: q in order ==> Get(needed, q).Some?
    ensures NamedBefore(needed, order, k, TopName(needed, order[k]))
  {
    var owner := OwnerOf(needed, order[k]);
    var q :| q in order[..k] && OwnerOf(needed, q) == owner;
    var j :| 0 <= j < k && order[j] == q;
    assert TopName(needed, order[j]) == TopName(needed, order[k]);
  }

  lemma EmitHere(needed: Dict<FunctionNode>, order: seq<string>, k: nat)
    requires k < |order|
    ensures EmitAt(needed, order, order[k], Owners(needed, order[..k]))
         == if Emits(needed, order, k) then [PartAt(needed, order, k)] else []
  {
  }

  lemma NamedBeforeStep(needed: Dict<FunctionNode>, order: seq<string>, k: nat, x: string)
    requires k < |order|
    ensures NamedBefore(needed, order, k + 1, x) <==> NamedBefore(needed, order, k, x) || TopName(needed, order[k]) == x
  {
    hide TopName;
  }

  /** What is emitted before a position defines the names listed before it, and its defaults
      are all above exactly when every part so far was supplied. */
  lemma {:induction false} PartsBefore(needed: Dict<FunctionNode>, order: seq<string>, k: nat) returns (before: seq<Part>)
    requires k <= |order| && forall q :: q in order ==> Get(needed, q).Some?
    ensures Emit(needed, order, order, {}) == before + Emit(needed, order, order[k..], Owners(needed, order[..k]))
    ensures forall x :: DefinedIn(before, x) <==> NamedBefore(needed, order, k, x)
    ensures AllAbove(before) <==> forall j :: 0 <= j < k && Emits(needed, order, j) ==> Supplied(needed, order, j)
    decreases k
  {
    hide *;
    if k == 0 {
      before := [];
      NothingBefore(needed, order);
    } else {
      var prior := PartsBefore(needed, order, k - 1);
      assert order[k - 1..][1..] == order[k..] && order[k - 1..][0] == order[k - 1];
      EmitStep(needed, order, order[k - 1..], Owners(needed, order[..k - 1]));
      OwnersStep(needed, order, k - 1);
      EmitHere(needed, order, k - 1);
      var rest := Emit(needed, order, order[k..], Owners(needed, order[..k]));
      var part := PartAt(needed, order, k - 1);
      forall x
        ensures NamedBefore(needed, order, k, x) <==> NamedBefore(needed, order, k - 1, x) || TopName(needed, order[k - 1]) == x
      {
        NamedBeforeStep(needed, order, k - 1, x);
      }
      if Emits(needed, order, k - 1) {
        before := prior + [part];
        assert prior + ([part] + rest) == before + rest;
        PartName(needed, order, k - 1);
        SuppliedIsAbove(needed, order, k - 1, prior);
        AllAboveStep(prior, part);
        forall x
          ensures DefinedIn(before, x) <==> NamedBefore(needed, order, k, x)
        {
          DefinedInStep(prior, part, x);
        }
      } else {
        before := prior;
        assert prior + ([] + rest) == before + rest;
        MetBefore(needed, order, k - 1);
      }
    }
  }

  lemma NothingBefore(needed: Dict<FunctionNode>, order: seq<string>)
    ensures order[0..] == order && Owners(needed, order[..0]) == {} && AllAbove([])
    ensures forall x :: !DefinedIn([], x) && !NamedBefore(needed, order, 0, x)
  {
  }

  /** The program emitted in an order runs exactly when every emitted part is supplied. */
  lemma RunsIfSupplied(needed: Dict<FunctionNode>, order: seq<string>)
    requires forall q :: q in order ==> Get(needed, q).Some?
    ensures Exec(Emit(needed, order, order, {})).Some?
       <==> forall k :: 0 <= k < |order| && Emits(needed, order, k) ==> Supplied(needed, order, k)
  {
    var before := PartsBefore(needed, order, |order|);
    assert order[|order|..] == [];
    EmitNothing(needed, order, Owners(needed, order[..|order|]));
    RunsIff(before);
    assert Emit(needed, order, order, {}) == before;
  }

  // ---- From positions to nodes ----

  /** Members keep the order. */
  lemma {:induction false} MembersInOrder(needed: Dict<FunctionNode>, order: seq<string>, owner: string, n: nat, x: string)
    requires Distinct(order) && n < |Members(needed, order, owner)|
    ensures var q := Members(needed, order, owner)[n];
      EarlierMethod(DefsOf(needed, Members(needed, order, owner)), n, x)
      <==> exists m :: EarlierMember(needed, order, m, q) && DefOf(needed, m).name == x
  {
    var members := Members(needed, order, owner);
    var q := members[n];
    MembersAreNeeded(needed, order, owner);
    hide DefOf, Members;
    if EarlierMethod(DefsOf(needed, members), n, x) {
      var j :| 0 <= j < n && DefsOf(needed, members)[j].name == x;
      MembersAscend(needed, order, owner, j, n);
      assert members[j] in members && members[n] in members;
      assert EarlierMember(needed, order, members[j], q);
    }
    if m :| EarlierMember(needed, order, m, q) && DefOf(needed, m).name == x {
      assert members[n] in members;
      assert m in order && OwnerOf(needed, m) == Some(owner);
      var j := PositionOf(members, m);
      if j >= n {
        MembersAscend(needed, order, owner, n, j);
      }
      assert DefsOf(needed, members)[j].name == x;
    }
  }

  /** Later members are listed later. */
  lemma {:induction false} MembersAscend(needed: Dict<FunctionNode>, order: seq<string>, owner: string, i: nat, j: nat)
    requires Distinct(order) && i <= j < |Members(needed, order, owner)|
    ensures var members := Members(needed, order, owner);
      exists a, b :: 0 <= a <= b < |order| && order[a] == members[i] && order[b] == members[j] && (i < j ==> a < b)
    decreases |order|
  {
    var k := |order| - 1;
    var members, before := Members(needed, order, owner), Members(needed, order[..k], owner);
    if j < |before| {
      MembersAscend(needed, order[..k], owner, i, j);
      var a, b :| 0 <= a <= b < k && order[..k][a] == before[i] && order[..k][b] == before[j] && (i < j ==> a < b);
      assert order[a] == members[i] && order[b] == members[j];
    } else {
      assert members[j] == order[k];
      if i == j {
        assert order[k] == members[i];
      } else {
        assert members[i] in before by { assert before[i] == members[i]; }
        MembersAreNeeded(needed, order[..k], owner);
        var a := PositionOf(order[..k], members[i]);
        assert order[a] == members[i] && order[k] == members[j];
      }
    }
  }

  /** Being named before the place of a part is being named by something listed before the
      node and its whole class. */
  lemma NamedBeforePlace(needed: Dict<FunctionNode>, order: seq<string>, k: nat, q: string, x: string)
    requires Distinct(order) && k < |order| && Emits(needed, order, k)
    requires q == order[k] || SameClass(needed, q, order[k])
    ensures NamedBefore(needed, order, k, x)
       <==> exists d :: ListedBefore(needed, order, d, q) && TopName(needed, d) == x
  {
    hide TopName;
    if j :| 0 <= j < k && TopName(needed, order[j]) == x {
      FirstOfItsClass(needed, order, k, q);
      assert AheadOf(needed, order, j, q);
      assert ListedBefore(needed, order, order[j], q);
    }
    if d :| ListedBefore(needed, order, d, q) && TopName(needed, d) == x {
      var i :| 0 <= i < |order| && order[i] == d && AheadOf(needed, order, i, q);
      assert order[k] == q || SameClass(needed, order[k], q);
      assert i < k;
    }
  }

  lemma FirstOfItsClass(needed: Dict<FunctionNode>, order: seq<string>, k: nat, q: string)
    requires Distinct(order) && k < |order| && Emits(needed, order, k)
    requires q == order[k] || SameClass(needed, q, order[k])
    ensures forall j :: 0 <= j < |order| && (order[j] == q || SameClass(needed, order[j], q)) ==> k <= j
  {
    forall j | 0 <= j < k
      ensures order[j] != q && !SameClass(needed, order[j], q)
    {
      assert order[j] != order[k] && order[j] in order[..k];
    }
  }

  /** A standalone function is supplied exactly when all it looks up is there in time. */
  lemma FunctionSupplied(needed: Dict<FunctionNode>, order: seq<string>, k: nat)
    requires Distinct(order) && k < |order| && OwnerOf(needed, order[k]).None?
    ensures Supplied(needed, order, k) <==> forall x :: x in LooksUp(needed, order[k]) ==> InTime(needed, order, order[k], x)
  {
    var q := order[k];
    hide DefOf, DefaultNames, NamedBefore, ListedBefore, TopName;
    assert forall m :: !EarlierMember(needed, order, m, q);
    forall x
      ensures NamedBefore(needed, order, k, x) <==> InTime(needed, order, q, x)
    {
      NamedBeforePlace(needed, order, k, q, x);
    }
  }

  lemma ClassSupplied(needed: Dict<FunctionNode>, order: seq<string>, k: nat)
    requires Distinct(order) && k < |order| && OwnerOf(needed, order[k]).Some? && Emits(needed, order, k)
    ensures Supplied(needed, order, k)
       <==> forall q, x :: q in order && SameClass(needed, q, order[k]) && x in LooksUp(needed, q) ==> InTime(needed, order, q, x)
  {
    var owner := OwnerOf(needed, order[k]).value;
    var members := Members(needed, order, owner);
    assert PartAt(needed, order, k) == ClassPart(owner, DefsOf(needed, members));
    MembersAreNeeded(needed, order, owner);
    hide PartAt, DefOf, DefaultNames, NamedBefore, ListedBefore, TopName, EarlierMember, EarlierMethod, Members, Emits;
    forall n, x | 0 <= n < |members|
      ensures NamedBefore(needed, order, k, x) || EarlierMethod(DefsOf(needed, members), n, x) <==> InTime(needed, order, members[n], x)
    {
      assert members[n] in members;
      NamedBeforePlace(needed, order, k, members[n], x);
      MembersInOrder(needed, order, owner, n, x);
    }
    forall n | 0 <= n < |members|
      ensures DefaultNames(DefsOf(needed, members)[n].source.kwonly) == LooksUp(needed, members[n]) && members[n] in order && SameClass(needed, members[n], order[k])
    {
      assert members[n] in members;
    }
    if Supplied(needed, order, k) {
      forall q, x | q in order && SameClass(needed, q, order[k]) && x in LooksUp(needed, q)
        ensures InTime(needed, order, q, x)
      {
        var n := PositionOf(members, q);
        assert x in DefaultNames(DefsOf(needed, members)[n].source.kwonly);
        assert NamedBefore(needed, order, k, x) || EarlierMethod(DefsOf(needed, members), n, x);
      }
    }
  }

  lemma ClassIsEmitted(needed: Dict<FunctionNode>, order: seq<string>, q: string) returns (k: nat)
    requires q in order
    ensures k < |order| && Emits(needed, order, k) && (order[k] == q || SameClass(needed, q, order[k]))
  {
    k := PositionOf(order, q);
    if OwnerOf(needed, q).Some? {
      k := FirstMember(needed, order, OwnerOf(needed, q).value, k);
    }
  }

  /** The program emitted in any order of the needed nodes runs exactly when every name that a
      default looks up is defined in time. */
  lemma EmittedRunsIff(needed: Dict<FunctionNode>, order: seq<string>)
    requires Distinct(order) && forall q :: q in order <==> Get(needed, q).Some?
    ensures Exec(Emit(needed, order, order, {})).Some?
       <==> forall q, x :: Get(needed, q).Some? && x in LooksUp(needed, q) ==> InTime(needed, order, q, x)
  {
    RunsIfSupplied(needed, order);
    hide Emit, Exec, LooksUp, InTime, Supplied, Emits, Get, OwnerOf;
    forall k | 0 <= k < |order| && Emits(needed, order, k)
      ensures Supplied(needed, order, k)
        <==> forall q, x :: q in order && (q == order[k] || SameClass(needed, q, order[k])) && x in LooksUp(needed, q) ==> InTime(needed, order, q, x)
    {
      if OwnerOf(needed, order[k]).None? {
        FunctionSupplied(needed, order, k);
      } else {
        ClassSupplied(needed, order, k);
      }
    }
    if Exec(Emit(needed, order, order, {})).Some? {
      forall q, x | q in order && x in LooksUp(needed, q)
        ensures InTime(needed, order, q, x)
      {
        var k := ClassIsEmitted(needed, order, q);
      }
    }
  }

  /** A reconstructed program runs without NameError exactly when every name that a default
      looks up is defined in time: by a function or class that the order lists before the
      function, or before the whole class of the method, or by an earlier method of that class. */
  lemma ProgramRunsIff(needed: Dict<FunctionNode>, parts: seq<Part>)
    requires UniqueKeys(needed) && Program(needed) == Ok(parts)
    ensures Exec(parts).Some?
       <==> forall q, x :: Get(needed, q).Some? && x in LooksUp(needed, q) ==> InTime(needed, Order(needed).value, q, x)
  {
    OrderIsNeeded(needed);
    hide Order, Exec, LooksUp, InTime;
    EmittedRunsIff(needed, Order(needed).value);
  }
}
