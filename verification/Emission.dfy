/** What the emitted program contains and in which order. */
module Emission {
  import opened Options
  import opened Dictionary
  import opened Reachability
  import opened TopologicalSort
  import opened Nodes
  import opened StoreContents
  import opened Reconstruction

  function NamesIn(part: Part): seq<string> {
    match part
    case FunctionPart(def) => [def.qname]
    case ClassPart(_, methods) => seq(|methods|, i requires 0 <= i < |methods| => methods[i].qname)
  }

  /** The qualified names a program defines, in the order of their definitions. */
  function AllNames(parts: seq<Part>): seq<string> {
    if parts == [] then [] else NamesIn(parts[0]) + AllNames(parts[1..])
  }

  lemma {:induction false} AllNamesAppend(a: seq<Part>, b: seq<Part>)
    ensures AllNames(a + b) == AllNames(a) + AllNames(b)
  {
    if a == [] {
      assert a + b == b;
    } else {
      assert (a + b)[1..] == a[1..] + b;
      AllNamesAppend(a[1..], b);
      assert NamesIn(a[0]) + (AllNames(a[1..]) + AllNames(b)) == NamesIn(a[0]) + AllNames(a[1..]) + AllNames(b);
    }
  }

  lemma {:induction false} NameHasPart(parts: seq<Part>, q: string) returns (j: nat)
    requires q in AllNames(parts)
    ensures j < |parts| && q in NamesIn(parts[j])
  {
    if q in NamesIn(parts[0]) {
      j := 0;
    } else {
      var i := NameHasPart(parts[1..], q);
      j := i + 1;
    }
  }

  lemma {:induction false} NameIsListed(parts: seq<Part>, i: nat, q: string)
    requires i < |parts| && q in NamesIn(parts[i])
    ensures q in AllNames(parts)
  {
    if i > 0 {
      NameIsListed(parts[1..], i - 1, q);
    }
  }

  lemma NotInBoth(a: seq<string>, b: seq<string>, q: string)
    requires Distinct(a + b) && q in a
    ensures q !in b
  {
    var i :| 0 <= i < |a| && a[i] == q;
    forall j | 0 <= j < |b|
      ensures b[j] != q
    {
      assert (a + b)[i] == a[i] && (a + b)[|a| + j] == b[j];
    }
  }

  /** A qualified name is defined by one part only. */
  lemma ListedOnce(parts: seq<Part>, i: nat, j: nat, q: string)
    requires Distinct(AllNames(parts)) && i < j < |parts| && q in NamesIn(parts[i])
    ensures q !in NamesIn(parts[j])
  {
    hide *;
    var a, b := parts[..j], parts[j..];
    assert a + b == parts && a[i] == parts[i] && b[0] == parts[j];
    AllNamesAppend(a, b);
    NameIsListed(a, i, q);
    NotInBoth(AllNames(a), AllNames(b), q);
    if q in NamesIn(parts[j]) {
      NameIsListed(b, 0, q);
    }
  }

  /** The classes with a member among the given names. */
  function Owners(needed: Dict<FunctionNode>, names: seq<string>): set<string> {
    set q | q in names && OwnerOf(needed, q).Some? :: OwnerOf(needed, q).value
  }

  /** The names that are still to be emitted after the first k positions: standalone functions
      further on, and all members of classes not met yet. */
  ghost predicate StillToEmit(needed: Dict<FunctionNode>, order: seq<string>, k: nat, q: string)
    requires k <= |order|
  {
    q in order && match OwnerOf(needed, q)
                  case None => q in order[k..]
                  case Some(owner) => owner !in Owners(needed, order[..k])
  }

  lemma {:induction false} MembersDistinct(needed: Dict<FunctionNode>, order: seq<string>, owner: string)
    requires Distinct(order)
    ensures Distinct(Members(needed, order, owner))
  {
    if order != [] {
      var k := |order| - 1;
      MembersDistinct(needed, order[..k], owner);
      MembersAreNeeded(needed, order[..k], owner);
      assert order[k] !in order[..k];
    }
  }

  lemma BlockNames(needed: Dict<FunctionNode>, order: seq<string>, owner: string)
    ensures NamesIn(ClassBlock(needed, order, owner)) == Members(needed, order, owner)
  {
    var members := Members(needed, order, owner);
    forall i | 0 <= i < |members|
      ensures DefsOf(needed, members)[i].qname == members[i]
    {
    }
  }

  lemma OwnersStep(needed: Dict<FunctionNode>, order: seq<string>, k: nat)
    requires k < |order|
    ensures Owners(needed, order[..k + 1]) == EmittedAfter(needed, order[k], Owners(needed, order[..k]))
  {
    assert order[..k + 1] == order[..k] + [order[k]];
    var owner := OwnerOf(needed, order[k]);
    forall o
      ensures o in Owners(needed, order[..k + 1]) <==> o in EmittedAfter(needed, order[k], Owners(needed, order[..k]))
    {
      if o in Owners(needed, order[..k]) {
        var q :| q in order[..k] && OwnerOf(needed, q) == Some(o);
        assert q in order[..k + 1];
      }
      if owner == Some(o) {
        assert order[k] in order[..k + 1];
      }
    }
  }

  /** One position emits exactly the names that stop being outstanding. */
  lemma EmitAtNames(needed: Dict<FunctionNode>, order: seq<string>, k: nat)
    requires Distinct(order) && k < |order|
    ensures var names := AllNames(EmitAt(needed, order, order[k], Owners(needed, order[..k])));
      && Distinct(names)
      && forall q :: q in names <==> StillToEmit(needed, order, k, q) && !StillToEmit(needed, order, k + 1, q)
    ensures forall q :: StillToEmit(needed, order, k + 1, q) ==> StillToEmit(needed, order, k, q)
  {
    var emitted := Owners(needed, order[..k]);
    var part := EmitAt(needed, order, order[k], emitted);
    var owner := OwnerOf(needed, order[k]);
    OwnersStep(needed, order, k);
    assert order[k..] == [order[k]] + order[k + 1..];
    assert order[k] !in order[k + 1..] && order[k] !in order[..k];
    if owner.None? {
      assert AllNames(part) == [order[k]];
    } else if owner.value !in emitted {
      BlockNames(needed, order, owner.value);
      MembersDistinct(needed, order, owner.value);
      MembersAreNeeded(needed, order, owner.value);
      assert AllNames(part) == Members(needed, order, owner.value);
    } else {
      assert AllNames(part) == [];
    }
  }

  lemma DistinctConcat(a: seq<string>, b: seq<string>)
    requires Distinct(a) && Distinct(b) && forall q :: q in a ==> q !in b
    ensures Distinct(a + b)
  {
    var c := a + b;
    forall i, j | 0 <= i < j < |c|
      ensures c[i] != c[j]
    {
      if i < |a| <= j {
        assert c[i] in a && c[j] == b[j - |a|];
      }
    }
  }

  lemma {:induction false} EmitNames(needed: Dict<FunctionNode>, order: seq<string>, k: nat)
    requires Distinct(order) && k <= |order|
    ensures var names := AllNames(Emit(needed, order, order[k..], Owners(needed, order[..k])));
      && Distinct(names)
      && forall q :: q in names <==> StillToEmit(needed, order, k, q)
    decreases |order| - k
  {
    if k == |order| {
      assert order[..k] == order;
    } else {
      hide StillToEmit, EmitAt, Owners, Emit, EmittedAfter;
      var emitted := Owners(needed, order[..k]);
      assert order[k..][1..] == order[k + 1..];
      EmitStep(needed, order, order[k..], emitted);
      OwnersStep(needed, order, k);
      EmitAtNames(needed, order, k);
      EmitNames(needed, order, k + 1);
      var here := EmitAt(needed, order, order[k], emitted);
      var rest := Emit(needed, order, order[k + 1..], Owners(needed, order[..k + 1]));
      AllNamesAppend(here, rest);
      DistinctConcat(AllNames(here), AllNames(rest));
    }
  }

  /** Reconstruction emits every needed node exactly once, on its own or in its class block. */
  lemma EmitsEachOnce(needed: Dict<FunctionNode>, parts: seq<Part>)
    requires UniqueKeys(needed) && Program(needed) == Ok(parts)
    ensures Distinct(AllNames(parts))
    ensures forall q :: q in AllNames(parts) <==> Get(needed, q).Some?
  {
    var order := Order(needed).value;
    OrderIsNeeded(needed);
    assert order[0..] == order && Owners(needed, order[..0]) == {};
    EmitNames(needed, order, 0);
  }

  lemma NothingEmitted(needed: Dict<FunctionNode>, order: seq<string>)
    ensures order[0..] == order && Owners(needed, order[..0]) == {} && AllNames([]) == []
    ensures forall q :: q in order ==> StillToEmit(needed, order, 0, q)
  {
  }

  /** Splits the program where position k of the order is reached: what comes before it is
      everything that is no longer outstanding there. */
  lemma {:induction false} SplitAt(needed: Dict<FunctionNode>, order: seq<string>, k: nat) returns (before: seq<Part>)
    requires Distinct(order) && k <= |order|
    ensures Emit(needed, order, order, {}) == before + Emit(needed, order, order[k..], Owners(needed, order[..k]))
    ensures forall q :: q in AllNames(before) <==> q in order && !StillToEmit(needed, order, k, q)
    decreases k
  {
    hide StillToEmit, EmitAt, Owners, Emit, EmittedAfter, AllNames;
    if k == 0 {
      before := [];
      NothingEmitted(needed, order);
    } else {
      var prior := SplitAt(needed, order, k - 1);
      var emitted := Owners(needed, order[..k - 1]);
      assert order[k - 1..][1..] == order[k..] && order[k - 1..][0] == order[k - 1];
      EmitStep(needed, order, order[k - 1..], emitted);
      OwnersStep(needed, order, k - 1);
      EmitAtNames(needed, order, k - 1);
      var here := EmitAt(needed, order, order[k - 1], emitted);
      before := prior + here;
      AllNamesAppend(prior, here);
      var rest := Emit(needed, order, order[k..], Owners(needed, order[..k]));
      assert prior + (here + rest) == before + rest;
      OutstandingIsOrdered(needed, order, k - 1);
    }
  }

  lemma OutstandingIsOrdered(needed: Dict<FunctionNode>, order: seq<string>, k: nat)
    requires k <= |order|
    ensures forall q :: StillToEmit(needed, order, k, q) ==> q in order
  {
  }

  /** What the order lists before a position has been emitted there. */
  lemma EarlierIsEmitted(needed: Dict<FunctionNode>, order: seq<string>, k: nat, q: string)
    requires Distinct(order) && k <= |order| && q in order[..k]
    ensures q in order && !StillToEmit(needed, order, k, q)
  {
    var i :| 0 <= i < k && order[i] == q;
  }

  lemma PositionOf(order: seq<string>, q: string) returns (k: nat)
    requires q in order
    ensures k < |order| && order[k] == q
  {
    k :| 0 <= k < |order| && order[k] == q;
  }

  /** In the sorted order every needed dependency of a node comes earlier. */
  lemma DependenciesEarlier(needed: Dict<FunctionNode>, k: nat, d: string)
    requires UniqueKeys(needed) && Order(needed).Some? && k < |Order(needed).value|
    requires Get(needed, Order(needed).value[k]).Some? && Get(needed, d).Some?
    requires d in Get(needed, Order(needed).value[k]).value.dependencies
    ensures d in Order(needed).value[..k]
  {
    var order := Order(needed).value;
    KeysExact(needed);
    NeededWithin(needed);
    StaticOrderSorts(Keys(needed), NeededEdges(needed));
    FilterExact(Get(needed, order[k]).value.dependencies, Keys(needed));
    assert d in Successors(NeededEdges(needed), order[k]);
  }

  /** Every standalone function comes after the parts that hold its dependencies. */
  lemma FunctionAfterDependencies(needed: Dict<FunctionNode>, parts: seq<Part>, q: string) returns (i: nat)
    requires UniqueKeys(needed) && Program(needed) == Ok(parts)
    requires Get(needed, q).Some? && OwnerOf(needed, q).None?
    ensures i < |parts| && parts[i] == FunctionPart(DefOf(needed, q))
    ensures forall d :: d in Get(needed, q).value.dependencies && Get(needed, d).Some? ==> d in AllNames(parts[..i])
  {
    hide Emit, EmitAt, AllNames, StillToEmit, DefOf, Owners;
    var order := Order(needed).value;
    OrderIsNeeded(needed);
    var k := PositionOf(order, q);
    var before := SplitAt(needed, order, k);
    EmitStep(needed, order, order[k..], Owners(needed, order[..k]));
    StandaloneHere(needed, order, k);
    i := |before|;
    assert parts[..i] == before;
    forall d | d in Get(needed, q).value.dependencies && Get(needed, d).Some?
      ensures d in AllNames(parts[..i])
    {
      DependenciesEarlier(needed, k, d);
      EarlierIsEmitted(needed, order, k, d);
    }
  }

  lemma StandaloneHere(needed: Dict<FunctionNode>, order: seq<string>, k: nat)
    requires k < |order| && OwnerOf(needed, order[k]).None?
    ensures EmitAt(needed, order, order[k], Owners(needed, order[..k])) == [FunctionPart(DefOf(needed, order[k]))]
  {
  }

  // ---- Classes ----

  /** Every member of the child class depends on every member of the parent class, as the
      ordering edges of the graph provide. */
  ghost predicate ChildAfterParent(needed: Dict<FunctionNode>, child: string, parent: string) {
    forall c, p :: OwnerOf(needed, c) == Some(child) && OwnerOf(needed, p) == Some(parent) ==>
      p in Get(needed, c).value.dependencies
  }

  /** The first position with a member of a class. */
  lemma FirstMember(needed: Dict<FunctionNode>, order: seq<string>, owner: string, n: nat) returns (k: nat)
    requires n < |order| && OwnerOf(needed, order[n]) == Some(owner)
    ensures k <= n && OwnerOf(needed, order[k]) == Some(owner)
    ensures owner !in Owners(needed, order[..k])
    decreases n
  {
    if owner in Owners(needed, order[..n]) {
      var q :| q in order[..n] && OwnerOf(needed, q) == Some(owner);
      var m :| 0 <= m < n && order[m] == q;
      k := FirstMember(needed, order, owner, m);
    } else {
      k := n;
    }
  }

  lemma BlockHere(needed: Dict<FunctionNode>, order: seq<string>, k: nat, owner: string)
    requires k < |order| && OwnerOf(needed, order[k]) == Some(owner) && owner !in Owners(needed, order[..k])
    ensures EmitAt(needed, order, order[k], Owners(needed, order[..k])) == [ClassBlock(needed, order, owner)]
  {
  }

  /** A class block follows everything that its first member depends on. */
  lemma BlockAfterDependencies(needed: Dict<FunctionNode>, parts: seq<Part>, owner: string, n: string)
      returns (i: nat, first: string)
    requires UniqueKeys(needed) && Program(needed) == Ok(parts) && OwnerOf(needed, n) == Some(owner)
    ensures i < |parts| && parts[i] == ClassBlock(needed, Order(needed).value, owner)
    ensures OwnerOf(needed, first) == Some(owner)
    ensures forall d :: d in Get(needed, first).value.dependencies && Get(needed, d).Some? ==> d in AllNames(parts[..i])
  {
    hide Emit, EmitAt, AllNames, StillToEmit, ClassBlock, Owners;
    var order := Order(needed).value;
    OrderIsNeeded(needed);
    var m := PositionOf(order, n);
    var k := FirstMember(needed, order, owner, m);
    first := order[k];
    var before := SplitAt(needed, order, k);
    EmitStep(needed, order, order[k..], Owners(needed, order[..k]));
    BlockHere(needed, order, k, owner);
    i := |before|;
    assert parts[..i] == before;
    forall d | d in Get(needed, first).value.dependencies && Get(needed, d).Some?
      ensures d in AllNames(parts[..i])
    {
      DependenciesEarlier(needed, k, d);
      EarlierIsEmitted(needed, order, k, d);
    }
  }

  /** With ordering edges from every child method to every parent method, the block of the
      parent class comes before the block of the child class, whole. */
  lemma ParentBlockFirst(needed: Dict<FunctionNode>, parts: seq<Part>, child: string, parent: string, c: string)
      returns (i: nat)
    requires UniqueKeys(needed) && Program(needed) == Ok(parts)
    requires OwnerOf(needed, c) == Some(child) && ChildAfterParent(needed, child, parent)
    ensures i < |parts| && parts[i] == ClassBlock(needed, Order(needed).value, child)
    ensures forall p :: OwnerOf(needed, p) == Some(parent) ==> p in AllNames(parts[..i])
  {
    var first: string;
    i, first := BlockAfterDependencies(needed, parts, child, c);
  }
}
