/** Which programs run whatever dependency-first order the sorter chooses. */
module Orders {
  import opened Dictionary
  import opened Reachability
  import opened TopologicalSort
  import opened Nodes
  import opened StoreContents
  import opened Reconstruction
  import opened Emission
  import opened Semantics
  import opened Running

  /** All needed nodes, each after its dependencies. */
  ghost predicate Sorted(needed: Dict<FunctionNode>, order: seq<string>) {
    && Ordered(Keys(needed), NeededEdges(needed), order)
    && forall q :: q in order <==> Get(needed, q).Some?
  }

  /** d is m itself, or a dependency of it, or one of those, and so on. */
  ghost predicate Below(needed: Dict<FunctionNode>, m: string, d: string) {
    Reaches(NeededEdges(needed), m, d)
  }

  /** What q looks up as x is there when m is met, the first member of q's class or q itself: a
      dependency of m goes by that name, or another method of the class does that m or q depends
      on. */
  ghost predicate DefinedBelow(needed: Dict<FunctionNode>, q: string, m: string, x: string) {
    || (exists d :: Below(needed, m, d) && d != m && TopName(needed, d) == x)
    || (exists s :: SameClass(needed, s, q) && s != q && (Below(needed, q, s) || Below(needed, m, s)) && DefOf(needed, s).name == x)
  }

  /** All that any default looks up is defined below, whichever member of the class comes first. */
  ghost predicate AlwaysInTime(needed: Dict<FunctionNode>) {
    forall q, x, m :: Get(needed, q).Some? && x in LooksUp(needed, q) && (m == q || SameClass(needed, m, q)) ==>
      DefinedBelow(needed, q, m, x)
  }

  // ---- What is below comes earlier ----

  lemma BelowEarlier(needed: Dict<FunctionNode>, order: seq<string>, k: nat, d: string)
    requires Sorted(needed, order) && k < |order| && Below(needed, order[k], d) && d != order[k]
    ensures d in order[..k]
  {
    var g := NeededEdges(needed);
    var p :| PathBetween(g, p, order[k], d);
    PathDescends(Keys(needed), g, order, p, k);
  }

  lemma DefinedBelowIsInTime(needed: Dict<FunctionNode>, order: seq<string>, q: string, k: nat, x: string)
    requires Sorted(needed, order) && q in order && k < |order| && Emits(needed, order, k)
    requires order[k] == q || SameClass(needed, q, order[k])
    requires DefinedBelow(needed, q, order[k], x)
    ensures InTime(needed, order, q, x)
  {
    var m := order[k];
    FirstOfItsClass(needed, order, k, q);
    hide Sorted, Below, TopName, DefOf, Emits;
    if d :| Below(needed, m, d) && d != m && TopName(needed, d) == x {
      BelowEarlier(needed, order, k, d);
      var i :| 0 <= i < k && order[i] == d;
      assert AheadOf(needed, order, i, q);
      assert ListedBefore(needed, order, d, q);
    } else {
      var s :| SameClass(needed, s, q) && s != q && (Below(needed, q, s) || Below(needed, m, s)) && DefOf(needed, s).name == x;
      var j := PositionOf(order, q);
      assert k <= j;
      if Below(needed, q, s) {
        BelowEarlier(needed, order, j, s);
      } else if s != m {
        BelowEarlier(needed, order, k, s);
      }
      assert exists i :: 0 <= i < j && order[i] == s;
      assert EarlierMember(needed, order, s, q);
    }
  }

  // ---- Moving what is below to the front ----

  ghost function Kept(order: seq<string>, s: set<string>): seq<string> {
    if order == [] then [] else (if order[0] in s then [order[0]] else []) + Kept(order[1..], s)
  }

  /** The members of s first, both parts in their order. */
  ghost function Front(order: seq<string>, s: set<string>): seq<string> {
    Kept(order, s) + Kept(order, Elements(order) - s)
  }

  ghost predicate PrefixOf(s: set<string>, order: seq<string>) {
    forall i, j :: 0 <= i < j < |order| && order[j] in s ==> order[i] in s
  }

  lemma {:induction false} KeptExact(order: seq<string>, s: set<string>)
    ensures forall n :: n in Kept(order, s) <==> n in order && n in s
    ensures Distinct(order) ==> Distinct(Kept(order, s))
  {
    if order != [] {
      KeptExact(order[1..], s);
      assert order == [order[0]] + order[1..];
    }
  }

  /** What is kept stays in order. */
  lemma {:induction false} KeptInOrder(order: seq<string>, s: set<string>, a: string, j: nat)
    requires Distinct(order) && a in s && j < |Kept(order, s)|
    requires exists i, k :: 0 <= i < k < |order| && order[i] == a && order[k] == Kept(order, s)[j]
    ensures a in Kept(order, s)[..j]
  {
    var i, k :| 0 <= i < k < |order| && order[i] == a && order[k] == Kept(order, s)[j];
    var kept, rest := Kept(order, s), Kept(order[1..], s);
    KeptExact(order[1..], s);
    if order[0] in s {
      assert kept[0] == order[0];
      if i == 0 {
        assert order[k] != order[0];
        assert j > 0 && kept[..j][0] == a;
      } else {
        assert order[k] != order[0] && j > 0;
        assert rest[j - 1] == kept[j] && order[1..][i - 1] == a && order[1..][k - 1] == rest[j - 1];
        KeptInOrder(order[1..], s, a, j - 1);
        assert kept[..j] == [order[0]] + rest[..j - 1];
      }
    } else {
      assert i > 0 && order[1..][i - 1] == a && order[1..][k - 1] == rest[j];
      assert kept == rest;
      KeptInOrder(order[1..], s, a, j);
    }
  }

  lemma FrontExact(order: seq<string>, s: set<string>)
    requires Distinct(order)
    ensures Distinct(Front(order, s)) && forall n :: n in Front(order, s) <==> n in order
    ensures PrefixOf(s, Front(order, s))
  {
    var a, b := Kept(order, s), Kept(order, Elements(order) - s);
    KeptExact(order, s);
    KeptExact(order, Elements(order) - s);
    hide Kept;
    var f := a + b;
    forall i, j | 0 <= i < j < |f|
      ensures f[i] != f[j] && (f[j] in s ==> f[i] in s)
    {
      if i < |a| {
        assert f[i] in a;
      }
      if j >= |a| {
        assert f[j] in b;
      }
    }
  }

  lemma FrontBefore(order: seq<string>, s: set<string>, j: nat, k: nat, p: string)
    requires Distinct(order) && j < |Front(order, s)| && k < |order| && order[k] == Front(order, s)[j]
    requires p in order[..k] && (order[k] in s ==> p in s)
    ensures p in Front(order, s)[..j]
  {
    var a, b, f := Kept(order, s), Kept(order, Elements(order) - s), Front(order, s);
    KeptExact(order, s);
    KeptExact(order, Elements(order) - s);
    hide Kept, Distinct;
    var i :| 0 <= i < k && order[i] == p;
    if j < |a| {
      assert f[j] in a;
      KeptInOrder(order, s, p, j);
      assert f[..j] == a[..j];
    } else if p in s {
      assert p in a && a <= f[..j];
    } else {
      assert b[j - |a|] == f[j];
      KeptInOrder(order, Elements(order) - s, p, j - |a|);
      assert f[..j] == a + b[..j - |a|];
    }
  }

  lemma FrontSorted(needed: Dict<FunctionNode>, order: seq<string>, s: set<string>)
    requires Sorted(needed, order) && forall n, p :: n in s && p in Successors(NeededEdges(needed), n) ==> p in s
    ensures Sorted(needed, Front(order, s))
  {
    var g, f := NeededEdges(needed), Front(order, s);
    FrontExact(order, s);
    hide NeededEdges, Successors, Get, Front, Keys, PrefixOf;
    forall j, p | 0 <= j < |f| && p in Successors(g, f[j])
      ensures p in f[..j]
    {
      assert f[j] in f;
      var k := PositionOf(order, f[j]);
      FrontBefore(order, s, j, k, p);
    }
  }

  /** A larger front stays one. */
  lemma FrontKeepsPrefix(order: seq<string>, s: set<string>, t: set<string>)
    requires Distinct(order) && PrefixOf(t, order) && s <= t
    ensures PrefixOf(t, Front(order, s))
  {
    var f := Front(order, s);
    var a, b := Kept(order, s), Kept(order, Elements(order) - s);
    FrontExact(order, s);
    KeptExact(order, s);
    KeptExact(order, Elements(order) - s);
    forall i, j | 0 <= i < j < |f| && f[j] in t
      ensures f[i] in t
    {
      if i < |a| {
        assert f[i] in a;
      } else {
        assert f[i] in b && f[j] in b;
        var ki := PositionOf(order, f[i]);
        var kj := PositionOf(order, f[j]);
        if kj < ki {
          FrontBefore(order, s, i, ki, f[j]);
          assert false;
        }
      }
    }
  }

  /** The needed nodes below m. */
  ghost function AllBelow(needed: Dict<FunctionNode>, order: seq<string>, m: string): set<string> {
    set d | d in order && Below(needed, m, d)
  }

  lemma AllBelowClosed(needed: Dict<FunctionNode>, order: seq<string>, m: string)
    requires Sorted(needed, order)
    ensures forall n, p :: n in AllBelow(needed, order, m) && p in Successors(NeededEdges(needed), n) ==> p in AllBelow(needed, order, m)
  {
    var g := NeededEdges(needed);
    forall n, p | n in AllBelow(needed, order, m) && p in Successors(g, n)
      ensures p in AllBelow(needed, order, m)
    {
      ReachesExtend(g, m, n, p);
      var k := PositionOf(order, n);
      assert p in order[..k];
    }
  }

  /** An order that lists first what is below m, then what is below q. */
  lemma BelowFirst(needed: Dict<FunctionNode>, m: string, q: string) returns (order: seq<string>)
    requires UniqueKeys(needed) && Order(needed).Some? && Get(needed, m).Some? && Get(needed, q).Some?
    ensures Sorted(needed, order) && m in order && q in order
    ensures PrefixOf(AllBelow(needed, order, m), order)
    ensures PrefixOf(AllBelow(needed, order, m) + AllBelow(needed, order, q), order)
  {
    var first := Order(needed).value;
    OrderIsNeeded(needed);
    KeysExact(needed);
    NeededWithin(needed);
    StaticOrderSorts(Keys(needed), NeededEdges(needed));
    assert Sorted(needed, first);
    hide Order, NeededEdges, Below, Get, PrefixOf, Front;
    var s, t := AllBelow(needed, first, m), AllBelow(needed, first, m) + AllBelow(needed, first, q);
    AllBelowClosed(needed, first, m);
    AllBelowClosed(needed, first, q);
    FrontSorted(needed, first, t);
    FrontExact(first, t);
    var second := Front(first, t);
    FrontSorted(needed, second, s);
    FrontExact(second, s);
    FrontKeepsPrefix(second, s, t);
    order := Front(second, s);
    assert AllBelow(needed, order, m) == s && AllBelow(needed, order, q) == AllBelow(needed, first, q);
  }

  /** What such an order defines in time is defined below. */
  lemma InTimeIsBelow(needed: Dict<FunctionNode>, order: seq<string>, q: string, m: string, x: string)
    requires Sorted(needed, order) && m in order && q in order && (m == q || SameClass(needed, m, q))
    requires PrefixOf(AllBelow(needed, order, m), order)
    requires PrefixOf(AllBelow(needed, order, m) + AllBelow(needed, order, q), order)
    requires InTime(needed, order, q, x)
    ensures DefinedBelow(needed, q, m, x)
  {
    ReachesSelf(NeededEdges(needed), m);
    ReachesSelf(NeededEdges(needed), q);
    assert m in AllBelow(needed, order, m) && q in AllBelow(needed, order, q);
    var k := PositionOf(order, m);
    var j := PositionOf(order, q);
    hide TopName, DefOf, Below;
    if d :| ListedBefore(needed, order, d, q) && TopName(needed, d) == x {
      var i :| 0 <= i < |order| && order[i] == d && AheadOf(needed, order, i, q);
      assert i < k && order[i] in AllBelow(needed, order, m);
    } else {
      var s :| EarlierMember(needed, order, s, q) && DefOf(needed, s).name == x;
      var i, n :| 0 <= i < n < |order| && order[i] == s && order[n] == q;
      assert order[i] in AllBelow(needed, order, m) + AllBelow(needed, order, q);
    }
  }

  /** A program runs in every dependency-first order exactly when all that its defaults look up
      is defined below: the dependencies alone decide. */
  lemma RunsInEveryOrderIff(needed: Dict<FunctionNode>)
    requires UniqueKeys(needed) && Order(needed).Some?
    ensures (forall order :: Sorted(needed, order) ==> Exec(Emit(needed, order, order, {})).Some?) <==> AlwaysInTime(needed)
  {
    hide Order, Emit, Exec, Below, LooksUp, InTime, DefinedBelow, Get, OwnerOf;
    if AlwaysInTime(needed) {
      forall order | Sorted(needed, order)
        ensures Exec(Emit(needed, order, order, {})).Some?
      {
        EmittedRunsIff(needed, order);
        forall q, x | Get(needed, q).Some? && x in LooksUp(needed, q)
          ensures InTime(needed, order, q, x)
        {
          var k := ClassIsEmitted(needed, order, q);
          assert SameClass(needed, q, order[k]) ==> SameClass(needed, order[k], q);
          DefinedBelowIsInTime(needed, order, q, k, x);
        }
      }
    } else {
      var q, x, m :| Get(needed, q).Some? && x in LooksUp(needed, q) && (m == q || SameClass(needed, m, q)) && !DefinedBelow(needed, q, m, x);
      MemberIsNeeded(needed, m, q);
      var order := BelowFirst(needed, m, q);
      EmittedRunsIff(needed, order);
      if InTime(needed, order, q, x) {
        InTimeIsBelow(needed, order, q, m, x);
      }
    }
  }

  lemma MemberIsNeeded(needed: Dict<FunctionNode>, m: string, q: string)
    requires Get(needed, q).Some? && (m == q || SameClass(needed, m, q))
    ensures Get(needed, m).Some?
  {
  }

  /** The sorter's own order is one of them. */
  lemma RunsByDependencies(needed: Dict<FunctionNode>, parts: seq<Part>)
    requires UniqueKeys(needed) && Program(needed) == Ok(parts) && AlwaysInTime(needed)
    ensures Exec(parts).Some?
  {
    RunsInEveryOrderIff(needed);
    OrderIsNeeded(needed);
    KeysExact(needed);
    NeededWithin(needed);
    StaticOrderSorts(Keys(needed), NeededEdges(needed));
    hide Order, AlwaysInTime, Exec;
    assert Sorted(needed, Order(needed).value);
  }
}
