/** The topological sort that reconstruction relies on, graphlib.TopologicalSorter. */
module TopologicalSort {
  import opened Options
  import opened Reachability

  /** The edges stay within the given nodes. */
  ghost predicate Within(g: Edges, names: seq<Node>) {
    && (forall n :: n in g ==> n in names)
    && forall n, m :: n in g && m in g[n] ==> m in names
  }

  // ---- The sort ----

  /** The sorter enters a node when it is first mentioned. */
  function Mention(seen: seq<Node>, n: Node): seq<Node> {
    if n in seen then seen else seen + [n]
  }

  function MentionAll(seen: seq<Node>, ns: seq<Node>): seq<Node>
    decreases |ns|
  {
    if ns == [] then seen else MentionAll(Mention(seen, ns[0]), ns[1..])
  }

  /** add(n, *predecessors) for one name after the other. */
  function Mentioned(seen: seq<Node>, names: seq<Node>, g: Edges): seq<Node>
    decreases |names|
  {
    if names == [] then seen
    else Mentioned(MentionAll(Mention(seen, names[0]), Successors(g, names[0])), names[1..], g)
  }

  /** prepare: the nodes without predecessors, in the order of their first mention. */
  function Roots(nodes: seq<Node>, g: Edges): seq<Node> {
    if nodes == [] then []
    else (if Successors(g, nodes[0]) == [] then [nodes[0]] else []) + Roots(nodes[1..], g)
  }

  /** Nothing but n was missing. */
  predicate IsReleased(g: Edges, done: seq<Node>, n: Node, q: Node) {
    n in Successors(g, q) && forall p :: p in Successors(g, q) ==> p in done || p == n
  }

  /** done(n): the nodes that become ready, in the order in which they named n. */
  function Released(names: seq<Node>, g: Edges, done: seq<Node>, n: Node): seq<Node> {
    if names == [] then []
    else (if IsReleased(g, done, n, names[0]) then [names[0]] else []) + Released(names[1..], g, done, n)
  }

  /** static_order hands out round after round. The nodes of a round are marked done in the order
      in which they were handed out, so that all rounds together are one queue: what comes before
      position i is done. No round begins after as many nodes as there are names. */
  function Queue(names: seq<Node>, g: Edges, order: seq<Node>, i: nat): seq<Node>
    decreases |names| - i
  {
    if i >= |order| || i >= |names| then order
    else Queue(names, g, order + Released(names, g, order[..i], order[i]), i + 1)
  }

  /** All nodes in dependency-first order, or None where the source raises CycleError. */
  function StaticOrder(names: seq<Node>, g: Edges): Option<seq<Node>> {
    var order := Queue(names, g, Roots(Mentioned([], names, g), g), 0);
    if |order| == |names| then Some(order) else None
  }

  // ---- What the queue keeps ----

  lemma {:induction false} MentionAllExact(seen: seq<Node>, ns: seq<Node>)
    ensures forall n :: n in MentionAll(seen, ns) <==> n in seen || n in ns
    ensures Distinct(seen) ==> Distinct(MentionAll(seen, ns))
    decreases |ns|
  {
    if ns != [] {
      MentionAllExact(Mention(seen, ns[0]), ns[1..]);
      assert ns == [ns[0]] + ns[1..];
    }
  }

  lemma {:induction false} MentionedExact(seen: seq<Node>, names: seq<Node>, g: Edges)
    ensures forall n :: n in Mentioned(seen, names, g) <==>
      n in seen || n in names || exists q :: q in names && n in Successors(g, q)
    ensures Distinct(seen) ==> Distinct(Mentioned(seen, names, g))
    decreases |names|
  {
    if names != [] {
      var first := Mention(seen, names[0]);
      MentionAllExact(first, Successors(g, names[0]));
      MentionedExact(MentionAll(first, Successors(g, names[0])), names[1..], g);
      assert names == [names[0]] + names[1..];
      hide Successors;
    }
  }

  lemma {:induction false} RootsExact(nodes: seq<Node>, g: Edges)
    ensures forall n :: n in Roots(nodes, g) <==> n in nodes && Successors(g, n) == []
    ensures Distinct(nodes) ==> Distinct(Roots(nodes, g))
  {
    if nodes != [] {
      RootsExact(nodes[1..], g);
      assert nodes == [nodes[0]] + nodes[1..];
    }
  }

  lemma {:induction false} ReleasedExact(names: seq<Node>, g: Edges, done: seq<Node>, n: Node)
    ensures forall q :: q in Released(names, g, done, n) <==> q in names && IsReleased(g, done, n, q)
    ensures Distinct(names) ==> Distinct(Released(names, g, done, n))
  {
    if names != [] {
      ReleasedExact(names[1..], g, done, n);
      assert names == [names[0]] + names[1..];
    }
  }

  /** All predecessors of a node are done. */
  ghost predicate IsReady(g: Edges, done: seq<Node>, n: Node) {
    forall p :: p in Successors(g, n) ==> p in done
  }

  /** Distinct members of names, each after all its predecessors. */
  ghost predicate Ordered(names: seq<Node>, g: Edges, order: seq<Node>) {
    && Distinct(order)
    && (forall n :: n in order ==> n in names)
    && forall i, p :: 0 <= i < |order| && p in Successors(g, order[i]) ==> p in order[..i]
  }

  /** Exactly the nodes whose predecessors are done have been handed out. */
  ghost predicate Fair(names: seq<Node>, g: Edges, order: seq<Node>, i: nat) {
    && i <= |order|
    && forall n :: n in names ==> (n in order <==> IsReady(g, order[..i], n))
  }

  lemma RootsAreFair(names: seq<Node>, g: Edges)
    requires Distinct(names) && Within(g, names)
    ensures Ordered(names, g, Roots(Mentioned([], names, g), g)) && Fair(names, g, Roots(Mentioned([], names, g), g), 0)
  {
    var nodes := Mentioned([], names, g);
    MentionedExact([], names, g);
    RootsExact(nodes, g);
    forall n | n in nodes
      ensures n in names
    {
    }
    forall n
      ensures Successors(g, n) == [] <==> IsReady(g, [], n)
    {
      if Successors(g, n) != [] {
        assert Successors(g, n)[0] in Successors(g, n);
      }
    }
    var roots := Roots(nodes, g);
    forall k | 0 <= k < |roots|
      ensures Successors(g, roots[k]) == []
    {
      assert roots[k] in roots;
    }
  }

  lemma ReleasedKeepOrdered(names: seq<Node>, g: Edges, order: seq<Node>, i: nat)
    requires Distinct(names) && Ordered(names, g, order) && Fair(names, g, order, i) && i < |order|
    ensures Ordered(names, g, order + Released(names, g, order[..i], order[i]))
  {
    var more := Released(names, g, order[..i], order[i]);
    var after := order + more;
    ReleasedExact(names, g, order[..i], order[i]);
    forall q | q in more
      ensures q !in order && forall p :: p in Successors(g, q) ==> p in order[..i + 1]
    {
      assert IsReleased(g, order[..i], order[i], q);
      assert !IsReady(g, order[..i], q);
      assert order[..i + 1] == order[..i] + [order[i]];
    }
    forall j, k | 0 <= j < k < |after|
      ensures after[j] != after[k]
    {
      if j < |order| <= k {
        assert more[k - |order|] in more;
      }
    }
    forall k, p | 0 <= k < |after| && p in Successors(g, after[k])
      ensures p in after[..k]
    {
      if k < |order| {
        assert after[..k] == order[..k];
      } else {
        assert more[k - |order|] in more;
        assert order[..i + 1] <= after[..k];
      }
    }
  }

  lemma ReleasedKeepFair(names: seq<Node>, g: Edges, order: seq<Node>, i: nat)
    requires Distinct(names) && Ordered(names, g, order) && Fair(names, g, order, i) && i < |order|
    ensures Fair(names, g, order + Released(names, g, order[..i], order[i]), i + 1)
  {
    var more := Released(names, g, order[..i], order[i]);
    var after := order + more;
    ReleasedExact(names, g, order[..i], order[i]);
    assert after[..i + 1] == order[..i] + [order[i]];
    forall n | n in names
      ensures n in after <==> IsReady(g, after[..i + 1], n)
    {
      assert n in after <==> n in order || n in more;
      if IsReady(g, after[..i + 1], n) && !IsReady(g, order[..i], n) {
        assert IsReleased(g, order[..i], order[i], n);
      }
    }
  }

  lemma {:induction false} QueueOrdered(names: seq<Node>, g: Edges, order: seq<Node>, i: nat)
    requires Distinct(names) && Ordered(names, g, order) && Fair(names, g, order, i)
    ensures Ordered(names, g, Queue(names, g, order, i))
    ensures Fair(names, g, Queue(names, g, order, i), |Queue(names, g, order, i)|)
    decreases |names| - i
  {
    OrderedFits(names, g, order);
    if i < |order| {
      ReleasedKeepOrdered(names, g, order, i);
      ReleasedKeepFair(names, g, order, i);
      hide Ordered, Fair, Released;
      QueueOrdered(names, g, order + Released(names, g, order[..i], order[i]), i + 1);
    }
  }

  lemma OrderedFits(names: seq<Node>, g: Edges, order: seq<Node>)
    requires Distinct(names) && Ordered(names, g, order)
    ensures |order| <= |names|
  {
    DistinctSize(order);
    DistinctSize(names);
    assert Elements(order) <= Elements(names);
    SubsetSize(Elements(order), Elements(names));
  }

  lemma {:induction false} DistinctSize(s: seq<Node>)
    requires Distinct(s)
    ensures |Elements(s)| == |s|
  {
    if s != [] {
      DistinctSize(s[1..]);
      assert Elements(s) == Elements(s[1..]) + {s[0]};
    } else {
      assert Elements(s) == {};
    }
  }

  lemma SubsetSize(s: set<Node>, t: set<Node>)
    requires s <= t
    ensures |s| <= |t| && (|s| == |t| ==> s == t)
  {
    assert t == s + (t - s);
  }

  /** A successful sort is a permutation of the nodes with every dependency earlier. */
  lemma StaticOrderSorts(names: seq<Node>, g: Edges)
    requires Distinct(names) && Within(g, names) && StaticOrder(names, g).Some?
    ensures var order := StaticOrder(names, g).value;
      && Ordered(names, g, order)
      && |order| == |names|
      && forall n :: n in order <==> n in names
  {
    var order := StaticOrder(names, g).value;
    RootsAreFair(names, g);
    QueueOrdered(names, g, Roots(Mentioned([], names, g), g), 0);
    hide StaticOrder;
    SameSizeSameNodes(names, order);
  }

  lemma SameSizeSameNodes(names: seq<Node>, order: seq<Node>)
    requires Distinct(names) && Distinct(order) && |order| == |names| && forall n :: n in order ==> n in names
    ensures forall n :: n in order <==> n in names
  {
    DistinctSize(order);
    DistinctSize(names);
    SubsetSize(Elements(order), Elements(names));
    forall n
      ensures n in order <==> n in names
    {
      assert n in Elements(order) <==> n in Elements(names);
    }
  }

  // ---- It fails exactly on cycles ----

  ghost predicate HasSuccessorIn(g: Edges, s: set<Node>, n: Node) {
    exists m :: m in Successors(g, n) && m in s
  }

  /** Every node of s has a successor in s. */
  ghost predicate Stuck(g: Edges, s: set<Node>) {
    forall n :: n in s ==> HasSuccessorIn(g, s, n)
  }

  lemma StuckNext(g: Edges, s: set<Node>, n: Node) returns (m: Node)
    requires HasSuccessorIn(g, s, n)
    ensures m in Successors(g, n) && m in s
  {
    m :| m in Successors(g, n) && m in s;
  }

  lemma {:induction false} LongPath(g: Edges, s: set<Node>, n: Node, k: nat) returns (p: seq<Node>)
    requires Stuck(g, s) && n in s
    ensures |p| == k + 1 && IsPath(g, p) && forall i :: 0 <= i < |p| ==> p[i] in s
    decreases k
  {
    hide HasSuccessorIn, Successors;
    if k == 0 {
      p := [n];
    } else {
      var q := LongPath(g, s, n, k - 1);
      var m := StuckNext(g, s, q[|q| - 1]);
      p := q + [m];
    }
  }

  lemma StuckHasCycle(g: Edges, s: set<Node>) returns (c: seq<Node>)
    requires Stuck(g, s) && s != {}
    ensures IsCycle(g, c)
  {
    hide Stuck, Successors;
    var n :| n in s;
    var p := LongPath(g, s, n, |s|);
    if Distinct(p) {
      DistinctSize(p);
      assert Elements(p) <= s;
      SubsetSize(Elements(p), s);
      assert false;
    }
    var i, j :| 0 <= i < j < |p| && p[i] == p[j];
    c := p[i..j + 1];
    forall k | 0 <= k < |c| - 1
      ensures c[k + 1] in Successors(g, c[k])
    {
      assert p[i + k + 1] in Successors(g, p[i + k]);
    }
  }

  /** Along edges positions in a sorted order decrease. */
  lemma {:induction false} PathDescends(names: seq<Node>, g: Edges, order: seq<Node>, p: seq<Node>, i: nat)
    requires Ordered(names, g, order) && IsPath(g, p) && i < |order| && order[i] == p[0]
    ensures |p| > 1 ==> p[|p| - 1] in order[..i]
    decreases |p|
  {
    if |p| > 1 {
      assert p[1] in Successors(g, order[i]);
      var j :| 0 <= j < i && order[j] == p[1];
      var q := p[1..];
      forall k | 0 <= k < |q| - 1
        ensures q[k + 1] in Successors(g, q[k])
      {
        assert p[k + 2] in Successors(g, p[k + 1]);
      }
      PathDescends(names, g, order, q, j);
      if |q| == 1 {
        assert q[0] == order[j];
      } else {
        assert order[..j] <= order[..i];
      }
    }
  }

  lemma SomethingLeft(names: seq<Node>, order: seq<Node>)
    requires Distinct(names) && Distinct(order) && |order| != |names| && forall n :: n in order ==> n in names
    ensures Elements(names) - Elements(order) != {}
  {
    DistinctSize(order);
    DistinctSize(names);
    assert Elements(order) <= Elements(names);
    assert Elements(order) != Elements(names);
    assert Elements(order) == Elements(names) - (Elements(names) - Elements(order));
  }

  lemma NotReadyIsStuck(names: seq<Node>, g: Edges, order: seq<Node>, n: Node)
    requires Within(g, names) && n in names && !IsReady(g, order, n)
    ensures HasSuccessorIn(g, Elements(names) - Elements(order), n)
  {
    var m :| m in Successors(g, n) && m !in order;
    assert n in g && m in g[n];
    assert m in Elements(names) - Elements(order);
  }

  lemma LeftOverIsStuck(names: seq<Node>, g: Edges, order: seq<Node>)
    requires Distinct(names) && Within(g, names) && Ordered(names, g, order)
    requires Fair(names, g, order, |order|) && |order| != |names|
    ensures var s := Elements(names) - Elements(order); s != {} && Stuck(g, s)
  {
    SomethingLeft(names, order);
    assert order[..|order|] == order;
    hide Within, HasSuccessorIn, IsReady;
    forall n | n in Elements(names) - Elements(order)
      ensures HasSuccessorIn(g, Elements(names) - Elements(order), n)
    {
      NotReadyIsStuck(names, g, order, n);
    }
  }

  lemma SortedHasNoCycle(names: seq<Node>, g: Edges, order: seq<Node>, c: seq<Node>)
    requires Within(g, names) && Ordered(names, g, order) && forall n :: n in names ==> n in order
    ensures !IsCycle(g, c)
  {
    if IsCycle(g, c) {
      assert c[1] in Successors(g, c[0]);
      assert c[0] in g && c[1] in g[c[0]];
      assert c[0] in names;
      assert c[0] in order;
      var i :| 0 <= i < |order| && order[i] == c[0];
      PathDescends(names, g, order, c, i);
    }
  }

  /** The sort fails exactly when the graph has a cycle. */
  lemma StaticOrderFailsOnCycles(names: seq<Node>, g: Edges)
    requires Distinct(names) && Within(g, names)
    ensures StaticOrder(names, g).None? <==> exists c :: IsCycle(g, c)
  {
    var roots := Roots(Mentioned([], names, g), g);
    var order := Queue(names, g, roots, 0);
    RootsAreFair(names, g);
    QueueOrdered(names, g, roots, 0);
    if StaticOrder(names, g).None? {
      LeftOverIsStuck(names, g, order);
      var c := StuckHasCycle(g, Elements(names) - Elements(order));
    } else {
      StaticOrderSorts(names, g);
      forall c
        ensures !IsCycle(g, c)
      {
        SortedHasNoCycle(names, g, order, c);
      }
    }
  }

  // ---- The order within a round ----

  /** Nodes that one node releases come in the order of the names. */
  lemma {:induction false} ReleasedInOrder(names: seq<Node>, g: Edges, done: seq<Node>, n: Node, i: nat, j: nat) returns (a: nat, b: nat)
    requires Distinct(names) && i < j < |names| && IsReleased(g, done, n, names[i]) && IsReleased(g, done, n, names[j])
    ensures a < b < |Released(names, g, done, n)|
    ensures Released(names, g, done, n)[a] == names[i] && Released(names, g, done, n)[b] == names[j]
    decreases |names|
  {
    hide IsReleased;
    var rest := Released(names[1..], g, done, n);
    if i == 0 {
      ReleasedExact(names[1..], g, done, n);
      assert names[1..][j - 1] in names[1..];
      b :| 0 <= b < |rest| && rest[b] == names[j];
      a, b := 0, b + 1;
    } else {
      a, b := ReleasedInOrder(names[1..], g, done, n, i - 1, j - 1);
      if IsReleased(g, done, n, names[0]) {
        a, b := a + 1, b + 1;
      }
    }
  }
}
