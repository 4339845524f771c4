/** Directed graphs given by adjacency lists: paths, the stack walk of the store and of the
    graph collector, and cycles. */
module Reachability {

  type Node = string
  type Edges = map<Node, seq<Node>>

  function Successors(g: Edges, n: Node): seq<Node> {
    if n in g then g[n] else []
  }

  function Elements(s: seq<Node>): set<Node> {
    set n | n in s
  }

  ghost predicate Distinct(s: seq<Node>) {
    forall i, j :: 0 <= i < j < |s| ==> s[i] != s[j]
  }

  /** A nonempty sequence of nodes along edges. */
  ghost predicate IsPath(g: Edges, p: seq<Node>) {
    |p| > 0 && forall i :: 0 <= i < |p| - 1 ==> p[i + 1] in Successors(g, p[i])
  }

  ghost predicate PathBetween(g: Edges, p: seq<Node>, a: Node, b: Node) {
    IsPath(g, p) && p[0] == a && p[|p| - 1] == b
  }

  ghost predicate Reaches(g: Edges, a: Node, b: Node) {
    exists p :: PathBetween(g, p, a, b)
  }

  /** A path of at least one edge from a node back to itself. */
  ghost predicate IsCycle(g: Edges, p: seq<Node>) {
    |p| > 1 && IsPath(g, p) && p[0] == p[|p| - 1]
  }

  ghost predicate Closed(g: Edges, s: set<Node>) {
    forall n :: n in s ==> forall m :: m in Successors(g, n) ==> m in s
  }

  // ---- Paths ----

  lemma ReachesSelf(g: Edges, a: Node)
    ensures Reaches(g, a, a)
  {
    assert PathBetween(g, [a], a, a);
  }

  lemma ReachesExtend(g: Edges, a: Node, b: Node, c: Node)
    requires Reaches(g, a, b) && c in Successors(g, b)
    ensures Reaches(g, a, c)
  {
    var p :| PathBetween(g, p, a, b);
    assert PathBetween(g, p + [c], a, c);
  }

  lemma ReachesTransitive(g: Edges, a: Node, b: Node, c: Node)
    requires Reaches(g, a, b) && Reaches(g, b, c)
    ensures Reaches(g, a, c)
  {
    var p :| PathBetween(g, p, a, b);
    var q :| PathBetween(g, q, b, c);
    var r := p + q[1..];
    forall i | 0 <= i < |r| - 1
      ensures r[i + 1] in Successors(g, r[i])
    {
      if i >= |p| - 1 {
        assert r[i] == q[i - (|p| - 1)] && r[i + 1] == q[i - (|p| - 1) + 1];
      }
    }
    assert PathBetween(g, r, a, c);
  }

  /** A closed set that contains a node contains everything it reaches. */
  lemma {:induction false} ClosedContains(g: Edges, s: set<Node>, p: seq<Node>, b: Node)
    requires Closed(g, s) && IsPath(g, p) && p[0] in s && p[|p| - 1] == b
    ensures b in s
    decreases |p|
  {
    if |p| > 1 {
      var q := p[1..];
      assert p[1] in Successors(g, p[0]);
      forall i | 0 <= i < |q| - 1
        ensures q[i + 1] in Successors(g, q[i])
      {
        assert p[i + 2] in Successors(g, p[i + 1]);
      }
      ClosedContains(g, s, q, b);
    }
  }

  // ---- The stack walk ----

  /** The nodes still to be visited: mentioned in the graph or on the stack, not yet visited. */
  ghost function Pending(g: Edges, visited: seq<Node>, stack: seq<Node>): set<Node> {
    (set n, m | n in g && m in g[n] :: m) + Elements(stack) - Elements(visited)
  }

  lemma PendingSkip(g: Edges, visited: seq<Node>, stack: seq<Node>)
    requires stack != []
    ensures Pending(g, visited, stack[..|stack| - 1]) <= Pending(g, visited, stack)
  {
  }

  lemma PendingVisit(g: Edges, visited: seq<Node>, stack: seq<Node>)
    requires stack != [] && stack[|stack| - 1] !in visited
    ensures var h := stack[|stack| - 1];
      Pending(g, visited + [h], stack[..|stack| - 1] + Successors(g, h)) < Pending(g, visited, stack)
  {
    var h := stack[|stack| - 1];
    assert h in Pending(g, visited, stack) && h !in Pending(g, visited + [h], stack[..|stack| - 1] + Successors(g, h));
  }

  /** The loop of Store.walk and Graph._collect_subgraph: pop, skip if seen, record, push all
      successors. */
  function WalkFrom(g: Edges, visited: seq<Node>, stack: seq<Node>): seq<Node>
    decreases Pending(g, visited, stack), |stack|
  {
    if stack == [] then visited
    else
      var h := stack[|stack| - 1];
      var rest := stack[..|stack| - 1];
      if h in visited then
        PendingSkip(g, visited, stack);
        WalkFrom(g, visited, rest)
      else
        PendingVisit(g, visited, stack);
        WalkFrom(g, visited + [h], rest + Successors(g, h))
  }

  function Walk(g: Edges, root: Node): seq<Node> {
    WalkFrom(g, [], [root])
  }

  /** Everything a visited node points at is visited or on the stack. */
  ghost predicate WalkInvariant(g: Edges, visited: seq<Node>, stack: seq<Node>) {
    forall n, m :: n in visited && m in Successors(g, n) ==> m in visited || m in stack
  }

  lemma {:induction false} WalkFromClosed(g: Edges, visited: seq<Node>, stack: seq<Node>)
    requires Distinct(visited) && WalkInvariant(g, visited, stack)
    ensures var r := WalkFrom(g, visited, stack);
      && Distinct(r) && Closed(g, Elements(r)) && visited <= r
      && forall n :: n in stack ==> n in r
    decreases Pending(g, visited, stack), |stack|
  {
    if stack == [] {
      assert Closed(g, Elements(visited));
    } else {
      var h := stack[|stack| - 1];
      var rest := stack[..|stack| - 1];
      assert stack == rest + [h];
      if h in visited {
        PendingSkip(g, visited, stack);
        WalkFromClosed(g, visited, rest);
      } else {
        PendingVisit(g, visited, stack);
        WalkFromClosed(g, visited + [h], rest + Successors(g, h));
        assert h in visited + [h];
      }
    }
  }

  lemma {:induction false} WalkFromOrigin(g: Edges, visited: seq<Node>, stack: seq<Node>, n: Node)
    requires n in WalkFrom(g, visited, stack)
    ensures n in visited || exists s :: s in stack && Reaches(g, s, n)
    decreases Pending(g, visited, stack), |stack|
  {
    if stack != [] {
      var h := stack[|stack| - 1];
      var rest := stack[..|stack| - 1];
      assert stack == rest + [h];
      hide Reaches;
      if h in visited {
        PendingSkip(g, visited, stack);
        WalkFromOrigin(g, visited, rest, n);
      } else {
        PendingVisit(g, visited, stack);
        WalkFromOrigin(g, visited + [h], rest + Successors(g, h), n);
        if n !in visited {
          WalkOrigin(g, visited, h, rest, n);
        }
      }
    }
  }

  lemma WalkOrigin(g: Edges, visited: seq<Node>, h: Node, rest: seq<Node>, n: Node)
    requires n !in visited
    requires n in visited + [h] || exists s :: s in rest + Successors(g, h) && Reaches(g, s, n)
    ensures exists s :: s in rest + [h] && Reaches(g, s, n)
  {
    if n == h {
      ReachesSelf(g, h);
      assert h in rest + [h];
    } else {
      var s :| s in rest + Successors(g, h) && Reaches(g, s, n);
      if s in rest {
        assert s in rest + [h];
      } else {
        ReachesSelf(g, h);
        ReachesExtend(g, h, h, s);
        ReachesTransitive(g, h, s, n);
        assert h in rest + [h];
      }
    }
  }

  /** walk returns exactly the nodes reachable from the root, each once, on any graph. */
  lemma WalkExact(g: Edges, root: Node)
    ensures Distinct(Walk(g, root))
    ensures forall n :: n in Walk(g, root) <==> Reaches(g, root, n)
  {
    var r := Walk(g, root);
    WalkFromClosed(g, [], [root]);
    forall n
      ensures n in r <==> Reaches(g, root, n)
    {
      if n in r {
        WalkFromOrigin(g, [], [root], n);
        var s :| s in [root] && Reaches(g, s, n);
        assert s == root;
      }
      if Reaches(g, root, n) {
        var p :| PathBetween(g, p, root, n);
        ClosedContains(g, Elements(r), p, n);
      }
    }
  }

  /** Two graphs that agree on the nodes a walk visits are walked in the same order. */
  lemma {:induction false} WalkFromAgrees(g: Edges, g': Edges, visited: seq<Node>, stack: seq<Node>)
    requires forall n :: n in WalkFrom(g, visited, stack) && n !in visited ==> Successors(g, n) == Successors(g', n)
    ensures WalkFrom(g, visited, stack) == WalkFrom(g', visited, stack)
    decreases Pending(g, visited, stack), |stack|
  {
    if stack != [] {
      var h := stack[|stack| - 1];
      var rest := stack[..|stack| - 1];
      if h in visited {
        PendingSkip(g, visited, stack);
        WalkFromAgrees(g, g', visited, rest);
      } else {
        PendingVisit(g, visited, stack);
        WalkExtends(g, visited + [h], rest + Successors(g, h));
        assert h in visited + [h];
        WalkFromAgrees(g, g', visited + [h], rest + Successors(g, h));
      }
    }
  }

  lemma {:induction false} WalkExtends(g: Edges, visited: seq<Node>, stack: seq<Node>)
    ensures visited <= WalkFrom(g, visited, stack)
    decreases Pending(g, visited, stack), |stack|
  {
    if stack != [] {
      var h := stack[|stack| - 1];
      var rest := stack[..|stack| - 1];
      if h in visited {
        PendingSkip(g, visited, stack);
        WalkExtends(g, visited, rest);
      } else {
        PendingVisit(g, visited, stack);
        WalkExtends(g, visited + [h], rest + Successors(g, h));
      }
    }
  }

  lemma WalkAgrees(g: Edges, g': Edges, root: Node)
    requires forall n :: Reaches(g, root, n) ==> Successors(g, n) == Successors(g', n)
    ensures Walk(g, root) == Walk(g', root)
  {
    WalkExact(g, root);
    WalkFromAgrees(g, g', [], [root]);
  }

  // ---- Cycles ----

  /** Two different nodes that reach each other lie on a cycle. */
  lemma MutualReachIsCycle(g: Edges, a: Node, b: Node) returns (p: seq<Node>)
    requires a != b && Reaches(g, a, b) && Reaches(g, b, a)
    ensures IsCycle(g, p) && p[0] == a
  {
    ReachesTransitive(g, a, b, a);
    var q :| PathBetween(g, q, a, b);
    var r :| PathBetween(g, r, b, a);
    p := q + r[1..];
    forall i | 0 <= i < |p| - 1
      ensures p[i + 1] in Successors(g, p[i])
    {
      if i >= |q| - 1 {
        assert p[i] == r[i - (|q| - 1)] && p[i + 1] == r[i - (|q| - 1) + 1];
      }
    }
  }

  // ---- The order of a walk ----

  lemma WalkStep(g: Edges, visited: seq<Node>, stack: seq<Node>)
    ensures WalkFrom(g, visited, stack)
         == if stack == [] then visited
            else
              var h, rest := stack[|stack| - 1], stack[..|stack| - 1];
              if h in visited then WalkFrom(g, visited, rest) else WalkFrom(g, visited + [h], rest + Successors(g, h))
  {
  }

  function Reversed(s: seq<Node>): seq<Node> {
    if s == [] then [] else [s[|s| - 1]] + Reversed(s[..|s| - 1])
  }

  /** Leaves on the stack are visited from the last to the first. */
  lemma {:induction false} WalkLeaves(g: Edges, visited: seq<Node>, stack: seq<Node>)
    requires Distinct(stack) && forall n :: n in stack ==> n !in visited && Successors(g, n) == []
    ensures WalkFrom(g, visited, stack) == visited + Reversed(stack)
    decreases |stack|
  {
    WalkStep(g, visited, stack);
    hide WalkFrom, Successors;
    if stack != [] {
      var k := |stack| - 1;
      var h, rest := stack[k], stack[..k];
      assert h in stack && rest + Successors(g, h) == rest;
      forall n | n in rest
        ensures n !in visited + [h] && Successors(g, n) == []
      {
        var i :| 0 <= i < k && rest[i] == n;
        assert stack[i] == n && stack[i] in stack;
      }
      WalkLeaves(g, visited + [h], rest);
      assert (visited + [h]) + Reversed(rest) == visited + ([h] + Reversed(rest));
    }
  }

  /** What a root names is walked last first: leaves follow their root in reverse. */
  lemma WalkReversesLeaves(g: Edges, root: Node)
    requires Distinct(Successors(g, root)) && root !in Successors(g, root)
    requires forall n :: n in Successors(g, root) ==> Successors(g, n) == []
    ensures Walk(g, root) == [root] + Reversed(Successors(g, root))
  {
    WalkStep(g, [], [root]);
    assert [root][..0] + Successors(g, root) == Successors(g, root) && [] + [root] == [root];
    WalkLeaves(g, [root], Successors(g, root));
    hide WalkFrom, Successors;
  }
}
