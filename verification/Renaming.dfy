/** The text of a reconstructed program does not depend on the qualified names of its nodes. */
module Renaming {
  import opened Options
  import opened Dictionary
  import opened Reachability
  import opened TopologicalSort
  import opened Nodes
  import opened StoreContents
  import opened Semantics
  import opened Scripts

  // ---- What a program is as text ----

  datatype Text = FunctionText(name: string, source: Source) | ClassText(name: string, methods: seq<(string, Source)>)

  function MethodTexts(methods: seq<Def>): seq<(string, Source)> {
    seq(|methods|, i requires 0 <= i < |methods| => (methods[i].name, methods[i].source))
  }

  function TextOf(part: Part): Text {
    match part
    case FunctionPart(d) => FunctionText(d.name, d.source)
    case ClassPart(owner, methods) => ClassText(LastSegment(owner), MethodTexts(methods))
  }

  function ProgramText(parts: seq<Part>): seq<Text> {
    seq(|parts|, i requires 0 <= i < |parts| => TextOf(parts[i]))
  }

  /** The text of a part tells everything but qualified names: of a function its name and its
      definition, of a class its simple name and its methods in order. */
  lemma TextTells(p: Part, p': Part)
    ensures TextOf(p) == TextOf(p') <==>
      match p
      case FunctionPart(d) => p'.FunctionPart? && d.name == p'.def.name && d.source == p'.def.source
      case ClassPart(owner, methods) =>
        p'.ClassPart? && LastSegment(owner) == LastSegment(p'.owner) && |methods| == |p'.methods|
        && forall k :: 0 <= k < |methods| ==> methods[k].name == p'.methods[k].name && methods[k].source == p'.methods[k].source
  {
    if p.ClassPart? && p'.ClassPart? {
      var a, b := MethodTexts(p.methods), MethodTexts(p'.methods);
      assert |a| == |p.methods| && |b| == |p'.methods|;
      if a == b {
        forall k | 0 <= k < |a|
          ensures p.methods[k].name == p'.methods[k].name && p.methods[k].source == p'.methods[k].source
        {
          assert a[k] == b[k];
        }
      }
    }
  }

  /** What a part looks up is there, told from the text alone. */
  lemma SameTextAbove(before: seq<Part>, before': seq<Part>, part: Part, part': Part)
    requires ProgramText(before) == ProgramText(before') && TextOf(part) == TextOf(part')
    ensures DefaultsAbove(before, part) <==> DefaultsAbove(before', part')
  {
    assert |before| == |ProgramText(before)| == |before'|;
    forall i | 0 <= i < |before|
      ensures TopNameOf(before[i]) == TopNameOf(before'[i])
    {
      assert ProgramText(before)[i] == ProgramText(before')[i];
    }
    forall x
      ensures DefinedIn(before, x) <==> DefinedIn(before', x)
    {
    }
    hide DefaultNames, DefinedIn;
    if part.ClassPart? {
      assert |part.methods| == |MethodTexts(part.methods)| == |part'.methods|;
      forall k | 0 <= k < |part.methods|
        ensures part.methods[k].name == part'.methods[k].name && part.methods[k].source == part'.methods[k].source
      {
        assert MethodTexts(part.methods)[k] == MethodTexts(part'.methods)[k];
      }
      forall k, x | 0 <= k <= |part.methods|
        ensures EarlierMethod(part.methods, k, x) <==> EarlierMethod(part'.methods, k, x)
      {
      }
      hide EarlierMethod;
    }
  }

  /** Programs with the same text run alike. */
  lemma SameTextRuns(parts: seq<Part>, parts': seq<Part>)
    requires ProgramText(parts) == ProgramText(parts')
    ensures Exec(parts).Some? <==> Exec(parts').Some?
  {
    RunsIff(parts);
    RunsIff(parts');
    assert |parts| == |ProgramText(parts)| == |parts'|;
    hide Exec, DefaultsAbove;
    forall i | 0 <= i < |parts|
      ensures DefaultsAbove(parts[..i], parts[i]) <==> DefaultsAbove(parts'[..i], parts'[i])
    {
      assert ProgramText(parts)[i] == ProgramText(parts')[i];
      assert ProgramText(parts[..i]) == ProgramText(parts)[..i] == ProgramText(parts'[..i]);
      SameTextAbove(parts[..i], parts'[..i], parts[i], parts'[i]);
    }
  }

  // ---- Renaming ----

  type Renaming = string -> string

  function Renamed(f: Renaming, names: seq<string>): seq<string> {
    seq(|names|, i requires 0 <= i < |names| => f(names[i]))
  }

  function RenamedRefs(f: Renaming, refs: seq<(string, string)>): seq<(string, string)> {
    seq(|refs|, i requires 0 <= i < |refs| => (refs[i].0, f(refs[i].1)))
  }

  function RenameNode(f: Renaming, n: FunctionNode): FunctionNode {
    FunctionNode(f(n.qualifiedName), n.content.(closureFuncRefs := RenamedRefs(f, n.content.closureFuncRefs)), Renamed(f, n.dependencies))
  }

  function Rename(f: Renaming, needed: Dict<FunctionNode>): Dict<FunctionNode> {
    seq(|needed|, i requires 0 <= i < |needed| => (f(needed[i].0), RenameNode(f, needed[i].1)))
  }

  /** Names in s keep apart. */
  ghost predicate Apart(f: Renaming, s: set<string>) {
    forall a, b :: a in s && b in s && f(a) == f(b) ==> a == b
  }

  ghost predicate Inside(names: seq<string>, s: set<string>) {
    forall n :: n in names ==> n in s
  }

  /** Every dependency and every captured function is needed, too. */
  ghost predicate SelfContained(needed: Dict<FunctionNode>) {
    forall i :: 0 <= i < |needed| ==>
      && Inside(needed[i].1.dependencies, Elements(Keys(needed)))
      && forall j :: 0 <= j < |needed[i].1.content.closureFuncRefs| ==> needed[i].1.content.closureFuncRefs[j].1 in Keys(needed)
  }

  lemma RenamedIn(f: Renaming, names: seq<string>, s: set<string>, n: string)
    requires Apart(f, s) && Inside(names, s) && n in s
    ensures f(n) in Renamed(f, names) <==> n in names
  {
    if i :| 0 <= i < |names| && names[i] == n {
      assert Renamed(f, names)[i] == f(n);
    }
    if f(n) in Renamed(f, names) {
      var i :| 0 <= i < |names| && Renamed(f, names)[i] == f(n);
      assert names[i] in names;
    }
  }

  lemma RenamedAppend(f: Renaming, a: seq<string>, b: seq<string>)
    ensures Renamed(f, a + b) == Renamed(f, a) + Renamed(f, b)
  {
  }

  lemma {:induction false} GetRenamed(f: Renaming, needed: Dict<FunctionNode>, s: set<string>, q: string)
    requires Apart(f, s) && Inside(Keys(needed), s) && q in s
    ensures Get(Rename(f, needed), f(q)) == match Get(needed, q) case None => None case Some(n) => Some(RenameNode(f, n))
  {
    hide RenameNode;
    if needed != [] {
      assert Keys(needed)[0] == needed[0].0 && needed[0].0 in s;
      forall n | n in Keys(needed[1..])
        ensures n in s
      {
        var i :| 0 <= i < |needed| - 1 && Keys(needed[1..])[i] == n;
        assert Keys(needed)[i + 1] == n;
      }
      assert Rename(f, needed)[1..] == Rename(f, needed[1..]);
      GetRenamed(f, needed[1..], s, q);
    }
  }

  lemma KeysRenamed(f: Renaming, needed: Dict<FunctionNode>)
    ensures Keys(Rename(f, needed)) == Renamed(f, Keys(needed))
  {
  }

  lemma {:induction false} FilterRenamed(f: Renaming, names: seq<string>, within: seq<string>, s: set<string>)
    requires Apart(f, s) && Inside(names, s) && Inside(within, s)
    ensures FilterIn(Renamed(f, names), Renamed(f, within)) == Renamed(f, FilterIn(names, within))
  {
    if names != [] {
      assert names[0] in names && Inside(names[1..], s);
      FilterRenamed(f, names[1..], within, s);
      RenamedIn(f, within, s, names[0]);
      assert Renamed(f, names)[1..] == Renamed(f, names[1..]);
      RenamedAppend(f, if names[0] in within then [names[0]] else [], FilterIn(names[1..], within));
      assert Renamed(f, [names[0]]) == [f(names[0])] && Renamed(f, []) == [];
    }
  }

  /** The sorter's edges, renamed. */
  ghost predicate EdgesRenamed(f: Renaming, g: Edges, g': Edges, s: set<string>) {
    forall n :: n in s ==> Inside(Successors(g, n), s) && Successors(g', f(n)) == Renamed(f, Successors(g, n))
  }

  lemma RenamedParts(f: Renaming, names: seq<string>, s: set<string>)
    requires Inside(names, s)
    ensures names == [] ==> Renamed(f, names) == []
    ensures |names| == 1 ==> Renamed(f, names) == [f(names[0])]
    ensures names != [] ==> Renamed(f, names) != [] && Renamed(f, names)[0] == f(names[0]) && names[0] in s
    ensures names != [] ==> Renamed(f, names)[1..] == Renamed(f, names[1..]) && Inside(names[1..], s)
  {
  }

  lemma MentionRenamed(f: Renaming, seen: seq<string>, n: string, s: set<string>)
    requires Apart(f, s) && Inside(seen, s) && n in s
    ensures Mention(Renamed(f, seen), f(n)) == Renamed(f, Mention(seen, n)) && Inside(Mention(seen, n), s)
  {
    RenamedIn(f, seen, s, n);
    RenamedAppend(f, seen, [n]);
  }

  lemma {:induction false} MentionAllRenamed(f: Renaming, seen: seq<string>, ns: seq<string>, s: set<string>)
    requires Apart(f, s) && Inside(seen, s) && Inside(ns, s)
    ensures MentionAll(Renamed(f, seen), Renamed(f, ns)) == Renamed(f, MentionAll(seen, ns))
    ensures Inside(MentionAll(seen, ns), s)
    decreases |ns|
  {
    RenamedParts(f, ns, s);
    hide Renamed, Apart, Inside, Mention;
    if ns != [] {
      MentionRenamed(f, seen, ns[0], s);
      MentionAllRenamed(f, Mention(seen, ns[0]), ns[1..], s);
    }
  }

  lemma {:induction false} MentionedRenamed(f: Renaming, seen: seq<string>, names: seq<string>, g: Edges, g': Edges, s: set<string>)
    requires Apart(f, s) && Inside(seen, s) && Inside(names, s) && EdgesRenamed(f, g, g', s)
    ensures Mentioned(Renamed(f, seen), Renamed(f, names), g') == Renamed(f, Mentioned(seen, names, g))
    ensures Inside(Mentioned(seen, names, g), s)
    decreases |names|
  {
    RenamedParts(f, names, s);
    if names != [] {
      EdgesAt(f, g, g', s, names[0]);
      hide Renamed, Apart, Inside, Mention, MentionAll, EdgesRenamed, Successors;
      MentionRenamed(f, seen, names[0], s);
      var first := Mention(seen, names[0]);
      MentionAllRenamed(f, first, Successors(g, names[0]), s);
      MentionedRenamed(f, MentionAll(first, Successors(g, names[0])), names[1..], g, g', s);
    }
  }

  lemma EdgesAt(f: Renaming, g: Edges, g': Edges, s: set<string>, n: string)
    requires EdgesRenamed(f, g, g', s) && n in s
    ensures Inside(Successors(g, n), s) && Successors(g', f(n)) == Renamed(f, Successors(g, n))
    ensures Successors(g', f(n)) == [] <==> Successors(g, n) == []
  {
    assert |Renamed(f, Successors(g, n))| == |Successors(g, n)|;
  }

  lemma {:induction false} RootsRenamed(f: Renaming, nodes: seq<string>, g: Edges, g': Edges, s: set<string>)
    requires Apart(f, s) && Inside(nodes, s) && EdgesRenamed(f, g, g', s)
    ensures Roots(Renamed(f, nodes), g') == Renamed(f, Roots(nodes, g))
    ensures Inside(Roots(nodes, g), s)
  {
    RootsExact(nodes, g);
    RenamedParts(f, nodes, s);
    if nodes != [] {
      EdgesAt(f, g, g', s, nodes[0]);
      RootsRenamed(f, nodes[1..], g, g', s);
      var first := if Successors(g, nodes[0]) == [] then [nodes[0]] else [];
      RenamedParts(f, first, s);
      RenamedAppend(f, first, Roots(nodes[1..], g));
      hide Renamed, Apart, EdgesRenamed, Successors;
    }
  }

  lemma IsReleasedRenamed(f: Renaming, g: Edges, g': Edges, done: seq<string>, n: string, q: string, s: set<string>)
    requires Apart(f, s) && n in s && q in s && Inside(done, s) && EdgesRenamed(f, g, g', s)
    ensures IsReleased(g', Renamed(f, done), f(n), f(q)) <==> IsReleased(g, done, n, q)
  {
    var ps := Successors(g, q);
    EdgesAt(f, g, g', s, q);
    RenamedIn(f, ps, s, n);
    hide Successors, EdgesRenamed;
    forall i | 0 <= i < |ps|
      ensures Renamed(f, ps)[i] in Renamed(f, done) <==> ps[i] in done
      ensures Renamed(f, ps)[i] == f(n) <==> ps[i] == n
    {
      assert ps[i] in ps;
      RenamedIn(f, done, s, ps[i]);
    }
  }

  lemma {:induction false} ReleasedRenamed(f: Renaming, names: seq<string>, g: Edges, g': Edges, done: seq<string>, n: string, s: set<string>)
    requires Apart(f, s) && n in s && Inside(names, s) && Inside(done, s) && EdgesRenamed(f, g, g', s)
    ensures Released(Renamed(f, names), g', Renamed(f, done), f(n)) == Renamed(f, Released(names, g, done, n))
    ensures Inside(Released(names, g, done, n), s)
  {
    ReleasedExact(names, g, done, n);
    RenamedParts(f, names, s);
    if names != [] {
      IsReleasedRenamed(f, g, g', done, n, names[0], s);
      ReleasedRenamed(f, names[1..], g, g', done, n, s);
      var first := if IsReleased(g, done, n, names[0]) then [names[0]] else [];
      RenamedParts(f, first, s);
      RenamedAppend(f, first, Released(names[1..], g, done, n));
      hide Renamed, Apart, EdgesRenamed, IsReleased;
    }
  }

  lemma {:induction false} QueueRenamed(f: Renaming, names: seq<string>, g: Edges, g': Edges, order: seq<string>, i: nat, s: set<string>)
    requires Apart(f, s) && Inside(names, s) && Inside(order, s) && EdgesRenamed(f, g, g', s)
    ensures Queue(Renamed(f, names), g', Renamed(f, order), i) == Renamed(f, Queue(names, g, order, i))
    ensures Inside(Queue(names, g, order, i), s)
    decreases |names| - i
  {
    assert |Renamed(f, names)| == |names| && |Renamed(f, order)| == |order|;
    if i < |order| && i < |names| {
      assert Renamed(f, order)[i] == f(order[i]) && Renamed(f, order)[..i] == Renamed(f, order[..i]);
      assert order[i] in order;
      ReleasedRenamed(f, names, g, g', order[..i], order[i], s);
      var more := Released(names, g, order[..i], order[i]);
      RenamedAppend(f, order, more);
      assert Inside(order + more, s);
      hide Renamed, Apart, EdgesRenamed, Released, Inside;
      QueueRenamed(f, names, g, g', order + more, i + 1, s);
    }
  }

  lemma NeededEdgesRenamed(f: Renaming, needed: Dict<FunctionNode>)
    requires SelfContained(needed) && Apart(f, Elements(Keys(needed)))
    ensures EdgesRenamed(f, NeededEdges(needed), NeededEdges(Rename(f, needed)), Elements(Keys(needed)))
  {
    var s, keys := Elements(Keys(needed)), Keys(needed);
    var renamed := Rename(f, needed);
    KeysRenamed(f, needed);
    forall n | n in s
      ensures Inside(Successors(NeededEdges(needed), n), s)
      ensures Successors(NeededEdges(renamed), f(n)) == Renamed(f, Successors(NeededEdges(needed), n))
    {
      GetSome(needed, n);
      var j :| 0 <= j < |keys| && keys[j] == n;
      assert needed[j].0 == n;
      var i :| 0 <= i < |needed| && needed[i] == (n, Get(needed, n).value);
      var deps := needed[i].1.dependencies;
      GetRenamed(f, needed, s, n);
      RenamedIn(f, keys, s, n);
      FilterRenamed(f, deps, keys, s);
      FilterInside(deps, keys);
    }
  }

  lemma {:induction false} FilterInside(names: seq<string>, within: seq<string>)
    ensures Inside(FilterIn(names, within), Elements(within))
  {
    if names != [] {
      FilterInside(names[1..], within);
    }
  }

  /** The order, renamed. */
  lemma OrderRenamed(f: Renaming, needed: Dict<FunctionNode>)
    requires SelfContained(needed) && Apart(f, Elements(Keys(needed)))
    ensures Order(Rename(f, needed)) == match Order(needed) case None => None case Some(order) => Some(Renamed(f, order))
    ensures Order(needed).Some? ==> Inside(Order(needed).value, Elements(Keys(needed)))
  {
    var s := Elements(Keys(needed));
    KeysRenamed(f, needed);
    NeededEdgesRenamed(f, needed);
    var keys, g, g' := Keys(needed), NeededEdges(needed), NeededEdges(Rename(f, needed));
    assert Renamed(f, []) == [];
    MentionedRenamed(f, [], keys, g, g', s);
    RootsRenamed(f, Mentioned([], keys, g), g, g', s);
    QueueRenamed(f, keys, g, g', Roots(Mentioned([], keys, g), g), 0, s);
    var order := Queue(keys, g, Roots(Mentioned([], keys, g), g), 0);
    assert |Renamed(f, order)| == |order|;
  }

  // ---- The emitted text ----

  lemma OwnerRenamed(f: Renaming, needed: Dict<FunctionNode>, q: string)
    requires Apart(f, Elements(Keys(needed))) && q in Keys(needed)
    ensures OwnerOf(Rename(f, needed), f(q)) == OwnerOf(needed, q)
  {
    GetRenamed(f, needed, Elements(Keys(needed)), q);
  }

  lemma {:induction false} MembersRenamed(f: Renaming, needed: Dict<FunctionNode>, order: seq<string>, owner: string)
    requires Apart(f, Elements(Keys(needed))) && Inside(order, Elements(Keys(needed)))
    ensures Members(Rename(f, needed), Renamed(f, order), owner) == Renamed(f, Members(needed, order, owner))
    ensures Inside(Members(needed, order, owner), Elements(Keys(needed)))
  {
    hide OwnerOf, Rename, Keys;
    if order != [] {
      var k := |order| - 1;
      assert order[k] in order;
      MembersRenamed(f, needed, order[..k], owner);
      OwnerRenamed(f, needed, order[k]);
      assert Renamed(f, order)[..k] == Renamed(f, order[..k]);
      var last := if OwnerOf(needed, order[k]) == Some(owner) then [order[k]] else [];
      RenamedAppend(f, Members(needed, order[..k], owner), last);
      assert Renamed(f, [order[k]]) == [f(order[k])] && Renamed(f, []) == [];
    } else {
      assert Renamed(f, order) == [];
    }
  }

  /** A definition reads the same: its captured functions go by the same simple names. */
  lemma DefRenamed(f: Renaming, needed: Dict<FunctionNode>, q: string)
    requires SelfContained(needed) && Apart(f, Elements(Keys(needed))) && q in Keys(needed)
    ensures DefOf(Rename(f, needed), f(q)).name == DefOf(needed, q).name
    ensures DefOf(Rename(f, needed), f(q)).source == DefOf(needed, q).source
  {
    var s := Elements(Keys(needed));
    GetRenamed(f, needed, s, q);
    GetSome(needed, q);
    var j :| 0 <= j < |needed| && Keys(needed)[j] == q;
    assert needed[j].0 == q;
    var i :| 0 <= i < |needed| && needed[i] == (q, Get(needed, q).value);
    var refs := needed[i].1.content.closureFuncRefs;
    forall n | 0 <= n < |refs|
      ensures FunctionNameFor(Rename(f, needed), f(refs[n].1)) == FunctionNameFor(needed, refs[n].1)
    {
      NameRenamed(f, needed, refs[n].1);
    }
    hide FunctionNameFor, Rename, Keys, Get;
    assert NameDefaults(Rename(f, needed), RenamedRefs(f, refs)) == NameDefaults(needed, refs);
  }

  lemma NameRenamed(f: Renaming, needed: Dict<FunctionNode>, r: string)
    requires Apart(f, Elements(Keys(needed))) && r in Keys(needed)
    ensures FunctionNameFor(Rename(f, needed), f(r)) == FunctionNameFor(needed, r)
  {
    GetRenamed(f, needed, Elements(Keys(needed)), r);
    GetSome(needed, r);
    var j :| 0 <= j < |needed| && Keys(needed)[j] == r;
    assert needed[j].0 == r;
  }

  lemma BlockRenamed(f: Renaming, needed: Dict<FunctionNode>, order: seq<string>, owner: string)
    requires SelfContained(needed) && Apart(f, Elements(Keys(needed))) && Inside(order, Elements(Keys(needed)))
    ensures TextOf(ClassBlock(Rename(f, needed), Renamed(f, order), owner)) == TextOf(ClassBlock(needed, order, owner))
  {
    var members := Members(needed, order, owner);
    MembersRenamed(f, needed, order, owner);
    hide Members, DefOf, Rename, Keys;
    var ds, ds' := DefsOf(needed, members), DefsOf(Rename(f, needed), Renamed(f, members));
    assert |ds| == |ds'| == |members|;
    forall i | 0 <= i < |members|
      ensures MethodTexts(ds)[i] == MethodTexts(ds')[i]
    {
      assert members[i] in members;
      DefRenamed(f, needed, members[i]);
    }
    assert MethodTexts(ds) == MethodTexts(ds');
  }

  lemma TextAppend(a: seq<Part>, b: seq<Part>)
    ensures ProgramText(a + b) == ProgramText(a) + ProgramText(b)
  {
  }

  lemma {:induction false} EmitRenamed(f: Renaming, needed: Dict<FunctionNode>, order: seq<string>, todo: seq<string>, emitted: set<string>)
    requires SelfContained(needed) && Apart(f, Elements(Keys(needed)))
    requires Inside(order, Elements(Keys(needed))) && Inside(todo, Elements(Keys(needed)))
    ensures ProgramText(Emit(Rename(f, needed), Renamed(f, order), Renamed(f, todo), emitted)) == ProgramText(Emit(needed, order, todo, emitted))
  {
    hide OwnerOf, DefOf, ClassBlock, Rename, Keys, SelfContained;
    if todo != [] {
      var q, rest := todo[0], todo[1..];
      assert q in todo && Inside(rest, Elements(Keys(needed)));
      assert Renamed(f, todo)[1..] == Renamed(f, rest);
      OwnerRenamed(f, needed, q);
      var owner := OwnerOf(needed, q);
      var after := if owner.Some? then emitted + {owner.value} else emitted;
      EmitRenamed(f, needed, order, rest, after);
      EmitRenamed(f, needed, order, rest, emitted);
      var more := Emit(needed, order, rest, after);
      var more' := Emit(Rename(f, needed), Renamed(f, order), Renamed(f, rest), after);
      if owner.None? {
        DefRenamed(f, needed, q);
        TextAppend([FunctionPart(DefOf(needed, q))], more);
        TextAppend([FunctionPart(DefOf(Rename(f, needed), f(q)))], more');
        assert ProgramText([FunctionPart(DefOf(needed, q))]) == ProgramText([FunctionPart(DefOf(Rename(f, needed), f(q)))]);
      } else if owner.value !in emitted {
        BlockRenamed(f, needed, order, owner.value);
        TextAppend([ClassBlock(needed, order, owner.value)], more);
        TextAppend([ClassBlock(Rename(f, needed), Renamed(f, order), owner.value)], more');
        assert ProgramText([ClassBlock(needed, order, owner.value)])
            == ProgramText([ClassBlock(Rename(f, needed), Renamed(f, order), owner.value)]);
      }
    } else {
      assert Renamed(f, todo) == [];
    }
  }

  /** Renaming the nodes apart changes neither whether they can be sorted nor the text. */
  lemma TextKeepsUnderRenaming(f: Renaming, needed: Dict<FunctionNode>)
    requires SelfContained(needed) && Apart(f, Elements(Keys(needed)))
    ensures Program(Rename(f, needed)).Ok? <==> Program(needed).Ok?
    ensures Program(needed).Ok? ==> ProgramText(Program(Rename(f, needed)).value) == ProgramText(Program(needed).value)
    ensures !Program(needed).Ok? ==> Program(needed) == Program(Rename(f, needed)) == CycleError
  {
    OrderRenamed(f, needed);
    hide Order, Rename, SelfContained, Emit;
    if Order(needed).Some? {
      EmitRenamed(f, needed, Order(needed).value, Order(needed).value, {});
    }
  }
}
