/** What the operations of offwork/graph/store.py compute, as functions of a store's contents. */
module StoreContents {
  import opened Options
  import opened Dictionary
  import opened Reachability
  import opened TopologicalSort
  import opened Nodes

  type Hash = string

  /** Blobs by content hash, dependency lists by content hash, and named references. */
  datatype Contents = Contents(objects: map<Hash, Blob>, deps: map<Hash, seq<Hash>>, refs: Dict<Hash>)

  datatype Result<+T> = Ok(value: T) | KeyError | CycleError

  // ---- Names and hashes ----

  /** hash_to_qname: the last name that refers to a hash. */
  function NameOf(refs: Dict<Hash>, h: Hash): Option<string> {
    if refs == [] then None
    else if refs[|refs| - 1].1 == h then Some(refs[|refs| - 1].0)
    else NameOf(refs[..|refs| - 1], h)
  }

  /** The first reference whose blob has the given simple name. */
  function FindSimple(c: Contents, refs: Dict<Hash>, name: string): Option<Hash> {
    if refs == [] then None
    else if refs[0].1 in c.objects && c.objects[refs[0].1].name == name then Some(refs[0].1)
    else FindSimple(c, refs[1..], name)
  }

  /** _resolve_function_hash; None stands for KeyError. */
  function Resolve(c: Contents, name: string): Option<Hash> {
    if Get(c.refs, name).Some? then Get(c.refs, name) else FindSimple(c, c.refs, name)
  }

  // ---- Collecting the needed nodes ----

  function NamesOf(refs: Dict<Hash>, hashes: seq<Hash>): seq<string> {
    seq(|hashes|, i requires 0 <= i < |hashes| => GetOr(NameOf(refs, hashes[i]), hashes[i]))
  }

  function ResolveRefs(refs: Dict<Hash>, closureRefs: seq<(string, string)>): seq<(string, string)> {
    seq(|closureRefs|, i requires 0 <= i < |closureRefs| =>
      (closureRefs[i].0, GetOr(NameOf(refs, closureRefs[i].1), closureRefs[i].1)))
  }

  function QualifiedName(c: Contents, h: Hash, blob: Blob): string {
    GetOr(NameOf(c.refs, h), blob.moduleName + "." + blob.name)
  }

  /** _blob_to_node. */
  function NodeOf(c: Contents, h: Hash, blob: Blob): FunctionNode {
    FunctionNode(QualifiedName(c, h, blob),
                 blob.(closureFuncRefs := ResolveRefs(c.refs, blob.closureFuncRefs)),
                 NamesOf(c.refs, Successors(c.deps, h)))
  }

  function CollectFrom(c: Contents, hashes: seq<Hash>, needed: Dict<FunctionNode>): Dict<FunctionNode> {
    if hashes == [] then needed
    else if hashes[0] in c.objects then
      var blob := c.objects[hashes[0]];
      CollectFrom(c, hashes[1..], Put(needed, QualifiedName(c, hashes[0], blob), NodeOf(c, hashes[0], blob)))
    else CollectFrom(c, hashes[1..], needed)
  }

  function Needed(c: Contents, root: Hash): Dict<FunctionNode> {
    CollectFrom(c, Walk(c.deps, root), [])
  }

  /** collect: the qualified name of the target and the nodes it needs, in walk order. */
  function Collect(c: Contents, name: string): Result<(string, Dict<FunctionNode>)> {
    var root := Resolve(c, name);
    if root.None? then KeyError
    else Ok((GetOr(NameOf(c.refs, root.value), "unknown." + name), Needed(c, root.value)))
  }

  // ---- Ordering ----

  function FilterIn(names: seq<string>, within: seq<string>): seq<string> {
    if names == [] then []
    else (if names[0] in within then [names[0]] else []) + FilterIn(names[1..], within)
  }

  /** The edges handed to the sorter: dependencies that are themselves needed. */
  function NeededEdges(needed: Dict<FunctionNode>): Edges {
    map n | n in Keys(needed) && Get(needed, n).Some? :: FilterIn(Get(needed, n).value.dependencies, Keys(needed))
  }

  /** _topological_order; None stands for CycleError. */
  function Order(needed: Dict<FunctionNode>): Option<seq<string>> {
    StaticOrder(Keys(needed), NeededEdges(needed))
  }

  // ---- Moving captures into keyword-only defaults ----

  function ValueDefaults(vars: seq<(string, int)>): seq<(string, Default)> {
    seq(|vars|, i requires 0 <= i < |vars| => (vars[i].0, Value(vars[i].1)))
  }

  /** The part of a dotted name after its last dot. */
  function LastSegment(q: string): string {
    if '.' !in q then q else if q[|q| - 1] == '.' then "" else LastSegment(q[..|q| - 1]) + [q[|q| - 1]]
  }

  function FunctionNameFor(needed: Dict<FunctionNode>, q: string): string {
    var node := Get(needed, q);
    if node.Some? then node.value.content.name else LastSegment(q)
  }

  function NameDefaults(needed: Dict<FunctionNode>, refs: seq<(string, string)>): seq<(string, Default)> {
    seq(|refs|, i requires 0 <= i < |refs| => (refs[i].0, FunctionName(FunctionNameFor(needed, refs[i].1))))
  }

  /** _apply_closure_transforms. */
  function Transform(node: FunctionNode, needed: Dict<FunctionNode>): Source {
    var s := node.content.source;
    s.(kwonly := s.kwonly + ValueDefaults(node.content.closureVars) + NameDefaults(needed, node.content.closureFuncRefs))
  }

  // ---- Emission ----

  /** One emitted definition. */
  datatype Def = Def(qname: string, name: string, source: Source)

  /** A part of the reconstructed program: a function, or a class block with its methods. */
  datatype Part = FunctionPart(def: Def) | ClassPart(owner: string, methods: seq<Def>)

  function OwnerOf(needed: Dict<FunctionNode>, q: string): Option<string> {
    var node := Get(needed, q);
    if node.Some? then node.value.content.ownerClass else None
  }

  /** _group_by_class, for one class: its members in order. */
  function Members(needed: Dict<FunctionNode>, order: seq<string>, owner: string): seq<string> {
    if order == [] then []
    else
      var k := |order| - 1;
      Members(needed, order[..k], owner) + if OwnerOf(needed, order[k]) == Some(owner) then [order[k]] else []
  }

  /** The definition of a needed node, captures moved into defaults. */
  function DefOf(needed: Dict<FunctionNode>, q: string): Def {
    var node := Get(needed, q);
    if node.Some? then Def(q, node.value.content.name, Transform(node.value, needed)) else Def(q, q, Source([], [], Num(0)))
  }

  function DefsOf(needed: Dict<FunctionNode>, names: seq<string>): seq<Def> {
    seq(|names|, i requires 0 <= i < |names| => DefOf(needed, names[i]))
  }

  function ClassBlock(needed: Dict<FunctionNode>, order: seq<string>, owner: string): Part {
    ClassPart(owner, DefsOf(needed, Members(needed, order, owner)))
  }

  /** The emission loop of reconstruct: todo is what is left of order, emitted the classes
      already written. */
  function Emit(needed: Dict<FunctionNode>, order: seq<string>, todo: seq<string>, emitted: set<string>): seq<Part> {
    if todo == [] then []
    else
      var owner := OwnerOf(needed, todo[0]);
      if owner.None? then
        [FunctionPart(DefOf(needed, todo[0]))] + Emit(needed, order, todo[1..], emitted)
      else if owner.value !in emitted then
        [ClassBlock(needed, order, owner.value)] + Emit(needed, order, todo[1..], emitted + {owner.value})
      else Emit(needed, order, todo[1..], emitted)
  }

  /** The parts of the program for a set of needed nodes. */
  function Program(needed: Dict<FunctionNode>): Result<seq<Part>> {
    var order := Order(needed);
    if order.None? then CycleError else Ok(Emit(needed, order.value, order.value, {}))
  }

  /** reconstruct. */
  function Reconstruct(c: Contents, name: string): Result<seq<Part>> {
    match Collect(c, name)
    case Ok(found) => Program(found.1)
    case KeyError => KeyError
    case CycleError => CycleError
  }

  // ---- Serialization ----

  function RefToHash(refs: Dict<Hash>, v: string): string {
    GetOr(Get(refs, v), v)
  }

  function HashesForRefs(refs: Dict<Hash>, captured: seq<(string, string)>): seq<(string, string)> {
    seq(|captured|, i requires 0 <= i < |captured| => (captured[i].0, RefToHash(refs, captured[i].1)))
  }

  /** to_dict: captured functions are written as hashes. */
  function Serialized(c: Contents): Contents {
    Contents(map h | h in c.objects :: c.objects[h].(closureFuncRefs := HashesForRefs(c.refs, c.objects[h].closureFuncRefs)),
             c.deps, c.refs)
  }

  /** from_dict: captured functions are read back as names, and empty dependency lists are
      dropped. */
  function Deserialized(d: Contents): Contents {
    Contents(map h | h in d.objects :: d.objects[h].(closureFuncRefs := ResolveRefs(d.refs, d.objects[h].closureFuncRefs)),
             map h | h in d.deps && d.deps[h] != [] :: d.deps[h],
             d.refs)
  }
}
