/** What the worker runs when it has found or built a function. */
module CachedRuns {
  import opened Options
  import opened Dictionary
  import opened Reachability
  import opened Nodes
  import opened StoreContents
  import opened Reconstruction
  import opened Emission
  import opened Semantics
  import opened Scripts
  import opened Meaning
  import opened Renaming
  import opened SameText
  import opened WorkerCache

  /** The block of a class lists its members. */
  lemma BlockLists(needed: Dict<FunctionNode>, parts: seq<Part>, i: nat, q: string)
    requires UniqueKeys(needed) && Program(needed) == Ok(parts) && i < |parts|
    requires OwnerOf(needed, q).Some? && parts[i] == ClassBlock(needed, Order(needed).value, OwnerOf(needed, q).value)
    ensures q in NamesIn(parts[i])
  {
    OrderIsNeeded(needed);
    BlockNames(needed, Order(needed).value, OwnerOf(needed, q).value);
    MembersAreNeeded(needed, Order(needed).value, OwnerOf(needed, q).value);
  }

  /** A node whose name a part goes by is defined in that part. */
  lemma PartListsNode(needed: Dict<FunctionNode>, parts: seq<Part>, i: nat) returns (q: string)
    requires UniqueKeys(needed) && Program(needed) == Ok(parts) && i < |parts|
    ensures Get(needed, q).Some? && q in NamesIn(parts[i])
    ensures TopNameOf(parts[i]) == TopName(needed, q) && TopValueOf(parts[i]) == TopValue(needed, q)
    ensures OwnerOf(needed, q).Some? ==> parts[i] == ClassBlock(needed, Order(needed).value, OwnerOf(needed, q).value)
    ensures OwnerOf(needed, q).None? ==> parts[i] == FunctionPart(DefOf(needed, q))
  {
    var order := Order(needed).value;
    OrderIsNeeded(needed);
    q := PartHasNode(needed, order, order, {}, i);
    if OwnerOf(needed, q).Some? {
      BlockLists(needed, parts, i, q);
    }
  }

  /** Where top-level names are unambiguous, every name is defined by one part. */
  lemma ProgramNamesDistinct(needed: Dict<FunctionNode>, parts: seq<Part>)
    requires UniqueKeys(needed) && Program(needed) == Ok(parts) && DistinctTop(needed)
    ensures DistinctNames(parts)
  {
    EmitsEachOnce(needed, parts);
    hide AllNames, Program, UniqueKeys, Distinct, TopName, NamesIn, ClassBlock, DefOf;
    forall i, j | 0 <= i < j < |parts|
      ensures TopNameOf(parts[i]) != TopNameOf(parts[j])
    {
      var q := PartListsNode(needed, parts, i);
      var q' := PartListsNode(needed, parts, j);
      ListedOnce(parts, i, j, q);
      assert parts[i] != parts[j];
    }
  }

  /** What a build returns for a task is its target: a program with the cached text, whatever its
      definitions are called by the store that filled the cache, gives under the cached name the
      outcome that the target of the task's own store has with its original closures. */
  lemma CachedFunctionRunsLikeTarget(c: Contents, name: string, f: CachedFunction, parts: seq<Part>, fuel: nat, args: seq<Val>)
    requires Build(c, name) == Built(f) && f.source == ProgramText(parts) && DefinedOnce(parts)
    requires Collect(c, name).Ok?
    requires var (q, needed) := Collect(c, name).value;
      DistinctTop(needed) && CapturesKnown(needed) && ScopeComplete(needed) && Standalone(needed, q)
    requires forall i :: 0 <= i < |args| ==> args[i].Int?
    ensures Reconstruct(c, name).Ok? && Exec(parts).Some?
    ensures var (q, needed) := Collect(c, name).value;
      SameOutcome(parts, Reconstruct(c, name).value,
                  RunFlat(Exec(parts).value, fuel, f.name, args), RunOriginal(needed, fuel, q, args))
  {
    var (q, needed) := Collect(c, name).value;
    var own := Program(needed).value;
    CollectUnique(c, Walk(c.deps, Resolve(c, name).value), []);
    hide Program, Exec, DistinctTop, CapturesKnown, ScopeComplete, Resolve, UniqueKeys;
    SameTextRuns(parts, own);
    ProgramNamesDistinct(needed, own);
    PartsDefinedOnce(needed, own);
    SameNames(own, parts);
    NumbersAlike(parts, own, args);
    SameTextRunsAlike(parts, own, f.name, fuel, args, args);
    FinishedProgramKeepsMeaning(needed, own, q, fuel, args);
  }

  lemma NumbersAlike(ps: seq<Part>, ps': seq<Part>, args: seq<Val>)
    requires forall i :: 0 <= i < |args| ==> args[i].Int?
    ensures AllCorrespond(ps, ps', args, args)
  {
  }
}
