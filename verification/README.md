# offwork: verified models

offwork captures a Python function with everything it calls, ships it to a worker, runs it there
and streams results back. This project models five of its parts and proves what they promise.

1. **Function store and reconstruction.** Blobs, dependency lists and names in a
   content-addressed store; walking, cutting, merging and collecting it; turning the needed nodes
   back into one flat program whose captures have become keyword-only defaults; the worker's cache
   of built functions; the graph's way into a store and back. The meaning of programs is given by
   an evaluator for a small language of numbers, names, sums, conditionals and calls, with
   functions as values.
   (`Options`, `Dictionary`, `Reachability`, `TopologicalSort`, `Nodes`, `StoreContents`, `Reconstruction`,
   `Store`, `StoreFacts`, `Graph`, `Emission`, `Semantics`, `Scripts`,
   `Running`, `Orders`, `Meaning`, `Renaming`, `SameText`, `WorkerCache`, `CachedRuns`)
2. **Ed25519** of `offwork/core/ed25519.py`, after RFC 8032, sections 5.1.2 to 5.1.7. The only
   premises are that p is prime and d is not a square modulo p (`Ed25519Points.FieldPremises`)
   and that [L]B is the neutral point (`Ed25519Signatures.OrderPremise`). Completeness,
   associativity, Fermat's theorem, the square-root step and the base point are proved. SHA-512
   is any function that returns 64 bytes.
   (`Ring`, `Bytes`, `Modular`, `Residues`, `EdwardsIdentities`, `Edwards`, `Extended`,
   `SquareRoots`, `Ed25519`, `CurveFacts`, `Signatures`)
3. **Argument codec, task dictionary and signed envelope**, with the replay cache.
   (`Values`, `Codec`, `RoundTrip`, `Landing`, `Tasks`, `Replay`, `Envelopes`, `SignedTasks`)
4. **Task, stream and schedule protocol.** The broker's messages are atomic steps; a run is any
   sequence of actions of worker, broker and client, where an action that is not possible does
   nothing, so that a statement about all sequences is one about every reachable state.
   (`Broker`, `Requests`, `Streaming`, `Schedules`, `Outcomes`)
5. **Sandbox channel and tracing.** (`Framing`, `Sandbox`, `Generators`, `CallStack`)

Objects that the source updates in place are classes (`Store`, `Graph`, `Worker`, `NonceLRU`,
`KnownClients`, `BrokerServer`, `Backend`, `Tracer`) whose methods are tied to functions of their
contents; the properties are proved about those functions and about whole runs.

## What turned out different

- A function that captures itself, as a nested recursive function does, cannot be rebuilt: its
  hoisted default names a function that is not defined yet (`Meaning.NestedRecursionFails`).
- A class block is placed at the first member of the class; a later member's capture of a function
  that comes in between makes the whole program fail. Whether it comes in between depends on the
  order in which the member names what it depends on (`Meaning.LateCaptureFails`,
  `Meaning.EarlyCaptureRuns`). What decides is `Running.ProgramRunsIff`, and for all orders at
  once `Orders.RunsInEveryOrderIff`.
- Two stores may have different qualified names for the same content hash, as for equal helpers
  nested in different functions. A cached function is then found under a key from the other store;
  its text is the same (`WorkerCache.HitIsFresh`).
- Decoding accepts x = 0 with the sign bit set, which section 5.1.3 of RFC 8032 rejects
  (`Ed25519Signatures.AcceptsNegativeZero`).
- An enum that is also a str arrives as the plain string, a defaultdict with a factory of its own
  arrives without one, a concrete path arrives as a pure one, and a plain dict whose only key is a
  sentinel is taken for something else (`CodecRoundTrip.ComesBack`, `CodecRoundTrip.SentinelDict`).
- The module text of `offwork/core/envelope.py` lists recording the nonce as the last step; the
  code records it with the replay check, before the signatures are checked (`Envelopes.Verify`).
- Comments in `offwork/worker/remote.py` promise that every failure surfaces to the client. The
  last progress is written again before the result is sent, outside any handler: a task whose last
  progress JSON cannot hold gets no result, and its client waits forever
  (`Outcomes.BadProgressIsSilent`). The same happens when the function raises something that is not
  an Exception (`Outcomes.UncaughtIsSilent`), when it raises an Exception whose own text cannot be
  made (`Outcomes.UntellableIsSilent`), and when sending the result fails.
- An occurrence that is throttled, cancelled or fails before its result is sent also ends its
  schedule (`Outcomes.ExecuteTask`).
- A request to the broker that is cancelled while it waits leaves its reply on the connection, which
  stays open: the next request returns that reply (`Requests.CancelledWaitMixes`). A client whose
  wait for a stream's next value is cut off by a timeout is such a case.
- A stream value whose sending raises is lost, and the stream still ends with the worker's own
  error (`Streaming.LostValueIsNotDelivered`).
- A plain sandbox request for an async generator breaks the pairing of requests and answers
  (`Sandbox.PairedExactly`). The worker's loop looks at the function first and makes no such
  request; Worker.run by itself does not check.
- A generator that ignores being closed goes on, but its proxy has ended
  (`Generators.IgnoredCloseEndsProxy`). Closing runs the body's cleanup without the body's name on
  the call stack, so that its calls are recorded as calls of whoever closes (`CallStack.EdgesOf`).

## Model

| member | source | states |
|---|---|---|
| `Meaning.ReconstructionPreservesMeaning` | offwork/graph/store.py:393-427 | For unambiguous top-level names, captures that are needed dependencies and complete dependency lists, when no function captures itself and methods look up only what is defined in time: the program runs, and the target run from it gives, for every argument list and every amount of fuel, the outcome (value, NameError, TypeError, running out) it has with its original closures |
| `Meaning.FinishedProgramKeepsMeaning` | offwork/graph/store.py:393-427 | The same for every program that runs to its end, whatever made it run |
| `Meaning.StoredProgramKeepsMeaning` | offwork/graph/store.py:339-427 | The first of these from the contents of a store and any name of the target |
| `Meaning.MeaningByDependencies` | offwork/graph/store.py:393-427 | The same conclusion from a condition on the dependencies alone, whatever order they are sorted in: everything that a default looks up is defined below |
| `Meaning.DefaultsAreCells` | offwork/graph/analyzer.py:375-407 | The defaults that the program evaluates when a definition runs are, in order, the function's own defaults, its captured values and its captured functions |
| `Running.ProgramRunsIff` | offwork/graph/store.py:402-427 | For all needed nodes, classes included: the program runs without NameError exactly when every name that a default looks up belongs to a function or class that the sorter's order lists before the function, or before the whole class of the method, or to an earlier method of that class |
| `Running.EmittedRunsIff` | offwork/graph/store.py:412-427 | The same for every order of the needed nodes |
| `Orders.RunsInEveryOrderIff` | offwork/graph/store.py:20-25 | The program runs in every dependency-first order exactly when, for every default of q that looks up x and every member m of q's class or q itself, something m depends on goes by x, or another method of the class called x is something that q or m depends on |
| `Meaning.CapturedProgramRunsIff` | offwork/graph/analyzer.py:390-407 | When captures are dependencies this comes down to: no function captures itself, and all that methods look up is defined in time |
| `Meaning.NestedRecursionFails` | offwork/graph/analyzer.py:390-407 | A nested recursive function is such a case: its program always raises NameError |
| `Meaning.LateCaptureFails` | offwork/graph/store.py:412-425 | So is a class whose method b depends on its method a and then on a captured f: the walk gives b, f, a, the sorter a, f, b, the class block stands where a is listed, and b's default names a function further down |
| `Meaning.LateStoreFails` | offwork/graph/store.py:258-427 | The same from the store's blobs, dependency lists and names: reconstructing b from it gives a program that raises NameError |
| `Meaning.EarlyCaptureRuns` | offwork/graph/store.py:412-425 | If b names f before a, the sorter gives f, a, b and the program runs |
| `Scripts.RunsIff` | offwork/graph/store.py:415-425 | Any program of functions and class blocks runs to the end exactly when every default names a definition further up, or for a method an earlier method of its own block |
| `Scripts.FunctionsFinished` | offwork/graph/store.py:415-425 | After a run every function object has its own parameters and body, and defaults that mean what they mean at the end of the program |
| `Semantics.ApplyAgrees` | offwork/graph/store.py:64-73 | Two worlds of closures that agree function by function (parameters, body, and what every free name means) give every call the same outcome |
| `Emission.EmitsEachOnce` | offwork/graph/store.py:412-425 | reconstruct emits every needed node exactly once, on its own or in its class block, and nothing else |
| `Emission.FunctionAfterDependencies` | offwork/graph/store.py:402-425 | Every standalone function is emitted, with its captures moved, after the parts that hold all its needed dependencies |
| `Emission.BlockAfterDependencies` | offwork/graph/store.py:412-425 | A class block follows everything that its first member depends on |
| `Emission.ParentBlockFirst` | offwork/graph/graph.py:653-681 | When every child method depends on every parent method, the whole parent block precedes the child block |
| `TopologicalSort.StaticOrderSorts` | offwork/graph/store.py:20-25 | A successful sort lists every node once, each after all its dependencies |
| `TopologicalSort.ReleasedInOrder` | offwork/graph/store.py:20-25 | Nodes that become ready by the same node are listed in the order in which they were added |
| `TopologicalSort.StaticOrderFailsOnCycles` | offwork/graph/store.py:20-25 | The sort fails exactly when the graph has a cycle |
| `Reachability.WalkExact` | offwork/graph/store.py:258-268 | walk terminates on every graph, cyclic or not, and returns exactly the reachable hashes, each once |
| `Reachability.WalkReversesLeaves` | offwork/graph/store.py:258-268 | The walk goes last first: leaves follow their root in reverse |
| `StoreClass.Store.WalkHashes` | offwork/graph/store.py:258-268 | The loop returns that list |
| `StoreClass.Store.SetDeps` | offwork/graph/store.py:226-231 | Sets one dependency list and no other; an empty list removes the entry |
| `StoreClass.Store.SetRef` | offwork/graph/store.py:239-241 | Maps one name and leaves all other names as they are |
| `StoreClass.Store.Gc` | offwork/graph/store.py:326-335 | Removes exactly the objects that no reference reaches, with their dependency lists, and returns them; references stay |
| `StoreFacts.GcIdempotent` | offwork/graph/store.py:326-335 | After a collection everything left is reachable: a second one removes nothing |
| `StoreFacts.GcKeepsPrograms` | offwork/graph/store.py:326-335 | Collection changes the reconstruction of no name, qualified or simple, and no error |
| `StoreClass.Store.Subgraph` | offwork/graph/store.py:270-288 | The new store holds exactly what the roots reach: blobs, dependency lists, and the last name of each hash |
| `StoreFacts.SubgraphKeepsPrograms` | offwork/graph/store.py:270-288 | Extraction keeps the reconstruction of every name that is the last one of a copied hash, when captured functions are copied too or go by no name |
| `StoreFacts.SubgraphKeepsEveryProgram` | offwork/graph/store.py:270-288 | With injective names, and captured functions held by name as graphs put them into stores, that is every name of a copied hash |
| `StoreClass.Store.Merge` | offwork/graph/store.py:294-324 | Blobs are united and ours win, dependency lists are united per hash, existing names win; both counters are exact and the conflicts are exactly the names mapped differently, also when merging a store with itself |
| `StoreClass.MergeReaches` | offwork/graph/store.py:310-316 | After a merge reachability is that of the united edges |
| `StoreClass.MergedOursFirst` | offwork/graph/store.py:310-316 | In a merged dependency list ours come first, in our order |
| `StoreClass.MergeRefsGet` | offwork/graph/store.py:318-326 | Looking up a name after a merge gives ours if there is one, else theirs |
| `StoreClass.Store.ResolveHash` | offwork/graph/store.py:489-499 | The hash of the reference with that qualified name; without one, the hash of the first reference whose blob has that simple name; nothing exactly when neither exists |
| `StoreClass.ResolveExact` | offwork/graph/store.py:489-499 | The same of the lookup that the theorems about names use |
| `WorkerCache.TargetGoesByName` | offwork/graph/store.py:339-360 | The collected target is the one found: a reference goes by the name, or the target's own simple name is the name |
| `StoreClass.NodeTells` | offwork/graph/store.py:362-391 | A collected node has the blob's content, and it, its dependencies and its captures are called by the last names of their hashes, or by the stated substitutes |
| `StoreClass.LastSegmentExact` | offwork/graph/analyzer.py:390-407 | The last segment of a dotted name is what follows its last dot |
| `StoreClass.Store.CollectNodes` | offwork/graph/store.py:339-391 | The loop collects the reachable nodes that have blobs, with names for hashes |
| `StoreClass.Store.ReconstructProgram` | offwork/graph/store.py:393-427 | The whole of reconstruct computes the program that the theorems above speak of, or KeyError or CycleError |
| `Reconstruction.HoistClosureVars` | offwork/graph/analyzer.py:375-387 | Appends the captured values, in order, as keyword-only defaults |
| `Reconstruction.HoistClosureFuncRefs` | offwork/graph/analyzer.py:390-407 | Appends the captured functions, in order, as defaults that name them |
| `Reconstruction.GroupByClass` | offwork/graph/store.py:52-61 | Every class gets exactly its members, in order |
| `Reconstruction.EmitParts` | offwork/graph/store.py:409-425 | The emission loop, class groups included |
| `StoreClass.Store.ToDict` | offwork/graph/store.py:431-451 | Captured functions are written as hashes, everything else as it is |
| `StoreClass.Store.FromDict` | offwork/graph/store.py:457-480 | Captured functions are read back as names, empty dependency lists are dropped |
| `GraphClass.StoreRoundTrip` | offwork/graph/store.py:431-480 | Writing a store out and reading it back gives the same store exactly when no dependency list is empty and every captured reference is the last name of its hash, or neither a name nor a named hash |
| `GraphClass.GraphRoundTrip` | offwork/graph/graph.py:892-971 | Serializing a dependency-closed graph with distinct content hashes and no captured name equal to a hash, then deserialize_graph, gives the same nodes in the same order: names, contents, captured references, dependency lists |
| `GraphClass.Graph.ToStore` | offwork/graph/graph.py:911-930 | Both loops of to_store |
| `GraphClass.Graph.Deserialize` | offwork/graph/graph.py:937-971 | The loop of deserialize_graph |
| `GraphClass.Graph.CollectSubgraph` | offwork/graph/graph.py:880-890 | A rooted subgraph holds the graph's own nodes in walk order; it raises KeyError exactly if a needed name has no node |
| `GraphClass.CollectedIsSmallest` | offwork/graph/graph.py:880-890 | The collected names are the smallest dependency-closed set that contains the roots |
| `WorkerCache.EqualKeysSameRoot` | offwork/worker/worker.py:41-45 | Since a build fails on cycles, two roots that reach the same hashes are the same root |
| `WorkerCache.SameKeySameRoot` | offwork/worker/worker.py:41-45 | The same across stores that agree on blobs and dependency lists below their roots |
| `Renaming.TextKeepsUnderRenaming` | offwork/graph/store.py:393-427 | Renaming the nodes apart changes neither whether they can be sorted nor the text of the program |
| `Renaming.SameTextRuns` | offwork/graph/store.py:393-427 | Programs with the same text run alike |
| `Renaming.TextTells` | offwork/graph/store.py:412-427 | The text of a part tells exactly everything but qualified names: names, parameters, defaults and bodies of its definitions, in order |
| `SameText.SameTextRunsAlike` | offwork/worker/worker.py:305-309 | Programs with the same text give the same outcome under the same name, for every fuel and all arguments that are numbers or stand at the same position of both programs |
| `WorkerCache.BuildIsByHash` | offwork/worker/worker.py:290-315 | What a build makes of a task's store depends on blobs, dependency lists and the root only, not on the names in the store |
| `WorkerCache.BuildTells` | offwork/worker/worker.py:290-315 | A build succeeds exactly when the name is found, the program can be sorted and runs, and the target is there; it gives the program's text and the target's place in it |
| `WorkerCache.HitIsFresh` | offwork/worker/worker.py:121-129 | A cache entry is, as text, what a fresh build would return now, whatever store and name it was built from and whatever qualified names that store had, for complete stores that agree on blobs and dependency lists below the roots |
| `CachedRuns.CachedFunctionRunsLikeTarget` | offwork/worker/worker.py:121-129 | What the worker runs for a task, whoever filled the cache, gives the outcome that the target of the task's own store has with its original closures |
| `WorkerCache.Worker.GetCached` | offwork/worker/worker.py:121-129 | Over any sequence of calls: the store is read, the result is the fresh build's, failures are not cached, and only a build, or a hit while unlocked, is recorded |
| `WorkerCache.Worker.LookUpTwice` | offwork/worker/worker.py:184-204 | is_streaming and then run return the fresh build, and the recorded build info says whether the task found the function built |
| `Ed25519Points.PointAddCorrect` | offwork/core/ed25519.py:46-57 | _point_add represents the affine Edwards sum for any representatives of curve points: coordinates in [0, p), Z nonzero, X Y = Z T, on the curve |
| `Ed25519Points.ScalarMulCorrect` | offwork/core/ed25519.py:60-67 | _scalar_mul represents the e-fold affine sum for every e >= 0 |
| `Edwards.Complete` | offwork/core/ed25519.py:46-57 | Neither denominator of the affine sum of curve points vanishes, because d is not a square |
| `Edwards.AddAssociates` | offwork/core/ed25519.py:46-67 | The affine group law is associative (proved, not assumed) |
| `Edwards.AddOnCurve` | offwork/core/ed25519.py:46-57 | Sums of curve points are curve points |
| `Edwards.TimesMod` | offwork/core/ed25519.py:136-141 | Multiples of a point whose order divides l depend on the factor modulo l only |
| `ExtendedCoordinates.FormulasRepresentSum` | offwork/core/ed25519.py:46-57 | The extended-coordinate formulas compute the affine sum for every choice of representatives |
| `SquareRoots.CandidateRoot` | offwork/core/ed25519.py:31-38 | For a prime p that is 5 modulo 8, x^((p+3)/8) or its product with a root of -1 squares to every square x |
| `SquareRoots.RootOfMinusOne` | offwork/core/ed25519.py:20-20 | 2^((p-1)/4) is a square root of -1 |
| `Residues.TwoIsNonResidue` | offwork/core/ed25519.py:20-20 | 2 is not a square modulo a prime that is 5 modulo 8 (proved) |
| `Residues.Fermat` | offwork/core/ed25519.py:31-38 | Fermat's little theorem, behind every inverse by pow(x, p-2, p) |
| `Ed25519Points.XRecoverCorrect` | offwork/core/ed25519.py:31-38 | _x_recover returns the even one of the two x-coordinates that go with y |
| `Ed25519Points.BaseRepresented` | offwork/core/ed25519.py:41-43 | The derived base point is the one of RFC 8032, section 5.1, and on the curve |
| `Ed25519Points.ModPowIsPow` | offwork/core/ed25519.py:31-38 | Raising to a power by squaring, as the modular power of the derived constants, inverses and roots, gives the power modulo p |
| `Ed25519Points.ConstantValues` | offwork/core/ed25519.py:17-17 | The field prime is 2^255 - 19 |
| `Ed25519Points.OrderValue` | offwork/core/ed25519.py:18-18 | The group order is 2^252 + 27742317777372353535851937790883648493 (times 8, and in hexadecimal) |
| `Ed25519Points.IsOnCurveCorrect` | offwork/core/ed25519.py:95-102 | The membership test decides the curve equation of the point that is represented, for any representative |
| `Ed25519Points.EncodeCorrect` | offwork/core/ed25519.py:70-75 | An encoding depends only on the affine point: y, and the parity of x in the top bit |
| `Ed25519Points.DecodeSound` | offwork/core/ed25519.py:78-92 | An accepted string decodes to a representative of a curve point that it carries |
| `Ed25519Points.DecodeComplete` | offwork/core/ed25519.py:78-92 | Every 32-byte string that carries a curve point is accepted and represents it |
| `Ed25519Signatures.EncodeInjective` | offwork/core/ed25519.py:70-75 | Two representatives encode alike exactly when they are the same affine point |
| `Ed25519Signatures.DecodeOfEncode` | offwork/core/ed25519.py:70-92 | Decoding an encoded curve point gives a representative of the same point |
| `Ed25519Signatures.EncodeOfDecode` | offwork/core/ed25519.py:70-92 | For every string that carries a curve point, which are the accepted ones by DecodeSound and DecodeComplete: decoding and encoding again gives the string back exactly unless x = 0 with the sign bit set |
| `Ed25519Signatures.AcceptsNegativeZero` | offwork/core/ed25519.py:84-89 | Such a string exists and is accepted, although section 5.1.3 of RFC 8032 rejects it |
| `Ed25519Signatures.ClampCorrect` | offwork/core/ed25519.py:105-110 | The clamped scalar is 2^254 plus the digest's bits 3 to 253, a multiple of 8 below 2^255 |
| `Ed25519.ClampBuffer` | offwork/core/ed25519.py:105-110 | The three edits of the byte array in place give that scalar |
| `Ed25519Signatures.EverySignatureVerifies` | offwork/core/ed25519.py:118-162 | For all 32-byte seeds and all messages, verify(m, sign(m, seed), seed_to_public(seed)) is true |
| `Ed25519Signatures.VerifyMeaning` | offwork/core/ed25519.py:144-162 | verify is true exactly when the lengths are right, s is below L and [s]B = R + [k]A for curve points carried by the signature and the key, where k is the little-endian value of the digest of R, key and message, modulo L |
| `Ed25519Signatures.SignMeaning` | offwork/core/ed25519.py:118-141 | What sign returns, from the digests alone: the encoding of [r]B and the 32 bytes of r + k a modulo L, with a the clamped bits of the seed's digest, r the digest of its second half and the message, and k the digest of R, key and message; an error exactly for seeds of other lengths |
| `CodecRoundTrip.ComesBack` | offwork/core/task.py:216-378 | For every value tree: decoding what was sent gives the value back exactly when no enum is also a str, every enum, namedtuple and object class is in the namespace as it was (flags included), every defaultdict factory is none or a known builtin, no path is a concrete one, and every plain dict with a sentinel as its only key is one that is kept as it is |
| `CodecLanding.Lands` | offwork/core/task.py:120-378 | What arrives of every value, told from the value alone: a plain tuple for a namedtuple of a missing class, the string for a str enum, the value for an enum of a missing class, a pure path for a concrete one, no factory for an unknown one, and for pairs the dict or set they make |
| `CodecRoundTrip.EnumDecides` | offwork/core/task.py:160-175 | An enum member comes back by its name, exactly when that name still has its value; a member whose class has no such name, as a combination of flags, exactly when its value comes back and the search by value finds a member of its name |
| `CodecRoundTrip.SentinelDict` | offwork/core/task.py:334-378 | A plain dict whose only key is a sentinel comes back exactly when the sentinel is the object one, as a plain str, and the value is a JSON dict that names a class the namespace lacks |
| `CodecRoundTrip.SentinelDictLost` | offwork/core/task.py:349-378 | With any other sentinel it never comes back |
| `CodecRoundTrip.NestsNoDeeper` | offwork/core/task.py:216-378 | Sending and reading a value never makes its lists and dicts nest deeper |
| `CodecRoundTrip.JsonUnchanged` | offwork/core/task.py:216-294 | _to_jsonable is the identity on JSON values |
| `CodecRoundTrip.SentIsJson` | offwork/core/task.py:216-294 | Everything that is sent is JSON, with string keys only |
| `CodecRoundTrip.SentOnce` | offwork/worker/sandbox/docker.py:137-142 | Encoding what was sent a second time changes nothing |
| `Values.DictLookup` | offwork/core/task.py:146-158 | A dict made of pairs has for every key the last value given |
| `Tasks.TaskRoundTrip` | offwork/core/task.py:463-484 | Reading a task dictionary gives the task: every omitted key stands for the default that reading supplies; more keys do no harm |
| `Tasks.ReadDefaults` | offwork/core/task.py:463-484 | A dictionary with a graph and a function name only is read with the stated defaults |
| `Tasks.ToDictHolds` | offwork/core/task.py:428-457 | The written dictionary holds the task's value under every key, and nothing where a default is left out |
| `Tasks.JsonRoundTrip` | offwork/core/task.py:459-484 | to_json then from_json gives the task with its arguments encoded |
| `Envelopes.PayloadAgrees` | offwork/core/envelope.py:58-90 | For every task the payload the worker checks is the very payload the client signed |
| `Envelopes.PayloadTellsAll` | offwork/core/envelope.py:144-149 | The signed payload tells everything but the two signatures: envelopes with the same payload name the same client, time, nonce and key and carry the same task |
| `Envelopes.EncodedOnce` | offwork/worker/sandbox/docker.py:137-142 | Encoding a task's arguments again, as the sandbox host does, changes nothing |
| `Envelopes.BuiltIsAccepted` | offwork/core/envelope.py:64-173 | A built envelope is accepted and gives the task with its arguments encoded, while the client is not revoked, the clock within the skew, the nonce new and the key unknown or pinned |
| `Envelopes.AcceptedIsSigned` | offwork/core/envelope.py:118-173 | Only envelopes whose payload carries both signatures of the pinned identity are accepted, and only fresh and unseen ones |
| `Envelopes.Verify` | offwork/core/envelope.py:93-173 | The checks in their order with their effects: the replay cache is asked, and the nonce recorded, before the signatures are checked; keys are pinned once and never changed |
| `Envelopes.KnownClients.RegisterOrVerify` | offwork/core/clients.py:76-103 | Pins a key on first sight; afterwards only that key is good |
| `Envelopes.NoReplay` | offwork/core/envelope.py:133-142 | Within any run of the cache the same envelope is not accepted twice |
| `SignedTasks.SignedTaskIsAccepted` | offwork/core/envelope.py:64-173 | The same over Ed25519: every task signed with a 32-byte seed is accepted |
| `ReplayCache.NonceLRU.Evict` | offwork/core/signing.py:59-67 | Drops from the front what is older than ttl, then down to capacity |
| `ReplayCache.NonceLRU.CheckAndAdd` | offwork/core/signing.py:69-84 | Records the pair unless it is there; never more than capacity + 1 entries |
| `ReplayCache.RunKeepsTail` | offwork/core/signing.py:53-84 | With a clock that does not go back, and at most capacity pairs recorded in any ttl, the cache is the recent end of the log in time order, and all before it is older than ttl |
| `ReplayCache.AgreesWithPlain` | offwork/core/signing.py:69-84 | Under the same conditions every call is decided by "recorded at most ttl ago" |
| `ReplayCache.NothingPassesTwice` | offwork/core/envelope.py:133-142 | With ttl >= 2 clock_skew no envelope passes the freshness and replay checks twice |
| `ReplayCache.FullCacheForgets` | offwork/core/signing.py:66-67 | The bound is needed: capacity + 1 different pairs at one moment are all accepted, and then the first is accepted again |
| `Broker.BrokerServer.Handle` | offwork/worker/backends/local.py:117-183 | Every message to _dispatch is one step on the whole state with its reply |
| `Broker.BrokerServer.PutYield` | offwork/worker/backends/local.py:155-161 | Padding and assignment put the text at its index and gaps before it |
| `Broker.FirstReaderGetsFirst` | offwork/worker/backends/local.py:122-134 | A slot holds at most one result, and the first reader gets the earliest one put, whatever order cancellation and completion take |
| `Broker.CooldownHolds` | offwork/worker/backends/local.py:172-182 | From a recorded cooldown to its end every check is refused, and the first check after it is allowed |
| `Broker.CancellationsStay` | offwork/worker/backends/local.py:146-171 | A cancellation of a task or schedule is never taken back |
| `Broker.FlagsExact` | offwork/worker/backends/local.py:146-171 | A task or schedule is reported cancelled exactly if it was cancelled before |
| `Broker.QueuedInOrder` | offwork/worker/backends/local.py:117-121 | Everything submitted is queued, in order |
| `Broker.TakenOnce` | offwork/worker/backends/local.py:130-134 | A result is taken once |
| `Broker.NoCooldownAllows` | offwork/worker/backends/local.py:172-182 | Without a recorded cooldown a function is allowed |
| `Streaming.DeliversInOrder` | offwork/worker/result.py:625-672 | In every interleaving of worker, broker and client: what is delivered is a prefix of what was produced, and the gap error is unreachable |
| `Streaming.DeliversEverything` | offwork/worker/result.py:653-672 | When the worker's own result ends the stream, everything in the broker has been delivered, and everything produced exactly if no value was lost while being sent |
| `Streaming.StreamEnds` | offwork/worker/result.py:625-672 | From every state reached without a cancellation in which the worker is done, the client alone comes to the end within as many steps as there are values and seven more: it stops with the worker's own result and has delivered everything in the broker |
| `Streaming.PollThenReadDelivers` | offwork/worker/result.py:630-646 | After asking and reading, the next buffered value has been delivered |
| `Streaming.StreamsAll` | offwork/worker/result.py:625-672 | Every stream of nonempty values that nobody cancels is delivered whole, and ends with a success that counts the values |
| `Streaming.LostValueIsNotDelivered` | offwork/worker/remote.py:751-756 | A value whose sending raises before it arrives is produced but never delivered: the stream ends with the worker's error |
| `Streaming.SuccessCounts` | offwork/worker/worker.py:238-249 | A result that says success counts exactly the values that reached the broker |
| `Requests.RepliesArePaired` | offwork/worker/backends/local.py:337-347 | Whatever connections fail, and whatever is cancelled before it is written: as long as no request is cancelled while it waits for its reply, every call gets the reply to its own request |
| `Requests.CancelledWaitMixes` | offwork/worker/backends/local.py:337-347 | This limit is exact: after any such run, one request that is cancelled while it waits makes the next call return the reply to that request, or take its text for a length |
| `Schedules.OneOccurrence` | offwork/worker/remote.py:823-857 | At every moment of a run at most one occurrence is queued, waiting, running or about to be submitted, exactly when no task that a worker received is queued again while an occurrence is alive |
| `Schedules.PutBackRunsTwice` | offwork/worker/backends/local.py:187-199 | The assumption that a put-back task was not received is needed: otherwise it runs twice whatever max_runs is |
| `Schedules.MaxRunsExactly` | offwork/graph/tracing.py:95-108 | The check that max_runs is positive is needed: without it the bound holds in every run exactly for a max_runs of at least 1 |
| `Schedules.WithinMaxRuns` | offwork/worker/remote.py:823-857 | Executions never exceed max_runs, for every schedule that passes the checks of run_every, if no received task is ever queued again |
| `Schedules.RoundExact` | offwork/worker/remote.py:823-857 | One round executes the occurrence once; then the schedule is over and marked cancelled exactly if the next time is past the deadline or at most one run remained, it just ends if it was cancelled, and otherwise the next occurrence is queued an interval later with one run less |
| `Schedules.RunsExactly` | offwork/worker/remote.py:823-857 | A schedule of n runs without a deadline runs exactly n times, however late and long the runs are, and is marked cancelled only then |
| `Schedules.WithinDuration` | offwork/worker/remote.py:407-419 | For a positive interval, executions never exceed floor(run_for / interval) + 1, with an hour as run_for when no limit was given |
| `Schedules.FillsDuration` | offwork/worker/remote.py:407-419 | Run without delay, a schedule with a deadline runs exactly floor(run_for / interval) + 1 times |
| `Schedules.OneMoreAfterCancel` | offwork/worker/remote.py:823-857 | After cancel_schedule at most one more execution starts |
| `Outcomes.HandleTask` | offwork/worker/remote.py:598-655 | A task gets one result or none, and one exactly when sending it does not fail, whatever was raised on the way is an Exception whose text can be made, a rejected task's identifier can be read, an accepted task's cancellation was not seen before the start, and an executed task's last progress can be written as JSON |
| `Outcomes.ExecuteTask` | offwork/worker/remote.py:658-857 | Every path: which result, the cooldown exactly after a success that was sent, the next occurrence exactly when nothing raised before and the schedule is neither exhausted nor cancelled |
| `Outcomes.BadProgressIsSilent` | offwork/worker/remote.py:539-550 | A task that succeeds, but whose last progress JSON cannot hold, gets no result at all |
| `Outcomes.UncaughtIsSilent` | offwork/worker/remote.py:768-779 | Nor does one that raises something other than an Exception |
| `Outcomes.UntellableIsSilent` | offwork/worker/result.py:69-78 | Nor does one that raises an Exception whose text cannot be made, while it runs or while it is built |
| `Outcomes.RunWithPolicy` | offwork/worker/worker.py:251-274 | The first success within 1 + retries attempts; an error outside Exception at once, any other one when it is the last; with negative retries there is no attempt and no error to raise |
| `Framing.ParseFrames` | offwork/worker/sandbox/_protocol.py:18-50 | Any concatenation of frames with payloads below 2^32, followed by the start of another frame, parses back to the same payloads and leaves that start |
| `Framing.HeaderRoundTrip` | offwork/worker/sandbox/_protocol.py:15-27 | Headers and lengths below 2^32 correspond one to one |
| `Framing.HeaderIsBigEndian` | offwork/worker/sandbox/_protocol.py:15-21 | A header is the length in four bytes, most significant first |
| `Framing.CutFrame` | offwork/worker/sandbox/_protocol.py:41-50 | A frame that was cut off is never taken for a whole one |
| `Framing.FramesInjective` | offwork/worker/sandbox/_protocol.py:18-21 | Different payload sequences have different bytes |
| `Sandbox.PairedExactly` | offwork/worker/sandbox/docker.py:349-459 | For calls of given kinds, with timeouts, cancellations and lost connections at any point: every response is the guest's answer to that same call and every yielded value its own, in every run, exactly when there are no plain requests for async generators among them; otherwise a call may return the answer to another one |
| `Sandbox.ResponsesArePaired` | offwork/worker/sandbox/docker.py:349-459 | The half of this that holds for one run without such requests |
| `Sandbox.SendsAreBounded` | offwork/worker/sandbox/docker.py:349-428 | A request is sent at most twice, a streaming one at most once |
| `Sandbox.RetryAnswers` | offwork/worker/sandbox/docker.py:372-379 | A plain request whose connection fails once goes out a second time on a new connection and returns its own answer |
| `Sandbox.LostEnds` | offwork/worker/sandbox/docker.py:372-428 | A second failure, or the first one of a stream, ends the call without a response |
| `Sandbox.CallAnswers` | offwork/worker/sandbox/docker.py:349-371 | A call that begins while the channel is free and nothing is left on it gets its own answer when nothing fails |
| `Sandbox.GuestKeepsBusy` | offwork/worker/sandbox/guest_agent.py:592-614 | The guest's loop keeps one request under way per connection and writes only about it |
| `Sandbox.PlainGeneratorCallsAreMixed` | offwork/worker/sandbox/docker.py:384-405 | Two plain requests for a generator that yields once: the second returns the answer to the first |
| `Generators.ProxyAgrees` | offwork/graph/tracing.py:394-432 | For every generator body and every sequence of next, send, throw (other than GeneratorExit) and close: the proxy yields, returns and raises what the wrapped generator does, exactly when no close is ignored before the last operation or the operation after the first ignored one finds the body at its end |
| `Generators.IgnoredCloseEndsProxy` | offwork/graph/tracing.py:410-414 | After a close that the body answers with a yield both raise RuntimeError, but the generator goes on while its proxy has ended |
| `Generators.ThrownExitAgreesIff` | offwork/graph/tracing.py:412-414 | GeneratorExit thrown into a suspended generator is seen alike exactly when the body returns nothing or raises something else |
| `CallStack.Tracer.Perform` | offwork/graph/tracing.py:367-432 | For any nesting of wrapped functions and generators, whether it runs to its end or raises, the call stack afterwards is the one before, and exactly the edges of the specification are added |
| `CallStack.EdgesAreCalls` | offwork/graph/tracing.py:314-318 | An edge is recorded exactly for a call that is reached and whose caller is another function at the top of the stack at that moment |
| `CallStack.NoSelfEdges` | offwork/graph/tracing.py:314-318 | No function is recorded as its own caller |

## Left out

- StoreFacts.SubgraphKeepsPrograms: holds for names that are the last one of their hash, which all are when names are injective; a captured reference that is the hash of a named function outside the subgraph would be read differently.
- Meaning.ReconstructionPreservesMeaning: methods take part as definitions of their class block, but instances and method calls are not in the language; a call of a class ends both runs alike.
- WorkerCache.HitIsFresh: is about the text of the program and where the target is found in it; the file name under which the text is compiled, which only tracebacks show, is that of the first task.
- Streaming.DeliversInOrder: a request and its reply are one atomic step there, as they are while no request is cancelled on its way (`Requests.RepliesArePaired`).
- Outcomes.HandleTask: is about executions that end; a function that never returns gets no result, nor does a plain function that raises StopIteration where the interpreter (Python 3.11) cannot hand it on.
- Schedules.PutBackRunsTwice: that the broker is told of a broken connection although its message got through is assumed there; buffering and the operating system are not modelled, and it may never happen.
- CodecRoundTrip.ComesBack: a timedelta so long that its seconds do not fit a float loses its microseconds; floats are exact here.
- Imports, module variables, class bases, decorators and attributes in the reconstructed text, the rewriting of super(), and indentation: the parts of a program are definitions, not text. Duplicate parameter names, which Python rejects, are not rejected.
- Assignment to captured variables, keyword arguments, exceptions raised by user code other than name and type errors, and the recursion limit of Python.
- Content hashes are any function of the content; the cache key is the set of reachable hashes rather than a shortened digest of them. Package installation before a build is not modelled.
- JSON text, base64 text, dates, decimals, paths and addresses are leaves whose own text reads back; values that cannot be pickled and malformed base64 text are not modelled, and equal keys of different types, such as 1 and True, are told apart when a dict is rebuilt. Counter values are integers.
- A task dictionary is a value, built in one expression rather than key by key; its fields have their declared types, so that a payload with fields of other types is not described.
- Envelopes.PayloadTellsAll: takes the canonical text to tell JSON dictionaries apart; the source's text also sorts keys, so that it tells them apart up to the order of their keys.
- HMAC, key derivation, hexadecimal text and random nonces are parameters of the envelope.
- Saving the known clients to a file, their timestamps, and revoking or approving them.
- The broker's heartbeats, progress slots and result subscriptions.
- The polling loop of Result._do_cancel is not a method: its effects (flag, seeded result, taken result) are single actions of the streaming model, in any order and number.
- Progress rate limiting, log capture, heartbeat timing, signal handling and graceful shutdown.
- The Redis, RabbitMQ and WebSocket backends, sockets and Docker commands, which are network plumbing.
- Discovery of functions in live Python objects, and pairing, which only handle files and interpreter state.
- The coroutine and async generator wrappers of tracing, whose isolated stack is never restored; the value that close() returns from Python 3.13 on.
