# Verified models of the package tooling

Dafny models of the parts of the repository where correctness takes an argument rather than a reading. Run
`dafny verify dfyconfig.toml` in this directory. Code that computes in loops is modelled by methods with loops,
objects that change in place by classes, protocols by state machines over their steps, and pure code by functions. Every
method is proved against a function or relation, and the lemmas say what that function or relation means.

**Dependency graphs** (`Digraph`, `CycleCount`, `ShortestDepths`, `GraphDocument`, `GraphAnalysis`, `GraphProjection`,
`GraphStore`, `GraphTables`). The two-pass component count returns the number of strong components that contain a cycle, over every
finite digraph. The queue search gives exact shortest distances from the nearest root. Both are lifted from indices to
package identities: the analysis succeeds exactly on documents whose edges and roots name nodes, whose node ids are
distinct and whose nodes are all reached, and every failure carries its exact reason. Because the node count is checked
to fit 32 bits first, the two later overflow errors never surface. Persistence is a state machine over digest-keyed,
sealed artifacts, whose invariant holds after every history. Read column by column, the rows of a stored artifact give
back exactly its document's edges with their depths, and after every history they pass the schema's constraints.

**Local locks** (`LockOrder`, `LockManagement`, `StableSort`, `LockWaiter`, `WaiterLimiter`). Threads of several processes take and
drop locks in any interleaving. If every request lies at or above all that its thread owns, delivered guards included,
and rejects re-entry, no wait cycle is reachable. For guards that stay on their thread the code's own order check
provides this, and such threads are free of deadlock exactly when no two identities share class rank and sort key.
An inversion is reported exactly when a held place has a greater rank, or the same rank and a later key.
Guards handed over by `acquire` leave no trace on the receiver's held list: a receiver and another owner that ask for each
other's identity block each other exactly when the receiver asks below its guard. Lock sets are all or nothing. The one-shot waiter delivers its result exactly once, and
the waiter counter equals the live permits.

**Package security** (`Json`, `Utf16`, `KeyOrder`, `CanonicalJson`, `JsonReader`, `DependencyClosure`, `ClosureAdmission`).
The restricted RFC 8785 text reads back as its value with an independent JSON reader. Member by member it is stated which
closures are accepted and what comes back. Accepted closures normalize to a form that does not depend on the order of
dependencies or the letter case of digests, and what recomputation returns passes verification unchanged.

**Versions** (`TextParts`, `Versions`, `VersionParsing`, `VersionRequirements`, `VersionResolution`). Precedence is
that of Semantic Versioning 2.0.0, range tokens mean what Cargo's dialect says they mean for stable versions, text is
read as a token only if it is spelled as one, and resolution picks the highest stable match, the last among equals.

**Publication ledger** (`PublicationLedger`, with `TextLimits`, `TableChecks` and `Utf8`). Publications and compare-and-swap
repairs over versions, verified uploads and audit facts, in every run from empty tables. The validators are compared with
the constraints of the tables they guard.

**Count reports** (`CountReport`, `BudgetReading`). The budget writer, its reader with the brace matcher, the budget as a JSON
document, and the comparison of counts.

Where the code and its own comments differ, the models follow the code:

- `acquire_many_blocking` is documented to deduplicate its requests; it refuses duplicates (src/rust-lock/lib.rs:585-609).
- The PEP 440 label table is a plain object, so a lookup also finds inherited properties. Outside the table exactly one
  word is accepted, `constructor`: `1.2constructor` is read as the release 1.2.0 (src/ts/version.ts:102-143). The exact
  condition is `VersionParsing.LabelAcceptedIff`.
- "Prereleases never satisfy a range" holds of resolution only. `requirementMatches` accepts exactly the prereleases
  above the bound up to and including those of the upper end, so `^1.0.0` accepts `1.5.0-alpha` and `2.0.0-alpha`
  (src/ts/version.ts:361-381). The exact conditions are `Versions.BoundsTakePrereleases` and `Versions.SaysExactlyWhen`.
- The publication validator asks only for short text that is not blank where the tables ask for a slug or a package name
  (src/rust-orm/publication.rs:307-336, generated/ddl-roundtrip/drizzle/schema.sql:177,307). What it lets through is refused
  by the tables exactly when a new organization's slug or a new package's name lacks that form: `PublicationLedger.NewRowsPassIff`.
- A budget does not read back for every map of counts: codes that need escaping or hold a comma or a colon come back
  changed. The exact condition is `CountReport.BudgetRoundTripIff`. A standard JSON reader loses nothing.
- Guards delivered by `acquire` escape the lock hierarchy; the exact condition is `LockOrder.DeliveredGuardCyclesIff`.

## Model

| member | source | states |
|---|---|---|
| Digraph.OnCycleIff | src/rust-orm/registry/graphs.rs:1208 | a node lies on a cycle exactly when it has a loop or shares its component with another node |
| Digraph.CyclicBySizeOrLoop | src/rust-orm/registry/graphs.rs:1208 | the size-or-self-loop test the count applies to a component is exact |
| Digraph.NoCyclicComponentIffAcyclic | src/rust-orm/registry/graphs.rs:1155-1215 | no component is cyclic exactly when no node is on a cycle |
| Digraph.CyclicComponentsBounded | src/rust-orm/registry/graphs.rs:1208-1212 | there are at most as many cyclic components as nodes |
| CycleCount.FinishOrder | src/rust-orm/registry/graphs.rs:1163-1186 | the first pass lists every node once, and the last finisher of a component comes after everything it reaches |
| CycleCount.SearchFindsComponent | src/rust-orm/registry/graphs.rs:1190-1207 | when all later finishers are assigned, a backward search finds exactly the component of its start |
| CycleCount.UnassignedPredecessorsAreLinked | src/rust-orm/registry/graphs.rs:1188-1207 | once all later finishers are assigned, whatever unassigned node reaches the next one lies in its component |
| CycleCount.AssignComponent | src/rust-orm/registry/graphs.rs:1194-1207 | one backward search marks exactly the unassigned nodes that reach its start, and reports their number and whether one has a loop |
| CycleCount.CountCyclicComponents | src/rust-orm/registry/graphs.rs:1155-1215 | for every digraph with transposed incoming lists and matching loop flags, the count is the number of strong components containing a cycle, an error only beyond the 32-bit range |
| ShortestDepths.DepthsAreNearest | src/rust-orm/registry/graphs.rs:1114-1125 | when the queue is empty, a node has a depth exactly when a root reaches it, and the depth is the shortest distance from the nearest root |
| ShortestDepths.DepthsBelowNodeCount | src/rust-orm/registry/graphs.rs:1115-1118 | depths found by the search stay below the number of nodes |
| ShortestDepths.Search | src/rust-orm/registry/graphs.rs:1114-1125 | the queue loop ends with the slots holding those depths; it can only fail beyond the 32-bit range |
| GraphDocument.DepthAcrossEdge | src/rust-orm/registry/graphs.rs:1115-1124 | across an edge the identity depth grows by at most one |
| GraphAnalysis.IndexNodes | src/rust-orm/registry/graphs.rs:1083-1087 | every node id is indexed by a position at which it stands |
| GraphAnalysis.Connect | src/rust-orm/registry/graphs.rs:1088-1101 | the adjacency vectors represent the edges, incoming being the transpose; the first unknown endpoint is the reason for failing |
| GraphAnalysis.SeedRoots | src/rust-orm/registry/graphs.rs:1103-1113 | the queue starts with each root's index once, at depth zero; fails exactly when some root is no node |
| GraphAnalysis.AllFoundIff | src/rust-orm/registry/graphs.rs:1126-1130 | every slot is filled exactly when node ids are distinct and every node is reached from a root |
| GraphAnalysis.NearestIsDepth | src/rust-orm/registry/graphs.rs:1114-1139 | index distances are the least chains of edges between package identities |
| GraphAnalysis.SameCycleCount | src/rust-orm/registry/graphs.rs:1146 | cyclic components of the index graph and groups of mutually dependent identities are equally many |
| GraphAnalysis.MaxDepthIsLargest | src/rust-orm/registry/graphs.rs:1131-1145 | the maximum over nodes, raised to one when there are edges, is the maximum over edges, and zero without edges |
| GraphAnalysis.AnalyzeResolvedGraph | src/rust-orm/registry/graphs.rs:1078-1152 | success means the document is admitted and every depth, the maximum and the cycle count are exact; each error names its exact cause |
| GraphProjection.ProjectionUnique | src/rust-orm/registry/graphs.rs:1022-1068 | a document has one projection at most |
| GraphProjection.Project | src/rust-orm/registry/graphs.rs:1022-1068 | a projection exists exactly for projectable documents, and the depth and cycle-count overflow errors are unreachable |
| GraphProjection.CycleCountZeroIffNoCycle | src/rust-orm/registry/graphs.rs:1155-1215 | the recorded cycle count is zero exactly when no package depends on itself |
| GraphProjection.DepthGrowsByOne | src/rust-orm/registry/graphs.rs:1131-1139 | every edge depth is at most its source's depth plus one |
| GraphProjection.MaxDepthBound | src/rust-orm/registry/graphs.rs:1057-1065 | the maximum depth never exceeds the node count |
| GraphProjection.DeclaredCounts | src/rust-orm/registry/graphs.rs:1022-1056 | a declared graph has at most one node per dependency besides its package, exactly that many when no coordinate repeats, and every depth is one |
| GraphStore.CheckEdges | src/rust-orm/registry/graphs.rs:968-987 | the loop over the normalized edges accepts exactly those that fit their columns, carry the projected depth and restate the document edge at their position |
| GraphStore.ValidateInput | src/rust-orm/registry/graphs.rs:824-1007 | the checks in sequence accept exactly the valid inputs: columns fit their limits and agree with the document, counts with its projection, edges with document and depths |
| GraphStore.PersistKeepsInvariant | src/rust-orm/registry/graphs.rs:397-535 | every transaction keeps: one artifact per digest, one declared artifact per root, all sealed, with ordinals 0 to edge count minus one that match the document |
| GraphStore.PersistOnlyAdds | src/rust-orm/registry/graphs.rs:455-535 | no transaction changes or removes a stored artifact, its rows or the registry |
| GraphStore.ReuseIsExactReplay | src/rust-orm/registry/graphs.rs:734-808 | reuse of a digest changes nothing and succeeds exactly when the input is the stored one and the registry still agrees with it |
| GraphStore.PersistSucceedsIff | src/rust-orm/registry/graphs.rs:397-535 | a transaction succeeds exactly for a valid input that the registry agrees with and that is stored already or claims a new digest and, if declared, a new root; then it is stored under the returned id, else nothing changes |
| GraphStore.EveryHistorySound | src/rust-orm/registry/graphs.rs:397-535 | from empty graph tables the invariant holds after every history of transactions and registry changes |
| GraphStore.StoredDigestIsFinal | src/rust-orm/registry/graphs.rs:397-535 | in any later state no reuse of the digest changes a table, and exactly the retry of the same input with root and links still valid succeeds, returning the same id |
| GraphStore.DependencyGraphStore.Persist | src/rust-orm/registry/graphs.rs:397-535 | the stepwise transaction commits and returns what the specification function says, errors in the same order, and keeps the invariant |
| GraphTables.EdgeMatchesIff | src/rust-orm/registry/graphs.rs:1218-1262 | a row is accepted exactly when its columns, read by name, spell out the document's edge at its position, source and target told apart |
| GraphTables.EdgesAgreeIff | src/rust-orm/registry/graphs.rs:968-987 | the edges of an input are accepted exactly when they are the rows written from the document with its depths, up to registry links, and fit their columns |
| GraphTables.StoredRowsReadBack | src/rust-orm/registry/graphs.rs:455-535 | the rows of a stored artifact, in order, read back as all the edges of its document and nothing else |
| GraphTables.StoredDepthsMean | src/rust-orm/registry/graphs.rs:1131-1139 | the depth in a row is that of the identity its target columns name, at least one, and at most one more than that of the identity its source columns name |
| GraphTables.RootCheckIff | src/rust-orm/registry/graphs.rs:556-593 | the root check passes exactly when the root version is active under the document's root coordinate, and each not-found error has its exact condition |
| GraphTables.VersionLinkIff | src/rust-orm/registry/graphs.rs:688-731 | a version link is valid exactly when it points at the active version that the endpoint's coordinate names, under the linked package |
| GraphTables.PackageLinkIff | src/rust-orm/registry/graphs.rs:688-731 | a package link alone is valid exactly when it points at the active package that the endpoint names |
| GraphTables.EdgeInputIff | src/rust-orm/registry/graphs.rs:1276-1318 | edge columns are accepted exactly when their row passes the constraints of its table and no required text is blank |
| GraphTables.ColumnsAgreeIff | src/rust-orm/registry/graphs.rs:824-945 | artifact columns are accepted exactly when they pass the constraints, repeat the verified document with its single root, and no required text is blank |
| GraphTables.StoredRowsPass | generated/ddl-roundtrip/drizzle/schema.sql:58-112 | under limits no wider than the schema's, every stored artifact and its rows pass the constraints of their tables, clock readings apart |
| GraphTables.EveryHistoryPasses | generated/ddl-roundtrip/drizzle/schema.sql:58-112 | the same after every history from empty tables, clock readings included if no transaction seals before it creates |
| LockOrder.RunReserves | src/rust-lock/lib.rs:633-656 | in every interleaving the reserved set is exactly the identities of in-flight or live rejecting requests, each held once |
| LockOrder.OrderAllowsIff | src/rust-lock/lib.rs:38-59 | a place is refused exactly when the list holds a greater rank, or the same rank with a key later in character order |
| LockOrder.BeginOutcome | src/rust-lock/lib.rs:405-428 | an awake thread's request is out of order exactly in that case, refused exactly when in order but reserved, and otherwise waits |
| LockOrder.RemoveLastTakesOne | src/rust-lock/lib.rs:80-92 | dropping a registration takes out its last matching entry and nothing else |
| LockOrder.RunListsExact | src/rust-lock/lib.rs:61-92 | in every interleaving without deliveries a thread's list holds exactly the places of the guards it owns, each once |
| LockOrder.RunOrdered | src/rust-lock/lib.rs:38-92 | in every interleaving of threads that keep their guards, a sleeping thread sleeps at or above all it holds, and owned guards are on their thread's list |
| LockOrder.RunAbove | src/rust-lock/lib.rs:38-59 | in every run of requests at or above all their thread owns and of deliveries to awake threads, each sleeping thread sleeps at or above everything it owns |
| LockOrder.CyclesAreSelfWaits | src/rust-lock/lib.rs:38-59 | in such a state a wait cycle can only be one thread waiting for itself |
| LockOrder.DisciplineExcludesDeadlock | src/rust-lock/lib.rs:380-556 | if moreover requests reject re-entry and guards are delivered within their process, no reachable state has a wait cycle |
| LockOrder.HierarchyExcludesDeadlock | src/rust-lock/lib.rs:380-469 | threads that keep their guards meet that discipline through the order check alone, so with one class per identity and rejected re-entry no reachable state has a wait cycle |
| LockOrder.DeadlockFreeIff | src/rust-lock/lib.rs:38-59 | such threads are free of deadlock, in all runs, exactly when no two identities share class rank and sort key |
| LockOrder.KeptGuardsCycleIff | src/rust-lock/lib.rs:1071-1078 | two threads that keep their guards and cross their requests block each other exactly when rank and key collide |
| LockOrder.DeliveredGuardCyclesIff | src/rust-lock/lib.rs:529-556 | the receiver of a delivered guard and another owner that cross their requests block each other exactly when the receiver asks at or below its guard |
| LockOrder.OnlySelfWaits | src/rust-lock/lib.rs:380-469 | under the discipline without the rejection policy every wait cycle is still a single thread re-entering its own lock |
| LockOrder.SelfWaitIff | src/rust-lock/lib.rs:633-650 | a request puts its thread to sleep on itself exactly when the thread owns the identity at an allowed place and the request queues or was not reserved through the same manager |
| LockOrder.ReentryBlocksItselfIff | src/rust-lock/lib.rs:633-650 | taking any identity twice on one thread blocks the thread on itself exactly when a request queues or the second goes through another manager |
| LockOrder.DeliveredGuardsCanDeadlock | src/rust-lock/lib.rs:529-556 | guards delivered from worker threads are on no receiver's list, and two receivers can wait on each other although both reject re-entry |
| LockManagement.SortedSorts | src/rust-lock/lib.rs:595-600 | in the sorted lock set ranks never fall, keys never fall in character order within a rank, and it is a permutation of the requests |
| StableSort.SortStable | src/rust-lock/lib.rs:595-600 | requests that rank and key do not tell apart keep their order |
| LockManagement.AscendingStaysAllowed | src/rust-lock/lib.rs:38-59 | once the first of an ascending set is allowed, each later one is allowed after its predecessors |
| LockManagement.CountedOnce | src/rust-lock/lib.rs:602-609 | identities are pairwise distinct exactly when there are as many as requests |
| LockManagement.HasDuplicate | src/rust-lock/lib.rs:602-609 | the set-based scan finds a duplicate exactly when two requests share an identity |
| LockManagement.LockManager.constructor | src/rust-lock/lib.rs:318-327 | a manager starts with nothing held, reserved or waiting |
| LockManagement.LockManager.CheckLockOrder | src/rust-lock/lib.rs:38-59 | comparing with the greatest held place allows a request exactly when no held place has a greater rank, or the same rank and a later key |
| LockManagement.LockManager.ReserveIfRequired | src/rust-lock/lib.rs:633-650 | a rejecting request is refused exactly when its identity is reserved, and otherwise reserves it; a queueing one changes nothing |
| LockManagement.LockManager.BeginAcquire | src/rust-lock/lib.rs:405-428 | the checks before the kernel wait take the step of the interleaving model |
| LockManagement.LockManager.FinishAcquire | src/rust-lock/lib.rs:430-468 | the end of the wait grants the lock or undoes the reservation |
| LockManagement.LockManager.TryAcquire | src/rust-lock/lib.rs:473-526 | acquisition without waiting succeeds exactly when the checks pass, the lock is free and the kernel call does not fail, and otherwise leaves no trace |
| LockManagement.TryLeavesNoTrace | src/rust-lock/lib.rs:473-526 | an attempt that does not take the lock leaves the whole state as it was, and one that does adds its guard, place and reservation alone |
| LockManagement.LockManager.Release | src/rust-lock/lib.rs:711-747 | dropping a guard frees the lock, its reservation and its place on the held list |
| LockManagement.LockManager.AcquireBlocking | src/rust-lock/lib.rs:380-469 | whatever others do meanwhile, success adds one guard and one place to the thread, failure leaves its own part as it was, and an inversion is reported exactly when a held place has a greater rank, or the same rank and a later key |
| LockManagement.LockManager.UnwindInReverse | src/rust-lock/lib.rs:786-790 | dropping the acquired guards last first restores the thread's list, guards and reservations |
| LockManagement.LockManager.AcquireManyBlocking | src/rust-lock/lib.rs:587-623 | success acquires the distinct requests in rising rank and, within a rank, rising key order, failure restores everything, and an inversion arises exactly at the first sorted request, before anything is acquired |
| LockWaiter.DeliveredExactlyOnce | src/rust-lock/lib.rs:870-1069 | in every interleaving of worker, wait, timeout, poll and drop the result is returned or dropped at most once, unaltered, and exactly once when both sides are gone |
| LockWaiter.SlotStaysEmptyAfterDrop | src/rust-lock/lib.rs:1048-1069 | after the receiver is dropped the result slot is empty for ever |
| LockWaiter.HookAtMostOnce | src/rust-lock/lib.rs:1048-1069 | the cancel hook runs at most once and never after completion |
| LockWaiter.NoLostWakeup | src/rust-lock/lib.rs:886-1046 | nobody sleeps past the notification, and a pending poll's waker is woken by the time the worker ends |
| LockWaiter.EndedWorkerServesReceiver | src/rust-lock/lib.rs:946-1046 | once the worker has finished or panicked, a running wait or a poll takes the result in one step, and the join hands it over, or drops it after a panic |
| LockWaiter.WaitEndsWithResult | src/rust-lock/lib.rs:939-957 | a wait without timeout ends only by taking the result |
| LockWaiter.TimedWaitGivesUp | src/rust-lock/lib.rs:959-986 | a timed wait gives up only when its time has run out and no result is there, and leaves all else as it was |
| LockWaiter.TimedWaitEnds | src/rust-lock/lib.rs:959-986 | when its time runs out it ends, unless a result is there, which its next check takes |
| LockWaiter.DroppedOnlyWhenGone | src/rust-lock/lib.rs:886-925 | as long as no waker panics, a result is dropped only because the receiver has gone |
| LockWaiter.PanicOnlyWhileWaking | src/rust-lock/lib.rs:886-925 | the worker can end in a panic only while it wakes a receiver |
| LockWaiter.HookRunsIff | src/rust-lock/lib.rs:1048-1069 | unless suppressed, the cancel hook runs exactly for the waiters dropped before completion |
| LockWaiter.SuppressedHookNeverRuns | src/rust-lock/lib.rs:935-937 | once suppressed, the hook never runs |
| WaiterLimiter.ActiveIsLivePermits | src/rust-lock/lib.rs:797-844 | in every interleaving, spurious exchange failures included, the counter is the number of live permits and within the limit |
| WaiterLimiter.RefusedOnlyWhenFull | src/rust-lock/lib.rs:805-829 | a caller is refused only after reading a full counter, and an undisturbed caller that read room gets a permit |
| WaiterLimiter.DroppedPermitReturns | src/rust-lock/lib.rs:840-844 | dropping a live permit takes exactly it away and makes room for one |
| WaiterLimiter.FailedSwapRetries | src/rust-lock/lib.rs:818-828 | a failed exchange, spurious or not, grants nothing and retries with the value found |
| WaiterLimiter.RefusalIsFinal | src/rust-lock/lib.rs:810-817 | a refused caller never holds a permit afterwards |
| Utf16.CompareUtf16 | src/rust/package_security.rs:402-416 | the loop over code units computes the comparison |
| Utf16.EncodeInjective | src/rust/package_security.rs:402-416 | different strings have different UTF-16 encodings |
| Utf16.EncodeDecodes | src/rust/package_security.rs:402-416 | the code units are well formed and decode to the code points, by section 2.2 of RFC 2781 |
| Utf16.BeforeIff | src/rust/package_security.rs:402-416 | a string comes before another exactly when its units do, the first difference deciding |
| Utf16.TotalOrder | src/rust/package_security.rs:402-416 | the comparison is a total order that is equal only on equal strings |
| Utf16.DiffersFromCodePoints | src/rust/package_security.rs:402-416 | it is not the order of code points |
| KeyOrder.ListUnique | src/rust/package_security.rs:460-461 | a set of keys has one ascending list in a strict total order |
| CanonicalJson.MemberOrder | src/rust/package_security.rs:460-461 | collecting and sorting the keys gives that order |
| JsonReader.QuotePrefixFree | src/rust/package_security.rs:441-446 | escaped literals are self-delimiting |
| JsonReader.TextPrefixFree | src/rust/package_security.rs:435-483 | a canonical text followed by anything determines its value and what follows |
| JsonReader.TextInjective | src/rust/package_security.rs:435-483 | two values have the same text exactly when they are equal, objects read as maps |
| JsonReader.TextReads | src/rust/package_security.rs:435-483 | a canonical text, whatever follows it, is valid JSON and reads back as its value, by sections 2 to 7 of RFC 8259 |
| JsonReader.MembersAscend | src/rust/package_security.rs:456-478 | reading an object's text meets its members in ascending order of their names' UTF-16 units, by section 3.2.3 of RFC 8785 |
| JsonReader.EscapeShortest | src/rust/package_security.rs:441-446 | each character is written in its shortest JSON spelling, hexadecimal digits in lower case, by section 3.2.2.2 of RFC 8785 |
| CanonicalJson.WriteCanonicalJson | src/rust/package_security.rs:435-483 | appends the canonical text, and fails exactly when a null, boolean or number occurs |
| DependencyClosure.KeyOrder | src/rust/package_security.rs:384-400 | identity keys are totally ordered and equal only when all eight parts are |
| DependencyClosure.IdentityStable | src/rust/package_security.rs:258-333 | a normalized identity normalizes to itself with the same key and holds only strings |
| DependencyClosure.SameIdentityNormalizes | src/rust/package_security.rs:370-382 | identities that differ in the letter case of digests normalize alike, errors included |
| DependencyClosure.SortSorts | src/rust/package_security.rs:235 | the sort is nondecreasing and a permutation |
| DependencyClosure.StrictUnique | src/rust/package_security.rs:235-242 | there is one strictly increasing order of a collection |
| DependencyClosure.NormalizeSound | src/rust/package_security.rs:174-256 | an accepted closure has lower-case digests, stable identities, and dependencies that increase strictly and exclude the root |
| DependencyClosure.AcceptedHasEvidence | src/rust/package_security.rs:421-433 | an accepted closure can always be serialized, so recomputation succeeds exactly when normalization does |
| DependencyClosure.EvidenceOrdered | src/rust/package_security.rs:131-145 | the returned dependencies are strictly increasing by their own keys and none has the root's key |
| DependencyClosure.EvidenceAscends | src/rust/package_security.rs:384-416 | at the first of the eight ordering members in which two returned dependencies differ, the earlier has the text that comes first; each differs from the root in one of them |
| DependencyClosure.RecomputedVerifies | src/rust/package_security.rs:131-172 | what recomputation returns passes verification and is returned unchanged |
| DependencyClosure.DigestBindsEvidence | src/rust/package_security.rs:421-433 | unless the hash collides on the two texts, digests agree exactly when the evidence does |
| DependencyClosure.OrderAndCaseDoNotMatter | src/rust/package_security.rs:174-256 | permuting dependencies and changing the letter case of digests leaves evidence and digest the same |
| DependencyClosure.OrderDoesNotMatter | src/rust/package_security.rs:227-242 | a closure is accepted in every order of its dependencies or in none |
| DependencyClosure.AcceptedKeysDiffer | src/rust/package_security.rs:236-242 | no two dependencies of an accepted closure have one key, wherever they stand |
| DependencyClosure.SourceUriNotInKey | src/rust/package_security.rs:106-116 | identities that differ only in their source URI have one key, so they count as duplicates |
| ClosureAdmission.NormalizeIdentityIff | src/rust/package_security.rs:258-333 | exactly the identities of the five ecosystems with exactly their members, texts not empty and digests of 64 hexadecimal digits, are accepted, and only their digests are lowered |
| ClosureAdmission.LowerKeepsDigits | src/rust/package_security.rs:370-382 | lowering a digest keeps its hexadecimal value digit by digit |
| ClosureAdmission.AcceptedIff | src/rust/package_security.rs:131-256 | exactly the closures with the seven members, an admitted root and at most 4096 admitted dependencies, distinct from one another and the root, are accepted |
| ClosureAdmission.EvidenceMembers | src/rust/package_security.rs:131-145 | the evidence is the closure with lower-case digests and its dependencies rearranged, under the digest of its own canonical text; nothing else changes |
| ClosureAdmission.VerifyIff | src/rust/package_security.rs:148-172 | verification returns what recomputation returns, unless the closure carries, letter case aside, another digest than the recomputed one |
| ClosureAdmission.RefusalsIff | src/rust/package_security.rs:213-248 | too many, repeated and root-repeating dependencies are each reported exactly under their condition |
| DependencyClosure.NormalizeIdentityInPlace | src/rust/package_security.rs:258-333 | checking and lowering the fields one by one gives the specified identity and key, or the first error |
| DependencyClosure.NormalizeDependencies | src/rust/package_security.rs:227-233 | the loop normalizes every dependency or stops at the first error |
| DependencyClosure.RejectRepeats | src/rust/package_security.rs:236-248 | the neighbour scan reports a repeat, and only then the root scan a repeated root |
| DependencyClosure.NormalizeSemantics | src/rust/package_security.rs:174-256 | editing the closure in place gives the specified value and supplied digest, or the first error |
| DependencyClosure.ComputeNormalizedDigest | src/rust/package_security.rs:421-433 | the digest is the hash of the canonical text without the closure digest |
| DependencyClosure.RecomputePackageDependencyClosure | src/rust/package_security.rs:131-145 | returns the specified evidence or error |
| DependencyClosure.VerifyPackageDependencyClosure | src/rust/package_security.rs:148-172 | returns the specified evidence, or reports the mismatch of the supplied digest |
| TextParts.PrintRoundTrip | src/ts/version.ts:91 | a printed number reads back as itself without leading zeros |
| TextParts.DecimalRoundTrip | src/ts/version.ts:62-70 | a numeral without leading zeros prints as itself |
| TextParts.SplitJoin | src/ts/version.ts:85 | splitting at a separator undoes joining |
| TextParts.JoinSplit | src/ts/version.ts:85 | joining undoes splitting, and no part holds the separator |
| Versions.TotalPreorder | src/ts/version.ts:26-52 | precedence is total, reflexive and transitive, and two-way order is equal precedence |
| Versions.PrecedenceIsItem11 | src/ts/version.ts:23-52 | precedence agrees with item 11 of Semantic Versioning 2.0.0, stated independently of the code |
| Versions.RangesAreConvex | src/ts/version.ts:173-187 | a range accepts everything between two versions it accepts |
| Versions.BoundsMeanWhatTheySay | src/ts/version.ts:252-328 | for stable candidates caret means at or above the bound and the same through the left-most non-zero part; tilde, bare wildcard and short `=` the same major and, if given, minor; the plain operators as numbers, with their treatment of prerelease bounds |
| Versions.BoundsTakePrereleases | src/ts/version.ts:173-187 | the exact prereleases each operator accepts: those above the bound up to and including those of the upper end, and for the plain operators by precedence |
| Versions.SaysExactlyWhen | src/ts/version.ts:361-366 | bounds and stated meaning agree on a version exactly when it is stable or no prerelease of an end of the range, for every operator and token |
| Versions.CaretTakesPrereleaseIff | src/ts/version.ts:266-276 | for a caret range: a prerelease is accepted exactly when its numbers are above the bound and not above the upper end |
| VersionParsing.StrictRoundTrip | src/ts/version.ts:54-71 | every spelling of the semantic-version grammar is read as its version |
| VersionParsing.StrictInverse | src/ts/version.ts:54-71 | nothing else is read as a strict version |
| VersionParsing.NumericSegmentsParse | src/ts/version.ts:148-163 | one to three numerals with any leading zeros stand for those numbers padded with zeros |
| VersionParsing.NumericPrereleaseParses | src/ts/version.ts:73-93 | with a prerelease behind them they stand for those numbers with that prerelease |
| VersionParsing.LeadingVIgnored | src/ts/version.ts:148-163 | one leading `v` on a spelling without one changes nothing |
| VersionParsing.BuildIgnored | src/ts/version.ts:95-100 | a `+` and anything after it on a strictly valid version changes nothing |
| VersionParsing.CalverFixpoint | src/ts/version.ts:73-93 | a normalized calendar version normalizes to itself |
| VersionParsing.CalverInverse | src/ts/version.ts:73-93 | a calendar spelling is perhaps a `v`, then one to three numerals and perhaps a prerelease, and nothing else |
| VersionParsing.Pep440Parses | src/ts/version.ts:117-163 | digits and dots, letters in any case, and perhaps a number are read exactly when at most three numbers precede the letters and the lookup finds them; the result is the padded release, with label and number (zero when missing) as prerelease if the label is one |
| VersionParsing.LabelAcceptedIff | src/ts/version.ts:102-143 | such a spelling is accepted exactly when its letters are in the label table or are `constructor` |
| VersionParsing.Pep440Inverse | src/ts/version.ts:120-143 | whatever is read by its label is, in lower case, perhaps a `v`, digits and dots, a known label or `constructor`, and perhaps a number |
| VersionParsing.AcceptedOutsideTableIff | src/ts/version.ts:102-143 | outside the table acceptance means `constructor`, read as the bare release |
| VersionParsing.ConstructorIsALabel | src/ts/version.ts:102-142 | one such input: `1.2constructor` is read as 1.2.0 |
| VersionParsing.ReadCalver | src/ts/version.ts:76-93 | the segment loop computes the calendar normalization |
| VersionParsing.ReadPep440 | src/ts/version.ts:120-143 | the segment loop computes the PEP 440 normalization |
| VersionRequirements.ReadPartial | src/ts/version.ts:219-250 | the segment loop, with its early exits, reads exactly the partial versions with at most three numbers and a wildcard only last |
| VersionRequirements.ReadBounds | src/ts/version.ts:330-349 | the token loop collects the bounds of all tokens, or nothing when a token is illegible or there is none |
| VersionRequirements.TokenRoundTrip | src/ts/version.ts:219-292 | an operator, up to three numbers, perhaps a final wildcard (`*`, `x` or `X`) and a prerelease are read back as exactly these |
| VersionRequirements.SpelledTokenMeans | src/ts/version.ts:284-328 | such a token accepts exactly the stable versions it describes and the prereleases it takes, from text to meaning |
| VersionRequirements.DecorationsIgnored | src/ts/version.ts:219-221 | one leading `v` and a build label change nothing in a token |
| VersionRequirements.PartialInverse | src/ts/version.ts:219-250 | whatever is read as a partial version is spelled as one, numerals without leading zeros and a wildcard only last |
| VersionRequirements.TokenInverse | src/ts/version.ts:284-292 | text without space is read as a token only if it is an operator and such a partial version |
| VersionRequirements.RangeIff | src/ts/version.ts:330-359 | text is a range exactly when it holds a token and each of its tokens reads; else it is an exact tag as it stands |
| VersionRequirements.SpaceAfterOperator | src/ts/version.ts:333-336 | space between an operator and its version changes no bounds |
| VersionRequirements.SpaceIsComma | src/ts/version.ts:339 | elsewhere space separates tokens as a comma does |
| VersionRequirements.SpaceIsUnicodeSpace | src/ts/version.ts:336 | what counts as space is Unicode's white space without the next-line character and with the byte-order mark |
| VersionRequirements.RequirementMeaning | src/ts/version.ts:330-366 | a range accepts exactly the stable versions of which each token holds, and the prereleases that each token takes |
| VersionRequirements.CommaConjoins | src/ts/version.ts:330-349 | two ranges joined by a comma accept exactly what both accept |
| VersionRequirements.RequirementsAreConvex | src/ts/version.ts:361-366 | every published version between two matches of a range matches |
| VersionRequirements.StarIsEmptyRange | src/ts/version.ts:295 | `*` is a range without bounds |
| VersionRequirements.LooksLikeMalformedDottedNumericRequirement | src/ts/resolve.ts:40-58 | the flag loop recognizes exactly a wildcard before the last segment, or more than three numbers, after a first number |
| VersionRequirements.MalformedIsNeverRange | src/ts/resolve.ts:36-58 | what it recognizes would always have been demoted to an exact tag |
| VersionResolution.ResolutionUnique | src/ts/version.ts:371-394 | a requirement has one answer over a list of versions |
| VersionResolution.AnswerMatches | src/ts/version.ts:361-394 | the answer is a listed version that matches, and an exact tag is answered exactly when a listed version matches it |
| VersionResolution.ResolveRequirement | src/ts/version.ts:371-394 | a range yields a listed spelling that is stable, matching, maximal and last among equals, and nothing exactly when none qualifies; an exact tag yields itself if listed |
| VersionResolution.ResolveVersion | src/ts/resolve.ts:66-107 | the errors come in the source's order, each exactly under its condition |
| VersionResolution.ResolvedIsPublished | src/ts/resolve.ts:60-107 | a resolved version was published in that spelling, and under the opaque scheme it is the requirement verbatim |
| VersionResolution.RangeResolvesIff | src/ts/resolve.ts:66-107 | a range resolves exactly when some published stable version satisfies all its tokens |
| VersionResolution.ExactResolvesIff | src/ts/resolve.ts:66-107 | text that is no range resolves to itself, exactly when published and not, where versions are ordered, marked as a range or a malformed dotted number |
| VersionResolution.RangeRefusedIff | src/ts/resolve.ts:76-82 | a range is refused exactly by a package whose versions are opaque |
| VersionResolution.LatestStable | src/ts/resolve.ts:114-132 | the highest stable version, last among equals; for opaque packages the recorded one if still published |
| VersionResolution.LatestIsStar | src/ts/resolve.ts:109-132 | unless versions are opaque, it is what resolving `*` returns, and absent when that fails |
| PublicationLedger.AdoptedKeepsInvariant | src/rust-orm/publication.rs:66-294 | a publication keeps unique coordinates, one agreeing verified upload per version and unbroken audit chains |
| PublicationLedger.RepairsKeepInvariant | src/rust-orm/publication_repair.rs:221-298 | so does a repair |
| PublicationLedger.RunKeepsInvariant | src/rust-orm/publication.rs:66-294 | from empty tables all of this, and every constraint of the tables, holds in every state of every run of publications and repairs |
| PublicationLedger.StepKeepsRows | src/rust-orm/publication.rs:183-222 | a publication never changes a stored version row, and a repair changes only the digest, size and key of its target |
| PublicationLedger.RunOnlyAppends | src/rust-orm/publication_repair.rs:259-298 | along a run no version disappears and its audit facts only grow, so the first published digest stays on record |
| PublicationLedger.ReplayChangesNothing | src/rust-orm/publication.rs:190-199 | an accepted publication can be repeated: the retry is accepted, names the same rows, inserts nothing and changes no table |
| PublicationLedger.ConflictRefuses | src/rust-orm/publication.rs:296-305 | no publication is adopted over a version with other artifact facts |
| PublicationLedger.ConflictIff | src/rust-orm/publication.rs:296-305 | a publication conflicts with a stored version exactly when the row is not the one it would write |
| PublicationLedger.AdoptedIsPublished | src/rust-orm/publication.rs:183-294 | after every accepted publication, replays included, the receipt names rows that say column by column what was published |
| PublicationLedger.FirstPublicationAdds | src/rust-orm/publication.rs:90-110 | a first publication adds one version, one upload and one fact, and a new organization takes the given name unless it is blank |
| PublicationLedger.PublicationFrame | src/rust-orm/publication.rs:83-280 | a publication leaves every other row as it was and changes at most the profile of its own package |
| PublicationLedger.PublishValidIff | src/rust-orm/publication.rs:307-336 | exactly the publications are valid whose rows pass the tables' constraints and whose texts fit and are not blank, the form of slug and package name aside |
| PublicationLedger.NewRowsPassIff | generated/ddl-roundtrip/drizzle/schema.sql:164-178 | of a valid publication the tables refuse exactly a new slug or package name without the form its column asks for |
| PublicationLedger.RepairedArtifactStaysOut | src/rust-orm/publication_repair.rs:300-310 | along any run without another repair of the version, the replaced artifact can neither be published nor the same repair applied again |
| PublicationLedger.OppositeRepairRestores | src/rust-orm/publication_repair.rs:221-257 | the opposite repair is accepted right after a repair and restores versions and uploads |
| PublicationLedger.RepairWrites | src/rust-orm/publication_repair.rs:221-257 | a repair gives the version row and its verified uploads the replacement digest, size and canonical key, and records the step |
| PublicationLedger.RepairFrame | src/rust-orm/publication_repair.rs:221-257 | it touches nothing else, and its receipt names both digests |
| PublicationLedger.PublishedRepairableIff | src/rust-orm/publication_repair.rs:300-310 | what was just published can be repaired exactly by naming its digest, size, key, format and provenance |
| PublicationLedger.RepairValidIff | src/rust-orm/publication_repair.rs:312-352 | a repair is valid exactly when it leads from one digest to another under their canonical keys, with positive sizes, and names its requester and reason in clean lines |
| PublicationLedger.Ledger.AdoptMachinePublish | src/rust-orm/publication.rs:66-294 | the transaction does what adoption specifies, fails exactly on invalid input, conflicting facts or a new slug or name that the tables refuse, and then changes nothing |
| PublicationLedger.Ledger.RepairHistoricalMachinePublishDigest | src/rust-orm/publication_repair.rs:89-257 | succeeds exactly when a version with the expected old identity, in its row and uploads, stands at the coordinate; otherwise changes nothing, reporting it as not found exactly when no version stands there |
| TableChecks.DigestValidatorsIff | generated/ddl-roundtrip/drizzle/schema.sql:275 | the digest validators accept exactly what the patterns of the digest columns match |
| Utf8.BytesRoundTrip | src/rust-orm/publication.rs:338-356 | the bytes that the text limits count decode to the text, by section 3 of RFC 3629 |
| Utf8.ByteLengthIsUtf8 | src/rust-orm/publication.rs:338-356 | what the limits count is the length in UTF-8 |
| CountReport.CodesInOrder | tools/fp-conformance/src/report.rs:231-233 | sorting and deduplicating the codes gives the order in which the ordered map visits them |
| CountReport.CollectChanges | tools/fp-conformance/src/report.rs:227-265 | the filter over the sorted, deduplicated codes computes the list of changes |
| CountReport.RegressionIff | tools/fp-conformance/src/report.rs:227-245 | a regression is reported exactly for the codes whose count grew, with both counts, missing codes counting zero |
| CountReport.RegressionsAscend | tools/fp-conformance/src/report.rs:231-233 | each code is reported at most once, in character order |
| CountReport.NoRegressionIff | tools/fp-conformance/src/report.rs:227-245 | there is no regression exactly when head is pointwise at most base, missing codes counting zero |
| CountReport.ImprovementsMirror | tools/fp-conformance/src/report.rs:247-265 | improvements are the regressions of the opposite comparison with the counts exchanged |
| CountReport.WriteCountObject | tools/fp-conformance/src/report.rs:138-159 | writing line by line appends the entries joined by commas between the braces |
| CountReport.EscapeIsJson | tools/fp-conformance/src/report.rs:150-156 | every escaped code is a JSON string literal for that code, even where the budget's own reader cannot read it |
| CountReport.WriteBudget | tools/fp-conformance/src/report.rs:120-136 | appends the budget text |
| CountReport.EndIsFirst | tools/fp-conformance/src/report.rs:192-225 | the end found is the first closing brace outside strings at which the nesting returns to zero, and none is missed |
| CountReport.FindMatchingBrace | tools/fp-conformance/src/report.rs:192-225 | the flag loop finds that end |
| CountReport.BudgetRoundTripIff | tools/fp-conformance/src/report.rs:120-190 | a budget reads back as its counts exactly when each code is written as it is and holds neither comma nor colon |
| BudgetReading.BudgetReads | tools/fp-conformance/src/report.rs:120-159 | every budget, whatever its codes, is a JSON document that a standard reader takes for its counts, statistics and version |
| CountReport.AlphanumericRoundTrip | tools/fp-conformance/src/report.rs:120-190 | in particular for all alphanumeric codes |
| CountReport.CommaDoesNotRoundTrip | tools/fp-conformance/src/report.rs:176-187 | one map that does not: a single code with a comma |

## Left out

- GraphStore.ValidateInput: whether a document is canonical, within the size limit and carries its own digest is decided in the shared interface crate, which is not part of this model; it is a parameter, as are the default node and edge limits.
- DependencyClosure.ComputeNormalizedDigest: SHA-256 is an arbitrary function; where its shape matters, it prints as 64 lower-case hexadecimal digits.
- PublicationLedger.Ledger.AdoptMachinePublish: user and token ids, timestamps, counters and yank columns are left out, and generated ids are parameters that must be unused.
- Versions.PrecedenceIsItem11: identifiers are ASCII there, as item 9 requires of them; requirement prereleases may hold other characters, which the model compares by UTF-16 code units as the code does.
- LockOrder.DisciplineExcludesDeadlock: a guard passed to a thread that sleeps in the kernel is not a delivery of this model, since a receiver takes its guard by a call of its own.
- LockWaiter.EndedWorkerServesReceiver: nothing is claimed about how long a kernel wait lasts or whether threads are scheduled fairly.
- SQL, isolation levels, advisory locks, foreign keys and triggers: of the schema only unique keys, column widths and CHECK constraints are modelled; a transaction is one atomic step over maps, and row lookups find a matching row if there is one.
- Error messages and error locations, owner diagnostics, event sinks and thread names: each adds a reading-level argument only.
- Kernel file locks, path opening and canonicalization: one owner per identity and a stable name; Windows access control is not part of this model.
- Reading graph rows back by ordinal: the store keeps them in insertion order, which the invariant proves to be ordinal order.
- JavaScript numbers above 2^53: segments are natural numbers.
- The Rust requirement parser behind `src/rust/resolve.rs`: its crate is not part of this model; the TypeScript slice states the same contract.
- `register_package_upload` and soft deletion: they are not steps of the ledger's runs.
- Namespace plans, migrations, generated schemas, the conformance scanner's rules and the human-readable report: easy members only.
