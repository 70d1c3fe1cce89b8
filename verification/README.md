# A verified model of the build graph, the sandbox network and two bounded traversals

The project models, in Dafny, four parts of the CI backend and proves what they keep over
every run or on every input.

* **The build graph and its lock-free mirror** (`backend/graph`). `Graphs.dfy` gives every graph
  operation as a function on values, `BuildGraphs.dfy` is the mutable graph, a class whose methods
  are proved against those functions and whose breadth-first searches are proved against
  reachability (`Reachability.dfy`). `Services.dfy` and `GraphServices.dfy` do the same for the
  service that keeps the shared view, the reference counts and the access times in step with the
  graph while its LRU cache evicts nodes and reloads them from the database. `Mirror.dfy` and
  `Startup.dfy` hold the invariant of every run. `GraphOps.dfy` and `Traces.dfy` reduce every run of the
  service to a run of graph operations; on top of that `FailureTracking.dfy`, `Recovery.dfy` and
  `BelowCapacity.dfy` hold the failure tracking, `FailureRecords.dfy` the record of permanent failures,
  `IndexSoundness.dfy` the state index, `AccessTimes.dfy` the access times, `Handles.dfy` the lock-free
  reads, `Effects.dfy` what each command does to a drv field by field, `Evictions.dfy` the candidate selection. `InsertWindows.dfy`, `Reinsertions.dfy`,
  `ReferenceCounts.dfy`, `StoredDependents.dfy`, `ReloadedFailures.dfy` and `Limits.dfy` hold the exact
  conditions under which the code falls short of its comments, and `CacheExamples.dfy` and
  `FailureExamples.dfy` runs from an empty database that do.
* **The sandbox network** (`backend/sandbox/src/net`). Canonical prefixes (`Cidrs.dfy`), the route
  plan and longest-prefix match (`RouteTables.dfy`, `RoutePlans.dfy`, `NetDefaults.dfy`), the command
  line between the helper processes (`CidrText.dfy`, `SetupArgs.dfy`), the rtnetlink messages
  (`ByteOrders.dfy`, `Netlinks.dfy`) and the two-process handshake that gates the sandbox
  (`Handshakes.dfy`), up to one theorem from the policy to the running sandbox.
* **The evaluator's output stream** (`backend/evaluator`, `EvalStreams.dfy`): a capped streaming loop
  that refines splitting the output into lines and parsing each; `EvalOutputs.dfy` says what the parser
  is given for an output printed line by line.
* **The store's transitive references** (`backend/nix_store`, `Requisites.dfy`): a search that removes
  duplicates when it takes a path from the queue.

Modelling conventions. A drv is known by its path. The database is a map of drvs and a list of
distinct (referrer, reference) rows between stored drvs, as the unique and foreign keys of
`backend/server/sql/migrations/20250426_drv.sql` guarantee; its calls succeed. Every read of the LRU
cache is a peek, so recency is insertion order, and a push of a cached key hands back the old entry of
that key. Hash sets and hash maps are visited in an arbitrary order. Clocks are parameters.

Two assumptions appear by name. *New drvs* (`Mirror.NewDrvs`, `Mirror.FreshRun`): an insert command
brings distinct drvs that are not stored yet and references between stored or new drvs, and these
enter the database in the same step. *Below capacity* (`GraphOps.Allowed`,
`BelowCapacity.RoomyRun`, `Recovery.FitsCache`): nothing is evicted and both ends of an edge are
cached. Lemmas about a single state between commands ask for `Mirror.Invariant`, which every run of
new drvs has, and so does every run that brings back the references it cuts
(`Reinsertions.EveryResendingRunKeeps`). What needs more says so in its row.

Where the code and its own comments or documentation disagree, the model follows the code, gives an
input (a run from an empty database, for the graph) and proves exactly when the comment is right:

* Pinned nodes are said never to be evicted (`backend/graph/src/graph.rs:62-63`,
  `backend/graph/src/service/handle.rs:32-36`), but an insertion evicts the oldest entry whatever its
  state (`backend/graph/src/graph.rs:116`): `Limits.EvictsUnfinishedIff`, `CacheExamples.UnfinishedIsEvicted`.
* Inserting a known drv again drops its reference count and its edges
  (`backend/graph/src/service/operations.rs:152-173`). The invariant survives exactly if the command brings
  the references again: `Reinsertions.InsertKeepsIff`, `Reinsertions.EveryResendingRunKeeps`, `Reinsertions.ReinsertKeepsIff`,
  `Reinsertions.ReinsertCoversIff`, `CacheExamples.ReinsertLosesCount`. A later reload of one of its
  dependencies then changes the graph but not the view: `Mirror.ReloadMirrorsIff`,
  `CacheExamples.ReloadBreaksMirror`. Nothing but a reload does: `Reinsertions.OnlyQueriesSpoilMirror`.
* A reference count is described as the number of cached nodes that depend on a drv
  (`backend/graph/src/service/mod.rs:34`); it is an upper bound. A new edge and a reload can make it exceed:
  `ReferenceCounts.InsertRefExactIff`, `ReferenceCounts.ReloadExactIff`,
  `CacheExamples.EvictedReferrerIsCounted`, `CacheExamples.ReloadOvercounts`. The clean-up of an evicted
  node keeps the excess of every other drv: `ReferenceCounts.AdmitKeepsExcess`; a reload keeps that of
  every other drv, up to rows stored twice: `ReferenceCounts.ReloadKeepsExcess`.
* A new drv is visible in the shared view before its edges are
  (`backend/graph/src/service/operations.rs:178-198`), so it looks buildable until the first edge that holds
  it back: `InsertWindows.InsertWindow`, `InsertWindows.WindowMisleadsIff`, `CacheExamples.PairIsExposedEarly`.
* A failure is propagated "to all its transitive dependents" (`backend/graph/src/graph.rs:326`), but only
  along cached drvs, so an evicted drv in between hides the rest: `StoredDependents.ReachedIff`,
  `StoredDependents.EveryRunPropagatesIff`, `FailureExamples.EvictionHidesDependent`, against
  `StoredDependents.EveryRoomyRunPropagatesIff` below capacity.
* A clear is to unblock what its failure blocks (`backend/graph/src/graph.rs:360-361`). It does exactly if
  the map entry names everyone: `FailureTracking.ClearReleasesIff`,
  `FailureTracking.PropagateThenClearReleasesIff`. Old failures are forgotten together with their entry,
  but the blockers that name them are not (`backend/graph/src/graph.rs:456-471`):
  `FailureTracking.ForgottenFailureKeepsBlocking`, `FailureTracking.ForgottenUntilPropagated`,
  `FailureExamples.ForgettingStrands`. And a second propagation, after an eviction, replaces the entry by a
  smaller one (`backend/graph/src/graph.rs:354-355`): `FailureExamples.OverwrittenEntryStrands`.
* A drv is queued "if no other failures block it" (`backend/graph/src/graph.rs:377-378`), but a reload and a
  re-insertion forget the recorded blockers: `ReloadedFailures.ClearReleasesEarlyIff` for every graph,
  `ReloadedFailures.ReloadReleasesEarlyIff`, `ReloadedFailures.InsertReleasesEarlyIff` and
  `ReloadedFailures.PropagatedReleasesEarlyIff` for what leads there,
  `ReloadedFailures.ReloadReportsOnceIff`, `FailureExamples.ReloadReleasesEarly`,
  `FailureExamples.ReinsertReleasesEarly`.
* Clearing a failure queues the released drvs in the graph and the view but leaves them stored as
  TransitiveFailure (`backend/server/src/db/model/drv/queries.rs:401-419`), which is what a reload or a
  restart then sees: `Limits.ClearIsStoredIff`, `FailureExamples.ClearIsNotStored`. Nor does it restore the states
  from before the failure: `Limits.ClearUndoesPropagateIff`, `FailureExamples.ClearForgetsState`.
* An update that reaches a drv while it is evicted changes the stored state but not the record of
  failures (`backend/graph/src/graph.rs:157-159`), so a drv may be on record as failed after it has
  succeeded: `FailureRecords.ReloadIsStaleIff`, `FailureExamples.RecordGoesStale`, against
  `BelowCapacity.EveryRoomyRunIsCurrent` below capacity.
* The stream caps are documented as upper bounds (`backend/evaluator/src/service/jobs.rs:79-82`); the
  byte cap is overshot by the line that trips it and an entry cap of zero by one entry:
  `EvalStreams.OvershootIff`, `EvalStreams.OneByteOvershoots`, `EvalStreams.OneEntryOvershoots`.

## Model

| member | source | states |
|---|---|---|
| Startup.EveryRunKeepsTheInvariant | backend/graph/src/service/mod.rs:112-151 | from startup, over every run of commands that inserts new drvs only, with evictions, reloads and pruning: the view is exactly the projection of the cached nodes, cached adjacency equals the stored references and is symmetric on cached nodes, and counts cover the cached referrers |
| Mirror.RunKeeps | backend/graph/src/service/operations.rs:18-247 | the same invariant is kept by every run from every state that has it |
| Mirror.StepKeeps | backend/graph/src/service/mod.rs:176-492 | each command keeps the invariant, an insert under the new-drv assumption |
| Mirror.InsertDrvKeeps | backend/graph/src/service/operations.rs:148-183 | inserting a new drv, with or without an eviction, keeps view, adjacency and counts in step |
| Mirror.InsertRefKeeps | backend/graph/src/service/operations.rs:186-198 | linking stored drvs, cached or not, keeps view, adjacency and counts in step |
| Mirror.EnsureLoadedKeeps | backend/graph/src/service/operations.rs:18-112 | a reload, with the eviction it may cause, keeps the invariant |
| Mirror.ReloadMirrorsIff | backend/graph/src/service/operations.rs:84-103 | a reload keeps the view an exact mirror if and only if every cached referrer of the drv, but the one the reload evicts, already lists it |
| Mirror.DropAllCounts | backend/graph/src/service/operations.rs:68-75 | cleaning up after an evicted node takes at most one from the count of each of its dependencies and nothing from the others |
| Mirror.BumpAllCounts | backend/graph/src/service/operations.rs:85-97 | relinking adds to each count exactly the number of rows that lead to the drv |
| Startup.StartEstablishes | backend/graph/src/service/mod.rs:46-101 | startup establishes the invariant of every run, even when the stored drvs do not fit the cache |
| GraphServices.New | backend/graph/src/service/mod.rs:46-101 | the object after startup is the recovered graph with its projection, counts and access times, and has the invariant |
| GraphServices.Summarise | backend/graph/src/service/mod.rs:59-76 | the node-by-node loop yields the projection, the number of cached referrers of every listed drv, and the start time for every cached drv |
| GraphServices.GraphService.EnsureLoaded | backend/graph/src/service/operations.rs:18-112 | the mutable reload is the reload function, and answers: cached already, reloaded, or not in the database |
| GraphServices.GraphService.InsertDrvs | backend/graph/src/service/operations.rs:136-201 | the mutable insertion of drvs and then references is the insertion function |
| GraphServices.GraphService.DropReferences | backend/graph/src/service/operations.rs:65-75 | the clean-up loop decrements, saturating, and removes entries that reach zero for uncached drvs |
| GraphServices.GraphService.UpdateState | backend/graph/src/service/operations.rs:115-133 | the graph, the view and the stored row get the new state, each only where the drv is present |
| GraphServices.GraphService.PropagateFailure | backend/graph/src/service/operations.rs:204-225 | the answer is exactly the strict transitive dependents, and graph, view and stored states mark exactly those |
| GraphServices.GraphService.ClearFailure | backend/graph/src/service/operations.rs:228-247 | the answer is exactly the drvs without another blocker, and graph and view queue exactly those |
| GraphServices.GraphService.Prune | backend/graph/src/service/mod.rs:155-173 | tracking entries stay exactly for cached drvs, and failures before the cutoff are forgotten |
| GraphServices.GraphService.HandleCommand | backend/graph/src/service/mod.rs:176-492 | each command is one step of the value-level service |
| GraphServices.GraphService.RunCommands | backend/graph/src/service/mod.rs:112-151 | a whole run on the mutable object is the value-level run and ends with the invariant |
| Effects.UpdateNodes | backend/graph/src/graph.rs:156-165 | an update gives the cached node the new state and changes no other field and no other node; an uncached drv changes nothing in the graph |
| Effects.UpdateRecord | backend/graph/src/graph.rs:173-182 | the drv is on record with the time after a failure, off the record after a success, and as before otherwise; no other record changes |
| Effects.UpdateBuckets | backend/graph/src/graph.rs:163-171 | with exact buckets, the drv is in the bucket of its new state and in no other |
| Effects.UpdateMovesBucket | backend/graph/src/graph.rs:163-171 | from every state, an update moves a cached drv from the bucket of its state to that of the new one and changes no other entry |
| Effects.UpdateTables | backend/graph/src/service/operations.rs:122-130 | the view entry and the stored row have the new state, each where it is present, and nothing else changes |
| Effects.UpdateUncached | backend/graph/src/graph.rs:157-159 | an update of a drv that is not cached reaches its stored row only |
| Effects.SuccessMakesBuildable | backend/graph/src/service/operations.rs:115-133 | when an update makes a cached drv succeed, a cached referrer is buildable in the view afterwards if and only if all its other stored references are shown to have succeeded |
| Effects.UnfinishedIsNotBuildable | backend/graph/src/service/handle.rs:37-48 | as long as one stored reference is not shown to have succeeded, a cached drv is not buildable |
| Effects.ViewShows | backend/graph/src/service/cached_node.rs:20-29 | between commands the view has exactly the cached drvs, each with the identifier, the descriptive fields, the state and the dependencies of its node |
| Effects.InsertNodes | backend/graph/src/graph.rs:92-117 | the inserted node has the drv's identifier, fields and state, no edges and no blockers; every other node that stays is unchanged |
| Effects.InsertRecord | backend/graph/src/graph.rs:105-108 | a drv inserted as failed is recorded with the time, and no other record changes |
| Effects.InsertBuckets | backend/graph/src/graph.rs:99-103 | an insertion adds the drv to the bucket of its state and takes nothing out, so that the entry of an evicted drv stays |
| Effects.LinkAppends | backend/graph/src/graph.rs:121-135 | a new edge goes to the end of the lists of its cached ends, a listed one changes nothing |
| Effects.InsertShows | backend/graph/src/service/operations.rs:148-183 | graph, view, access time and row after one inserted drv; a row that exists stays |
| Effects.QueryShowsRow | backend/graph/src/service/operations.rs:48-103 | a query of a stored, uncached drv: node and view entry have the state and fields of the row and no blockers, and a stored failure is recorded with the time |
| Effects.QueryOfCached | backend/graph/src/service/operations.rs:27-51 | a query of a cached drv, or of one that is not stored, changes nothing |
| Effects.QueriesConcat | backend/graph/src/service/mod.rs:405-428 | a query about several drvs loads them one after the other |
| Effects.UpdateIsShownLater | backend/graph/src/service/operations.rs:122-130 | after an update and any run of other commands that spare the row, a query of the then uncached drv shows the state of the update |
| Effects.PropagateShows | backend/graph/src/service/operations.rs:210-222 | a propagation marks exactly the transitive dependents as TransitiveFailure: node with the blocker added, view entry and row; every other one stays |
| Effects.PropagateRecords | backend/graph/src/graph.rs:353-355 | its map entry names exactly the transitive dependents, and no other entry changes |
| Effects.PropagateMovesBuckets | backend/graph/src/graph.rs:333-351 | every dependent, cached or not, enters the bucket of TransitiveFailure, and the cached ones leave theirs |
| Effects.ClearShows | backend/graph/src/graph.rs:362-396 | a clear removes the entry, takes the failure from those it names and queues, in graph and view, exactly those without another blocker |
| Effects.ClearMovesBuckets | backend/graph/src/graph.rs:377-391 | exactly the queued drvs move to the bucket of Queued |
| Effects.PruneForgets | backend/graph/src/graph.rs:456-471 | a prune forgets exactly the failures recorded before the cutoff, with their entries; every other record and entry survives |
| Effects.PruneTables | backend/graph/src/service/mod.rs:155-173 | it keeps the counts and access times of exactly the cached drvs |
| Effects.RowsAreRead | backend/graph/src/service/operations.rs:53-55 | a reload reads exactly the rows of the drv, each as often as it is stored |
| Effects.ReferenceIsStoredOnce | backend/server/sql/migrations/20250426_drv.sql:4-33 | a reference that is stored already is not stored again |
| Effects.RunKeepsRowsDistinct | backend/server/sql/migrations/20250426_drv.sql:4-33 | over every run no reference is stored twice |
| Handles.HandleAgreesWithGraph | backend/graph/src/service/handle.rs:37-48 | between commands the lock-free `is_buildable` equals the graph's, for every drv |
| Handles.BuildableByStoredRefs | backend/graph/src/service/handle.rs:37-48 | a cached drv is buildable exactly when every stored reference of it is in the view and has succeeded |
| Handles.BuildableIffNothingBlocks | backend/graph/src/service/handle.rs:81-96 | a drv is buildable exactly when it is in the view and `blocking_deps` is empty |
| Handles.BlockingIsWhatHolds | backend/graph/src/service/handle.rs:85-95 | the reported pairs are exactly the dependencies that have not succeeded, each with the state in the view or none |
| Handles.BlockingDepsAre | backend/graph/src/service/handle.rs:81-96 | `blocking_deps` answers nothing for an unknown drv, and otherwise, in the order of the dependencies, each that has not succeeded, with its state or none |
| Handles.BlockingDepsContain | backend/graph/src/service/handle.rs:81-96 | as a set, exactly the dependencies that have not succeeded |
| Handles.GetDependentsFromView | backend/graph/src/service/handle.rs:102-110 | the scan returns, without duplicates, exactly the entries that list the drv |
| Handles.ScanFindsCachedDependents | backend/graph/src/graph.rs:201-206 | for a cached drv the scan of the view finds exactly the cached members of the graph's dependent list |
| Handles.ScanIsSqueezed | backend/graph/src/service/handle.rs:37-48 | a scan that reads one dependency at a time while states are only downgraded answers true only if the drv was buildable before and always if it still is afterwards |
| Handles.ScanDuringPropagate | backend/graph/src/service/operations.rs:210-217 | the squeeze for a scan that overlaps PropagateFailure, whatever the order of its writes; the last view is the command's result |
| Handles.ScanDuringClear | backend/graph/src/service/operations.rs:234-241 | the squeeze for a scan that overlaps ClearFailure, whatever the order of its writes; the last view is the command's result |
| BuildGraphs.BuildGraph.InsertNode | backend/graph/src/graph.rs:92-117 | the mutable insertion is the insertion function, with the displaced entry as the answer |
| BuildGraphs.BuildGraph.AddEdge | backend/graph/src/graph.rs:121-135 | each end is recorded once and only if that end is cached |
| Graphs.AddEdgesEffect | backend/graph/src/graph.rs:121-135 | a batch of edges extends the lists of cached ends by exactly those edges, keeps lists free of duplicates and changes nothing else |
| BuildGraphs.BuildGraph.UpdateState | backend/graph/src/graph.rs:156-190 | node, both index buckets and the record of failures change as the state function says; an uncached drv changes nothing |
| BuildGraphs.BuildGraph.IsBuildable | backend/graph/src/graph.rs:216-227 | true exactly if the drv is cached and every dependency is cached and has succeeded |
| BuildGraphs.BuildGraph.Explore | backend/graph/src/graph.rs:271-296 | the queue loop terminates on every graph, cyclic or not, and ends with a set that contains the start, is closed under edges and lies within every such set it is compared with |
| BuildGraphs.BuildGraph.GetAllTransitiveDependents | backend/graph/src/graph.rs:230-252 | exactly the strict transitive dependents, by paths |
| BuildGraphs.BuildGraph.ReverseReachableFromSet | backend/graph/src/graph.rs:271-296 | exactly the cached seeds and what depends on one of them, by paths |
| BuildGraphs.ReverseReachableIff | backend/graph/src/graph.rs:271-296 | a drv is in the answer if and only if some cached seed reaches it by a path of dependents |
| BuildGraphs.BuildGraph.BlastRadiusPerSeed | backend/graph/src/graph.rs:310-324 | every seed gets the number of its strict transitive dependents, an uncached one zero |
| BuildGraphs.BlastRadiusUpperBound | backend/graph/src/graph.rs:271-324 | the union of the impacts is at most the sum of radius + 1 over the cached seeds |
| BuildGraphs.BlastRadiusLowerBound | backend/graph/src/graph.rs:271-324 | the union of the impacts is at least radius + 1 of each cached seed |
| BuildGraphs.BuildGraph.PropagateFailure | backend/graph/src/graph.rs:328-358 | the answer is exactly the strict transitive dependents; one drv at a time adds up to the propagation function |
| BuildGraphs.BuildGraph.ClearFailure | backend/graph/src/graph.rs:362-396 | one drv at a time, in any order, adds up to the clearing function, with exactly the freed drvs as the answer |
| BuildGraphs.BuildGraph.EvictStaleFailures | backend/graph/src/graph.rs:456-471 | exactly the failures recorded before the cutoff are forgotten, and counted |
| FailureTracking.RunKeepsTracking | backend/graph/src/graph.rs:328-396 | below capacity, over every run that may also forget failures: a map entry names exactly those it blocks, blockers are drvs one depends on, the state buckets are exact and disjoint |
| FailureTracking.RunKeepsInverse | backend/graph/src/graph.rs:121-135 | below capacity and without forgetting, the failure map and the blocker sets stay inverse relations over every run |
| FailureTracking.RunKeepsBlockedFailed | backend/graph/src/graph.rs:369-393 | a blocked drv stays TransitiveFailure over every run of operations that sets no blocked drv's state directly |
| FailureTracking.ClearCommutes | backend/graph/src/graph.rs:362-396 | from every graph, clearing two failures in either order gives the same graph |
| FailureTracking.UnblockedIsLastBlocker | backend/graph/src/graph.rs:374-392 | with inverse relations, a clear reports a drv exactly when the cleared failure was its last blocker |
| FailureTracking.ReportedExactlyOnce | backend/graph/src/graph.rs:362-396 | over every sequence of clears a drv is reported once if all its blockers are cleared and never otherwise, and its state changes with that report only |
| FailureTracking.ClearReleasesIff | backend/graph/src/graph.rs:362-396 | from every graph, a clear frees everyone the failure blocks if and only if its map entry names each of them |
| FailureTracking.PropagateThenClearReleasesIff | backend/graph/src/graph.rs:328-396 | from every graph, a propagation and the clear after it free everyone the failure blocks if and only if all it blocked before are still reached |
| FailureTracking.TrackedClearReleasesIff | backend/graph/src/graph.rs:362-365 | with exact tracking, as below capacity, a clear frees everyone if and only if the map entry survived or the failure blocks nobody |
| FailureTracking.ForgottenFailureKeepsBlocking | backend/graph/src/graph.rs:456-471 | once a failure is forgotten, clearing it changes nothing and whoever it blocks stays blocked |
| FailureTracking.ForgottenUntilPropagated | backend/graph/src/graph.rs:354-365 | below capacity it keeps blocking over every run, clears included, that does not propagate it again |
| FailureTracking.PropagatingAgainReleases | backend/graph/src/graph.rs:328-396 | a later propagation that reaches the drv, and the clear after it, release it |
| StoredDependents.ReachedIff | backend/graph/src/graph.rs:230-252 | under the invariant, a cached drv is among the transitive dependents if and only if stored references make it depend on the failure by way of cached drvs only |
| StoredDependents.EveryRunPropagatesIff | backend/graph/src/graph.rs:326-329 | the same after every run of new drvs from startup |
| StoredDependents.EveryRoomyRunPropagatesIff | backend/graph/src/graph.rs:326-329 | after every run below capacity from startup, the transitive dependents are exactly the stored drvs that depend on the failure through stored references |
| StoredDependents.EveryRoomyRunJustifies | backend/graph/src/graph.rs:342-351 | after every such run, every recorded blocker is a drv that the blocked one depends on through stored references |
| BelowCapacity.EveryRoomyRunTracks | backend/graph/src/service/mod.rs:112-151 | from startup, over every run of commands below capacity, the tracking is exact, and inverse as long as nothing is pruned |
| BelowCapacity.StepIsAllowed | backend/graph/src/service/mod.rs:176-492 | below capacity each command is a run of operations that neither evict nor link uncached drvs, and everything stored stays cached |
| BelowCapacity.EveryRoomyRunIsCurrent | backend/graph/src/graph.rs:174-182 | from startup, over every run of commands below capacity, a drv on record as failed is cached and has not succeeded since |
| BelowCapacity.EveryRunKeepsBlockedFailed | backend/graph/src/graph.rs:331-393 | from startup, over every run with evictions and reloads whose updates spare blocked drvs, a drv with a recorded blocker is TransitiveFailure |
| Traces.WholeRunIsOps | backend/graph/src/service/mod.rs:112-151 | the graph after startup and any run of commands is the graph after a sequence of insertions, links, state changes, propagations, clears and forgettings from the empty graph |
| Traces.EveryRunKeeps | backend/graph/src/service/mod.rs:176-492 | whatever the empty graph has and each such operation keeps, holds after every run |
| Recovery.RecoveryIsConfluent | backend/graph/src/graph.rs:475-516 | in whatever order the failures are visited, a drv ends up blocked by exactly the stored-failed drvs other than itself it depends on through stored references; its state is TransitiveFailure if there is one, else Queued if it was stored as building or buildable, else as stored; its identifier and fields are those of its row |
| Recovery.RecoveryEstablishesTracking | backend/graph/src/graph.rs:509-513 | the recovered graph has exact tracking and inverse relations |
| Recovery.FromDatabase | backend/graph/src/graph.rs:475-516 | the mutable recovery loads, links and propagates every recorded failure once, in some order |
| IndexSoundness.EveryRunIsIndexed | backend/graph/src/graph.rs:92-117 | from startup, over every run whatever it inserts, each cached drv is in the bucket of its current state |
| IndexSoundness.ApplyIndexed | backend/graph/src/graph.rs:156-190 | every graph operation keeps each cached drv in the bucket of its state |
| AccessTimes.EveryRunIsStamped | backend/graph/src/service/operations.rs:77-82 | from startup, over every run whatever it inserts, exactly the cached drvs have an access time, none in the future, and the cache evicts in the order of these times |
| AccessTimes.StepRecency | backend/graph/src/service/mod.rs:176-492 | each command, at a time not before the last one, keeps that |
| AccessTimes.VictimIsLeastRecent | backend/graph/src/graph.rs:116-116 | the drv that an insertion evicts has the least access time of all cached drvs |
| AccessTimes.PruneRemovesNoTime | backend/graph/src/service/mod.rs:159-160 | in every reachable state, pruning the access times removes nothing |
| FailureRecords.EveryRunIsRecorded | backend/graph/src/graph.rs:106-108 | from startup, over every run that does not prune, every cached failed drv is on record |
| FailureRecords.RunKeepsCurrent | backend/graph/src/graph.rs:174-182 | below capacity, over every run, a drv on record is cached and has not succeeded since |
| FailureRecords.ReloadIsStaleIff | backend/graph/src/service/operations.rs:48-59 | a reloaded drv is on record as failed although it has succeeded if and only if it was on record and succeeded while it was not cached |
| InsertWindows.InsertWindow | backend/graph/src/service/operations.rs:178-198 | after any number of the command's references a new drv looks buildable if and only if it survives the command's evictions and those of its references linked so far survive and have succeeded, told from the command and the service before it |
| InsertWindows.WindowMisleadsIff | backend/graph/src/service/operations.rs:186-198 | a reader at that point is told buildable, against the view after the command, if and only if a reference that holds the drv back comes later and none came before |
| InsertWindows.InsertsOrder | backend/graph/src/service/operations.rs:148-173 | after an insertion of uncached drvs the cache holds the newest ids, old and new, as many as fit |
| Reinsertions.ReinsertCoversIff | backend/graph/src/service/operations.rs:152-173 | after a re-insertion the count covers the cached referrers if and only if no other cached drv depends on the re-inserted one |
| Reinsertions.InsertKeepsIff | backend/graph/src/service/operations.rs:136-201 | an insert command for any drvs, new, cached or evicted, with references between known drvs keeps the invariant if and only if, for every drv it inserts that is cached afterwards, it brings every stored reference of the drv and every stored row to it from a drv that is cached afterwards; what is cached afterwards is told from the cache before |
| Reinsertions.EveryResendingRunKeeps | backend/graph/src/service/mod.rs:112-151 | from startup, over every run whose insert commands do so, re-insertions included, the invariant holds |
| Reinsertions.FreshRunIsResending | backend/graph/src/service/operations.rs:136-201 | runs that insert new drvs only are among those |
| Reinsertions.ReinsertKeepsIff | backend/graph/src/service/operations.rs:148-183 | without references, the insertion of a known drv keeps the invariant if and only if it has no stored reference and no referrer that remains cached |
| Reinsertions.OnlyQueriesSpoilMirror | backend/graph/src/service/operations.rs:115-247 | every command but a query keeps the view an exact mirror, whatever it inserts |
| ReferenceCounts.InsertRefExactIff | backend/graph/src/service/operations.rs:186-190 | an exact count stays exact if and only if the edge is new and its referrer cached |
| ReferenceCounts.ReloadExactIff | backend/graph/src/service/operations.rs:57-97 | under the invariant, the count of a reloaded drv is exact if and only if none was left over, it does not refer to itself, no row is stored twice, and every stored referrer stays cached |
| ReferenceCounts.AdmitKeepsExcess | backend/graph/src/service/operations.rs:59-82 | an insertion of an uncached drv, with the clean-up after the evicted one, changes no other cached drv's excess of count over cached referrers |
| ReferenceCounts.EvictedIsForgotten | backend/graph/src/service/operations.rs:77-80 | nothing is left of an evicted drv in the counts, the access times and the view |
| ReferenceCounts.DropAllEntries | backend/graph/src/service/operations.rs:68-75 | the clean-up removes exactly the entries that reach zero for uncached drvs |
| ReferenceCounts.ReloadKeepsExcess | backend/graph/src/service/operations.rs:84-97 | a reload adds to the excess of another cached drv exactly the rows to it that are stored more than once |
| ReferenceCounts.StartIsExact | backend/graph/src/service/mod.rs:72-75 | right after startup every count is the number of cached referrers |
| Limits.EvictsUnfinishedIff | backend/graph/src/graph.rs:110-117 | an insertion evicts an unfinished drv if and only if the cache is full and its oldest entry is one |
| Limits.ClearUndoesPropagateIff | backend/graph/src/graph.rs:328-396 | clearing a failure undoes its propagation on all nodes if and only if no dependent was blocked by it before and each was queued or, with other blockers, TransitiveFailure |
| Limits.ClearIsStoredIff | backend/graph/src/service/operations.rs:234-246 | after a propagation and its clear the stored state of a dependent agrees with the graph if and only if something else still blocks it |
| ReloadedFailures.ClearReleasesEarlyIff | backend/graph/src/graph.rs:374-392 | from every graph, a clear queues a drv although another failure on record names it, if and only if the cleared failure and another one name it and no other blocker is recorded |
| ReloadedFailures.ReloadReleasesEarlyIff | backend/graph/src/service/operations.rs:48-59 | right after a reload, if and only if that failure and another one named the drv before |
| ReloadedFailures.InsertReleasesEarlyIff | backend/graph/src/graph.rs:92-117 | the same right after any insertion of the drv, a re-insertion included |
| ReloadedFailures.PropagatedReleasesEarlyIff | backend/graph/src/graph.rs:328-396 | a propagation that reaches a drv and its clear release it early if and only if no other blocker is recorded and another failure names it |
| ReloadedFailures.ReloadReportsOnceIff | backend/graph/src/graph.rs:362-396 | a reloaded drv is reported at most once, whatever is cleared, if and only if at most one failure names it |
| ReloadedFailures.UnrecordedReports | backend/graph/src/graph.rs:369-393 | a drv without recorded blockers is reported once for every cleared failure that names it |
| CacheExamples.ReinsertLosesCount | backend/graph/src/service/operations.rs:152-173 | two insert commands after which a drv with a cached referrer has count zero |
| CacheExamples.ReloadBreaksMirror | backend/graph/src/service/operations.rs:92-103 | three insert commands, one of them a re-insertion, and a query after which the view is no mirror, though it was one before the query |
| FailureExamples.ForgettingStrands | backend/graph/src/graph.rs:456-471 | a run in which a prune comes before the clear and the dependent stays blocked |
| FailureExamples.ClearFrees | backend/graph/src/graph.rs:362-396 | the same run without the prune frees it |
| FailureExamples.ReloadReleasesEarly | backend/graph/src/graph.rs:374-392 | a run of six commands after which a reloaded drv is queued while a second failure still names it |
| FailureExamples.ReinsertReleasesEarly | backend/graph/src/graph.rs:92-117 | a run in which a re-insertion takes the place of the eviction and the reload |
| FailureExamples.EvictionHidesDependent | backend/graph/src/graph.rs:230-252 | a run after which a cached drv depends on another through stored references but is not among its transitive dependents |
| FailureExamples.OverwrittenEntryStrands | backend/graph/src/graph.rs:353-365 | a run without a prune after which a failure has a map entry and its clear leaves a drv blocked by it |
| CacheExamples.PairIsExposedEarly | backend/graph/src/service/operations.rs:178-198 | the first command of a run: of two drvs the first depends on the second, unfinished one; halfway the first looks buildable and afterwards it is not |
| CacheExamples.UnfinishedIsEvicted | backend/graph/src/graph.rs:110-117 | two insert commands on a cache for one drv, of which the second evicts an unfinished drv |
| CacheExamples.EvictedReferrerIsCounted | backend/graph/src/service/operations.rs:186-190 | a state with the invariant in which a drv has count one, for a stored referrer that is evicted, and no cached referrer |
| CacheExamples.ReloadOvercounts | backend/graph/src/service/operations.rs:92-97 | a run of three insert commands and a query after which a drv's count exceeds its cached referrers, with the invariant |
| FailureExamples.ClearForgetsState | backend/graph/src/graph.rs:378-379 | a run in which a failure and its clear leave a dependent queued, whatever state it was in |
| FailureExamples.ClearIsNotStored | backend/graph/src/service/operations.rs:228-247 | after the same run the dependent is queued in the graph and stored as TransitiveFailure |
| FailureExamples.RecordGoesStale | backend/graph/src/service/operations.rs:115-133 | a run in which a failed drv is evicted, succeeds and is reloaded, and is on record as failed afterwards |
| Evictions.SelectCandidates | backend/graph/src/eviction.rs:125-159 | the result has length min(target, number eligible), no duplicates, is ordered by tier and then age, and no omitted eligible candidate precedes a kept one |
| Evictions.SelectFromTier | backend/graph/src/eviction.rs:162-219 | the same for one tier: filter, sort by age, truncate |
| Evictions.SelectedIsEvictable | backend/graph/src/eviction.rs:162-211 | every selected drv is in the bucket of TransitiveFailure, failure or success by its tier, idle for that tier's time and counted by no one |
| Evictions.SelectionWrittenOut | backend/graph/src/eviction.rs:125-219 | an evictable drv that is not selected is in a later tier than a selected one, or idle no longer in the same tier |
| Evictions.ShortSelectionIsAll | backend/graph/src/eviction.rs:125-159 | while fewer drvs than asked for are selected, every evictable one is |
| Evictions.OrderWrittenOut | backend/graph/src/eviction.rs:125-219 | a selection goes tier by tier, and within a tier from the longest idle to the shortest |
| Evictions.SelectionIsExact | backend/graph/src/eviction.rs:125-159 | with exact buckets no drv is selected twice and every selected drv is cached in the state of its tier |
| Evictions.SelectedHasNoCachedDependent | backend/graph/src/eviction.rs:188-211 | in every state with the invariant, a selected drv that is cached has no cached dependent |
| Cidrs.New | backend/sandbox/src/net/cidr.rs:14-22 | accepts exactly the canonical prefixes and returns them unchanged |
| Cidrs.NewAcceptsMultiples | backend/sandbox/src/net/cidr.rs:14-22 | in numbers: a length of at most 32 and an address that is a multiple of the prefix's span |
| Cidrs.MaskValue | backend/sandbox/src/net/cidr.rs:37-39 | the shifted mask is 2^32 - 2^(32 - prefix), zero for an empty prefix |
| Cidrs.BitsAsNumbers | backend/sandbox/src/net/cidr.rs:18-18 | masking by the mask and its complement is subtracting and taking the remainder |
| Cidrs.Host | backend/sandbox/src/net/cidr.rs:24-26 | a single address is a canonical prefix of length 32 |
| Cidrs.SameLengthSameKey | backend/sandbox/src/net/cidr.rs:7-22 | two canonical prefixes of equal length that cover a common address are equal |
| Cidrs.CoversSameQuotient | backend/sandbox/src/net/cidr.rs:37-39 | a prefix covers an address exactly if both have the same quotient by 2^(32 - prefix) |
| Cidrs.HostBitsBreakKeys | backend/sandbox/src/net/cidr.rs:18-20 | with a host bit set there would be a different key that covers the same addresses |
| NetDefaults.DefaultDenyIsValid | backend/sandbox/src/net/mod.rs:32-57 | every built-in denied range is accepted, so the expectation in the plan cannot fail |
| RoutePlans.PlanEnforcesPolicy | backend/sandbox/src/net/mod.rs:54-70 | for every policy, host list and address, replaying the plan over pasta's routes and looking up by longest match gives the gateway if and only if some prefix among 0.0.0.0/0, 192.0.2.53/32 and the allow list covers the address and is at least as long as every covering prefix among the thirteen built-in ranges, the hosts as /32 and the deny list |
| RoutePlans.PlanInOrder | backend/sandbox/src/net/mod.rs:55-69 | the plan in order: thirteen built-in ranges, the hosts, the deny list, the default route, the DNS forwarder, the allow list |
| RoutePlans.FixedAddresses | backend/sandbox/src/net/mod.rs:28-29 | the gateway is 192.0.2.1 and the DNS forwarder 192.0.2.53 |
| RouteTables.PlanDecides | backend/sandbox/src/net/setup.rs:76-79 | the same for any keys of which equal-length matches are equal, something allowed matches and older entries are replaced |
| RouteTables.ReplayPlan | backend/sandbox/src/net/mod.rs:64-69 | what a replayed plan leaves: allowed beats denied beats what was there |
| CidrText.RoundTrip | backend/sandbox/src/net/cidr.rs:41-63 | every printed canonical prefix parses back to itself |
| CidrText.Parse | backend/sandbox/src/net/cidr.rs:44-56 | whatever parses is canonical |
| CidrText.ParseAcceptsIff | backend/sandbox/src/net/cidr.rs:44-56 | exactly these texts are accepted: the printed address of a canonical prefix, alone for a host, or before a slash and the prefix length in digits, with leading zeros or a plus sign allowed there |
| CidrText.ShowAddrIs | backend/sandbox/src/net/cidr.rs:60-62 | an address is printed as its four octets in decimal, most significant first |
| CidrText.DecimalDigits | backend/sandbox/src/net/cidr.rs:60-62 | decimal notation digit by digit |
| SetupArgs.ParseArgs | backend/sandbox/src/net/setup.rs:28-51 | the argument loop is the recursive reading of flag and value pairs up to `--`, with its three errors told apart: a flag without a value, an unknown flag, a bad prefix |
| SetupArgs.PrintRoutes | backend/sandbox/src/net/setup.rs:53-63 | the printing loop emits flag and prefix of every route in order |
| SetupArgs.PrintedRoute | backend/sandbox/src/net/setup.rs:56-60 | `--unreachable` or `--via`, followed by the prefix |
| SetupArgs.FlagsDo | backend/sandbox/src/net/setup.rs:41-47 | what each of the five flags does with its value, and that a bad prefix is rejected |
| SetupArgs.OtherArgsAreRejected | backend/sandbox/src/net/setup.rs:37-47 | every other flag is rejected, and so is a flag without a value |
| SetupArgs.ReadsPairs | backend/sandbox/src/net/setup.rs:31-49 | flags are read in pairs with their values, in order, until `--` |
| SetupArgs.ParsePrintedRoutes | backend/sandbox/src/net/setup.rs:28-63 | parsing a printed canonical plan, with anything after it, gives the same plan in the same order and goes on with the rest |
| SetupArgs.ParsedIsCanonical | backend/sandbox/src/net/setup.rs:41-43 | whatever the arguments, every parsed route is canonical |
| SetupArgs.AttachRoundTrip | backend/sandbox/src/net/mod.rs:107-111 | the attach helper reads back the plan, the pasta path and the command |
| SetupArgs.SetupRoundTrip | backend/sandbox/src/net/attach.rs:85-88 | the setup process reads back the plan and the two namespaces |
| ByteOrders.NativeIsLawful | backend/sandbox/src/net/netlink.rs:113-119 | in either byte order, numbers and addresses have fixed widths and read back as written, and only the written bytes read so |
| ByteOrders.BytesInOrder | backend/sandbox/src/net/netlink.rs:86-90 | least significant byte first on a little-endian machine, most significant first on a big-endian one and in addresses |
| Netlinks.RoundTrip | backend/sandbox/src/net/netlink.rs:73-95 | decoding a route message gives the route, the gateway, the interface, the sequence number, the main table and the flags, and the length field is the message's length |
| Netlinks.MessageBytes | backend/sandbox/src/net/netlink.rs:84-94 | the message written out: length, type 24, the flags request, acknowledge, create and replace, sequence number, port zero, route header and attributes |
| Netlinks.RouteHeaderBytes | backend/sandbox/src/net/netlink.rs:97-111 | the route header of either kind of route, byte by byte |
| Netlinks.AttributeBytes | backend/sandbox/src/net/netlink.rs:79-85 | destination as attribute 1 unless the prefix is empty, then gateway 5 and interface 4 for a gateway route only |
| Netlinks.AttributesAreAligned | backend/sandbox/src/net/netlink.rs:113-119 | walking the attributes by their own lengths visits multiples of four only and ends exactly where the message ends |
| Netlinks.ZeroPrefixForgetsAddress | backend/sandbox/src/net/netlink.rs:80-94 | two prefixes of length zero give the same message, so leaving out the destination is lossless only for canonical ones |
| Netlinks.AckedIff | backend/sandbox/src/net/netlink.rs:121-132 | a reply counts as success exactly if it is long enough, has the error kind and four zero bytes as its error number |
| Netlinks.NotAckedIs | backend/sandbox/src/net/netlink.rs:121-132 | a reply that is short or of another kind is malformed, and any other error number is a refusal with that number |
| Netlinks.AckExists | backend/sandbox/src/net/netlink.rs:121-132 | some reply is an acknowledgement |
| Netlinks.Netlink.NextRequest | backend/sandbox/src/net/netlink.rs:34-39 | each request carries the next sequence number, modulo 2^32, and the message of its route |
| Handshakes.UnblockedMeansRouted | backend/sandbox/src/net/attach.rs:22-39 | in every interleaving, with partial writes and deaths at any time, the sandbox is unblocked only after every route was acknowledged, never after a failure, and with exactly the replayed plan in the table |
| Handshakes.BehaviourIsSafe | backend/sandbox/src/net/setup.rs:65-86 | every reachable state keeps: the second report starts only after the last route, and the helper has read a beginning of what was written |
| Handshakes.LineDecides | backend/sandbox/src/net/attach.rs:130-137 | the first line advances the helper exactly if it is `joined`, the second exactly if it is `routed`, whatever white space follows; any other line makes it give up |
| Handshakes.JoinedLineAdvances | backend/sandbox/src/net/attach.rs:101-101 | the line `joined` with its newline makes the helper go on to spawn pasta |
| Handshakes.RoutedLineAdvances | backend/sandbox/src/net/attach.rs:114-118 | the line `routed` with its newline makes the helper go on to unblock the sandbox |
| Handshakes.SuccessUnblocks | backend/sandbox/src/net/setup.rs:65-80 | for every list of acknowledgements, one for each route, some behaviour ends with every route installed and the sandbox unblocked |
| Handshakes.FailuresArePossible | backend/sandbox/src/net/attach.rs:114-117 | the setup process may die at any time, joining, the device and each route may fail, and the helper may fail until it has unblocked |
| Handshakes.WritesMayBePartial | backend/sandbox/src/net/setup.rs:88-93 | a report may reach the pipe in any pieces |
| Handshakes.LineKeeps | backend/sandbox/src/net/attach.rs:130-137 | a line that matches after trimming, complete or cut off by the writer's death, advances the helper only as far as the reports justify |
| Handshakes.AckedInstalls | backend/sandbox/src/net/setup.rs:76-79 | an acknowledged message installs exactly the route it was built from, in place of a route for the same prefix or in addition |
| Handshakes.SandboxEnforcesPolicy | backend/sandbox/src/net/attach.rs:78-119 | end to end: through two printings and parsings, the messages and any interleaving, an unblocked sandbox reaches exactly the addresses its policy permits |
| EvalStreams.ProcessOutput | backend/evaluator/src/service/jobs.rs:89-195 | the buffered loop over a limited reader equals consuming the lines of the whole output one by one |
| EvalStreams.ReadLine | backend/evaluator/src/service/jobs.rs:107-116 | a limited read yields the first line as far as one byte more than the line cap |
| EvalStreams.OutcomeIsPrefix | backend/evaluator/src/service/jobs.rs:89-195 | the outcome holds the items of a beginning of the lines in order, of all lines if no cap is hit (but the one in which a read broke), with bytes and entries bounded |
| EvalOutputs.OutputIsParsed | backend/evaluator/src/service/jobs.rs:146-177 | for every output within the caps that consists of texts with `\n` or `\r\n` endings and possibly a last unended line, the outcome is exactly what the parser makes of the non-empty texts, in order, and every byte is counted |
| EvalOutputs.BrokenOutputIsParsed | backend/evaluator/src/service/jobs.rs:109-115 | if a read breaks in an unended line, the outcome is that of the lines before it |
| EvalOutputs.CounterSaturates | backend/evaluator/src/service/jobs.rs:126-126 | without a cap hit the counter is the number of bytes, up to the largest 64-bit number |
| EvalOutputs.LongLineStops | backend/evaluator/src/service/jobs.rs:136-145 | an output that begins with more bytes than the line cap without a newline is cut off there with nothing kept |
| EvalStreams.UncappedExactly | backend/evaluator/src/service/jobs.rs:126-186 | no cap is hit if and only if every line fits, the total is within the byte cap and the items are below the entry cap |
| EvalStreams.OvershootIff | backend/evaluator/src/service/jobs.rs:77-82 | told from the output and the caps: the byte cap is exceeded if and only if some line that is read goes beyond it while all before it keeps within the caps, the entry cap if and only if it is zero and a line with an item is read before any other cap is hit |
| EvalStreams.TruncationIff | backend/evaluator/src/service/jobs.rs:126-186 | a run reports a cap if and only if some line of the input hits that cap and no earlier line hits one |
| EvalStreams.OneByteOvershoots | backend/evaluator/src/service/jobs.rs:126-134 | with a byte cap of zero one byte counts as read |
| EvalStreams.OneEntryOvershoots | backend/evaluator/src/service/jobs.rs:164-186 | with an entry cap of zero one entry is kept |
| EvalStreams.ConsumeIsBounded | backend/evaluator/src/service/jobs.rs:103-134 | at most max_bytes + max_line_bytes + 1 bytes and max(1, max_entries) entries |
| Requisites.QueryRequisites | backend/nix_store/src/daemon.rs:65-95 | for every finite store with any failing lookups the search terminates and returns, without duplicates, exactly the non-root derivations with a successful lookup that are reachable through successful lookups |
| Requisites.AnswerWrittenOut | backend/nix_store/src/daemon.rs:76-93 | what the search is specified by, without its predicates: names that end in `.drv`, other than the root, with a successful lookup, at the end of a path of such references |

## Left out

- Async plumbing, channels, cancellation, logging and metrics: each command is one step.
- Database failures, and the SQL behind the database trait: calls succeed, and the state a database write leaves is part of the step. A propagation's rows in the table of transitive failures are not modelled, only the states.
- The write of drvs and references to the database and the insert command are taken as one step.
- The internals of `DashMap` and `LruCache`, the pinned set, memory estimates and utilisation: bookkeeping that decides nothing here.
- Writes to the shared view from outside the service (`backend/graph/src/service/handle.rs:21-23`): the mirror theorems take the service as the only writer.
- Queries as commands: `QueryCmd` keeps the reload that a query performs; the answers are the read methods of `BuildGraph` and are not part of the step.
- The every-5000-commands schedule of pruning: a prune may come at any point of a run.
- BuildGraphs.BuildGraph: results that the source returns as vectors in hash order are sets.
- Evictions.SelectFromTier: `sort_by` is modelled as stable insertion by age; the order of equally old candidates is that of the bucket, which is arbitrary. The counts per tier for metrics are left out, a loop over the same filter.
- SetupArgs.ParseArgs: arguments are text; the lossy conversion of other byte strings is not modelled.
- Netlinks.Netlink.NextRequest: the sequence number wraps as in a build without overflow checks; with them the process panics at the 2^32-th request, which the handshake covers as a death of the setup process.
- Netlinks.RoundTrip: the receiver is the reading of RFC 3549 by this model, since the kernel is not part of the repository; of the flags it reads request, create and replace.
- Sockets, namespaces, ioctl, process spawning, bwrap, pasta and landlock: the handshake keeps the events, their order, partial writes, deaths and failures. IPv6 is disabled for the sandbox and not modelled.
- RoutePlans.PlanEnforcesPolicy: the routes present before the replay are those pasta configures, the default route and the guest's subnet.
- EvalStreams.ProcessOutput: UTF-8 validation and JSON decoding are an arbitrary function from a line to an optional item.
- Requisites.QueryRequisites: a lookup that fails does so for the whole search.
- SQL queries, HTTP, OAuth, forge clients, AI providers, credentials, the command line and search indices: plumbing over libraries.
- Auto-merge rules, permission globs, timeout clamping, cache-destination checks, markdown rendering, change classification and the channel coalescer: easier than the parts above, or resting on files outside the core.
