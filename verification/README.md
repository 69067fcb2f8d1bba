# Verification of the knowledge service

The knowledge service keeps scopes, entities, artifacts, memories and relationships as an append-only event log
with versioned rows, current pointers, a full-text index and an embedding queue beside it. On top of this store
it ranks memories for a query and assembles a context under a token budget. This project models that behaviour
in Dafny and proves properties of it, over all inputs and all runs. `dafny verify dfyconfig.toml` checks all of it.

## How the modules fit together

| files | what they model |
|---|---|
| `EventStore`, `Writers`, `Linearization`, `WorkspaceIsolation` | the tables, one transaction as an atomic step, any number of writers whose lookup, read and commit interleave, the sequential run behind each interleaved one, and each workspace by itself |
| `Replay`, `WorkspaceReplay`, `Projections` | the log, or that of one workspace, replayed into an empty store, and the pointer rebuild |
| `MemoryIndex`, `IndexRaces` | the full-text index after sequential puts, and after overlapping ones whose refreshes interleave |
| `Snapshots`, `TornExports`, `ImportResume`, `LandingOrder`, `ListedImports`, `StaleImports`, `Promotion` | export by six separate reads, import, interruption and resumption, the order in which events land and what it means for the pointers, import against replay |
| `SqlStore` | the store as an object whose methods change the tables, each against the functions of the modules above |
| `EmbeddingJobs`, `EmbeddingClaims`, `EmbeddingStore`, `EmbeddingColumn` | job and row tables in agreement, N workers racing for jobs, the tables as an object, and their link to the rows of the store |
| `ContextAssembly`, `ContextLaws`, `ContextAnswers`, `ContextService` | the four greedy passes of context assembly, what they guarantee, whole answers, and the request that feeds them from the ranking |
| `Recency`, `EpisodeRecency`, `InstructionOverride` | what the ages of episodes can do to a response and a context, and which of several instructions with one key is kept |
| `ScopeClosure`, `ScopeLookups`, `Retrieval`, `RetrievalLaws`, `Rerank`, `RerankLaws` | scope expansion, also over tables with ambiguous references, ranking over maps in arbitrary order, an untrusted reranker writing shared explanations, and what both mean over the request itself |
| `RateLimit`, `Numerics`, `TimeText`, `QueryText` | the request limiter, the cosine, timestamps compared as text, query printing |
| `Sequences`, `Ordering`, `Text`, `TextLaws` | shared facts about sequences, strict orders and strings |

Tables are sequences in insertion order, so row i is the row inserted with event i. An idempotency lookup that
fails still yields a non-nil event in the code, and an import then skips the event; such failures are the `faults`
of an import attempt. Clock readings, provider replies, failures of lookups and the iteration order of maps are
parameters or arbitrary choices. A listing of events is any permutation of them.

## Where the code departs from what one would expect of it

The model follows the code. Each line names the input that shows the departure and the exact condition.

- Embedding jobs are documented to fail after five attempts (`docs/OPERATIONS.md:84`). With N workers an always-failing
  job can be claimed N + 4 times (`BoundIsReached`), and never more often (`ClaimsAreBounded`).
- A job whose worker dies while holding it is running forever (`LostJobsRunForever`); the queue drains exactly under the
  condition of `QueueDrainsExactly`.
- Importance and confidence are documented as tie-breakers (`docs/OPERATIONS.md:71`). The score adds them with weight
  .05 each, and they can outweigh a rank (`ImportanceOutweighsRank`); when the better rank prevails is exactly
  `LexicalRankPrevailsExactly`.
- Episode recency is documented never to displace durable instructions or decisions (`docs/OPERATIONS.md:71`). It leaves
  their order alone (`DurablesKeepTheirOrder`), but a response cut at its limit can lose an instruction or a decision to
  a newer episode (`NewEpisodeDisplaces`), exactly when `DisplacedExactly` says. For a context, without a reranker, the
  condition is `DurablesReceivedAlikeExactly`; searches of the documented size meet it
  (`FewCandidatesAreUndisturbed`), and a reranker then changes no more than the order (`RerankerOnlyReorders`). The
  SQLite search for embeddings ignores its limit (`knowledge/sqlstore.go:892-910`), so larger ones occur.
- A more specific instruction is announced to replace a broader one with the same key (`knowledge/service.go:656`). The
  code keeps the one that ranks first, which can be the broader one (`BroaderInstructionPrevails`); exactly when is
  `SpecificInstructionKeptExactly`.
- An import that reports success can leave a pointer on an older version, after a failed lookup (`FailedLookupStale`) or,
  without any fault, when two versions fall into one second (`WithinOneSecondStale`). The exact conditions are
  `LandingOrder.ImportPointersExact` and `CleanImportPointersExact`; a rebuild repairs pointers and index
  (`RebuildRepairsImport`).
- The refresh of the full-text index after a put is two statements outside the transaction. Overlapping puts of one
  memory can leave two index rows, even with equal texts (`EqualTextsCanDuplicate`); the exact condition is
  `IndexIsExactExactly`.
- An import without an embedder, or over completed jobs, can leave rows whose state no job backs (`ReadyWithoutVector`,
  `ImportOverCompletedJob`); exactly when is `ImportAgreesExactly`.
- A context request expands its scopes twice. With a parent stored by key the second expansion differs
  (`KeyParentComesTwice`), exactly under the condition of `IdRequestsExpandOnceExactlyWhenParentsAreById`.
- When an id is another scope's key a reference is ambiguous, and the walk may never end (`AmbiguousReferencesNeverEnd`);
  all walks end exactly under the condition of `EveryWalkEndsExactly`.
- A reply of the reranker that is rejected falls back to the hybrid order, but can already have written the
  explanations (`RepeatedIdLeavesATrace`), exactly when `RejectedReplyLeavesATraceExactly` says.
- The request limit of 600 a minute admits up to 1199 requests in less than a minute (`SlidingBound`,
  `SlidingBoundIsReached`); it holds for the next minute exactly under the condition of
  `LimitHoldsForTheNextMinuteExactly`.
- Twenty Newton rounds do not normalize short vectors: one of length 10^-9 is almost orthogonal to itself
  (`TinyVectorIsUnlikeItself`), and full self-similarity is exactly `FullSelfSimilarityExactly`.

## Model

| member | source | states |
|---|---|---|
| `EventStore.CommitKeepsConsistent` | knowledge/sqlstore.go:180-205 | a commit one past any version that once was current keeps all table invariants and only extends the log; it can succeed only if that version is still current, whatever the writer read |
| `EventStore.SetEmbeddingStateKeepsConsistent` | knowledge/sqlstore.go:861-864 | the embedding column can change at any time without touching what the log, the rows and the pointers guarantee |
| `Writers.StepKeepsInvariant` | knowledge/service.go:150-182 | every single step of any writer, interleaved at lookup, read and commit, keeps the invariant and only extends the store |
| `Writers.EveryRunKeepsInvariant` | knowledge/service.go:94-98 | the invariant holds after every run of any number of writers from the empty store |
| `Writers.RunsOnlyGrow` | knowledge/sqlstore.go:180-205 | between any two points of any run the log only grows, every column of a row but its embedding state stays, and pointers only advance |
| `Writers.VersionsAreExactlyOneToCurrent` | knowledge/service.go:312-363 | in every reachable state an object has exactly one row for each version from 1 to its current pointer, and no other |
| `Writers.AtMostOneEventPerKey` | knowledge/sqlstore.go:81 | two events of one workspace never have the same idempotency key, nor any two events the same id, although lookup and commit are separate steps |
| `Writers.CommitSucceedsExactlyOnCurrentBase` | knowledge/sqlstore.go:81-205 | a commit succeeds if and only if no event has its id, none of its workspace has its key, and the version it read is still current; for a scope instead no scope has its id and none of its workspace its canonical key |
| `Writers.CommitAdvancesPointerByOne` | knowledge/sqlstore.go:180-205 | a successful commit adds exactly the event and the row that were asked for, as the next version after the pointer at that moment, and moves that pointer only |
| `Writers.WriteAloneSucceedsExactly` | knowledge/service.go:94-182 | a write without interference, from any reachable state, records exactly what was asked for if and only if it is legal, its event id and key are unused and its object is new or, for a version, there; otherwise, as when it is repeated under its key, it changes nothing |
| `WorkspaceIsolation.EveryRunIsIsolated` | knowledge/sqlstore.go:81-92 | whatever the writers of all workspaces do, each workspace ends with its tables, and its writers where they would stand, as if the others' steps had never happened, as long as event ids and scope ids do not collide across workspaces |
| `WorkspaceIsolation.CommitAlone` | knowledge/sqlstore.go:180-205 | a transaction gets the same answer with or without the other workspaces, and leaves them alone |
| `Writers.EventsAndRowsCorrespond` | knowledge/sqlstore.go:418-432 | event i describes row j if and only if i = j: log and tables are in bijection in every reachable state |
| `Writers.EventCountIsSumOfRowCounts` | knowledge/sqlstore.go:928 | in every reachable state the event count of a workspace is the sum of its five row counts |
| `Linearization.EveryRunIsSequential` | knowledge/service.go:150-182 | every interleaved run ends with the events, rows and pointers of the sequential run of its committed writes in commit order, but for the embedding column |
| `Linearization.SequentialWriteIsWriteAlone` | knowledge/service.go:94-182 | each write of that sequential run is the four steps of a writer that nobody interferes with |
| `Projections.InsertionPointersRightExactlyWhenLastIsNewest` | knowledge/sqlstore.go:195-205 | inserting rows in some order leaves every pointer at the greatest version if and only if each object's newest row came last |
| `Projections.PointerIsLastInserted` | knowledge/sqlstore.go:195-205 | the pointer of an object is the version of the row inserted last, even a smaller one |
| `Projections.RebuildPointsAtNewest` | knowledge/sqlstore.go:985-1002 | a rebuild sets the pointer of every versioned object of the workspace to the greatest version that has a row, and leaves other workspaces alone |
| `Projections.RebuildSingleWorkspace` | knowledge/sqlstore.go:985-1002 | in a store with one workspace a rebuild yields exactly the newest pointers from any starting pointers |
| `Projections.RebuildIsNoOp` | knowledge/sqlstore.go:985-1002 | in every state that service writes reach a rebuild changes nothing |
| `Replay.ReplayRebuildsEveryRow` | knowledge/replay.go:9-70 | replaying a log in any order into an empty store succeeds and rebuilds exactly the events and rows of the source, but for the embedding column |
| `Replay.ReplayStopsAtFirstError` | knowledge/replay.go:11-70 | a replay into any store keeps what it held, appends the events up to the first one it cannot take, each with its payload, and reports whether that one has an unknown type, no payload, or clashes |
| `Replay.ReplayPointersExact` | knowledge/replay.go:9-70 | the replayed pointers equal the source's if and only if each object's newest event came last |
| `Replay.ReplayOfRun` | knowledge/replay.go:9-70 | for every run of service writes, its log in any per-object version order replays to the same events, rows and pointers |
| `Replay.ReplayInCommitOrder` | knowledge/replay.go:9-70 | the log in commit order replays to the source position by position |
| `Replay.CommitOrderAscends` | knowledge/replay.go:9-10 | the commit order of every run is a per-object version order, so it is a legal stream order |
| `Replay.RebuildAfterReplay` | knowledge/sqlstore.go:985-1002 | a rebuild after a replay in any order restores the source's pointers |
| `WorkspaceReplay.RestrictIsConsistent` | knowledge/sqlstore.go:836-837 | the events, rows and pointers of one workspace of a consistent store form a consistent store |
| `WorkspaceReplay.ReplayOfWorkspace` | knowledge/replay.go:9-70 | for every run over any workspaces, the listed log of one workspace in version order replays to the events, rows and pointers of that workspace |
| `WorkspaceReplay.WorkspacePointersExact` | knowledge/replay.go:9-10 | in any order of that log the workspace's pointers come out right if and only if each object's newest event came last |
| `Snapshots.ImportLands` | knowledge/sqlstore.go:942-973 | an import attempt of any length with any failed lookups never violates a constraint and only lands further events with their own rows |
| `Snapshots.ImportVerdict` | knowledge/sqlstore.go:974-983 | in a store that holds no other workspace, an import over any part of the snapshot succeeds if and only if every event has landed and rows and events of the snapshot correspond one to one; otherwise it reports a count mismatch |
| `WorkspaceIsolation.ImportIsIsolated` | knowledge/sqlstore.go:935-984 | an import beside other workspaces answers as without them, leaves in its workspace what it would leave without them, and leaves them alone |
| `WorkspaceIsolation.ImportVerdictBesideOthers` | knowledge/sqlstore.go:974-983 | beside any other workspaces, an import over any part of the snapshot succeeds if and only if every event has landed and rows and events correspond one to one, reports a count mismatch otherwise, and changes no other workspace |
| `Snapshots.UnknownTypesAreSkipped` | knowledge/sqlstore.go:946-972 | an import goes as if the events of unknown types were not in the snapshot |
| `Snapshots.MissingRowIsImportedEmpty` | knowledge/sqlstore.go:942-973 | an event whose row is missing from the snapshot is imported with an empty row that belongs to no workspace |
| `Snapshots.OneToOneExactlyByCounts` | knowledge/sqlstore.go:978-982 | comparing six counts is as strong as comparing contents: the counts of the landed rows match if and only if the snapshot is one-to-one |
| `Snapshots.PermutationExactlyByCounts` | knowledge/sqlstore.go:978-982 | distinct rows drawn from a list are all of that list if and only if every kind is equally numerous |
| `TornExports.ExportIsCovered` | knowledge/sqlstore.go:913-934 | whatever writers do between the reads of an export, each exported event finds its own row in the table read later |
| `TornExports.OneToOneExactlyWhenQuiet` | knowledge/sqlstore.go:1012-1045 | an export is one-to-one if and only if no row of the workspace entered a table between the read of the log and the read of that table |
| `TornExports.TornExportIsCaught` | knowledge/sqlstore.go:974-983 | importing an export into an empty store succeeds if and only if nothing was written between the reads, and reports a count mismatch otherwise |
| `TornExports.TornExportOfRunIsCaught` | knowledge/sqlstore.go:913-984 | the same for the six reads of one export at any six points of any run of writers |
| `TornExports.ImportCopiesTheLogsMoment` | knowledge/sqlstore.go:942-973 | even a torn export imports exactly the events and row contents of the moment at which the log was read |
| `ImportResume.CleanAttemptsLeaveAPrefix` | knowledge/sqlstore.go:942-973 | interrupted attempts leave exactly the prefix of the events up to the furthest attempt |
| `ImportResume.ResumeReachesTheUninterruptedImport` | knowledge/sqlstore.go:935-984 | after any number of interruptions a rerun reaches the same events, rows, pointers and verdict as one uninterrupted import |
| `ImportResume.SuccessMeansEverythingLanded` | knowledge/sqlstore.go:207-214 | whatever attempts and failed lookups came before, an import succeeds if and only if exactly the events and rows of the snapshot are there; otherwise it reports a count mismatch |
| `LandingOrder.AttemptsLandInOrder` | knowledge/sqlstore.go:942-973 | the events land in the order of the first attempt that gets to them without a failed lookup, and within an attempt in snapshot order |
| `LandingOrder.AttemptPointersExact` | knowledge/sqlstore.go:195-205 | after any interrupted attempts the pointers are the newest if and only if, read off the events, stops and failed lookups alone, no event of an object lands after that object's newest |
| `LandingOrder.ImportPointersExact` | knowledge/sqlstore.go:935-984 | the same for the import that follows them, which is one more attempt up to the end |
| `ListedImports.ListedInOrderExactly` | knowledge/sqlstore.go:837 | the listing has the later of two events first if and only if their stored times are reversed as texts |
| `ListedImports.CleanImportPointersExact` | knowledge/sqlstore.go:935-984 | with times ascending along each object, a fault-free import of a listing has the right pointers if and only if no version is reversed against its object's newest one |
| `ListedImports.QuietPromotionPointersExact` | knowledge/sqlstore.go:913-984 | an undisturbed export imports successfully, and has the right pointers under the same condition and no other |
| `ListedImports.VersionsWithinOneSecondLeaveAStalePointer` | knowledge/sqlstore.go:163-168 | an older version on a full second and the newest one later in that second: without any fault the import leaves a stale pointer, and still succeeds if rows and events correspond |
| `StaleImports.WithinOneSecondStale` | knowledge/sqlstore.go:913-984 | for every memory a store of two versions, a nanosecond apart, whose undisturbed export imports successfully with a stale pointer |
| `Promotion.ImportIsReplay` | knowledge/sqlstore.go:942-973 | importing an export and replaying the listing it was made from reach the same events, row contents and pointers, right or wrong |
| `ImportResume.RebuildRepairsImport` | knowledge/sqlstore.go:985-1010 | after any attempts, in any event order and whatever they left in the index, a rebuild sets every pointer to the greatest version and makes the index exact for these pointers |
| `ImportResume.FailedLookupMovesThePointerBack` | knowledge/sqlstore.go:943-945 | for every versioned event, an attempt whose lookup fails there followed by a clean one succeeds and leaves that object's pointer at that event's version, newest or not |
| `StaleImports.FailedLookupStale` | knowledge/sqlstore.go:943-945 | a store in which this costs the newest version: the rerun succeeds with the pointer at version 1 while version 2 is there |
| `MemoryIndex.SequentialRunsKeepTheIndexExact` | knowledge/sqlstore.go:433-436 | along every sequential run the index holds exactly one row for each current memory, with that version's text, and nothing else |
| `MemoryIndex.RebuildMakesTheIndexExact` | knowledge/sqlstore.go:1003-1005 | in any store with unique rows, whatever its pointers, a rebuild makes the workspace's part of the index exact for them, whatever it held, and keeps all other rows |
| `MemoryIndex.RebuildRepairsTheIndex` | knowledge/sqlstore.go:985-1010 | in a one-workspace store, however rows, pointers and index came about, the index is exact after a rebuild |
| `MemoryIndex.RebuildIsNoOpAfterSequentialRuns` | knowledge/sqlstore.go:985-1010 | after a sequential run a rebuild changes no pointer and at most the order of the index rows |
| `MemoryIndex.TextsAgree` | knowledge/sqlstore.go:435 | the text that a put indexes and the text that a rebuild concatenates in SQL are the same: subject, predicate, object and title with spaces between, beside the content |
| `IndexRaces.TablesAreARun` | knowledge/sqlstore.go:418-438 | whatever the refreshes do, the tables are those of an ordinary interleaved run |
| `IndexRaces.RefreshesOnceInOrder` | knowledge/sqlstore.go:433-436 | in every interleaving a put refreshes the index by at most one delete and, only after it, at most one insert |
| `IndexRaces.IndexIsTheTrace` | knowledge/sqlstore.go:433-436 | with delete and insert as separate statements of overlapping puts, any of which may fail, the index holds for a memory exactly what was inserted since its last delete |
| `IndexRaces.IndexIsExactExactly` | knowledge/sqlstore.go:433-436 | after every interleaving the index is exact if and only if, for each current memory, exactly one insert followed the last delete and it wrote the current text |
| `IndexRaces.CrossedRefreshesDuplicate` | knowledge/sqlstore.go:433-436 | whenever two puts of one memory have committed and neither has refreshed, delete, delete, insert, insert leaves two rows, whatever the texts |
| `IndexRaces.EqualTextsCanDuplicate` | knowledge/sqlstore.go:433-436 | for every memory and text there is such an overlap in which both puts finish, so equal texts do not protect the index |
| `SqlStore.SQLStore.EventTx` | knowledge/sqlstore.go:81-194 | the transaction inserts event and row and moves the pointer if and only if no event has the id, none of the workspace has the key, and no row of that table has the same identity; otherwise it changes nothing |
| `SqlStore.SQLStore.Put` | knowledge/sqlstore.go:418-438 | commit, and after a successful commit of a memory the refresh of the index |
| `SqlStore.SQLStore.GetEventByIdempotency` | knowledge/sqlstore.go:207-214 | reports an event when the key exists and also when the lookup fails |
| `SqlStore.SQLStore.SetEmbeddingState` | knowledge/sqlstore.go:861-864 | changes the embedding column of exactly the named version |
| `SqlStore.SQLStore.ImportEvents` | knowledge/sqlstore.go:942-973 | the loop of an import up to a point where the process may die is the specified fold, conflicts included |
| `SqlStore.SQLStore.Import` | knowledge/sqlstore.go:935-984 | another schema, then a wrong checksum, is refused without a change; the loop and the final count comparison give exactly the specified outcome, beside other workspaces the same as without them |
| `SqlStore.SQLStore.RebuildProjections` | knowledge/sqlstore.go:985-1010 | rebuilding four pointer tables one after another, then the index, is the one-step rebuild of the specification |
| `SqlStore.ReplayEvents` | knowledge/replay.go:11-70 | the loop over a destination store stops at the first error with what it has committed |
| `SqlStore.FourTablesAreTheRebuild` | knowledge/sqlstore.go:991-999 | four separate delete-and-insert steps amount to replacing all pointers of the workspace by the maxima |
| `EmbeddingJobs.IterationOutcome` | knowledge/service.go:55-69 | a whole worker iteration on a claimable job decides exactly one job, one state and perhaps one vector |
| `EmbeddingJobs.RequeueOutcome` | knowledge/sqlstore.go:489-547 | a backfill resets exactly the candidates to pending with zero attempts and touches nothing else |
| `EmbeddingJobs.EveryRunKeepsAgreement` | knowledge/service.go:55-69 | over all runs of whole iterations, memory writes, backfills and harmless imports, the state column shows exactly the job, and ready means completed with a stored vector |
| `EmbeddingJobs.BacklogZeroExactlyWhenNonePending` | knowledge/retrieval.go:164-166 | after every such run the index is reported fresh if and only if no row of the workspace is pending |
| `EmbeddingJobs.BackfillInsideSuccessfulIteration` | knowledge/service.go:67-69 | a backfill inside a successful iteration breaks the agreement if and only if it lands between marking the row ready and finishing the job; the row is then pending with a completed job |
| `EmbeddingJobs.BackfillInsideFailedIteration` | knowledge/service.go:60-66 | on the failure path the only gap is between giving the job up and marking the row failed, on the last attempt |
| `EmbeddingJobs.PendingWithCompletedJobIsStuck` | knowledge/sqlstore.go:516 | a pending row with a completed job and a stored vector stays so: no worker claims it and a backfill of missing embeddings passes it by |
| `EmbeddingJobs.RemarkAgreesExactlyWhenNoneCompleted` | knowledge/service.go:563-570 | re-marking imported memories, whatever states they were exported with, ends in agreement if and only if none of their jobs is already completed |
| `EmbeddingJobs.ImportAgreesExactly` | knowledge/service.go:556-572 | a successful import keeps the agreement if and only if it is harmless: with an embedder no job of its memories is completed, without one no new row is ready or failed |
| `EmbeddingJobs.FirstImportAgrees` | knowledge/service.go:556-572 | with an embedder a first import into an empty store is always harmless, whatever states its rows were exported with |
| `EmbeddingJobs.ReadyWithoutVector` | knowledge/service.go:560-562 | without an embedder a first import of a memory exported as ready leaves it ready, with no vector and no job |
| `EmbeddingJobs.ImportOverCompletedJob` | knowledge/service.go:563-570 | a concrete run of write, embedding and import after which the memory is pending with a completed job |
| `EmbeddingColumn.CommitExtendsColumn` | knowledge/sqlstore.go:418-432 | a committed memory row does to the embedding column what the queue's tables record of that write |
| `EmbeddingColumn.MarkIsSetState` | knowledge/sqlstore.go:861-864 | updating the column of one version is setting its state in these tables |
| `EmbeddingColumn.ImportedColumn` | knowledge/sqlstore.go:935-984 | an import leaves in the column of the rows what the import of the queue's tables leaves as states |
| `EmbeddingJobs.MissingBackfillCoversEveryLiveMemory` | knowledge/sqlstore.go:496-518 | a backfill of missing embeddings from an agreeing state leaves every live memory ready or pending |
| `EmbeddingJobs.AllBackfillRequeuesEveryLiveMemory` | knowledge/sqlstore.go:516 | a backfill of all embeddings makes every live version with a row pending with a fresh job, and changes nothing else |
| `EmbeddingJobs.MissingBackfillKeepsReadyMemories` | knowledge/sqlstore.go:516 | a backfill of missing embeddings requeues a live version if and only if it has no vector or is not configured or failed; from an agreeing state a ready one keeps its state, job and vector |
| `EmbeddingClaims.NoTwoWorkersHoldOneJob` | knowledge/sqlstore.go:445-464 | in every run of N workers that interleave selection and guarded update, no two workers hold the same job, and a held job is running |
| `EmbeddingClaims.ClaimsAloneExactly` | knowledge/sqlstore.go:445-478 | an undisturbed worker selects a job if and only if it is pending or to be retried, claims it and records the outcome under the incremented count: completed, given up from the fifth attempt on, else to be retried |
| `EmbeddingClaims.LocalAttemptsNeverExceedStored` | knowledge/sqlstore.go:453-462 | a worker's own attempt count never exceeds the stored one |
| `EmbeddingClaims.ClaimsAreBounded` | knowledge/sqlstore.go:465-478 | a job is claimed at most N + 4 times, as often as its stored attempts say, and at least five times before it is given up |
| `EmbeddingClaims.OneWorkerGivesUpAfterExactlyFive` | knowledge/service.go:59-66 | a single worker gives a job up after exactly five claims |
| `EmbeddingClaims.RunsClaimBoundedly` | knowledge/sqlstore.go:445-478 | however long the run, it contains at most N + 4 claims for each job |
| `EmbeddingClaims.RunningExactlyWhenHeldOrLost` | knowledge/sqlstore.go:455-462 | in every run a job is running if and only if some worker holds it or a worker died while holding it, and not both |
| `EmbeddingClaims.LostJobsRunForever` | knowledge/sqlstore.go:447-457 | a job whose worker died while holding it is running in every continuation: nothing reclaims it |
| `EmbeddingClaims.AtRestSettledExactly` | knowledge/sqlstore.go:445-478 | once no worker has anything in hand and nothing is claimable, a job is completed or given up if and only if no worker died while holding it |
| `EmbeddingClaims.QueueDrainsExactly` | knowledge/sqlstore.go:445-478 | after any run some continuation completes or gives up every job if and only if no worker has died while holding one |
| `EmbeddingClaims.BoundIsReached` | knowledge/sqlstore.go:471-474 | for every N some run claims an always-failing job N + 4 times before it is given up |
| `EmbeddingStore.EmbeddingTables.ClaimEmbedding` | knowledge/sqlstore.go:445-464 | claims a due pending or retry job if and only if there is one, sets it running and hands out its incremented attempt count |
| `EmbeddingStore.EmbeddingTables.FinishEmbedding` | knowledge/sqlstore.go:465-478 | completed, given up from the fifth attempt on, else retry: decided by the worker's own attempt count, while the stored one stays |
| `EmbeddingStore.EmbeddingTables.EnqueueEmbedding` | knowledge/sqlstore.go:440-444 | a new job is pending; an existing one becomes pending unless completed and keeps its attempts |
| `EmbeddingStore.EmbeddingTables.QueueEmbeddings` | knowledge/sqlstore.go:489-547 | makes pending, with a fresh job, exactly the live versions with a row that the mode is about, all of them or those without a vector, not configured or failed; keeps everything else and reports how many |
| `EmbeddingStore.EmbeddingTables.EmbeddingBacklog` | knowledge/sqlstore.go:479-483 | counts the pending, retry and running jobs; while the tables agree, the count is zero if and only if no row of the workspace is pending |
| `EmbeddingStore.RequeueImported` | knowledge/service.go:563-570 | the loop after an import is the re-marking of the specification |
| `EmbeddingStore.InsertImportedRows` | knowledge/sqlstore.go:418-432 | the puts of an import add the exported rows that are new and enqueue a job for those exported as pending |
| `EmbeddingStore.ImportedMemories` | knowledge/service.go:556-572 | puts and re-marking together are the import of the specification, with and without an embedder |
| `EmbeddingStore.WorkerIteration` | knowledge/service.go:55-69 | one turn of the worker loop does nothing, or is one whole iteration on one due job |
| `ContextAssembly.Context` | knowledge/service.go:444-530 | the four loops over shared counters compute the four passes of the specification, and no list holds a memory of another type |
| `ContextAssembly.ListsHoldTheirKinds` | knowledge/service.go:473-486 | for every request, instructions, decisions, facts and episodes each hold memories of their own type only |
| `ContextAnswers.OneArtifactExactly` | knowledge/service.go:449-511 | for one artifact the whole answer and its omission: listed when a selector has its id or its version, or when it is relevant, and its cost fits the budget, or half of it for an unselected one; 12000 tokens without a budget, a quarter of the characters as cost |
| `ContextAnswers.OneMemoryExactly` | knowledge/service.go:465-529 | for one memory of any type and size the whole answer and its omission: an episode within a fifth of the budget, anything else within the budget, each in the list of its type |
| `ContextAnswers.RoomyDurablesExactly` | knowledge/service.go:465-488 | with a budget for everything given, the decisions and the facts of the context are exactly the ranked ones, in rank order, and an instruction is in it if and only if none with its key ranks before it |
| `ContextAnswers.RoomyArtifactsAndEpisodesExactly` | knowledge/service.go:449-528 | with room in every budget the artifacts are the selected ones, then the relevant ones, and the episodes all those ranked, each in the order given |
| `ContextAnswers.RelevantExactly` | knowledge/service.go:600-684 | an artifact is relevant if and only if it is related, the query has no words, or its text contains one of them |
| `ContextLaws.BudgetsHoldAndNothingOmittedFits` | knowledge/service.go:444-530 | used stays within the budget, episodes within a fifth, artifacts within a half once an unselected one is in; everything omitted for a budget still does not fit at the end |
| `ContextLaws.EstimateIsExactUpToForeignTypes` | knowledge/service.go:472-487 | the estimate is the summed cost of the listed items plus that of memories of unknown type; it is exact if and only if there are none among those charged |
| `ContextLaws.EstimateExactForEveryBudget` | knowledge/service.go:472-529 | the estimate is exact for every budget if and only if no ranked memory has a type outside the four |
| `ContextLaws.EveryItemIsAdmittedOrOmittedOnce` | knowledge/service.go:449-528 | each artifact and each memory occurs in answer and omissions together exactly as often as in the input, but for charged memories of unknown type |
| `ContextLaws.LegalTypesAreExact` | knowledge/service.go:449-529 | for the four legal memory types estimate and partition are exact |
| `ContextLaws.OverridesFollowRank` | knowledge/service.go:473-481 | at most one instruction is kept for each semantic key, and it ranks ahead of every instruction it overrides |
| `InstructionOverride.InstructionKeptExactly` | knowledge/service.go:473-481 | with room for everything an instruction is kept if and only if none with its semantic key ranks before it |
| `InstructionOverride.RivalKeptExactly` | knowledge/service.go:439-481 | of two instructions with one key, in a request within limit and budget, the context keeps exactly the one that outranks the other |
| `InstructionOverride.SpecificInstructionKeptExactly` | knowledge/service.go:656 | the more specific of two otherwise equal instructions replaces the broader one if and only if the gain of its scope, which is positive, and of its rank exceeds .05 times the surplus of the broader one in importance and confidence, or equals it and version, time and id decide so |
| `InstructionOverride.BroaderInstructionPrevails` | knowledge/retrieval.go:142-146 | a concrete context in which the instruction of the root scope overrides that of the leaf scope |
| `InstructionOverride.LeafExpands` | knowledge/sqlstore.go:247-272 | the scopes of that context are the expansion of the leaf |
| `ContextLaws.ListsKeepTheirOrder` | knowledge/service.go:449-528 | every list of the answer keeps input order, explicitly selected artifacts first |
| `ContextLaws.EpisodesDoNotInterfere` | knowledge/service.go:512-528 | two runs that differ only in episodes give the same artifacts, instructions, decisions and facts |
| `ContextLaws.OrdinaryArtifactsDoNotInterfere` | knowledge/service.go:449-488 | two runs that differ only in artifacts not explicitly selected admit the same durable memories |
| `ContextService.Serve` | knowledge/service.go:439 | retrieval, reranking and assembly composed answer with the specified context of a ranking, the only one there is |
| `ContextService.ContextIsDetermined` | knowledge/service.go:439-530 | with clock and provider reply fixed the whole context is the same for every iteration order of the maps |
| `ContextService.ReplyKeepsMembers` | knowledge/retrieval.go:217-265 | a response whose limit spares the first twelve holds the same memories with any reply as without one |
| `ContextService.ReplyOnlyReorders` | knowledge/service.go:439 | whatever the provider replies, the assembly receives the same memories, each as often, as without a reply |
| `ContextService.ReplyKeepsTheAccount` | knowledge/service.go:439-529 | for the four legal types, each memory is admitted or omitted equally often under any two replies of the provider |
| `EpisodeRecency.DurablesKeepTheirOrder` | knowledge/retrieval.go:114-153 | two requests that differ only in when their episodes were updated rank the same durable memories with the same scores in the same order |
| `Retrieval.PlaceIsNumberAhead` | knowledge/retrieval.go:195-208 | a result stands behind as many others as there are kept candidates that outrank it: its place is counted over the candidates, not read off the list |
| `EpisodeRecency.ReturnedAtExactly` | knowledge/retrieval.go:175-177 | at given ages a durable memory is returned if and only if fewer candidates than the limit are ahead of it, with any reranker when the limit spares its twelve |
| `EpisodeRecency.ReturnedAtAllAgesExactly` | knowledge/retrieval.go:138-146 | a durable memory is returned at all ages if and only if the durable candidates ahead of it and the episodes that full recency would lift ahead of it are together fewer than the limit |
| `EpisodeRecency.ReturnedAtSomeAgeExactly` | knowledge/retrieval.go:138-146 | it is returned at some age if and only if that holds with the episodes that are ahead of it even without recency |
| `EpisodeRecency.DisplacedExactly` | knowledge/retrieval.go:175-177 | the ages decide whether it is returned if and only if the limit falls between these two counts |
| `EpisodeRecency.DurablesReceivedAlikeExactly` | knowledge/service.go:439 | without a reranker the assembly receives the same durable memories in the same order at all ages if and only if the limit of a hundred falls between the two counts of none of them |
| `EpisodeRecency.FewCandidatesAreUndisturbed` | knowledge/retrieval.go:44 | as many hits and scores as the two searches are documented to return leave a context undisturbed |
| `EpisodeRecency.RerankerOnlyReorders` | knowledge/service.go:439 | a reranker, whatever it replies, changes for an undisturbed request only the order in which the durable memories are received |
| `EpisodeRecency.SentAtAllAgesExactly` | knowledge/retrieval.go:217-232 | a durable memory is sent to the provider at all ages under the same condition with the limit twelve |
| `EpisodeRecency.EpisodeAgesDoNotInterfere` | knowledge/service.go:439-530 | for an undisturbed request without a reranker, the ages of the episodes influence no artifact, instruction, decision or fact of a context |
| `EpisodeRecency.NewEpisodeDisplaces` | knowledge/retrieval.go:138-146 | a concrete request with limit one that returns an instruction, or a decision, while the episode found after it is old, and not once it is new |
| `ScopeClosure.CreatedIsWellFounded` | knowledge/service.go:112-116 | every scope graph built by creations with ids disjoint from keys has unambiguous references and parents older than children, so the walk terminates |
| `ScopeClosure.WellFoundedExactlyWhenDisjoint` | knowledge/sqlstore.go:239 | created scopes are well-founded if and only if no id is another scope's key |
| `ScopeClosure.WellFoundedExactlyWhenRanked` | knowledge/sqlstore.go:251-265 | in whatever order the rows were inserted, a table is well-founded if and only if references are unambiguous and some rank puts every parent below its child |
| `ScopeLookups.LookupIsDetermined` | knowledge/sqlstore.go:239 | without ambiguity every lookup that returns some matching row returns the same one |
| `ScopeLookups.EveryVisitFinishes` | knowledge/sqlstore.go:251-265 | without ambiguity the walk finishes with the specified result for every such lookup, nested no deeper than the number of scopes created up to its target |
| `ScopeLookups.EveryWalkEndsExactly` | knowledge/sqlstore.go:251-265 | for every table, all walks end, with every lookup that returns some matching row, if and only if no set of rows has all its parent references matched within the set |
| `ScopeLookups.WellFoundedExactlyWhenWalksEnd` | knowledge/sqlstore.go:251-265 | where references are unambiguous and parents exist, a table is well-founded if and only if all walks end |
| `ScopeLookups.PermutedExpandsAlike` | knowledge/sqlstore.go:942-950 | whatever order an import inserts the scopes in, children before parents included, every request expands to the same list |
| `ScopeLookups.AmbiguousReferencesNeverEnd` | knowledge/sqlstore.go:251-265 | for every choice of the names there are created scopes and a lookup for which the walk is still running at every depth |
| `ScopeClosure.AncestorWalk.Expand` | knowledge/sqlstore.go:252-265 | the recursive closure over captured variables is the specified visit, with its not-found error |
| `ScopeClosure.Ancestors` | knowledge/sqlstore.go:247-272 | the loop over the request computes the specified expansion |
| `ScopeClosure.WalkListsTheClosure` | knowledge/sqlstore.go:247-272 | the expansion lists exactly the requested scopes and their ancestors, each after its parent |
| `ScopeClosure.VisitAddsClosure` | knowledge/sqlstore.go:251-265 | one visit keeps what was listed and adds exactly the closure of its target |
| `ScopeClosure.UnknownReferenceFails` | knowledge/sqlstore.go:255-258 | a non-empty reference that selects nothing makes the whole expansion fail |
| `ScopeClosure.ExpandsExactly` | knowledge/sqlstore.go:251-271 | a request expands if and only if each of its references is empty or the id or key of a scope; the empty ones make no difference |
| `ScopeClosure.NoDuplicatesExactly` | knowledge/sqlstore.go:252-262 | with parents stored by id, the expansion has no duplicates if and only if no reference by key names a scope that is already listed |
| `ScopeClosure.IdRequestsAreDistinctExactlyWhenParentsAreById` | knowledge/sqlstore.go:252-262 | requests by id never bring duplicates if and only if all parents are stored by id |
| `ScopeClosure.KeyParentRepeats` | knowledge/sqlstore.go:252-262 | a parent stored by key is listed again by every request in which it is already listed when its child is asked for first |
| `ScopeClosure.ExpansionIsIdempotentExactly` | knowledge/service.go:412-418 | with parents stored by id, expanding twice, as a context request does, changes nothing if and only if no reference by key names a scope that is already listed |
| `ScopeClosure.IdRequestsExpandOnceExactlyWhenParentsAreById` | knowledge/service.go:412-418 | all requests by id expand the same a second time if and only if all parents are stored by id |
| `ScopeClosure.KeyParentExpandsTwice` | knowledge/service.go:412-418 | a scope whose parent is stored by key expands to its closure, and that closure to something else |
| `ScopeLookups.KeyParentComesTwice` | knowledge/service.go:412-418 | two creations for which the request of the child expands to [p, c] and this to [p, p, c] |
| `ScopeClosure.SpecificScopesScoreHigher` | knowledge/service.go:614-624 | in every expansion a scope scores strictly higher than each of its ancestors |
| `Retrieval.OutranksIsStrictTotal` | knowledge/retrieval.go:195-208 | the comparator is asymmetric, transitive and total on results with distinct ids |
| `Retrieval.CloserIsStrictTotal` | knowledge/retrieval.go:92-97 | the semantic order is strict and total on the scored ids |
| `Retrieval.SortedPositionIsRank` | knowledge/retrieval.go:98-101 | the position in the sorted id list is the number of closer ids: semantic ranks are unique and independent of map iteration |
| `Retrieval.RankingIsDetermined` | knowledge/retrieval.go:80-153 | the request alone determines the ranked list, for every iteration order of the maps |
| `Retrieval.RankingHasDistinctIds` | knowledge/retrieval.go:122-152 | every memory appears at most once |
| `RetrievalLaws.CandidatesExactly` | knowledge/retrieval.go:80-113 | a memory is a candidate if and only if it is the last active, in-scope, currently valid lexical hit with its id, or there is none and it is the scored, usable current version |
| `RetrievalLaws.ResultsExactly` | knowledge/retrieval.go:120-130 | a candidate is returned if and only if it has the one subject that the query names, if it names exactly one, and, if entities were asked for or exactly one was resolved, is related to one of these entities or mentions one of their names |
| `RetrievalLaws.EntitiesExactly` | knowledge/retrieval.go:51-61 | the entities of a request are the resolved ones and those asked for that exist and were not resolved |
| `RetrievalLaws.ScoreExactly` | knowledge/retrieval.go:131-146 | the score of every result from its places in the two searches, entity, scope, importance, confidence and age, with all weights |
| `RetrievalLaws.OrderExactly` | knowledge/retrieval.go:195-208 | of two results the earlier one has the higher score, or an equal one and the higher version, or the later update, or the smaller id |
| `Retrieval.AnyCasingFiltersAlike` | knowledge/retrieval.go:120-126 | the subject filter decides the same whichever casing of the subject was picked |
| `Retrieval.CanonicalCandidateSubject` | knowledge/retrieval.go:313-329 | the subject is empty unless the query names exactly one subject, and then is some casing of it |
| `Retrieval.BetterLexicalRankComesFirst` | knowledge/retrieval.go:131-153 | between otherwise equal memories the one that the lexical search found earlier is listed first |
| `Retrieval.LexicalRankPrevailsExactly` | knowledge/retrieval.go:142-153 | between otherwise equal memories the better lexical rank comes first if and only if its weighted gain exceeds .05 times the surplus of the other in importance and confidence, or equals it and version, update time and id decide so |
| `Retrieval.ImportanceOutweighsRank` | knowledge/retrieval.go:142-146 | a concrete request whose second lexical hit is listed first for its importance |
| `Retrieval.ScoresAreBounded` | knowledge/retrieval.go:142-146 | scores lie in [0, 1.05], and in [0, 1] for everything but episodes |
| `Retrieval.DominantComesFirst` | knowledge/retrieval.go:131-153 | a result at least as good in every component and better in one that counts is listed first |
| `Retrieval.SpecificScopeComesFirst` | knowledge/retrieval.go:137-146 | between otherwise equal memories the one from the more specific scope is listed first |
| `Retrieval.LexicalCandidates` | knowledge/retrieval.go:80-87 | eligible lexical hits with the rank of their last occurrence |
| `Retrieval.SemanticRanks` | knowledge/retrieval.go:88-101 | semantic ids with the specified ranks, whatever order the map yields them in |
| `Retrieval.AddSemanticCandidates` | knowledge/retrieval.go:99-113 | the candidates are the lexical hits plus the eligible current memories of the remaining semantic ids |
| `Retrieval.RankCandidates` | knowledge/retrieval.go:120-153 | filtering, scoring and sorting yield the ranking, whose members, order and scores are those of `RetrievalLaws` |
| `Retrieval.RetrieveMemories` | knowledge/retrieval.go:80-153 | the whole pass yields the ranking: sorted, and exactly the kept candidates with their scores |
| `Rerank.MaybeRerank` | knowledge/retrieval.go:210-268 | a reply is applied if and only if it is asked for and its ids are non-empty, distinct and among the first twelve; order, scores, reason and every explanation afterwards are exactly as specified |
| `RerankLaws.ReasonExactly` | knowledge/retrieval.go:210-263 | which reason is reported, and thereby when the provider is asked and its reply used, over mode, configuration, the first two results and the ids of the reply |
| `RerankLaws.ScoresAfterReply` | knowledge/retrieval.go:246-265 | a used reply puts the result of its i-th id at place i with .7 times the reciprocal rank plus .3 times the old score, and keeps the scores of the others |
| `RerankLaws.AmbiguousExactly` | knowledge/retrieval.go:167-169 | a response is ambiguous if and only if no entity was asked for and several were resolved or durable results have different subjects none of which is in the query |
| `RerankLaws.ResponseIsCut` | knowledge/retrieval.go:167-178 | a response is the start, of the length of the limit, of the ranking or of the reordered ranking |
| `RerankLaws.ExplanationExactly` | knowledge/retrieval.go:147-151 | the explanation of a result names each component of its score |
| `Rerank.AcceptableExactlyWhenAllValid` | knowledge/retrieval.go:243-259 | the incremental check with a set of seen ids accepts exactly the non-empty lists of distinct candidate ids |
| `Rerank.ReplyComesFirst` | knowledge/retrieval.go:244-265 | after an accepted reply its ids come first in its order, all others follow in their old order |
| `Rerank.AcceptedReplyPermutes` | knowledge/retrieval.go:246-265 | whatever the provider says, no memory is lost, added, altered or repeated |
| `Rerank.OnlyTheFrontMoves` | knowledge/retrieval.go:217-265 | a reply permutes the first twelve results among themselves and leaves the rest in place |
| `Rerank.NotesAfterExact` | knowledge/retrieval.go:252 | only the key reranker of results named in the valid part of the reply changes |
| `Rerank.RejectedReplyLeavesATraceExactly` | knowledge/retrieval.go:247-255 | a rejected reply changes some explanation if and only if the provider was asked and its first id is a candidate |
| `Rerank.RepeatedIdLeavesATrace` | knowledge/retrieval.go:243-255 | three results and a reply naming the first twice: it is rejected, the order stays, and the first explanation is written |
| `Rerank.AmbiguousCandidateSubjects` | knowledge/retrieval.go:294-311 | the loop with its early exit decides whether several durable subjects compete and none is named by the query |
| `Rerank.NamedSubjectSettlesAmbiguity` | knowledge/retrieval.go:167-169 | when the query names exactly one subject the result is never ambiguous by subject |
| `Rerank.ResponseIsDetermined` | knowledge/retrieval.go:80-179 | with clock and provider reply fixed the whole response is the same for every iteration order |
| `Rerank.RerankExplained` | knowledge/retrieval.go:252 | reranking never changes what an explanation says about the retrieval |
| `Rerank.RetrieveAndRerank` | knowledge/retrieval.go:80-179 | ranking, ambiguity test, reranking and truncation together, with every result explained by its own components |
| `RateLimit.Server.Allow` | server/http.go:277-291 | the first request, and one a minute or more after the window began, begin a window and are allowed; any other is allowed if and only if fewer than 600 came before it in the window |
| `RateLimit.WindowDependsOnOwnRequests` | server/http.go:284-289 | a key's window after any run depends on that key's own requests only |
| `RateLimit.KeysDoNotAffectEachOther` | server/http.go:277-291 | the answer to a request is the one it would get if no other key existed |
| `RateLimit.SlidingBound` | server/http.go:285-290 | every interval of a minute, its end excluded, admits at most 1199 requests of a key |
| `RateLimit.SlidingBoundIsReached` | server/http.go:285-290 | some run admits 1199 requests of a key within such an interval |
| `RateLimit.AllowanceBounds` | server/http.go:285-290 | from any state, no continuation admits more in the next minute than 600 plus what the key's open window has left, or 600 without one |
| `RateLimit.AllowanceIsReached` | server/http.go:285-290 | from every state some continuation admits exactly that many |
| `RateLimit.LimitHoldsForTheNextMinuteExactly` | server/http.go:285-290 | all continuations admit at most 600 in the next minute if and only if no window of the key is open or the open one is exhausted |
| `Numerics.ComputeSqrt` | knowledge/sqlstore.go:1165-1174 | the loop with its early exit computes twenty rounds |
| `Numerics.EstimateOverestimates` | knowledge/sqlstore.go:1165-1174 | for positive input no round divides by zero, and every round after the start is at least the root |
| `Numerics.SqrtIsAccurate` | knowledge/sqlstore.go:1165-1174 | for v = s * s the result z satisfies 0 <= z - s <= (1 - s)^2 / 2^20 |
| `Numerics.CosineIsAccurate` | knowledge/sqlstore.go:1150-1174 | two-sided: the similarity lies between the true cosine and the quotient by norms too large by at most (1 - s)^2 / 2^20 each |
| `Numerics.EstimateFloor` | knowledge/sqlstore.go:1166-1173 | n rounds cannot go below (1 + v) / 2^n |
| `Numerics.CauchySchwarz` | knowledge/sqlstore.go:1155-1159 | the squared inner product is at most the product of the squared norms, for vectors of any length |
| `Numerics.ComputeCosine` | knowledge/sqlstore.go:1150-1164 | the one-pass loop computes the specified similarity without dividing by zero |
| `Numerics.CosineIsBoundedAndSymmetric` | knowledge/sqlstore.go:1150-1164 | the similarity lies in [-1, 1] and is symmetric, for all inputs including mismatched and zero vectors |
| `Numerics.CosineSign` | knowledge/sqlstore.go:1163 | for vectors of one length the similarity is positive, zero or negative exactly as the inner product is |
| `Numerics.UnitVectorsAreExact` | knowledge/sqlstore.go:1163 | on unit vectors the similarity is exactly the inner product |
| `Numerics.FullSelfSimilarityExactly` | knowledge/sqlstore.go:1150-1174 | a vector has similarity 1 to itself if and only if its squared length is 1, and never more than 1 |
| `Numerics.TinyVectorIsUnlikeItself` | knowledge/sqlstore.go:1165-1174 | the vector of the single component 10^-9 has a similarity to itself below .00001 |
| `TimeText.PadOrder` | knowledge/sqlstore.go:163-168 | in a field of fixed width text order is numeric order |
| `TimeText.TrimZerosExact` | knowledge/sqlstore.go:163-168 | exactly the trailing zeros of the fraction are dropped |
| `TimeText.EarlierExactly` | knowledge/sqlstore.go:163-168 | the time order of the model is the order of year, month, day, hour, minute, second and nanosecond |
| `TimeText.StampExactly` | knowledge/sqlstore.go:163-168 | the stored text starts with year, month, day, hour, minute and second, in that order with their marks |
| `TimeText.TailExactly` | knowledge/sqlstore.go:163-168 | it ends with Z, after a point and the trimmed fraction unless the second is full |
| `TimeText.PadExactly` | knowledge/sqlstore.go:163-168 | every digit of a padded number is the one of its power of ten |
| `TimeText.TextOrderIsTimeOrderExactly` | knowledge/sqlstore.go:837 | for a before b the stored texts are in the same order except exactly when both lie in one second and a's trimmed fraction is a proper prefix of b's; then they are reversed |
| `TimeText.TextIsInjective` | knowledge/sqlstore.go:186 | different instants have different texts |
| `TimeText.WholeSecondIsReversedWithEveryFraction` | knowledge/sqlstore.go:163-168 | a whole second sorts behind every later instant of that second |
| `TimeText.ComparisonsAgreeExactly` | knowledge/sqlstore.go:684 | comparing texts decides like comparing instants if and only if the pair is not reversed in either direction |
| `TimeText.WindowsAgree` | knowledge/retrieval.go:181-186 | off reversed pairs the validity filter of the search query is the one retrieval applies again |
| `TimeText.JustValidIsMissedExactly` | knowledge/sqlstore.go:684 | a memory that became valid before now is missed by the query if and only if that pair is reversed |
| `TimeText.ListingIsStrictTotal` | knowledge/sqlstore.go:837 | the listing is a strict order, total on events with different ids, and lists events of one instant by id |
| `TimeText.ListingIsChronologicalExactly` | knowledge/sqlstore.go:836-837 | the event listing is in time order if and only if no later entry is the reversed partner of an earlier one |
| `QueryText.QuoteTerms` | knowledge/sqlstore.go:673-679 | the loop that quotes the fields in place builds the specified match string |
| `QueryText.MatchStringRoundTrips` | knowledge/sqlstore.go:675-679 | the engine reads the match string as exactly the given fields as prefix phrases, whatever quotes or operators they contain |
| `QueryText.QueryRoundTrips` | knowledge/sqlstore.go:671-679 | for every non-blank query the engine sees a non-empty disjunction of exactly its whitespace fields |
| `QueryText.PhrasesExactly` | knowledge/sqlstore.go:671-679 | these fields are exactly the stretches between white space |
| `QueryText.PostgresTSQuery` | knowledge/sqlstore.go:1189-1203 | the loop with its set of seen words computes the specified query |
| `QueryText.TSQueryTermsExact` | knowledge/sqlstore.go:1189-1203 | read back, the query consists of distinct terms, exactly the words of the prompt |
| `QueryText.TSQueryExactly` | knowledge/sqlstore.go:1189-1203 | the query joins distinct terms with their prefix marks; a string is one of them if and only if it is a maximal stretch of letters and digits of the prompt in lower case |
| `QueryText.DedupKeepsFirstOccurrences` | knowledge/sqlstore.go:1195-1201 | terms appear in the order of their first occurrences |
| `QueryText.TSQueryIsIdempotent` | knowledge/sqlstore.go:1189-1203 | printing a printed query changes nothing |
| `TextLaws.LowerExactly` | knowledge/retrieval.go:281-292 | lower case changes the capital letters and nothing else |
| `TextLaws.TrimSpaceExactly` | knowledge/retrieval.go:281-292 | trimming removes exactly the leading and the trailing white space |
| `TextLaws.ContainsExactly` | knowledge/retrieval.go:281-292 | a string contains another if and only if it is that one with something before and after it |
| `TextLaws.FieldsAreRuns` | knowledge/sqlstore.go:674 | the fields of a string are exactly its maximal stretches without separators |
| `TextLaws.JoinExactly` | knowledge/sqlstore.go:679 | joining puts the separator between the parts and nowhere else |
| `Ordering.TextLessExactly` | knowledge/retrieval.go:92-97 | strings are ordered by the first place where they differ, a proper start before the longer string |

## Left out

- SQL text, drivers, migrations, pgvector, BM25 and `ts_rank`: a search is an arbitrary list of hits, and a semantic search an arbitrary map of scores.
- HTTP routing, authorization, JSON decoding and the client: plumbing without state of its own.
- Providers: embedder and reranker replies are arbitrary values or failures; their timeouts are failures.
- SHA-256, JSON and the random ids: the checksum comparison is a boolean of the snapshot, payloads are rows, ids are arbitrary.
- Floating point: scores, weights and vectors are reals, so rounding and NaN are not modelled.
- Unicode: case folding, letters and digits, and spaces are those of ASCII.
- Field validation and defaults: single-branch facts of the write methods; what later code needs of them is a premise, such as `Rated`.
- `entity_fts`: written but never queried.
- Columns of a row other than identity, version, indexed text and embedding state are one opaque content.
- Job text, `available_at` and the order in which due jobs are selected: a claim takes any due job, chosen by a parameter.
- A state change that first reads an object and then versions the copy: a version's content is arbitrary in the model, so it covers that copy without saying where it came from.
- What a repeated write returns to its caller: only its effect on the tables, which is none, is modelled.
- Rebuilds that run concurrently with writers.
- Artifact reasons and the metadata of responses, such as latencies and weights.
- Instants are UTC calendar fields in the years 0 to 9999; the conversion from clock readings is not modelled.
- `SqlStore.SQLStore.RebuildProjections`: for rows of the five known kinds, the only ones that any put can insert.
- `ScopeClosure.WalkListsTheClosure`: for references that select a scope; `ScopeClosure.ExpandsExactly` covers empty and unknown ones.
- `InstructionOverride.SpecificInstructionKeptExactly`: for two instructions that differ in nothing else, without a reranker and where limit and budget cut nothing; `ContextLaws.OverridesFollowRank` covers every request, as far as the kept instruction ranks first.
- `RetrievalLaws.ResultsExactly`: for entity lookups that return the entity with the id asked for, as the query does.
- `WorkspaceIsolation.EveryRunIsIsolated`: where event ids and scope ids of different workspaces do not collide; those two are unique across the whole store, so a collision is refused.
- `EmbeddingClaims.ClaimsAreBounded`: without backfills or re-imports during the run, which reset attempts and so would start the count again.
