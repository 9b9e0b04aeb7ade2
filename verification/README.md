# Forge: a verified model of its ordering, locking, delivery and lifecycle logic

Forge plans and installs packages for coding agents. This project models the parts of it whose correctness is an
argument over many steps, and proves that argument with Dafny: the dependency resolver, the lock and the crash-safe
write of scope files, the outbox with its workers, retries and effect ledger, the install lifecycle of a plan, the
security-governance machines (canonical JSON, nonces, trust gate, enforcement), the catalog merge and the retrieval
sync. `dafny verify dfyconfig.toml` checks all of it.

## How the model is laid out

| part | files |
|---|---|
| shared | `JsText` (strings as UTF-16 code units, in the order `sort()` uses), `Sorting` (stable sort and filter), `TieOrder` (when the order of an input shows in its sort) |
| dependency resolver | `DependencyOrder` (what an install order and a cycle are), `DependencyGraph` (the algorithm) |
| scope files | `ScopeFiles` (what a request does to a file), `ScopeLock` (interleaved calls), `AtomicWrite` (failing disk calls) |
| canonical JSON | `JsNumbers`, `JsonStrings`, `CanonicalJson` (the printer), `CanonicalSame` (which values print alike), `JsonReader` (reading the text back) |
| outbox | `OutboxTable` (SQL statements), `OutboxProtocol`, `OutboxSafety`, `OutboxEffects` and `OutboxRows` (any interleaving: the invariant and what follows, the effects, the rows), `OutboxRun` and `OutboxRetries` (one processor, whole runs) |
| install lifecycle | `InstallActions` (planning and running actions), `InstallLifecycle` (the service), `LifecycleSafety` and `LifecycleHistory` (runs: what holds, and what callers see) |
| governance | `NonceGuard`, `NonceHistory` and `NonceProtocol` (one submit, several in a row, and interleaved ones), `TrustGate`, `Enforcement` and `EnforcementProtocol` (the projection, and interleaved appends) |
| catalog and search | `MergePrecedence`, `CatalogIngest`, `CatalogFields` (the record from the candidates' fields), `CatalogOrder` (when the order of the candidates shows), `RetrievalSync`, `RetrievalFields` (one run from its arguments) |

Code that changes state step by step is a class or a loop proved against a specification function; the theorems are
about that function. Protocols with several actors are state machines: a `Step` datatype, `Enabled`, `Apply`, a run as a
sequence of states or of steps, and an invariant kept by every step of every run. Each awaited call is a step of its own.
Beside these, each main operation is described from its inputs and its history alone, without the functions it is
specified by: `RepliesFollowHistory`, `OutcomeFollowsHistory`, `StateFromHistory`, `RolloutFollowsSnapshots`,
`HandlerAlone`, `RowChanges`, `LeaderDecides`, `AliasesFromFields`, `RunFromArguments`, `CanonicalReadsBack`.

## What the proofs found

Where the code does not do what one would expect, the code is kept and the exact condition is proved.

- An arrow inside a package id makes two edges share the key `from→to`, so the second is dropped as a duplicate even when
  it is required (`ArrowCollisionDropsEdge`). Two edges share a key exactly when they name the same pair or the text of one
  is that of the other cut at another arrow (`EdgeKeysEqualIff`, `DuplicateIff`).
- Fields whose keys tie under `localeCompare` print in insertion order. The text of an object is independent of that order
  exactly when any two of its fields that tie print the same member (`OrderIrrelevantIff`).
- `fileExists` takes any failing `access` call for a missing file. A write whose read is misled so replaces a foreign file,
  or every other package's entries, and succeeds; a removal succeeds and leaves the package in place
  (`MisledReadLosesFile`, `MisledApplyTakesOver`, `MisledRemoveLeavesPackage`). No update is lost exactly when no committed
  call was misled where it had something to miss (`UpdatesKeptIff`); others' content survives a plan's whole life exactly when
  no write of a file with something to lose was misled (`RunRespectsOthers`), and a removal does its work in a file exactly
  when one of its reads there was truthful (`SuccessReachesEveryScope`).
- A restore after a failed scope write is always reported as `scope_write_failed`, never as `scope_write_rolled_back`,
  because the throw sits inside the guarded block (`WriteFileAtomically`).
- The duplicate branch of the outbox processor is never taken against the PostgreSQL store (`NeverADuplicate`). Events the
  dispatcher does not list, such as those of update, remove and rollback, can never be completed
  (`UnsupportedNeverCompletes`); apply, verify and plan events are listed.
- A completed outbox row stays completed in every run in which `markProcessed` and `markCompleted` do not throw for it
  (`CompletedIsFinal`). Their errors are caught like those of the dispatch, so such a throw loses the status exactly when it
  leaves the row completed and the worker's `markFailed` takes effect on it next (`CompletionLostIff`,
  `ThrowRetriesCompleted`); the recorded effects survive that (`EffectsAreFinal`). A row whose worker crashed stays in
  processing for ever: nothing claims or replays it (`CrashOrphans`, `OrphanedForever`).
- A ranking event completes without a sync only when its handler was once started without a package (`CompletedHasItsEffect`,
  `PackageMeansSynced`).
- A restoring rollback that fails turns the next rollback into a cleanup (`FailedRestoreTurnsIntoCleanup`): a rollback
  restores exactly when the last call that was carried out is a removal (`RollbackModeFollowsHistory`). Verify has no
  status guard, so it opens update and remove and closes rollback in every state (`VerifyLiftsGuards`). A plan that
  policy blocked never changes a file (`BlockedPlanWritesNothing`), yet it is in `apply_succeeded` after a call exactly when
  the call is an update that its guard lets through, or it was there already and the call threw (`BlockedSucceedsIff`); the
  guard lets one through only after a verify (`BlockedUpdateNeedsVerify`).
- The steps of several submits interleave, and neither the store nor the code locks a nonce. A signed request passes at most
  once exactly when the time to live exceeds twice the skew, calls of one key do not overlap between lookup and store, and no
  call is overtaken before its lookup by the purge of a later one (`ProtectedIff`; two copies in flight both pass whatever
  the time to live, `OverlapPassesTwice`). For submits one after another the first condition alone decides
  (`ReplayProtectionIff`).
- The limit on active nonces bounds the stored ones of submits one after another (`StorageBounded`). Interleaved, with at most
  m calls between count and store at a time, they exceed it by at most m - 1 (`InFlightBound`, `StoredIsFresh`), which is
  reached for every limit and m (`InFlightBoundIsLeast`), and without a bound on these calls the limit bounds nothing
  (`LimitExceeded`).
- Two interleaved appends can leave a projection that misses the newer action, a permanent block included (`BlockIsLost`),
  and so can one append that fails before its upsert (`BreakLosesBlock`). The projection is always current once all calls are
  finished exactly when none upserts what it listed before another one's append and none fails between its own append and
  its upsert (`AlwaysCurrentIff`). In any run the stored state is current exactly when no live action its writer did not
  list is stricter and some live action still has it, or it is none; the whole projection, exactly when nothing is live or
  the action that leads the whole history gives its state and reason (`ShownIsCurrentIff`).
- The trust gate reads twelve decisions: its streaks are exact up to thirteen required windows, and with more nothing is
  ever promoted (`ReadinessIsExact`, `TooManyWindowsNeverPromote`).
- The rollout adjustment is meant to weaken a state; it strengthens `reinstated` to `flagged` for non-raw sources in
  raw-only mode, and nothing else (`RolloutStrengthensIff`).
- The index stays stale when the state write of a new version fails and the package goes back to its old version
  (`RevertLeavesIndexStale`); `PassAgreesIff` says exactly which packages a full pass leaves right. Ids outside the versions
  `isUuid` knows are written again in every pass (`SecondPassUpserts`). A package list in which no id is recognised means
  the whole catalog (`UnrecognisedMeansEverything`), and one longer than the limit is cut without a cursor
  (`ChosenCoveredIff`).
- The ingest result can depend on the order of two tied catalog candidates of one source (`TiedSourcesMatter`). It does not
  exactly when they agree on identity, path, tool kind and repository, on the stamp and value of each ordinary field that
  both give, and on the order in which they bring what ties: the slugs, the tags of one class that fit among the first 25,
  and the first aliases of least source (`TiedPairIff`). Of any number of candidates, an ordinary field, the last update, the
  slug and what is taken from the first candidate come out the same in every order exactly when all candidates that can
  decide them agree (`FieldFixedIff`, `DateFixedIff`, `SlugFixedIff`, `PivotFixedIff`).

## Assumptions

- `localeCompare`, NFC normalisation, lower-casing, `Date.parse` and SHA-256 are parameters. Where an order is needed,
  `localeCompare` is taken to be a total preorder; package ids are lower-case UUIDs, on which it is the code-unit order.
  Finite numbers are given by their shortest decimal digits, as ECMAScript prints them. Rates and thresholds are reals.
- Nobody else writes the scope files while a call holds its lock, and a failed `rename` has no effect. `access` may fail on
  an existing file; a call that reads a file which is there sees its content or throws.
- Each SQL statement is one atomic step; new outbox rows are pending with no attempts and a key not yet in use. In the
  outbox protocol dispatch, handlers, workers and store calls may fail anywhere, before or after taking effect; in the runs
  of one processor the store's own calls do not throw.
- The PostgreSQL and the in-memory nonce store differ only on records that expire at time 0, and on keys of reporter ids with
  colons (`KeysDiffer`); the model is the in-memory one.
- Enforcement action ids are not repeated. The PostgreSQL store lists by creation time and replaces an action whose id comes
  again (packages/security-governance/src/postgres-adapters.ts:364-420), where the in-memory one appends both; the state does
  not depend on the order of a history (`HistoryOrderIrrelevant`).
- In the lifecycle, database calls succeed and the calls on one plan come one after another; the adapter and its
  discovery results are arbitrary. Plan ids hold no colon.
- Timestamps are integers in milliseconds; a row's `updated_at`, audit rows, log events and message texts are omitted.

## Model

| member | source | states |
|---|---|---|
| `DependencyGraph.ResolveDependencyGraph` | packages/shared-contracts/src/dependency-graph.ts:221-294 | for every input: unknown roots, or a required missing target on any first-occurring edge, fail with exactly those conflicts; otherwise the reachable set is exact, and the result is the lexicographically least dependency-first order or a cycle report |
| `DependencyGraph.ResolvesIff` | packages/shared-contracts/src/dependency-graph.ts:226-293 | ok exactly when all roots are known, no required dependency is missing anywhere, and no cycle is reachable |
| `DependencyGraph.TopologicalSort` | packages/shared-contracts/src/dependency-graph.ts:147-212 | Kahn's loop gives the least install order when it finishes, and otherwise leaves exactly the nodes from which a cycle can be reached |
| `DependencyGraph.CollectReachable` | packages/shared-contracts/src/dependency-graph.ts:117-140 | the breadth-first walk visits each package reachable from the roots over kept edges once and no other |
| `DependencyGraph.BuildAdjacency` | packages/shared-contracts/src/dependency-graph.ts:55-112 | the lists represent exactly the first occurrences with a known target, and the conflicts are those of the edges in order |
| `DependencyGraph.ReverseEdges` | packages/shared-contracts/src/dependency-graph.ts:154-173 | the reverse lists and the in-degrees describe the same dependencies as the adjacency lists |
| `DependencyGraph.Discharge` | packages/shared-contracts/src/dependency-graph.ts:192-202 | taking a package lowers the counts of exactly its dependents and queues those with nothing left to wait for |
| `DependencyGraph.CycleReport` | packages/shared-contracts/src/dependency-graph.ts:205-209 | the report lists every unsorted node once, in sorted order |
| `DependencyGraph.MissingConflictIff` | packages/shared-contracts/src/dependency-graph.ts:71-88 | a missing-dependency conflict exists exactly when the first occurrence of some pair is required and unknown; later duplicates do not count |
| `DependencyGraph.RootConflictsIff` | packages/shared-contracts/src/dependency-graph.ts:228-245 | root conflicts are reported exactly when some root is unknown |
| `DependencyGraph.ConflictsFromInput` | packages/shared-contracts/src/dependency-graph.ts:55-293 | the conflicts of every result, from the input: for unknown roots one each and nothing else; otherwise exactly the duplicates and the missing required targets, and a cycle report only when the resolution fails |
| `DependencyGraph.KeptFromEdges` | packages/shared-contracts/src/dependency-graph.ts:66-112 | the dependencies that count are those of edges that repeat no earlier one's text and have a known target, required or not |
| `DependencyGraph.LeftoverReachesCycle` | packages/shared-contracts/src/dependency-graph.ts:205-207 | when the queue runs dry, a node is unsorted exactly when it can reach a cycle, so dependents of a cycle are included |
| `DependencyGraph.OrderDeterminedByKeptEdges` | packages/shared-contracts/src/dependency-graph.ts:217-219 | any two successful resolutions with the same roots and the same kept dependencies give the same order |
| `DependencyGraph.EdgeKeysEqualIff` | packages/shared-contracts/src/dependency-graph.ts:69-70 | two edges share a key exactly when they name the same pair, or one depending id is the other followed by an arrow and a text that opens the other target |
| `DependencyGraph.DuplicateIff` | packages/shared-contracts/src/dependency-graph.ts:69-79 | an edge is dropped as a duplicate exactly when an earlier one collides with it in that sense |
| `DependencyGraph.DuplicateIffPairRepeats` | packages/shared-contracts/src/dependency-graph.ts:69-79 | so without arrows in depending ids an edge is a duplicate exactly when its pair occurred before |
| `DependencyGraph.ArrowCollisionDropsEdge` | packages/shared-contracts/src/dependency-graph.ts:69-78 | a concrete required edge that is lost because another pair has the same key text |
| `DependencyOrder.GreedyIsLeast` | packages/shared-contracts/src/dependency-graph.ts:186-203 | always taking the least ready package yields the lexicographically least of all install orders |
| `DependencyOrder.LeastInstallOrderUnique` | packages/shared-contracts/src/dependency-graph.ts:217-219 | there is at most one least install order |
| `DependencyOrder.OrderedNeverReachesCycle` | packages/shared-contracts/src/dependency-graph.ts:205-211 | a package placed after all its dependencies cannot reach a cycle |
| `DependencyOrder.StuckReachesCycle` | packages/shared-contracts/src/dependency-graph.ts:205-207 | if every package of a finite set depends on another one of it, each can reach a cycle |
| `ScopeFiles.WriteEffect` | apps/copilot-vscode-adapter/src/index.ts:511-534 | with a truthful read a write succeeds exactly on absent, blank or Forge-owned files, and leaves one entry for the target and every other package's entries in order |
| `ScopeFiles.RemoveEffect` | apps/copilot-vscode-adapter/src/index.ts:536-559 | with a truthful read a removal succeeds on the same files, leaves no entry of the target, all others as they were, and rewrites nothing when there was none |
| `ScopeFiles.RewrittenIsSorted` | apps/copilot-vscode-adapter/src/index.ts:520-529 | any rewritten file is Forge-owned and sorted by package id |
| `ScopeFiles.RefusedIff` | apps/copilot-vscode-adapter/src/index.ts:511-559 | each request is refused with the invalid-text error exactly for a text that is no object, and with the ownership error exactly for a document that lacks one of its three marks |
| `ScopeFiles.EffectFrame` | apps/copilot-vscode-adapter/src/index.ts:190-200 | with a truthful read no request touches a file Forge does not own or another package's entries |
| `ScopeFiles.SucceedsIff` | apps/copilot-vscode-adapter/src/index.ts:202-209 | with any read a request succeeds exactly when the file is Forge's to write or the read was misled |
| `ScopeFiles.RespectsIff` | apps/copilot-vscode-adapter/src/index.ts:202-238 | a request that succeeds harms a foreign file or another package exactly when it is a misled write of a file with something to lose |
| `ScopeFiles.AchievesIff` | apps/copilot-vscode-adapter/src/index.ts:546-548 | a request that succeeds fails to do its work exactly when it is a misled removal of a package that is there |
| `ScopeFiles.DoneAsWantedIff` | apps/copilot-vscode-adapter/src/index.ts:511-559 | on a Forge file a request does what it promises and no more exactly when its read had nothing to miss |
| `ScopeFiles.RemoveUndoesWrite` | apps/copilot-vscode-adapter/src/index.ts:511-559 | removing what was written restores every other package's entries |
| `ScopeLock.RunKeepsInv` | apps/copilot-vscode-adapter/src/index.ts:445-464 | in every state of every interleaving, misled reads included, calls are chained to the last earlier call of their path, lock entries name unfinished last calls, and files hold the serial content |
| `ScopeLock.MutualExclusionInOrder` | apps/copilot-vscode-adapter/src/index.ts:446-458 | a call that has started finds every earlier call on its path finished, so at most one runs and they run in registration order, throws included |
| `ScopeLock.DonePathIsSerial` | apps/copilot-vscode-adapter/src/index.ts:456-463 | once all calls on a path are done the lock map has no entry for it and the file is what its committed calls give one after another |
| `ScopeLock.FileAlwaysSerial` | apps/copilot-vscode-adapter/src/index.ts:511-559 | at every moment a file holds the serial content of the finished calls, perhaps with the running call's effect |
| `ScopeLock.UpdatesKeptIff` | apps/copilot-vscode-adapter/src/index.ts:515-557 | once a path is done, its file has at every stage held what the committed requests ask for, each package's entries being those of the last committed request for it and foreign files untouched, exactly when no committed call was misled where it had something to miss |
| `ScopeLock.NoLostUpdate` | apps/copilot-vscode-adapter/src/index.ts:515-557 | then each package's entries are finally those of the last committed request for it, and files Forge does not own never change |
| `ScopeLock.MisledReadLosesFile` | apps/copilot-vscode-adapter/src/index.ts:202-209 | a run of five steps in which one failing access check replaces any file by the written entry alone |
| `ScopeLock.NeverStuck` | apps/copilot-vscode-adapter/src/index.ts:446-463 | unless all calls are done some call can take a step, whatever has failed |
| `ScopeLock.FinitelyManySteps` | apps/copilot-vscode-adapter/src/index.ts:445-464 | with no new registrations a run ends within a bound computed from the calls' phases |
| `AtomicWrite.WriteFileAtomically` | apps/copilot-vscode-adapter/src/index.ts:305-367 | with every disk call free to fail: each observable state has the old content or exactly the new, other files are untouched, a return leaves the new content only, and after a throw the file holds the new content if the log shows a successful rename of the temporary file and none of the backup, and the old content otherwise |
| `AtomicWrite.Recover` | apps/copilot-vscode-adapter/src/index.ts:336-365 | recovery never commits; the scope file is put back exactly when the log shows a successful rename of the backup, and is as it was otherwise; it always throws the write-failed error |
| `AtomicWrite.Commit` | apps/copilot-vscode-adapter/src/index.ts:331-335 | the scope file changes exactly when the log shows the rename of the temporary file as successful |
| `AtomicWrite.SiblingPathsDiffer` | apps/copilot-vscode-adapter/src/index.ts:311-312 | temporary, backup and scope paths are three different paths |
| `JsNumbers.NumberTextInjective` | packages/security-governance/src/index.ts:155-160 | two finite numbers print the same text exactly when they are equal, negative zero counting as zero |
| `JsonStrings.EscapeDetermined` | packages/security-governance/src/index.ts:151-153 | a quoted string is decoded uniquely, whatever text follows it (escaping as in section 7 of RFC 8259) |
| `CanonicalJson.RenderDetermined` | packages/security-governance/src/index.ts:166-180 | the printed text of a normal form, followed by any text, determines the normal form |
| `CanonicalJson.CanonicalRenders` | packages/security-governance/src/index.ts:146-183 | the printer prints exactly the normal form of its argument |
| `CanonicalJson.CanonicalExact` | packages/security-governance/src/index.ts:146-187 | two values have the same canonical text if and only if they have the same normal form, for all values |
| `CanonicalJson.InsertionOrderIrrelevant` | packages/security-governance/src/index.ts:172-180 | field order does not matter when localeCompare tells the keys apart |
| `CanonicalJson.OrderIrrelevantIff` | packages/security-governance/src/index.ts:172-180 | for every object: all insertion orders print the same text exactly when any two defined fields whose keys tie print the same member |
| `CanonicalJson.SwapIrrelevantIff` | packages/security-governance/src/index.ts:173-175 | two fields can be swapped exactly when their keys do not tie or they print the same member |
| `CanonicalSame.SameTextIff` | packages/security-governance/src/index.ts:146-187 | for all values, from the values alone: the same text exactly when strings agree in NFC form, numbers as numbers, lists item by item, and objects in the keys and values of their sorted defined fields; all that JSON cannot print counts as null |
| `CanonicalSame.SortedEntriesAre` | packages/security-governance/src/index.ts:173-175 | the fields printed are those with a value, sorted by key, in insertion order where keys tie |
| `JsonReader.CanonicalReadsBack` | packages/security-governance/src/index.ts:146-187 | the canonical text is JSON (RFC 8259): a reader of JSON reads it to its end, and gives the normal form of what was printed |
| `JsonReader.EscapedIsWellFormed` | packages/security-governance/src/index.ts:151-153 | whatever string is printed, the text has surrogates in pairs only, so that it has a UTF-8 form to hash |
| `JsonReader.PlainStays` | packages/security-governance/src/index.ts:151-153 | a string with paired surrogates and without control units, quotes and backslashes is printed as it is |
| `JsonReader.NumberReadsBack` | packages/security-governance/src/index.ts:155-160 | the text of a finite number reads back as that number, in all of its forms, negative zero as zero |
| `JsonReader.StringReadsBack` | packages/security-governance/src/index.ts:151-153 | a quoted string reads back as itself by the escapes of section 7 of RFC 8259, whatever follows it |
| `OutboxTable.ReleaseUndoesClaim` | packages/security-governance/src/postgres-job-store.ts:176-189 | giving a claim back restores the row, except that a failed row becomes pending |
| `OutboxProtocol.RunKeepsInv` | packages/security-governance/src/jobs.ts:146-234 | for any number of workers, publishers, requeues, crashes and failing store calls the invariant on holders, phases, attempts and ledger holds in every state |
| `OutboxProtocol.ClaimKeepsInv` | packages/security-governance/src/postgres-job-store.ts:62-90 | a claim takes only rows nobody holds |
| `OutboxProtocol.RequeueKeepsInv` | packages/security-governance/src/dead-letter-requeue.ts:164-221 | dead-letter replay restores a row to pending with no attempts and keeps every other promise |
| `OutboxProtocol.HandleKeepsInv` | packages/security-governance/src/internal-outbox-dispatch-handlers.ts:262-299 | every handler step keeps the account of sync calls against effect rows |
| `OutboxEffects.HandlerAlone` | packages/security-governance/src/internal-outbox-dispatch-handlers.ts:251-296 | from any state, a handler that nothing interrupts throws for an event without a handler and for a ranking event with a package and no executor; otherwise it leaves its effect and the dispatch row, calling the sync exactly when there is a package and no result of it yet |
| `OutboxEffects.ThrowLandsLikeStep` | packages/security-governance/src/internal-outbox-dispatch-handlers.ts:104-154 | a throw leaves the ledger as it was, or as the handler's own step would have left it |
| `OutboxProtocol.ThrowKeepsInv` | packages/security-governance/src/jobs.ts:199-218 | a handler may throw anywhere, before or after its call took effect |
| `OutboxProtocol.StoreFailureKeepsInv` | packages/security-governance/src/jobs.ts:173-224 | a store call may throw before or after its statement took effect, with the code's own catch and abort paths |
| `OutboxSafety.NoRowHeldTwice` | packages/security-governance/src/postgres-job-store.ts:66-90 | no row is held by two workers or twice by one |
| `OutboxSafety.AttemptsNeverExceed` | packages/security-governance/src/postgres-job-store.ts:127-145 | attempts never exceed the maximum and pending or failed rows have fewer |
| `OutboxSafety.NeverADuplicate` | packages/security-governance/src/jobs.ts:174-183 | the processed check is false for every held job, so the duplicate branch is never entered |
| `OutboxSafety.LostAfterThrow` | packages/security-governance/src/jobs.ts:190-218 | a worker is about to mark a completed row failed only after its own markProcessed or markCompleted threw for it and left it completed |
| `OutboxSafety.CompletionLostIff` | packages/security-governance/src/jobs.ts:190-218 | in any run a completed row loses its status in a step exactly when the step is a markFailed that takes effect and its worker's last step before was such a throw |
| `OutboxSafety.ThrowRetriesCompleted` | packages/security-governance/src/jobs.ts:190-218 | a run in which a recorded and completed row is up for a retry because markCompleted threw |
| `OutboxSafety.CompletedIsFinal` | packages/security-governance/src/jobs.ts:190-218 | as long as markProcessed and markCompleted do not throw for it, a completed row stays completed, whatever else fails or crashes |
| `OutboxSafety.OrphanedForever` | packages/security-governance/src/postgres-job-store.ts:66-70 | a row in processing that no worker holds is never changed again, by claims, replays or anything else |
| `OutboxSafety.CrashOrphans` | packages/security-governance/src/postgres-job-store.ts:66-70 | a crash leaves each of the worker's rows that is not completed in that state |
| `OutboxSafety.CompletedIsRecorded` | packages/security-governance/src/jobs.ts:190-198 | a completed row's event was supported and has an effect row and a dispatch row |
| `OutboxEffects.CompletedHasItsEffect` | packages/security-governance/src/internal-outbox-dispatch-handlers.ts:251-296 | in every run a completed recording event has exactly its own effect, and a completed ranking event was synced with the result on record, or was once handled without a package and has that on record |
| `OutboxEffects.PackageMeansSynced` | packages/security-governance/src/internal-outbox-dispatch-handlers.ts:264-296 | a completed ranking event whose handlers always found a package was synced at least once, and a result of the sync is its only effect |
| `OutboxEffects.EffectsFitTheEvent` | packages/security-governance/src/internal-outbox-dispatch-handlers.ts:251-299 | in every run an effect is one of its event's handler: executed only after a start with a package and an executor, skipped only after one without a package, and with a payload from the sync or from the start |
| `OutboxEffects.SyncNeedsPackage` | packages/security-governance/src/internal-outbox-dispatch-handlers.ts:264-287 | the sync is called only for ranking events and only after a start with a package and an executor |
| `OutboxEffects.CompletingAttemptRecorded` | packages/security-governance/src/jobs.ts:190-198 | the attempt that completes a row has recorded what its own start of the handler asks for, whatever other attempts left |
| `OutboxRows.RowChanges` | packages/security-governance/src/postgres-job-store.ts:62-189 | in every run a row changes only by a claim once it is due, by its holder completing, failing or giving it back, or by a replay of a dead letter, with exactly these columns |
| `OutboxRows.StatementsTakeEffect` | packages/security-governance/src/postgres-job-store.ts:62-189 | and each of these statements does take effect |
| `OutboxRows.RetryWaits` | packages/security-governance/src/postgres-job-store.ts:127-145 | the attempt after a failed one starts no earlier than the backoff after the failure |
| `OutboxRows.RehearsalsSettleNothing` | packages/security-governance/src/jobs.ts:185-223 | in every run a rehearsing worker only gives rows back, and one on a dry run leaves all effects alone |
| `OutboxSafety.EffectsAreFinal` | packages/security-governance/src/internal-outbox-dispatch-handlers.ts:104-154 | an effect row keeps its first payload for ever, a dispatch row is kept, and once the sync's effect exists the sync is never called again |
| `OutboxSafety.SyncCallsBounded` | packages/security-governance/src/internal-outbox-dispatch-handlers.ts:282-296 | the sync runs at most once more than the number of results lost before they were stored |
| `OutboxSafety.UnsupportedNeverCompletes` | packages/security-governance/src/outbox-dispatcher.ts:26-49 | an event the dispatcher does not list is never completed, through any retries and replays |
| `OutboxRun.JobStore.ClaimPending` | packages/security-governance/src/postgres-job-store.ts:62-90 | the batch holds the oldest claimable rows up to the limit, once each, and exactly those are claimed |
| `OutboxRun.Run` | packages/security-governance/src/jobs.ts:146-234 | the table and the counts are those of claiming a batch and processing it in order in the given mode |
| `OutboxRun.ProcessJob` | packages/security-governance/src/jobs.ts:173-224 | one job in three modes, with the duplicate branch and failures |
| `OutboxRun.JobFromFields` | packages/security-governance/src/jobs.ts:173-224 | what becomes of every row when one job is processed, by mode, by whether its key is done already, and by the outcome |
| `OutboxRun.TallyFromFields` | packages/security-governance/src/jobs.ts:173-224 | which counters that job adds to |
| `OutboxRun.BatchFromFields` | packages/security-governance/src/postgres-job-store.ts:66-90 | a batch holds due rows that are pending or failed, and a due row left out is no older than any taken, the batch being full |
| `OutboxRetries.RunRowByRow` | packages/security-governance/src/jobs.ts:173-224 | with unique keys a run settles each claimed row by its own outcome and leaves every other row |
| `OutboxRetries.CountsAddUp` | packages/security-governance/src/jobs.ts:168-233 | every claimed job is counted once and none is skipped |
| `OutboxRetries.RehearsalLeavesNoTrace` | packages/security-governance/src/jobs.ts:185-223 | a dry or shadow run leaves attempts, error, availability and claimability at all later times as they were |
| `OutboxRetries.ProductionAccounts` | packages/security-governance/src/jobs.ts:194-233 | in production claimed = completed + failed |
| `OutboxRetries.ProductionOnRow` | packages/security-governance/src/postgres-job-store.ts:113-145 | a production run spends one attempt of each row it claims and leaves it completed without an error, or failed with the backoff, or dead-lettered |
| `OutboxRetries.RunsDrain` | packages/security-governance/src/jobs.ts:146-234 | each spaced production run uses up at least one remaining attempt until none is left |
| `OutboxRetries.OutboxDrains` | packages/security-governance/src/postgres-job-store.ts:127-145 | every row that starts pending or failed is completed or dead-lettered within N times maxAttempts runs |
| `OutboxRetries.ThrowingRowDies` | packages/security-governance/src/postgres-job-store.ts:134-139 | a job that always throws is dispatched exactly maxAttempts times and then dead-lettered, in time |
| `InstallActions.PlanOrderIsFair` | apps/copilot-vscode-adapter/src/index.ts:124-142 | every discovered scope gets one action, usable scopes first, each group in scope order |
| `InstallActions.PlanOrderIsStable` | apps/copilot-vscode-adapter/src/index.ts:130-141 | scopes of one rank keep their discovery order |
| `InstallActions.PlanWritesUsableScopes` | apps/control-plane/src/install-lifecycle.ts:1216-1263 | a scope gets a writing action exactly when it was discovered writable, approved and owned and the plan is not blocked |
| `InstallActions.PlanActions` | apps/control-plane/src/install-lifecycle.ts:1216-1263 | one action per scope, and a blocked plan has no writing action |
| `InstallActions.ActionsTellDescriptors` | apps/control-plane/src/install-lifecycle.ts:1216-1263 | each action names its descriptor, writes exactly when that is writable, approved and owned and the plan is not blocked, and otherwise gives the first reason against it |
| `InstallActions.ActionsInOrder` | apps/copilot-vscode-adapter/src/index.ts:124-142 | writing actions come first, and each kind goes from the workspace to the profile to the daemon default |
| `InstallActions.ScopeMapIs` | apps/control-plane/src/install-lifecycle.ts:874-880 | a scope has a descriptor exactly when one was discovered for it, and it is the last one |
| `InstallActions.CreateScopeMap` | apps/control-plane/src/install-lifecycle.ts:874-880 | the loop builds the map in which the last descriptor of a scope wins |
| `InstallActions.CallFate` | apps/copilot-vscode-adapter/src/index.ts:511-559 | what one adapter call, failing before or after its effect or with a misled read, does to every file |
| `InstallActions.RunFate` | apps/control-plane/src/install-lifecycle.ts:1661-1750 | a run of actions leaves what a file holds of others alone, or damages it for good, and it does so exactly when a write of a file with something to lose is misled |
| `InstallActions.RunRespectsIff` | apps/control-plane/src/install-lifecycle.ts:1661-1750 | foreign files and other packages' entries are as they were exactly when no such write was misled |
| `InstallActions.RunAchieves` | apps/control-plane/src/install-lifecycle.ts:1694-1748 | work done before the stop stays done: any write, and any removal with a truthful read |
| `InstallActions.RunAchievesOnly` | apps/control-plane/src/install-lifecycle.ts:1694-1748 | and nothing but such work up to the stopping action brings it about |
| `InstallActions.RunStopsAt` | apps/control-plane/src/install-lifecycle.ts:1676-1748 | a run stops at the first action that cannot go through, judged on the files before the run and the misled writes of the same file |
| `InstallActions.StopReason` | apps/control-plane/src/install-lifecycle.ts:1676-1749 | a run is stopped by a writing action, with the scope-not-found reason exactly when its scope was not discovered, and with the adapter's otherwise |
| `InstallActions.RunLeavesAlone` | apps/control-plane/src/install-lifecycle.ts:1661-1750 | a file that no action up to the stopping one is about is unchanged |
| `InstallLifecycle.InstallPlan.ApplyPlan` | apps/control-plane/src/install-lifecycle.ts:1575-1868 | the new state and the reply are those of the specified transition, blocked plans included |
| `InstallLifecycle.InstallPlan.UpdatePlan` | apps/control-plane/src/install-lifecycle.ts:1870-2155 | likewise for update and its guard |
| `InstallLifecycle.InstallPlan.RemovePlan` | apps/control-plane/src/install-lifecycle.ts:2157-2416 | likewise for remove, its guard and the required-references check |
| `InstallLifecycle.InstallPlan.RollbackPlan` | apps/control-plane/src/install-lifecycle.ts:2418-2734 | likewise for rollback and the mode taken from the latest attempt |
| `InstallLifecycle.InstallPlan.VerifyPlan` | apps/control-plane/src/install-lifecycle.ts:2736-2928 | likewise for verify |
| `InstallLifecycle.InstallPlan.RunActions` | apps/control-plane/src/install-lifecycle.ts:1661-1750 | the shared action loop refines its recursive specification |
| `InstallLifecycle.NumberedFacts` | apps/control-plane/src/install-lifecycle.ts:857-948 | for numbered attempts the maximum is their count and the latest is the last |
| `InstallLifecycle.StepKeepsInv` | apps/control-plane/src/install-lifecycle.ts:1575-2928 | every call keeps numbering, the link of events to attempts and the link of failed statuses to failed attempts |
| `InstallLifecycle.RunKeepsInv` | apps/control-plane/src/install-lifecycle.ts:1575-2928 | so does every run from plan creation |
| `LifecycleSafety.RollbackFindsItsSource` | apps/control-plane/src/install-lifecycle.ts:2446-2471 | whenever rollback is permitted the latest attempt failed, and the mode is restore exactly in status remove_failed |
| `LifecycleSafety.SourceAttemptNeverMissing` | apps/control-plane/src/install-lifecycle.ts:2455-2458 | the missing-source error is unreachable |
| `LifecycleSafety.FailedRestoreTurnsIntoCleanup` | apps/control-plane/src/install-lifecycle.ts:2460-2471 | after a failed restoring rollback the next one cleans up |
| `LifecycleSafety.AttemptsAreNumbered` | apps/control-plane/src/install-lifecycle.ts:857-872 | attempt numbers are 1, 2, 3 and so on in both tables |
| `LifecycleSafety.DedupeKeyInjective` | apps/control-plane/src/install-lifecycle.ts:1827 | a key text names one event of one plan |
| `LifecycleSafety.StatusTextsAre` | apps/control-plane/src/install-lifecycle.ts:1818-1827 | the statuses that end the keys, per operation and outcome |
| `LifecycleSafety.EventsHaveTheirOwnKeys` | apps/control-plane/src/install-lifecycle.ts:1821-1837 | no two events published for a plan share a key |
| `LifecycleHistory.RepliesFollowHistory` | apps/control-plane/src/install-lifecycle.ts:1575-2928 | in every run, what each call replies, from the calls before it alone: which last outcome lets an update, a removal or a rollback through, required references, and the one error each refusal has |
| `LifecycleHistory.StatusTellsLastCall` | apps/control-plane/src/install-lifecycle.ts:1575-2928 | the status tells operation and outcome of the last call that was carried out, an update counting as an apply |
| `LifecycleHistory.ReplyIsOnRecord` | apps/control-plane/src/install-lifecycle.ts:1755-1868 | a call that is carried out leaves the next attempt row of its own table, an event and a status that say what its reply says; a verify says whether the runtime was ready and touches no file |
| `LifecycleHistory.CallRunsActions` | apps/control-plane/src/install-lifecycle.ts:1661-1754 | it runs the actions in order over the discovered scopes, writing the entry for apply, update and after a failed removal, and removing the package otherwise; every row tells what happened to its action |
| `LifecycleHistory.BlockedApplyRefuses` | apps/control-plane/src/install-lifecycle.ts:1630-1659 | the apply of a blocked plan fails, changes no file and settles every action |
| `LifecycleHistory.RollbackModeFollowsHistory` | apps/control-plane/src/install-lifecycle.ts:2446-2471 | in every run a rollback restores the package exactly when the last call that was carried out is a removal |
| `LifecycleSafety.RunRespectsOthers` | apps/control-plane/src/install-lifecycle.ts:1575-2734 | over any run with any failures a foreign file and other packages' entries are as they were exactly when there were none or no write of the file so far was misled |
| `LifecycleSafety.BlockedPlanWritesNothing` | apps/control-plane/src/install-lifecycle.ts:1218-1231 | a policy-blocked plan never changes a file |
| `LifecycleSafety.SuccessReachesEveryScope` | apps/control-plane/src/install-lifecycle.ts:1661-1754 | success means the package is in every write_entry scope after apply, update or restore; after remove or cleanup it is gone from one exactly when it was not there or some removal in its file had a truthful read |
| `LifecycleSafety.SucceedsIff` | apps/control-plane/src/install-lifecycle.ts:1625-1754 | an operation succeeds exactly when each action can go through, misled reads included, and it is not the apply of a blocked plan |
| `LifecycleSafety.FailureIsAPrefix` | apps/control-plane/src/install-lifecycle.ts:1676-1749 | a failed operation took effect on every action before the failing one, misled removals aside, and on none after it |
| `LifecycleSafety.RemoveUndoesApply` | apps/control-plane/src/install-lifecycle.ts:2219-2294 | after apply and remove the package is gone exactly when some removal in the file had a truthful read, and all else is as before exactly when no write of the apply was misled on a file with something to lose |
| `LifecycleSafety.MisledApplyTakesOver` | apps/copilot-vscode-adapter/src/index.ts:202-209 | an apply whose access check fails succeeds and takes over a foreign file |
| `LifecycleSafety.MisledRemoveLeavesPackage` | apps/copilot-vscode-adapter/src/index.ts:546-548 | a remove whose access check fails succeeds and leaves the package in the file |
| `LifecycleSafety.PermittedAfter` | apps/control-plane/src/install-lifecycle.ts:1902-1909 | which guarded operations each outcome permits next: a failed change exactly rollback, a rollback exactly remove, a removal none |
| `LifecycleSafety.VerifyLiftsGuards` | apps/control-plane/src/install-lifecycle.ts:2800-2858 | after verify update and remove are permitted and rollback is not, whatever the state was |
| `LifecycleSafety.BlockedSucceedsIff` | apps/control-plane/src/install-lifecycle.ts:1902-2155 | in every run of a blocked plan it is in apply_succeeded after a call exactly when the call is an update that its guard lets through, or it was there already and the call threw |
| `LifecycleSafety.BlockedUpdateNeedsVerify` | apps/control-plane/src/install-lifecycle.ts:1902-1909 | the guard lets an update of a blocked plan through only after an earlier verify |
| `LifecycleSafety.BlockedPlanReportsSuccess` | apps/control-plane/src/install-lifecycle.ts:1902-1909 | a path to it for every blocked plan: its apply always fails, verify and then update always end in apply_succeeded |
| `NonceProtocol.ProtectedIff` | packages/security-governance/src/index.ts:964-1031 | over all interleavings: no request passes twice if and only if the time to live exceeds twice the skew, calls of one key never overlap between lookup and store, and no call is overtaken before its lookup by a later purge (or nothing can pass at all) |
| `NonceProtocol.ReplayNeedsRace` | packages/security-governance/src/index.ts:994-1031 | in every interleaving two passes of one request need an overlap of two calls of its key or an overtaken call, when the time to live exceeds twice the skew |
| `NonceProtocol.OverlapPassesTwice` | packages/security-governance/src/index.ts:996-1031 | two copies in flight together both pass, whatever the time to live |
| `NonceProtocol.SweptPassesTwice` | packages/security-governance/src/index.ts:994-1031 | a second copy passes when a purge before its lookup removes the nonce, without any overlap |
| `NonceProtocol.InFlightBound` | packages/security-governance/src/index.ts:994-1031 | with at most m calls of a reporter between count and store at a time, its records that no purge so far would have removed exceed the limit by at most m - 1 |
| `NonceProtocol.InFlightBoundIsLeast` | packages/security-governance/src/index.ts:994-1031 | a number bounds those records over all such interleavings exactly when it is at least the limit plus m - 1, for every limit and every m |
| `NonceProtocol.StoredIsFresh` | packages/security-governance/src/index.ts:994-1031 | without stores that come after a purge past their expiry, those are all its records |
| `NonceProtocol.LimitExceeded` | packages/security-governance/src/index.ts:1005-1031 | n calls in flight get n records stored, whatever the limit |
| `NonceProtocol.AloneIsGuard` | packages/security-governance/src/index.ts:973-1031 | from any state, the steps of one call with nothing in between store and answer what the guard does |
| `NonceGuard.Submit` | packages/security-governance/src/index.ts:973-1031 | a submit by itself gives the specified store and answer |
| `NonceHistory.OutcomeFollowsHistory` | packages/security-governance/src/index.ts:973-1031 | in every run of submits one after another with non-decreasing times, what each is answered, from the submits before it alone: skew, then a standing nonce of its key, then the number of the reporter's standing nonces, then the signature |
| `NonceGuard.NonceStore.PurgeExpired` | packages/security-governance/src/index.ts:610-623 | exactly the expired records go, and the count is theirs |
| `NonceGuard.NonceStore.CountActiveForReporter` | packages/security-governance/src/index.ts:625-641 | the count is that of the reporter's unexpired records |
| `NonceGuard.PassesOnce` | packages/security-governance/src/index.ts:964-1031 | submits one after another: with a time to live over twice the skew a signed request passes at most once in any run with non-decreasing times |
| `NonceGuard.PassesTwice` | packages/security-governance/src/index.ts:974-992 | otherwise some request passes twice |
| `NonceGuard.ReplayProtectionIff` | packages/security-governance/src/index.ts:897-1031 | for submits one after another replay protection holds if and only if the time to live exceeds twice the skew (or nothing can pass at all) |
| `NonceGuard.StorageBounded` | packages/security-governance/src/index.ts:994-1001 | for submits one after another no reporter ever has more records than the limit, in any order of times |
| `NonceGuard.KeysDiffer` | packages/security-governance/src/index.ts:598-600 | keys collide only if a reporter id holds a colon |
| `TrustGate.DecisionService.CountConsecutivePasses` | packages/security-governance/src/index.ts:1434-1446 | the loop counts the passes at the head of the list |
| `TrustGate.DecisionService.Run` | packages/security-governance/src/index.ts:1470-1606 | one evaluation appends the specified decision and sets the specified rollout |
| `TrustGate.RolloutFollowsSnapshots` | packages/security-governance/src/index.ts:1483-1541 | over any windows, from the snapshots alone: the rollout is raw-only and frozen exactly when the gate is not open, and full-catalog exactly when it is open and was for the window before; open means no backlog breach, and rates present and within their thresholds in as many windows as are required, at most thirteen |
| `TrustGate.DecisionsRecordGates` | packages/security-governance/src/index.ts:1485-1580 | each decision records its window, the mode it decides and which of the three gates its snapshot passes |
| `TrustGate.RecentIsSorted` | packages/security-governance/src/postgres-adapters.ts:882-917 | the query lists the latest windows first, and of one window the latest decisions, in any log |
| `TrustGate.RecentIsTail` | packages/security-governance/src/postgres-adapters.ts:882-917 | with windows in increasing order the query returns the end of the log, newest first |
| `TrustGate.NewStreakIsCapped` | packages/security-governance/src/index.ts:1483-1503 | the computed streak is the true one, capped at thirteen |
| `TrustGate.ReadinessIsExact` | packages/security-governance/src/index.ts:1483-1507 | readiness equals that of the unbounded streaks exactly when at most thirteen windows are required |
| `TrustGate.FullCatalogIsEarned` | packages/security-governance/src/index.ts:1528-1541 | full-catalog means that the last required-plus-one windows passed both rate gates and the last two the backlog gate |
| `TrustGate.TooManyWindowsNeverPromote` | packages/security-governance/src/index.ts:1483-1507 | with more than thirteen required windows the mode stays raw-only |
| `TrustGate.FrozenIffRawOnly` | packages/security-governance/src/index.ts:1509-1541 | after any evaluation frozen and raw-only are the same |
| `TrustGate.DecisionTypeMeans` | packages/security-governance/src/index.ts:1509-1541 | the decision type tells exactly which mode change happened; the mode climbs one level at a time |
| `Enforcement.GetSupersededActionIds` | packages/security-governance/src/index.ts:358-366 | the loop collects exactly the superseded ids |
| `Enforcement.ProjectionStore.AppendActionAndRecompute` | packages/security-governance/src/index.ts:739-787 | an append by itself leaves the projection of the whole history |
| `Enforcement.StateFromHistory` | packages/security-governance/src/index.ts:358-441 | from the fields of the history: the state is the first of blocked for good, blocked for a time, flagged and reinstated that some active, unexpired action that none supersedes has, and none otherwise; blocked and warning flags follow |
| `Enforcement.ReasonFromHistory` | packages/security-governance/src/index.ts:393-441 | the reason is that of such an action with the projected state, the newest and then of greatest id |
| `Enforcement.ExpiredIsNotShown` | packages/security-governance/src/index.ts:385-390 | a state whose actions are all inactive or expired is not shown |
| `Enforcement.RolloutKeepsOrFlags` | packages/security-governance/src/index.ts:473-541 | the rollout keeps a state or makes it flagged; a block stays one exactly in full-catalog, or for a raw source while raw-only or frozen |
| `Enforcement.BlockedForReaders` | packages/security-governance/src/index.ts:368-541 | over any history and any windows: a package is blocked for a reader exactly when an action in force blocks it and the gate is open for the second time in a row, or is not open and the source is raw |
| `EnforcementProtocol.ShownIsCurrentIff` | packages/security-governance/src/index.ts:764-787 | in every interleaving the stored state is that of the whole history exactly when no live action its writer did not list is stricter and some live action still has it, or it is none; the whole stored projection is, exactly when nothing is live or the action that leads the whole history gives the stored state and reason |
| `EnforcementProtocol.AlwaysCurrentIff` | packages/security-governance/src/index.ts:739-787 | over all interleavings with failing store calls: once all calls are finished the stored projection is that of the whole history, if and only if no call upserts what it listed before another one's append and none fails between its append and its upsert |
| `EnforcementProtocol.ShownIsOfPrefix` | packages/security-governance/src/index.ts:764-787 | the stored projection is that of a beginning of the history, the part its writer listed |
| `EnforcementProtocol.BlockIsLost` | packages/security-governance/src/index.ts:764-787 | a run of two appends that ends with a permanent block in the history and a projection that does not block |
| `EnforcementProtocol.BreakLosesBlock` | packages/security-governance/src/index.ts:764-787 | a run without interleaving in which a call fails after its append, so that the stored projection misses its block |
| `Enforcement.StateStaysIff` | packages/security-governance/src/index.ts:368-441 | the state of the first actions is that of the whole history exactly when no later live action is stricter and some live action still has it, or it is none |
| `Enforcement.LeaderStaysIff` | packages/security-governance/src/index.ts:385-419 | the action that leads the first ones leads the whole history exactly when it is still live and comes before every later live one |
| `Enforcement.ProjectionStaysIff` | packages/security-governance/src/index.ts:407-441 | the projection of one history is that of another exactly when the latter's leading action gives its state and reason, or nothing is live there |
| `Enforcement.StrictestLiveWins` | packages/security-governance/src/index.ts:376-441 | the winner is live, no live action is stricter, and it is the newest of the strictest, then the greatest id |
| `Enforcement.ProjectsStrictest` | packages/security-governance/src/index.ts:368-441 | the projected state is the strictest of the live actions, and that characterises it |
| `Enforcement.BlockedIff` | packages/security-governance/src/index.ts:433-441 | a package is blocked exactly when some live action blocks it, and only warned about when one flags it and none blocks |
| `Enforcement.HistoryOrderIrrelevant` | packages/security-governance/src/index.ts:407-419 | the state never depends on history order, the projection does not when ids are told apart |
| `Enforcement.TimeOnlyRelaxes` | packages/security-governance/src/index.ts:385-390 | with no new actions the state never gets stricter |
| `Enforcement.FreshActionTightens` | packages/security-governance/src/index.ts:766-787 | appending a fresh action gives the stricter of the old state and its own |
| `Enforcement.RelaxedOnlyBySuperseding` | packages/security-governance/src/index.ts:374-383 | an append relaxes the state only by superseding every live action of the strictest state |
| `Enforcement.RolloutStrengthensIff` | packages/security-governance/src/index.ts:473-541 | the adjustment strengthens a state exactly for reinstated, non-raw, raw-only; it is idempotent |
| `RetrievalSync.SyncService.Run` | packages/ranking/src/retrieval-sync.ts:347-397 | one run with any write failure leaves the specified index and state table and gives the specified counts |
| `RetrievalFields.RunFromArguments` | packages/ranking/src/retrieval-sync.ts:347-397 | for each catalog row, from the raw arguments: it and its hash are written exactly when the run applies, the row is on its page and it is not up to date; nothing else changes |
| `RetrievalFields.BatchFromArguments` | packages/ranking/src/retrieval-sync.ts:405-514 | a row is on the page exactly when it is wanted and fewer wanted rows than the page size come before it |
| `RetrievalFields.SelectionFromTexts` | packages/ranking/src/retrieval-sync.ts:220-235 | a list of texts selects the ids that one of its recognised texts is, in any case, and everything when none is recognised |
| `RetrievalFields.UuidIff` | packages/ranking/src/retrieval-sync.ts:214-218 | the recognised texts are those of the uuid form with versions 1 to 8 |
| `RetrievalFields.LimitIsNearest` | packages/ranking/src/retrieval-sync.ts:206-212 | the page size is a hundred when no integer is given, and else the nearest one between 1 and 500 |
| `RetrievalSync.NormalizeLimit` | packages/ranking/src/retrieval-sync.ts:206-212 | the limit is within 1 and 500 and kept when it already is |
| `RetrievalSync.EveryPackageOnce` | packages/ranking/src/retrieval-sync.ts:405-514 | following the cursor from the start lists every package exactly once in id order and ends |
| `RetrievalSync.PassAgreesIff` | packages/ranking/src/retrieval-sync.ts:360-384 | after a full apply pass the state agrees everywhere, the index exactly where it did before or the hash was not known |
| `RetrievalSync.RunKeepsTrust` | packages/ranking/src/retrieval-sync.ts:374-384 | over a fixed catalog no failure makes the state vouch for a wrong index entry |
| `RetrievalSync.PassRepairs` | packages/ranking/src/retrieval-sync.ts:343-399 | after any failing runs one full pass brings index and state into agreement with every package |
| `RetrievalSync.RevertLeavesIndexStale` | packages/ranking/src/retrieval-sync.ts:374-384 | with a changing catalog a failed state write can leave a stale entry that no pass repairs |
| `RetrievalSync.UpsertsAreChanged` | packages/ranking/src/retrieval-sync.ts:366-384 | a pass writes exactly the documents that were changed when it began |
| `RetrievalSync.SecondPassUpserts` | packages/ranking/src/retrieval-sync.ts:522-545 | a second pass writes exactly the packages whose ids are not recognised, so none iff there are none |
| `RetrievalSync.DryRunForetells` | packages/ranking/src/retrieval-sync.ts:371-396 | a dry run changes nothing and reports what an apply run would |
| `RetrievalSync.DryPassForetells` | packages/ranking/src/retrieval-sync.ts:347-397 | a dry pass over all pages foretells every report of the apply pass, its writes aside, although that pass writes meanwhile |
| `RetrievalSync.UnrecognisedMeansEverything` | packages/ranking/src/retrieval-sync.ts:220-235 | a list of ids means everything exactly when none is recognised |
| `RetrievalSync.ChosenCoveredIff` | packages/ranking/src/retrieval-sync.ts:410-447 | a run for chosen packages covers them exactly when they fit one batch |
| `MergePrecedence.ByPrecedenceOrder` | packages/shared-contracts/src/merge-precedence.ts:86-98 | the comparator with its not-a-number ties is a total preorder, so sorting by it is well defined |
| `MergePrecedence.OrdinaryWinner` | packages/shared-contracts/src/merge-precedence.ts:217-227 | the winner has least precedence, then the latest epoch, and is the first of those that tie; the first present one when all sources are unknown |
| `MergePrecedence.LastUpdatedIsMax` | packages/shared-contracts/src/merge-precedence.ts:150-197 | the last update is the greatest effective timestamp, with the source and stamp of a candidate that has it |
| `MergePrecedence.LastUpdateFromFields` | packages/shared-contracts/src/merge-precedence.ts:150-197 | from the values and stamps: the last update is the latest time any of them stands for, with the source and stamp of the best known candidate that says so |
| `MergePrecedence.TagsAreTheFirst` | packages/shared-contracts/src/merge-precedence.ts:116-148 | tags are offered, not spam, sorted, distinct, at most 25; a tag left out is spam or comes after 25 kept ones |
| `MergePrecedence.OfferedIff` | packages/shared-contracts/src/merge-precedence.ts:95-148 | the tags that may be kept are those some candidate lists, up to case and surrounding space, that are decent: of 1 to 40 units, not blocked, no address, no markup, no unit five times in a row, no two spaces in a row |
| `MergePrecedence.TagOrderIrrelevant` | packages/shared-contracts/src/merge-precedence.ts:116-148 | the resolved tags do not depend on candidate order when localeCompare tells the tags that may be kept apart |
| `MergePrecedence.ResolveMergedRecord` | packages/shared-contracts/src/merge-precedence.ts:237-257 | the record holds exactly the fields that resolve, each with its resolution |
| `CatalogIngest.BySourceOrder` | packages/catalog/src/index.ts:147-185 | the source comparator is a total preorder |
| `TieOrder.SortsAgreeIff` | packages/catalog/src/index.ts:310 | two inputs sort alike exactly when the elements of each class of ties come in the same order |
| `TieOrder.TakeSortsAgreeIff` | packages/shared-contracts/src/merge-precedence.ts:131-135 | two orders of the same elements agree on the first n places after the sort exactly when, of each class of ties, as many as fit there come in the same order |
| `TieOrder.LeadersAgreeIff` | packages/shared-contracts/src/merge-precedence.ts:217-227 | what comes first after two sorts with a filter between them is the same in every order of the input exactly when all elements that may come first give the same |
| `CatalogIngest.CollectLineageCandidates` | packages/catalog/src/index.ts:235-263 | the loops give each field its candidates in source order |
| `CatalogIngest.CollectAliases` | packages/catalog/src/index.ts:394-442 | the loops give the identity's aliases, then each source's non-blank ones |
| `CatalogIngest.DedupeAliases` | packages/catalog/src/index.ts:265-294 | the loop keeps the first alias of each key in sorted order |
| `CatalogIngest.SurvivingAliases` | packages/catalog/src/index.ts:265-294 | every type and value brought survives exactly once, with the least source name |
| `CatalogIngest.IngestedAliases` | packages/catalog/src/index.ts:474-477 | the package's repository aliases are sorted and exactly the surviving ones that are not registry aliases |
| `CatalogIngest.SlugWinner` | packages/catalog/src/index.ts:187-233 | the slug is that of the best known source, latest first, or the first given when none is known |
| `CatalogIngest.Ingest` | packages/catalog/src/index.ts:300-488 | no candidates is an error; otherwise the result is the one determined by the sorted candidates |
| `CatalogFields.LeaderDecides` | packages/catalog/src/index.ts:147-185 | the one candidate that leads decides identity, path and tool kind, and the repository when the resolver names none; it has a repository id if any has one, then a repository locator, then a registry locator, then the least source name, the latest time, the least tool kind and subpath |
| `CatalogFields.SortedFirstLeads` | packages/catalog/src/index.ts:310-330 | there is such a candidate, and it is the identity pivot |
| `CatalogFields.AliasesFromFields` | packages/catalog/src/index.ts:394-442 | the record's aliases are ones the resolver or some candidate brings, in order of type and value; each type and value that is brought has exactly one, under the least name it is brought under |
| `CatalogFields.ConflictFromFields` | packages/catalog/src/index.ts:337-372 | a conflict lists, sorted, exactly the cleaned values of the candidates' own aliases |
| `CatalogFields.SlugFromFields` | packages/catalog/src/index.ts:187-233 | the slug is one that no other candidate's comes before by source, time and text, or the merged name when no candidate has a slug |
| `CatalogFields.MergedFromFields` | packages/catalog/src/index.ts:235-263 | each field is merged from exactly the values that the candidates have for it |
| `CatalogIngest.IngestOrderIrrelevant` | packages/catalog/src/index.ts:300-488 | the result is the same for every permutation of candidates the comparator separates |
| `CatalogOrder.TiedPairIff` | packages/catalog/src/index.ts:147-294 | two tied candidates of one source give the same result in both orders exactly when they agree on identity, path, repository, tool kind and each field both give, the slugs are equal or one is blank or those of a known source are told apart, and the first aliases of least source that tie are brought in the same order; for conflicts, when the resolver gives the same and the brought values that tie come in the same order |
| `CatalogOrder.FieldAgreesIff` | packages/shared-contracts/src/merge-precedence.ts:116-257 | a field that both give comes out the same in both orders exactly when the stamps agree and: an ordinary one has the same value, of the tags each class of ties brings those that fit in the first 25 in the same order; a last update also when its times differ or there are none |
| `CatalogOrder.TiedSourcesMatter` | packages/catalog/src/index.ts:147-185 | so two tied candidates with different values of an ordinary field give different results in the two orders |
| `CatalogOrder.SurvivorsAreWinners` | packages/catalog/src/index.ts:265-294 | the aliases that survive are the first one of least source for each type and value, sorted |
| `CatalogOrder.SurvivorsAgreeIff` | packages/catalog/src/index.ts:265-294 | two lists of aliases leave the same survivors exactly when those of them that tie come in the same order |
| `CatalogOrder.FieldFixedIff` | packages/shared-contracts/src/merge-precedence.ts:217-227 | for any number of candidates: an ordinary field comes out the same in every order exactly when all candidates that no other precedes for the field, and of these none as a source, give the same value, source and stamp |
| `CatalogOrder.DateFixedIff` | packages/shared-contracts/src/merge-precedence.ts:150-197 | likewise for the last update, over the candidates with the latest effective time |
| `CatalogOrder.SlugFixedIff` | packages/catalog/src/index.ts:187-233 | likewise for the slug, over the candidates whose slug comes first |
| `CatalogOrder.PivotFixedIff` | packages/catalog/src/index.ts:310-330 | likewise for whatever is made of the first candidate, over those that none precedes |

## Left out

- HTTP routing, CLI, configuration, logging, redaction, telemetry, environment checks and network clients: plumbing without state that matters here.
- Floating-point ranking and hybrid retrieval scores: rounding of doubles is the point there and is not modelled.
- Profile storage, policy preflight, the runtime pipeline, local supervisor and identity locator strings: none of their state is shared with the machines modelled here; the identity resolver and the policy outcome are parameters.
- Conflict messages, edge version constraints and `inDegree` in the resolver: the map is returned but never read.
- Idempotency records of the lifecycle: a replayed request returns the stored response and changes nothing.
- Concurrent calls on one plan and failing database calls within one: the lifecycle is modelled one call at a time.
- Scope-file writes by other processes, and the timestamps and formatting inside a scope file.
- The text and embedding of a retrieval document: the projection of a package is taken as given, and writes to the index are upserts by package id.
- Conflict fingerprints, review deadlines and merge run ids in catalog ingest: they are passed through or hashed.
- InstallLifecycle.InstallPlan.ApplyPlan: does not model the sidecar write as a file of its own; its failure is a call that breaks down after its effect.
- OutboxRun.Run: does not model store calls that throw; `OutboxProtocol` does, for any number of workers.
- MergePrecedence.ResolveMergedRecord: does not model non-string items of a tags array; they are taken as already turned into strings.
- CatalogOrder.FieldFixedIff: is about ordinary fields; for more than two candidates tags and aliases have the sufficient condition of `TagOrderIrrelevant` and `IngestOrderIrrelevant` only.
- AtomicWrite.WriteFileAtomically: does not model a rename that fails after taking effect.
- NonceGuard.PassesOnce: is about submits one after another; `NonceProtocol.ReplayNeedsRace` is about all interleavings.
- NonceGuard.ReplayProtectionIff: is about submits one after another; `NonceProtocol.ProtectedIff` has the condition for all interleavings.
- NonceGuard.StorageBounded: is about submits one after another; `NonceProtocol.InFlightBound` is about all interleavings.
- NonceGuard.Submit: is one call by itself; `NonceProtocol` takes its awaited calls apart.
- Enforcement.ProjectionStore.AppendActionAndRecompute: is one call by itself; `EnforcementProtocol` takes its awaited calls apart.
