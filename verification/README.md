# DevBrowse core state machines, in Dafny

A model of the in-memory state machines of the browser's broker and service processes, with proofs
about every run of them. `dafny verify dfyconfig.toml` checks the whole project.

## What is modelled

**GPU process** (`GpuQueue`, `GpuBudget`, `GpuCoordinator` and the files built on them). The
round-robin command scheduler over per-identity FIFOs, the per-identity LRU memory budget, and the
coordinator whose epoch invalidates capability tokens. Each is a class whose methods perform the
steps of a state machine; fairness, FIFO refinement, exact accounting, true LRU order and
non-interference between identities are proved over arbitrary runs of these steps. `GpuProtocol` and
`GpuProtocolTokens` compose the three; a task reads the coordinator's epoch in one step and adopts
it for a component in a later one, so components lag behind and synchronisations overtake each
other.

**Tabs and renderers** (`TabScheduler`, `TabLifecycle`, `TabLifecycleRuns`, `TabOrders`). The
renderer sharing rule, the tab map and the slot map, with the profile registry replaced arbitrarily
between calls, and the orders the orchestrator is given.

**Network broker** (`PartitionLru`, `UrlHost`, `UrlStrip`, `UrlStripText`, `BlocklistTree`,
`BlocklistHosts`, `Blocklist`, `HeaderScrub`, `NetworkRoute`, `NetworkRouteCases`). The bounded
egress map, the authority parser, the tracking-parameter strip, the reverse-label blocklist tree and
the live blocklist that holds it, the header scrubber, and the route that composes them. The
cancellation flag and the blocklist change under a running route.

**Extensions** (`Bits`, `Base64Url`, `Base64Bits`, `ExtensionAllowlist`, `ExtensionController`,
`ExtensionRuns`). The base64url codec, manifest parsing and the install gate, and the controller. An
install is two locked sections in the code, and two steps here.

**IPC framing** (`IpcFraming`). Length-prefixed frames over a stream that arrives in pieces of any
size and may break after any byte, and whose flush may fail.

`Common`, `GpuTypes` and `Text` hold shared types and string operations.

## Conventions

Each method of a class states its whole effect as a step function on the object's abstract state
(`View()`), and the lemmas about runs are about that step function. A locked section of the source
is one atomic step. `u64` values are naturals below 2^64 with the wrap-around and saturation of the
source written out. A run theorem that needs ids or epochs not to wrap says so with `NoWrap`;
`TokenValidIff` and `EpochCountsRecoveries` hold with wrap-around included.

## Where the code and its comments differ

- A dequeued command's mode is the one its identity's queue was opened with, although the comment on
  `DequeuedCommand` says that its fields mirror the token (`crates/pb-gpu/src/queue.rs:103-110`):
  `ModeKeptIff` gives the exact condition, `ModeOfOwnTokenLost` a run in which it fails.
- A token issued after the coordinator's recovery is refused as stale by a component that has not
  adopted the new epoch, and accepted there later. A token older than both can be accepted again too:
  `on_recovery(coord.epoch())` reads and adopts under two locks, and a recovery in between lets an old
  epoch be adopted late (`OvertakenSync`). `BudgetRejectionFinalIff` and `QueueRejectionFinalIff` say
  exactly when a rejection is final, `SerialRejectionFinalIff` for runs without such a recovery.
- `insert` is commented as preferring a subdomain-exclusive rule
  (`crates/pb-network/src/blocklist/radix_tree.rs:141-143`); both arms of the code take the later rule
  (`LaterRuleWins`). `PreferenceKeptIff` says exactly when the two agree.
- Stripping can leave a listed parameter in two cases: every parameter goes and the fragment contains
  a `?` (`ExposedFragment`), or the URL is over 4096 bytes (`OversizedKeepsListed`, `OversizedLeaves`).
  `ListedSurvivesIff` says that there are no others. In the first case alone a second strip changes the
  URL again (`StripCompleteIff`).
- The rules and the strip list of a manifest are meant to be refreshed atomically
  (`crates/pb-network/src/blocklist/rule.rs:160-163`), but a route reads them one after the other.
  `OneSnapshotIff` says exactly when a swap in between cannot be noticed, `TornSnapshot` is a request
  that notices it.
- `parse_host` removes the brackets of an IP literal although its comment says they are preserved
  (`crates/pb-network/src/coordinator.rs:719-721`, `BracketsRemoved`). It takes the first `@` as the end
  of the userinfo; a second one stays in the host exactly when it stands before the end of the host
  (`SecondAtInHostIff`).
- `scrub` keeps the casing of header names although its comment says they are normalised
  (`crates/pb-network/src/headers.rs:239-241`, `NamesNotLowered`).
- An accepted manifest swap emits an intent for every installed extension the manifest does not
  admit, also for those already disabled (`StaleIntent`); the comment on `SwapOutcome` speaks of
  extensions whose state changed (`crates/pb-extensions/src/controller.rs:318-321`).
  `IntentsAreChangesIff` says exactly when the two agree.
- An install is checked against the snapshot taken when it was called and recorded without a second
  look, so a recall that lands in between leaves the extension enabled (`RecallCanBeOvertaken`).
  `AlwaysGatedIff` says exactly when that does not happen.
- A frame header cut short reads as an orderly close, a body cut short as an I/O error (`Truncation`).

## Model

| member | source | states |
|---|---|---|
| `GpuQueue.QueueScheduler.constructor` | crates/pb-gpu/src/queue.rs:185-194 | a new scheduler holds no queue, an empty rotation, and mints ids from 1 |
| `GpuQueue.QueueScheduler.PendingCount` | crates/pb-gpu/src/queue.rs:210-219 | the depth of the token's own queue, 0 for a token of another epoch |
| `GpuQueue.QueueScheduler.Submit` | crates/pb-gpu/src/queue.rs:227-248 | the whole new state and answer of a submit, as the step about which the run theorems are proved; a stale token changes nothing |
| `GpuQueue.QueueScheduler.Dequeue` | crates/pb-gpu/src/queue.rs:267-294 | the pop loop performs the recursive dequeue step: it skips identities that have nothing pending, serves the first that has, and rotates it to the back if more is left |
| `GpuQueue.QueueScheduler.OnRecovery` | crates/pb-gpu/src/queue.rs:307-312 | every queue and the rotation are dropped and the epoch adopted; the id counter is kept |
| `GpuQueue.RunKeepsInv` | crates/pb-gpu/src/queue.rs:152-169 | in every run, recoveries included, the rotation lists exactly the identities with pending work, once each |
| `GpuQueue.DequeueNoneIffIdle` | crates/pb-gpu/src/queue.rs:267-294 | `None` if and only if nothing is pending under any identity |
| `GpuQueueRuns.RotationServedInOrder` | crates/pb-gpu/src/queue.rs:227-294 | whatever is submitted in between, the k-th next dequeue answers the identity that stood at index k |
| `GpuQueueRuns.BoundedWait` | crates/pb-gpu/src/queue.rs:39-47 | an identity at index k is served by exactly the (k+1)-th following dequeue, and the k earlier ones go to k distinct other identities, over all interleavings of submits |
| `GpuQueueRuns.ServiceBalance` | crates/pb-gpu/src/queue.rs:227-294 | the difference of two backlogged identities' service counts equals the change of their relative order in the rotation |
| `GpuQueueRuns.PairwiseFairness` | crates/pb-gpu/src/queue.rs:39-47 | over any stretch in which two identities stay backlogged neither gets more than one turn ahead |
| `GpuQueueRuns.DrainBound` | crates/pb-gpu/src/queue.rs:39-47 | with at most n identities in rotation, the buffer at depth j of the identity at index k leaves within k + 1 + j*n dequeues |
| `GpuQueueRuns.RefinesFifo` | crates/pb-gpu/src/queue.rs:137-150 | per identity, dequeued ++ still pending equals pending at the start ++ submitted, in order: the scheduler is one independent FIFO per identity |
| `GpuQueueRuns.AnswersComeFromPending` | crates/pb-gpu/src/queue.rs:267-294 | what is handed out under an identity was pending under that identity, or is an id minted in the run by a submit under that identity |
| `GpuQueueRuns.DeliveredAtMostOnce` | crates/pb-gpu/src/queue.rs:227-294 | no buffer id is handed out twice, under any identity, across recoveries, while fewer than 2^64 ids are minted |
| `GpuQueueRuns.ModeIsFirstTokens` | crates/pb-gpu/src/queue.rs:235-240 | a command's mode is that of the first accepted token of its identity since the queue was opened |
| `GpuQueueRuns.ModeKeptIff` | crates/pb-gpu/src/queue.rs:100-117 | commands carry the mode of an accepted submit's token if and only if no queue was open for its identity or one of that mode was |
| `GpuQueueRuns.ModeOfOwnTokenLost` | crates/pb-gpu/src/queue.rs:235-240 | the concrete run in which a buffer submitted under a Strict token is handed out as Standard |
| `GpuQueueRuns.SubmitAnswer` | crates/pb-gpu/src/queue.rs:227-248 | a submit is accepted if and only if its token is of the scheduler's epoch, and appends the minted id; a refused one changes nothing |
| `GpuQueueRuns.PendingForCounts` | crates/pb-gpu/src/queue.rs:210-219 | in every run within an epoch `pending_for` is what was pending plus the submits accepted for the identity less the commands handed out for it, and 0 for a stale token |
| `GpuBudget.CapFromConfig` | crates/pb-gpu/src/memory_budget.rs:101-111 | the configured cap, or the nearer of 64 and 4096 MiB when it lies outside them |
| `GpuBudget.MemoryBudget.constructor` | crates/pb-gpu/src/memory_budget.rs:239-248 | a new budget has no bucket and mints ids from 1 |
| `GpuBudget.MemoryBudget.Used` | crates/pb-gpu/src/memory_budget.rs:272-281 | the token's own byte count, 0 for a token of another epoch |
| `GpuBudget.MemoryBudget.TryAllocate` | crates/pb-gpu/src/memory_budget.rs:295-333 | the eviction loop and the insertion perform the recursive eviction step; zero size, over the cap and stale token are refused in that order and change nothing |
| `GpuBudget.MemoryBudget.Touch` | crates/pb-gpu/src/memory_budget.rs:342-358 | the allocation moves to the most recent end; a stale token or foreign id changes nothing |
| `GpuBudget.MemoryBudget.Release` | crates/pb-gpu/src/memory_budget.rs:365-381 | the allocation leaves the order, the sizes and the byte count; a stale token or foreign id changes nothing |
| `GpuBudget.MemoryBudget.OnRecovery` | crates/pb-gpu/src/memory_budget.rs:393-397 | every bucket is dropped and the epoch adopted; the id counter is kept |
| `GpuBudget.EvictIsMinimalLru` | crates/pb-gpu/src/memory_budget.rs:314-321 | eviction removes the shortest prefix of the LRU order that makes the request fit, survivors keep their order, and a request of at most the cap always fits in the end |
| `GpuBudget.BytesOfAll` | crates/pb-gpu/src/memory_budget.rs:181-187 | the sizes added up along the LRU order are exactly `used_bytes` |
| `GpuBudgetRuns.AllocateSucceeds` | crates/pb-gpu/src/memory_budget.rs:295-333 | a request of non-zero size up to the cap under a current token always succeeds and changes no other identity's bucket |
| `GpuBudgetRuns.RunKeepsInv` | crates/pb-gpu/src/memory_budget.rs:199-227 | in every reachable state `used_bytes` is the sum of the sizes and at most the cap, `lru` is a duplicate-free list of exactly the live ids, ids are below the counter and disjoint across identities |
| `GpuBudgetRuns.ExhaustedUnreachable` | crates/pb-gpu/src/memory_budget.rs:314-321 | no run ever answers `Exhausted` |
| `GpuBudgetRuns.SaturationLosesBytes` | crates/pb-gpu/src/memory_budget.rs:314-333 | with the cap at the largest `u64` a concrete run leaves `used_bytes` different from the sum of the sizes |
| `GpuBudgetRuns.AccountingExactIff` | crates/pb-gpu/src/memory_budget.rs:101-111 | in every run `used_bytes` is the sum of the sizes for every identity if and only if the cap is below the largest `u64`, likewise for the whole invariant, and every configured cap is below it |
| `GpuBudgetRuns.OthersUntouched` | crates/pb-gpu/src/memory_budget.rs:35-46 | an operation under one identity's token leaves every other identity's bucket as it was |
| `GpuBudgetRuns.StepMovesToBack` | crates/pb-gpu/src/memory_budget.rs:295-381 | one step keeps the survivors of an identity's order in order and appends the allocation it used, if any |
| `GpuBudgetRuns.TrueLruOrder` | crates/pb-gpu/src/memory_budget.rs:295-381 | in every run from start-up each identity's `lru` is its live ids ordered by the step of their last successful allocate or touch |
| `GpuBudgetLife.AllocateAnswer` | crates/pb-gpu/src/memory_budget.rs:295-333 | zero size, over the cap and stale token are told apart, in that order, and change nothing; every other request is granted at its size |
| `GpuBudgetLife.ReleaseFrees` | crates/pb-gpu/src/memory_budget.rs:365-381 | a release of a live id under a current token succeeds, gives back exactly its bytes, keeps every other allocation and its size, and a second release of it is `UnknownAllocation` |
| `GpuBudgetLife.TouchOnlyReorders` | crates/pb-gpu/src/memory_budget.rs:342-358 | a touch of a live id succeeds, makes it the last to be evicted, and changes no size |
| `GpuBudgetLife.RefusalsChangeNothing` | crates/pb-gpu/src/memory_budget.rs:342-370 | touch and release tell a stale token from an id not live under the identity, and then change nothing |
| `GpuBudgetLife.UsedIsTotal` | crates/pb-gpu/src/memory_budget.rs:272-281 | `used_bytes` is what the identity's live allocations add up to, 0 for a stale token |
| `GpuBudgetLife.LiveIffStands` | crates/pb-gpu/src/memory_budget.rs:295-397 | in every run from start-up an id is live under an identity if and only if it was granted to it and neither released nor evicted since, and no recovery happened; its size is the one asked for |
| `GpuBudgetIsolation.EvictRenamed` | crates/pb-gpu/src/memory_budget.rs:314-321 | two buckets that differ only in allocation names evict the same allocations |
| `GpuBudgetIsolation.NonInterference` | crates/pb-gpu/src/memory_budget.rs:35-46 | deleting every other identity's calls from any run leaves each result, eviction and `used_bytes` seen by an identity unchanged, up to one order-preserving renaming of ids |
| `GpuBudgetIsolation.NonInterferenceFromStart` | crates/pb-gpu/src/memory_budget.rs:1-10 | the same from a fresh budget, together with: the shortened run contains only that identity's operations and recoveries |
| `GpuCoordinatorModel.GpuCoordinator.constructor` | crates/pb-gpu/src/coordinator.rs:284-291 | a coordinator starts on its first epoch with the adapter available |
| `GpuCoordinatorModel.GpuCoordinator.IssueScopeToken` | crates/pb-gpu/src/coordinator.rs:322-336 | a token of the current epoch, or `AdapterUnavailable` during a loss |
| `GpuCoordinatorModel.GpuCoordinator.ValidateToken` | crates/pb-gpu/src/coordinator.rs:347-358 | accepted exactly for the current epoch, also during a loss |
| `GpuCoordinatorModel.GpuCoordinator.OnAdapterLoss` | crates/pb-gpu/src/coordinator.rs:367-370 | only availability changes |
| `GpuCoordinatorModel.GpuCoordinator.RecoverAfterLoss` | crates/pb-gpu/src/coordinator.rs:385-389 | the epoch advances by one, wrapping, and the adapter is available again |
| `GpuCoordinatorModel.EpochCountsRecoveries` | crates/pb-gpu/src/coordinator.rs:385-389 | after any run the epoch is the old one plus the number of recoveries, modulo 2^64 |
| `GpuCoordinatorModel.TokenValidIff` | crates/pb-gpu/src/coordinator.rs:338-347 | a token issued now validates later if and only if the number of recoveries since is a multiple of 2^64, whatever losses happen |
| `GpuCoordinatorModel.IssuedIff` | crates/pb-gpu/src/coordinator.rs:322-336 | after every run from start-up a token is issued if and only if the run is empty or ends with a recovery, for the identity and mode asked for, on an epoch that counts the recoveries; otherwise `AdapterUnavailable` |
| `GpuProtocol.EpochSafety` | crates/pb-gpu/src/coordinator.rs:39-46 | in every run in which tasks read the coordinator's epoch and adopt it for a component later, in any interleaving, no component is ahead of the coordinator, and every live allocation and pending buffer was made with a token of that component's current epoch by the identity that holds it |
| `GpuProtocol.BootInv` | crates/pb-gpu/src/memory_budget.rs:250-253 | the components as built from the coordinator satisfy the invariant |
| `GpuProtocol.EpochSafetyFromBoot` | crates/pb-gpu/src/memory_budget.rs:212-227 | the same for every run from start-up under any configured cap |
| `GpuProtocol.DequeuedIsCurrent` | crates/pb-gpu/src/queue.rs:23-31 | a command dequeued in any reachable state carries its submitter's epoch and identity |
| `GpuProtocolTokens.EpochsAfter` | crates/pb-gpu/src/memory_budget.rs:23-34 | along any run a component keeps its epoch, or adopts one not older than the coordinator's present one, or one that a task has read before and still holds |
| `GpuProtocolTokens.BudgetRejectionFinalIff` | crates/pb-gpu/src/memory_budget.rs:383-397 | a token rejected by the budget can be accepted there later if and only if the coordinator validates it now or some task still holds its epoch |
| `GpuProtocolTokens.QueueRejectionFinalIff` | crates/pb-gpu/src/queue.rs:296-312 | the same for the command queue |
| `GpuProtocolTokens.SerialRejectionFinalIff` | crates/pb-gpu/src/memory_budget.rs:212-227 | in every state reached from start-up without a recovery between a read and its adoption, a rejection by either component is final if and only if the coordinator rejects the token too |
| `GpuProtocolTokens.OvertakenSync` | crates/pb-gpu/src/memory_budget.rs:222-224 | with such a recovery a token rejected by budget and coordinator alike is accepted by the budget again |
| `GpuProtocolTokens.RecoveryWindow` | crates/pb-gpu/src/coordinator.rs:372-389 | between the coordinator's recovery and the queue's, the queue accepts the stale token and rejects the fresh one |
| `GpuProtocolTokens.StepIssues` | crates/pb-gpu/src/coordinator.rs:322-336 | the set of issued tokens grows by the token of a successful issue and by nothing else |
| `GpuProtocolTokens.NothingIssuedDuringLoss` | crates/pb-gpu/src/coordinator.rs:360-370 | from a loss to the next recovery no run of clients and components adds a token |
| `TabScheduler.Scheduler.Schedule` | crates/pb-identity/src/scheduler.rs:86-102 | a Strict profile always gets a new renderer; a Standard one reuses some Standard renderer of its profile if there is one, whichever the map yields first |
| `TabScheduler.Scheduler.RegisterRenderer` | crates/pb-identity/src/scheduler.rs:106-123 | a known id is refused and changes nothing |
| `TabScheduler.Scheduler.AttachTab` | crates/pb-identity/src/scheduler.rs:131-164 | the whole new map and error, with the error naming some tab already held when a Strict renderer is taken |
| `TabScheduler.Scheduler.DetachTab` | crates/pb-identity/src/scheduler.rs:168-178 | only the named slot loses only the named tab |
| `TabScheduler.Scheduler.RetireRenderer` | crates/pb-identity/src/scheduler.rs:181-192 | the slot goes and its tabs are returned |
| `TabScheduler.AcceptedIff` | crates/pb-identity/src/scheduler.rs:106-192 | exactly which calls are carried out; a refused one changes nothing, and no call touches another renderer |
| `TabScheduler.AcceptedEffect` | crates/pb-identity/src/scheduler.rs:106-192 | what each accepted call does to its slot; a retirement returns the tabs that were left |
| `TabScheduler.RefusalNames` | crates/pb-identity/src/scheduler.rs:50-62 | which error each refused call is answered with, and for which renderer and tab |
| `TabScheduler.SoundWhoeverCalls` | crates/pb-identity/src/scheduler.rs:125-130 | for every sequence of calls by any caller, every tab a renderer holds was attached under the renderer's own identity and mode, and a Strict renderer holds at most one |
| `TabLifecycle.LifecycleManager.SpawnTab` | crates/pb-identity/src/lifecycle.rs:185-235 | the new state and order are one of those allowed by some scheduling decision |
| `TabLifecycle.LifecycleManager.CloseTab` | crates/pb-identity/src/lifecycle.rs:249-269 | the tab leaves both maps, and the renderer is retired exactly when it held nothing else |
| `TabLifecycle.LifecycleManager.AbortSpawn` | crates/pb-identity/src/lifecycle.rs:239-242 | the same as closing |
| `TabLifecycle.LifecycleManager.SuspendTab` | crates/pb-identity/src/lifecycle.rs:272-293 | only the tab's state and reason change |
| `TabLifecycle.LifecycleManager.ResumeTab` | crates/pb-identity/src/lifecycle.rs:295-309 | only the tab's state and reason change |
| `TabLifecycle.LifecycleManager.ReplaceRegistry` | crates/pb-identity/src/lifecycle.rs:140-142 | the registry may become anything between two calls; nothing else changes |
| `TabLifecycleRuns.InvMeansSharingRule` | crates/pb-identity/src/scheduler.rs:3-11 | the invariant implies: two live tabs share a renderer if and only if both renderers are Standard and the profiles are the same |
| `TabLifecycleRuns.SpawnDetermined` | crates/pb-identity/src/scheduler.rs:92-101 | map iteration order is invisible: in a reachable state exactly one outcome of a spawn is possible |
| `TabLifecycleRuns.SpawnSucceeds` | crates/pb-identity/src/lifecycle.rs:185-235 | a spawn for a known profile always succeeds, so the scheduler errors inside it are unreachable |
| `TabLifecycleRuns.CloseKeepsInv` | crates/pb-identity/src/lifecycle.rs:249-269 | a close succeeds if and only if the tab exists, and keeps the invariant; the `expect` inside is unreachable |
| `TabLifecycleRuns.AbortUndoesSpawn` | crates/pb-identity/src/lifecycle.rs:25-28 | aborting straight after a spawn restores every tab and slot exactly, moves only the counters, names the spawned tab and its renderer, and asks for a kill if and only if the spawn asked for a new renderer |
| `TabLifecycleRuns.LifecycleSafety` | crates/pb-identity/src/lifecycle.rs:117-269 | in every run, with arbitrary registry replacement in between, both maps mirror each other, no renderer is empty, Strict renderers hold one tab, the sharing rule holds and no scheduler error surfaces |
| `TabLifecycleRuns.RendererTraces` | crates/pb-identity/src/lifecycle.rs:185-309 | in every run each minted renderer id has exactly one creation and at most one kill, everything else that names it lies between, and created minus killed is the renderer count |
| `TabOrders.OrderAnswersCall` | crates/pb-identity/src/lifecycle.rs:185-309 | a call succeeds or names its error exactly by the state of its own tab or profile, and a successful order names the tab, renderer, profile, mode and reason of its call |
| `TabOrders.OrdersTellTabs` | crates/pb-identity/src/lifecycle.rs:72-104 | in every run from start-up the orders alone determine the tab map: which tabs live, on which renderer, under which profile, and whether and why each is suspended |
| `TabOrders.TabTraces` | crates/pb-identity/src/lifecycle.rs:185-309 | in every run each tab id handed out is named by exactly one spawn order and at most one close order, with its suspend and resume orders in between and one renderer throughout |
| `PartitionLruModel.PartitionLru.GetOrInsertDefault` | crates/pb-network/src/coordinator.rs:273-285 | map and order after a use; an old value is kept, a new key gets the default |
| `PartitionLruModel.PartitionLru.TouchToBack` | crates/pb-network/src/coordinator.rs:265-271 | the key moves to the back of the order |
| `PartitionLruModel.PartitionLru.Remove` | crates/pb-network/src/coordinator.rs:287-292 | the key leaves both map and order, and its value is returned |
| `PartitionLruModel.RunKeepsInv` | crates/pb-network/src/coordinator.rs:244-254 | after any run the order is a duplicate-free list of exactly the map's keys, no longer than the cap |
| `PartitionLruModel.UseKeepsValues` | crates/pb-network/src/coordinator.rs:273-285 | a use leaves every other partition's state as it was, and evicts at most the one used longest ago, when full |
| `PartitionLruModel.DropKeepsValues` | crates/pb-network/src/coordinator.rs:287-292 | a drop takes its own partition's state and no other |
| `PartitionLruModel.SmallerIsSuffix` | crates/pb-network/src/coordinator.rs:250-292 | stack property: for caps c <= c' the order at cap c is always a suffix of the order at cap c', drops included |
| `PartitionLruModel.UnboundedByLastUse` | crates/pb-network/src/coordinator.rs:246-249 | a map that never fills holds exactly the keys whose last operation is a use, ordered by it |
| `PartitionLruModel.HoldsMostRecent` | crates/pb-network/src/coordinator.rs:246-249 | without drops the map holds exactly its cap most recently used keys |
| `UrlHost.ParseHostIff` | crates/pb-network/src/coordinator.rs:722-762 | `parse_host` returns a host if and only if the URL decomposes as scheme://[userinfo@]authority tail with that host, for every string |
| `UrlHost.HostRoundTrip` | crates/pb-network/src/coordinator.rs:713-722 | every well-formed URL (section 3.2 of RFC 3986) gives back its host, brackets removed, whatever its tail contains |
| `UrlHost.HostIsClean` | crates/pb-network/src/coordinator.rs:722-762 | a returned host is non-empty and free of the characters that end an authority |
| `UrlHost.TailIrrelevant` | crates/pb-network/src/coordinator.rs:739-745 | nothing from the first delimiter after the authority on can change the host |
| `UrlHost.SecondAtInHostIff` | crates/pb-network/src/coordinator.rs:726-762 | for every well-formed URL the host contains an `@` if and only if the authority behind the userinfo has one before the `:`, or the `]` of a literal, that ends the host |
| `UrlHost.SecondAtExamples` | crates/pb-network/src/coordinator.rs:726-762 | of two URLs with two `@`, one keeps the second in the host and one drops it with the port |
| `UrlHost.BracketsRemoved` | crates/pb-network/src/coordinator.rs:748-754 | the host of an IP literal is the text between its brackets |
| `UrlStrip.StripTrackingParams` | crates/pb-network/src/blocklist/url_strip.rs:146-191 | the loop and the early returns compute the specified rewrite |
| `UrlStrip.KeepUnlisted` | crates/pb-network/src/blocklist/url_strip.rs:162-177 | the kept parts are the non-empty unlisted ones in order, and the flag is set if and only if one was listed |
| `UrlStrip.StripChangesIff` | crates/pb-network/src/blocklist/url_strip.rs:141-145 | the URL changes if and only if it is at most 4096 bytes long and has a listed parameter |
| `UrlStrip.StrippedIsShorter` | crates/pb-network/src/blocklist/url_strip.rs:146-191 | a changed URL is strictly shorter in bytes |
| `UrlStrip.ParametersKept` | crates/pb-network/src/blocklist/url_strip.rs:141-145 | the remaining parameters are the unlisted ones in their order |
| `UrlStrip.StripCompleteIff` | crates/pb-network/src/blocklist/url_strip.rs:146-191 | stripping again changes nothing, and finds nothing to strip, if and only if not all parameters were removed from a URL whose fragment then reads as a query with a listed one |
| `UrlStrip.ListedSurvivesIff` | crates/pb-network/src/blocklist/url_strip.rs:38-43 | for every URL, of any length: a listed parameter is left if and only if the fragment takes the place of the query in that way, or the URL is over 4096 bytes and has one |
| `UrlStrip.OversizedKeepsListed` | crates/pb-network/src/blocklist/url_strip.rs:147-149 | a long fragment takes a listed parameter past the stripper, with no fragment exposed |
| `UrlStrip.ExposedFragment` | crates/pb-network/src/blocklist/url_strip.rs:178-190 | that exception occurs: `?a#?a` with `a` listed |
| `UrlStrip.StripKeepsHost` | crates/pb-network/src/blocklist/url_strip.rs:146-191 | stripping never changes what `parse_host` returns, for a URL whose scheme stands before any `?`, as the route has checked by then |
| `UrlStrip.StripKeepsPrefix` | crates/pb-network/src/blocklist/url_strip.rs:153-153 | the text before the first `?` is kept |
| `UrlStripText.ListedByKey` | crates/pb-network/src/blocklist/url_strip.rs:168-175 | a parameter is listed if and only if the text before its first `=` is, casing aside, whatever its value |
| `UrlStripText.PositionsAreThose` | crates/pb-network/src/blocklist/url_strip.rs:162-177 | the positions of the parts that stay are those of the non-empty unlisted ones, increasing |
| `UrlStripText.KeptInOrder` | crates/pb-network/src/blocklist/url_strip.rs:162-177 | the i-th kept part is the one at the i-th of those positions, unchanged |
| `UrlStripText.StrippedText` | crates/pb-network/src/blocklist/url_strip.rs:146-191 | on text: the same prefix, the kept parts behind a `?` if there are any, the same fragment |
| `Text.CharBytesIsLeast` | crates/pb-network/src/blocklist/url_strip.rs:147-149 | the length limit counts the bytes of UTF-8, the fewest that hold each character |
| `Text.SameLetterIff` | crates/pb-network/src/coordinator.rs:708-711 | casing is ignored for ASCII letters and nothing else |
| `BlocklistTree.BuildTree` | crates/pb-network/src/blocklist/radix_tree.rs:68-74 | the tree of the rules inserted in list order |
| `BlocklistTree.MatchHost` | crates/pb-network/src/blocklist/radix_tree.rs:83-113 | the loop over the reversed labels finds the deepest match |
| `BlocklistTree.TreeHoldsLastRules` | crates/pb-network/src/blocklist/radix_tree.rs:127-155 | at every path the tree holds the last rule of the list for that hostname |
| `BlocklistTree.DeepestMatchIsDeepest` | crates/pb-network/src/blocklist/radix_tree.rs:90-113 | the answer is the deepest terminal that applies, and none if none applies |
| `BlocklistTree.TreeRefinesRules` | crates/pb-network/src/blocklist/radix_tree.rs:22-32 | looking a host up in the tree gives a kind if and only if the rule list gives it: last rule per hostname, longest hostname first, subdomain-exclusive rules only on the exact host |
| `BlocklistTree.BlocksIsUnique` | crates/pb-network/src/blocklist/radix_tree.rs:22-32 | the rule list gives at most one kind |
| `BlocklistTree.RuleIgnoresCase` | crates/pb-network/src/blocklist/rule.rs:63-80 | a rule made from a hostname in any casing decides that host looked up in any casing, covers every host below it if inclusive, and no other host if exclusive |
| `BlocklistTree.LaterRuleWins` | crates/pb-network/src/blocklist/radix_tree.rs:141-154 | a later inclusive rule replaces an earlier exclusive one for the same hostname |
| `BlocklistTree.PreferenceKeptIff` | crates/pb-network/src/blocklist/radix_tree.rs:141-154 | the tree holds what the comment promises, the exclusive rule preferred, if and only if the hostname's last rule is exclusive or none is |
| `BlocklistHosts.LabelsBelow` | crates/pb-network/src/blocklist/radix_tree.rs:92-95 | the labels of a host below another begin with that other's: they run right to left |
| `BlocklistHosts.SubdomainsCovered` | crates/pb-network/src/blocklist/radix_tree.rs:22-27 | an inclusive rule, the latest of any list, covers every host below its hostname, whatever stands in front and in any casing |
| `BlocklistHosts.RuleCoversIff` | crates/pb-network/src/blocklist/radix_tree.rs:22-29 | on text: an inclusive rule alone blocks a host if and only if, empty labels and casing aside, the host is its hostname or ends in a dot and its hostname; an exclusive one, if and only if it is its hostname |
| `BlocklistModel.Blocklist.constructor` | crates/pb-network/src/blocklist/blocklist.rs:76-81 | a new blocklist is empty and has reported nothing |
| `BlocklistModel.Blocklist.Swap` | crates/pb-network/src/blocklist/blocklist.rs:94-100 | tree, strip list and version come from the new manifest together, and the old version is returned |
| `BlocklistModel.Blocklist.MatchHost` | crates/pb-network/src/blocklist/blocklist.rs:111-117 | the answer of the tree of the rules in force |
| `BlocklistModel.ParamRuleIgnoresCase` | crates/pb-network/src/blocklist/rule.rs:116-126 | a parameter rule made from a name in any casing lists the name in any casing |
| `HeaderScrub.Scrub` | crates/pb-network/src/headers.rs:242-298 | the loop computes: managed headers, then the passed ones, then a default Accept if none was passed |
| `HeaderScrub.FilterInOrder` | crates/pb-network/src/headers.rs:278-291 | the i-th passed header is the one at the i-th passing position, unchanged |
| `HeaderScrub.ManagedOnce` | crates/pb-network/src/headers.rs:251-272 | no two injected headers have the same name in any casing, and each is one the renderer cannot set |
| `HeaderScrub.ScrubIsIdempotent` | crates/pb-network/src/headers.rs:242-298 | scrubbing twice is scrubbing once |
| `HeaderScrub.OnlyPolicyValues` | crates/pb-network/src/headers.rs:278-291 | no stripped name survives in any casing, and every managed name in the output is the injected header |
| `HeaderScrub.PassesIff` | crates/pb-network/src/headers.rs:278-286 | a renderer header passes if and only if its name, in any casing, is on neither list |
| `HeaderScrub.NoForbiddenName` | crates/pb-network/src/headers.rs:278-282 | no name of the strip list leaves, in any casing |
| `HeaderScrub.ManagedValuesLeave` | crates/pb-network/src/headers.rs:251-272 | a managed name that leaves, in any casing, has the policy's value for that name and no other |
| `HeaderScrub.SignalsLeaveIff` | crates/pb-network/src/headers.rs:255-272 | the three fixed headers lead, and DNT, Sec-GPC and Referer are injected if and only if the policy has them |
| `HeaderScrub.ModesDifferInRefererOnly` | crates/pb-network/src/headers.rs:153-177 | the two default policies differ in the Referer only, and both send DNT and Sec-GPC |
| `HeaderScrub.AcceptAlwaysPresent` | crates/pb-network/src/headers.rs:274-295 | the output is managed ++ passed, with one default Accept at the end if and only if the renderer sent none |
| `HeaderScrub.DefaultAcceptIff` | crates/pb-network/src/headers.rs:287-295 | the default Accept is added if and only if the renderer names none, in any casing |
| `HeaderScrub.RefererIff` | crates/pb-network/src/headers.rs:323-340 | a Referer leaves if and only if the mode is Standard, the origin is known and the target is not plain http, and it is the bare https origin |
| `HeaderScrub.NamesNotLowered` | crates/pb-network/src/headers.rs:237-241 | no output has all names in lower case, since the first never is; a renderer's header leaves in mixed case if and only if one that passes came in so |
| `NetworkRoute.NetworkCoordinator.constructor` | crates/pb-network/src/coordinator.rs:430-447 | a new broker has an empty egress map with 16 places, an empty blocklist and the two default header policies |
| `NetworkRoute.NetworkCoordinator.Bootstrap` | crates/pb-network/src/coordinator.rs:421-449 | a broker comes up if and only if its sandbox is of class Network and applies; the wrong class is reported first |
| `NetworkRoute.NetworkCoordinator.SetBlocklist` | crates/pb-network/src/coordinator.rs:673-675 | the shared blocklist is replaced |
| `NetworkRoute.NetworkCoordinator.SetHeaderPolicy` | crates/pb-network/src/coordinator.rs:656-661 | the policy of its own mode is replaced, the other kept |
| `NetworkRoute.NetworkCoordinator.Authorize` | crates/pb-network/src/coordinator.rs:480-491 | the canonical key, or `PartitionMismatch` |
| `NetworkRoute.NetworkCoordinator.Route` | crates/pb-network/src/coordinator.rs:587-640 | answer, egress effect and reported event for every reading of the cancellation flag and every manifest swapped in between the two reads of the blocklist; a refused request leaves the egress map untouched, and exactly a blocked one is reported, once, with its kind and partition |
| `NetworkRoute.NetworkCoordinator.DropPartition` | crates/pb-network/src/coordinator.rs:496-502 | the partition's state goes |
| `NetworkRoute.RouteIsSafe` | crates/pb-network/src/coordinator.rs:587-640 | a request that leaves carries its canonical key, an allowed scheme, a host in the dispatched URL that none of the rules read blocks, the stripped URL and the scrubbed headers with none of the forbidden names, and a listed parameter if and only if the fragment is exposed or the URL is over 4096 bytes and has one |
| `NetworkRoute.RefusedIff` | crates/pb-network/src/coordinator.rs:587-640 | uncancelled, a request is refused if and only if the key, the scheme, the host or the blocklist refuses it |
| `NetworkRoute.RefusedFor` | crates/pb-network/src/coordinator.rs:587-613 | which error a refused request is answered with, for every reading of the cancellation flag |
| `NetworkRoute.PrefixIff` | crates/pb-network/src/coordinator.rs:708-711 | a scheme is recognised character by character, casing aside |
| `NetworkRoute.ReportedIff` | crates/pb-network/src/coordinator.rs:601-608 | an event is reported if and only if the request is refused as blocked, with the kind the rules give and its own partition, and at most one is |
| `NetworkRoute.RefererLeavesIff` | crates/pb-network/src/coordinator.rs:618-626 | under the default policies a Referer leaves if and only if the request is Standard, its origin known and its URL not plain http |
| `NetworkRoute.CancelledNeverLeaves` | crates/pb-network/src/coordinator.rs:144-158 | with the flag monotone, a request leaves if and only if it is not set by the last check and nothing else refuses |
| `NetworkRoute.OneSnapshotIff` | crates/pb-network/src/blocklist/rule.rs:160-163 | the answer of a route that a swap overtakes is one the old or the new manifest alone gives if and only if both strip the URL alike or the new rules do not block its host |
| `NetworkRouteCases.OversizedLeaves` | crates/pb-network/src/coordinator.rs:613-619 | a request over 4096 bytes leaves the broker with a listed parameter |
| `NetworkRouteCases.TornSnapshot` | crates/pb-network/src/coordinator.rs:603-617 | a request leaves, stripped, that the old manifest leaves unstripped and the new one blocks |
| `Base64Url.PushChunk` | crates/pb-extensions/src/allowlist.rs:346-357 | the shifts and masks of one group emit the characters of its arithmetic encoding |
| `Base64Url.Encode` | crates/pb-extensions/src/allowlist.rs:342-360 | the loop over groups of three computes the recursive encoding |
| `Base64Url.Decode` | crates/pb-extensions/src/allowlist.rs:362-397 | the loop over groups of four computes the recursive decoding, stopping at the first bad character |
| `Bits.BitwiseOr` | crates/pb-extensions/src/allowlist.rs:345-396 | every bit of the modelled OR is the OR of the bits |
| `Bits.BitwiseAnd` | crates/pb-extensions/src/allowlist.rs:345-396 | every bit of the modelled AND is the AND of the bits |
| `Bits.OrDisjoint` | crates/pb-extensions/src/allowlist.rs:379-379 | the OR of a shifted field and a smaller one is their sum |
| `Bits.FieldIs` | crates/pb-extensions/src/allowlist.rs:350-356 | a right shift and a mask of ones take out the field as quotient and remainder do |
| `Base64Url.PackedGroup` | crates/pb-extensions/src/allowlist.rs:349-349 | three bytes packed by shifts and ORs are the 24-bit group |
| `Base64Url.ValueOfChar` | crates/pb-extensions/src/allowlist.rs:363-372 | every six-bit value is recovered from its character |
| `Base64Url.CharOfValue` | crates/pb-extensions/src/allowlist.rs:363-372 | every accepted character is recovered from its value |
| `Base64Url.ChunkRoundTrip` | crates/pb-extensions/src/allowlist.rs:342-397 | one group of one to three bytes survives encoding and decoding |
| `Base64Url.DecodeOfEncode` | crates/pb-extensions/src/allowlist.rs:342-397 | decoding an encoding gives back every byte string |
| `Base64Url.EncodedInAlphabet` | crates/pb-extensions/src/allowlist.rs:342-360 | an encoding contains only alphabet characters, and no padding |
| `Base64Url.DecodeFailsIff` | crates/pb-extensions/src/allowlist.rs:362-397 | decoding fails if and only if some character is outside the alphabet |
| `Base64Url.CanonicalIff` | crates/pb-extensions/src/allowlist.rs:342-397 | re-encoding a decoded text gives it back if and only if its length is not 1 modulo 4 and its unused trailing bits are zero |
| `Base64Url.AlphabetByRange` | crates/pb-extensions/src/allowlist.rs:342-343 | the alphabet is the URL-safe one: upper case, lower case, digits, `-`, `_` |
| `Base64Bits.CharactersAreBits` | crates/pb-extensions/src/allowlist.rs:342-360 | every character of every encoding stands for its six bits of the byte string, first byte and highest bit first, zeros at the end |
| `Base64Bits.EncodedLength` | crates/pb-extensions/src/allowlist.rs:342-360 | an encoding has one character for every six bits begun |
| `Base64Bits.BytesAreBits` | crates/pb-extensions/src/allowlist.rs:362-397 | a text over the alphabet decodes to as many whole bytes as its bits fill, each of them the next eight bits; bits left over are dropped whatever they are |
| `ExtensionAllowlist.ParseManifest` | crates/pb-extensions/src/allowlist.rs:453-471 | format version and duplicate ids are rejected, in that order, and nothing else is |
| `ExtensionAllowlist.ParsedIff` | crates/pb-extensions/src/allowlist.rs:453-471 | which bytes parse, and which error the others get |
| `ExtensionAllowlist.OrderIsNumeric` | crates/pb-extensions/src/allowlist.rs:113-126 | versions compare as the numbers their three 32-bit components form |
| `ExtensionAllowlist.ConstraintMeans` | crates/pb-extensions/src/allowlist.rs:196-221 | at least: the named version and everything newer; exact: the named version only |
| `ExtensionAllowlist.AdmitsIff` | crates/pb-extensions/src/allowlist.rs:433-435 | an extension is admitted if and only if some entry for it is satisfied by its version, wherever it stands |
| `ExtensionAllowlist.RefusedFor` | crates/pb-extensions/src/allowlist.rs:637-664 | which error each refused candidate gets: that of the first check that fails |
| `ExtensionAllowlist.EntryForIsUnique` | crates/pb-extensions/src/allowlist.rs:433-435 | in a manifest without duplicates the lookup by id finds the only entry, wherever it stands |
| `ExtensionAllowlist.VerifiedIff` | crates/pb-extensions/src/allowlist.rs:624-664 | the gate answers with an entry if and only if the candidate passes all four checks against that entry, wherever it stands in a manifest without duplicates |
| `ExtensionControllerModel.ExtensionController.constructor` | crates/pb-extensions/src/controller.rs:141-148 | a new controller has the seed manifest and nothing installed |
| `ExtensionControllerModel.ExtensionController.ActiveManifest` | crates/pb-extensions/src/controller.rs:152-160 | the manifest in force |
| `ExtensionControllerModel.ExtensionController.InstallAgainst` | crates/pb-extensions/src/controller.rs:188-215 | checked against the snapshot, recorded as enabled on success; a rejection changes nothing |
| `ExtensionControllerModel.ExtensionController.TrySwap` | crates/pb-extensions/src/controller.rs:243-294 | parse failure, bad signature and a version not above the current one change nothing; otherwise the manifest and all records change at once, and the intents name every installed extension the new manifest does not admit exactly once |
| `ExtensionControllerModel.ExtensionController.Remove` | crates/pb-extensions/src/controller.rs:300-303 | the record goes, and the answer says whether there was one |
| `ExtensionControllerModel.IntentsAreChangesIff` | crates/pb-extensions/src/controller.rs:316-324 | the intents of an accepted swap are those of the records it changed if and only if the new manifest admits every extension already disabled |
| `ExtensionControllerModel.StaleIntent` | crates/pb-extensions/src/controller.rs:316-324 | a swap to an empty manifest changes no record and still reports the disabled extension |
| `ExtensionControllerModel.IntentKinds` | crates/pb-extensions/src/controller.rs:271-290 | a recall intent if and only if the new manifest has no entry for the installed extension, a constraint intent if and only if it has one the installed version does not satisfy |
| `ExtensionRuns.RegistryOfRun` | crates/pb-extensions/src/controller.rs:220-303 | in every run an extension is installed if and only if some install of it stands, at that version, and is Enabled if and only if every manifest adopted since admits it |
| `ExtensionRuns.RegistryIsKeyed` | crates/pb-extensions/src/controller.rs:119-122 | every record is stored under its own id in every run |
| `ExtensionRuns.ManifestsOfRun` | crates/pb-extensions/src/controller.rs:266-268 | adopted manifest versions increase strictly, and the manifest in force is the last one adopted |
| `ExtensionRuns.AdoptedIff` | crates/pb-extensions/src/controller.rs:250-268 | in every run a manifest is adopted if and only if the swap's bytes decode to it, carry the root key's signature, and have the supported format, distinct ids and a version above the one in force |
| `ExtensionRuns.EveryInstallIsVouched` | crates/pb-extensions/src/controller.rs:176-197 | every install that took effect did so for the very candidate its call began with, which passed all four checks under the manifest in force at that beginning |
| `ExtensionRuns.SwapRestoresGate` | crates/pb-extensions/src/controller.rs:271-290 | after an accepted swap nothing outside the new manifest is enabled |
| `ExtensionRuns.AlwaysGatedIff` | crates/pb-extensions/src/controller.rs:176-215 | nothing enabled is ever outside the manifest in force if and only if each install was still admitted when it took effect |
| `ExtensionRuns.UninterruptedIsTimely` | crates/pb-extensions/src/controller.rs:176-215 | an install with no accepted swap between its two locked sections is always admitted when it takes effect |
| `ExtensionRuns.RecallCanBeOvertaken` | crates/pb-extensions/src/controller.rs:176-215 | a recall between the two sections of an install leaves the recalled extension enabled |
| `IpcFraming.WriteFrame` | crates/pb-ipc/src/transport.rs:42-55 | the exact bytes a send puts on a connection that may break after any byte and whose flush may fail, and its answer; an oversized payload puts none |
| `IpcFraming.ByteSource.ReadExact` | crates/pb-ipc/src/transport.rs:59-71 | the buffer is filled with the next bytes however the stream is split, or the stream is consumed to its end |
| `IpcFraming.ReadFrame` | crates/pb-ipc/src/transport.rs:57-73 | the answer and the rest of the stream depend on the bytes only, not on how they were split |
| `IpcFraming.BigEndianRoundTrip` | crates/pb-ipc/src/transport.rs:49-51 | a length survives its big-endian header |
| `IpcFraming.BigEndianInverse` | crates/pb-ipc/src/transport.rs:66-66 | a header is recovered from its length |
| `IpcFraming.HeaderOrder` | crates/pb-ipc/src/transport.rs:66-66 | headers compare byte by byte from the front as the lengths they hold |
| `IpcFraming.OversizedHeader` | crates/pb-ipc/src/transport.rs:66-69 | a header over the limit is answered with its length, and nothing behind it is read |
| `IpcFraming.FramesComeFirst` | crates/pb-ipc/src/transport.rs:42-73 | frames in front of any bytes are received first, unchanged, and the rest as if alone |
| `IpcFraming.RoundTrip` | crates/pb-ipc/src/transport.rs:42-73 | receiving the concatenated frames of any legal list returns that list and then `ConnectionClosed` |
| `IpcFraming.ReceiveIff` | crates/pb-ipc/src/transport.rs:57-73 | for every stream: what is received and the error, if and only if the stream is those frames followed by bytes a receive rejects with that error |
| `IpcFraming.PrefixFree` | crates/pb-ipc/src/transport.rs:42-73 | one conversation's bytes begin another's if and only if its messages do: streams are uniquely decodable |
| `IpcFraming.Truncation` | crates/pb-ipc/src/transport.rs:58-71 | cut anywhere, exactly the wholly contained messages arrive; the error is an orderly close if and only if the cut is fewer than four bytes past a frame |
| `IpcFraming.WholeFramesExist` | crates/pb-ipc/src/transport.rs:57-73 | every cut has such a number of whole frames |
| `IpcFraming.ReceivedIsWritten` | crates/pb-ipc/src/transport.rs:42-73 | end to end over a connection that may break after any byte, the receiver gets exactly the messages written to the last byte, in order, and never `MessageTooLarge` |
| `IpcFraming.AcknowledgedIsFlushed` | crates/pb-ipc/src/transport.rs:42-55 | the sends of a session that succeed are exactly those of messages written to the last byte and flushed |
| `IpcFraming.ReceivedIsAcknowledgedIff` | crates/pb-ipc/src/transport.rs:42-73 | the receiver gets exactly the messages whose send succeeded if and only if no flush failed behind a written one |
| `IpcFraming.WrittenIff` | crates/pb-ipc/src/transport.rs:42-55 | on a connection with room for everything, exactly the messages within 4 MiB are written |

## Left out

- Threads, mutexes and lock poisoning: each locked section is one atomic step, and interleavings are sequences of steps.
- `GpuQueueRuns.DeliveredAtMostOnce`: assumes that fewer than 2^64 ids are minted; after a wrap of the counter the code reuses ids.
- `GpuBudgetRuns.RunKeepsInv`: assumes the same of allocation ids.
- `GpuProtocol.EpochSafety`: assumes that neither ids nor the epoch wrap within the run.
- `TabLifecycleRuns.LifecycleSafety`: tab and renderer ids are unbounded, the source's `u64` counters are not; the replaced registry must store each profile under its own id, which the registry type keeps by construction.
- `BlocklistTree.BuildTree`: insertion is modelled on tree values; the source follows mutable references into the tree and updates it in place.
- `NetworkRoute.NetworkCoordinator.constructor`: the partition key derivation, a hash, is a parameter, and applying the sandbox is one too.
- `NetworkRoute.NetworkCoordinator.DropPartition`: does not model the DNS cache, whose entries for the partition the source drops as well.
- `NetworkRoute.NetworkCoordinator.Route`: the event sink is a list of what it was told; replacing the sink is not modelled.
- `UrlStrip.StripKeepsHost`: is stated for URLs whose first `://` comes before any `?`, which the route's scheme check guarantees; without that a stripped parameter could itself hold the text taken for a scheme.
- `PartitionLruModel.HoldsMostRecent`: is stated for runs without drops, since a drop makes room that older keys do not fill again; `SmallerIsSuffix` covers drops.
- `ExtensionControllerModel.ExtensionController.TrySwap`: intents come in the order of a map iteration, so only their set and their uniqueness are stated.
- JSON decoding, SHA-256 and Ed25519 are parameters of the controller; version strings, hex hashes and wire formats of keys are not modelled.
- Unicode: strings are sequences of code points; byte lengths are computed where the source compares them.
- The resolver, its cache, TLS, WebRTC, client hello and update scheduling of the network broker.
- Adapter limits and timer quantisation of the GPU process, fingerprint tables, farbling, storage, sandboxing, process spawning, settings and user interface: finite tables, library calls or operating system behaviour.
