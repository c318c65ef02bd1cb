# Handle registry, paid handles and message delivery: verified model

A Dafny model of the parts of go-message-box-server whose correctness rests on more than one line of code at a time, and proofs about it. `dafny verify dfyconfig.toml` checks everything.

| file | what it models |
|---|---|
| `Registry.dfy` | one registry row, the unique indexes, the four conditional writes, the reads, the claim and release diagnoses |
| `RegistryLaws.dfy` | what each write keeps; write-then-diagnose as one decision; replays and returns |
| `HandleStore.dfy` | the registry as an object updated in place: `UpdateOne`/`InsertOne`, `ClaimHandle`, `ReleaseHandle` |
| `ClaimProtocol.dfy`, `ClaimSteps.dfy` | any number of concurrent claims and releases, cut at every database write and read |
| `ClaimRuns.dfy`, `ClaimAnswers.dfy`, `ReleaseAnswers.dfy`, `ClaimHistory.dfy`, `ClaimAlone.dfy` | guarantees over whole interleavings |
| `Handles.dfy`, `HandleLaws.dfy`, `SkeletonLaws.dfy` | validation, tiers, generated names, the look-alike fold |
| `Availability.dfy`, `Search.dfy` | the pre-check and the tiered search, against the registry |
| `Subscriptions.dfy`, `PaidServer.dfy` | paid handles: purchase gate, binding, refresh, linked tokens, lapse sweep; as functions of the two tables, and as objects updated in place |
| `PaidRuns.dfy`, `PaidCover.dfy`, `PaidTiers.dfy`, `PaidSweep.dfy` | guarantees over whole runs of requests, notifications and sweep turns |
| `PaidLaws.dfy` | what the gate, a put, a notification and a sweep turn come to, said of states, fields and reasons one by one |
| `SweepOutcome.dfy` | what a sweep over its own listing comes to: whom it releases, what it leaves, what can hold it up |
| `PaidFailures.dfy` | runs from an empty registry into each state those guarantees exclude |
| `StringOrder.dfy`, `Sizes.dfy`, `Wrappers.dfy` | the order of strings; sizes of sets; optional values |
| `Outputs.dfy` | allocation of payment outputs to recipients |
| `Pages.dfy` | byte-budgeted pagination and its bounds |
| `Devices.dfy`, `BackfillRuns.dfy` | the device-token backfill, by one replica and by several at once |

How it is modelled:

- **Times** are integers of nanoseconds; `MsUTC` cuts them to the whole milliseconds the database stores, at the points where the store does.
- **The registry** is a map from handle to row. A write is one atomic step that either matches, matches nothing, or is refused by a unique index. `HandleStore` is that map as a field of an object whose methods reassign it. Concurrency is a state machine over the same writes and reads: `ClaimProtocol.Next` lets any call make its next database operation, and a run is any sequence of such steps.
- **Stores** (App Store, Google Play) are an arbitrary answer: vouched for, invalid or unavailable. An answer never says wrong_tier, and its tier is 1 to 7. Purchase-run steps are one request, one notification, or one turn of a sweep; a turn works on the row as it was listed, which may be stale.
- **Where a comment and the code differ** the code is followed: handles are 1 to 32 characters, as the pattern at pkg/handles/handles.go:44 admits, though the comment at line 34 says 3 to 32.
- **Inputs that are parsed elsewhere** are taken parsed: a profile certificate, a purchase's store, the key an output's instructions name, a JSON number.

## What turned out not to hold

Each of these is proved, with an input or a run that fails and the exact condition under which the code does meet the promise.

- *A release's "stale certificate" is not always true.* While the release goes from its refused write to its read, the handle can be freed and claimed by its owner under a certificate older than the tombstone. The answer is right in every continuation exactly when the write released the handle or met a row of it issued at most one millisecond before the tombstone (`ReleaseAnswers.StaleIsRightIff`).
- *An operator's release answered "release applied nowhere".* It is never true; a claim has come in between the write and the read. It can come in exactly when the write found nobody holding the handle (`ReleaseAnswers.AppliedNowhereIsRightIff`).
- *A sweep turn takes the listed status for the one on file.* Where the store has forgotten a receipt, the status on file is to be the last word; a row renewed since it was listed loses its handle all the same, and is marked done though it is entitled (`PaidFailures.RenewedRowLosesItsHandle`; exactly when: `PaidSweep.TurnSparesEntitledIff`). In a batch nothing interferes with, each turn does judge its row as on file (`PaidSweep.ListedSweepReleasesOnlyLapsed`).
- *Marking rows done can hide a held handle from every later sweep.* A row already done that is renewed holds up the release of its handle without keeping it in sight (`PaidFailures.RenewedDoneRowHidesHandle`), and a turn on a row rebound since it was listed marks the new binding done (`PaidFailures.ReboundRowHidesHandle`). Exactly when: `PaidCover.TurnKeepsCoverIff`.
- *A sweep turn on a row rebound or updated since it was listed* can mark a fitting row wrong_tier (`PaidFailures.ReboundRowHidesHandle`; exactly when: `PaidTiers.StaleTurnKeepsTiersIff`), and can undo a refund recorded meanwhile (`PaidFailures.RefundedRowRunsOn`; exactly when: `PaidTiers.StaleTurnExtendsIff`).
- *The grace period of a handle's other rows is not looked at.* A turn on one long-lapsed row releases the handle although another row of its key has only just ended (`PaidFailures.GraceCutShort`; exactly when: `PaidSweep.TurnRespectsGraceIff`).
- *The sweep can be held up for ever.* A hundred due rows of a store that does not answer fill every listing, and no row due after them is looked at again, nor is its handle ever released (`SweepOutcome.StarvedForever`; such a table: `SweepOutcome.CrowdStarves`). When everything due is listed and answered, what has lapsed is released (`SweepOutcome.SweepLeavesOnlyPaidUp`).
- *`ListActiveDevices` is not preserved by the backfill* (`Devices.ActiveDeviceIsLost`; exactly when: `Devices.ActiveListKeptIff`). An active old document whose registration in the new release is inactive disappears from it. `ListDevices` is preserved.
- *The availability pre-check is too strict for one claimant* (`Availability.ReturningOwnerIsPutOff`; exactly who: `Availability.AvailabilityIsExact`): the owner who gave the handle up, back within its cooldown.
- *`LIST_DEFAULT_LIMIT=-1`, documented as "no cap", under a capped maximum* makes every request without a limit fail (`Pages.UncappedDefaultRefusesPlainRequests`; exactly when: `Pages.PlainRequestRefusedIff`): the loader's comparison lets -1 through and the handler then substitutes the largest safe integer.

## Model

| member | source | states |
|---|---|---|
| `Registry.MsUTC` | pkg/storage/mongostore/handles.go:44 | the latest whole millisecond not after a time; whole milliseconds stay |
| `RegistryLaws.OwnerUpdateLands` | pkg/storage/mongostore/handles.go:144-161 | an owner update that matches leaves the row exactly as a fresh claim would, keeping its birth time, and keeps the invariant |
| `RegistryLaws.ReclaimLands` | pkg/storage/mongostore/handles.go:167-197 | so does a reclaim, clearing every release field |
| `RegistryLaws.InsertLands` | pkg/storage/mongostore/handles.go:199-210 | an insert lands only where there was no row |
| `RegistryLaws.ReleaseKeepsInv` | pkg/storage/mongostore/handles.go:219-261 | a release keeps skeletons and active keys unique and each row either active with a certificate or released with release fields |
| `RegistryLaws.WritesLandIffAccepted` | pkg/storage/mongostore/handles.go:134-211 | of the three writes one lands exactly when the claim is acceptable, and it is the owner update exactly for an update |
| `RegistryLaws.RefusalIsExplained` | pkg/storage/handles.go:209-281 | after a refusal, diagnosing the same registry names the rule that refused and never a race |
| `RegistryLaws.DecisionIsFirstRefusal` | pkg/storage/handles.go:209-281 | the answer is the first rule that refuses, in the order taken, unchanged, stale, key has handle, cooldown, too similar; a claim is accepted exactly when none does |
| `RegistryLaws.SuccessHolds` | pkg/storage/mongostore/handles.go:134-211 | a claim answered created, updated or unchanged leaves its handle held by its key, with its document, serial and date |
| `RegistryLaws.UnchangedIff` | pkg/storage/handles.go:219-226 | a claim is unchanged exactly when the row holds just those four already |
| `RegistryLaws.AcceptedRow` | pkg/storage/mongostore/handles.go:144-210 | the rest of an accepted row: skeleton, no release field, birth time kept, and no other row touched |
| `RegistryLaws.CreatedIff` | pkg/storage/mongostore/handles.go:163-210 | created exactly when nobody's skeleton or key stands against it and the handle is new, or released under an older date and not cooling down against this key |
| `RegistryLaws.UpdatedIff` | pkg/storage/mongostore/handles.go:144-161 | updated exactly when the key holds the handle under an older date and another serial and nobody else looks like it |
| `RegistryLaws.ReleaseAppliesIff` | pkg/storage/mongostore/handles.go:219-260 | a release applies exactly to an active row, an owner's to its own under an older date |
| `RegistryLaws.ReleasedRow` | pkg/storage/mongostore/handles.go:234-256 | what it writes and what it leaves, field by field |
| `RegistryLaws.ReleaseRefusedIff` | pkg/storage/handles.go:293-337 | when it is invalid, not the owner's, stale or applied already |
| `RegistryLaws.ReleaseIsExplained` | pkg/storage/handles.go:293-337 | what a release that matched nothing is told, by the row it then reads |
| `RegistryLaws.ReleaseDecided` | pkg/storage/handles.go:293-322 | undisturbed, a release is applied or its refusal named; it never ends in "release applied nowhere" |
| `RegistryLaws.ClaimKeepsInv` | pkg/storage/mongostore/handles.go:129-211 | whatever a claim does keeps the registry invariant |
| `RegistryLaws.ReplayedClaimIsUnchanged` | pkg/storage/handles.go:219-226 | resubmitting an accepted claim is recognised and changes nothing |
| `RegistryLaws.ReplayedReleaseIsNoOp` | pkg/storage/handles.go:188-192 | resubmitting an applied tombstone is recognised and changes nothing; a replayed operator release finds no active handle |
| `RegistryLaws.WhoMayComeBack` | pkg/storage/handles.go:118-126 | after a release the owner who gave the handle up may reclaim it at once, anyone else exactly when no cooldown runs |
| `HandleStores.HandleStore.UpdateOwned` | pkg/storage/mongostore/handles.go:144-161 | matches, misses or is refused exactly as the conditional update specifies, and changes one row or none |
| `HandleStores.HandleStore.ReclaimReleased` | pkg/storage/mongostore/handles.go:167-197 | the same for the reclaim |
| `HandleStores.HandleStore.InsertNew` | pkg/storage/mongostore/handles.go:199-210 | the same for the insert under the three unique keys |
| `HandleStores.HandleStore.UpdateReleased` | pkg/storage/mongostore/handles.go:229-260 | the same for the release write |
| `HandleStores.HandleStore.FindBySkeleton` | pkg/storage/mongostore/handles.go:92-94 | the row holding a skeleton, in any state, or none |
| `HandleStores.HandleStore.FindByIdentityKey` | pkg/storage/mongostore/handles.go:98-100 | the key's active row, or none |
| `HandleStores.HandleStore.Diagnose` | pkg/storage/handles.go:209-281 | reads one row after another and reaches the diagnosis over one snapshot |
| `HandleStores.HandleStore.ClaimOnce` | pkg/storage/mongostore/handles.go:134-211 | undisturbed, one pass decides as one look at the registry would and leaves exactly the row that decision names |
| `HandleStores.HandleStore.ClaimHandle` | pkg/storage/mongostore/handles.go:121-127 | with its retry, the same, and never ends in a race; a success leaves the handle holding the claim's key, document, serial and millisecond date, and unchanged means it held just those |
| `HandleStores.HandleStore.ReleaseHandle` | pkg/storage/mongostore/handles.go:219-261 | undisturbed, releases, recognises a replay or names the refusal, and changes only its own row |
| `ClaimSteps.WriteChanges` | pkg/storage/mongostore/handles.go:129-134 | a step changes the registry exactly when its write matched, by one guarded write to one row, and keeps the invariant |
| `ClaimSteps.NextKeepsCall` | pkg/storage/mongostore/handles.go:115-127 | only a call's own steps move it, and it comes to report a write exactly when one of them made it |
| `ClaimRuns.ReachableInv` | pkg/storage/mongostore/mongostore.go:129-144 | over every interleaving: skeletons unique over all rows, keys unique over active ones, active exactly when a certificate is there and then no release fields |
| `ClaimRuns.StepMovesRow` | pkg/storage/mongostore/handles.go:129-261 | a row moves only by a landed write of a call on its own handle |
| `ClaimRuns.RowsPersist` | pkg/storage/handles.go:37-38 | over every interleaving no row is removed, createdAt stays, issuedAt never falls |
| `ClaimRuns.AtMostOneWrite` | pkg/storage/mongostore/handles.go:115-127 | over every interleaving a call that reports a write made exactly one, and any other call, its retry included, made none |
| `ClaimRuns.AcceptedClaimWrote` | pkg/storage/mongostore/handles.go:134-211 | a claim answered Created or Updated made that very write, its guard true then, and its answer and effect what one look at the registry decided then |
| `ClaimSteps.WriteIsDecision` | pkg/storage/mongostore/handles.go:134-261 | any write that matches, of a claim or a release, answers and leaves what deciding the whole call at that moment would |
| `ClaimRuns.RegistryIsSerial` | pkg/storage/mongostore/handles.go:115-261 | every interleaving leaves the registry its landed calls would leave decided one after another |
| `ClaimAnswers.AnswerIsTrueNow` | pkg/storage/handles.go:209-281 | a diagnosis step answers with what the registry shows then, or with the cooldown of the row it read before |
| `ClaimAnswers.AnswersWereTrue` | pkg/storage/handles.go:209-281 | over every interleaving each named conflict a claim returns was true of the registry at some moment while the call ran |
| `ClaimAnswers.AnswerIsDecisionIff` | pkg/storage/handles.go:209-281 | the read that answers a claim answers what one look at the registry then decides: always when the answer is read off the handle's row, and otherwise exactly when that row still stands as the diagnosis needs and the key holds nothing else |
| `ClaimAnswers.AnswersWereDecided` | pkg/storage/handles.go:209-281 | over every interleaving a claim told taken, unchanged or stale was so decided at some moment of the call; so was any other, unless another call's write landed during the pass that answered |
| `ClaimAnswers.RacedTwice` | pkg/storage/mongostore/handles.go:115-127 | a claim that gives up as raced had another call's write land during each of its two passes |
| `ClaimAnswers.CallsEnd` | pkg/storage/mongostore/handles.go:115-127 | whatever the others do, a claim needs at most twelve database operations, its retry included, and a release two |
| `ReleaseAnswers.ReleaseAnswersWereTrue` | pkg/storage/handles.go:293-322 | a refusal is true of the row read; "stale" is true at the write or the read unless the owner did not hold the handle at the write and a claim landed in between; "applied nowhere" means a claim landed on a handle free at the write |
| `ReleaseAnswers.StaleIsRightIff` | pkg/storage/handles.go:311-317 | whatever else runs, "stale" is right exactly when the write released the handle or met a row of it at most a millisecond older than the tombstone |
| `ReleaseAnswers.AppliedNowhereIsRightIff` | pkg/storage/handles.go:318-321 | "applied nowhere" can be given, and then falsely, exactly when the operator's write found nobody holding the handle |
| `ClaimAlone.ClaimAloneDecides` | pkg/storage/mongostore/handles.go:115-211 | a claim nothing interferes with is answered within six operations by the pure decision, without retrying |
| `ClaimAlone.ReleaseAloneDecides` | pkg/storage/mongostore/handles.go:219-261 | likewise a release, within two |
| `ClaimHistory.StampBeatsHistory` | pkg/storage/mongostore/handles.go:139-191 | a landed certificate or tombstone is strictly newer, in milliseconds, than everything the handle held before |
| `ClaimHistory.StampsStrictlyRise` | pkg/storage/mongostore/handles.go:232-250 | so nothing superseded can be written again, over any interleaving |
| `ClaimHistory.HeldUntilReleased` | pkg/storage/handles.go:178-182 | a held handle stays with its key until a release lands on it |
| `ClaimHistory.CreatedTwiceMeansReleased` | pkg/storage/handles.go:178-182 | between two claims created for one handle, or one key, the handle held was released |
| `ClaimHistory.RowsStayFolded` | pkg/handlers/lookup.go:227-230 | if every claim carries a fixed fold of its handle, so does every row, always |
| `ClaimHistory.OneSkeletonOneHandle` | pkg/storage/mongostore/mongostore.go:130-134 | then two claims created with one skeleton are for one handle, across releases too |
| `ClaimHistory.ReleasedRowFrozen` | pkg/storage/mongostore/handles.go:213-218 | a released row does not change in any field until a claim lands on it |
| `ClaimHistory.ReleasedRowHasReleaser` | pkg/storage/mongostore/handles.go:213-261 | every released row is what one release made of an active one |
| `ClaimHistory.CooldownBinds` | pkg/storage/mongostore/handles.go:167-177 | before cooldownUntil nobody is given the handle but the key whose own tombstone released it; after an operator release nobody |
| `ClaimHistory.AlreadyAppliedExactly` | pkg/storage/handles.go:324-337 | a tombstone against a released row is answered as already applied exactly when it is the one that released it |
| `Handles.ComputeSkeleton` | pkg/handles/handles.go:84-98 | the loop over a builder and the last rune computes the five-stage fold |
| `Handles.ComputeIsGenerated` | pkg/handles/handles.go:129-141 | true exactly when some split is an adjective and an animal before two digits |
| `Handles.Tier` | pkg/handles/handles.go:106-108 | a handle's tier is its length, up to 7 |
| `HandleLaws.ValidateIff` | pkg/handles/handles.go:44-69 | invalid exactly for a wrong length, a wrong end or a wrong character; reserved exactly for a valid handle that looks like a reserved name |
| `HandleLaws.ServiceNamesAreReserved` | pkg/handles/handles.go:46-49 | which names are reserved |
| `HandleLaws.GeneratedIff` | pkg/handles/handles.go:129-141 | the names given away are exactly an adjective's letters, an animal's and two digits |
| `SkeletonLaws.SkeletonIsSkeleton` | pkg/handles/handles.go:71-98 | a skeleton has no upper case, separator, fold source, "rn", "vv" or doubled character |
| `SkeletonLaws.SkeletonIsIdempotent` | pkg/handles/handles.go:77-98 | folding twice is folding once |
| `SkeletonLaws.ImageIsExactlySkeletons` | pkg/handles/handles.go:71-98 | the image of the fold is exactly those strings |
| `SkeletonLaws.SeparatorsDoNotMatter` | pkg/handles/handles.go:72 | inserting or removing a separator anywhere leaves the skeleton |
| `SkeletonLaws.CaseDoesNotMatter` | pkg/handles/handles.go:85 | so does changing the case of any letter |
| `SkeletonLaws.CapitalsFoldToSmall` | pkg/handles/handles.go:85 | a capital anywhere folds as its small letter |
| `SkeletonLaws.LookAlikesFoldTogether` | pkg/handles/handles.go:74 | 0 and o, 1 or i and l, 5 and s, 2 and z, 8 and b fold together anywhere in any handle |
| `SkeletonLaws.RnFoldsToM` | pkg/handles/handles.go:73 | so do rn and m |
| `SkeletonLaws.VvFoldsToW` | pkg/handles/handles.go:73 | and vv and w, except right after a v |
| `SkeletonLaws.DoublesDoNotMatter` | pkg/handles/handles.go:89-96 | and a character written twice or once |
| `SkeletonLaws.OtherLettersStay` | pkg/handles/handles.go:84-98 | a letter or digit that looks like nothing else is its own skeleton |
| `Availability.ReasonIff` | pkg/handlers/lookup.go:371-397 | each reason the pre-check gives, in terms of the handle and the rows |
| `Availability.AvailabilityIsExact` | pkg/handlers/lookup.go:371-397 | for any key that holds nothing, the pre-check says free exactly when a claim dated now would be created, save for an owner returning within its cooldown; it says too similar and taken exactly when the claim would be told so |
| `Availability.ReturningOwnerIsPutOff` | pkg/handlers/lookup.go:371-397 | for any valid handle, its owner who gave it up is told it cools off, at a moment when the claim would be created |
| `Availability.AvailabilityForStrangers` | pkg/handlers/lookup.go:368-397 | for a key that was not the row's last one it is exact |
| `Availability.LookAlikesNeverCoexist` | pkg/storage/mongostore/mongostore.go:130-134 | no interleaving ever registers two handles with one skeleton |
| `Search.SmallestAreFirst` | pkg/storage/mongostore/handles.go:264-304 | a tier query returns the first matches in ascending order, all of them if they fit |
| `Search.FindRows` | pkg/storage/mongostore/handles.go:264-304 | the rows of those handles, in that order |
| `Search.StageFinds` | pkg/handlers/lookup.go:271-302 | after any number of tiers: at most ten, distinct, active, matched, the exact handle first, and nothing missed unless there are ten |
| `Search.ShortListIsWhole` | pkg/handlers/lookup.go:288-300 | cutting each tier query at ten loses nothing while fewer than ten are found |
| `Search.NothingBetterIsMissed` | pkg/handlers/lookup.go:259-302 | a matching handle is left out only when ten of the same tier or better were found |
| `StringOrder.LessIff` | pkg/storage/mongostore/handles.go:264-304 | the order of the results is that of a dictionary |
| `Search.StageAscends` | pkg/handlers/lookup.go:288-300 | what a tier adds comes after what better tiers found, in dictionary order |
| `Search.MatchedIffAnswers` | pkg/handlers/lookup.go:260-269 | a handle matches exactly when it is held and is the query, begins with it, has a skeleton that begins with the query's of two characters, or has the query of three inside |
| `Search.FoundIs` | pkg/handlers/lookup.go:271-302 | at most ten, each once, all matching, the exact one first, all there are if fewer than ten, and none of a lower tier while one that begins with the query is left out |
| `Search.Find` | pkg/handlers/lookup.go:271-302 | the loop, with its early exit and seen-map, returns the certificates of exactly those handles in order |
| `PaidServers.SubscriptionStore.BindSubscription` | pkg/storage/mongostore/subscriptions.go:71-101 | lands exactly when there is no row, or the row is still bound as read; then that row alone changes, is live, bound and of the given status, and keeps its birth time; else nothing changes |
| `PaidServers.SubscriptionStore.ListLapsedSubscriptions` | pkg/storage/mongostore/subscriptions.go:148-157 | the first unmarked rows past the cutoff, as on file, by expiry and id, none left out unless the limit is reached |
| `PaidServers.SubscriptionStore.ListSubscriptionsByHandle` | pkg/storage/mongostore/subscriptions.go:143-145 | exactly the rows bound to the handle, each once |
| `PaidServers.PaidServer.BindSubscription` | pkg/handlers/purchases.go:160-186 | the retry loop binds, or refuses because the row's key still holds the handle it pays for |
| `PaidServers.PaidServer.RequirePurchase` | pkg/handlers/purchases.go:100-150 | passes exactly who needs no purchase or shows a fitting, entitled one that pays for no other held handle; binds a live row then and changes nothing otherwise; no held handle's row moves |
| `PaidServers.PaidServer.PutHandle` | pkg/handlers/lookup.go:190-239 | a refused or unpaid claim leaves both tables alone, an unaccepted one the registry; an accepted one gives its key the handle and touches no other; a tombstone touches no subscription; no held handle's row moves |
| `PaidServers.PaidServer.ApplyStatus` | pkg/handlers/purchases.go:191-204 | a status that does not fit is stored as wrong_tier and does not extend, in the table and in the caller's copy |
| `PaidServers.PaidServer.Refresh` | pkg/handlers/purchases.go:208-218 | changes its own row's status and nothing else, and that only when the store vouches; a misfit is stored as wrong_tier and ends no later |
| `PaidServers.PaidServer.Notify` | pkg/handlers/purchases.go:263-360 | at most the row the notification names changes or is new, and no binding moves; a new row pays for what its predecessor pays for |
| `PaidServers.PaidServer.AdoptLinkedToken` | pkg/handlers/purchases.go:364-392 | adds a row exactly when the store vouches for the token, its predecessor is on file and it is not; the row pays for what the predecessor pays for, a misfit exactly as long |
| `PaidServers.PaidServer.ReleaseLapsed` | pkg/handlers/purchases.go:437-467 | the loop over the handle's other rows decides whether another pays, and the row is marked done either way |
| `PaidServers.PaidServer.SweepLapsedSubscriptions` | pkg/handlers/purchases.go:399-433 | lists the lapsed rows, at most a hundred, and takes their turns in order; every handle it changed was released rightly by the row on file, and the count is the handles held before and released after |
| `PaidLaws.EntitledIff` | pkg/purchases/purchases.go:112-120 | in force: active or canceled before its end, or in the store's grace; nothing else |
| `PaidLaws.FittingTurn` | pkg/handlers/purchases.go:409-467 | a turn on a row vouched for in its tier releases, and so changes the registry, exactly when what the store says is not in force and ended before the cutoff, the key has the handle and no other fitting row of it is in force; and what it then writes |
| `PaidLaws.MisfitTurn` | pkg/handlers/purchases.go:191-204 | the same of a row vouched for in another tier, whose earlier end counts whatever its state |
| `PaidLaws.ForgottenTurn` | pkg/handlers/purchases.go:411-413 | and of one the store has forgotten, whose listed status counts |
| `PaidLaws.UnansweredTurn` | pkg/handlers/purchases.go:414-417 | a row nobody can be asked about is left, and its handle too |
| `PaidLaws.TurnWritesRow` | pkg/handlers/purchases.go:191-218 | what a turn writes in its own row |
| `PaidLaws.ListingIs` | pkg/storage/mongostore/subscriptions.go:148-157 | a sweep lists at most a hundred rows, unmarked and ended before the cutoff, by end and id, leaving out none but later ones |
| `PaidLaws.GateTells` | pkg/handlers/purchases.go:100-150 | who is let through, and which refusal each of the others gets, case by case |
| `PaidLaws.GateBinds` | pkg/handlers/purchases.go:160-186 | the row a purchase let through leaves, field by field |
| `PaidLaws.AcceptedProfileIsStored` | pkg/handlers/lookup.go:223-239 | an accepted profile's document, serial, date and fold are what is stored under its handle and key |
| `PaidLaws.UnchangedProfileWasStored` | pkg/handlers/lookup.go:223-239 | one told unchanged was stored already |
| `PaidLaws.TombstoneReleases` | pkg/handlers/lookup.go:190-209 | a tombstone that applies is dated by itself, the owner's, with the configured cooldown |
| `PaidLaws.PutGoes` | pkg/handlers/lookup.go:190-239 | which profiles are given up, refused and unpaid |
| `PaidLaws.NoticeRefreshes` | pkg/handlers/purchases.go:263-283 | a notification's row takes the store's word if it fits, and is wrong_tier until the earlier end if not |
| `PaidLaws.NoticeAdopts` | pkg/handlers/purchases.go:362-392 | the row a successor token gets, field by field |
| `PaidLaws.NoticeIgnored` | pkg/handlers/purchases.go:263-392 | the notifications that change nothing |
| `SweepOutcome.ListingIsSweptRightly` | pkg/handlers/purchases.go:399-433 | the same of any listing and any replies |
| `SweepOutcome.SweepSettlesRows` | pkg/handlers/purchases.go:394-398 | when all that is due is listed and answered, no unmarked row is left past its grace |
| `SweepOutcome.SweepLeavesOnlyPaidUp` | pkg/handlers/purchases.go:394-398 | and, where no row already done was renewed, every paid handle still held has an unmarked row that is entitled or within its grace |
| `SweepOutcome.StarvedRowIsNotListed` | pkg/storage/mongostore/subscriptions.go:148-157 | a row with at least a hundred due rows before it is not on the listing |
| `SweepOutcome.StarvedForever` | pkg/handlers/purchases.go:405-418 | while those are not answered, no sweep changes the row or releases its handle |
| `SweepOutcome.CrowdStarves` | pkg/handlers/purchases.go:49-51 | a table in which that is so |
| `PaidRuns.BindKeepsBacking` | pkg/handlers/purchases.go:152-186 | a bind takes no row from a handle that is still held |
| `PaidRuns.HeldPaidHandlesAreBacked` | pkg/handlers/purchases.go:97-186 | in every run every held handle the app does not give away has a row bound to exactly that handle and key |
| `PaidRuns.CreatedPaidHandleIsPaidFor` | pkg/handlers/purchases.go:100-150 | a paid handle newly created was vouched for by an accepted store, of its tier, entitled now, and its row is bound and unmarked |
| `PaidRuns.BindingsMoveOnlyWhenGivenUp` | pkg/handlers/purchases.go:152-159 | no step moves a row off a handle its key still holds, or removes a row |
| `PaidRuns.SubscriptionIDsDiffer` | pkg/storage/subscriptions.go:49-52 | two receipts share a row only if they are one receipt of one store |
| `PaidRuns.HeldPaidNeverOutnumberRows` | pkg/storage/subscriptions.go:64-66 | held paid handles never outnumber subscription rows |
| `PaidCover.MarkingTurn` | pkg/handlers/purchases.go:435-467 | a turn on a handle's only unmarked row that marks it releases the handle, unless the row was rebound or a row already done pays |
| `PaidCover.TurnKeepsCoverIff` | pkg/handlers/purchases.go:409-467 | whatever the store answers, a turn keeps every held paid handle in the sweep's sight exactly when its row is not the only one that does, or is bound as listed with no row already done paying for the handle |
| `PaidCover.HeldPaidHandlesStayCovered` | pkg/handlers/purchases.go:399-467 | in every run without such a turn every held paid handle keeps a bound row the sweep still looks at |
| `PaidFailures.RenewedDoneRowHidesHandle` | pkg/handlers/purchases.go:437-467 | a run into a held paid handle all of whose rows are done, through a done row that was renewed |
| `PaidFailures.ReboundRowHidesHandle` | pkg/handlers/purchases.go:409-467 | a run in which the store speaks the truth and a fitting, live row is marked wrong_tier and done |
| `PaidTiers.WrongTierMarksMisfits` | pkg/handlers/purchases.go:188-204 | a row's tier differs from its handle's exactly when it is wrong_tier, so whatever is entitled fits |
| `PaidTiers.StaleTurnKeepsTiersIff` | pkg/handlers/purchases.go:191-204 | a turn keeps that whatever the store says exactly when the handle listed and the one on file are of one tier |
| `PaidTiers.WrongTierNeverExtends` | pkg/storage/subscriptions.go:43-46 | over any number of wrong-tier refreshes the expiry never passes that of the last fitting period |
| `PaidTiers.StaleTurnExtendsIff` | pkg/handlers/purchases.go:191-204 | a turn on a row updated since it was listed keeps that whatever the store says exactly when the listed status ends no later |
| `PaidFailures.RefundedRowRunsOn` | pkg/handlers/purchases.go:191-204 | a run in which a turn undoes a refund recorded since the listing |
| `PaidTiers.AdoptedMisfitBuysNoTime` | pkg/handlers/purchases.go:378-387 | a successor token of the wrong tier lasts no longer than its predecessor |
| `PaidSweep.TurnReleases` | pkg/handlers/purchases.go:409-467 | a turn releases its handle exactly on its grounds, and touches no other handle |
| `PaidSweep.TurnMarksLapsedRows` | pkg/handlers/purchases.go:424-430 | a turn is done with its row exactly when the row has lapsed |
| `PaidSweep.SweepReleasesOnlyLapsed` | pkg/handlers/purchases.go:394-433 | over any batch and any answers, a released handle had lapsed before the cutoff by the status its turn judged, was still its key's, and no other row paid for it; every other handle is unchanged |
| `PaidSweep.TurnsFindTheirRows` | pkg/handlers/purchases.go:405-413 | in a batch listed from the table each turn finds its row as on file |
| `PaidSweep.ListedSweepReleasesOnlyLapsed` | pkg/handlers/purchases.go:399-433 | so there a released handle had lapsed by the row on file, refreshed or, where the store had forgotten it, as it was; and that row ends lapsed and done |
| `PaidSweep.TurnSparesEntitledIff` | pkg/handlers/purchases.go:411-425 | whatever the store answers, a turn releases for no row entitled on file exactly when the listed copy has not lapsed, or the row on file is not entitled, or the handle is not the key's or is paid for by another row |
| `PaidFailures.RenewedRowLosesItsHandle` | pkg/handlers/purchases.go:409-430 | a run in which a row entitled on file loses its handle and is marked done |
| `PaidSweep.TurnRespectsGraceIff` | pkg/handlers/purchases.go:27 | whatever the store answers, a turn releases no handle another fitting row of its key has not lapsed for, exactly when there is no such row, or one of them is entitled, or the handle is not the key's |
| `PaidFailures.GraceCutShort` | pkg/handlers/purchases.go:437-447 | a run in which a handle is released while another of its rows is within its grace |
| `PaidSweep.GroundsRuleOutEntitledRows` | pkg/handlers/purchases.go:442-447 | where misfits are marked, that means no other row of the key on the handle was entitled |
| `PaidSweep.UnavailableRowsUntouched` | pkg/handlers/purchases.go:396-398 | rows whose store could not be asked, or that were not listed, are unchanged |
| `PaidSweep.SweepCountsReleases` | pkg/handlers/purchases.go:397-433 | the count is the number of handles held before and released after |
| `Outputs.TaggedShareIsWhole` | pkg/handlers/helpers.go:210-241 | a payee somebody tagged an output for gets exactly its tagged outputs |
| `Outputs.Share` | pkg/handlers/helpers.go:188-274 | every payee's share is non-empty, in order, and after the delivery-fee output |
| `Outputs.SharesAreDisjoint` | pkg/handlers/helpers.go:243-270 | no output position goes to two recipients, duplicates and mixed tagging included |
| `Outputs.OutputsGivenOnceIff` | pkg/handlers/helpers.go:210-270 | two recipients get one real output exactly when two entries naming it are tagged for two payees, or are both unused and fall to two payees by place |
| `Outputs.AllocateByPosition` | pkg/handlers/helpers.go:222-234 | the positional branch is the same allocation |
| `Outputs.AllocateByTag` | pkg/handlers/helpers.go:235-271 | the tagged and mixed branch is the same allocation |
| `Outputs.BuildPerRecipientOutputs` | pkg/handlers/helpers.go:188-274 | with outputs counted from the second if the server takes a fee: fails exactly when fewer are free than fee rows wait; else maps exactly the recipients owed a fee, each to all outputs tagged for it, or to the free one with as many free before it as wait before its last row |
| `Outputs.UntaggedGoByPosition` | pkg/handlers/helpers.go:222-234 | with no tags the recipient whose last fee is the i-th gets the i-th output, after the server's own |
| `Pages.FitsIff` | pkg/handlers/list_messages.go:334-375 | within budget: 256 bytes, the encodings and a separator each; -1 is no budget |
| `Pages.ViewOfOne` | pkg/handlers/list_messages.go:412-436 | a message is in view if no id is asked for, or its own is |
| `Pages.ViewAppends` | pkg/handlers/list_messages.go:412-436 | one message after another, in the order of the box |
| `Pages.BoundedIff` | pkg/handlers/list_messages.go:296-315 | a bounded integer is a whole safe number within the least and the most |
| `Pages.AcceptedIff` | pkg/handlers/list_messages.go:203-249 | bounds are accepted exactly when offset and skip agree and limit, or its default, and offset, or skip, or 0, are whole numbers within bounds |
| `Pages.RefusedIff` | pkg/handlers/list_messages.go:203-249 | and otherwise which of the three is reported |
| `Pages.FallbackPageMessages` | pkg/handlers/list_messages.go:412-436 | the filtered box from offset, cut at the fetch limit |
| `Pages.FillPage` | pkg/handlers/list_messages.go:334-375 | the loop stops at the longest prefix within limit and budget, and tells an oversized first row apart |
| `Pages.ReadMessagePage` | pkg/handlers/list_messages.go:317-385 | the page is that prefix; hasMore exactly when a message exists at nextOffset; 413 exactly when the message at offset alone does not fit |
| `Pages.PageIsUnique` | pkg/handlers/list_messages.go:317-385 | a box shows one page at an offset, so the page read is the page walked |
| `Pages.WalkCollects` | pkg/handlers/list_messages.go:377-384 | following nextOffset ends and collects, in order and once each, everything before the first oversized message |
| `Pages.WalkIsWholeBoxIff` | pkg/handlers/list_messages.go:317-385 | from 0 that is the whole box exactly when no single message is over the budget |
| `Pages.AcceptedBoundsDoNotOverflow` | pkg/handlers/list_messages.go:203-249 | accepted bounds keep offset, limit and the next offset within 64 bits |
| `Pages.LoadedIff` | pkg/config/config.go:248-270 | which bounds a configuration may have |
| `Pages.UncappedDefaultRefusesPlainRequests` | pkg/config/config.go:248-266 | a loaded configuration under which every request without bounds is refused |
| `Pages.PlainRequestRefusedIff` | pkg/config/config.go:248-266 | under a loaded configuration a request without bounds is refused exactly for an uncapped default under a capped maximum, or a default above the safe integers |
| `Devices.DocIsListed` | pkg/storage/mongostore/mongostore.go:647-694 | a list has, document after document of the identity, a device that says what it says, but for old copies of a registration |
| `Devices.SetMigrates` | pkg/storage/mongostore/mongostore.go:527-534 | giving one old document its token, wherever the bulk update is, is on the way to the same end |
| `Devices.DropMigrates` | pkg/storage/mongostore/mongostore.go:520-563 | so is dropping an old document whose pair is registered |
| `Devices.MigrationKeepsLists` | pkg/storage/mongostore/mongostore.go:647-694 | every identity's list of devices is the same before and after |
| `Devices.ActiveListKeptIff` | pkg/storage/mongostore/mongostore.go:702-704 | the list of active devices is kept exactly when no active old document is shadowed by an inactive registration |
| `Devices.ActiveDeviceIsLost` | pkg/storage/mongostore/mongostore.go:702-704 | a valid collection whose one active device is no longer listed as active once migrated |
| `Devices.DeviceStore.UpdateMany` | pkg/storage/mongostore/mongostore.go:532-538 | the bulk update, in any order and stopping at a collision, is on the way to the same end |
| `Devices.DeviceStore.BackfillDeviceTokens` | pkg/storage/mongostore/mongostore.go:514-564 | ends with every document holding its token, pairs unique, every list as it was; a second run changes nothing |
| `BackfillRuns.AdvanceMovesOn` | pkg/storage/mongostore/mongostore.go:527-563 | any operation of any replica keeps the collection valid and on its way to the one end, and leaves colliding documents colliding |
| `BackfillRuns.ReplicasReachOneEnd` | pkg/storage/mongostore/mongostore.go:514-518 | over every interleaving of any number of backfills every list of devices stays as it was, and once any replica has finished the collection is exactly what one backfill leaves |
| `BackfillRuns.ReplicasFinish` | pkg/storage/mongostore/mongostore.go:514-564 | each operation brings its replica closer to its end and sets no other back |

## Left out

- HTTP, JSON decoding, routing, logging, configuration loading beyond the list bounds, authentication, payment internalization, certificate parsing and signatures: taken as parsed inputs.
- App Store and Play clients, JWS and Pub/Sub: an arbitrary answer stands for them.
- Driver failures and timeouts: a write applies, misses or is refused by an index. The SQL backend is not part of this model.
- Interleaving inside bind-then-claim and inside read-then-release of the paid-handle code: a request, a notification and a sweep turn are one step each, so the third bind attempt's race error never arises.
- PaidServers.PaidServer.SweepLapsedSubscriptions: runs undisturbed; that a turn's row may have moved since it was listed is in the runs, whose turns take any row as listed.
- PaidCover.HeldPaidHandlesStayCovered: leaves out runs with a turn that can hide a handle; PaidCover.TurnKeepsCoverIff says that such a turn does hide one under some answer.
- PaidTiers.WrongTierMarksMisfits: leaves out runs with a turn on a row that has moved to a handle of another tier since it was listed; PaidTiers.StaleTurnKeepsTiersIff says that such a turn does break the marking under some answer.
- PaidTiers.WrongTierNeverExtends: leaves out runs with a turn on a row whose end on file was brought forward since it was listed; PaidTiers.StaleTurnExtendsIff likewise.
- SweepOutcome.SweepSettlesRows: takes a grace period that is not negative, and goes by the cutoff cut to milliseconds, as the listing does.
- SweepOutcome.StarvedForever: sweeps follow each other with nothing in between; a request or a notification that changes one of the rows ends it.
- BackfillRuns.ReplicasReachOneEnd: the bulk update ends when no document lacks its token; what replicas of the previous release write meanwhile is left to the next start, and not modelled.
- StringOrder.Less: orders strings by character, as the database orders their bytes.
- Handles.ComputeSkeleton: lower-cases ASCII letters only; case folding of other letters is not modelled.
- Handles.ComputeIsGenerated: the word lists are arbitrary sets.
- Devices.DeviceStore.BackfillDeviceTokens: the documents are kept in the order the listing's cursor yields them; since the backfill does not touch updatedAt, what is proved for every order holds for that one. Registration and the other device writes are left out.
- Pages.ReadMessagePage: a message is its id and the length of its encoding; NaN and infinities as request bounds are left out.
- Outputs.BuildPerRecipientOutputs: the error's text is left out; the key an output names is an input.
- `BRFCID`, the product-id parsers, quotes, permissions, rate limits, acknowledgements and push delivery: small beside the above.
