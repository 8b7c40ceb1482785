# Audit trails for MongoDB and GORM: a verified model

This project models an audit-trail library. One half wraps a MongoDB collection:
every insert, update, replace and delete leaves a record `field -> [old, new]`
with a per-entity version. The other half is a GORM plugin that does the same
for SQL statements inside their own transaction. The model follows
`mongodbv2/`, `postgres-gorm/` and, for the older numbering scheme, the root
`plugin.go`; `mongodb/` has the same logic as `mongodbv2/` for an older driver.

`dafny verify dfyconfig.toml` checks everything.

## What is proved

- **Change maps.** The diff of two documents patches one visible projection
  into the other, forwards and backwards, exactly when no visible field becomes
  nil. Go's map order cannot show in the changes of an operator update exactly
  when the operators agree on the fields they share.
- **What is shown.** In every change map of both libraries hidden fields are
  absent, redacted ones show the mask in place of their values, and the others
  the values the mode has for them; what change maps do not show does not
  influence them.
- **Deferral.** What a deferred write stores is what the handler answered, and a
  write that cannot be deferred says why. The sanitised request has the same changes as the original one,
  in every mode and order; two requests are sanitised alike exactly when neither
  can be or they differ only in hidden values. Writes that differ only in hidden
  values have the same changes, and leave the same trail exactly when the gate,
  which measures documents before anything is hidden, treats them alike.
- **Depth gate.** The stack traversal terminates on any graph, cyclic or not,
  and rejects exactly the values that nest deeper than the limit; with size,
  deadline and field count it decides exactly which writes are recorded inline.
- **The MongoDB trail.** An invariant over every run of one client's calls and
  batches with any faults and with other clients changing documents and
  allocating versions in between, and exactly when its versions have no gaps;
  replaying the trail rebuilds the live documents after every
  ordinary run; a batch stops exactly at its first failure, leaving later
  documents untouched, or pays for each failure with one record; a changed
  document gets its record exactly when it was read before the change.
- **Versions.** For interleaved SQL transactions: committed versions increase,
  are gapless exactly when no allocated version lost its row, and always are
  when audit errors fail the statement. The same for the MongoDB counters with
  their two-step upsert, where a call can end on a duplicate key exactly when
  callers try once and the counter does not exist yet. The counters hand out what
  `MAX(version) + 1` would exactly when nothing was lost; `MAX(version) + 1` itself
  numbers without gaps or repetitions exactly when no insert was out of date.
- **Atomicity.** With audit errors failing the statement, a mutation is
  committed if and only if all its audit rows are, and any failing call of its
  callbacks rolls it back; otherwise errors never cost the mutation, and it has all
  its rows if and only if none of its allocations and saves failed.
- **Policies.** The two libraries read struct tags alike exactly when fields of
  one name are treated alike; sharing and caching of policy sets is never
  observable, whatever callers do to the sets they were given.

## Layout

| module | content |
|---|---|
| `Values`, `FieldPolicies` | BSON values, documents, changes; skip, redact and whitelist sets |
| `ChangeBuilders`, `ChangeLaws` | the four change builders; patching and order independence |
| `DeferredRequests` | default computer, sanitiser, hidden values |
| `DepthGate` | depth traversal and complexity gate |
| `AuditTrail`, `AuditLaws` | one audited write with every fault; locality, invariants, batch loops |
| `AuditedCollection`, `CollectionRuns` | the mutating methods; whole runs and replay |
| `VersionKeys`, `VersionSequences` | counter keys; increasing and gapless sequences |
| `MongoVersions`, `AllocationRuns` | the find-and-increment protocol; the retry loop as a run of it |
| `SqlTransactions`, `SqlAtomicity` | interleaved transactions; versions and all-or-nothing |
| `GormChanges`, `GormPlugin` | change maps of the plugin; its callbacks inside a statement |
| `LegacyVersions` | `MAX(version) + 1` against the counters |
| `StructTags`, `PolicySets` | tag collection and agreement; isolation of caches and policies |

## Assumptions

- A counter row stays locked by the transaction that incremented it until that
  transaction ends; rollback discards all of a transaction's writes; a failed
  statement leaves no trace; GORM commits unless an error is attached, and runs
  the plugin's after-callbacks (`postgres-gorm/plugin.go:117-131`) before its own
  callback that commits or rolls back.
- MongoDB increments an existing counter document atomically; an upsert is a
  match followed by an insert that can lose to another client's; counters are
  never deleted.
- A trail is what one client records, in the order it does. Records of other
  clients are not part of it; their allocations move the counters it uses. That no
  two clients get one version is proved of the counters (`MongoVersions`).
- SHA-256 has no collisions, so a counter is named by the text that is digested;
  type names contain no NUL.
- `reflect.DeepEqual` on BSON values is equality (there is no NaN).
- Numbers do not overflow.
- Go map iteration visits keys in an arbitrary order, each once.

## Where the code and its documents differ

The model follows the code.

- An update that does not read as a document of operators, such as an
  aggregation pipeline, is applied and, unless it is deferred, goes unrecorded
  without an error (`CollectionRuns.UnrecordedUpdateIff`).
- When the pre-read of an update or replacement fails and errors do not fail the
  call, the record is attributed to the entity `<nil>`; a delete is not recorded
  at all (`mongodbv2/collection.go:519-650`; `CollectionRuns.AttributedIff` says
  exactly when attribution is right, `CollectionRuns.UnreadCallsGoAstray` what
  happens otherwise).
- The gate measures documents before hidden values are removed, so the size of a
  hidden value can decide whether a write is recorded, deferred or refused
  (`AuditLaws.HiddenSizesCanShow`; `AuditLaws.SameTrailIff` says exactly when).
- An upsert that inserts a document is not audited; neither is anything a batch
  changed before the server reported an error (`mongodbv2/collection.go:534-540`,
  `mongodbv2/collection.go:578-584`).
- When the pre-read of a Save fails and errors do not fail the statement, GORM
  reports no changed field and there is no snapshot to compare with: the Save
  commits unaudited (`GormPlugin.Session.RunUpdate`).
- `docs/auditable.requirements.md:79` says `Updates(struct)` records what GORM
  reports as changed. The code also records every column that differs from the
  snapshot, so untouched columns that are zero in the struct are recorded as
  cleared (`GormChanges.PartialUpdateExactIff` says exactly when not).
- `postgres-gorm/audit.go:46-48` allows for gaps. With errors failing the statement
  and the SQL store there are none (`SqlTransactions.FailClosedIsGapless`).
- A diff cannot tell a field set to nil from a removed one; replay is exact
  exactly where that does not matter (`ChangeLaws.ForwardPatchIff`).
- Inserts and replacements apply the tags of their own document, updates and
  deletes only those of the collection; the policies coincide exactly under the
  condition of `PolicySets.SamePolicyIff`.

## Model

| member | source | states |
|---|---|---|
| `ChangeBuilders.DiffDocs` | mongodbv2/collection.go:898-944 | whatever the map order of the two loops, an entry for exactly the recorded keys that differ (absence counts) or are redacted, with the right sides |
| `ChangeBuilders.CreateChanges` | mongodbv2/collection.go:994-1013 | whatever the map order, `[nil, value]` for exactly the recorded fields, masked where redacted |
| `ChangeBuilders.DeleteChanges` | mongodbv2/collection.go:1018-1037 | whatever the map order, `[value, nil]` for exactly the recorded fields, masked where redacted |
| `ChangeBuilders.ExtractFields` | mongodbv2/collection.go:970-987 | the inner loop overwrites the map with the contribution of one operator |
| `ChangeBuilders.Record` | mongodbv2/collection.go:956-968 | a hidden field leaves the map alone, a redacted one is masked on both sides, others get `[nil, value]` |
| `ChangeBuilders.ExtractUpdateChanges` | mongodbv2/collection.go:952-989 | the map is the extraction along some order that visits every operator once |
| `ChangeLaws.ForwardPatchIff` | mongodbv2/collection.go:898-944 | patching the old visible projection with the diff gives the new one if and only if no visible field became nil |
| `ChangeLaws.BackwardPatchIff` | mongodbv2/collection.go:898-944 | patching backwards gives the old projection if and only if no visible nil was dropped |
| `ChangeLaws.DiffReversed` | mongodbv2/collection.go:898-944 | swapping the documents swaps the sides of every visible entry |
| `ChangeLaws.NoClearChangeIff` | mongodbv2/collection.go:898-944 | no visible entry if and only if the documents agree on everything visible |
| `ChangeLaws.InsertAndDeleteAreDiffs` | mongodbv2/collection.go:994-1037 | delete entries are the diff to the empty document, visible insert entries the diff from it |
| `ChangeLaws.ExtractionAt` | mongodbv2/collection.go:952-989 | a field is recorded if and only if an operator touches it, with the pair of such an operator, and the last one visited wins |
| `ChangeLaws.OrderIndependentIff` | mongodbv2/collection.go:952-989 | all orders give one map if and only if no two operators record different pairs for a field |
| `ChangeLaws.ExtractionIsUnion` | mongodbv2/collection.go:952-989 | operators in agreement: the map is the union of their own contributions |
| `DeferredRequests.Compute` | mongodbv2/diff.go:89-108 | the changes of the mode in some operator order, inline; an error on an expired context or unknown mode |
| `DeferredRequests.SanitizeDocument` | mongodbv2/diff.go:150-166 | keeps exactly the included fields, masking redacted ones; nil stays nil |
| `DeferredRequests.SanitizeDeferredRequest` | mongodbv2/diff.go:129-148 | succeeds if and only if the update and every operator argument read as documents, with the cleaned request |
| `DeferredRequests.WhatChangesShow` | mongodbv2/collection.go:898-1048 | in every mode hidden fields are absent and a redacted field shows the mask in place of each value it has; `_id` shows in operator updates alone |
| `DeferredRequests.WhatOperatorsShow` | mongodbv2/collection.go:970-987 | a visible field under one operator shows nil and then the new value for `$set`, nil for `$unset`, the operator with its operand otherwise |
| `DeferredRequests.WhatCleaningLeaves` | mongodbv2/diff.go:150-166 | of a document the sanitiser leaves nothing of hidden fields, the mask of redacted ones, the rest as it is |
| `DeferredRequests.WhatSanitisingLeaves` | mongodbv2/diff.go:129-148 | both documents and the fields under every operator are cleaned; nil stays nil and everything else stays |
| `DeferredRequests.DeferralPreservesMeaning` | mongodbv2/diff.go:89-148 | the sanitised request has the original's changes, in all modes and along every operator order |
| `DeferredRequests.SanitisingIsIdempotent` | mongodbv2/diff.go:129-166 | sanitising again succeeds and changes nothing |
| `DeferredRequests.SameCleanFieldsIff` | mongodbv2/diff.go:150-166 | two documents sanitise alike if and only if they have the same kept keys and visible values |
| `DeferredRequests.SameCleanRequestIff` | mongodbv2/diff.go:129-166 | two requests are cleaned alike if and only if they differ in hidden values only |
| `DeferredRequests.SanitisedAlikeIff` | mongodbv2/diff.go:129-148 | two requests get the same answer from the sanitiser if and only if it refuses both, or they differ in hidden values only and the same operators read as documents |
| `DeferredRequests.HiddenValuesDoNotReachChanges` | mongodbv2/collection.go:898-1048 | requests that differ in hidden values only have the same changes in every mode |
| `DeferredRequests.InsertRevealsTheRest` | mongodbv2/collection.go:994-1013 | insert entries are equal if and only if the documents look alike, `_id` apart |
| `DepthGate.DepthOf` | mongodbv2/diff.go:168-215 | terminates on every graph and returns the nesting depth cut off at one above the limit, in any order of map children |
| `DepthGate.Deref` | mongodbv2/diff.go:181-190 | pointer and interface hops lead to the concrete value or nil, at no cost in depth |
| `DepthGate.NestedByCell` | mongodbv2/diff.go:197-211 | what nests in what: the values of a map, the elements of a slice or array, the exported fields of a struct, nothing in a scalar |
| `DepthGate.NestedByRef` | mongodbv2/diff.go:181-193 | a value nests once by itself, hops are free, nil does not nest |
| `DepthGate.CappedReachesIff` | mongodbv2/diff.go:168-215 | the cut-off depth reaches d if and only if d values nest |
| `DepthGate.CappedIsMin` | mongodbv2/diff.go:168-215 | where the true depth exists the result is the minimum of it and the cut-off |
| `DepthGate.DeepestIsMax` | mongodbv2/diff.go:194-212 | the children's contribution is their maximum |
| `DepthGate.Visited` | mongodbv2/diff.go:176-213 | expanding an item keeps the answer accounted for and lowers the weighted-stack measure |
| `DepthGate.ExpansionShrinks` | mongodbv2/diff.go:173-213 | fewer than b children one level down weigh less than their parent |
| `DepthGate.RequestComplexity` | mongodbv2/diff.go:110-127 | the verdict of the first snapshot over a limit; passes if and only if every non-nil snapshot can be encoded, fits the size limit and does not nest past the depth limit |
| `DepthGate.DepthLimitIff` | mongodbv2/diff.go:122-124 | the limit is exceeded if and only if one value more than it nests (or it is negative) |
| `DepthGate.DepthLimitIsTrueDepth` | mongodbv2/diff.go:122-124 | nesting past the limit is the true depth being greater than it |
| `DepthGate.CyclesExceedEveryLimit` | mongodbv2/diff.go:168-215 | a value that contains itself is stopped by every limit |
| `AuditTrail.AuditWriter.NextVersion` | mongodbv2/collection.go:822-838 | the retry loop returns one above the counter, or above what others allocated meanwhile, or nothing on a server fault, and leaves the counter there |
| `AuditTrail.AuditWriter.DeferChanges` | mongodbv2/collection.go:386-404 | hands over the sanitised request only; refuses without handler, unreadable update, failing handler or empty reference |
| `AuditTrail.AuditWriter.ComputeChanges` | mongodbv2/collection.go:362-384 | runs the gate over the request's documents; defers on its verdict, on any computing error, on a deadline and on too many fields; inline otherwise |
| `AuditTrail.AuditWriter.WriteAudit` | mongodbv2/collection.go:743-819 | the whole new trail and the error of one write, under every fault, an unconvertible insert included |
| `AuditTrail.AuditWriter.Persist` | mongodbv2/collection.go:767-788 | the record is stored unless the insert fails; a panicking callback is an error but the record stays |
| `AuditLaws.WriteOutcome` | mongodbv2/collection.go:743-765 | unconvertible, refused and empty writes consume no version; otherwise a record is appended exactly when there is no error but a callback's, and carries its counter's new value |
| `AuditLaws.WriteIsLocal` | mongodbv2/collection.go:743-838 | a write touches the counter and records of its own entity alone |
| `AuditLaws.WriteKeepsTrail` | mongodbv2/collection.go:743-838 | every write keeps the invariant of the trail |
| `AuditLaws.WriteFullIff` | mongodbv2/collection.go:743-838 | a write keeps versions and counter of an entity equal in number if and only if it is another entity's or wastes no version |
| `AuditLaws.RecordedInlineIff` | mongodbv2/collection.go:362-384 | a result is inline if and only if the documents can be encoded, are small and shallow enough, no deadline passed and the changes are few enough |
| `AuditLaws.GateErrorIs` | mongodbv2/diff.go:110-127 | which error the gate gives: that of the first document over a limit, encoding before size and depth |
| `AuditLaws.ReasonPastTheGate` | mongodbv2/collection.go:364-379 | past the gate: deadline, unknown mode, deadline again, number of fields, in this order |
| `AuditLaws.DeferredWrite` | mongodbv2/collection.go:386-404 | a deferred write hands over its own sanitised request and stores the changes and reference of the handler's answer, marked as deferred |
| `AuditLaws.RefusedWrite` | mongodbv2/collection.go:386-404 | a write that cannot be deferred stores nothing, consumes no version, and says why: the reason, an unreadable update, the handler's failure, an empty reference |
| `AuditLaws.WriteFaults` | mongodbv2/collection.go:743-819 | a failing server leaves counter and trail alone, a failing insert costs the version, a panicking callback costs nothing |
| `AuditLaws.CollectionsCountApart` | mongodbv2/collection.go:796-823 | entities of different collections never share a counter |
| `AuditLaws.SameTrailIff` | mongodbv2/collection.go:362-404 | writes that differ in hidden values only, whatever their sizes and depths, leave the same trail, requests handed to deferral included, if and only if both pass or neither does and, where nothing is deferred, both are refused for one reason |
| `AuditLaws.HiddenValuesLeaveNoTrace` | mongodbv2/collection.go:362-404 | in particular when the documents also have the same shape and size |
| `AuditLaws.HiddenSizesCanShow` | mongodbv2/diff.go:110-127 | two inserts with equal visible parts, one recorded and one refused for the size of its redacted value |
| `AuditLaws.LoopIsPrefix` | mongodbv2/collection.go:586-591 | a failing loop attempted exactly its passes up to the first failure, others attempted all |
| `AuditLaws.LoopOutcome` | mongodbv2/collection.go:586-591 | over distinct entities: each attempted one stands as if its write were the only one, later ones are untouched; failing, the loop returns the first error, all writes before it succeeded, and the failing one stored nothing unless only its callback panicked |
| `AuditLaws.FailureCostsOnlyItself` | mongodbv2/collection.go:672-678 | over distinct entities each ends up as if its write had been the only one, failures included |
| `AuditLaws.AttemptKeepsTrail` | mongodbv2/collection.go:586-591 | the invariant survives every batch |
| `AuditedCollection.Collection.InsertOne` | mongodbv2/collection.go:455-479 | documents, trail and error of an insert under every fault, a document the library cannot convert included |
| `AuditedCollection.Collection.InsertMany` | mongodbv2/collection.go:483-514 | a failing insert is not audited even if some documents were stored; otherwise the audit loop over the documents, unconvertible ones included; either way one event of a run |
| `AuditedCollection.Collection.UpdateOne` | mongodbv2/collection.go:519-547 | documents, trail and error of an update under every fault: an unread document, other clients changing documents between read and mutation, an unaudited upsert |
| `AuditedCollection.Collection.UpdateMany` | mongodbv2/collection.go:552-592 | every exit with documents, trail and error: the failed pre-read that leaves a batch unaudited, the failing server that changed some documents, and the audit loop over the ids read before; always one event of a run |
| `AuditedCollection.Collection.ReplaceOne` | mongodbv2/collection.go:596-622 | the same for a replacement, which keeps the `_id` of the document it meets; an unconvertible replacement is diffed as nil |
| `AuditedCollection.Collection.DeleteOne` | mongodbv2/collection.go:627-650 | the same for a delete; unread or empty documents are not audited |
| `AuditedCollection.Collection.DeleteMany` | mongodbv2/collection.go:655-679 | every exit with documents, trail and error: the failed pre-read that leaves a batch unaudited, the failing server that deleted some documents, and the audit loop over the documents read before; always one event of a run |
| `AuditedCollection.Collection.Audit` | mongodbv2/collection.go:472-474 | an audit error is returned only when audit errors fail the call |
| `AuditedCollection.Collection.AuditEach` | mongodbv2/collection.go:586-591 | the audit loop leaves what the specification of a batch says, error and orders included |
| `AuditedCollection.BatchStep` | mongodbv2/collection.go:586-591 | one more write either ends the loop with its error or leaves it running |
| `CollectionRuns.EveryRunKeepsTheTrail` | mongodbv2/collection.go:362-404 | after any calls and batches of a client with any faults, others changing documents and allocating versions in between: allowed actions, positive increasing versions, inline records small and without reference, deferred ones with one, no empty updates, only sanitised requests handed over |
| `CollectionRuns.TrailGaplessIff` | mongodbv2/collection.go:743-838 | after every run the recorded versions of an entity are 1..n of its counter if and only if no insert failed after its allocation, no first allocation was overtaken and nobody else allocated for it |
| `CollectionRuns.UnrecordedUpdateIff` | mongodbv2/collection.go:743-765 | with nothing failing, an operator update goes unrecorded if and only if no operator touches a kept field |
| `CollectionRuns.AttributedIff` | mongodbv2/collection.go:455-650 | with nothing else failing, the changed entity gets exactly one record if there is something to record, the collection audits such calls and the document was read before (or is itself named `<nil>`), and none otherwise; a document that appears after the pre-read counts as unread |
| `CollectionRuns.UnreadCallsGoAstray` | mongodbv2/collection.go:519-650 | after a pre-read that failed without failing the call, or found nothing yet, the document changes, an update or replacement is recorded for `<nil>`, a delete for nobody |
| `CollectionRuns.MutationHappens` | mongodbv2/collection.go:455-651 | a call the server carries out changes its own document and no other; a replacement keeps the old `_id` |
| `CollectionRuns.CallsWithoutAudit` | mongodbv2/collection.go:455-651 | refused, failing and unmatched calls leave the trail as it is but for a reported pre-read; an upsert may still store a document |
| `CollectionRuns.SkippedAudits` | mongodbv2/collection.go:167-173 | calls of a kind the collection does not audit, and deletes of unread or empty documents, leave no record |
| `CollectionRuns.WhatCallsAsk` | mongodbv2/collection.go:362-363 | what the computer and the deferral handler are told of a call: kind, documents before and after, update, policy, collection and document |
| `CollectionRuns.AuditErrorsReturnedIff` | mongodbv2/collection.go:472-474 | audit errors come back exactly when they are to fail calls, and never undo the mutation |
| `CollectionRuns.UnconvertibleReplacement` | mongodbv2/collection.go:613-616 | a replacement the library cannot convert is recorded as the removal of every field |
| `CollectionRuns.BatchesWriteLikeCalls` | mongodbv2/collection.go:483-679 | each write of a batch is the one the call on its document alone makes |
| `CollectionRuns.FaultlessBatch` | mongodbv2/collection.go:586-591 | a batch in which nothing fails attempts every document and returns no error |
| `CollectionRuns.UpdateManyRecords` | mongodbv2/collection.go:552-592 | with nothing failing each document attempted has one more record, which patches it as the server did; none exactly if the policy hides every field touched |
| `CollectionRuns.DeleteManyRecords` | mongodbv2/collection.go:655-679 | with nothing failing each document attempted has one more record, which shows all that was visible of it as removed |
| `CollectionRuns.InsertManyRecords` | mongodbv2/collection.go:483-514 | with nothing failing each document attempted has one more record, which builds all that is visible of it |
| `CollectionRuns.OperatorsPatch` | mongodbv2/collection.go:952-989 | patching with the extracted `$set` and `$unset` entries does what the server did, in any order |
| `CollectionRuns.ChangesFollowDocument` | mongodbv2/collection.go:455-651 | the changes of each call take the visible document it found to the one it left |
| `CollectionRuns.CallKeepsMirror` | mongodbv2/collection.go:455-651 | an ordinary call keeps the replayed trail equal to the live documents |
| `CollectionRuns.OrdinaryRunsGoOn` | mongodbv2/collection.go:455-479 | ordinary runs of every length exist: any nil-free document within the limits can be inserted next |
| `CollectionRuns.ReplayRebuildsDocuments` | mongodbv2/collection.go:455-1037 | after every ordinary run, folding an entity's records gives its live visible document, or nothing if it was deleted |
| `CollectionRuns.OldSideIsReplayedState` | mongodbv2/collection.go:596-650 | the old side of the next replacement or delete is the state replayed so far |
| `VersionKeys.KeysAreInjective` | mongodbv2/collection.go:823 | entities share a counter key only if they are the same |
| `VersionSequences.GaplessIff` | postgres-gorm/store.go:99-115 | increasing bounded versions are exactly 1..n if and only if there are n of them |
| `MongoVersions.GrantsAreUnique` | mongodbv2/collection.go:822-838 | in every interleaving with any faults, no version is granted twice and every number is granted or spent on a lost reply |
| `MongoVersions.GaplessIffNoReplyLost` | mongodbv2/collection.go:822-838 | the versions granted are 1..n if and only if no reply was lost |
| `MongoVersions.TwoAttemptsSuffice` | mongodbv2/collection.go:829-836 | a caller that retries once never gives up on a duplicate key |
| `MongoVersions.CanGiveUpIff` | mongodbv2/store.go:64-71 | from any state, some continuation makes a call end on a duplicate key if and only if callers try once and the entity's counter does not exist when it starts |
| `MongoVersions.GivingUpIsADuplicateKey` | mongodbv2/collection.go:829-836 | a call that gives up leaves a duplicate key failure |
| `MongoVersions.OneAttemptCanFail` | mongodbv2/store.go:64-71 | a schedule in which a caller that does not retry, as the GORM store for MongoDB, fails on a duplicate key |
| `MongoVersions.CallsEnd` | mongodbv2/collection.go:829-836 | in every interleaving a call is over after the server steps remaining to it |
| `MongoVersions.FourStepsSuffice` | mongodbv2/collection.go:829-836 | an allocation takes at most four server steps, whatever the others do |
| `AllocationRuns.RetryLoopIsARun` | mongodbv2/collection.go:822-838 | the retry loop's outcome is that of a legal run of the protocol, with the same counters and version |
| `SqlTransactions.VersionsIncrease` | postgres-gorm/store.go:99-115 | in every interleaving committed versions increase up to the counter, which moved once per committed row or committed loss |
| `SqlTransactions.GaplessIffNothingLost` | postgres-gorm/plugin.go:285-317 | committed rows are versions 1..n of the counter if and only if no allocated version was committed without its row |
| `SqlTransactions.FailClosedIsGapless` | postgres-gorm/plugin.go:336-352 | with errors failing the statement committed rows are always 1..n of the counter |
| `SqlTransactions.NoLossWithoutFailedSave` | postgres-gorm/plugin.go:303-308 | in either mode a run in which no save fails loses no version |
| `SqlTransactions.AllocatedVersionIsNew` | postgres-gorm/store.go:85-97 | a version about to be saved is in no committed row and no other transaction's rows |
| `SqlTransactions.CommittedCounterKept` | postgres-gorm/store.go:74-82 | committing appends the transaction's versions after those of each counter it moved |
| `SqlTransactions.CommitKeepsOthers` | postgres-gorm/store.go:74-82 | another transaction's commit does not disturb an open one |
| `SqlTransactions.InvStep` | postgres-gorm/store.go:77-115 | every step of every transaction keeps counters, rows, losses and locks consistent |
| `SqlTransactions.FailOpenLeavesGaps` | postgres-gorm/plugin.go:303-308 | a run, errors not failing the statement, that leaves a gap |
| `SqlAtomicity.CommittedIffAudited` | postgres-gorm/plugin.go:254-317 | in every interleaving with faults anywhere, a mutation with changes is committed if and only if all its audit rows are, and otherwise none is |
| `SqlTransactions.FailedIff` | postgres-gorm/plugin.go:285-352 | in every run a statement carries an error exactly when errors fail it and one of its allocations, saves or callbacks failed |
| `SqlTransactions.CommittedMeansNoFailure` | postgres-gorm/plugin.go:285-352 | with errors failing the statement, a mutation commits only if no call of its failed, a panicking callback included |
| `SqlAtomicity.CommittedFullyIff` | postgres-gorm/plugin.go:285-352 | in either mode and every interleaving, a committed mutation has all its audit rows if and only if none of its allocations and saves failed |
| `SqlAtomicity.RowsOnlyOfCommitted` | postgres-gorm/store.go:77-97 | in either mode audit rows belong to committed mutations and to one of their elements |
| `SqlAtomicity.FailedNeverCommits` | postgres-gorm/plugin.go:285-317 | once an audit error sticks, whatever follows, the statement does not commit |
| `GormPlugin.Session.NextVersion` | postgres-gorm/plugin.go:336-352 | allocates one above what the transaction sees, or, on a fault or a held lock, gives the element up |
| `GormPlugin.Session.Persist` | postgres-gorm/plugin.go:285-317 | saves and notifies, or loses the version; which steps of the machine that was, and that a failing save or a panicking callback sticks to the statement exactly when errors are to fail it |
| `GormPlugin.Session.AuditHead` | postgres-gorm/plugin.go:577-593 | allocating and saving one element is a run of the machine and fails nothing when nothing outside does |
| `GormPlugin.Session.AuditSingle` | postgres-gorm/plugin.go:532-594 | skips elements without key or changes, audits the others |
| `GormPlugin.Session.Audit` | postgres-gorm/plugin.go:254-281 | every element is dealt with, a failing one in the middle does not stop the loop |
| `GormPlugin.Session.RunStatement` | postgres-gorm/plugin.go:254-317 | a whole create or delete is a run of the machine; a failed mutation is rolled back unaudited; when errors fail the statement any failing call of any element rolls it back, otherwise none does; all or nothing in the first case |
| `GormPlugin.WorkOfParts` | postgres-gorm/plugin.go:272-277 | a slice is audited element by element, in order |
| `GormPlugin.WorkOfOne` | postgres-gorm/plugin.go:532-594 | an element is audited under the type's name and its own key |
| `GormPlugin.IsAuditedIff` | postgres-gorm/plugin.go:541-575 | an element is audited exactly when some column is and it can be named or is being created |
| `GormPlugin.ElementHasRow` | postgres-gorm/plugin.go:254-317 | a fully audited statement has a row for every element it had to audit |
| `GormPlugin.Session.BeforeUpdate` | postgres-gorm/plugin.go:139-173 | the primary key guard and the snapshot, refusing an unreadable row when errors fail the statement |
| `GormPlugin.Session.RunUpdate` | postgres-gorm/plugin.go:442-529 | a Save or struct update that goes through records the columns reported or differing from the row as far as it was read (an unread Save nothing); exactly when it goes through without faults; with errors failing the statement the row was read, and it leaves all its rows or none |
| `GormPlugin.Session.RunMapUpdate` | postgres-gorm/plugin.go:366-436 | the same for a map update, whose record is that of some order of its keys |
| `GormPlugin.Session.BeforeDelete` | postgres-gorm/plugin.go:175-186 | refuses exactly the single-struct delete without primary key, unless bulk is allowed |
| `GormPlugin.Session.RunDelete` | postgres-gorm/plugin.go:175-186 | a guarded delete of one row can name it and audits it whenever a column is audited; with errors failing the statement, one that does not go through leaves no row |
| `GormChanges.SchemaOnlyMode` | postgres-gorm/plugin.go:201-211 | whitelist mode if and only if some field carries a whitelist tag |
| `GormChanges.SingleChanges` | postgres-gorm/plugin.go:545-572 | the entries of a create or delete, in schema order |
| `GormChanges.EntriesAt` | postgres-gorm/plugin.go:545-572 | a column has an entry if and only if some field of that column has one, and it is that of such a field |
| `GormChanges.AuditedFromTags` | postgres-gorm/plugin.go:219-227 | which fields are audited, by name and tag: no timestamp, none tagged out, and under a whitelist only listed and redacted ones |
| `GormChanges.RedactedColumnsDoNotShow` | postgres-gorm/plugin.go:560-571 | rows that differ only in redacted or unaudited columns are created and deleted with the same record |
| `GormChanges.UpdateRecordsColumn` | postgres-gorm/plugin.go:470-509 | a field has an entry exactly when reported or different from the snapshot; redacted it shows the mask on both sides, otherwise old and new value |
| `GormChanges.RedactedUpdatesDoNotShow` | postgres-gorm/plugin.go:504-508 | updates that differ only in redacted or unaudited columns, and change the same redacted ones, leave the same record |
| `GormChanges.ChangedColumns` | postgres-gorm/plugin.go:470-509 | the entries of a Save or struct update, in schema order |
| `GormChanges.CreateRecordsAuditedColumns` | postgres-gorm/plugin.go:545-566 | a create records exactly the audited columns; a field that does not share its column with another audited one shows its value, masked where the tag says so |
| `GormChanges.DeleteReversesCreate` | postgres-gorm/plugin.go:545-572 | a delete records what a create of the row would, sides swapped |
| `GormChanges.SaveDiff` | postgres-gorm/plugin.go:442-512 | Save records exactly the audited columns that differ from the snapshot, and replaying them gives the new record on every field with a column of its own |
| `GormChanges.UnreadUpdateRecordsNothingIff` | postgres-gorm/plugin.go:485-497 | without a snapshot nothing is recorded if and only if GORM reports no audited field |
| `GormChanges.PartialUpdateExactIff` | postgres-gorm/plugin.go:485-497 | over the fields with a column of their own, a struct update records exactly the columns it changed if and only if no audited field is zero over a different row value and GORM reports no unchanged one |
| `GormChanges.PartialUpdateCounterexample` | postgres-gorm/plugin.go:485-497 | an update of the title that records the untouched status as cleared |
| `GormChanges.ChangesFromMap` | postgres-gorm/plugin.go:389-419 | the map is the one built along some order that visits every key once |
| `GormChanges.MapAlongAt` | postgres-gorm/plugin.go:389-419 | a column is recorded if and only if an included key stands for it, with the entry of such a key, and the key visited last wins |
| `GormChanges.LookUpFieldPrefersColumns` | postgres-gorm/plugin.go:395-399 | a key stands for the field of that column, failing that the field of that name, failing that none |
| `GormChanges.MapIncludedIff` | postgres-gorm/plugin.go:392-402 | which keys are recorded, by the tag of their field; timestamps are not exempt here |
| `GormChanges.MapUpdateRecordsKey` | postgres-gorm/plugin.go:389-416 | a key that is the only one for its column is recorded there in any order, masked if redacted, otherwise with old and new value |
| `GormChanges.RedactedKeysShowTheMask` | postgres-gorm/plugin.go:409-411 | redacted keys never show their values, however the column is spelled |
| `GormChanges.MapOrderIndependentIff` | postgres-gorm/plugin.go:389-419 | all orders of the keys give one map if and only if no two spellings of a column disagree |
| `LegacyVersions.CounterRefinesMaxIff` | plugin.go:181-194 | in either mode and every interleaving, the committed versions are the ones MAX + 1 would have handed out and the counter is the MAX, if and only if none was lost |
| `LegacyVersions.AllocationRefinesMaxIff` | plugin.go:181-194 | the same for the version a statement is about to allocate and the rows it sees, its own losses counted |
| `LegacyVersions.CounterIsMax` | plugin.go:181-194 | in either mode and every interleaving the counter is the MAX over the committed rows as long as nothing was lost, in particular when errors fail the statement or no save fails |
| `LegacyVersions.CounterHandsOutMaxPlusOne` | plugin.go:181-194 | in either mode, whenever a statement that lost nothing allocates, MAX + 1 over the rows it sees is the counter's version |
| `LegacyVersions.MaxPlusOneIff` | plugin.go:164-194 | in every schedule with any faults, MAX + 1 numbers an entity 1..n if and only if no insert was out of date (rows of the entity had come in since its query, or were there when the query failed); and exactly then no version is given twice |
| `LegacyVersions.SerialIsGapless` | plugin.go:164-194 | in particular MAX + 1 numbers an entity 1..n when its writers take turns and no query fails, inserts failing or not |
| `LegacyVersions.MaxPlusOneRepeats` | plugin.go:164-194 | overlapping writers, or a failed query, repeat a version |
| `StructTags.CollectStructTags` | mongodbv2/collection.go:255-300 | the walk over a type fills the sets the specification says |
| `StructTags.ParseOpsTag` | mongodbv2/collection.go:410-420 | the comma list adds its recognised operations and nothing else |
| `StructTags.FieldsAdd` | mongodbv2/collection.go:255-300 | for every nesting the walk collects exactly the tags of the flattened fields |
| `StructTags.WalkCollects` | mongodbv2/collection.go:255-300 | the sets hold exactly the names some field, at any depth of inline structs and pointers to them, is tagged with |
| `StructTags.BsonNameIs` | mongodbv2/collection.go:276-281 | a field goes by the text before the first comma of its bson tag, or by its lower-cased Go name if that is empty or a dash |
| `StructTags.OpsAre` | mongodbv2/collection.go:410-420 | the flag allows exactly the operations its list names, up to case and space; a list naming none changes nothing |
| `StructTags.WalkCollectsOp` | mongodbv2/collection.go:259-274 | the walk lists exactly the operations that flags on embedded structs, at any depth, name |
| `StructTags.SplitIs` | mongodbv2/collection.go:411 | splitting gives the comma-free parts that make up the list |
| `StructTags.TrimSpaceIs` | mongodbv2/collection.go:412 | trimming takes off space at both ends and nothing else |
| `StructTags.MongoViewFromTags` | mongodbv2/collection.go:1039-1048 | the decision for a name in terms of the tags its fields carry |
| `StructTags.LibrariesAgreeIff` | postgres-gorm/plugin.go:201-227 | both libraries hide, mask or show every field alike if and only if fields of one name are treated alike, in particular when names are distinct |
| `PolicySets.MergeStringSets` | mongodbv2/collection.go:326-341 | the union, which may be one of the arguments |
| `PolicySets.CloneStringSet` | mongodbv2/collection.go:351-360 | an equal set nobody else holds; nil stays nil |
| `PolicySets.EffectiveTreats` | mongodbv2/collection.go:343-349 | a field is skipped or redacted when the configuration, the collection's or the document's tags say so; a document's whitelist takes the place of the collection's |
| `PolicySets.SamePolicyIff` | mongodbv2/collection.go:343-349 | a document's tags leave the policy alone if and only if the collection's sets cover them |
| `PolicySets.CollectionForFixesThePolicy` | mongodbv2/collection.go:131-137 | a collection opened for a type uses one policy for its documents throughout |
| `PolicySets.Auditor.AuditTagsFromStruct` | mongodbv2/collection.go:222-253 | hit or miss, the sets are what a fresh walk would collect |
| `PolicySets.Auditor.FieldPolicy` | mongodbv2/collection.go:343-349 | the policy handed out is the expected one, in sets shared with nobody |
| `PolicySets.Auditor.ServeUntagged` | mongodbv2/collection.go:543 | updates and deletes get the policy of the configuration and the collection alone |
| `PolicySets.Auditor.Run` | mongodbv2/collection.go:222-253 | in every schedule of lookups, publications, policies with and without document tags, and tampering, every policy served is that of a fresh collection |

## Left out

- Custom change computers: the default one is modelled; deferral handlers are arbitrary, constrained by what the library checks of their answer.
- `AuditTrail.AuditWriter.ComputeChanges`: where the documents of a request sit in memory, how large their encodings are and whether the deadline passes are given with the write.
- `AuditedCollection.Collection.UpdateOne`: filters name one `_id`, and the document the server makes of an update is given.
- `AuditedCollection.Collection.UpdateMany`: the collection the server leaves and the ids read before are given; so they are for `InsertMany` and `DeleteMany`.
- `CollectionRuns.ReplayRebuildsDocuments`: covers top-level `$set` and `$unset` on different fields and not on `_id`; dotted paths, `$inc` and its kind, and pipelines record requests rather than values and cannot be replayed.
- `CollectionRuns.UnrecordedUpdateIff`: covers updates that are not deferred; a deferred one is recorded under its reference.
- `SqlTransactions.VersionsIncrease`: rows carry entity, version, owner and element, not the change map; `GormPlugin` ties the change maps to the elements audited.
- `GormPlugin.Session.RunStatement`: covers GORM's default transaction; statements inside a caller's longer transaction are runs of the machine whose commit comes later.
- `GormPlugin.Session.NextVersion`: waiting for a lock is giving up or being scheduled later; deadlocks end in a fault.
- `StructTags.CollectStructTags`: lower-casing is ASCII, and types are finite trees as the walk requires.
- `LegacyVersions.MaxPlusOneIff`: a row counts as inserted when other transactions can see it, a rolled back one as a failed insert; the root plugin's own change maps are those of `GormChanges` without snapshots and are not repeated.
- Stores outside the statement's transaction, and the MongoDB store behind GORM beyond its allocation protocol.
- Users, comments, timestamps, the record's own id, indexes, configuration defaults, table names, migration and read pass-throughs.
- Callbacks that write through the audited collection again, and statements on the audit tables themselves.
- Models that are not structs or slices of structs.
