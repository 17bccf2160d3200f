# Verification of Gitpod's stateful core

Dafny models of the parts of Gitpod whose correctness spans several calls, with proofs over every input, every
order of events or every run. Where the code changes state, the model does so too: objects are classes, rows are saved
in maps, documents are rewritten on the heap, and loops carry invariants. Each such method is proved against a pure
specification, and the properties are proved about the specification.

| file | models |
|---|---|
| `Timestamps.dfy`, `Billing.dfy`, `CostCenter.dfy` | the cost center table, in which every version of a record is a row, the usage ledger, and the manager that creates, updates, resets and invoices; one current record per id is what the table stands for |
| `Redaction.dfy` | redaction of JSON documents in place, with the scan over an object in any order of keys and its restart |
| `TopologicalSort.dfy`, `PeriodicDeleter.dfy` | the depth-first sort of the table descriptions, and the deleter that runs through it in reverse |
| `Initializer.dfy`, `InitializerSecrets.dfy` | the walk over workspace initializers, with paths in Go slices that share backing arrays, and extracting, gathering and injecting secrets |
| `Migration.dfy`, `MigrationOutcome.dfy`, `MigrationService.dfy` | any number of interleaved calls that migrate users to teams, each query a step that may fail before or after its effect; and one such call as the service carries it out |
| `JsonRpc.dfy` | server, client and queue of the JSON-RPC transport, alone and together as one system |
| `Topics.dfy` | the topics of the message bus under topic exchange matching |
| `Encryption.dfy` | padding, cipher block chaining and key rotation over any block cipher that can be inverted |
| `ChangelogScan.dfy`, `ChangelogFile.dfy` | the paged scan for release notes and the file written from them |
| `WebsocketReader.dfy` | reading messages as a stream of bytes |
| `Strings.dfy`, `Wrappers.dfy` | splitting and joining, and values that may be missing, for all of them |

`dafny verify dfyconfig.toml` checks everything.

## What turned out differently than expected

- Redaction never forces on account of a container: it is rewritten in place before it is compared with itself. So only
  strings directly in an object redact their siblings (`Redaction.RedactObject`).
- Extract and inject do not restore a tree in which some password starts with the placeholder prefix, and gathering
  returns more names than extracting when a node that holds a secret is shared. Both are stated as exact conditions
  (`InitializerSecrets.RoundTripExactlyWhen`, `InitializerSecrets.GatherAgreesExactlyWhen`), with the trees
  `InitializerSecrets.MarkedTree` and `InitializerSecrets.SharedTree` as instances.
- The migration leaves projects marked as deleted with the user, since the query for the user's projects does not return
  them (components/gitpod-db/src/typeorm/project-db-impl.ts:102-105). `Migration.SuccessMovesEverything` says which
  stay, `Migration.NoProjectStaysExactlyWhen` when none does, and `Migration.DeletedProjectStays` gives a run that
  leaves one.
- A response without result and without error exists, against section 5 of the JSON-RPC 2.0 Specification: a method that
  returns undefined yields one, and nothing else does (`JsonRpcMessages.RepliesAreWellFormed`, with an instance in
  `JsonRpcMessages.UndefinedIsAnswered`).
- A cipher set need not read back its own data: with two configurations of the same name and version the first one
  decrypts, whichever is primary. `Encryption.OwnDataComesBackByConfigs` gives the exact condition on the configurations
  and `Encryption.ShadowedPrimaryFails` an instance.
- An update of a cost center that is refused for its strategy or its kind of id has created or reset the record before.

## Model

| member | source | states |
|---|---|---|
| `Timestamps.TimestampsSortLikeTimes` | components/gitpod-db/go/time.go:128-132 | for years up to 9999, the stored strings compare exactly like the times they stand for, to the millisecond, and are equal exactly for equal milliseconds (section 5.1 of RFC 3339) |
| `Timestamps.TimestampReadsBack` | components/gitpod-db/go/time.go:128-132 | for years up to 9999, a timestamp has the 24 characters of the layout, with its separators in their places, and its numbers read back as year, month, day, hour, minute, second and millisecond (section 5.6 of RFC 3339) |
| `Timestamps.RenderOrder` | components/gitpod-db/go/time.go:128-132 | strings made of zero-padded fields of the same layout compare like the fields, first difference first |
| `Timestamps.DigitsOrder` | components/gitpod-db/go/time.go:128-132 | zero-padded numbers of the same width compare like the numbers, and are equal only for equal numbers |
| `Timestamps.LessIsTotal` | components/gitpod-db/go/cost_center.go:286-291 | the string order by which the newest version is chosen is total and asymmetric |
| `Timestamps.TruncateKeepsMillis` | components/gitpod-db/go/time.go:128-132 | writing a time to the millisecond keeps its millisecond, never moves it ahead, and changes nothing the second time |
| `Timestamps.AddMonthAdvances` | components/gitpod-db/go/cost_center.go:155-159 | adding a month moves a time ahead by exactly the length of the month it is in, at the same time of day, also where the day overflows into the month after |
| `Timestamps.AddMonthIsLater` | components/gitpod-db/go/cost_center.go:155-159 | adding a month moves a time ahead by 28 to 31 days |
| `Timestamps.MonthsBegin` | components/gitpod-db/go/cost_center.go:155-159 | the day of the year on which every month begins, in leap years and others |
| `Timestamps.DaysGrow` | components/gitpod-db/go/time.go:128-132 | a later date has a greater day number, over all years and leap years |
| `Billing.UsersAndTeams` | components/gitpod-db/go/workspace_instance.go:168-184 | an id is a user's or a team's exactly if it is that word, a colon, and anything without another colon; none is both |
| `Billing.StoringIsStable` | components/gitpod-db/go/time.go:51-95 | what is read back after a time column was written reads back the same from then on; a set time since 1970 comes back truncated to the millisecond |
| `Billing.LatestIs` | components/gitpod-db/go/cost_center.go:125-138 | the version with the greatest creation time string is the record that counts |
| `Billing.SavedIsLatest` | components/gitpod-db/go/cost_center.go:125-138 | a record saved under the current time becomes the version with the greatest creation time string |
| `Billing.SaveRefines` | components/gitpod-db/go/cost_center.go:125-138 | saving a record under the current time makes it the one that counts for its id and changes what counts for no other id |
| `Billing.CurrentIsWellKept` | components/gitpod-db/go/cost_center.go:170-234 | the record that counts for an id is filed under that id and its own creation time, has a limit that is not negative, and the minimum limit if it is a user on Stripe |
| `Billing.StoredIsWellKept` | components/gitpod-db/go/cost_center.go:170-234 | storing a record with admissible limits and times yields a row with admissible limits and times under the right key |
| `Billing.CoveredIsMonotone` | components/gitpod-db/go/cost_center.go:252-274 | an invoice with a cap that is not negative lowers a positive balance, never below zero, leaves any other balance alone, and with a cap of zero leaves nothing owed |
| `Billing.ResetsComeToRest` | components/gitpod-db/go/cost_center.go:304-332 | for an account, as the specification of repeated resets: at a fixed time exactly the first so many find it due, and after them it is not due |
| `Billing.ResetsCountMonths` | components/gitpod-db/go/cost_center.go:304-332 | the number of effective resets is that of the months gone by: between the days passed divided by 31 and by 28 |
| `Billing.ResetsAdvance` | components/gitpod-db/go/cost_center.go:140-168 | k resets move the end of the cycle ahead by between 28k and 31k days |
| `Billing.BalanceAfterResets` | components/gitpod-db/go/cost_center.go:304-332 | for an account: k effective resets take a positive balance b to max(0, b - k*100*limit) for a positive limit, to 0 after one reset for the limit 0, and leave a balance that is not positive alone |
| `CostCenters.NextCycleIsKeepable` | components/gitpod-db/go/cost_center.go:140-168 | starting the next cycle of an admissible record that has reached its end gives an admissible record |
| `CostCenters.ResetIsStored` | components/gitpod-db/go/cost_center.go:140-168 | the stored next version starts exactly at the old end of the cycle, ends a month later, and has the same id, limit and strategy |
| `CostCenters.ResetIsOneStep` | components/gitpod-db/go/cost_center.go:304-332 | a reset of a stored record together with its invoice is one step of the repeated resets of an account |
| `CostCenters.ListedIsDue` | components/gitpod-db/go/cost_center.go:276-302 | a record listed as ending before a time counts as expired at that time and ever after |
| `CostCenters.MaxIsLatest` | components/gitpod-db/go/cost_center.go:286-291 | the row that the listing joins on as the maximum of its id is the version with the greatest creation time string |
| `CostCenters.FindLatest` | components/gitpod-db/go/cost_center.go:125-138 | picks the version with the greatest creation time string from a table in any order, and none exactly if the id has no version |
| `CostCenters.CostCenterManager.GetCostCenter` | components/gitpod-db/go/cost_center.go:125-138 | returns the record that counts, and nothing exactly if there is none |
| `CostCenters.CostCenterManager.Save` | components/gitpod-db/go/cost_center.go:140-168 | stores the new version, keeps the table invariant, and what counts changes for this id alone |
| `CostCenters.CostCenterManager.IsExpired` | components/gitpod-db/go/cost_center.go:45-51 | a record is expired exactly if its end is set and lies before the time read |
| `CostCenters.CostCenterManager.GetBalance` | components/gitpod-db/go/usage.go:214-236 | returns the sum of the entries of one account |
| `CostCenters.CostCenterManager.InsertUsage` | components/gitpod-db/go/usage.go:108-112 | an entry whose id is taken is dropped; any other changes the balance of its own account by its amount and no other balance |
| `CostCenters.CostCenterManager.UpdateUsage` | components/gitpod-db/go/usage.go:114-123 | an entry of an unused id is added and one of a taken id replaces the first of that id; all others keep their places, and every balance moves by what has come and what has gone |
| `CostCenters.CostCenterManager.NewInvoiceUsageRecord` | components/gitpod-db/go/cost_center.go:252-274 | no invoice exactly if nothing is owed; otherwise a final invoice under an unused id that takes what is owed to the balance above the cap, a cap of zero being none |
| `CostCenters.CostCenterManager.BalanceOutUsage` | components/gitpod-db/go/cost_center.go:236-250 | takes what one account owes to what the cap leaves, only adds to the ledger, and changes no other account |
| `CostCenters.CostCenterManager.IncrementBillingCycle` | components/gitpod-db/go/cost_center.go:140-168 | unknown ids are reported; a record inside its cycle comes back unchanged; any other is saved under the present time with the same id, limit and strategy and a cycle that starts at its old end, at the present if it had none, and ends a month later |
| `CostCenters.CostCenterManager.ResetUsage` | components/gitpod-db/go/cost_center.go:304-332 | unknown ids and Stripe records are refused and nothing changes; a record inside its cycle is returned as it is; an expired one starts its next cycle and its limit is taken off what it owes; no other record and no other balance changes |
| `CostCenters.CostCenterManager.ResetRepeatedly` | components/gitpod-db/go/cost_center.go:304-332 | repeating the reset of a stored record comes to rest, after exactly the resets that its account has due at the last reading of the clock; record and balance are then those of the account after so many resets, so cycles follow each other without a gap and a balance b is left at max(0, b - k*100*limit), or 0 without a limit; no other record or balance changes; unknown ids and Stripe records are refused |
| `CostCenters.CostCenterManager.GetOrCreateCostCenter` | components/gitpod-db/go/cost_center.go:73-123 | creates a record with the default limit of its kind, on the free strategy, with a cycle from now to a month later if there is none; resets one that is not on Stripe and expired, and otherwise returns it unchanged |
| `CostCenters.CostCenterManager.UpdateCostCenter` | components/gitpod-db/go/cost_center.go:170-234 | each refusal with its exact condition: a negative limit, a user on Stripe below the minimum, an unknown kind of id; a refusal after the record was obtained leaves it created or reset all the same. An accepted update stores the default limit exactly on a change to the free strategy from another, and the requested one otherwise; a new cycle from its creation time to a month later exactly on a change to the free strategy or to Stripe, and the present one otherwise; a switch to Stripe leaves nothing owed |
| `CostCenters.CostCenterManager.ListManagedCostCentersWithBillingTimeBefore` | components/gitpod-db/go/cost_center.go:276-302 | lists exactly the records that count, are not on Stripe, have an end, and end before the given time |
| `CostCenters.CostCenterManager.ResetAllExpired` | components/usage/pkg/apiv1/usage.go:241-263 | one run of the job gives every record listed exactly one reset and does nothing to any other record or balance, in whatever order the list comes |
| `RedactionSpec.RedactedValueIsNotSensitive` | components/common-go/log/redact.go:14-24 | the replacement text holds none of the prohibited words |
| `RedactionSpec.SensitiveExactlyWhen` | components/common-go/log/redact.go:14-24 | a string is sensitive exactly if it holds one of the six words in some spelling |
| `RedactionSpec.CaseMakesNoDifference` | components/common-go/log/redact.go:48-54 | whether a string is sensitive does not depend on the case of its ASCII letters |
| `RedactionSpec.CapitalsAreLowered` | components/common-go/log/redact.go:48-54 | any mixture of cases is a spelling of a word |
| `RedactionSpec.RedactedIsClean` | components/common-go/log/redact.go:39-91 | after redaction no string value anywhere holds a prohibited word, and every value under a prohibited key is the replacement text |
| `RedactionSpec.UnchangedExactlyWhenClean` | components/common-go/log/redact.go:39-91 | redaction leaves exactly the clean documents alone |
| `RedactionSpec.RedactionIsIdempotent` | components/common-go/log/redact.go:39-91 | redacting twice is redacting once |
| `RedactionSpec.MemberOfRedacted` | components/common-go/log/redact.go:65-92 | the keys stay, and a member is replaced exactly if its key is sensitive or some string among the members is sensitive under a key that is not; otherwise it is redacted by itself |
| `RedactionSpec.ChildOfRedacted` | components/common-go/log/redact.go:59-91 | one step into a redacted container finds what redaction makes of what was there, or the replacement text where the step is masked |
| `RedactionSpec.RedactionIsLocal` | components/common-go/log/redact.go:59-91 | off the masked paths every container keeps its keys and its length and every value is redacted on its own; on them nothing but the replacement text is left |
| `Redaction.MatchesProhibited` | components/common-go/log/redact.go:48-54 | the loop over the words finds one exactly if the lower-cased string holds one |
| `Redaction.RedactValue` | components/common-go/log/redact.go:39-57 | redacts containers in place and returns the same reference, so only a sensitive string ever comes back different |
| `Redaction.RedactArray` | components/common-go/log/redact.go:59-63 | redacts every element in place |
| `Redaction.ScanMember` | components/common-go/log/redact.go:68-90 | one turn of the scan: a restart is asked for exactly when a sensitive string stands under a key that is not prohibited and nothing is forced yet |
| `Redaction.Decode` | components/common-go/log/redact.go:27-32 | every document can be built on the heap as a tree of fresh containers |
| `Redaction.RedactJson` | components/common-go/log/redact.go:27-36 | what is returned for a document that can be parsed stands for its redaction |
| `Redaction.QuietScanIsDone` | components/common-go/log/redact.go:65-91 | a scan without a restart has left the object as the specification says |
| `Redaction.ForcedScanIsDone` | components/common-go/log/redact.go:65-91 | so has a forced scan |
| `Redaction.RedactObject` | components/common-go/log/redact.go:65-91 | for every order of the keys the scan ends with the object that the specification says, after one restart exactly if some string directly in it, under a key that is not prohibited, is sensitive, and after none otherwise |
| `TopologicalSort.TopologicalSort.Sort` | components/gitpod-db/src/tables.ts:354-371 | terminates on every finite graph with unique keys; a returned list holds exactly what is reachable from the values, each once, dependencies before dependents; it throws exactly if a cycle or a node without a key is reachable |
| `TopologicalSort.TopologicalSort.Visit` | components/gitpod-db/src/tables.ts:373-383 | a visit keeps the invariant that the temporarily marked nodes are the current path and the permanently marked ones are the result, lists the node, and throws only if a cycle or an undefined node is reachable |
| `TopologicalSort.OrderedGraphIsAcyclic` | components/gitpod-db/src/tables.ts:354-383 | a list without duplicates that puts dependencies first holds everything reachable from its members and no cycle |
| `TopologicalSort.EnterNode` | components/gitpod-db/src/tables.ts:373-383 | marking a node temporarily keeps the marks in step with the current path |
| `TopologicalSort.LeaveNode` | components/gitpod-db/src/tables.ts:373-383 | marking it permanently and listing it keeps them in step, once its dependencies are listed |
| `TopologicalSort.AppendDependent` | components/gitpod-db/src/tables.ts:373-383 | appending a node after all its dependencies keeps dependencies first |
| `Tables.ThrowsExactlyWhen` | components/gitpod-db/src/tables.ts:345-351 | over tables: the sort meets a cycle or an undefined node exactly if tables depend on each other in a circle or a dependency names no table |
| `Tables.SortedNodesAreSortedTables` | components/gitpod-db/src/tables.ts:345-351 | a sorted list of nodes is a list of all tables, each once, after everything it depends on, directly or not |
| `Tables.GetSortedTables` | components/gitpod-db/src/tables.ts:345-351 | returns such a list, and throws exactly if there is a circle or a dangling dependency |
| `PeriodicDeleter.CollectRowsToBeDeleted` | components/gitpod-db/src/periodic-deleter.ts:44-72 | fails exactly if the query does; otherwise the deletions hit every marked row that has its primary keys, and, if all marked rows have theirs, nothing but rows that agree with a marked one on all primary keys |
| `PeriodicDeleter.DueDeletionsHit` | components/gitpod-db/src/periodic-deleter.ts:58-69 | which rows the where clauses of the deletions select: all marked ones, and no others as far as the primary keys tell |
| `PeriodicDeleter.ReverseOfSortedPutsDependentsFirst` | components/gitpod-db/src/periodic-deleter.ts:25-41 | issuing the deletions of a sorted list of tables in reverse puts those of dependent tables before those of the tables they depend on |
| `PeriodicDeleter.DoSync` | components/gitpod-db/src/periodic-deleter.ts:24-42 | a round fails, issuing nothing, exactly if the tables cannot be sorted or a query fails; otherwise it issues exactly the deletions due, dependents first, and for every table they hit all marked rows and no others as far as the primary keys tell |
| `GoSlices.Append` | components/content-service-api/go/initializer.go:108-134 | appending to a slice reads as expected although it may write into a backing array that others share, and leaves the slice itself as it was |
| `Initializers.ItoaIsInjective` | components/content-service-api/go/initializer.go:120-135 | different indexes give different path elements |
| `Initializers.ItoaIsDecimal` | components/content-service-api/go/initializer.go:120-135 | an index is written as its decimal number |
| `Initializers.VisitsHold` | components/content-service-api/go/initializer.go:102-148 | a walk comes to every git initializer that the tree holds, in prebuilds and composites at any depth, and to no others |
| `Initializers.VisitsAreSpecified` | components/content-service-api/go/initializer.go:145-147 | and to a node without a specification exactly if the tree has one |
| `Initializers.NamesAreDistinct` | components/content-service-api/go/initializer.go:49-74 | the dot-joined paths of different nodes of a tree differ, so no secret is filed under the name of another |
| `Initializers.VisitsAreDistinct` | components/content-service-api/go/initializer.go:102-148 | no two visits of a walk have the same path |
| `Initializers.VisitsLieBelow` | components/content-service-api/go/initializer.go:102-148 | every path a walk visits starts with the path it was given and has no dots within its elements |
| `Initializers.WalkConcat` | components/content-service-api/go/initializer.go:102-148 | a walk over two lists of visits is the second walk after the first, unless the first fails |
| `Initializers.Walker.WalkInitializer` | components/content-service-api/go/initializer.go:102-148 | although siblings share and overwrite backing arrays, the visitor sees exactly the paths from the root, in order, up to the first error, and the caller's path reads the same afterwards |
| `Initializers.Walker.VisitNode` | components/content-service-api/go/initializer.go:52-98 | one visit does to passwords, secrets and locations what the pure step does |
| `InitializerSecrets.GetCheckoutLocations` | components/content-service-api/go/initializer.go:15-32 | if all nodes are specified, returns the checkout locations that stand in the tree, in their order; changes no password |
| `InitializerSecrets.LocationsOfVisits` | components/content-service-api/go/initializer.go:15-32 | the locations a walk comes to are those that stand in the tree, in their order |
| `InitializerSecrets.LocationsCollected` | components/content-service-api/go/initializer.go:15-32 | a walk for locations adds exactly those of the visits it reaches |
| `InitializerSecrets.WalkStopsWhereUnsupported` | components/content-service-api/go/initializer.go:145-147 | every walk sees the nodes before the first one without a specification, and fails if there is one |
| `InitializerSecrets.ExtractAndReplaceSecretsFromInitializer` | components/content-service-api/go/initializer.go:42-74 | on a heap of git initializers that may be shared: if all nodes are specified, every one the tree holds that had a secret has a placeholder afterwards, under whose name the map has the secret; all others are as before, and the map holds no more |
| `InitializerSecrets.GatherSecretsFromInitializer` | components/content-service-api/go/initializer.go:36-74 | if all nodes are specified, returns every secret the tree holds, and never anything else; changes no password |
| `InitializerSecrets.InjectSecretsToInitializer` | components/content-service-api/go/initializer.go:76-99 | changes nothing but placeholders that the tree holds; with secrets that are no placeholders, succeeds exactly if all nodes are specified and every such placeholder names a secret, and then each has become its secret |
| `InitializerSecrets.ExtractionMeans` | components/content-service-api/go/initializer.go:49-74 | at the nodes reached exactly the secrets give way to placeholders, each with the name under which it is filed, and exactly those secrets are in the map |
| `InitializerSecrets.InjectionMeans` | components/content-service-api/go/initializer.go:76-99 | for all secrets, placeholders among them: every password is resolved once for every visit of its node, and injection succeeds exactly if all of them resolve and all nodes are supported |
| `InitializerSecrets.InjectionOfSecretsMeans` | components/content-service-api/go/initializer.go:76-99 | with secrets that are no placeholders, as extracted ones are: it succeeds exactly if every placeholder met names a secret and all nodes are supported, and then every placeholder has given way to its secret and nothing else has changed |
| `InitializerSecrets.ExtractedSecretsAreNoPlaceholders` | components/content-service-api/go/initializer.go:58-64 | no extracted secret looks like a placeholder |
| `InitializerSecrets.PlaceholdersLeadBack` | components/content-service-api/go/initializer.go:49-74 | every placeholder that extraction left leads to the password that was there |
| `InitializerSecrets.InjectUndoesExtract` | components/content-service-api/go/initializer.go:42-99 | if no password reached looked like a placeholder, injecting what was extracted restores every password, also where the walk gives up half way |
| `InitializerSecrets.RoundTripExactlyWhen` | components/content-service-api/go/initializer.go:42-99 | the round trip succeeds and restores everything exactly when all nodes have a supported specification and no password looked like a placeholder |
| `InitializerSecrets.MarkedIsNotRestored` | components/content-service-api/go/initializer.go:83-95 | a password that looked like a placeholder is not restored by a successful round trip |
| `InitializerSecrets.MarkedTree` | components/content-service-api/go/initializer.go:58-95 | a tree with one password that starts with the prefix: nothing is extracted and injecting fails |
| `InitializerSecrets.SharedTree` | components/content-service-api/go/initializer.go:49-74 | a tree with one git initializer in two places: gathering and extracting return different maps |
| `InitializerSecrets.NestedTree` | components/content-service-api/go/initializer.go:49-74 | the secret of a prebuild in a composite is filed under the kinds and positions on the way to it |
| `InitializerSecrets.SecondExtractIsIdle` | components/content-service-api/go/initializer.go:42-74 | extracting again finds nothing and changes nothing |
| `InitializerSecrets.GatherMeans` | components/content-service-api/go/initializer.go:36-74 | gathering files every secret visited, under the name of each visit |
| `InitializerSecrets.GatherAgreesExactlyWhen` | components/content-service-api/go/initializer.go:36-74 | gathering and extracting return the same map exactly when no node that holds a secret is visited twice |
| `Migration.EffectTransfers` | components/gitpod-db/src/user-to-team-migration-service.ts:51-132 | one query does no more to the rows than hand some of the user's to the new team and add cost centers for it |
| `Migration.EffectCarries` | components/gitpod-db/src/user-to-team-migration-service.ts:51-132 | after every query the rows the user had are divided between user and team exactly as far as the call has come |
| `Migration.ActCarries` | components/gitpod-db/src/user-to-team-migration-service.ts:51-132 | and so they are when the query failed, had its effect but failed, or the team name was taken |
| `Migration.OthersKeepCarrying` | components/gitpod-db/src/user-to-team-migration-service.ts:28-49 | a query for one user disturbs nothing that the calls for other users rely on |
| `Migration.QueryConserves` | components/gitpod-db/src/user-to-team-migration-service.ts:51-132 | a query loses no row and hands none to anybody but its user's new team |
| `Migration.NextIsSafe` | components/gitpod-db/src/user-to-team-migration-service.ts:28-132 | every step of every call keeps the invariant, errors included |
| `Migration.RunsAreSafe` | components/gitpod-db/src/user-to-team-migration-service.ts:28-132 | every state of every run is safe, however the calls interleave and wherever they fail |
| `Migration.MigrationConserves` | components/gitpod-db/src/user-to-team-migration-service.ts:51-132 | at every step, also of runs cut short: the same projects, instances, customers and usage rows with the same credits in all, and every row with its first owner or the team created for that owner |
| `Migration.AtMostOneWorksOnAUser` | components/gitpod-db/src/user-to-team-migration-service.ts:33-48 | at most one call is inside the synchronized part for a user |
| `Migration.SuccessMovesEverything` | components/gitpod-db/src/user-to-team-migration-service.ts:75-132 | when a call has come through, the user has left exactly the projects marked as deleted that were there when the call began, and the team has exactly the instances, customers and usage that were, with all their credits, and at least one cost center |
| `Migration.NoProjectStaysExactlyWhen` | components/gitpod-db/src/user-to-team-migration-service.ts:79-85 | no project stays with the user exactly if none of the user's was marked as deleted |
| `Migration.DeletedProjectStays` | components/gitpod-db/src/user-to-team-migration-service.ts:79-85 | a run of a migration that comes through and leaves its user one project |
| `Migration.SuccessMovesAllThereWas` | components/gitpod-db/src/user-to-team-migration-service.ts:75-132 | without errors: the team has exactly the instances, customers and usage, with all credits, and the live projects that were the user's at the start of the run, and all the user's cost centers; the deleted projects are all that is left |
| `Migration.RunsWithoutErrorAreOrderly` | components/gitpod-db/src/user-to-team-migration-service.ts:28-49 | without errors every user is untouched, being migrated by the holder of the lock, or migrated, at every step |
| `Migration.ExactlyOneTeam` | components/gitpod-db/src/user-to-team-migration-service.ts:28-74 | without errors, and if no caller's record says migrated before the stored one does, however the calls interleave: at most one team is created for a user, none if the user had a team and was marked at the start, and otherwise exactly one once the calls for the user have returned |
| `Migration.ReturnedMeansSettled` | components/gitpod-db/src/user-to-team-migration-service.ts:28-49 | without errors, once the calls for a user have returned the user is marked and has a team |
| `Migration.LaterCallsChangeNothing` | components/gitpod-db/src/user-to-team-migration-service.ts:28-49 | for such a user no later call changes anything, with or without errors, and it stays so |
| `MigrationOutcome.SuccessAttributesToTheTeam` | components/gitpod-db/src/user-to-team-migration-service.ts:91-95 | in every run: the record of a call that has come through is attributed to the new team if the loaded one had no attribution or the user's own, and as loaded otherwise |
| `MigrationOutcome.MigratedUserIsAttributed` | components/gitpod-db/src/user-to-team-migration-service.ts:91-95 | without errors, the stored record of the user is so against the record at the start of the run |
| `MigrationOutcome.AttributionAtRest` | components/gitpod-db/src/user-to-team-migration-service.ts:28-49 | without errors, whenever nobody works on a user: no team and the attribution of the start, or one team and its attribution if there was none or the user's own |
| `MigrationOutcome.SuccessMakesTheUserOwner` | components/gitpod-db/src/user-to-team-migration-service.ts:54-77 | in every run: when a call has come through, the user owns the team |
| `MigrationOutcome.FailureLeadsToUndoing` | components/gitpod-db/src/user-to-team-migration-service.ts:40-73 | any error from the creation of the team on, and a tenth taken name, leads to undoing the mark; the lock is not given back before the call has come through or has tried to undo |
| `MigrationOutcome.FailureUnmarks` | components/gitpod-db/src/user-to-team-migration-service.ts:42-46 | undoing leaves the user unmarked and in need of a migration |
| `MigrationService.TracedEventIsAStep` | components/gitpod-db/src/user-to-team-migration-service.ts:28-132 | every query that a call makes, its getting the lock, giving up and giving it back are steps of the interleaved calls, whatever state the others are in |
| `MigrationService.UserToTeamMigrationService.NeedsMigration` | components/gitpod-db/src/user-to-team-migration-service.ts:134-137 | asks whether the user has no team or is not marked, which sends the call on to the lock, to the migration, or out |
| `MigrationService.UserToTeamMigrationService.CreateTeam` | components/gitpod-db/src/user-to-team-migration-service.ts:62 | a team and its membership are two rows; a taken name is reported as such, any other error ends the migration |
| `MigrationService.UserToTeamMigrationService.CreateTeamOfOne` | components/gitpod-db/src/user-to-team-migration-service.ts:54-74 | up to ten names are tried, a taken one leads to the next, and after the tenth or any other error the migration has failed |
| `MigrationService.UserToTeamMigrationService.StoreProjects` | components/gitpod-db/src/user-to-team-migration-service.ts:79-85 | every project found is handed to the team, in any order, unless one fails |
| `MigrationService.UserToTeamMigrationService.MoveAttribution` | components/gitpod-db/src/user-to-team-migration-service.ts:91-95 | the user record is attributed to the team exactly if it had no attribution or the user's own, also where storing it fails, and keeps its mark |
| `MigrationService.UserToTeamMigrationService.UpdateOwner` | components/gitpod-db/src/user-to-team-migration-service.ts:97-130 | an UPDATE statement hands over all rows of the owner and tells how many they were |
| `MigrationService.UserToTeamMigrationService.MoveRows` | components/gitpod-db/src/user-to-team-migration-service.ts:97-130 | cost centers, or a new one if there were none, then instances, usage and customers; the first failure ends it |
| `MigrationService.UserToTeamMigrationService.InternalMigrateUser` | components/gitpod-db/src/user-to-team-migration-service.ts:51-132 | goes through the queries in order and ends at the release, with the user attributed to the team if there was no attribution or the own one, or at the undoing of the mark after a failure |
| `MigrationService.UserToTeamMigrationService.MigrateUser` | components/gitpod-db/src/user-to-team-migration-service.ts:28-49 | however others change the database between its queries and wherever it fails: all that a call does is a sequence of steps that the state machine allows, from the first check to the end; a call that has come through returns the user as marked, attributed to the team if the loaded record had no attribution or the own one |
| `JsonRpcMessages.RepliesAreWellFormed` | components/gitpod-messagebus/src/jsonrpc-server.ts:33-69 | every reply echoes the id of its request, null if there is none, and never carries both a result and an error; it carries a result exactly if the method returned one that can be serialized, and neither exactly if the method was called and returned undefined (sections 5 and 5.1 of the JSON-RPC 2.0 Specification) |
| `JsonRpcMessages.ErrorsTellTheirCause` | components/gitpod-messagebus/src/jsonrpc-server.ts:33-69 | which of the four error codes a reply carries, each with its exact condition and its message; for a method that threw an error, the message of that error |
| `JsonRpcMessages.UndefinedIsAnswered` | components/gitpod-messagebus/src/jsonrpc-server.ts:50-69 | a reply with neither a result nor an error |
| `JsonRpcMessages.ResolvesExactlyWhen` | components/gitpod-messagebus/src/jsonrpc-client.ts:15-29 | the client proxy resolves with a value, undefined among them, exactly if the method was called and returned it and it could be serialized |
| `JsonRpcServers.JsonRpcServer.HandleMessage` | components/gitpod-messagebus/src/jsonrpc-server.ts:33-48 | publishes one reply to every message and no more, under its correlation id, whichever attempt succeeds |
| `JsonRpcServers.JsonRpcServer.OnMessage` | components/gitpod-messagebus/src/rpc-server.ts:12-23 | a message is acknowledged and answered once, with the reply for its content and the way its handling ended; a cancelled consumption does nothing |
| `RpcClientChannels.RpcClientChannel.AttachClient` | components/gitpod-messagebus/src/rpc-client.ts:16-31 | however many clients share a channel, its replies are consumed once |
| `RpcClientChannels.RpcClientChannel.Call` | components/gitpod-messagebus/src/rpc-client.ts:33-49 | sends the request under its new correlation id and leaves a listener for it; the calls sent are then still, each once, those that wait and those resolved |
| `RpcClientChannels.RpcClientChannel.OnReply` | components/gitpod-messagebus/src/rpc-client.ts:21-25 | a reply resolves the call that waits for it, is dropped if none does, and leaves nothing for a second reply to resolve; the calls sent are still those that wait and those resolved |
| `JsonRpcSystem.NextAccounts` | components/gitpod-messagebus/src/rpc-server.ts:12-23 | after every step the messages sent are, one by one, queued, being handled, answered or delivered |
| `JsonRpcSystem.NextIsGenuine` | components/gitpod-messagebus/src/jsonrpc-server.ts:33-75 | after every step all that is under way belongs to a message that was sent, and every reply is a possible answer to it |
| `JsonRpcSystem.NextIsHeard` | components/gitpod-messagebus/src/rpc-client.ts:33-49 | after every step a listener waits exactly for those calls whose reply has not been delivered |
| `JsonRpcSystem.RunsAreConsistent` | components/gitpod-messagebus/src/rpc-server.ts:12-23 | all this holds in every state of every run of any number of clients, channels and concurrent handlers |
| `JsonRpcSystem.CallsResolveAtMostOnce` | components/gitpod-messagebus/src/rpc-client.ts:33-49 | no correlation id is delivered twice, so no call resolves twice |
| `JsonRpcSystem.CallsResolveWithTheirOwnReply` | components/gitpod-messagebus/src/rpc-client.ts:33-49 | a call resolves only with an answer to its own request, under the request's id and on its own channel; replies to foreign messages resolve nothing |
| `JsonRpcSystem.CallsResolveWithWhatWasReturned` | components/gitpod-messagebus/src/jsonrpc-client.ts:15-29 | from end to end, in every run: a call resolves with a value exactly if the method was called for its own request, returned that value and it could be serialized |
| `JsonRpcSystem.CallsRejectWithWhatWasThrown` | components/gitpod-messagebus/src/jsonrpc-client.ts:15-29 | and a call whose method threw an error rejects with the message of that error |
| `JsonRpcSystem.AtRestEveryCallIsResolved` | components/gitpod-messagebus/src/rpc-client.ts:33-49 | once nothing is under way every message has been answered and no call is left waiting |
| `JsonRpcSystem.InnerStepsRunOut` | components/gitpod-messagebus/src/rpc-server.ts:12-23 | without new messages every step brings rest closer by exactly one |
| `JsonRpcSystem.EveryEndingIsAnswered` | components/gitpod-messagebus/src/jsonrpc-server.ts:33-48 | however the call that a handler waits for ends, the handler can publish the reply for that ending |
| `JsonRpcSystem.NeverStuck` | components/gitpod-messagebus/src/jsonrpc-server.ts:33-48 | until rest some step is always possible, if the calls that handlers wait for end |
| `JsonRpcSystem.HistoryStands` | components/gitpod-messagebus/src/rpc-client.ts:33-49 | what was sent and delivered stays as it is |
| `Topics.ListeningMatchesExactlyWhen` | components/gitpod-messagebus/src/messagebus.ts:105-111 | for every routing key: a binding key matches (section 3.1.3.3 of the AMQP 0-9-1 specification) exactly if the key has at least two words, exactly three if the subtopic is given, and agrees with every part given |
| `Topics.PublishedReachesExactlyWhen` | components/gitpod-messagebus/src/messagebus.ts:105-141 | a published message reaches exactly those who gave none of its parts or gave them right |
| `Topics.PublishedReadsBackExactlyWhen` | components/gitpod-messagebus/src/messagebus.ts:139-161 | the parts of a published key are read back exactly if each is one non-empty word |
| `Topics.TopicsAreSpelled` | components/gitpod-messagebus/src/messagebus.ts:94-130 | the keys spelled out: the parts given in their places, the wildcard for the parts missing |
| `Topics.InformationExactlyWhen` | components/gitpod-messagebus/src/messagebus.ts:149-161 | a routing key yields parts exactly if it is three dot-free strings joined by dots, and then those |
| `Topics.BaseExactlyWhen` | components/gitpod-messagebus/src/messagebus.ts:113-126 | the user of any topic is what stands before its first dot, none for the wildcard or a missing topic |
| `Topics.BaseReadsBackExactlyWhen` | components/gitpod-messagebus/src/messagebus.ts:105-126 | the user of a binding key is read back exactly if it is missing, or one non-empty word that is not the wildcard |
| `Topics.SubscriptionReachesExactlyWhen` | components/gitpod-messagebus/src/messagebus.ts:94-96 | an update reaches exactly those who listen to its attribution id or to all |
| `Topics.PatternOfThree` | components/gitpod-messagebus/src/messagebus.ts:105-111 | what a pattern of three words matches, with the wildcards in any place |
| `Strings.SplitJoin` | components/gitpod-messagebus/src/messagebus.ts:149-161 | splitting undoes joining for separator-free parts |
| `Strings.JoinSplit` | dev/changelog/update.go:229-230 | joining undoes splitting for every string |
| `Encryption.TrimUndoesPad` | components/gitpod-db/go/encryption.go:132-140 | padding fills up to a full block with 1 to 16 bytes, and trimming takes exactly them off again (section 6.3 of RFC 5652) |
| `Encryption.PadUndoesTrimExactlyWhen` | components/gitpod-db/go/encryption.go:132-140 | padding undoes trimming exactly for texts that end in a valid padding, although trimming accepts others |
| `Encryption.BlocksAreChained` | components/gitpod-db/go/encryption.go:59-60 | each block is encrypted after the one encrypted before it, or the vector for the first, has been added to it (section 6.2 of NIST SP 800-38A) |
| `Encryption.UnchainUndoesChain` | components/gitpod-db/go/encryption.go:59-60 | decrypting a chain of blocks undoes encrypting it, for every length and initialization vector and any key that unlocks the blocks (section 6.2 of NIST SP 800-38A) |
| `Encryption.DecryptUndoesEncrypt` | components/gitpod-db/go/encryption.go:49-99 | decryption returns the original bytes for every input length |
| `Encryption.DecryptPanicsExactlyWhen` | components/gitpod-db/go/encryption.go:72-99 | when decrypting data from elsewhere panics instead of returning a value or an error |
| `Encryption.DecryptFailsExactlyWhen` | components/gitpod-db/go/encryption.go:72-91 | each of the four errors of decryption with its exact condition |
| `Encryption.FindPrimaryConfigs` | components/gitpod-db/go/encryption.go:222-230 | collects the primary configurations in order |
| `Encryption.OnePrimaryExactlyWhen` | components/gitpod-db/go/encryption.go:170-178 | exactly one is collected if and only if one configuration is primary and no other is |
| `Encryption.NewCipherSet` | components/gitpod-db/go/encryption.go:165-198 | succeeds exactly if one configuration and no other is primary and every material is the text of 16, 24 or 32 bytes; then a set with the ciphers of all configurations in order and the primary's cipher; otherwise each error with its exact condition |
| `Encryption.DecryptWithSet` | components/gitpod-db/go/encryption.go:210-220 | the first cipher of the data's name and version decrypts it; an error if there is none |
| `Encryption.RotatedSetDecrypts` | components/gitpod-db/go/encryption.go:205-220 | data written under an old primary decrypts under any later set whose first configuration of that name and version has the same key |
| `Encryption.DroppedKeysFail` | components/gitpod-db/go/encryption.go:205-220 | if no configuration has that name and version, decrypting fails with the error that says so |
| `Encryption.OwnDataComesBackExactlyWhen` | components/gitpod-db/go/encryption.go:205-220 | a set reads back everything it writes exactly when the first key of its primary's name and version unlocks the blocks that the primary's key locks |
| `Encryption.OwnDataComesBackByConfigs` | components/gitpod-db/go/encryption.go:165-220 | if different keys of the set do different things to some block: a set reads back everything it writes exactly when the first configuration of the primary's name and version has the primary's key |
| `Encryption.ShadowedPrimaryFails` | components/gitpod-db/go/encryption.go:165-220 | two configurations of the same name and version with different keys and the second as primary are accepted, and the set then panics on data it has encrypted itself |
| `ChangelogScan.GetReleaseNotes` | dev/changelog/update.go:137-254 | the result is that of the pull requests before the first one last updated before the date and not seen: their notes, or the first error; a failing page counts only if the scan gets to it |
| `ChangelogScan.ReleaseNotesOf` | dev/changelog/update.go:193-246 | the notes of one pull request: none if it was not merged or says NONE in any case, one with the title without a block, otherwise notes that cover the block line by line; and each error exactly for the answer of the service that causes it |
| `ChangelogScan.FreshAreFirst` | dev/changelog/update.go:175-193 | those processed are, in the order of the list, the first of their numbers that was merged after the date |
| `ChangelogScan.CollectInOrder` | dev/changelog/update.go:175-247 | the notes come in the order of the pull requests, and the first error ends them |
| `ChangelogScan.CollectOne` | dev/changelog/update.go:175-247 | the notes of a list of one pull request are its own notes, and its error is the error |
| `ChangelogScan.FailingPageMatters` | dev/changelog/update.go:165-186 | a page that fails ends in an error unless something listed before was last updated before the date |
| `ChangelogScan.NotesCoverTheBlock` | dev/changelog/update.go:225-246 | the notes of a block are its lines one by one, each the mark of a breaking note and a trimmed description with nothing but white space around them, and the lines joined are the block without the white space around it |
| `ChangelogScan.TrimTrims` | dev/changelog/update.go:225-235 | trimming takes off characters to be cut at both ends, and all of them |
| `ChangelogScan.ScanPage` | dev/changelog/update.go:175-247 | the scan of a page goes on from those before it and stops where it should |
| `ChangelogScan.FreshNumbers` | dev/changelog/update.go:175-193 | a number is processed exactly if some pull request of that number was merged after the date |
| `ChangelogScan.FreshIsDistinct` | dev/changelog/update.go:175-193 | no number is processed twice |
| `ChangelogScan.StoppingLosesNothingExactlyWhen` | dev/changelog/update.go:180-191 | whatever the order: stopping early agrees with the plain filter exactly if everything after the stop was merged before the date or has its number processed |
| `ChangelogScan.ScanAgreesWithFilter` | dev/changelog/update.go:153-254 | if the pull requests come last updated first and none is merged after its last update, the scan returns what the plain filter over all pages returns |
| `ChangelogScan.CollectedNotes` | dev/changelog/update.go:195-246 | every note carries the number and merge time of a merged pull request that was collected |
| `ChangelogFile.StableSortedSorts` | dev/changelog/update.go:282-285 | the sorted notes are a permutation, latest merge first, and keep their order within one instant |
| `ChangelogFile.StableSortIsUnique` | dev/changelog/update.go:282-285 | there is only one such order |
| `ChangelogFile.WriteNotes` | dev/changelog/update.go:292-313 | the lines are the notes in order, each under its month, with one heading for every month that has notes, strictly newest first |
| `ChangelogFile.WriteFile` | dev/changelog/update.go:282-324 | sorts in place; the file is the title, those lines, and all existing notes in order as its last lines, with a heading of the last month directly before them exactly if there are any and the last heading of the new notes is of another month; no other line is an existing note or such a heading |
| `ChangelogFile.AddToNewMonth` | dev/changelog/update.go:294-299 | a note of another month than the last opens a heading of its own, earlier than all before it |
| `ChangelogFile.AddToSameMonth` | dev/changelog/update.go:294-299 | a note of the same month goes under the last heading |
| `WebsocketReader.WebsocketConnection.ReadInto` | components/gitpod-protocol/go/websocket.go:95-123 | returns as much as there is and fits, writes nothing else, keeps the rest, receives a message only if nothing is left, and fails only with nothing left and everything received returned |
| `WebsocketReader.NothingIsLost` | components/gitpod-protocol/go/websocket.go:95-123 | for all messages and all buffer sizes, zero included: the bytes returned, the leftover and the messages still to come make up the messages sent |
| `WebsocketReader.ReadsAreBounded` | components/gitpod-protocol/go/websocket.go:95-123 | no read returns more than the size asked for |
| `WebsocketReader.EnoughReadsGetEverything` | components/gitpod-protocol/go/websocket.go:95-123 | with buffers that hold at least a byte, as many reads as there are bytes and messages return everything |

## Left out

- Billing: errors of the database, and two managers working on the same record at once; every method runs alone, on a clock whose milliseconds never go back.
- Billing: years after 9998, where adding a month leaves the four digits that the order of the strings relies on.
- Billing: wrap-around of 64-bit credit cents; amounts in the ledger are unbounded integers, and the rounding of fractional credits is left out since limits are whole credits.
- Billing: the order of the listing and its batches, the columns for draft and metadata beyond what invoices set, and the time of last modification.
- Redaction: parsing and printing of JSON, and characters whose lower case lies beyond ASCII other than the two that lower to ASCII letters.
- Redaction: documents that share containers, which parsing never yields.
- TopologicalSort.TopologicalSort.Sort: requires unique keys, because tables with the same name are never listed; of two nodes with one key the second would be dropped.
- PeriodicDeleter.DoSync: the deletions issued, not whether the database carries them out; the interval timer is left out.
- Initializers: git initializers without a configuration, on which the walk panics, and the protobuf encoding.
- Migration: limit, strategy and billing times of a new cost center; team names, slugs and the block list (a name is free or taken), project environment and other user data, and rows that others create, delete or hand over meanwhile.
- Migration: the synchronizer is a lock per user that is given back exactly once; it does not expire.
- Migration.ExactlyOneTeam: for runs without errors. After an error the user is unmarked and a later call creates another team, and the first team stays.
- Migration.RunsWithoutErrorAreOrderly: for callers whose record says migrated only if the stored one does; a record from before a failed run may say more, and its caller is sent away by the first check. The safety of all runs includes such callers.
- JSON-RPC: requests that parse but are no objects, extra data of errors, the JavaScript engine's wording where the parameters are missing, and the correlation ids, which are fresh numbers.
- JSON-RPC: losing or redelivering messages in the broker, connecting and reconnecting, and the base class's own handler, which the JSON-RPC server replaces.
- JsonRpcSystem.NeverStuck: a method of the delegate whose promise never settles leaves its handler without a reply; progress is stated for calls that end.
- Topics: the exchange and queue declarations and all of the connection handling.
- Encryption: AES, base64 and the source of the initialization vector; they are parameters, assumed invertible. Reading and parsing the key file.
- Encryption.TrimUndoesPad: pads a value; that appending may write into spare capacity behind the caller's bytes is not modelled.
- Changelog: reading the existing file, the search for a block in a body (its text is given), the authors' order in a line and its format, and the paging of commits.
- ChangelogScan.GetReleaseNotes: the pages are the finite list of answers in the order asked for; a service that never ends its pages is left out.
- Changelog: the sorting algorithm is the library's; the unique stable order takes its place.
- Websocket: control messages, deadlines, writing and closing; a read that waits for a message is one call with the message that ends the wait.
- Everything else in the repository: the services' interfaces, generated code, commands, the dashboard, logging and metrics.
