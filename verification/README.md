# apivo-news: a verified model of its money, catalogue and feed protocols

This project models, in Dafny, the parts of apivo-news in which one mistake is silent and
lasting, and proves what they promise.

* **Translation budget** (`Ledger`, `Writer`, `Retry`, `Pipeline`, `Fleet`, `FleetTheorems`,
  `FleetRuns`, over the runs of `Runs`). Replicas claim an (item, locale) pair, read the month's spend, pay a provider,
  record the row or book the unbilled spend, and latch the month's halt. The imperative half is
  the writer, the pair and the cycle, statement by statement over a session with savepoints, lost
  connections and lost commit acknowledgements. The other half is a state machine of any number
  of replicas, with crashes, whose invariant gives the theorems about whole runs.
* **Catalogue import** (`Catalogue`, `Import`, `ImportStep`, `ImportRun`, `ImportReconcile`,
  `ImportComplete`, `ImportTheorems`, `ImportRerun`, `ImportConflict`, `ImportSlots`,
  `ImportRetailers`, `ImportSlugs`, `Importer`). One network's answer is folded into the merchant tables, whose constraints are
  part of the model, and what a complete answer left out is reconciled. `Import` is the
  specification, the lemmas are about it, and the classes of `Importer` are proved to follow it.
* **Feed polling** (`Feed`, `FeedStore`, `PollFleet`). Conditional GETs, the retry loop, the
  evidence store and the source rows, and a state machine of replicas that poll one source.
* **Paging** (`Base64`, `Cursor`, `Paging`, `PagingWalk`). The keyset listing, its cursor codec
  (section 5 of RFC 4648), and following the cursors from the first page to the last.
* **Click rule** (`Clicks`, `ClickWindow`). Issuing a click-out, the sliding window, and what
  Retry-After promises.
* **Text** (`Words`, `Greek`, `Slugs`, `PlainText`, `Markup`, `Extract`). Transliteration and
  slugs, the tag-stripping scanner, and the extract cut.

`dafny verify dfyconfig.toml` checks everything.

## Where the code and its promises part

Each is shown by the lemmas it names; the code was modelled as it is.

1. A result the schema refuses is booked by the writer in the pair's transaction, and the
   pipeline then lets that transaction roll back (internal/translation/pipeline.go:419-423). The
   spend is on no ledger, and the pair is eligible, and billed, again in every cycle
   (`SettlementBooksIff`, `RefusedPairBilledForever`).
2. A refused result used standalone is booked once per commit that landed
   (`RefusalBookedOnceIff`), so one lost acknowledgement books it twice, whatever the tables and
   the result (`LostAcknowledgementBooksTwice`).
3. The writer recognises its own landed row by content. If somebody else's identical result holds
   the pair, the second paid call is never booked (`SettledAccountsIff`,
   `IdenticalRivalGoesUnbooked`).
4. The writer's comment says every transient failure is marked retryable
   (internal/translation/writer.go:112-124). One is, exactly when the result is not over the
   ceiling and the failure is not one of the month's settlement (`TransientIsRetryableIff`, and
   `Record`'s contract): settlement errors, and every error of the refusal of a result over the
   ceiling, reach the caller without the mark (internal/translation/writer.go:184-187, 320-341;
   one failing statement for each in `OneFailureEach`). And a refused result with a negative
   amount is marked retryable although no call can settle it (`UnbookableNeverSettles`).
5. The claim is a lock of the transaction. If its session dies while the provider is being asked,
   the pair is free and a second replica pays for it (`DeadClaimPaysTwice`).
6. `ErrRouteConflict` is described as out of reach. Fallback slugs are lossy, so two ids of one
   network that differ only in characters no slug keeps reach it (`ConflictIsReachable`), and then no
   answer that mentions both is ever imported (`ConflictIsLasting`). `StopsIff` says exactly when a report stops an import,
   and `WellNamedImports` when none does.
7. The slug is documented to be cut at the last group that fits. A group that ends exactly at
   byte 80 fits, and is dropped when another stands before it (`CutIsLongestIff`,
   `GroupThatFitsIsDropped`).
8. A listing's cursor is refused by the listing itself when the slug in it is over 182 bytes, so
   the pages after such a slug cannot be reached (`RoundTripIff`, `PagingExact`, `LongSlugEndsTheWalk`). No imported slug
   is that long (`ImportedSlugsPage`).
9. The poll rate holds for polls whose outcome was recorded, under a lock that was not lost. With
   the lock's session gone, or an outcome that was not written, a source is asked again at once
   (`LostLockBreaksPace`, `LostOutcomeBreaksPace`).
10. Stripping a document someone wrote leaves no tag (`StripIsStable`); stripping arbitrary text
    can make one out of two halves (`HalvesCanMeet`).
11. The list of sentence closers holds the ASCII semicolon twice
    (internal/ingestion/extract.go:18); U+037E, the Greek question mark its comment speaks of, is
    not a closer, and a text with no other closes no sentence
    (`GreekQuestionMarkClosesNothing`).
12. Under concurrency the click window can hold more than the allowance, by exactly the number of
    issues in flight less one (`WindowHolds`, `BoundIsReached`). Retry-After is then too early
    exactly when the allowance or more was recorded after the oldest click's instant
    (`LiftsWhenOldestLeaves`), as two issues at a time can bring about (`RetryAfterIsTooEarly`).

## Model

| member | source | states |
|---|---|---|
| Ledger.SettleRestores | internal/translation/writer.go:348-368 | after spend has moved one month of a sound ledger, settling makes "halted exactly when the cap is reached" and "announced exactly once per halted month" hold again |
| Ledger.InsertThenSettle | internal/platform/db/migrations/0005_translation_spend_ledger.up.sql:123-152 | a translation insert, with its trigger and the settle after it, keeps the ledger conserved, one row per pair, and the halt discipline |
| Ledger.BookThenSettle | internal/translation/ledger.go:112-143 | so does booking spend that produced no row |
| Writer.Session.Commit | internal/translation/writer.go:193-195 | a commit closes its transaction, fails, or (outermost only) lands with its acknowledgement lost |
| Writer.Session.Rollback | internal/translation/writer.go:147-149 | the deferred rollback restores what its transaction began from, and does nothing after a commit |
| Writer.TranslationWriter.SettleMonth | internal/translation/writer.go:348-368 | a settle that succeeds leaves the latched tables and reports the month's spend and halt from them |
| Writer.TranslationWriter.RecordUnbilledSpend | internal/translation/ledger.go:123-143 | a negative amount is refused and nothing moves; otherwise the month row moves by exactly the spend, or not at all |
| Writer.TranslationWriter.RecordRefusedSpend | internal/translation/writer.go:320-341 | the booking and the latch land together or not at all; a failure inside an outer transaction leaves no trace |
| Writer.TranslationWriter.Record | internal/translation/writer.go:130-197 | every reply means what it says: settled names the verdict and the tables hold its whole effect; any other leaves the tables alone, unless a standalone commit landed unheard; and exactly when the reply is settled, retryable, or a failure not so marked; caps that cannot be enforced are refused first, and a result is over the ceiling exactly when it cost more than the per-article limit |
| Writer.SettledInWords | internal/translation/writer.go:81-111 | a settled reply in the caps' and the tables' own numbers: which verdict when, the row or the booking it leaves, what the month gained, and when it is halted |
| Writer.SettleInWords | internal/translation/ledger.go:145-175 | settling latches and announces the month, with its total, exactly when that has reached the cap and it was not halted |
| Writer.TransientIsRetryableIff | internal/translation/writer.go:112-124 | a call that would settle if nothing failed, and fails, asks to be retried exactly when the result is under the ceiling and the failure is not one of the settlement |
| Writer.OneFailureEach | internal/translation/writer.go:184-187 | one failed statement of an otherwise untroubled call for each: a settlement read and a refusal over the ceiling that are not retryable, and an insert and a commit that are |
| Writer.UnbookableNeverSettles | internal/translation/writer.go:242-247 | a refused result with a negative amount is never settled, and under the ceiling is retryable for ever |
| Writer.TranslationWriter.RecordInside | internal/translation/writer.go:138-197 | the part inside the transaction settles and closes it, or leaves it to the deferred rollback, and says exactly which failures are of the settlement |
| Writer.TranslationWriter.SettleRefusedInsert | internal/translation/writer.go:218-260 | our own row books nothing; a refusal the database will repeat books its cost once, in the same transaction |
| Retry.LandingMoves | internal/translation/writer.go:81-111 | a landed call moves the ledger by exactly one entry, except when it finds its own result or an amount nobody can be charged |
| Retry.LandingStores | internal/translation/writer.go:112-124 | an accepted result, landing on tables with nothing of it or with its own row, leaves exactly its own row |
| Retry.RetryContract | internal/translation/writer.go:112-124 | for any run of calls under transient failures and lost acknowledgements an accepted result never has more than one row or one movement, and has exactly one of each once a call reports success |
| Retry.RefusalsBookPerLanding | internal/translation/writer.go:242-259 | the refusal path books once per commit that landed, heard or not |
| Retry.RefusalBookedOnceIff | internal/translation/writer.go:242-259 | so a refusal is booked exactly once if and only if no earlier landing went unheard |
| Retry.LostAcknowledgementBooksTwice | internal/translation/writer.go:242-259 | for any tables and any refused result, two calls of which the first lands unheard book it twice |
| Retry.SettledAccountsIff | internal/translation/writer.go:268-290 | a settled reply leaves the call on the ledger exactly once if and only if the row taken for its own, by content, under the ceiling and accepted, is its own, and its own row, if there, is taken for it |
| Retry.IdenticalRivalGoesUnbooked | internal/translation/writer.go:268-290 | a run in which a second paid call with an identical result is reported settled and never booked |
| Pipeline.PairTranslator.RecordRetrying | internal/translation/pipeline.go:470-487 | the writer's retry contract driven inside the pair's transaction: a reply that is not settled leaves no trace, and on a connection that lasts the first attempt that does not ask for another decides |
| Pipeline.PairTranslator.SettleFailedCall | internal/translation/pipeline.go:439-452 | a failed call that cost money is committed to the ledger before its failure is reported as the item's; otherwise the cycle is told of another error |
| Pipeline.PairTranslator.TranslatePair | internal/translation/pipeline.go:331-426 | skips are free; no call starts on a pair on record or a month that is done; the tables move by the whole settlement or not at all; the cycle goes on only over spend that is committed, exactly once; and the reply is exact: how far the pair got decides it before the provider is asked, and the provider's answer after |
| Pipeline.ApproachOf | internal/translation/pipeline.go:331-379 | which of a pair's first statements ends it, over their fates and the tables: unclaimed, on record, the month halted or at its cap, a failed statement, or none |
| Pipeline.PairTranslator.PayAndRecord | internal/translation/pipeline.go:380-426 | from the provider call on: committed with exactly one movement and the halt reported, or rolled back with an error that ends the cycle |
| Pipeline.SettlementBooksIff | internal/translation/pipeline.go:381-426 | a paid call reaches the ledger, with nothing in the way, exactly unless its result is under the ceiling and refused by the schema or already on record |
| Pipeline.CycleBooks | internal/translation/pipeline.go:206-233 | once a call's reply was no error of the cycle's own, its spend is on the ledger exactly once by every later pair, whatever others do between |
| Pipeline.CycleLeavesNothingUnbooked | internal/translation/pipeline.go:206-233 | so by any later pair every earlier call that cost anything is booked once, and at the end the last one too unless the cycle ended broken |
| Pipeline.TargetLocales | internal/translation/locales.go:25-34 | every reader locale but the item's own, once each, in the order they first stand |
| Pipeline.RunOnce | internal/translation/pipeline.go:155-243 | the cycle ends; at most `limit` calls; no pair twice; it goes on only after replies that allow it; newest items first; it ends only for a reason, named by what it met, and with nothing failing or stopping it ends exhausted or at the limit; and if it exhausts the backlog, every item every query returned was handled, over any changing backlog |
| Pipeline.WalkPage | internal/translation/pipeline.go:185-240 | one page: every item of it handled, newest first, unless something ended the cycle, and for what reason |
| Pipeline.WalkItem | internal/translation/pipeline.go:196-234 | one item: its target locales attempted one after another in the readers' order, all of them unless something ended the cycle |
| Pipeline.PageCovers | internal/translation/pipeline.go:273-323 | a short page has covered the backlog; a full one has covered everything up to its last item |
| Fleet.StepKeeps | internal/translation/pipeline.go:331-426 | every step of every replica keeps the fleet's invariant: claims held, re-checked pairs open, spend within the bound, calls in hand billed and unbooked, movements matched to bills |
| FleetTheorems.BoundedOverspend | internal/translation/caps.go:76-81 | in every reachable state a month's committed spend is at most (cap - 1) plus K of the dearest calls |
| FleetTheorems.Conservation | internal/translation/ledger.go:112-143 | in every reachable state each month's total is the cost of its rows plus its unbilled bookings, each movement is one bill, and no bill moves the ledger twice |
| FleetTheorems.ClaimSafety | internal/translation/pipeline.go:341-369 | for any lock hash a replica past its re-check under a live claim is alone on its pair, and the pair has no row |
| FleetTheorems.NeverAlreadyTranslated | internal/translation/pipeline.go:407-412 | a record driven by the pipeline under a live claim is stored or refused on its own merits, never because the pair is taken |
| FleetTheorems.HaltedExactlyAtCap | internal/translation/ledger.go:145-175 | a month is halted exactly when its spend has reached the cap, and announced exactly once if it is |
| FleetTheorems.HaltNeverMoves | internal/translation/ledger.go:145-175 | a month's halt instant, once set, never changes, and no further call becomes outstanding in it |
| FleetTheorems.NothingOverTheCeilingIsKept | internal/translation/caps.go:64-74 | in every run no translation that cost more than the per-article ceiling is on record |
| FleetTheorems.NoClaimIsStranded | internal/translation/pipeline.go:336-355 | in every run, crashes and lost connections included, every claim held is that of a pair a replica is on |
| FleetRuns.BoundIsAttained | internal/translation/pipeline.go:371-388 | for any cap, call bound and number of replicas some run ends exactly on the overspend bound |
| FleetRuns.DeadClaimPaysTwice | internal/translation/pipeline.go:336-355 | a session lost during the provider call: one pair billed twice and booked once |
| FleetRuns.RefusedPairBilledForever | internal/translation/pipeline.go:419-423 | a pair the schema refuses can be billed any number of times with the ledger still untouched |
| Catalogue.Earliest | internal/cashback/catalogue/queries/import.sql:184-209 | the promoted route is the publishable one retrieved first, ties by id, and there is none only if none is publishable |
| Catalogue.UpsertKeeps | internal/cashback/catalogue/queries/import.sql:84-114 | the upsert breaks no constraint when a departing status was preceded by the withdrawal and a new row takes the slot only of a retailer that has none |
| Catalogue.PreferKeeps | internal/cashback/catalogue/queries/import.sql:184-209 | promotion keeps one published, publishable route per retailer |
| Catalogue.MarkNotSeenKeeps | internal/cashback/catalogue/import.go:191-209 | marking the departed is safe once their slots have been withdrawn |
| Catalogue.DemotedNotSeen | internal/cashback/catalogue/queries/import.sql:171-182 | exactly the published routes the answer left out, each once |
| ImportStep.ResolvesTo | internal/cashback/catalogue/import.go:350-434 | a report belongs to the retailer of its own id, or to one with no route at this network, or to a new one with a free slug |
| ImportStep.WithdrawThenUpsert | internal/cashback/catalogue/import.go:285-329 | withdrawing first and then writing keeps every constraint, changes one route, and leaves the retailer published exactly when it kept or took a slot |
| ImportStep.HandOverDoes | internal/cashback/catalogue/import.go:230-264 | a hand-over moves the slot to the earliest publishable route if there is one, touches nobody else, and is announced and counted as what it was |
| ImportStep.WriteRouteDoes | internal/cashback/catalogue/import.go:266-348 | writing a report never fails once its retailer is resolved; it stamps exactly its route, publishes the retailer if it can, and accounts for the demotion |
| ImportRun.NotYetSeen | internal/cashback/catalogue/import.go:350-382 | the retailer of a report not yet read has no route stamped by this run |
| ImportRun.WriteAllMidway | internal/cashback/catalogue/import.go:174-189 | the loop's invariant holds after every prefix of an answer; nothing but an unresolved retailer stops it |
| ImportReconcile.DepartedAreVacant | internal/cashback/catalogue/import.go:191-216 | the routes reconciliation withdraws are of different retailers, none written by this run, each left with nothing published |
| ImportReconcile.HandOverAllDoes | internal/cashback/catalogue/import.go:212-216 | handing over from all of them announces each once, in order, and publishes every one of those retailers that can be |
| ImportTheorems.SlotSafety | internal/cashback/catalogue/import.go:161-228 | no run is refused by a constraint or an idempotency key; it ends with every constraint kept, or stops at a retailer it cannot name or tell apart, or at an answer cut short |
| ImportTheorems.PublicationPreserved | internal/cashback/catalogue/import.go:128-133 | if every retailer that could publish did, the same holds after the run, and the list of those that do not is empty |
| ImportTheorems.ListedWereAlreadySo | internal/cashback/catalogue/import.go:128-133 | from any start, a retailer listed as publishing nothing was not written by the run, and could publish and did not before it |
| ImportTheorems.SeenRetailersPublish | internal/cashback/catalogue/import.go:303-346 | whatever the start, every retailer in the answer that has a publishable route ends with exactly one published |
| ImportTheorems.ReconciliationExact | internal/cashback/catalogue/import.go:151-209 | a mentioned route carries its reported status; an unmentioned one has left if last read before the run; identity, brand and other networks' routes are untouched |
| ImportTheorems.ReportsHaveRoutes | internal/cashback/catalogue/import.go:112-122 | every report ends with its route, only reports make routes, and Seen, Created and Departed count what they say |
| ImportTheorems.HandOversAccounted | internal/cashback/catalogue/events.go:108-137 | at most one slot event per retailer and run, each true of the final tables; the events name exactly the demoted routes in order; Republished + LostPublication is their number |
| ImportSlots.PublicationsAnnounced | internal/cashback/catalogue/import.go:230-264 | a publication is announced exactly of each route that was there and has gained the slot, and of no other, so a new retailer's first route takes it silently |
| ImportRetailers.IdComesFirst | internal/cashback/catalogue/import.go:350-368 | a known id decides the retailer, whatever its name |
| ImportRetailers.NameComesNext | internal/cashback/catalogue/import.go:369-401 | the name's slug founds a retailer if nobody holds it, and joins its holder if that one has no route here |
| ImportRetailers.FallbackComesLast | internal/cashback/catalogue/import.go:370-434 | the fallback slug is asked only after that, in the same way, and past it the report stops |
| ImportRetailers.StaysWhereWritten | internal/cashback/catalogue/import.go:350-447 | at the end of a run a report's route leads to the retailer it resolved to when read |
| ImportRetailers.JoinsAcrossNetworks | internal/cashback/catalogue/import.go:396-400 | a new id whose name's slug a retailer of other networks holds ends on that retailer, in any answer where nobody else can take the slug |
| ImportRetailers.FoundsItsOwn | internal/cashback/catalogue/import.go:387-395 | and one with a slug nobody holds ends on a new, shown retailer of that slug |
| ImportRerun.RunAgain | internal/cashback/catalogue/import.go:161-228 | an answer the tables agree with changes only when the routes were read |
| ImportRerun.RerunChangesNothing | internal/cashback/catalogue/import.go:161-228 | importing the same answer again creates nobody, moves no status and no slot, and announces nothing |
| ImportConflict.StopsIff | internal/cashback/catalogue/import.go:384-434 | a report stops the import exactly when its id is new and both slugs it could have are held by retailers already here, or none can be formed where one is needed |
| ImportConflict.WellNamedImports | internal/cashback/catalogue/import.go:41-47 | with fallback slugs that are each retailer's own, a complete answer is always imported |
| ImportConflict.SharedFallbackStops | internal/cashback/catalogue/import.go:41-47 | two new nameless retailers with one fallback slug stop the import, whatever the tables held |
| ImportConflict.NoAnswerWithBothIsImported | internal/cashback/catalogue/import.go:41-47 | no answer that mentions two such retailers is imported, whatever else it mentions |
| ImportSlugs.ConflictIsReachable | internal/cashback/catalogue/identity.go:112-128 | with the slugs the program really makes, ids that differ only in characters no slug keeps do so |
| ImportSlugs.ConflictIsLasting | internal/cashback/catalogue/identity.go:112-128 | and no answer that mentions two such ids is imported |
| ImportSlugs.SlugsAreFormed | internal/platform/db/migrations/0011_cashback_catalogue.up.sql:105 | every slug made is in the format the merchant table checks |
| ImportSlugs.SpaceAndHyphenConflict | internal/cashback/catalogue/identity.go:112-128 | "1 2" and "1-2" are two such ids |
| ImportSlugs.ImportedSlugsPage | internal/cashback/catalogue/list.go:307-332 | the cursor of every slug the import makes is read back |
| Importer.Transaction.Execute | internal/platform/db/migrations/0011_cashback_catalogue.up.sql:114-183 | a statement breaks, or is refused by a constraint, and changes nothing; or lands whole |
| Importer.CatalogueImporter.Announce | internal/cashback/catalogue/events.go:108-137 | one more event, or an error for a second one under the same key |
| Importer.CatalogueImporter.HandOver | internal/cashback/catalogue/import.go:239-264 | follows the specified hand-over, or the database broke; never refused by a constraint |
| Importer.CatalogueImporter.ResolveMerchant | internal/cashback/catalogue/import.go:358-447 | yields the retailer the specification names, created if new and counted, or stops with its error |
| Importer.CatalogueImporter.UpsertRoute | internal/cashback/catalogue/import.go:280-329 | leaves the specified tables, reports what was withdrawn and whether the retailer publishes; never refused by a constraint |
| Importer.CatalogueImporter.WriteRoute | internal/cashback/catalogue/import.go:269-348 | follows the specification of one report |
| Importer.CatalogueImporter.WriteAll | internal/cashback/catalogue/import.go:174-189 | the loop over the answer follows the fold, and stops at the first fault |
| Importer.CatalogueImporter.HandOverAll | internal/cashback/catalogue/import.go:212-216 | the loop over the departed follows the fold |
| Importer.CatalogueImporter.Reconcile | internal/cashback/catalogue/import.go:191-216 | withdraw, mark, hand over: follows the specified reconciliation, with no statement refused |
| Importer.CatalogueImporter.Run | internal/cashback/catalogue/import.go:161-228 | the whole run follows the specification, from any tables the constraints allow, and lists by name exactly the shown retailers with a publishable route and none published |
| Importer.Imports.Once | internal/cashback/catalogue/schedule.go:158-175 | the stored tables end as a whole run leaves them or as they were; an error leaves them alone unless the commit landed unheard |
| Feed.RetryAfter | internal/ingestion/fetch.go:489-515 | the ask is kept to within a nanosecond, bounded to a day, and ends the call exactly when it is at least the ceiling |
| Feed.Backoff | internal/ingestion/fetch.go:517-529 | the loop gives the base doubled once per attempt made, or the source's ask, capped at the ceiling, and always positive |
| Feed.Fetch | internal/ingestion/fetch.go:188-217 | at most the configured attempts, each but the last failing in a way worth another try; no wait shorter than the source asked or over the ceiling; the last attempt decides the result and its ask survives |
| Feed.NeverEarlierThanGate | internal/ingestion/poll.go:290-310 | for every random value in [0, 1) the jittered wait is at least the gate and at most the interval and a tenth |
| Feed.PaceIs | internal/ingestion/poll.go:290-310 | the gate is nine tenths of the interval and the wait the interval moved by the random tenth, each to within a nanosecond |
| Feed.NotModifiedHidesNothing | internal/ingestion/poll.go:222-225 | a 304 to validators that vouch only for recorded items means the current document is recorded, and refreshing keeps it so |
| Feed.RefreshCovers | internal/ingestion/poll.go:275-288 | tokens advanced over a document recorded whole vouch only for recorded items |
| FeedStore.Database.RecordRetrieval | internal/ingestion/store.go:45-116 | an item and its event are stored together or not at all, a duplicate changes nothing, an unusable item is refused first |
| FeedStore.Database.RecordPollOutcome | internal/ingestion/source.go:115-150 | one row is overwritten with the outcome, the attempt's time and the deferral, or none is |
| FeedStore.Database.ListActiveSources | internal/ingestion/source.go:69-113 | exactly the sources that are active, past the gate and past any deferral, in URL order |
| FeedStore.Poller.RecordItems | internal/ingestion/poll.go:250-273 | the recording is whole exactly when no usable item's write fails; counts are of what came before the first that does; a whole one has every usable item on record |
| FeedStore.Poller.PollSource | internal/ingestion/poll.go:203-248 | only this row changes; it says when, fails exactly when the exchange or a usable item's write does, keeps its tokens then and otherwise takes the response's, and counts what was stored |
| FeedStore.Poller.Cycle | internal/ingestion/poll.go:173-201 | what is not due is untouched, the due sources are polled once each in URL order, every one unless the context ends, each row saying when, and every honest source's tokens go on vouching only for recorded items |
| FeedStore.StillCovered | internal/ingestion/poll.go:203-248 | one poll keeps every source's stored tokens within its evidence |
| PollFleet.ValidatorsNeverAhead | internal/ingestion/poll.go:203-273 | in every interleaving, with or without the lock, with replicas stopping anywhere and writes failing or landing unheard, stored tokens vouch only for recorded items |
| PollFleet.NothingHidden | internal/ingestion/poll.go:222-225 | so a 304 from an honest source never hides an unrecorded item |
| PollFleet.PollsArePaced | internal/ingestion/poll.go:120-130 | under the lock any two recorded polls are more than the gate apart, start to start and record to record, and none starts before the last one's Retry-After has passed |
| PollFleet.RequestsArePaced | internal/ingestion/poll.go:120-130 | every request, recorded or not, starts more than the gate after the last recorded poll and after its Retry-After |
| PollFleet.RecordGoesThrough | internal/ingestion/source.go:115-150 | a written outcome leaves the row saying when, whether it failed, the deferral, and the tokens to ask with next |
| PollFleet.DueSourceIsPolled | internal/ingestion/poll.go:203-248 | some run of one replica on a due source that answers records every usable item, refreshes the tokens and leaves no failure |
| PollFleet.DeferredAtMostADay | internal/ingestion/source.go:122-150 | a recorded deferral ends after now and within a day |
| PollFleet.NextCycleFindsDue | internal/ingestion/poll.go:290-300 | a replica's own next cycle finds the source due, except when nothing has elapsed and the jitter is at its earliest |
| PollFleet.LostLockBreaksPace | internal/ingestion/poll.go:131-171 | with the lock's session lost, two replicas ask one source at the same instant |
| PollFleet.LostOutcomeBreaksPace | internal/ingestion/poll.go:244-247 | a poll whose outcome is not written leaves the source as due as before |
| Base64.RoundTrip | internal/cashback/catalogue/list.go:310-312 | decoding what was encoded gives back every sequence of bytes |
| Base64.Vectors | internal/cashback/catalogue/list.go:310-312 | the quanta of the vectors of section 10 of RFC 4648, and the URL-safe alphabet's own two symbols |
| Base64.EncodingIsUrlSafe | internal/cashback/catalogue/list.go:307-312 | a cursor is letters, digits, hyphens and underscores |
| Cursor.CursorOfA | internal/cashback/catalogue/list.go:38-44 | the cursor after the slug "a" is the encoding of "catalogue", the separator and the slug |
| Cursor.RoundTripIff | internal/cashback/catalogue/list.go:307-332 | a cursor is read back as its slug exactly when the slug has 1 to 182 bytes, and refused otherwise |
| Cursor.AcceptedCouldBeIssued | internal/cashback/catalogue/list.go:314-332 | any accepted cursor stands for a position this listing could have issued |
| Paging.SortedIs | internal/cashback/catalogue/list.go:175 | sorting keeps every retailer and puts distinct slugs in byte order |
| Paging.LessIsByteOrder | internal/cashback/catalogue/list.go:135-142 | the order is byte order: the smaller byte at the first difference, and a beginning before what it begins |
| Paging.ShelfIs | internal/cashback/catalogue/list.go:135-146 | the shelf is in slug order and holds exactly the retailers the reader may see |
| Paging.Candidates | internal/cashback/catalogue/list.go:176-181 | exactly the sorted retailers after the position |
| Paging.FirstShown | internal/cashback/catalogue/list.go:198-213 | the first of them the reader may see, up to one more than a page |
| Paging.List | internal/cashback/catalogue/list.go:147-224 | the page of the shelf at the cursor, from the retailers in any order, or a refusal of the cursor; never more than the size asked for, 20 when none is and 100 at most, and exactly that when more follows |
| PagingWalk.PageAt | internal/cashback/catalogue/list.go:214-218 | the page at a position is full with a cursor if more follows, the rest without one otherwise, and a refusal where the cursor does not read |
| PagingWalk.PagingExact | internal/cashback/catalogue/list.go:135-146 | a walk ends in a refusal exactly when a page that is not the last ends with a slug over 182 bytes; otherwise its pages are the shelf, each retailer once and in order, all but the last full, the last alone without a cursor |
| PagingWalk.LongSlugEndsTheWalk | internal/cashback/catalogue/list.go:314-332 | one retailer a page, a first slug over 182 bytes and another after it: every walk ends in a refusal |
| PagingWalk.WalkEnds | internal/cashback/catalogue/list.go:147-224 | a walk always ends |
| PagingWalk.CatalogueIsWalked | internal/cashback/catalogue/list.go:135-146 | with slugs of at most 182 bytes, following the cursors shows exactly the retailers the reader may see, once each |
| Clicks.OldestAfter | internal/cashback/clickout/queries/click.sql:76-91 | the earliest click in the window, present exactly when the count is not zero |
| Clicks.Allow | internal/cashback/clickout/ratelimit.go:42-87 | a click is refused exactly when a half that applies has its allowance recorded in the window, and the member's half answers first |
| Clicks.AllowInWords | internal/cashback/clickout/ratelimit.go:55-87 | over the click table: this member's clicks of the last hour, or this context's, against the allowance; and the wait until the oldest of them is an hour old, or a second |
| Clicks.LiftsWhenOldestLeaves | internal/cashback/clickout/toomanyclicks.go:55-82 | a refusal lasts until the oldest click leaves the window, lifts then exactly when fewer than the allowance came after it, and an unclamped Retry-After says when |
| Clicks.ClickOuts.Issue | internal/cashback/clickout/clickout.go:160-254 | a redirect is handed out only for a recorded click of the same reference, offer, route, network and promise, allowed by the rule; each of the five failures is answered exactly when it is the first that applies; every failure leaves the table as it was |
| ClickWindow.WindowHolds | internal/cashback/clickout/ratelimit.go:42-87 | with J issues at a time no window of the rule's length ever holds more than the allowance and J - 1; one at a time, none holds more than the allowance |
| ClickWindow.BoundIsReached | internal/cashback/clickout/ratelimit.go:42-87 | for any allowance and any J some run reaches that bound |
| ClickWindow.RetryAfterIsTooEarly | internal/cashback/clickout/toomanyclicks.go:29-37 | with two issues at a time some run ends where a member refused and back exactly when told to is refused again |
| Greek.Transliterate | internal/cashback/catalogue/transliterate.go:36-56 | the loop with its builder and skipped index writes the pairs and runes the rules name |
| Greek.CaseAndTonos | internal/cashback/catalogue/transliterate.go:112-141 | the case and the tonos of Greek letters never change what a text is written as |
| Greek.LettersOfTheStandard | internal/cashback/catalogue/transliterate.go:143-179 | every letter of the alphabet, whatever its case and tonos, in the standard's form |
| Greek.PairsOfTheStandard | internal/cashback/catalogue/transliterate.go:58-141 | exactly the pairs the standard names, with v or f by what follows, whatever their case and tonos |
| Greek.LatinLettersOf | internal/cashback/catalogue/transliterate.go:182-191 | exactly which Latin letters without a decomposition are written in each of these forms |
| Greek.DiaeresisStandsAlone | internal/cashback/catalogue/transliterate.go:80-86 | an upsilon with a diaeresis is always read by itself, as y, whatever stands beside it |
| Greek.AsciiUnchanged | internal/cashback/catalogue/transliterate.go:24-25 | plain Latin is left as it is |
| Greek.GreekIsWritten | internal/cashback/catalogue/transliterate.go:143-191 | a text of Greek letters is written in lower-case Latin letters, and never as nothing |
| Slugs.Slug | internal/cashback/catalogue/identity.go:57-97 | the loop with its flag gives the runs of letters and digits joined by single hyphens, cut to the limit |
| Slugs.SlugsAreWellFormed | internal/cashback/catalogue/identity.go:33-56 | every slug is lower-case alphanumeric groups with single hyphens, at most 80 bytes, or empty |
| Slugs.SlugIsIdempotent | internal/cashback/catalogue/identity.go:33-56 | a slug is its own slug |
| Slugs.CaseAndTonosKeepSlug | internal/cashback/catalogue/identity.go:46-52 | names that differ in the case and tonos of their Greek letters have one slug |
| Slugs.GreekNamesHaveSlugs | internal/cashback/catalogue/identity.go:46-52 | a name of Greek letters always has a slug |
| Slugs.FoldedNamesAreKept | internal/cashback/catalogue/identity.go:38-44 | where the fold leaves plain letters they are the slug's, as if the name were written so |
| ImportSlugs.FormedIsItself | internal/platform/db/migrations/0011_cashback_catalogue.up.sql:105 | everything in the table's format and within the limit is its own slug |
| ImportSlugs.FallbackIsNetworkAndId | internal/cashback/catalogue/identity.go:112-128 | a fallback slug of a network and an id in the format is the one, a hyphen and the other |
| Slugs.CutIsLongestIff | internal/cashback/catalogue/identity.go:99-110 | a long slug is cut after the last group that fits, except exactly when the one that ends at byte 80 has another before it |
| Slugs.GroupThatFitsIsDropped | internal/cashback/catalogue/identity.go:99-110 | a slug of groups of 39, 40 and 1 bytes is cut to 39 although 80 would fit |
| Slugs.FallbacksCollide | internal/cashback/catalogue/identity.go:112-128 | ids that differ only in characters no slug keeps share a fallback slug |
| Words.JoinNext | internal/cashback/catalogue/identity.go:79-95 | one step of the builder is one more character of the joined runs |
| Words.RunsLoseNothing | internal/cashback/catalogue/identity.go:79-95 | the runs hold every kept character, in order, and no other |
| PlainText.ScanTag | internal/ingestion/plaintext.go:83-114 | the loop finds the tag the recursive definition does: a name, then the first '>' outside quotation marks |
| PlainText.IndexClosingTag | internal/ingestion/plaintext.go:116-129 | just past the first closing tag of the name, if there is one |
| PlainText.Plain | internal/ingestion/plaintext.go:42-81 | ends on every string, with the prose of the recursive definition |
| PlainText.EntitiesStayText | internal/ingestion/plaintext.go:77-80 | what entities spell is text, even a tag: they are decoded after the tags are gone |
| PlainText.CaseIsNothing | internal/ingestion/plaintext.go:83-98 | the case of a tag's name is nothing to it |
| Markup.StripGivesReading | internal/ingestion/plaintext.go:27-41 | any document of text, tags with quoted attributes, scripts and style sheets is stripped to its text, with a space for each block tag and nothing of the dropped content, which may hold any tag but its element's own closing one |
| Markup.ScriptsAndStylesLeaveNothing | internal/ingestion/plaintext.go:25-28 | scripts and style sheets leave nothing, and of any other element only the tag goes |
| Markup.StripIsStable | internal/ingestion/plaintext.go:27-41 | what is left of a document holds no tag |
| Markup.HalvesCanMeet | internal/ingestion/plaintext.go:49-73 | around an inline tag, the halves of a block tag can meet |
| Extract.SentenceEndsAt | internal/ingestion/extract.go:96-113 | whether the closer ends a sentence, and where its trailing quotes and brackets end |
| Extract.SentencesClose | internal/ingestion/extract.go:13-23 | exactly which mark at the end of a text ends a sentence, and exactly which quotes and brackets after it are its own |
| Extract.LastSentenceEnd | internal/ingestion/extract.go:65-94 | the last sentence closed in the window, with its trailers if they fit, and none only if none is closed |
| Extract.LastSpace | internal/ingestion/extract.go:115-123 | the last white space, if any |
| Extract.DeriveExtract | internal/ingestion/extract.go:25-63 | a beginning of the prose of at most 300 runes: all of it if it fits, and otherwise what comes before the cut, never empty; the summary's prose if it has any, and the body's only then |
| Extract.CutIsUnique | internal/ingestion/extract.go:25-63 | there is one place to cut |
| Extract.GreekQuestionMarkClosesNothing | internal/ingestion/extract.go:12-18 | a text whose only sentence mark is U+037E closes no sentence, and is cut at white space or at the bound |

## Left out

- Integer width: amounts, counters and instants are unbounded integers; 64-bit overflow is not modelled.
- SQL, drivers and isolation: a statement is an atomic change with its success, failure or loss; two transactions that meet are serialised by the month row's lock and the advisory locks, as migration 0005 says.
- Fleet.Next: a pair's commit is one step that applies its settlement to the tables as they are then; the statements inside it are those of `Pipeline.PairTranslator.TranslatePair`.
- Writer.TranslationWriter.Record: a malformed id from the database after a successful insert is not modelled; refusals other than a taken pair are one verdict.
- Pipeline.RunOnce: the spacing between cycles, logging and the queries' joins; a query is whatever backlog it could see, newest first.
- Provider calls and prompts: an answer is an arbitrary result or failure with an arbitrary cost.
- FleetTheorems.BoundedOverspend: assumes one bound on what a call is billed, and that a provider never bills a negative amount.
- Catalogue.Tables: ids are positions, so ties of retrieval are broken by position; country, names, copy, raw payloads and the checks on brands, external ids and countries are not part of this model.
- ImportTheorems.SlotSafety: assumes the ids within one answer are distinct, and that no event and no route of the network carries the run's instant yet; a second mention would meet the run's own stamp.
- ImportTheorems.HandOversAccounted: the reason text of an event is not modelled.
- Importer.CatalogueImporter.Run: reads are always answered; a failed read would end the run as a failed statement does.
- Importer.CatalogueImporter.UpsertRoute: counts the retailer seen when its route is written, before the hand-over, where the program counts it after; the two differ only in a run that has failed.
- Feed.Jittered: floating point is exact real arithmetic with truncation toward zero.
- Feed.Fetch: the transport, redirects, time-outs, parsing and error texts; an attempt is an arbitrary answer or failure whose ask is one `RetryAfter` gives.
- Feed.Honest: the validators' theorems are about sources that issue a token for one document and send a 304 only for the document a sent token was issued for.
- PollFleet.Next: one source; the others of a cycle are the time that passes between its steps. The database's clock and the replicas' are one clock.
- FeedStore.Database.RecordRetrieval: an item is its usability and the hash of its text; licence snapshots and the event's payload are left out.
- Paging.List: languages, places (with `distinctSlugs`), search matching and rate bands; whether a reader may see a retailer is an arbitrary predicate.
- Base64.Decode: error positions.
- Clicks.ClickOuts.Issue: minting, deeplink templates and enrolment are what their services answer; a click's commit either lands and is reported or does not land.
- ClickWindow.WindowHolds: one half of the rule, that of the member or that of the context, and one clock for the service and the database.
- Slugs.Unicode: composition, folding and lower case are functions with four facts: the identity on ASCII of the first two, no capitals after the last, and its identity on ASCII without capitals. The branch for a failed transform is left out.
- Greek.Plain: polytonic letters and capitals with both marks have no single rune in the table and are not part of the case and tonos relation.
- PlainText.IsBlock: which elements separate text is the program's own list, stated once.
- PlainText.Library: entity decoding and white space are arbitrary functions.
- Not modelled at all: HTTP handlers, authentication, the web and edge code, RateBand and Earned, editorial workflow, earnings, and everything else around these protocols.
