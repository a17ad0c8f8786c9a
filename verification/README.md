# Earthquake store: model and proofs

A model, in Dafny, of the backend that keeps a bitemporal, append-only store of earthquakes fed by a polling protocol,
and of the volcano catalog beside it. `dafny verify dfyconfig.toml` checks everything.

## What is modelled

| module | part of the system |
|---|---|
| `Protocol`, `Safety`, `NoLostRevision`, `LosingHistory`, `SlippingHistory`, `Honesty`, `Example` | many processes sharing one advisory lock, the runs table, the earthquake table and a source that keeps revising its events, even between the pages of one walk, as a step relation; its invariant; what follows from it over whole histories; where that ends, with the histories that cross the limits; full cycles as witnesses |
| `StableReads` | the reads while the protocol runs |
| `Ingester`, `Scheduler` | one collection with its run recorded, the incremental cycle; the advisory lock, the release closure, one timer tick |
| `Runs` | the `ingestion_runs` table and the statements issued against it |
| `Coverage` | interval merging, subtraction, coverage of a window, gaps longer than a cadence |
| `Earthquakes` | content comparison, `Save`, the versioned table |
| `Collect`, `Flapping` | one collection: pages, features, counts, repeating and resuming it, the retry loop; any number of passes over one batch |
| `AsOf`, `EarthquakeList`, `Observations` | reading as known at an instant, filter pushdown, stability of the past |
| `Keyset`, `Walk` | total orders, keyset pages, following the cursor to the end |
| `Catalog` | volcano upserts, absence marking, whole imports |
| `Like`, `VolcanoList` | search escaping, catalog listing, the client's walk over the catalog |
| `Spreadsheet` | decoding the sparse SpreadsheetML token stream |
| `Cursor` | the page cursor token |

Code that changes things step by step is a method or a class whose contract ties it to a function of its input or of
the old state; what the code promises is then proved about those functions.

Main results:

* **No fake revision** (`Honesty.NoRevisionIsFake`): under every interleaving of any number of processes, a crash being
  possible between any two statements, consecutive stored versions of one event differ.
* **No lost revision** (`NoLostRevision.NoRevisionIsLost`): if revisions become visible within 15 minutes of their
  `updated` stamp, no success of another mode outruns the incremental cycles, and nothing slips past a page boundary
  between two requests, an event revised after some cycle's anchor is stored with the source's content, or was revised
  visibly after every cycle's window end. Both limits are exact. Another success may run ahead
  (`LosingHistory.LosesExactly`): with the cycles at e and it ending at m, some history loses a revision if and only if
  m minus the overlap, in whole seconds, plus the overlap is past e. A window that ends no later than a cycle did is
  always safe (`NoLostRevision.EndingByACycleReaches`). The source's list may shift between two requests
  (`SlippingHistory.SlipLosesExactly`): with any page size, some history loses a revision, and the next cycle does not
  ask for it again, if and only if a feature still to come may slip by even one place in front of what was asked for.
* **No gap in the chain, and honest coverage** (`NoLostRevision.ChainIsComplete`, `LosingHistory.MissesExactly`,
  `Honesty.SuccessIsEarned`, `CycleIsComplete`, `CoverageIsMonotone`): whatever failed, was skipped or crashed in
  between.
* **Coverage is exact** (`Coverage.Subtract`, `GapListUnique`, `GapMeasure`, `KindMeaning`).
* **The past stays read** (`EarthquakeList.ListRefinesNaiveRead`, `NoLeakage`, `AsOfStable`, `PageWalk`), in every
  history of the protocol (`StableReads.ReadsStay`, `WalkDuringRuns`).
* **Repeating is free** (`Collect.Resumable`, `NothingNew`, `Idempotent`; `Catalog.ReimportChangesNothing`), or it never
  is (`Flapping.NowOrNever`).
* **Round trips and meanings** (`Spreadsheet.SparseRoundTrip`, `Cursor.CursorRoundTrip`, `Like.SearchMeansContains`).

## Hypotheses

* A process is one server or one command, with one attempt at a time; its session may go on holding the lock after an
  unlock that went unanswered, and may then take it again.
* One clock, shared by the processes and the database, which never goes back; instants are integers in nanoseconds and
  the database keeps them, its own stamps included, rounded down to the microsecond. A row is stamped and visible at one
  instant. What `Collect.IngestSettles`, `Resumable` and `Idempotent` promise about repeating a batch needs it to start
  in a strictly later microsecond than the last write (`Collect.StartsAfter`): in the same one Save can be refused.
* The session that holds the advisory lock lives at least as long as the process working under it.
  `Honesty.WithoutExclusion` shows what happens otherwise.
* A request to the source takes time: its answer is newer than the clock reading the window was planned from.
* Each page of a walk is answered from the source's list at that moment. That nothing is lost assumes that nothing
  still to come moves in front of what was already asked for (`NoLostRevision.Steady`); the lock, the tables, the runs
  and the chain of windows need no such assumption. The loop `Collect.CollectPages` is stated over one list.
* The source answers `updatedafter` with at least every event it currently shows as revised after the given second.
* Run windows satisfy start <= end, as the table's own constraint says.

## Facts about the code

* `LastSuccess` ignores the run mode, so a manual or backfill success that ends later than the cycles moves the
  incremental anchor. Even one that ends within the overlap can lose a revision that was visible late
  (`LosingHistory.LosesExactly`); one that ends more than the overlap later can also leave instants uncollected
  (`LosingHistory.MissesExactly`). A backfill ends at the current time, and so does a manual window by default: both run
  ahead of the cycles by as long as the last one is past. `Finish` and `Fail` do not look at the row's result; that a
  run is closed once is a fact about the protocol.
* A zero-length success (a manual window may start and end at one instant, `Example.ZeroLengthSuccess`) splits a gap in
  two and turns "none" into "partial" (`Coverage.NothingCollected` gives the exact condition). The anchor clamp would
  record one too, but no history of these steps needs the clamp (`Honesty.ClampIsNeverNeeded`).
* Pages are asked for by offset in whatever order the source lists its events, so one revision that moves one event to
  the end of the list between two requests can lose another one: the run still reports success, and the next cycle does
  not ask for it again (`SlippingHistory.EndingLoses`).
* After one completed pass over a batch either every later pass over the same features is silent, or none is
  (`Flapping.NowOrNever`); for events the table did not know, it is silent exactly when every feature agrees with the
  batch's first feature about its event (`Flapping.FirstFeatureDecides`). Because of the tolerance, two features that
  disagree with each other need not make it append (`Flapping.DisagreementCanBeSilent`).
* A past answer is stable for instants before the microsecond the clock is in, and not from its start on
  (`EarthquakeList.AsOfStable`, `AsOfNowMayChange`).
* The provenance filter of the observation read runs before the version is chosen, so a superseded row can be returned
  (`Observations.SupersededRealReturned`; `ListExact` gives the exact condition).
* A volcano whose snapshot row has an impossible coordinate is not among the seen references, so an import marks it
  absent (`Catalog.ImportConverges`). Rows that disagree about one reference count as updates on every import.
* The row decoder indexes its buffer out of range on a Data element that follows the end of a row which had cells
  (`Spreadsheet.FailsExactlyOnStrayData`), and on nothing else.
* Comments call the stored occurrence instant rounded (backend/internal/earthquake/store.go:183-186); the column and the
  comparison both round down.
* A near-point volcano listing given a cursor without a distance starts over from its first page
  (`VolcanoList.NearCursorWithoutDistanceRestarts`), where the earthquake listing refuses it.

## Model

| member | source | states |
|---|---|---|
| Protocol.WindowNotInverted | backend/internal/usgs/ingest.go:120-145 | a cycle's window is inverted only with no earlier success and a negative fallback; the clamp acts exactly when the last success ends more than the overlap in the future |
| Safety.StepKeeps | backend/internal/usgs/ingest.go:155-237 | every step of any process, and every step around it, keeps the invariant: lock, runs, table, walk in progress, cached read |
| Safety.Invariant | backend/internal/usgs/ingest.go:155-237 | the invariant holds in every state of every history |
| Safety.InsertTable | backend/internal/earthquake/store.go:71-88 | the row a process inserts is the one Save would write at that instant, and it revises something |
| Safety.CloseStep | backend/internal/ingestion/run.go:107-144 | Finish and Fail, issued by a process on its own run, close the one row with that id, which is running, touch no other row, and keep the invariant |
| Safety.BeginStep | backend/internal/ingestion/run.go:90-104 | Begin appends one running row with the planned window under a new id, leaving the others alone, or, if the window is inverted, nothing; the invariant is kept |
| Safety.HandledStep | backend/internal/usgs/ingest.go:212-231 | a feature counts as handled once it is rejected or the table says what it says; the last storable feature handled about an event is what the table says |
| Safety.CounterMoves | backend/internal/usgs/ingest.go:212-231 | each step that handles a feature moves the counter the table calls for |
| Safety.SaysMeans | backend/internal/earthquake/store.go:91-115 | the table says a revision exactly when its newest row about the event differs from it in no column |
| NoLostRevision.NoRevisionIsLost | backend/internal/usgs/ingest.go:19-27 | in every history in which no success of another mode outran the cycles and nothing slipped past a page boundary, an event revised after some cycle's anchor has a newest row that differs from it in no column, or was last revised visibly after every cycle's window end |
| NoLostRevision.IncrementalLosesNothing | backend/internal/usgs/ingest.go:110-145 | when every success is incremental and nothing slips: stored, or revised visibly after the last success's window end |
| NoLostRevision.EndingByACycleReaches | backend/cmd/server/ingest.go:95-114 | a window that ends no later than some cycle did can be run safely; a safe one ends at most the overlap later |
| LosingHistory.LosesExactly | backend/internal/ingestion/run.go:177-193 | with the cycles at e, another success ending at m and nothing slipping, some history loses a revision if and only if m less the overlap, in whole seconds, plus the overlap is past e |
| LosingHistory.MissesExactly | backend/internal/usgs/ingest.go:124-138 | and some history leaves an instant between cycles uncollected if and only if m is more than the overlap past e |
| LosingHistory.ReachEnd | backend/cmd/server/ingest.go:88-121 | such a history: a cycle, a late revision, a manual run, the next cycle |
| LosingHistory.EndLoses | backend/internal/usgs/ingest.go:120-145 | at its end the source shows a revision that was due and the store does not say it |
| SlippingHistory.SlipLosesExactly | backend/internal/usgs/client.go:267-303 | with any page size, some history of incremental cycles loses a revision that the next cycle does not ask for again if and only if something still to come may slip by at least one place in front of what was asked for |
| SlippingHistory.ReachEnding | backend/internal/usgs/client.go:272-301 | such a history, for every page size: one full page, one revision at the source, the next page |
| SlippingHistory.EndingLoses | backend/internal/usgs/client.go:272-301 | at its end a cycle has succeeded, the source shows a revision it asked for, the store does not say it, and the next anchor is past it |
| NoLostRevision.CapturedStep | backend/internal/usgs/ingest.go:120-145 | no step of any process loses a revision that is due, while every walk can still deliver what it asked for |
| NoLostRevision.OlderThanAnchor | backend/internal/usgs/ingest.go:19-27 | a revision older than the anchor was already visible before an earlier cycle ended: the overlap is long enough |
| NoLostRevision.FloorWidens | backend/internal/usgs/client.go:135-137 | rendering the anchor in whole seconds only widens the answer |
| NoLostRevision.InsertCaptured | backend/internal/earthquake/store.go:71-88 | a process writing from an answer that has become stale never overwrites a due revision |
| NoLostRevision.WalkCaptures | backend/internal/usgs/client.go:267-303 | a complete walk that nothing slipped past was delivered, and leaves in the store, every revision it asked for |
| NoLostRevision.PageInReach | backend/internal/usgs/client.go:267-303 | a page of the list as it is now, whatever else changed in it, leaves every revision asked for delivered or still to come if nothing still to come moved in front of what was asked for |
| NoLostRevision.InReachStep | backend/internal/usgs/client.go:272-301 | every step of any process keeps that |
| NoLostRevision.LastDelivery | backend/internal/usgs/ingest.go:212-231 | a revision delivered and still shown is what the store says after the walk, even if other pages delivered its event as well |
| NoLostRevision.ChainIsComplete | backend/internal/ingestion/coverage.go:44-92 | in every history in which no success of another mode outran the cycles by more than the overlap, the coverage from the start of any cycle to the end of any cycle is complete |
| NoLostRevision.IncrementalChainIsComplete | backend/internal/ingestion/coverage.go:44-92 | when every success is incremental: from the start of any success to the end of any success |
| NoLostRevision.ExtendsChain | backend/internal/usgs/ingest.go:126-138 | each new window starts behind an end of the chain and ends after all of it |
| NoLostRevision.AnchorFollowsAnyMode | backend/internal/ingestion/run.go:177-193 | the anchor follows a later success of any mode, and lies past the latest earlier end exactly when that success ends more than the overlap later |
| Honesty.MutualExclusion | backend/internal/ingestion/scheduler.go:65-131 | at most one process is past the lock in every reachable state |
| Honesty.UnansweredUnlockBlocks | backend/internal/ingestion/scheduler.go:116-131 | after an unlock that went unanswered no other process can take the lock, and nothing else has changed |
| Honesty.ReadStaysCurrent | backend/internal/earthquake/store.go:71-88 | the version read with currentVersion is still current when the process decides |
| Honesty.InsertIsSave | backend/internal/earthquake/store.go:49-89 | reading and inserting in two statements amounts to one atomic Save |
| Honesty.NoRevisionIsFake | backend/cmd/server/ingest.go:64-79 | in every reachable table two consecutive versions of one event differ in some column |
| Honesty.WithoutExclusion | backend/cmd/server/ingest.go:64-69 | if two processes could both have read the current version and both insert, they would leave a fake revision |
| Honesty.RunLife | backend/internal/ingestion/run.go:86-158 | a run goes from running to one terminal result and then never changes |
| Honesty.CoverageIsMonotone | backend/internal/ingestion/coverage.go:56-62 | no step turns a covered instant uncovered |
| Honesty.SuccessIsEarned | backend/internal/usgs/ingest.go:155-185 | every success was recorded by a collection under that window which reached its short last page, counted every feature delivered and left the store saying the last storable one about each event |
| Honesty.CycleIsComplete | backend/internal/usgs/client.go:267-303 | while nothing slips, every successful cycle was delivered every revision after its anchor that the first request could list and the source still shows |
| Honesty.CoveredIsEarned | backend/internal/ingestion/coverage.go:44-62 | an instant is covered only if such a collection ran under a window containing it |
| Honesty.ClampIsNeverNeeded | backend/internal/usgs/ingest.go:128-137 | in these histories no success ends in the future of the process that reads it |
| Example.OneCycle | backend/internal/usgs/ingest.go:120-185 | from an empty store one incremental cycle stores an event and records a success that counts it |
| Example.EmptyRun | backend/internal/usgs/ingest.go:155-185 | any job that plans a proper window runs to success from an idle state when the source answers with nothing |
| Example.ZeroLengthSuccess | backend/cmd/server/ingest.go:102-114 | a manual window of one instant is recorded as a success of zero length |
| Ingester.IngestWindow | backend/internal/usgs/ingest.go:155-185 | exactly one run is recorded: a success, with every feature handled and counted, if and only if nothing broke the collection off and the closing statement went through; a failure with what was managed; or one left running; an inverted window leaves no trace |
| Ingester.IngestIncremental | backend/internal/usgs/ingest.go:120-145 | the same over the window from fifteen minutes before the last success's end, never past now, or from the fallback before it |
| Ingester.RunJob | backend/cmd/server/ingest.go:88-121 | a cycle, a backfill or a manual window, refused if it is inverted or ends later than the clock; whichever it is, the window is the one the protocol plans for the same job |
| Ingester.CoverageGrows | backend/internal/ingestion/coverage.go:56-62 | the coverage grows by exactly that window when the collection succeeds and by nothing otherwise |
| Scheduler.AdvisoryLock.Take | backend/internal/ingestion/scheduler.go:103-107 | the lock is granted exactly when free or held by the same session |
| Scheduler.Releaser.Release | backend/internal/ingestion/scheduler.go:116-131 | the closure gives the lock back at most once |
| Scheduler.TryLock | backend/internal/ingestion/scheduler.go:95-132 | acquired, busy or unreachable, and what each leaves of the lock |
| Scheduler.Cycle.Run | backend/cmd/server/scheduler.go:40-45 | the cycle is one incremental collection, recorded as such; every rival that tries for the lock meanwhile is refused, and the lock stays as it was |
| Scheduler.RunOnce | backend/internal/ingestion/scheduler.go:65-85 | one collection runs, under this session's lock and with every rival refused, exactly when the lock is free; exactly when it is held a skipped run is recorded and nothing else changes; and the lock is left as found however the cycle ends |
| Runs.LastSuccessOf | backend/internal/ingestion/run.go:179-193 | the successful run of the source with the latest window end, newest id among ties, or none when there is none |
| Runs.IngestionRuns.Begin | backend/internal/ingestion/run.go:90-104 | appends one running row under a new id, given column by column, or refuses an inverted window |
| Runs.IngestionRuns.Skip | backend/internal/ingestion/run.go:147-158 | appends one finished row that claims no collection, given column by column |
| Runs.IngestionRuns.Finish | backend/internal/ingestion/run.go:107-120 | closes that run as successful with its counts; entry by entry, no other row changes |
| Runs.IngestionRuns.Fail | backend/internal/ingestion/run.go:127-144 | closes that run as failed with a cause, and no other row changes; an empty cause is refused by the table |
| Runs.IngestionRuns.LastSuccess | backend/internal/ingestion/run.go:179-193 | returns that run, or reports that there are none |
| Coverage.SortByStart | backend/internal/ingestion/coverage.go:132-133 | a sorted permutation, with nothing promised about ties |
| Coverage.MergeIntervals | backend/internal/ingestion/coverage.go:131-149 | separated windows that reach exactly as far as the given ones |
| Coverage.Subtract | backend/internal/ingestion/coverage.go:96-129 | in order, exactly the maximal stretches of the window no run reaches into |
| Coverage.GapListUnique | backend/internal/ingestion/coverage.go:96-149 | the result depends only on which windows there are, not on their order or repetition |
| Coverage.GapInstants | backend/internal/ingestion/coverage.go:94-129 | an instant lies in a gap if and only if no run collected it |
| Coverage.ClearMeansUncovered | backend/internal/ingestion/coverage.go:94-129 | for runs of positive length a clear stretch is one with no collected instant |
| Coverage.GapMeasure | backend/internal/ingestion/coverage.go:94-129 | gap length plus collected time is the length of the window |
| Coverage.KindMeaning | backend/internal/ingestion/coverage.go:83-90 | complete means every instant was collected, none means no run touched the inside of the window |
| Coverage.NothingCollected | backend/internal/ingestion/coverage.go:83-90 | a window with nothing collected is reported as none exactly when no zero-length run lies strictly inside it |
| Coverage.ZeroLengthRunSplitsGap | backend/internal/ingestion/coverage.go:106-117 | one zero-length run turns none into partial |
| Coverage.SuccessWindows | backend/internal/ingestion/coverage.go:56-62 | the windows of the successful runs of one source, and no others |
| Coverage.CoverageFor | backend/internal/ingestion/coverage.go:50-92 | the exact gaps of the window under all successful runs of the source, and the kind they mean |
| Coverage.FilterHarmless | backend/internal/ingestion/coverage.go:56-62 | restricting the lookup to windows that touch the asked one changes nothing |
| Coverage.GapsSince | backend/internal/ingestion/coverage.go:157-172 | every uncovered stretch longer than the cadence lies in a reported gap, and every reported gap is uncovered and longer |
| Coverage.ReportedOnce | backend/internal/ingestion/coverage.go:165-170 | in exactly one reported gap |
| Earthquakes.ToleranceNotTransitive | backend/internal/earthquake/store.go:209-217 | two steps within the tolerance can leave it |
| Earthquakes.NormalizedCompares | backend/internal/earthquake/store.go:182-204 | comparing content never sees what the column rounds away |
| Earthquakes.CurrentIsNewest | backend/internal/earthquake/store.go:91-115 | the current version is a version of the event, none is newer, and there is none only for an unknown event |
| Earthquakes.CurrentAppend | backend/internal/earthquake/store.go:91-115 | an appended row becomes the current version of its event and of no other |
| Earthquakes.CurrentEndsHistory | backend/internal/earthquake/store.go:91-115 | the current version carries the last content of the event's history |
| Earthquakes.ConsecutiveVersionsDiffer | backend/internal/earthquake/store.go:71-88 | in a table without fake revisions consecutive versions differ in content |
| Earthquakes.CollidesMeansTaken | backend/migrations/005_bitemporal_earthquakes.sql:17 | under a clock that never goes back only the current version can hold the stamp about to be used |
| Earthquakes.InsertKeepsTable | backend/internal/earthquake/store.go:117-152 | inserting keeps ids ascending, stamps ordered and the natural key unique |
| Earthquakes.SaveKeeps | backend/internal/earthquake/store.go:49-89 | whatever its outcome, Save only appends, at most one row, and never a fake revision |
| Earthquakes.SaveCurrent | backend/internal/earthquake/store.go:71-88 | after a successful Save the current version says what the record says; no other event moved |
| Earthquakes.EarthquakeTable.CurrentVersion | backend/internal/earthquake/store.go:91-115 | the lookup returns the newest version of the event |
| Earthquakes.EarthquakeTable.Save | backend/internal/earthquake/store.go:49-89 | which outcome it has, and what the row it appends holds: everything the caller asked for, the occurrence instant and the stamp rounded down to the microsecond; and the current version it leaves |
| Earthquakes.SaveStores | backend/internal/earthquake/store.go:117-152 | the same about the row, for Save as a function |
| Earthquakes.SaveDecides | backend/internal/earthquake/store.go:49-89 | rejected on coordinates alone; refused for what is missing or for a second change within one microsecond; otherwise new, changed or unchanged, by what the table has |
| Earthquakes.SaveRefuses | backend/internal/earthquake/store.go:49-89 | Save refuses exactly a record without an id or a time, or one on Earth that lacks its verdict, its parser or its payload, or that changes an event within the microsecond of its last row |
| Earthquakes.CurrentIsLatest | backend/internal/earthquake/store.go:91-115 | the current version of an event is the last row about it, and there is one as soon as there is a row |
| Earthquakes.SameMeansNoDifference | backend/internal/earthquake/store.go:182-217 | content is the same exactly when no column differs by a microsecond, a billionth, or at all |
| Collect.IngestTotal | backend/internal/usgs/ingest.go:205-232 | every handled feature is counted once |
| Collect.IngestGrowth | backend/internal/usgs/ingest.go:224-231 | the table grows by exactly what was inserted and updated |
| Collect.IngestKeeps | backend/internal/usgs/ingest.go:187-237 | a whole collection only appends and writes no fake revision |
| Collect.IngestSettles | backend/internal/usgs/ingest.go:187-237 | a batch in which repeated ids agree never stops, and gives each event its content once unless it was there |
| Collect.Resumable | backend/internal/usgs/ingest.go:187-237 | any prefix, then a crash, then the whole batch gives every event the history of one uninterrupted pass |
| Collect.NothingNew | backend/internal/earthquake/store.go:71-77 | a pass appends nothing if and only if the table already says everything in it |
| Collect.Idempotent | backend/internal/earthquake/store.go:154-199 | a further pass appends nothing whatever the mode, clock, verdicts, raw bytes, service version or updated stamps |
| Collect.DisagreementFlaps | backend/internal/earthquake/store.go:71-88 | the smallest batch whose second pass appends: two features that disagree about an event the table did not know |
| Flapping.SettlesOrFlaps | backend/internal/earthquake/store.go:71-88 | after a completed pass the table says every storable feature, or some event's version was written from the batch and another of its features contradicts it |
| Flapping.NowOrNever | backend/internal/usgs/ingest.go:187-237 | any later pass over the same features is silent if and only if the table left by the first says every storable feature: all are, or none is |
| Flapping.FirstFeatureDecides | backend/internal/earthquake/store.go:182-217 | for events the table did not know, that is so exactly when every feature agrees with the batch's first feature about its event |
| Flapping.DisagreementCanBeSilent | backend/internal/earthquake/store.go:209-217 | two features that disagree, and a pass that finds nothing to do |
| Collect.PageSize | backend/internal/usgs/client.go:268-270 | the requested size is kept exactly when it is in range, and is otherwise the service's ceiling |
| Collect.SaveEvent | backend/internal/usgs/ingest.go:212-231 | one event saved and counted as rejected, new, revised or unchanged, by what the table held, and the row written is what the feature said |
| Collect.CountUnreadable | backend/internal/usgs/ingest.go:205-210 | every feature that could not be extracted is counted as rejected |
| Collect.SavePage | backend/internal/usgs/ingest.go:196-234 | a page counts what could not be read, then saves the rest in order up to the first refused record |
| Collect.CollectPages | backend/internal/usgs/client.go:267-303 | succeeds if and only if no record is refused and every request it takes is answered; then each of N features is delivered once in N/size + 1 requests whichever cannot be read, the counts add up to N. Inserted is how many events are new to the table, updated the rest of the appended rows, rejected the features that cannot be read or lie nowhere on Earth, unchanged the rest; every appended row is what a listed feature said |
| Collect.IngestCounts | backend/internal/usgs/ingest.go:205-232 | the same for the collection as a function, stopped or not |
| Collect.HandleCounts | backend/internal/usgs/ingest.go:212-231 | which counter one more feature moves, and what row it writes |
| Collect.HandleStops | backend/internal/usgs/ingest.go:212-222 | a feature breaks the collection off exactly when the store refuses it, told by its columns and the last row about its event; a place that is not on Earth does not |
| Collect.NothingSkipped | backend/internal/usgs/client.go:272-301 | paging over a changing list delivers a feature that never moves towards the front |
| Collect.ShiftedFeatureMissed | backend/internal/usgs/client.go:272-301 | one that does can be missed |
| Collect.Fetch | backend/internal/usgs/client.go:158-197 | how many attempts are made, which one ends them, and the doubling wait between them |
| AsOf.NewestExists | backend/internal/earthquake/earthquake.go:257-265 | an event with some version selected has exactly the newest one chosen |
| AsOf.OnePerKey | backend/internal/earthquake/earthquake.go:257-265 | at most one version per key is chosen |
| AsOf.PushdownExact | backend/internal/earthquake/earthquake.go:185-198 | filtering before choosing equals filtering after if and only if no row passes the filter that a newer one supersedes |
| AsOf.PushdownOfKeyFilter | backend/internal/earthquake/earthquake.go:186-190 | a filter over natural-key columns may always run first |
| EarthquakeList.IdentityPredicates | backend/internal/earthquake/earthquake.go:204-209 | the predicates that run before the version is chosen test the event's identity and nothing else |
| EarthquakeList.BusinessPredicates | backend/internal/earthquake/earthquake.go:211-250 | the predicates that run afterwards are exactly the caller's other filters |
| EarthquakeList.List | backend/internal/earthquake/earthquake.go:171-291 | which query is refused with which error; otherwise the statement expresses the query, at an instant not in the future |
| EarthquakeList.ListRefinesNaiveRead | backend/internal/earthquake/earthquake.go:185-291 | the statement's rows are the page of: newest version of every event by then, then every filter; without a limit, all of them |
| EarthquakeList.ListReads | backend/internal/earthquake/earthquake.go:185-291 | column by column: the rows that are newest by then, pass every filter and come after the place to resume at, in order by distance and id or by id; all of them, or the first ones when there are more than the limit |
| EarthquakeList.NearListing | backend/internal/earthquake/earthquake.go:236-291 | near a point the distance is measured from the caller's latitude and longitude to the event's, none returned is further than the radius, and the rows ascend by it and then by id |
| EarthquakeList.NoLeakage | backend/internal/earthquake/earthquake.go:252-265 | nothing ingested later is returned, one row per event, and it is the newest by then |
| EarthquakeList.StoreGrows | backend/internal/earthquake/store.go:117-152 | whatever is saved later carries a later stamp |
| EarthquakeList.AsOfStable | backend/internal/earthquake/earthquake.go:176-183 | for an instant before the clock's microsecond no later Save changes the answer |
| EarthquakeList.AsOfNowMayChange | backend/migrations/009_ingested_at_enforced_by_database.sql:12-19 | from the start of that microsecond on the next Save still can |
| EarthquakeList.ResumingMeans | backend/internal/httpapi/earthquakes.go:234-244 | the cursor handed out resumes exactly after its row, over the same events |
| EarthquakeList.ResumedPage | backend/internal/earthquake/earthquake.go:267-291 | a resumed request gets the page of the walk, in either order |
| EarthquakeList.PageWalk | backend/internal/earthquake/earthquake.go:267-291 | at a past instant, executing the statement List makes at each cursor, on the table as it is by then, returns every matching event once and in order with any limit, whatever is saved between requests |
| StableReads.StepIsSave | backend/internal/earthquake/store.go:49-89 | to a reader every step of the protocol is one Save, the clock moving on, or nothing |
| StableReads.ReadsStay | backend/internal/earthquake/earthquake.go:176-183 | in every history of the protocol, for an instant before the clock's microsecond no later step changes the executed answer |
| StableReads.WalkDuringRuns | backend/internal/earthquake/earthquake.go:267-291 | in every history of the protocol, a walk at such an instant returns every matching event once and in order while collections go on |
| Observations.List | backend/internal/observation/observation.go:100-157 | which query is refused with which error; otherwise the statement expresses the query |
| Observations.ListExact | backend/internal/observation/observation.go:114-153 | the read equals the naive one if and only if no row of the asked provenance was superseded by one of the other |
| Observations.ExecuteReads | backend/internal/observation/observation.go:140-153 | the selected rows in order of observed instant and then id, and past a limit the first ones |
| Observations.ListRefinesNaiveRead | backend/internal/observation/observation.go:114-153 | with every provenance asked for: column by column, what was known of each natural key by then and passes the filters, in that order, up to the limit |
| Observations.SupersededRealReturned | backend/internal/observation/observation.go:140-147 | a real row superseded by a synthetic one is returned as current |
| Keyset.OrderByLists | backend/internal/earthquake/earthquake.go:284-288 | the order lists every row once, ascending by (distance, id) |
| Walk.ResumeAt | backend/internal/earthquake/earthquake.go:267-279 | resuming after the k-th row gives the rest of the listing, ties included |
| Walk.NextAt | backend/internal/httpapi/earthquakes.go:234-244 | a full page hands out the cursor of its last row, a short one ends the walk |
| Walk.WalkVisitsAll | backend/internal/httpapi/earthquakes.go:234-244 | the walk returns every row once and in order, in one request more than full pages |
| Like.EscapedPrefix | backend/internal/volcano/list.go:165-168 | an escaped term matches itself literally, up to case |
| Like.SearchMeansContains | backend/internal/volcano/list.go:116-125 | the search pattern matches a text if and only if the term occurs in it, for every term |
| Like.SearchPatternTerminated | backend/internal/volcano/list.go:165-168 | the pattern never ends in a lone escape |
| Like.UnescapedMatchesAll | backend/internal/volcano/list.go:119-120 | without escaping a percent sign matches everything |
| Like.UnderscoreMatchesOne | backend/internal/volcano/list.go:119-120 | an unescaped underscore matches exactly one character, an escaped one only itself |
| VolcanoList.List | backend/internal/volcano/list.go:65-138 | refuses exactly the queries without a limit, with a radius that is not positive or with a point not on Earth; otherwise the statement expresses the query |
| VolcanoList.AddFilters | backend/internal/volcano/list.go:110-128 | the conditions added are exactly the country, status, search and presence filters |
| VolcanoList.SearchIsContainment | backend/internal/volcano/list.go:116-125 | the search condition selects the rows whose name or country contains the term |
| VolcanoList.ListAnswersQuery | backend/internal/volcano/list.go:103-138 | the page a request gets is the page of the volcanoes that answer it |
| VolcanoList.ListReads | backend/internal/volcano/list.go:85-138 | column by column: the volcanoes that answer the query and come after the place to resume at, in order by distance and id or by id, up to the limit |
| VolcanoList.ResumedPage | backend/internal/httpapi/handlers.go:194-199 | following the cursor gives the next page of the walk, in either order |
| VolcanoList.NearCursorWithoutDistanceRestarts | backend/internal/volcano/list.go:97-102 | a near-point listing given a cursor without a distance returns its first page, whatever the id |
| VolcanoList.CatalogPage | backend/internal/volcano/list.go:103-138 | the statement of each of the client's requests returns a page of the volcanoes present in the catalog |
| VolcanoList.GetPage | backend/internal/httpapi/handlers.go:112-199 | the page is what the statement List makes of the resumed query returns, and the cursor is its last row's |
| VolcanoList.FetchAllVolcanoes | frontend/src/api/client.ts:77-103 | returns all n present volcanoes of the catalog once in id order exactly when n < 50000, and otherwise reports overflow |
| Catalog.VolcanoCatalog.Upsert | backend/internal/volcano/volcano.go:98-161 | refused for a missing attribution or an impossible coordinate; inserts with a new id, or updates keeping the old one and clearing absence, or finds nothing to do; no other entry changes |
| Catalog.VolcanoCatalog.MarkAbsent | backend/internal/volcano/volcano.go:170-182 | afterwards every entry of the source not seen is absent; an entry changes only if it is one of these and was present, and then only in its absence; the result is how many changed; ids, references and every other entry stay |
| Catalog.MarkAbsentMeans | backend/internal/volcano/volcano.go:163-169 | the same about the marking as a function of the catalog |
| Catalog.VolcanoCatalog.ImportRow | backend/internal/gvp/importer.go:74-105 | one sound row upserted, seen and counted as new, changed or unchanged by what the catalog held; any other reported as rejected |
| Catalog.VolcanoCatalog.Import | backend/internal/gvp/importer.go:61-117 | upserts row by row and then marks absences, and its report counts that; a broken import leaves a prefix of the upserts |
| Catalog.ImportCounts | backend/internal/gvp/importer.go:86-116 | inserted is how far the catalog grew; unchanged the sound rows whose volcano was shown that way when they came up; the other sound rows are updated; rejected the rest; marked absent the entries that were present and are not |
| Catalog.UnalteredWereShown | backend/internal/gvp/importer.go:97-103 | for rows about distinct volcanoes, unchanged are those the catalog already showed |
| Catalog.UpsertsLeave | backend/internal/gvp/importer.go:73-105 | each reference ends with the last accepted row about it and its old identity |
| Catalog.SeenIsAccepted | backend/internal/gvp/importer.go:86-96 | the seen references are exactly the accepted ones |
| Catalog.ImportConverges | backend/internal/gvp/importer.go:61-117 | present entries of the source are exactly the accepted references with the snapshot's attributes; identities grow, other sources stay |
| Catalog.ImportKeepsIdentity | backend/internal/volcano/volcano.go:90-97 | one id per reference and one reference per id, through any import |
| Catalog.SameRejections | backend/internal/gvp/importer.go:87-92 | what a snapshot has rejected depends on the snapshot alone |
| Catalog.ReimportChangesNothing | backend/internal/gvp/importer.go:61-117 | importing again changes nothing; it reports no update if and only if rows that repeat a reference agree |
| Catalog.AbortedImportRecovers | backend/internal/gvp/importer.go:93-110 | an aborted import followed by a full one reaches the catalog of a full one alone |
| Spreadsheet.DecodeRows | backend/internal/gvp/parser.go:236-303 | the loop computes the rows of the token stream, or fails where the buffer is indexed out of range |
| Spreadsheet.FailsExactlyOnStrayData | backend/internal/gvp/parser.go:289-298 | it fails if and only if a Data element closes past the end of a row that had cells |
| Spreadsheet.WellNestedNeverFails | backend/internal/gvp/parser.go:255-298 | a well-nested stream never fails |
| Spreadsheet.StrayDataFails | backend/internal/gvp/parser.go:290-297 | the smallest stream that does |
| Spreadsheet.RunCell | backend/internal/gvp/parser.go:264-294 | a cell ends up in the column it stands for, and nowhere else |
| Spreadsheet.MarkupDecides | backend/internal/gvp/parser.go:255-303 | text outside Data and unknown elements, wherever they stand, make no difference |
| Spreadsheet.SparseRoundTrip | backend/internal/gvp/parser.go:222-303 | every sparse writing of a table, in any layout, decodes, once padded, to the table |
| Spreadsheet.UnindexedCellMoves | backend/internal/gvp/parser.go:231-235 | without the position after a dropped cell the text moves a column to the left |
| Spreadsheet.PositionsCountFromOne | backend/internal/gvp/parser.go:264-275 | a cell at position 3 fills the third column |
| Cursor.TextRoundTrip | backend/internal/httpapi/params.go:111-119 | unpadded base64url decodes to what was encoded |
| Cursor.IntRoundTrip | backend/internal/httpapi/params.go:107-124 | a 64-bit id printed in decimal parses back |
| Cursor.StandardAlphabet | backend/internal/httpapi/params.go:111-119 | the alphabet is that of RFC 4648, section 5 |
| Cursor.BigEndian | backend/internal/httpapi/params.go:111-119 | three bytes read as one number are four symbols read as one; one or two are padded with zero bits |
| Cursor.DecodeEdges | backend/internal/httpapi/params.go:106-137 | the empty token is the first page, line breaks are skipped, a plus sign is accepted, and an id has 64 bits |
| Cursor.CutAfter | backend/internal/httpapi/params.go:123 | the separator is found exactly after the id |
| Cursor.CursorRoundTrip | backend/internal/httpapi/params.go:106-137 | an encoded cursor decodes to the same id and optional distance, and is never the empty token |

## Left out

- HTTP transport, headers, status mapping, JSON and XML tokenizing: the model starts from a list of features or a stream of tokens; which responses are worth another attempt is an input of `Collect.Fetch`.
- SQL text and the database itself: each statement is modelled by what it means on a table; distance is an arbitrary function of two points. Bounds a caller sends are compared exactly, not rounded to the microsecond first.
- Floating point: measurements are reals; printing and parsing of the cursor's distance are taken as an inverse pair.
- Quality verdicts: an opaque field that content comparison ignores; a verdict is either storable or not.
- Occurrence time against update time: coverage is about recorded windows, whatever the mode asked the source for.
- Protocol: fetching with retries is one step, and an insert's stamp and visibility are one instant; a source never withdraws an event; the rejected count of a failed run is left free.
- Collect.CollectPages: the content of a page is handled as the source listed it, and the source is one list; a body that is not a feature collection is an unanswered request.
- Interleavings in the imperative code: what happens between two statements of a process is the protocol's; in the methods the rivals of a cycle try for the lock before its first request.
- Catalog.VolcanoCatalog.MarkAbsent: the statement is one update of the map, since the source has no loop there.
- Parameter validation of the HTTP handlers, page-size limits included: the listings start from a query.
- Row parsing, header checks, the version banner and the sanitizing of raw less-than signs in the spreadsheet: single-branch checks.
- Status endpoint, source registry, configuration, migrations tooling, user interface beyond the catalog walk.
