# pgkube: a model of its hourly usage, its object table and its workload page

pgkube scrapes the nodes of a Kubernetes cluster, folds what it reads into one database row for each pod and
hour, keeps a row for every object it has ever seen, and shows usage and cost on a page that groups those
rows.  This project models the three pipelines in which the guarantees span several functions, and proves them.

**From a scrape to an hourly row.**  `Clock` holds times with a fixed zone offset and the truncation to the
hour.  `Scraping` and `ScrapeHistory` say what a scrape computes from the previous one and what a scraper knows
after any number of scrapes; the class in `NodeScraper` is the scraper with its two maps.  `UsageTable` is
`pod_usage_hourly` with its upserts, `UsageLaws` says what the stored statistics mean, and `UsageCounts` and
`ScrapeRuns` follow readings through batches and whole runs of many scrapers, whose writes may come in any order.  `Queries` is the class that
changes both tables.  `Uuid` parses object UIDs, and `SampleTimes` says which hour a sample's stamp means.

**Targets and objects.**  `Manager` is the scrape manager with its goroutines, as a step system over every
interleaving and as a class that is proved to take those steps.  `ObjectTable` is the table `object` with its
upsert and its two deletions, `Collector` one pass of the garbage collector, `PersistObjectHandler` the informer
handler, and `CollectorProtocol` the free interleaving of informer events with a pass.

**From a link to a sum.**  `Calendar` and `Rfc3339` print and read times as in section 5.6 of RFC 3339,
and `Rfc3339Grammar` proves that exactly its texts are read.
`WorkloadRequest` reads a request from URL values and writes it back, `Links` builds the links of the page,
`Windows` steps through time with Prev and Next, `WorkloadQuery` compiles a request to a grouped query,
`Grouping` says what the query returns, `Cell` how a number is shown, `CostViews` how hours and costs are
derived, `PodCosts` what the query shows of a pod, and `Page` leads from a URL to the sums.  `Sums` and `Wrappers` are shared.

## How the model is built

- Everything that pgkube updates in place is a class whose methods are proved against functions on values; the
  lemmas are about those functions.  Loops over Go maps pick keys in any order.
- Readings are reals.  The whole-second difference of two samples can be 0; the quotient is then `NonFinite`,
  and `ScrapeHistory.RatesFinite` says exactly when that never happens.
- Clocks, the outcome of a database statement, the result of a metrics request, the informer's lists, what each lookup
  in the pod cache finds and what `time.ParseDuration` makes of a text are parameters.
- A time is an instant in nanoseconds since the start of year 1, so that instant 0 is Go's zero time, and an
  offset.

## What turned out not to hold

Each of these is proved with its exact condition, or with an input that shows it.

- The stored minimum is not the least reading once a zero was followed by another reading
  (`UsageLaws.StoredMinIsTrueMin`), the row then depends on the order of the readings
  (`UsageLaws.OrderIrrelevant`), and the minimum can exceed the average (`UsageLaws.MinBelowAverage`, with readings
  in `UsageLaws.StoredMinAboveAverage`).
- An object that is created between the collector's list and its update is marked deleted for good
  (`CollectorProtocol.LivingVictimIsNew`, `CollectorProtocol.ObjectCreatedDuringPassIsLost`), because an upsert never
  clears `deleted_at` (`ObjectTable.UpsertDoesNotRevive`).
- Rows of kind Node, DaemonSet and StatefulSet are never collected: the collector asks for the kind "Nodes" and
  skips the other two (`Collector.CollectableKinds`).
- After a node was removed and added again, two goroutines can scrape it at the same time, exactly while one of an
  earlier addition has not exited (`Manager.OverlapPossible`, with a run in `Manager.ReplacedTargetOverlaps`).
- A removed goroutine scrapes once more unless it had scraped before: one that was cancelled during its initial delay
  always makes a call (`Manager.QuietExit`).
- Prev does not undo Next, and the windows of Next overlap, unless a window is a whole number of hours that a 64-bit
  duration can hold (`Windows.PrevUndoesNext`, `Windows.OnlyTileableTiles`).  Windows with their ends in different
  zones need not be (`Windows.MixedZonesDrift`), nor are windows of more than 292 years (`Windows.LongWindowDrifts`).
- A time in the first hour of year 1 is cut to the zero time and is then lost (`Links.UnmarshalIsValid`, with a URL in
  `Links.ZeroHourIsLost`).
- The order clause of a URL reaches the query even when it names no known or no selected column
  (`Links.OrderClause`, with requests in `Links.UnselectedOrderReachesQuery` and `Links.UnknownOrderReachesQuery`),
  though links never make such a clause (`Links.BrowsingKeepsOrder`).
- A rate is not finite when a pod's sample moved by less than a second (`ScrapeHistory.RatesFinite`, with two samples
  in `ScrapeHistory.HalfSecondDividesByZero`).
- A bucket lies in a window with its samples only when the window's ends are hours of the scraper's zone
  (`Clock.BucketsRespectWindow`); the server may cut to hours of another zone (`Clock.HalfHourZoneMisses`).

## Model

| member | source | states |
|---|---|---|
| Clock.TruncateHour | app/server/workload.go:369-371 | The result is a whole hour of the time's own wall clock, not after the time and less than an hour before it |
| Clock.TruncateHourUnique | app/scraper/scraper.go:58-60 | No other instant has those properties, so both truncations in the repository agree |
| Clock.BucketInAlignedWindow | app/queries/workload_agg.go:141-142 | In a half-open window that begins and ends on hours, the bucket of a time is inside exactly when the time is |
| Clock.BucketsRespectWindow | app/queries/workload_agg.go:141-142 | That holds for every time if and only if both ends are hours of the scraper's zone |
| Clock.HalfHourZoneMisses | app/scraper/scraper.go:58-60 | A sample of a scraper at +05:30 inside an hour of UTC whose bucket is outside it |
| SampleTimes.StampDenotes | app/scraper/node_event_handler.go:139-141 | The stamp of a sample counts thousandths of a second from midnight of 1 January 1970, in civil fields |
| SampleTimes.BucketFields | app/scraper/scraper.go:58-60 | On the scraper's wall clock a sample is booked under its own date and hour, with minute and second 0 |
| Uuid.ParsePGUUID | app/scraper/helpers.go:25-49 | Valid exactly when the 32 digit positions of a 36- or 32-byte text are hexadecimal; then the bytes are the ones spelled, otherwise zero |
| Uuid.DecodeHexSpec | app/scraper/helpers.go:40-47 | Decoding succeeds exactly on an even number of digits and yields the bytes they spell |
| Uuid.ParseInvertsSpelling | app/scraper/helpers.go:31-49 | A text whose digit positions spell 16 bytes parses to them, and to no others |
| Uuid.ParseInvertsBothForms | app/scraper/helpers.go:31-49 | For any 16 bytes the dashed and the undashed form, each digit in either case, parse back to the bytes |
| Uuid.SeparatorsAreIgnored | app/scraper/helpers.go:31-40 | The four separator positions of the 36-byte form never matter |
| Uuid.HexDigits | app/scraper/helpers.go:42-45 | The sixteen digits have their values in order, in either case |
| Uuid.DigitsInOrder | app/scraper/helpers.go:33-34 | Of the 36-byte form every position but the four separators is read, in order |
| UsageTable.RowOfLog | app/queries/queries.go:132-188 | From an empty table, any sequence of upserts leaves a row exactly for the keys written, its two metrics the folds of just that row's own readings, its cluster the latest |
| UsageTable.ApplyConcat | app/queries/queries.go:222-236 | Batches compose: one after the other is one batch of both |
| UsageLaws.CreatedStats | app/queries/queries.go:136-153 | In a row created by its own metric, count, total and maximum are those of the readings |
| UsageLaws.FoldedStats | app/migrations/202308010_init_schema.up.sql:24-40 | In a row created by the other metric, count and total are those of the readings and the maximum is that of the readings and 0 |
| UsageLaws.CreatorShowsInMaxOnly | app/queries/queries.go:136-153 | Which upsert created the row can show in the maximum and nowhere else |
| UsageLaws.CreatorForgotten | app/queries/queries.go:136-153 | It does not show at all if and only if some reading is not negative |
| UsageLaws.InterleavingIrrelevant | app/queries/queries.go:132-188 | If some of a metric's readings is not negative, its columns depend on its own readings only, however CPU and memory upserts were interleaved |
| UsageLaws.StoredMin | app/queries/queries.go:147-151 | Without negative readings the stored minimum is 0 if the last reading is 0, else the least reading since the last zero; a negative reading makes it the least reading for good |
| UsageLaws.StoredMinIsTrueMin | app/queries/queries.go:147-151 | It is the least reading if and only if no zero was overwritten by a later reading or some reading is negative |
| UsageLaws.OrderShowsInMinOnly | app/queries/queries.go:136-153 | Count, total and maximum do not depend on the order of the readings |
| UsageLaws.OrderIrrelevant | app/queries/queries.go:136-153 | Every order leaves the same columns if and only if zeros are not mixed with positive readings alone |
| UsageLaws.AverageBounds | app/migrations/202308010_init_schema.up.sql:28-40 | Whichever upsert created the row, the generated average never exceeds the maximum, and is negative only if some reading is |
| UsageLaws.AverageIs | app/migrations/202308010_init_schema.up.sql:28-40 | The generated average times the number of readings is their total, and without readings it is 0 |
| UsageLaws.MinBelowAverage | app/migrations/202308010_init_schema.up.sql:28-40 | The stored minimum does not exceed the average if and only if the last reading is 0, some reading is negative, or the readings after the last zero reach down to the average |
| UsageLaws.StoredMinAboveAverage | app/queries/queries.go:147-151 | Readings for which the stored minimum exceeds the average, and which miss that condition |
| UsageCounts.ApplyDistinct | app/queries/queries.go:222-236 | A batch with distinct keys upserts each of its rows once and leaves every other row alone |
| UsageCounts.BatchOrderIrrelevant | app/queries/queries.go:222-236 | Two orders of the same records with distinct keys leave the same table |
| UsageCounts.ReadingsConserved | app/queries/queries.go:132-188 | Over rows picked by any test of the key, the counts add up to the number of upserts and the totals to the sum of their readings |
| UsageCounts.BookedInWindow | app/scraper/node_event_handler.go:139-146 | In an aligned window, readings weighed by their bucket weigh as much as by their own timestamp |
| UsageCounts.WindowHoldsItsSamples | app/queries/workload_agg.go:141-142 | The rows selected by an aligned window hold exactly the samples taken inside it, in number and sum |
| Sums.Conservation | app/queries/workload_agg.go:137-142 | Distinct keys that cover the rows share out their weight, nothing lost or counted twice |
| Queries.Queries.constructor | app/queries/queries.go:15-90 | A process opens a database that already holds objects and the fold of earlier records |
| Queries.Queries.ExecBatch | app/queries/queries.go:222-236 | A batch is committed whole or not at all, and the usage table stays the fold of the log of all committed records |
| Queries.Queries.UpsertPodUsedCPU | app/queries/queries.go:132-155 | The log grows by exactly one CPU record for each argument, under the process's own cluster; objects are untouched |
| Queries.Queries.UpsertPodUsedMemory | app/queries/queries.go:164-188 | Likewise for memory |
| Queries.Queries.Stamp | app/queries/queries.go:133-135 | Every argument gets the process's cluster and keeps its other fields |
| Queries.Queries.UpsertObject | app/queries/queries.go:15-57 | The table takes the upsert step for the process's cluster |
| Queries.Queries.DeleteObject | app/queries/queries.go:59-65 | The table takes the delete step for the process's cluster |
| Queries.Queries.DeleteObjects | app/queries/queries.go:67-80 | The table takes the collect step, and the count returned is the drop in active rows |
| Queries.Queries.ActiveObjectCount | app/queries/queries.go:82-90 | The number of rows without a deletion time |
| Scraping.WholeSeconds | app/scraper/node_event_handler.go:108 | The division by 1000 rounds a difference toward zero, forward or back |
| Scraping.PassOrderIrrelevant | app/scraper/node_event_handler.go:101-146 | The table after one pass does not depend on the order in which its map is walked, if different pods have different UIDs |
| Scraping.ScrapeOrderIrrelevant | app/scraper/node_event_handler.go:70-146 | Nor does the table after a whole scrape, whether or not its writes succeed |
| Scraping.EmissionDistinct | app/scraper/node_event_handler.go:125-146 | A scrape emits each pod at most once, so its records have distinct keys |
| Scraping.EmissionIsBooked | app/scraper/node_event_handler.go:125-146 | A scrape books each of its samples once, under the pod's UID and the hour of the sample's own timestamp |
| ScrapeHistory.HeldRate | app/scraper/node_event_handler.go:100-123 | A pod holds a rate exactly when its current unbroken stretch of scrapes moved its sample; the rate is the one across the latest move, stamped with the latest sample |
| ScrapeHistory.Telescoping | app/scraper/node_event_handler.go:106-112 | Over an unbroken stretch, fresh rates times their seconds, plus changes under an unmoved timestamp, add up to last minus first counter |
| ScrapeHistory.SteadySamplesTelescope | app/scraper/node_event_handler.go:106-119 | When equal timestamps mean equal counters, the rates alone add up to it |
| ScrapeHistory.RatePrecision | app/scraper/node_event_handler.go:107-108 | Cutting the difference to k whole seconds never understates the rate of a growing counter and overstates it by less than one part in k |
| ScrapeHistory.RatesFinite | app/scraper/node_event_handler.go:107-108 | No rate is ever divided by zero if and only if no pod's sample ever moved by less than a second |
| ScrapeHistory.HalfSecondDividesByZero | app/scraper/node_event_handler.go:107-108 | Two samples half a second apart leave a rate that is not finite |
| NodeScraper.NodeScraper.constructor | app/scraper/node_event_handler.go:58-68 | A new scraper has an empty history |
| NodeScraper.NodeScraper.CpuData | app/scraper/node_event_handler.go:94-150 | The two maps stay the functions of the history that the lemmas describe, and one reading is emitted for each rate of a known pod |
| NodeScraper.NodeScraper.MemoryData | app/scraper/node_event_handler.go:152-175 | One reading is emitted for each working set of a known pod |
| NodeScraper.NodeScraper.Scrape | app/scraper/node_event_handler.go:70-92 | The log grows by exactly the CPU and then the memory readings; a failed request changes nothing, a failed CPU write ends the scrape, a failed write books nothing, yet the scraper's maps move on |
| NodeScraper.Readings | app/scraper/node_event_handler.go:125-146 | The walk over a map emits a reading for exactly the pods in the cache whose UID parses, each once |
| NodeScraper.WriteReadings | app/scraper/node_event_handler.go:75-89 | Readings are sent unless there are none, and booked if the write succeeds |
| ScrapeRuns.RunIsBooked | app/scraper/node_event_handler.go:70-150 | After any run of any number of scrapers, with their passes in any order of writing, the log is the samples of the successful writes, each booked once under its pod and hour |
| ScrapeRuns.MemorySample | app/scraper/node_event_handler.go:152-175 | A memory pass books each known pod's working set, as and when it was measured |
| ScrapeRuns.CpuSample | app/scraper/node_event_handler.go:94-150 | A CPU pass books for a pod the growth of its counter across the latest move of its sample, for each whole second, at the time of its latest sample |
| ScrapeRuns.ScrapeIsItsPasses | app/scraper/node_event_handler.go:70-92 | With nothing in between, the CPU and the memory pass of a scrape commit exactly what the scrape method logs |
| ScrapeRuns.RunOrderIrrelevant | app/scraper/node_event_handler.go:94-175 | The table after a whole run does not depend on the orders in which Go's maps were walked |
| ScrapeRuns.RatesNotNegative | app/scraper/node_event_handler.go:106-123 | While counters and timestamps do not fall, no rate is negative, fresh or held |
| ScrapeRuns.RunRow | app/queries/queries.go:132-188 | After any run a row exists exactly for the pods and hours with a booked sample, and each metric is the fold of exactly the samples of that pod in that hour; only the maximum may differ, when all of them are negative |
| ScrapeRuns.SoundRow | app/queries/queries.go:132-188 | While no counter or timestamp falls and no working set is negative, each metric of a row is that fold without exception |
| ScrapeRuns.RunCluster | app/queries/queries.go:132-188 | After a run every row belongs to the cluster of the process |
| ScrapeRuns.RunCount | app/scraper/node_event_handler.go:94-150 | After any run the counts of all rows add up to the number of samples booked |
| ScrapeRuns.RunWindow | app/queries/workload_agg.go:141-142 | After any run the rows of an aligned window hold exactly the samples whose own timestamps lie in it, in number and sum |
| ObjectTable.CollectionCount | app/queries/queries.go:67-80 | The rows marked are the drop in active rows; no row is dropped or revived |
| ObjectTable.CollectionIdempotent | app/queries/queries.go:67-80 | The same collection again marks nothing and changes nothing, whenever it runs |
| ObjectTable.DeletionIsFinal | app/queries/queries.go:41-80 | Over every run of upserts, deletes and collections no row disappears and the first deletion time of a row never changes |
| ObjectTable.MarkedBy | app/queries/queries.go:59-80 | Exactly when an operation marks a row: the row's own cluster, and named by the delete or of the collected kind and not spared |
| ObjectTable.OthersUntouched | app/queries/queries.go:41-80 | An operation adds no row but the one it upserts, and leaves a row that it neither upserts nor marks as it is |
| ObjectTable.UpsertDoesNotRevive | app/queries/queries.go:41-50 | An upsert refreshes every column but the deletion time, so a marked object stays out of the active rows |
| Collector.DeleteObjects | app/scraper/scraper.go:129-145 | The rows spared are those whose UID was listed and parses; a failing statement marks none and yields no count |
| Collector.CollectGarbage | app/scraper/scraper.go:104-127 | A pass takes the collect step for each kind in order, at the time of its own statement, skipping the kinds whose listing or statement fails |
| Collector.PassMarks | app/scraper/scraper.go:104-145 | A pass marks a row exactly when it is active, of the cluster, its kind was listed without it and the statement of the kind succeeded |
| Collector.EffectiveKinds | app/scraper/scraper.go:27-36 | Of the kinds whose rows are written, all but Node, DaemonSet and StatefulSet are asked for by the name the rows carry |
| Collector.CollectableKinds | app/scraper/scraper.go:104-115 | An active row can be marked by some pass if and only if its kind is one of those seven |
| CollectorProtocol.MarksOnlyUnlisted | app/scraper/scraper.go:117-145 | In every state the marking step marks an active row if and only if it is in scope and was missing from the listed store |
| CollectorProtocol.MarkedForever | app/queries/queries.go:41-80 | Along every run a deletion time that is set stays as it is |
| CollectorProtocol.ObjectCreatedDuringPassIsLost | app/scraper/scraper.go:117-145 | From any state between passes, a run in which a living object created between list and mark is marked, and no later run brings its row back |
| CollectorProtocol.OrderedStep | app/scraper/persist_object_handler.go:26-57 | Every lossless step keeps each queued upsert of a dead object ahead of that object's deletion |
| CollectorProtocol.AccountedStep | app/scraper/persist_object_handler.go:26-57 | Every lossless step keeps an active row's object alive or its deletion queued |
| CollectorProtocol.PassSettles | app/scraper/scraper.go:104-145 | Whatever the table held, after one pass that lists the store while the queued events are in order, every active row in scope belongs to a living object or has its deletion queued, for as long as no deletion is lost; once the queue drains the active rows are a subset of the store |
| CollectorProtocol.UnseenDeletionWaits | app/scraper/persist_object_handler.go:34-48 | A deletion that the informer missed leaves the row active, with nothing on its way, until a pass lists the store and marks it |
| CollectorProtocol.FailedWritesLoseEvents | app/scraper/persist_object_handler.go:34-57 | A failed write of the handler loses its event and one of the collector its list, and neither touches a row |
| CollectorProtocol.RowTakenOver | app/queries/queries.go:41-50 | Another cluster that stores the same object takes its row over, and this cluster's passes leave it alone |
| CollectorProtocol.LivingHaveRows | app/scraper/persist_object_handler.go:26-57 | Conversely, while no upsert of the object fails, once the queue drains a living object has its row in scope, active if and only if it was never marked |
| CollectorProtocol.RowsAreLatest | app/scraper/persist_object_handler.go:26-57 | Whatever the table held, while no upsert of the object fails, once the queue drains the row of an object changed in the run has exactly the fields of the object's latest state |
| CollectorProtocol.LivingVictimIsNew | app/scraper/scraper.go:117-145 | A pass marks a living object if and only if its row is active and in scope and the store was listed without it; the object was then created while the pass was under way |
| PersistObjectHandler.PersistObjectHandler.OnAdd | app/scraper/persist_object_handler.go:26-28 | The object's row gets the object's own payload, the handler's kind and the process's cluster, its deletion time and every other row stay; a notice without an object, or a failed write, changes nothing |
| PersistObjectHandler.PersistObjectHandler.OnUpdate | app/scraper/persist_object_handler.go:30-32 | Likewise with the new object |
| PersistObjectHandler.PersistObjectHandler.OnDelete | app/scraper/persist_object_handler.go:34-48 | An active row of the object and the process's cluster is marked now, and nothing else changes; a tombstone or a failed write changes nothing |
| PersistObjectHandler.PersistObjectHandler.Upsert | app/scraper/persist_object_handler.go:50-57 | What the two upserting notices do, for the kind of the handler |
| Manager.InvStep | app/scraper/manager.go:33-99 | Every step keeps targets and uncancelled goroutines in one-to-one correspondence, scrapers unshared, and no goroutine out before its first call |
| Manager.InvAfter | app/scraper/manager.go:33-99 | So after every interleaving |
| Manager.OneRoutinePerTarget | app/scraper/manager.go:33-99 | After every interleaving a known id has exactly one goroutine whose own cancel was never called and an unknown id none; none exits before its own or the parent cancel, nor without a scrape call |
| Manager.BusyStep | app/scraper/manager.go:49-73 | A step opens a call on a scraper only if none is open, and closes one only if it is |
| Manager.CallsNeverOverlap | app/scraper/manager.go:49-73 | After every interleaving at most one call on a given scraper is open |
| Manager.SoleRoutineStep | app/scraper/manager.go:33-99 | Every step but the node's own removal keeps at most one of its goroutines running, and none while the node is no target |
| Manager.OverlapPossible | app/scraper/manager.go:33-99 | After any run, two goroutines of a node can scrape at once before its next removal if and only if two of them have not exited, or one has not and the node is no target |
| Manager.OverlapAfterAdd | app/scraper/manager.go:33-99 | After a node is added that is no target, that is exactly when a goroutine of an earlier addition has not exited |
| Manager.ReplacedTargetOverlaps | app/scraper/manager.go:78-99 | A run in which that happens, the old goroutine cancelled before its call began |
| Manager.QuietExit | app/scraper/manager.go:49-99 | A removed goroutine can end without another scrape call if and only if it had made one before its removal |
| Manager.CanEndWhenReleased | app/scraper/manager.go:49-73 | Without any further removal or cancellation a goroutine can end if and only if its own context or the parent's is cancelled; after the parent's cancellation every one can |
| Manager.Manager.AddTarget | app/scraper/manager.go:33-76 | The add step of the protocol; a known id keeps its goroutine |
| Manager.Manager.RemoveTarget | app/scraper/manager.go:90-99 | The remove step: the id's goroutine is cancelled and the id forgotten |
| Manager.Manager.OnAdd | app/scraper/node_event_handler.go:201-214 | The step for an added node; a nameless node is ignored |
| Manager.Manager.OnDelete | app/scraper/node_event_handler.go:218-230 | The step for a deleted node |
| Calendar.FromSeconds | app/server/workload.go:250-255 | The civil fields of a number of local seconds are valid and denote exactly it |
| Calendar.ClosedForm | app/server/workload.go:250-255 | Counting days year by year gives the closed form of the Gregorian calendar, also before year 1 |
| Calendar.MonthForm | app/server/workload.go:250-255 | From March on, the days before a month follow the usual formula of 153 days for five months |
| Calendar.FieldsUnique | app/server/workload.go:250-255 | Valid civil fields are determined by the seconds they denote |
| Calendar.YearBetween | app/server/workload.go:250-255 | The local year lies between two years exactly when the seconds lie between their starts |
| Rfc3339.ParseInvertsPrint | app/server/workload.go:250-255 | A printed time reads back to the same second in the same zone if and only if its local year has four digits; otherwise it cannot be read |
| Rfc3339.PrintableYears | app/server/workload.go:250-255 | The times that can be read back are those of local years 0 to 9999 |
| Rfc3339.ParsedIsPrintable | app/server/workload.go:350-365 | Every text that is read denotes a time that can be printed and read back, also once cut to the hour |
| Rfc3339Grammar.Layout | app/server/workload.go:250-255 | Year, month, day, hour, minute and second stand in this order and with these separators, in four and two digits |
| Rfc3339Grammar.PrintSpells | app/server/workload.go:250-255 | A printed time spells its local fields, then "Z" or the sign, hours and minutes of its offset |
| Rfc3339Grammar.ParseText | app/server/workload.go:351-352 | Any valid fields, with any fraction of a second and any zone, are read as the time they denote, to the nanosecond |
| Rfc3339Grammar.ParsedText | app/server/workload.go:351-352 | Whatever is read is spelled by some fields, fraction and zone |
| Rfc3339Grammar.ParseReadsGrammar | app/server/workload.go:351-352 | So a text is read if and only if it is in the grammar, and then as what it denotes |
| WorkloadRequest.UnmarshalWorkloadRequest | app/server/workload.go:344-367 | The field assignments compute the specification that the round trip is stated for |
| WorkloadRequest.UrlValues | app/server/workload.go:191-211 | Likewise for the values written |
| WorkloadRequest.CleanCols | app/server/workload.go:358-361 | Cleaning keeps exactly the named columns, once each, and changes nothing exactly when they were valid |
| WorkloadRequest.KeptFrom | app/server/workload.go:359-361 | Dropping unnamed columns keeps the order of the others |
| WorkloadRequest.FirstOnesStay | app/server/workload.go:359-362 | Of equal columns the first one stays, and the columns that stay keep their order |
| WorkloadRequest.ClickOf | app/server/workload.go:184-211 | What a link leads to, field by field, for every request including malformed ones |
| WorkloadRequest.RoundTrip | app/server/workload.go:191-211 | Reading what was written is the identity on exactly the well-formed requests |
| Page.FirstValueCounts | app/server/workload.go:363 | The order clause is the first value of its key, and empty when there is none |
| Page.RangeIsRead | app/server/workload.go:346-358 | A named range is taken over whatever times the URL has; an empty or undefined one counts as none |
| Page.PickedWindow | app/server/workload.go:350-365 | Two texts of the grammar and no range, such as the dates picked on the page: the window is between exactly their dates and hours in their zones |
| Page.UnreadableWindow | app/server/workload.go:350-358 | With no range and a time outside the grammar the request is for the last 24 hours |
| Links.UnmarshalIsValid | app/server/workload.go:344-367 | Whatever the URL, columns are valid, and there is exactly one of a range and two hour-aligned times unless a time falls in the first hour of year 1 |
| Links.ZeroHourIsLost | app/server/workload.go:350-365 | A URL with times in that hour, read as a request with neither a range nor times |
| Links.QueryErrors | app/server/workload.go:53-89 | A request is refused exactly when it has both a range and a time, or needs a range that cannot be read |
| Links.NeverMutuallyExclusive | app/server/workload.go:53-75 | A request read from a URL is never refused as mutually exclusive; what it asks for is its window, or its range up to the last whole hour |
| Links.TargetsChange | app/server/workload.go:106-151 | Prev and Next change the window only, sorting the order only, and it is offered for known columns only |
| Links.RangeClick | app/server/workload.go:100-104 | Choosing a range instead of another keeps columns and order; an empty one leads to 24 hours |
| Links.RangeInsteadOfWindow | app/server/workload.go:100-104 | Choosing a range instead of a window drops the window and keeps columns and order |
| Links.ClickIsWellFormed | app/server/workload.go:184-211 | What any target leads to is well formed exactly when it avoids that hour and does not order by an unnamed column |
| Links.ClickKeepsWellFormed | app/server/workload.go:100-163 | A click on any link keeps a request well formed if and only if it does not enter that hour |
| Links.BrowsingStaysWellFormed | app/server/workload.go:100-163 | Every request reached by any sequence of clicks that stay out of that hour is well formed and reads back to itself |
| Links.BrowsingFromAnyUrl | app/server/workload.go:100-163 | Whatever the first URL, after the first link followed every request is well formed and reads back to itself, while the clicks stay out of that hour and toggle named columns |
| Links.ToggleOnAndOff | app/server/workload.go:153-163 | Selecting and deselecting a column leads back to the same request |
| Links.ToggleOffAndOn | app/server/workload.go:153-163 | Deselecting and selecting moves the column to the end and drops exactly an order by it |
| Links.RemoveBetween | app/server/workload.go:153-163 | A deselected column leaves the others in their places |
| Links.ToggleKeepsSelection | app/server/workload.go:153-163 | Clicking a selected known column off and on leads to a request that compiles exactly when the first did, with the same SELECT and GROUP BY |
| Links.ToggleOrderFlips | app/server/workload.go:135-182 | Clicking a column head sorts by it, descending if it was marked ascending and ascending in every other case |
| Links.SortClick | app/server/workload.go:135-151 | Sorting a well-formed request by a selected known column changes nothing but its order |
| Links.OrderClause | app/queries/workload_agg.go:143-145 | The order clause of any request names a selected known column with at most a direction if and only if its column is known and selected and it does not carry both suffixes |
| Links.UnselectedOrderReachesQuery | app/queries/workload_agg.go:143-145 | A URL whose order clause names a known column that is not selected, and reaches the query as it is |
| Links.UnknownOrderReachesQuery | app/queries/workload_agg.go:143-145 | A well-formed request whose order clause names no known column and reaches the query as it is |
| Links.ClickKeepsOrder | app/server/workload.go:135-151 | No link turns a clause on a selected known column, or none, into anything else |
| Links.BrowsingKeepsOrder | app/server/workload.go:100-163 | Nor does any sequence of clicks |
| Windows.ClickMoved | app/server/workload.go:106-133 | Moving an aligned window through the URL moves both ends by the same whole number of hours |
| Windows.ClickNext | app/server/workload.go:124-133 | Next moves both ends by the reported duration cut to whole hours, where the reported duration stops at the longest 64-bit one |
| Windows.ClickPrev | app/server/workload.go:106-115 | Prev moves both ends back likewise |
| Windows.FollowLinks | app/server/workload.go:106-133 | The links of the page are those two clicks |
| Windows.PrevUndoesNext | app/server/workload.go:106-133 | Prev after Next leads back if and only if the window is a whole number of hours and no longer than a 64-bit duration holds |
| Windows.NextUndoesPrev | app/server/workload.go:106-133 | Next after Prev leads back under the same condition |
| Windows.LongWindowDrifts | app/server/workload.go:106-133 | A window of whole hours in one zone, about 600 years long, that Prev after Next does not lead back to |
| Windows.MixedZonesDrift | app/server/workload.go:106-133 | A window with its ends in different zones that Prev after Next does not lead back to |
| Windows.OneZoneWholeHours | app/server/workload.go:364-371 | A well-formed window in one zone is always a whole number of hours, so Prev undoes Next and the windows tile exactly when a 64-bit duration can hold its length |
| Windows.OpenedEnds | app/server/workload.go:77-89 | The window that a range stands for ends on the last whole hour of UTC, and begins its duration before the last whole hour; on a whole hour exactly when the range is whole hours |
| Windows.NextUndoesPrevOfRange | app/server/workload.go:106-133 | From a range, Next after Prev leads to the window that the range stood for at the first click if and only if that is whole hours and not too many |
| Windows.NextTimesMoves | app/server/workload.go:124-133 | n clicks on Next move any window by exactly n times what the first click moves it by |
| Windows.NextTilesTime | app/server/workload.go:124-133 | The windows reached by Next from one that Prev undoes cover their stretch of time, each instant once |
| Windows.OnlyTileableTiles | app/server/workload.go:124-133 | Some instant is in two of the windows if and only if the first is not such a window |
| Windows.SampleInOneTile | app/scraper/scraper.go:58-60 | The row under which a sample is booked is selected by exactly the windows that contain the sample, when the ends are hours of the scraper's zone; when they tile, that is one window |
| WorkloadQuery.WorkloadQuery | app/queries/workload_agg.go:77-148 | The loops build the specified query or report the error that comes first |
| WorkloadQuery.SelectKnown | app/queries/workload_agg.go:117-124 | The grouping list stays exactly the grouping expressions of the selected columns, in their order |
| WorkloadQuery.SelectLabels | app/queries/workload_agg.go:125-136 | Likewise for labels, stopping at the first malformed one |
| WorkloadQuery.CompileFails | app/queries/workload_agg.go:77-148 | Compilation fails exactly on a reversed window, a malformed label, or no recognised column; the first of these is the error, and the first malformed label the one named |
| WorkloadQuery.LabelsAreSafe | app/queries/workload_agg.go:130-136 | Every label that reaches the query text matches the pattern and holds no quote |
| WorkloadQuery.BaseMembers | app/queries/workload_agg.go:117-124 | The selected known columns are exactly the requested ones |
| WorkloadQuery.BaseFollowsOrder | app/queries/workload_agg.go:116-124 | They come in the order in which the known columns are listed |
| WorkloadQuery.BaseDependsOnSet | app/queries/workload_agg.go:116-124 | They do not depend on the order or repetition of the requested columns |
| WorkloadQuery.SameColumnsSameQuery | app/queries/workload_agg.go:116-142 | Requests for the same columns and labels compile to the same query |
| WorkloadQuery.LabelsFollowRequest | app/queries/workload_agg.go:125-136 | Each label is selected where and as often as the request has it |
| WorkloadQuery.GroupingFollowsSelect | app/queries/workload_agg.go:117-139 | The grouping expressions are those of the selected columns that are no aggregates, in their places |
| WorkloadQuery.LabelPattern | app/queries/workload_agg.go:75 | What a label column is, labels that match the pattern and labels that do not, such as one with a slash |
| Page.QueryOf | app/server/workload.go:53-89 | A request with a valid window is refused exactly for an unreadable range; else its query has its columns, its order and its window |
| Grouping.ResultRows | app/queries/workload_agg.go:137-142 | The result has one row for each group: every row of the window belongs to one, and each group has such a row but the only one of a query without grouping columns |
| Grouping.GroupingConserves | app/queries/workload_agg.go:86-142 | The group sums of any compiled query add up to the total of the rows in its window |
| Grouping.RequestConserves | app/queries/workload_agg.go:137-142 | The sums shown for a request add up to the measures of just the rows from its start up to its end |
| Page.PageShows | app/server/workload.go:313-326 | From a URL to the page: the sums add up over just the request's window, with the URL's order clause and the requested columns |
| Grouping.ColumnsSplit | app/queries/workload_agg.go:21-42 | Of the 18 known columns the first eight are grouped by and the others are aggregates |
| Grouping.GroupedAlike | app/queries/workload_agg.go:86-139 | Two rows fall into one group if and only if they agree on every requested grouping column and label |
| Grouping.TotalCost | app/queries/workload_agg.go:101-104 | In every group the total cost is the cost of CPU, memory and storage together |
| Grouping.OneCostChanges | app/queries/workload_agg.go:101-104 | Where one cost of the rows changes, its own column and the total change by as much, and no other column |
| Grouping.HoursScale | app/queries/workload_agg.go:95-100 | Where the hours of the rows are scaled, the columns that count hours scale with them, and no other column |
| Grouping.ChildrenSumToParent | app/queries/workload_agg.go:106-139 | The sub-groups of a group add up to it |
| Grouping.AddingColumnsRefines | app/queries/workload_agg.go:106-139 | Adding columns to a request splits each of its groups into groups of the new query, sums included |
| Grouping.FinerGroupsPartition | app/queries/workload_agg.go:106-139 | Each group of the new query lies in exactly one group of the old one, but for the single group that a query without grouping columns shows for an empty window |
| Grouping.RoundingError | app/queries/workload_agg.go:95-104 | Rounding to two decimals gives whole hundredths at most half a hundredth away, symmetric about zero |
| Grouping.ShownError | app/queries/workload_agg.go:95-104 | A shown sum is off by at most half a hundredth, and in gigabyte columns by half a byte hour more |
| Grouping.DisplayedTotal | app/queries/workload_agg.go:95-104 | The shown sums of g groups miss the true total by at most g times that, for every aggregate |
| Cell.Shape | app/queries/workload_agg.go:220-232 | Trimming drops fraction zeros only, and the dot exactly when the fraction is all zeros |
| Cell.ReadInvertsCell | app/queries/workload_agg.go:220-232 | Every number of hundredths is read back from its cell |
| Cell.CellInjective | app/queries/workload_agg.go:220-232 | Different numbers have different cells |
| Cell.CellCanonical | app/queries/workload_agg.go:220-232 | A cell ends in a digit, and not in 0 when it has a dot |
| CostViews.HoursBounds | app/migrations/202308010_init_schema.up.sql:185 | A row never holds more than an hour, and is not negative if and only if its bucket meets the time from the start to the deletion or now |
| CostViews.EndOf | app/migrations/202308010_init_schema.up.sql:185 | A life ends at its deletion or now, whichever is first |
| CostViews.DeletedHoursStay | app/migrations/202308010_init_schema.up.sql:185 | Once an object is deleted, the passing of time changes none of its hours |
| CostViews.HoursTelescope | app/migrations/202308010_init_schema.up.sql:185 | Over the buckets that a life overlaps each row is between 0 and 1 and they add up to its exact length, cut at deletion or now |
| CostViews.DearerIsBilled | app/migrations/202308010_init_schema.up.sql:274-277 | The cost is the request or the average use, whichever is more, times price and hours |
| CostViews.RequestIsBilled | app/migrations/202308010_init_schema.up.sql:272-280 | Over its life a pod is billed at least its request for every hour, and exactly that while its use stays within it |
| PodCosts.RowsMeasure | app/migrations/202308010_init_schema.up.sql:272-280 | For every aggregate, the rows that the cost view makes of a pod add up to what its life, requests, uses and prices make of it |
| PodCosts.PodShown | app/queries/workload_agg.go:86-142 | The query shows exactly that of a pod whose hours the window holds, over all its groups |
| PodCosts.PodBill | app/queries/workload_agg.go:101 | So the page bills a pod at least its CPU request for every hour it lived, and just that while its use is within it |

## Left out

- NodeScraper.NodeScraper.Scrape: assumes finite rates, since a table over reals holds no infinity or NaN; `ScrapeHistory.RatesFinite` says when the assumption holds.
- Queries.Queries.UpsertPodUsedCPU: the caller's slice is a value here, so that the cluster is also written into the caller's copy is not seen; likewise for memory.
- Queries.Queries.UpsertObject: the object arrives as parsed values, so a failing JSON encoding and a UID that the database cannot read are a failed write.
- Rfc3339.ParseInvertsPrint: reading follows the grammar of section 5.6 of RFC 3339 with "T" and "Z" in capitals; the library's further leniencies (a one-digit hour, a comma before a fraction, offsets that the grammar excludes) and leap seconds are left out.
- Rfc3339.ParsedIsPrintable: speaks of the texts of that grammar only, since what else the library reads depends on its version, which is not part of this model.
- Links.UnmarshalIsValid: likewise counts a text outside that grammar as unreadable.
- Windows.PrevUndoesNext: concerns clicks whose times can be written to a URL; one that leaves the years 0 to 9999 leads to the last 24 hours instead (`WorkloadRequest.ClickOf`).
- PodCosts.PodShown: concerns the rows of one pod; its start, node, labels and requests are given, not read from the stored JSON.
- CollectorProtocol.PassSettles: concerns one kind and one cluster at a time, and passes during which no deletion is lost; a deletion that the informer misses afterwards waits for the next pass.
- Grouping.DisplayedTotal: cells round halves away from zero here; the bound holds for every way to round halves.
- Grouping.GroupingConserves: without grouping columns an empty window yields NULL in the database and the sum 0 here.
- Cell.ReadInvertsCell: starts from a whole number of hundredths; how a float is rounded to hundredths, infinities and NaN are left out.
- CostViews.HoursTelescope: a pod's start may be unknown, because the view reads the key `starttime`; the buckets then count from the first one.
- Zones with daylight saving: every time has a fixed offset.
- Floating point and the width of counters: reals and unbounded integers, except that a difference of times stops at the longest 64-bit duration.
- The text of SQL statements and the database's own behaviour beyond these statements, what an ORDER BY clause does, `cluster` and `config` tables, and transactions.
- The Kubernetes client and its informers beyond their events and lists, and the parsing of Prometheus text.
- URL escaping, CSV output, templates, `DefaultRequest` (four of its columns, such as `used_cpu_cores`, are unknown to the query), `Duration` and the unused `Validate`.
- The ticker of the garbage collector and the real time between scrapes: every interleaving of their steps is allowed.
- Costs of node idle and system share, `node_hourly`, and the parsing of quantities such as "500m": no law of the kind proved here holds for them, or only an easy one.
