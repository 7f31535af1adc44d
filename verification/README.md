# Verification of the Insolar block explorer's ETL core

The block explorer pulls pulses and records from the Insolar platform, groups
the records into jet drops, stores everything in three tables and keeps track
of which pulses are complete and how far an unbroken sequence of complete
pulses reaches. This project models that pipeline and its wire codec in Dafny
and proves what it guarantees.

| file | component |
|---|---|
| `JetTree.dfy` | is a set of jet ids a tiling of the jet tree? |
| `Pipeline.dfy` | workers, maintainer, sequencer and restarts as one state machine |
| `Tracking.dfy` | does the controller notice a complete pulse? |
| `Sequencer.dfy` | progress of the sequencer |
| `Controller.dfy`, `Processor.dfy` | the controller object and the processing of one jet drop |
| `ControllerActions.dfy` | the controller's methods as actions of the state machine |
| `Progress.dfy` | from stored drops over one pass and the rounds after it to the frontier |
| `Storage.dfy` | the tables (module `Tables`) and the storage object |
| `Counters.dfy` | counters and tables over runs of saves and re-deliveries |
| `Lifeline.dfy` | the records table after any run, and lifelines read from it |
| `Redelivery.dfy` | what loading a drop again changes |
| `PulseLinks.dfy` | reading linked pulses and linked jet drops |
| `SortRecords.dfy`, `SortTheorems.dfy`, `SortOrder.dfy` | the chain sort of state records, what it guarantees, and when hash map iteration shows |
| `Transformer.dfy` | platform records to jet drops |
| `Extractor.dfy` | batch retrieval, skipping of empty pulses, the extractor object |
| `Semaphore.dfy` | the worker semaphore: every thread's program, interleaved |
| `MissedData.dfy` | the reload throttle |
| `Codec.dfy`, `CodecTheorems.dfy`, `CodecLanguage.dfy`, `PulseExporter.dfy` | the protobuf codec of the pulse exporter |
| `JetDropId.dfy` | jet drop ids and record indexes as strings |
| `Common.dfy` | options, powers of two, iteration orders |

Concurrency is modelled by atomic actions: a database transaction or a critical
section is one action, and any thread may act next. A restart keeps the
database and nothing else; it is one action because the controller writes
nothing while starting and the processor starts after it. Hash map iteration
is a nondeterministic choice, or an explicit order where the result depends on
it (`Choices` in the sort, `order` in the completeness check). A range of answers from the platform is a script, a cancelled context
is the end of the script. Tables are maps, a transaction is a function from
tables to tables; inserting a jet drop fails exactly when its key exists or its
pulse row is missing, and a record needs its jet drop's row.

Integers are unbounded except where the source's width shows: the codec wraps
at 64 and 32 bits, and printed numbers are checked against the int64 range.

## Findings

- A restart between the deliveries of two halves of a pulse splits its register
  entry over two keys, because the restart key lacks epoch and timestamp: both
  drops are then stored, nothing is in flight, and no entry is complete
  (`Tracking.RestartSplitsRegister`). `Tracking.RegisterIsExact` says exactly
  when the entry is the set of stored jets, with restarts and cleaning anywhere:
  every jet stored at the entry's last reset was put back by it or has been
  notified since. Without cleaning this is: the pulse's epoch and timestamp are
  zero, or every jet stored at the last restart has been notified since
  (`Tracking.UncleanedIsExact`).
- `pulseIsComplete` takes a slice of an empty string out of range when it visits
  the root's id beside other jets. Some iteration order panics exactly if the
  root's id is present and not alone (`JetTree.SomeOrderPanics`), every order
  exactly if moreover every other jet's opposite is inhabited
  (`JetTree.EveryOrderPanics`), as for the root and its two children
  (`JetTree.RootBesideChildren`).
- Overlapping jets may cover the tree and still be answered "incomplete"
  (`JetTree.OverlapCounterexample`); `JetTree.OverlapTheorem` says exactly when
  the answer is "complete".
- If two different state records of an object share a reference, sorting can
  lose one and repeat another without an error (`SortTheorems.ClashLosesARecord`).
  `SortTheorems.SortTheorem` says exactly when the result is a permutation.
- One removal pass of the throttle can leave expired entries behind
  (`MissedData.OnePassLeavesExpired`); it leaves at most half. With e expired
  entries one pass removes all of them exactly if none of the last e - 1 entries
  of the pool is expired (`MissedData.OnePassSuffices`).
- A version error ends a reload without releasing its worker slot. As many
  such exits as there are slots block every later reload
  (`WorkerSemaphore.Starved`), and for every number of slots some run gets there
  (`WorkerSemaphore.StarvationHappens`). The same branch calls `shutdownBE()`
  (`etl/extractor/platform_impl.go:155`), so the blocked reloads belong to a
  process that is being stopped.
- A re-delivery that changes a drop's number of records leaves `record_amount`
  behind (`Counters.ChangedRedeliveryDrifts`). It always counts the records of
  the first accepted delivery of each stored drop (`Counters.RecordAmountIsFirst`),
  so it is right in a state exactly if these sums agree with those of the stored
  drops (`Counters.LastStateCounted`); `Counters.RecordAmounts` says which runs
  keep it right throughout.
- Loading a drop again can change the `order` column: the objects' blocks are
  sorted in the order of a hash map, and the rows are numbered by position. For
  sortable records with identifying references the sorted drop is the same for
  all iteration orders exactly if at most one object has states in it
  (`SortOrder.OrderShows`), and exactly then loading it again leaves the tables
  alone (`Redelivery.ReloadChangesOrder`); any two states of different objects
  are an input where it does not (`Redelivery.ReorderedRedelivery`). Lifelines
  keep their order all the same (`Lifeline.LifelineInOrder`).
- With a timestamp filter a page of pulses can deny a link that exists
  (`PulseLinks.HiddenNeighbour`). A page agrees with reading its pulses one by
  one exactly if no stored pulse strictly between two neighbouring rows is
  linked to one of them (`PulseLinks.HiddenLinks`; for any stored links
  `PulseLinks.PageIsViews`).

## Model

| member | source | states |
|---|---|---|
| JetTree.PulseIsComplete | etl/controller/pulsemaintainer.go:145-212 | For every set of jet ids: the answer is one that some iteration order of the first loop gives; "complete" exactly if the set is the root alone, or is non-empty, lacks the root's id and has a jet at or below the sibling of every node leading to a jet |
| JetTree.VerdictMeaning | etl/controller/pulsemaintainer.go:145-212 | "Complete" in one iteration order is "complete" in all of them, and no order panics without the root's id beside others |
| JetTree.SomeOrderPanics | etl/controller/pulsemaintainer.go:158-172 | Some iteration order takes the out-of-range slice exactly if the root's id stands beside other jets |
| JetTree.EveryOrderPanics | etl/controller/pulsemaintainer.go:158-187 | Every order does exactly if moreover every other jet's opposite is inhabited, so that nothing stops the loop before the root |
| JetTree.RootBesideChildren | etl/controller/pulsemaintainer.go:158-172 | The root and its two children panic in every order |
| JetTree.FindUnder | etl/controller/pulsemaintainer.go:178-183 | The inner search finds a jet at or below a node exactly if there is one |
| JetTree.CheckJets | etl/controller/pulsemaintainer.go:170-187 | The first loop with its opposite lookup and inner search yields the verdict of visiting the jets in the given order |
| JetTree.CheckParents | etl/controller/pulsemaintainer.go:190-210 | Second loop: passes exactly if every proper ancestor's sibling is inhabited, memo included |
| JetTree.TilesCovers | etl/controller/pulsemaintainer.go:145-212 | A "complete" set covers: every binary string at least as long as the deepest jet starts with some jet, even if jets overlap |
| JetTree.KraftInequality | etl/controller/pulsemaintainer.go:145-212 | For non-overlapping jets the sum of 2^(n-depth) is at most 2^n, and equal exactly if the jets cover |
| JetTree.CompletenessTheorem | etl/controller/pulsemaintainer.go:145-212 | For non-overlapping jets: complete, covering, being the leaf set of a full binary tree and Kraft equality are equivalent |
| JetTree.OverlapTheorem | etl/controller/pulsemaintainer.go:145-212 | For every set of jets: complete exactly if the deepest jets are the leaves of a full binary tree and the root's id is absent or alone |
| JetTree.OverlapCounterexample | etl/controller/pulsemaintainer.go:145-212 | Jets 0, 1 and 00 cover the tree and are not answered complete |
| Pipeline.StepSound | etl/controller/pulsemaintainer.go:30-83 | Every action of workers, maintainer, sequencer or restart keeps: register and scan copy hold only stored jets, and complete pulses have tiling jet drops in the database |
| Pipeline.NewlyComplete | etl/storage/storage.go:85-115 | Only the maintainer makes a pulse complete; saving a pulse again never does |
| Pipeline.StepGrows | etl/storage/storage.go:28-136 | No action clears a complete or sequential mark or removes a pulse or jet drop |
| Pipeline.CompletePulsesCovered | etl/controller/pulsemaintainer.go:45-66 | In every reachable state, under every interleaving and with restarts, the stored drops of a pulse marked complete meet every long enough path of the jet tree |
| Pipeline.GreatestIsTip | etl/storage/storage.go:430-443 | The greatest sequential pulse is the tip of the chain of sequential pulses |
| Pipeline.StepSequenced | etl/controller/pulsemaintainer.go:97-121 | Every action keeps the chain of sequential pulses or extends it by the next pulse; moving on strictly increases the frontier and nothing decreases it |
| Pipeline.FrontierIsTip | etl/controller/pulsemaintainer.go:86-143 | In every reachable state the sequential pulses are one prev-linked chain from 0 of stored complete pulses, and the frontier in memory is its tip, or the one before while the mark is not yet assigned |
| Pipeline.FrontierNeverMovesBack | etl/controller/pulsemaintainer.go:108-121 | Over every run, restarts included, the frontier never decreases |
| Pipeline.RestartRecovers | etl/controller/controller.go:80-97 | A restart finds the frontier again, and the newly marked pulse if it happens between the database mark and the assignment |
| Sequencer.ReachesTip | etl/controller/pulsemaintainer.go:86-143 | From every reachable state with an idle sequencer, rounds without interference are enabled one after the other, mark exactly a path of complete pulses and leave the frontier at its end, where no round moves on; with unique successors that path extends every prev-linked chain of complete pulses from the frontier |
| Tracking.RegisterIsExact | etl/controller/controller.go:55-78 | In every run with restarts and cleaning anywhere: once no drop of an incomplete pulse with stored drops is in flight, its register entry is exactly its set of stored jets, if and only if every jet stored at the entry's last reset was put back by it or has been notified since |
| Tracking.UncleanedIsExact | etl/controller/controller.go:62-75 | For a pulse whose entry is never cleaned, whatever other pulses do: exact if and only if its epoch and timestamp are zero or every jet stored at the last restart has been notified since; always exact without restarts |
| Tracking.RestartSplitsRegister | etl/controller/controller.go:63-75 | A run with a restart after which all drops of a pulse are stored and tile, nothing is in flight, and no register entry is complete |
| Controller.Controller.SetJetDropData | etl/controller/controller.go:124-132 | Adds the jet to the entry of its pulse key, creating the entry if needed |
| Controller.Controller.SetIncompletePulses | etl/controller/controller.go:55-78 | Registers every incomplete pulse of the database, under the restart key, with exactly its stored jets |
| Controller.Controller.SetSeqPulse | etl/controller/controller.go:80-97 | Sets the frontier to the greatest sequential pulse, or 0 |
| Controller.Controller.Start | etl/controller/controller.go:100-107 | Starting a fresh controller is the pipeline's restart action |
| Controller.Controller.CompletePulses | etl/controller/pulsemaintainer.go:30-75 | One uninterrupted pass marks exactly the pulses of the tiling entries complete and removes exactly those entries; unless the platform version is 1, the range of every other entry is remembered by the throttle afterwards, and each range that was not is requested from the extractor once |
| Controller.Controller.EraseJetDropRegister | etl/controller/pulsemaintainer.go:30-83 | The pass with its reload requests, followed for platform version 1 by a cleaning every thousandth time |
| Controller.Controller.CleanJetDropRegister | etl/controller/pulsemaintainer.go:229-256 | Removes exactly the entries below the frontier |
| Controller.Controller.PulseSequence | etl/controller/pulsemaintainer.go:97-141 | One round moves on exactly if the least pulse linked to the frontier is complete, and marks exactly that pulse; otherwise, if n is the first stored pulse above the frontier (the first complete one for platform version 1), the range from the frontier, or from 65536 for 0, to n's prev is remembered, and was requested exactly if no remembered range held it; without such a pulse nothing is requested |
| Controller.Controller.ReloadData | etl/controller/pulsemaintainer.go:214-227 | Requests a range, from below the first pulse if it starts at 0, exactly if no remembered request contains it |
| Controller.GapCovered | etl/controller/pulsemaintainer.go:128-138 | Every missing pulse number between the frontier and the prev of the next saved pulse lies in a remembered range |
| ControllerActions.PassIsActions | etl/controller/pulsemaintainer.go:30-66 | A pass in any order of the entries is a snapshot followed by Complete and Erase, or PassOver, for each entry: enabled actions with the pass's result |
| ControllerActions.CleaningIsActions | etl/controller/pulsemaintainer.go:229-256 | Cleaning in any order is one Clean action per entry below the frontier |
| ControllerActions.RoundIsActions | etl/controller/pulsemaintainer.go:97-121 | A round that moves on is FindNext, Mark and Advance; it does not move exactly if no FindNext is enabled |
| Progress.PassCompletes | etl/controller/pulsemaintainer.go:30-66 | A pass, in any order of the entries, completes every pulse whose entry holds all its stored jets if these tile the tree |
| Progress.StoredIsReady | etl/controller/pulsemaintainer.go:145-212 | A stored pulse whose drops tile and are not in flight is noticed by the next pass, if and only if every jet stored at its entry's last reset was put back or has been notified since |
| Progress.ReadyChainsAdvance | etl/controller/pulsemaintainer.go:30-143 | From every reachable state between passes, with unique successors: one pass and the sequencer's rounds after it, undisturbed, take the frontier along every prev-linked chain of such pulses and mark them complete and sequential, until no round moves on |
| Processor.Process | etl/processor/processor.go:112-177 | The tables afterwards are those of one pulse save and one delivery of the runs of saves; in particular the drop's row holds the drop's hash and number of records, the pulse's row the links and timestamp of the key, and the last record under each raw reference stands with its position as order; then the jet is registered |
| Processor.ProcessSucceeds | etl/processor/processor.go:119-168 | Saving the pulse first makes the drop and all its records insertable |
| Processor.StoredIsApplied | etl/processor/processor.go:119-168 | What one processed drop stores is one pulse save followed by one delivery, so the theorems about runs of saves hold of the processor |
| Processor.ProcessIsThreeActions | etl/processor/processor.go:112-177 | An uninterrupted call equals the pipeline's actions in order |
| Storage.Storage.SavePulse | etl/storage/storage.go:85-94 | Inserts a pulse, or overwrites links and timestamp of an existing one and keeps its marks and counters; every other row is untouched |
| Storage.Storage.CompletePulse | etl/storage/storage.go:97-115 | Marks an existing pulse complete, fails without effect on a missing one |
| Storage.Storage.SequencePulse | etl/storage/storage.go:118-136 | Marks an existing pulse sequential, fails without effect on a missing one |
| Storage.Storage.SaveRecords | etl/storage/storage.go:50-54 | Upserts the records in order; fails if one belongs to no stored drop |
| Storage.Storage.InitDrop | etl/storage/storage.go:42-66 | First delivery: drop, records and counters, or nothing at all |
| Storage.Storage.UpdateDrop | etl/storage/storage.go:68-82 | Later delivery: drop and records, counters untouched, or nothing at all |
| Storage.Storage.SaveJetDropData | etl/storage/storage.go:28-40 | Inserts a new drop with its counters, updates a known one |
| Counters.JetDropAmounts | etl/storage/storage.go:42-94 | After every run of saves, marks and re-deliveries each pulse's jet_drop_amount is its number of stored drops, and every drop has its pulse |
| Counters.CountedAfterDrop | etl/storage/storage.go:28-82 | One delivery keeps record_amount right exactly if it brings the number of records already counted for its drop |
| Counters.RecordAmounts | etl/storage/storage.go:28-94 | Throughout a run record_amount is the sum over stored drops, if and only if every accepted delivery keeps the count of its drop |
| Counters.RecordAmountIsFirst | etl/storage/storage.go:28-94 | In every run, whatever re-deliveries bring, record_amount of a pulse is the number of records in the first accepted deliveries of its stored drops |
| Counters.LastStateCounted | etl/storage/storage.go:28-94 | The last state's record_amount is the sum over the stored drops, if and only if for each pulse the first deliveries and the stored drops have equal sums |
| Counters.IdenticalRecordAmounts | etl/storage/storage.go:28-94 | With identical re-deliveries record_amount is the sum over the stored drops |
| Counters.ChangedRedeliveryDrifts | etl/storage/storage.go:36-38 | A re-delivery with another number of records makes it wrong |
| Counters.RedeliveryChangesNothing | etl/storage/storage.go:28-94 | If record references belong to one drop each and deliveries are identical, delivering again leaves all three tables unchanged |
| Counters.LastSaveHolds | etl/storage/storage.go:85-94 | In every run a pulse's row has the links and timestamp of the last save of that pulse |
| Counters.AcceptedExactly | etl/storage/storage.go:28-82 | A delivery is accepted exactly if its drop or its pulse is stored and each of its records belongs to it or to a stored drop |
| Lifeline.BroughtStored | etl/storage/storage.go:28-82 | In every run with references owned by one drop each: a drop has a row under exactly the references that its accepted deliveries have brought so far |
| Lifeline.NothingStale | etl/storage/storage.go:28-82 | Its stored rows are those of its latest accepted delivery and no others, if and only if that delivery brings every reference an earlier one brought |
| Lifeline.TableIsDeliveries | etl/storage/storage.go:28-82 | After every run whose deliveries of one drop bring the same references, in any order and with any content: a drop is stored exactly if a delivery was accepted, and its stored rows are exactly those of the latest one |
| Lifeline.PredecessorsStoredFirst | etl/processor/processor.go:148-168 | In that table a state's predecessor has the smaller (pulse, order), across drops, pulses and re-deliveries, if successors in another drop come in a later pulse |
| Lifeline.LifelineInOrder | etl/storage/storage.go:258-283 | The ascending listing of an object's stored states has every state after its predecessor |
| Redelivery.RepeatsLatest | etl/storage/storage.go:28-82 | Delivering a stored drop once more changes nothing exactly if the delivery equals the latest accepted one, order of the records included |
| Redelivery.ReloadChangesOrder | etl/transformer/transformer.go:87-129 | A stored drop can be loaded again without any change to the tables, however hash map iteration sorts it, if and only if at most one object has states in it |
| Redelivery.ReorderedRedelivery | etl/transformer/transformer.go:91-122 | For any two states of different objects: after a first delivery of both, a drop sorted from the same records changes the records table |
| PulseLinks.FillAscending | etl/storage/storage.go:328-341 | The backwards in-place loop: each inner link is the neighbour's number or -1, ends come from lookups; for any rows |
| PulseLinks.FillDescending | etl/storage/storage.go:342-356 | The same for the forward loop over a descending page |
| PulseLinks.MirrorFill | etl/storage/storage.go:328-356 | Descending is ascending read backwards on the same rows |
| PulseLinks.PageIsViews | etl/storage/storage.go:286-358 | For any stored links between non-negative pulse numbers: every filled row equals the per-pulse lookup of GetPulse, if and only if no lookup contradicts the comparison of two neighbouring rows |
| PulseLinks.HiddenLinks | etl/storage/storage.go:286-358 | On well-linked pulses that is: no stored pulse strictly between two neighbouring rows is linked to one of them |
| PulseLinks.WindowIsGapless | etl/storage/storage.go:303-325 | Every limit/offset window, in either direction, of a listing without timestamp filter hides no linked pulse |
| PulseLinks.GetPulses | etl/storage/storage.go:303-380 | The total is the number of stored pulses that meet each given bound; row i is the one with exactly offset + i of them before it in the wanted direction, and there are limit rows or as many as are left; only the links are rewritten: for any stored links the page agrees with reading each pulse alone exactly if no lookup contradicts two neighbouring rows, on well-linked pulses exactly if no linked pulse is hidden, and always without a timestamp filter |
| PulseLinks.GetPulse | etl/storage/storage.go:286-301 | Found exactly if stored; next is the least stored pulse whose prev it is, prev the stored pulse it names, each -1 if there is none |
| PulseLinks.HiddenNeighbour | etl/storage/storage.go:308 | With rows hidden by a timestamp filter the equality fails |
| PulseLinks.LinksAreDual | etl/storage/storage.go:496-531 | A drop is among the next drops of another exactly if that one is among its prev drops |
| PulseLinks.SiblingsMeaning | etl/models/models.go:57-64 | A jet's siblings are itself, its children and its parent |
| PulseLinks.LinksAreOverlaps | etl/storage/storage.go:509-528 | If overlapping jets change depth by at most one, linked drops are exactly the overlapping ones |
| SortRecords.InitRecordsMapsByObj | etl/transformer/transformer.go:131-152 | Both indexes hold, per object, the last record under each key; non-state records stay in input order |
| SortRecords.FindHead | etl/transformer/transformer.go:99-108 | Finds a record that continues no record of its object exactly if there is one |
| SortRecords.FollowLinks | etl/transformer/transformer.go:111-121 | Follows prev links for the given number of records, or fails at the first missing one |
| SortRecords.SortRecords | etl/transformer/transformer.go:87-129 | The result is one that some order of the objects and choice of heads determines: indexing, head search, link walk, length check and each error |
| SortTheorems.SortTheorem | etl/transformer/transformer.go:87-129 | For every input and iteration order: success with a permutation of the input exactly if each object has one record or its records form one linear chain |
| SortTheorems.SortConserves | etl/transformer/transformer.go:123-128 | If equal references mean equal records, success implies a permutation |
| SortTheorems.SortSucceedsExactly | etl/transformer/transformer.go:87-129 | Then success holds exactly if each object's records are duplicate-free and form one linear prev-chain |
| SortTheorems.SortArranges | etl/transformer/transformer.go:87-129 | Then the output is the non-state records in input order followed by one contiguous block per object in chain order |
| SortTheorems.PredecessorFirst | etl/transformer/transformer.go:111-122 | Then every state record stands after its predecessor |
| SortTheorems.ClashLosesARecord | etl/transformer/transformer.go:87-152 | With a reference used twice, sorting can succeed while losing one record and repeating another |
| SortOrder.OrderShows | etl/transformer/transformer.go:91-128 | For sortable records with identifying references: the result is the same for all iteration orders, if and only if at most one object has states |
| Transformer.GetRecords | etl/transformer/transformer.go:173-205 | Each jet gets exactly its supported records in arrival order; fails exactly if a record is broken |
| Transformer.ArrivalOrder | etl/transformer/transformer.go:173-205 | A jet's records are exactly its supported ones, once each and in arrival order |
| Transformer.GetJetDrop | etl/transformer/transformer.go:52-84 | The drop carries the jet's prefix and hashes and a sorted permutation of its records; none exactly if they do not form chains |
| Transformer.Transform | etl/transformer/transformer.go:22-50 | One drop per listed jet, in listed order, each a result of sorting that jet's records, left out exactly if its records do not form chains |
| Processor.StoredLifeline | etl/storage/storage.go:220-227 | The rows handed over for an emitted drop are its jet's supported records once each, and ascending (pulse, order) lists every predecessor first; `Lifeline` carries this over to the stored table |
| Extractor.RetrieveExact | etl/extractor/platform_impl.go:246-325 | Under any pattern of batch ends, rate limits and errors the call pushes exactly the pulse's records or nothing, and pushes exactly if a stream reaches the marker before anything fatal |
| Extractor.CompletesExactly | etl/extractor/platform_impl.go:249-324 | The marker is reached exactly if some attempt's stream has it and every earlier attempt failed to open or ended with the portion, a rate limit or a not-final error |
| Extractor.ServedPortion | etl/extractor/platform_impl.go:269-324 | A stream that serves records from the requested offset contributes exactly those records |
| Extractor.SkippingIsFetching | etl/extractor/platform_impl.go:195-210 | Skipping below the remembered pulse equals fetching: every item carries exactly its pulse's records, and every new pulse has its item exactly if no stream that is opened is cut off for good |
| Extractor.SerialIsWalk | etl/extractor/platform_impl.go:129-219 | The loop, reply by reply in serial mode, emits the items and ends in the way of the recursive serial loop |
| Extractor.ParallelIsWalk | etl/extractor/platform_impl.go:211-219 | In parallel mode and in the main thread it starts one goroutine per new pulse, in order of arrival |
| Extractor.PlatformExtractor.TakeWorker | etl/extractor/platform_impl.go:328-335 | Takes a slot exactly if one is free, else leaves the counter unchanged |
| Extractor.PlatformExtractor.ReadStream | etl/extractor/platform_impl.go:269-324 | The inner loop appends the records before the marker and finds the marker |
| Extractor.PlatformExtractor.RetrieveRecords | etl/extractor/platform_impl.go:225-326 | Pushes at most one item and releases the caller's slot on every path |
| Extractor.PlatformExtractor.RetrievePulses | etl/extractor/platform_impl.go:111-222 | The main thread or a reload, serial or parallel, from any counter and with any changes by others while it waits for a slot: it goes on until a version error or, for a reload, until the first new pulse at or beyond its end, which is the last one handled; it emits the items or starts the goroutines of the replies seen, and changes the counter itself by one slot per goroutine and one kept at a version error |
| Extractor.PlatformExtractor.AwaitWorker | etl/extractor/platform_impl.go:140-146 | The spin ends at the first attempt that finds the counter below the maximum and then holds one slot |
| Extractor.PlatformExtractor.FinishFetch | etl/extractor/platform_impl.go:225-235 | A goroutine pushes its pulse at most once and releases the slot handed to it |
| WorkerSemaphore.RunBalanced | etl/extractor/platform_impl.go:111-339 | Over every interleaving of main threads, serial and parallel reloads and goroutines, each running its program: a thread has the number of slots its program point calls for, every unfreed slot is in the hands of exactly one thread, the counter is the unfreed slots plus the pending undos, and the unfreed slots never exceed the maximum |
| WorkerSemaphore.FreedOnce | etl/extractor/platform_impl.go:161-188 | Wherever any path calls freeWorker the thread has exactly one slot, not freed before; the main thread frees none, and nothing else frees a slot |
| WorkerSemaphore.SlotFate | etl/extractor/platform_impl.go:111-235 | At any time a slot is freed and in no hands, or unfreed and in the hands of exactly one thread that has its release ahead of it or left on a version error |
| WorkerSemaphore.QuietCounter | etl/extractor/platform_impl.go:141-235 | When all threads have ended the counter is the number of reloads that met a version error: every other slot was freed |
| WorkerSemaphore.NothingAfterTheEnd | etl/extractor/platform_impl.go:215-219 | Once a pulse at or beyond its end has arrived, a reload never asks for a slot again |
| WorkerSemaphore.EndsOnlyThen | etl/extractor/platform_impl.go:129-221 | A pulse loop has ended only if its context was cancelled, it met a version error, or, for a reload, a pulse at or beyond its end had arrived |
| WorkerSemaphore.RunKeepsMode | etl/extractor/platform_impl.go:195-213 | With at most three slots no reload starts a goroutine, with more none fetches itself, and the main thread always starts one |
| WorkerSemaphore.Starved | etl/extractor/platform_impl.go:140-157 | After as many version errors in reloads as there are slots no reload gets past the spin again |
| WorkerSemaphore.StarvationHappens | etl/extractor/platform_impl.go:153-157 | For every number of slots some run loses all of them |
| MissedData.MissedDataManager.Add | etl/controller/misseddata.go:60-77 | Accepts a range exactly if no pool entry starts at or before it and ends at or after it, and then appends it with the current time; this is the request step of the runs |
| MissedData.MissedDataManager.DeleteExpired | etl/controller/misseddata.go:83-95 | The in-place swap-removal over the original length yields the swept pool, the cleaning step of the runs |
| MissedData.SweepShrinks | etl/controller/misseddata.go:83-95 | A pass invents no entry |
| MissedData.SweepLosesExpired | etl/controller/misseddata.go:79-95 | A pass keeps the multiplicity of every entry unexpired at its end |
| MissedData.PassHalves | etl/controller/misseddata.go:83-95 | One pass at a fixed time leaves at most half of the expired entries |
| MissedData.PassesClean | etl/controller/misseddata.go:79-95 | With fewer than 2^p expired entries, p passes at that time leave no entry more than ttl old, and every other entry as often as before |
| MissedData.OnePassLeavesExpired | etl/controller/misseddata.go:87-94 | Two expired entries need two passes |
| MissedData.OnePassSuffices | etl/controller/misseddata.go:83-95 | With e expired entries one pass removes all of them, if and only if none of the last e - 1 entries of the pool is expired |
| MissedData.NeverWithinTtl | etl/controller/misseddata.go:60-95 | Over every run with a clock that never goes back, a range inside an already accepted one is accepted only more than ttl later |
| MissedData.ForgottenIsAccepted | etl/controller/misseddata.go:60-95 | Over every run: after enough passes at a time when each accepted range that holds the range asked for is more than ttl old, the request is accepted |
| MissedData.PoolIndependent | etl/controller/misseddata.go:64-76 | At any time the pool is a selection of accepted ranges, none of them inside an earlier one of the pool |
| WireTheorems.SovIsLength | etl/exporter/pulse_exporter.pb.go:494-496 | The closed size formula is the number of bytes of the varint, for every value |
| WireTheorems.TenBytes | etl/exporter/pulse_exporter.pb.go:447-457 | No 64-bit value takes more than ten bytes |
| WireTheorems.WrittenVarint | etl/exporter/pulse_exporter.pb.go:447-457 | What the writer writes is a legal varint of that value |
| WireTheorems.ReadTerminated | etl/exporter/pulse_exporter.pb.go:537-550 | A varint of at most ten bytes, canonical or not, is read to its final byte whatever surrounds it |
| WireTheorems.UnreadableVarint | etl/exporter/pulse_exporter.pb.go:537-550 | Ten bytes that all ask for another are an overflow; fewer, up to the end of the data, an unexpected end |
| WireTheorems.ShiftedMeaning | etl/exporter/pulse_exporter.pb.go:537-550 | Each seven-bit group counts with its power of 128, cut off at 64 bits |
| WireTheorems.SkipField | etl/exporter/pulse_exporter.pb.go:745-822 | A well-formed field, groups nested to any depth included, is skipped exactly |
| WireTheorems.ParseMessage | etl/exporter/pulse_exporter.pb.go:531-744 | Any sequence of known and well-formed unknown fields is read as its known fields in order |
| WireTheorems.InsertUnknown | etl/exporter/pulse_exporter.pb.go:617-631 | Inserting a well-formed unknown field between fields does not change what is read |
| WireLanguage.SkipIsField | etl/exporter/pulse_exporter.pb.go:745-822 | Whatever the skip loop passes within the data is one well-formed field, groups matched and nested to any depth |
| WireLanguage.AcceptedLanguage | etl/exporter/pulse_exporter.pb.go:531-744 | A byte string is read as given events exactly if it is a sequence of known and well-formed unknown fields with these events |
| WireLanguage.FieldErrors | etl/exporter/pulse_exporter.pb.go:551-561 | An end-group tag, a field number that is not positive as an int32, and a known field with another wire type are refused with their errors |
| WireLanguage.PayloadErrors | etl/exporter/pulse_exporter.pb.go:671-722 | A known field with a bad varint, a negative length or a length beyond the data is refused with its error |
| WireLanguage.SkipErrors | etl/exporter/pulse_exporter.pb.go:745-822 | The skip loop's errors for a closing tag without its group, an illegal wire type, a bad varint and a negative length |
| PulseExporter.SizeResponseExact | etl/exporter/pulse_exporter.pb.go:458-474 | Size is the length of the wire form |
| PulseExporter.SizeRequest | etl/exporter/pulse_exporter.pb.go:476-492 | The size loop yields the length of the wire form |
| PulseExporter.EncodeVarint | etl/exporter/pulse_exporter.pb.go:447-457 | Writes the varint directly before the offset and leaves what follows untouched |
| PulseExporter.MarshalResponse | etl/exporter/pulse_exporter.pb.go:372-408 | Writing backwards fills a buffer of Size bytes with the wire form |
| PulseExporter.WriteBlobs | etl/exporter/pulse_exporter.pb.go:430-438 | The backwards loop writes the byte strings in order |
| PulseExporter.MarshalRequest | etl/exporter/pulse_exporter.pb.go:410-445 | The same for the request |
| PulseExporter.ReadVarint | etl/exporter/pulse_exporter.pb.go:537-550 | The varint loop reads within bounds on every byte string, with overflow and end-of-data errors |
| PulseExporter.SkipUnknown | etl/exporter/pulse_exporter.pb.go:745-822 | The skip loop terminates and reads within bounds on every byte string, with the source's errors and index overflow |
| PulseExporter.ReadField | etl/exporter/pulse_exporter.pb.go:534-632 | One iteration yields at most one known field or an error and otherwise consumes at least one byte |
| PulseExporter.UnmarshalResponse | etl/exporter/pulse_exporter.pb.go:531-640 | The loop terminates on every byte string and yields the message of the known fields read |
| PulseExporter.UnmarshalRequest | etl/exporter/pulse_exporter.pb.go:641-744 | The same for the request |
| PulseExporter.ResponseRoundTrip | etl/exporter/pulse_exporter.pb.go:372-640 | Unmarshalling a marshalled response gives it back for all int64 fields |
| PulseExporter.RequestRoundTrip | etl/exporter/pulse_exporter.pb.go:410-744 | Unmarshalling a marshalled request gives back its number and every byte string in order |
| PulseExporter.ResponseIgnoresUnknown | etl/exporter/pulse_exporter.pb.go:531-640 | A marshalled response with a well-formed field of a number above 3 inserted anywhere between its fields still decodes to itself |
| PulseExporter.RequestIgnoresUnknown | etl/exporter/pulse_exporter.pb.go:641-744 | The same for the request and numbers above 2 |
| PulseExporter.LastOneWins | etl/exporter/pulse_exporter.pb.go:558-616 | Of each number field, 1 to 3 of a response and 1 of a request, the last value read counts, and a missing one is 0 |
| PulseExporter.AllBlobsKept | etl/exporter/pulse_exporter.pb.go:670-720 | Of a request's field 2 all values are kept in order |
| JetDropId.PrintThenParse | etl/models/models.go:94-125 | Parsing a printed id gives it back for every jet of up to 216 bits and every int64 pulse number, the root as a star |
| JetDropId.ParseThenPrint | etl/models/models.go:94-125 | Whatever parses, escaped or signed in any way, prints to a string that parses to the same id |
| JetDropId.PrintIsInjective | etl/models/models.go:115-125 | Different ids print differently |
| JetDropId.UnescapeExactly | etl/models/models.go:94-100 | Unescaping yields exactly the byte strings that the text spells, each byte as itself, as an escape with digits of either case, or a space as a plus |
| JetDropId.ParsesExactly | etl/models/models.go:94-113 | A text is read as an id exactly if it spells a star or 1 to 216 binary digits, a colon, and an optionally signed decimal number of 64 bits |
| JetDropId.IndexRoundTrip | etl/storage/storage.go:147-163 | The printed "pulse:order" index is read back exactly for all int64 values |
| JetDropId.IndexExactly | etl/storage/storage.go:143-163 | A text is read as an index exactly if it is two such numbers around a colon |

## Left out

- The HTTP API, its validation and mappers, apart from the two printed forms read back above.
- gRPC dialing, credentials, servers, database connection, metrics, logging, configuration and migrations.
- SQL and gorm internals: queries are comprehensions over maps; in particular an update for pulse number 0, which gorm would treat as a missing key, is an ordinary update here.
- Spurious database failures are modelled only in `Pipeline` (an action may be passed over, abandoned or retried); the storage object fails only for missing rows and keys.
- The processor's worker re-send after an error is the pipeline's Retry action; channel closing and progress are not claimed.
- Field extraction from platform records and the encoding of Insolar ids: a platform record is supported, unsupported or broken, sorting compares references by their printed ids, and rows are keyed by the raw reference.
- An error from LoadJetDrops: the extractor's implementation returns none.
- Extractor.PlatformExtractor.RetrievePulses: the counter changes by other threads only while it waits for a slot, and goroutines it started finish after the call; every other interleaving is in `WorkerSemaphore`.
- Lifeline: assumes that no reference occurs twice in a drop or in two drops, and for the order of lifelines that deliveries of one drop bring the same references; the platform decides both and this code checks neither.
- Progress.ReadyChainsAdvance: speaks of a pass that runs to its end; the pass does not when it meets an entry that makes `pulseIsComplete` panic.
- Tracking: assumes that the platform delivers each pulse always under the same key.
- Lifeline.PredecessorsStoredFirst: assumes that a state and its successor in different drops lie in different pulses in that order, which the platform decides and this code does not check.
- PulseLinks.GetPulses: limit and offset are not negative, which the handler has checked before (`api/handlers.go:680-702`).
- Pipeline: the chain results assume that a pulse's stored prev never changes and is smaller than its number.
- `etl/exporter/record_exporter.pb.go`: the same generated codec for messages with one number field, which would add only easy members.
- Remaining read queries of the storage (filters and windows of lifelines, jet drops by jet id, counts), which are plain filters.
