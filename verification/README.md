# Verified model of the microbenchmarking agent

A Dafny model of the Java microbenchmarking agent: the native library that takes snapshots of counters around measured
code (`src/c`) and the Java classes that collect, merge and print the results (`src/java`). The configuration modelled
is Linux with `clock_gettime`, `getrusage` and PAPI; the arithmetic of the Windows getters is modelled beside it.

`dafny verify dfyconfig.toml` checks the whole project.

## What is modelled

| File | Contents |
|---|---|
| `Snapshots.dfy` | the snapshot record, `do_snapshot`, `ubench_measure_start`, `ubench_measure_sample`, `ubench_measure_stop` |
| `Events.dfy` | getters, Windows arithmetic, the event table, name resolution and listing |
| `Pairing.dfy` | the two chained scans of `getResults`, the automaton they compute, optimality of the greedy pairing |
| `EventSets.dfy` | one event set as a value: buffer, `data_index`, closed form, safety of runs, result rows |
| `Staleness.dfy` | exactly when result rows depend on what the cells held before |
| `Registration.dfy` | the event loop of `createEventSet`: mask, PAPI ids, components |
| `Columns.dfy` | what the columns of a created set hold: header, one row, all rows since the creation, raw rows |
| `Machines.dfy` | the table of event sets as a value: operations on id arrays, allocation of slots |
| `Agent.dfy` | the native methods on the table, with ownership of the two heap blocks of a slot |
| `Results.dfy`, `Benchmark.dfy` | `BenchmarkResultsImpl`, `Benchmark` |
| `Rounds.dfy` | rounds of start and stop over several sets, and merging their results |
| `ThreadMaps.dfy` | the thread map as a finite map, and its sequential code |
| `ThreadMapSteps.dfy` | the thread map under the spinlock, as small steps of any number of threads |
| `ThreadLife.dfy` | what the map holds when thread start and end callbacks feed it |
| `Counters.dfy` | the compilation counters, every interleaving of their atomic steps, the `JVM:compilations` column |
| `Merger.dfy` | `BenchmarkResultsMerger` |
| `Decimal.dfy`, `Csv.dfy`, `Aligned.dfy`, `Printer.dfy` | decimal texts, CSV and aligned tables, `BenchmarkResultsPrinter` |
| `Common.dfy` | shared vocabulary |

Clocks, `getrusage`, PAPI and the JVM counters are oracles: probe call number `t` returns whatever the oracle says
for `t`. The outcome of memory allocations and of PAPI calls during a creation are parameters. Exceptions thrown into
Java are results. A ghost log of the snapshots since creation or the last reset accompanies every event set.

## Facts about the code

- `stop` writes at `data_index` without a check (`src/c/measurement.c:473`). The model gives it the precondition that
  the cell exists, and `EventSets.SafeExactlyWhen` says for all runs exactly when every stop meets it: fewer than `2m`
  snapshots, or an odd number of them, since the last reset. Alternating use always does.
- A user sample whose id is -1, the type of a START, can be paired with an END. Its row is independent of old cell
  contents only if a start had written that cell before; otherwise its PAPI columns can show an old `PAPI_start` code.
  `Staleness.RunIsCleanIff` gives the exact condition for every run. The documentation asks for positive ids.
- Raw PAPI values of END and sample rows read the `PAPI_start` code, which a stop and a sample do not write: they are
  that code, when the last start in the cell left a failure there (`Events.FailedCodesWin`, `EventSets.CellAfter`).
- A native id of -1 cannot be told from a thread that is not registered (`ThreadLife.LookupIsRight`).
- With more than 20 distinct PAPI ids the surplus ones are not recorded and their `papi_index` stays 0, so their
  columns show the first counter. `Registration.IndicesAreRightIff` says that 20 is the exact limit.
- The exit for different PAPI components is the only failing exit that leaves two blocks behind.
- An empty merger reports one event name, which is null: adding it to another merger adds a column named after the
  prefix and `null`, or throws when there are rows (`Merger.EmptyMergerAddsAColumn`).
- `getOptimalColumnWidths` ignores negative values, so these can break the alignment;
  `Aligned.OptimalRowIsAlignedIff` gives the exact condition.
- The end of a thread removes a binding by native id, and the code takes the first match. `ThreadLife.CodeIsRightIff` says
  exactly when the thread map stays right over a whole life of threads: at every end the search by native id finds the
  thread's own entry, or nothing if it has none. `ThreadLife.MapIsRightIff` gives the condition that does not depend on
  the order of the entries: every thread that ends is registered, if at all, under its own native id, and nobody else is
  registered under that id. `registerJavaThread` with a foreign id can break it (`ThreadLife.SharedNativeIdsConfuse`).
- Among separators without a newline, the CSV text determines the table exactly for those that contain a character
  other than a digit (`Csv.CsvIsInjectiveIff`), given names that share no character with separator or newline.

## Model

| member | source | states |
|---|---|---|
| Snapshots.DoSnapshot | src/c/measure.c:82-112 | exactly the fields of the enabled backends are overwritten, each with the reading of its own probe, in the order rusage, compilations, collections, thread time, PAPI, wall clock; all other fields keep what the cell held |
| Snapshots.MeasureStart | src/c/measure.c:114-128 | the cell after a start: PAPI_start before every other probe, type START, then a snapshot |
| Snapshots.MeasureSample | src/c/measure.c:130-136 | the cell after a sample: the user's id as type, then a snapshot; papi_rc2 is not written |
| Snapshots.MeasureStop | src/c/measure.c:138-171 | the cell after a stop: the probes in the opposite order, type END; papi_rc2 is not written |
| Snapshots.ProbesRunInOrder | src/c/measure.c:82-171 | the call number of every enabled probe of a start, sample or stop is the number of enabled probes before it in the order of the source |
| Snapshots.ProbesEnd | src/c/measure.c:82-171 | an action makes as many calls as probes are enabled, a start one more for PAPI_start |
| Snapshots.WindowsNest | src/c/measure.c:82-171 | between a start and a later stop the probe windows nest strictly by depth, so a monotone count read by an outer probe covers what an inner one saw |
| Events.DifferenceOfRaws | src/c/events.c:72-258 | for every event the getter equals raw(end) minus raw(start); for PAPI events when the codes of both snapshots are successes, including the PAPI_start code in the end snapshot, a leftover that stop never writes |
| Events.DifferenceOfRawsIff | src/c/events.c:224-258 | for a PAPI event without failed calls the getter is the difference of the counters, and equals the difference of raw values if and only if that leftover is a success or happens to be the counter itself |
| Events.RawOfEmpty | src/c/events.c:72-258 | the raw value of an all-zero snapshot is 0 for every event, so the differences fix every raw value |
| Events.FailedCodesWin | src/c/events.c:224-258 | which code a PAPI value reports: the first of PAPI_read of the start, PAPI_start and the read of the stop that failed; raw values likewise; without a failure the difference of the own counter |
| Events.BuiltInValues | src/c/events.c:72-222 | the value of each built-in kind as a sum of the fields of the two snapshots, in its unit |
| Events.RawBuiltInValues | src/c/events.c:72-222 | the raw value of each built-in kind from the fields of one snapshot |
| Events.CounterError | src/c/events.c:84-112 | Windows wall clock: the difference of raw values exceeds the getter by 0 or 1 |
| Events.FiletimesError | src/c/events.c:118-157 | Windows thread time: the difference of raw values exceeds the getter by 0, 1000 or 2000 |
| Events.AdjacentIntervals | src/c/events.c:80-92 | k adjacent Windows wall-clock intervals sum to the whole interval less at most k-1 |
| Events.ResolveEvent | src/c/events.c:475-502 | the loop returns the first table entry that accepts the name and writes id, component, backend, getter and name; info is unchanged when nothing accepts |
| Events.ResolvesAt | src/c/events.c:348-502 | a name that is a built-in one ignoring case resolves to the getter of that entry, whatever PAPI knows |
| Events.OtherNamesResolve | src/c/events.c:475-502 | every other name is looked up at PAPI, behind a prefix PAPI: in any case if that is known there, else as a whole; it is unknown exactly when PAPI does not know it |
| Events.IgnoringCaseIs | src/c/events.c:475-502 | names are compared letter by letter up to the difference of 32 between upper and lower case |
| Events.ResolvedIsWellPaired | src/c/events.c:348-502 | resolution never combines a getter with a foreign backend, keeps name and papi_index, and takes id and component from PAPI |
| Events.ListPapiEvents | src/c/events.c:287-344 | the callback sees the presets that have a name, a description and counters, then the named native events component by component, with the prefix, up to and including the first at which it terminates |
| Events.IterateEvents | src/c/events.c:504-528 | the callback sees the names of all non-obsolete entries in order, up to and including the first at which it terminates |
| Events.ListedNamesResolve | src/c/events.c:475-528 | every name reported as supported resolves, given that PAPI finds the names it lists |
| Pairing.FindFirst | src/c/measurement.c:542-555 | the first index of the given type from the start index on, or the sentinel; the sentinel is passed through |
| Pairing.NextPair | src/c/measurement.c:602-613 | the two chained scans give the next pair of the one-pass automaton, or nothing exactly when it finds none |
| Pairing.PairsAreDisjointAndTight | src/c/measurement.c:602-613 | the pairs are START before END, increasing, disjoint, with no END strictly inside |
| Pairing.PairsBeginAtFirstStart | src/c/measurement.c:602-613 | each pair begins with the first START behind the pair before it |
| Pairing.PairsAreMaximum | src/c/measurement.c:602-625 | no set of pairwise disjoint START-END pairs is larger than the pairs that become rows, for every sequence of types |
| Pairing.AlternatingPairs | src/c/measurement.c:602-613 | alternating types pair up as (0,1), (2,3), ... |
| EventSets.CellAfter | src/c/measure.c:82-171 | field by field, what start, sample and stop leave in their cell: in each field of an enabled backend the reading of its own oracle at its own call number, in the others what was there; the PAPI counters only when the call succeeds, and only those in use |
| EventSets.RunKeepsClosedForm | src/c/measurement.c:420-540 | after every run whose stops are in bounds, data_index and the cells below it are the closed form of the log: all of it, or its first 2m-2 snapshots and the newest one or two |
| EventSets.StopIsInBoundsIff | src/c/measurement.c:473-477 | a stop is in bounds exactly when fewer than 2m or an odd number of snapshots were taken since the last reset |
| EventSets.StartAndSampleAreInBounds | src/c/measurement.c:442-449 | start and sample always write inside the buffer |
| EventSets.SafeExactlyWhen | src/c/measurement.c:420-540 | a run of start, sample, stop and reset is in bounds if and only if each of its stops finds a fitting number of snapshots; data_index is then a function of that number |
| EventSets.SamplesThenStopLeaveBounds | src/c/measurement.c:473-477 | for every m, 2m samples in an empty set and then a stop leave the buffer |
| EventSets.AlternatingRunsAreSafe | src/c/measurement.c:420-540 | alternating start and stop, of any length and with resets between pairs, never leaves the buffer |
| EventSets.AlternatingRunLogs | src/c/measurement.c:420-540 | such a run is safe and its log alternates START and END |
| EventSets.ResultsOfAlternatingLog | src/c/measurement.c:602-625 | after k pairs getResults gives all k rows in order when k <= m, and exactly the first m-1 measurements and the k-th when k > m |
| Staleness.CreatedSetsAreCovered | src/c/measurement.c:214-276 | every used event of a created set has its backend in the mask and a papi_index among the counters PAPI fills in |
| Staleness.NoStaleData | src/c/measurement.c:602-625 | replacing the contents of all cells from data_index on leaves the rows of getResults after any further run as they are, for every run without a sample id -1 in a set with PAPI events |
| Staleness.RunIsCleanIff | src/c/measurement.c:420-625 | for every run in bounds of a set with a PAPI event: the rows are independent of old contents, whatever the probes return, if and only if no row begins at a sample with id -1 in a cell that no start of the run had written |
| Staleness.SampleIsCleanIff | src/c/measure.c:130-136 | for a sample followed by a stop in a set whose data_index is 0 this means exactly that the user id is not -1 |
| Staleness.LeakedCode | src/c/events.c:225-245 | after any run the PAPI columns of a row that begins at such a cell report the PAPI_start code that the cell held before the run, when all PAPI calls succeed |
| Registration.RegisterEvents | src/c/measurement.c:214-276 | the loop over the names has the outcome Collect, which CollectIs, CollectFailsIff and CompleteIsRegistered say in other terms |
| Registration.RegisterPapi | src/c/measurement.c:241-259 | the id is recorded once, at most 20 ids, and papi_index is its index among the recorded ones |
| Registration.FindRegistered | src/c/measurement.c:242-251 | the inner loop finds the first occurrence of the id |
| Registration.FirstOccurrencesInOrder | src/c/measurement.c:240-257 | the list of ids has no duplicates, the elements of the original, in order of first occurrence |
| Registration.CompleteIsRegistered | src/c/measurement.c:214-276 | on success used_backends has a bit exactly when a used event has that backend, the PAPI ids are the first 20 first occurrences, every papi_index is in range, and the events are the resolved ones in order |
| Registration.IndicesAreRightIff | src/c/measurement.c:241-259 | every PAPI event satisfies used_papi_events[papi_index] == id if and only if there are at most 20 distinct ids |
| Registration.DifferentPapiEvents | src/c/measurement.c:214-276 | any number of different PAPI events of one component is accepted, and their indices are right if and only if there are at most 20 of them |
| Registration.TwentyOneEvents | src/c/measurement.c:252-258 | twenty-one event names are accepted and an index is wrong |
| Registration.ComponentsAgreeIff | src/c/measurement.c:261-271 | given that an id determines its component, the events are accepted if and only if all PAPI events share one component, which is the one recorded |
| Registration.CollectIs | src/c/measurement.c:214-276 | the loop completes exactly when every name resolves and the resolved events can be put together |
| Registration.CollectFailsIff | src/c/measurement.c:214-276 | the loop reports an unknown event if and only if some name is unknown and all before it are known and fit together, and different components if and only if some name is known but does not fit to those before it |
| Columns.HeaderIsTheRequest | src/c/measurement.c:214-276 | the header of a created set is the list of requested names |
| Columns.BuiltInColumn | src/c/measure.c:82-171 | after a start and a stop in a created set that is used in pairs, the last row gives for each built-in name, in any case and under its old name, the difference of what its own probe returned in the stop and in the start |
| Columns.PapiColumn | src/c/events.c:224-258 | for a PAPI name the difference of its own counter, or the code of the first failed call, in terms of what PAPI returned |
| Columns.RowsOfCreatedSet | src/c/measurement.c:137-202 | for the m that was passed to createEventSet: k start/stop pairs are in bounds and give min(k, m) rows, row j being the one that was last after pair j, except that the last of m rows is that of pair k when k > m |
| Columns.RawTypeOfLast | src/c/measurement.c:630-696 | getRawResults ends the row of a start with -1, of a stop with -2 and of a sample with its user id |
| Columns.RawBuiltInColumn | src/c/measurement.c:630-696 | the last raw row after a start, sample or stop gives for each built-in name what its own probe returned |
| Machines.ApplyFrame | src/c/measurement.c:420-540 | a call on an id array leaves all other sets and all liveness alone, keeps the closed form, and succeeds exactly when all its ids are live |
| Machines.ApplyAppend | src/c/measurement.c:420-540 | one more id at the end of the array is one more single-id operation after the others, or a throw after them |
| Machines.ApplyStopsAtInvalid | src/c/measurement.c:420-540 | the first invalid id ends the call: the ids before it have been acted on and those behind it have not |
| Machines.OnlyStopCanLeaveBounds | src/c/measurement.c:420-540 | start, sample and reset on any id array are in bounds |
| Machines.ApplyIsTableStep | src/c/measurement.c:420-540 | start, stop, sample and reset change neither the size of the table nor liveness |
| Machines.GrowsOnlyWhenFull | src/c/measurement.c:165-188 | the table grows by one, and only when every slot is live |
| Machines.TableIsBounded | src/c/measurement.c:165-188 | over every run of calls the table never has more than one slot beyond the largest number of simultaneously live sets so far |
| Agent.SetUpPapi | src/c/measurement.c:283-333 | the PAPI part of a creation succeeds exactly when all the calls it makes do |
| Agent.PapiCallsAre | src/c/measurement.c:283-333 | those calls are: creation, component, one for each inherit option and one for each recorded id |
| Agent.OutcomeOfCreate | src/c/measurement.c:137-341 | when each outcome comes about, in terms of the arguments, the free slots, the allocations and the first name at which the event loop cannot go on; a new id is the smallest that is not live |
| Agent.PapiDecides | src/c/measurement.c:278-341 | with events that fit together a creation fails exactly when one of them uses PAPI and one of the PAPI calls fails, be it the adding of a single recorded id |
| Agent.Measurement.Create | src/c/measurement.c:137-341 | the outcome for every input in the order of the checks; a new set has room for exactly the requested number of pairs, all cells zero, none taken, and two fresh blocks; a first failing name that is unknown is reported as such and leaves no block behind; a failure keeps all live sets and, but for different components, frees what it allocated; the table makes one of the steps for which its size is bounded |
| Agent.Measurement.ClaimSlot | src/c/measurement.c:162-188 | the first slot that is not valid, else one more slot, else nothing |
| Agent.Measurement.Destroy | src/c/measurement.c:406-418 | a live set's two blocks, allocated until then, are freed and the slot is no longer valid; an invalid id changes nothing |
| Agent.Measurement.Start | src/c/measurement.c:420-453 | the single-id operation folded over the ids up to the first invalid one; live sets keep pairwise distinct allocated blocks |
| Agent.Measurement.Stop | src/c/measurement.c:455-481 | the same for stop, provided each cell exists |
| Agent.Measurement.Sample | src/c/measurement.c:483-516 | the same for sample |
| Agent.Measurement.Reset | src/c/measurement.c:518-540 | the same for reset |
| Agent.Measurement.GetResults | src/c/measurement.c:557-628 | for a live id a new object with the event names and one row per pair of the automaton; nothing for an invalid id |
| Agent.Measurement.GetRawResults | src/c/measurement.c:630-696 | for a live id one row per retained snapshot: its raw values and its type |
| Agent.CollectRows | src/c/measurement.c:593-625 | earlier rows keep their values although one array of values is refilled for every row |
| Results.BenchmarkResultsImpl.AddDataRow | src/java/cz/cuni/mff/d3s/perf/BenchmarkResultsImpl.java:46-49 | one more row with the values of the array, in a new array; the earlier rows are untouched |
| Benchmarks.Benchmark.Init | src/java/cz/cuni/mff/d3s/perf/Benchmark.java:47-53 | any number of inits with any failures uses slot 0 only, which then holds a set for the given number of measurements and events; the outcome does not depend on the previous set; after a failure there is no default set |
| Benchmarks.Benchmark.Stop | src/java/cz/cuni/mff/d3s/perf/Benchmark.java:61-63 | stop on the default set; throws exactly when there is none |
| Benchmarks.Benchmark.GetResults | src/java/cz/cuni/mff/d3s/perf/Benchmark.java:74-76 | the names and rows of the default set, or a throw exactly when there is none |
| Rounds.ApplyDistinct | src/c/measurement.c:429-480 | with distinct live ids a call acts once on each of its sets and leaves every other set as it is |
| Rounds.EverySetHasItsRows | src/demo-java/cz/cuni/mff/d3s/perf/demo/UbenchDemo.java:98-120 | after k rounds of start(ids); stop(ids) over distinct sets of equal m every set gives min(k, m) rows of its own width |
| Rounds.RoundsMerge | src/demo-java/cz/cuni/mff/d3s/perf/demo/UbenchDemo.java:113-120 | adding all these results to an empty merger never throws, its names are those of the sets in order, and row j is row j of every set side by side |
| Rounds.CreatedSetsMerge | src/demo-java/cz/cuni/mff/d3s/perf/demo/UbenchDemo.java:83-120 | from the creations to the merged table: sets created for m measurements each, k rounds and one merger give the requested names of all sets in order and min(k, m) rows |
| Rounds.FlatAt | src/demo-java/cz/cuni/mff/d3s/perf/demo/UbenchDemo.java:113-120 | where each name of each set stands in the merged header |
| Rounds.RowConcatAt | src/demo-java/cz/cuni/mff/d3s/perf/demo/UbenchDemo.java:113-120 | where each value of each set stands in the merged rows |
| Merger.BenchmarkResultsMerger.AddColumns | src/java/cz/cuni/mff/d3s/perf/BenchmarkResultsMerger.java:45-65 | throws and changes nothing when the numbers of rows differ; else the names so far stay, prefix + name is appended for each new name (null reads "null"), and each row is the old row followed by the new one, in a new array |
| Merger.JoinIs | src/java/cz/cuni/mff/d3s/perf/BenchmarkResultsMerger.java:45-65 | the same of the joined table, name by name and row by row, and when there is none |
| Merger.MergedNames | src/java/cz/cuni/mff/d3s/perf/BenchmarkResultsMerger.java:45-65 | adding a merger keeps the names so far and appends prefix + name for each of its names |
| Merger.BenchmarkResultsMerger.AddColumn | src/java/cz/cuni/mff/d3s/perf/BenchmarkResultsMerger.java:73-91 | the same as joining a one-column table |
| Merger.BenchmarkResultsMerger.GetEventNames | src/java/cz/cuni/mff/d3s/perf/BenchmarkResultsMerger.java:95-97 | the names, or one null name when there are none |
| Merger.MergingAMerger | src/java/cz/cuni/mff/d3s/perf/BenchmarkResultsMerger.java:45-97 | merging a merger is adding its parts one by one with concatenated prefixes, including whether it throws |
| Merger.EmptyMergerAddsAColumn | src/java/cz/cuni/mff/d3s/perf/BenchmarkResultsMerger.java:45-97 | adding an empty merger adds a column called prefix + "null" to a table without rows and throws otherwise |
| ThreadMaps.SwapRemovedAbs | src/c/threads.c:202-222 | swap-with-last removal keeps Java ids distinct and removes exactly one binding |
| ThreadMaps.EntriesChangeByOne | src/c/threads.c:174-222 | appending and swap-removing change the multiset of entries by exactly one entry |
| ThreadMaps.ThreadMap.IndexOf | src/c/threads.c:109-126 | the first matching entry below length, or -1 when there is none |
| ThreadMaps.ThreadMap.EnsureCapacity | src/c/threads.c:156-172 | room for the required entries or failure, contents unchanged |
| ThreadMaps.ThreadMap.PutJavaThread | src/c/threads.c:174-198 | an atomic register on the finite map that appends the entry; no memory exactly when the id is new, the array is full and realloc fails; the capacity stays equal to the highest length ever reached |
| ThreadMaps.ThreadMap.RemoveNativeThread | src/c/threads.c:202-222 | an atomic unregister on the finite map: the first entry with that native id goes, swapped with the last; the capacity stays |
| ThreadMaps.ThreadMap.NativeId | src/c/threads.c:464-473 | an atomic lookup on the finite map |
| ThreadMapSteps.NextKeepsInv | src/c/threads.c:110-258 | every small step of every thread keeps the invariant: mutual exclusion, agreement with the code run one operation at a time, each thread's returns answering its calls, order in time |
| ThreadMapSteps.Run | src/c/threads.c:110-258 | every state that any interleaving of any number of threads reaches satisfies that invariant |
| ThreadMapSteps.MutualExclusion | src/c/mylock.h:39-62 | in every interleaving at most one thread is inside, and the lock is 1 exactly when one is |
| ThreadMapSteps.RefinesAtomicMap | src/c/threads.c:229-258 | in every interleaving the completed operations are atomic operations on a finite map executed in lock-acquisition order; the n-th return of a thread answers its n-th call, with the operation called and the reply of that execution; a call is denied memory if and only if a realloc of the run has failed; when the lock is free the entries mean the final map |
| ThreadMapSteps.RefinesSequentialCode | src/c/threads.c:174-222 | the entries after each acquisition are those of the code executed one operation at a time in that order |
| ThreadMapSteps.CapacityIsHighestLength | src/c/threads.c:156-172 | whenever the lock is free, the capacity is the highest length in any state of the run |
| ThreadMapSteps.HolderGetsOut | src/c/threads.c:110-258 | progress: from every reachable state and in every interleaving the lock is free after at most length + 5 moves of its holder, unless a failed allocation has ended the process |
| ThreadMapSteps.OrderRespectsTime | src/c/threads.c:229-258 | the lock is taken between the call and the return of the call it serves, and a call that returned before another began comes first in the order |
| ThreadLife.UnregisterIsExactIff | src/c/threads.c:202-222 | removing a thread's native id removes exactly its binding, whichever match is taken, if and only if no other binding has the id |
| ThreadLife.MapIsRightIff | src/c/threads.c:287-351 | when an unregister may drop any binding with the id: over all runs fed by thread starts, ends, adoptions, registrations with any native id and lookups, the map is always exactly the registered threads that have not ended if and only if every ending thread meets its own binding and no other |
| ThreadLife.CodeIsRightIff | src/c/threads.c:202-222 | for the code, which drops the first match: the entries are always exactly the registered threads that have not ended if and only if at every end the search by native id finds the thread's own entry, or nothing if the thread is not registered |
| ThreadLife.InterleavingIsCodeRun | src/c/threads.c:229-258 | every interleaving that executes such operations, with memory for all of them, leaves the entries of such a run of the code |
| ThreadLife.MapIsTheLiveRegisteredThreads | src/c/threads.c:287-351 | when live threads have distinct ids and are registered under their own, the map is at every moment exactly the live registered threads, and every reply is the right one |
| ThreadLife.EntriesAreTheLiveRegisteredThreads | src/c/threads.c:287-351 | the same for every interleaving of the small steps, whenever the lock is free |
| ThreadLife.BindingsDoNotChange | src/c/threads.c:174-222 | a binding never changes while it is present, whatever the ids |
| ThreadLife.LookupIsRight | src/c/threads.c:464-490 | a lookup answers -1 if and only if the thread is not registered or registered under -1, and otherwise its own id; as long as no negative id has been registered it answers a valid id if and only if the thread is registered |
| ThreadLife.CodeRemovesOwnIff | src/c/threads.c:202-222 | the code removes the binding of the thread at a position if and only if no entry before it has its native id |
| ThreadLife.OwnEntryFirst | src/c/threads.c:202-222 | with the own entry in front the code is right although another entry has the native id |
| ThreadLife.SharedNativeIdsConfuse | src/c/threads.c:493-505 | threads 1 and 2 registered with native id 7, in this order: the end of thread 2 leaves thread 2 and drops thread 1 |
| Counters.AtomicInt.Inc | src/c/myatomic.h:41-51 | returns the old value and adds one, wrapping as a C int |
| Counters.AtomicInt.Reset | src/c/myatomic.h:53-65 | returns the old value and stores 0 |
| Counters.CounterAgent.OnCompiledMethodLoad | src/c/counter.c:40-55 | both compilation counters go up by one |
| Counters.CounterAgent.OnGarbageCollectionFinish | src/c/counter.c:57-60 | the collection counter goes up by one |
| Counters.CounterAgent.GetCompilationCountAndReset | src/c/counter.c:85-90 | returns the count since the last call and clears it |
| Counters.EveryInterleavingConserves | src/c/counter.c:40-90 | in every interleaving of any number of threads the returned counts plus the counter equal the total plus the callbacks between their two increments, and the collection counter equals the collections: modulo 2^32 always, exactly below 2^31; reads of the total never decrease |
| Counters.QuiescentCountsAgree | src/c/counter.c:40-90 | when no callback is running, the returned counts plus the counter equal the total and the number of callbacks |
| Counters.ColumnAfterRun | src/c/events.c:162-168 | after every run in order of time that reads a nondecreasing total, the JVM:compilations column is non-negative and sums to at most the last retained snapshot minus the first |
| Decimal.TextRoundTrip | src/java/cz/cuni/mff/d3s/perf/BenchmarkResultsPrinter.java:61 | reading back the decimal text of any integer gives the integer |
| Decimal.TextFits | src/java/cz/cuni/mff/d3s/perf/BenchmarkResultsPrinter.java:99 | the text of v fits into w characters exactly when -10^(w-1) < v < 10^w |
| Decimal.TextIs | src/java/cz/cuni/mff/d3s/perf/BenchmarkResultsPrinter.java:61 | each character of a decimal text: the minus sign of negative numbers, and at distance i from the end the digit of 10^i; there are no more digits than needed |
| Csv.CsvRoundTrip | src/java/cz/cuni/mff/d3s/perf/BenchmarkResultsPrinter.java:43-65 | a splitting parser applied to the CSV text returns the names and all rows, for all integers, when the separator is non-empty and shares no character with digits, minus, newline and names, names have no newline, and there is a column |
| Csv.SmallTable | src/java/cz/cuni/mff/d3s/perf/BenchmarkResultsPrinter.java:43-65 | the CSV text of a table with two columns and two rows, character by character |
| Csv.RowIsDetermined | src/java/cz/cuni/mff/d3s/perf/BenchmarkResultsPrinter.java:56-64 | the text of a row determines its numbers and how many there are, for every separator with a non-digit in it, minus signs and digits included |
| Csv.CsvDeterminesTheTable | src/java/cz/cuni/mff/d3s/perf/BenchmarkResultsPrinter.java:43-65 | with such a separator, free of newlines, equal texts come from equal tables; without the header, from equal rows |
| Csv.CsvIsInjectiveIff | src/java/cz/cuni/mff/d3s/perf/BenchmarkResultsPrinter.java:43-65 | a separator without newline lets the text determine the table if and only if it contains a character other than a digit |
| Csv.DigitSeparatorsCoincide | src/java/cz/cuni/mff/d3s/perf/BenchmarkResultsPrinter.java:56-64 | for every separator s of digits only, the rows 1, 1s1 and 1s1, 1 read alike |
| Csv.NamesCoincide | src/java/cz/cuni/mff/d3s/perf/BenchmarkResultsPrinter.java:43-54 | a separator inside a name, which an empty one always is, and a table without columns make different tables print alike |
| Csv.NameAndRowCoincide | src/java/cz/cuni/mff/d3s/perf/BenchmarkResultsPrinter.java:43-65 | so does a newline inside a name |
| Aligned.LineLengthIff | src/java/cz/cuni/mff/d3s/perf/BenchmarkResultsPrinter.java:102-109 | a printed line is as long as its columns are wide if and only if every cell fits |
| Aligned.HeaderColumnIs | src/java/cz/cuni/mff/d3s/perf/BenchmarkResultsPrinter.java:83-95 | for all widths, recycled ones included: column k of the header line shows the first min(length, width - 1) characters of its name at the right end, spaces before them |
| Aligned.ValuesRecovered | src/java/cz/cuni/mff/d3s/perf/BenchmarkResultsPrinter.java:102-109 | slicing an aligned line at the width offsets recovers every value |
| Aligned.LinesReadBack | src/java/cz/cuni/mff/d3s/perf/BenchmarkResultsPrinter.java:83-110 | split at the newlines, the printed table is its header line, if there is one, and its rows in order |
| Aligned.NoHeaderIsCut | src/java/cz/cuni/mff/d3s/perf/BenchmarkResultsPrinter.java:83-95 | with the optimal widths no header is truncated and the header line is as long as the columns are wide |
| Aligned.OptimalIsLeast | src/java/cz/cuni/mff/d3s/perf/BenchmarkResultsPrinter.java:120-140 | the optimal width of a column is the least one above 1 with room for a space before its whole header and before every value of the table that is not negative |
| Aligned.OptimalTableIsAligned | src/java/cz/cuni/mff/d3s/perf/BenchmarkResultsPrinter.java:83-140 | with the optimal widths and a row without negative values its line is as long as the header, each cell has a space in front, and every value is recovered |
| Aligned.OptimalRowIsAlignedIff | src/java/cz/cuni/mff/d3s/perf/BenchmarkResultsPrinter.java:120-140 | with the optimal widths a row is aligned if and only if each of its values exceeds -10^(w-1) for its width w |
| Aligned.NegativeValuesBreakTheTable | src/java/cz/cuni/mff/d3s/perf/BenchmarkResultsPrinter.java:120-140 | the value -10 under a header of one character does not fit the optimal width 2 |
| Printer.ToCsv | src/java/cz/cuni/mff/d3s/perf/BenchmarkResultsPrinter.java:43-65 | the loops append exactly the CSV text; a null name appears as null |
| Printer.Table | src/java/cz/cuni/mff/d3s/perf/BenchmarkResultsPrinter.java:83-110 | the loops append exactly the aligned table, with recycled widths; names are looked at only for the header |
| Printer.MaxValue | src/java/cz/cuni/mff/d3s/perf/BenchmarkResultsPrinter.java:121-128 | the running maximum is the largest value of all rows, or 0 |
| Printer.GetOptimalColumnWidths | src/java/cz/cuni/mff/d3s/perf/BenchmarkResultsPrinter.java:120-140 | the optimal widths, or a NullPointerException exactly when a name is null |
| Printer.AdaptiveTable | src/java/cz/cuni/mff/d3s/perf/BenchmarkResultsPrinter.java:72-74 | the table with its optimal widths; nothing is printed when a name is null |

## Left out

- JNI and JVMTI plumbing: class and method lookup, string conversion, creation of exceptions.
- The PAPI library, the clocks and `getrusage` themselves: oracles.
- The two `createAttachedEventSet` variants, `isEventSupported` and `getSupportedEvents`.
- The barrier, start-up code, `JvmUtils`, logging, estimations and the build files.
- Weak memory: the threads of the thread map and of the counters interleave under sequential consistency.
- Calls of the event-set methods from several threads: the code has no locking there, so they are modelled one at a time.
- Overflow of 64-bit times and counts, of `data_index` and of the thread map's `int` length.
- Event-name strings and the PAPI event sets on the PAPI side, which are never freed: ownership is about the two heap blocks `data` and `used_events`.
- `used_backends` is a `Mask` of eight bits, of which the code only ever uses six.
- The order in which `createEventSet` writes the fields of a slot that is not yet valid: they are never read before the slot is valid, and the model writes them at that moment.
- The fields of a snapshot are filled in a value that is then stored in the buffer, not through a pointer into it.
- Agent.Measurement.Stop: has the precondition that the cell at `data_index` exists, because the code does not check it; `EventSets.SafeExactlyWhen` says when it holds.
- Benchmarks.Benchmark.Stop: has the same precondition, for the default set.
- Benchmarks.Benchmark.Init: takes the numbers of measurements that a creation takes.
- Agent.Measurement.Create: takes numbers of measurements from -2^30 to 2^30 - 1, for which doubling does not overflow a 32-bit int.
- Merger.BenchmarkResultsMerger.AddColumns: takes results with at least one column and rows as wide as the names, which is what all results in the repository are.
- Printer.Table: takes positive widths, at least one if there are columns, and no null names if the header is printed. Otherwise Java throws in the middle of the output, except that negative widths without a header left-justify the values.
- Printer.AdaptiveTable: takes empty rows when there are no names; otherwise Java divides by zero.
- Merger.BenchmarkResultsMerger.AddColumn: takes a name that is not null; Java would keep the null in the list of names.
- Printer.ToCsv: `%d` is taken to write ASCII digits, as it does in most locales.
- Counters.ColumnAfterRun: takes the reads of the total as nondecreasing, which `Counters.EveryInterleavingConserves` gives below 2^31 callbacks.
