# Verified models of the core kernels of fastgozero

A Dafny model of the algorithm and concurrency kernels under `core/` of the Go microservice framework
`fastgozero`, with proofs of what they promise. Each kernel is one group of modules:

- **Keyword matching** (`WordMatching.dfy`, `AhoCorasick.dfy`, `KeywordFilter.dfy`, `Replacer.dfy`). The trie is
  a heap of nodes; breadth-first construction gives every node the failure link of its longest proper suffix in
  the trie, and the one-pass search returns exactly the naive list of all occurrences. Masking and
  leftmost-longest replacement are built on it.
- **Periodical executor** (`PeriodicalExecutor.dfy`, `ExecutorProgress.dfy`). A state machine over every
  interleaving of adders, flushers and background flushers that retire and are spawned again. No task is lost,
  doubled or stranded, nothing deadlocks, and from every reachable state the goroutines can come to rest with
  everything executed.
- **Timing wheel** (`TimerModel.dfy`, `WheelLayout.dfy`, `TimingWheel.dfy`, `SafeMap.dfy`). `TimerModel` says when a
  timer fires; `WheelLayout` shows on values, and `TimingWheel` on the heap of shared entries, that the code does
  that. `SafeMap` refines a plain map.
- **Consistent hash** (`HashRing.dfy`, `ConsistentHash.dfy`). Sorted keys and ring lists agree under collisions,
  the binary search finds the clockwise successor, and few keys move.
- **Route tree** (`Routes.dfy`, `SearchTree.dfy`). The backtracking search in the mutable tree equals a search of
  the declarative routing table.
- **Stable runner** (`StableRunner.dfy`, `RunnerProgress.dfy`, `RunnerWait.dfy`). Results come out in push order in
  every interleaving of the workers, a waiting `Get` can always be served, and the exact condition under which `Wait`
  can be trusted.
- **Single flight and resource manager** (`SingleFlight.dfy`, `ResourceManager.dfy`). One function per key at a
  time, everyone gets the flight they joined, and a resource is created once.
- **Rolling window and breaker** (`RollingWindow.dfy`, `Breaker.dfy`). The ring of buckets refines the whole log
  of events; the breaker's decisions are judged against that log, and against the ring where its clock readings
  have drifted from it.
- **Read-through cache** (`CachedStore.dfy`). A cached answer that disagrees with the database always has a clean
  task pending that was made when the entry was already there, or that very entry has outlived all five attempts.
- **Top-k and percentiles** (`TopK.dfy`, `Metrics.dfy`). The bounded heap holds the k largest, and the cascade of
  heaps reports the true percentiles.

`Options.dfy`, `GoMaps.dfy`, `Slices.dfy` and `Modulo.dfy` hold what several kernels share: values that may be
missing, iteration over Go maps in arbitrary order, sorting, and facts about division.

## How the source is modelled

Code that updates fields in place is a class with `modifies` clauses; each operation is proved against a
specification function or states its property outright. Protocols between goroutines are state machines with one
step per atomic action (a critical section that only touches data guarded by its lock is one step), and their
theorems hold for every state of every run. Clocks, random numbers, the outcome of Redis and database commands,
the branch that `select` takes and the order of `range` over a map are parameters or free choices. Integers are
unbounded. Floating point is exact real arithmetic. Where Go uses `any` for keys, values and items the model uses
`int`: nothing looks inside them. Text is a sequence of characters.

Where code and documentation disagree the model follows the code:

- `ExecCtx` (core/stores/sqlc/cachedsql.go:99-102) announces an error when the deletion of cached keys fails. The
  cache never reports one (core/stores/cache/cachenode.go:70-89), so `Exec` succeeds and leaves a clean task.
- `AddWithWeight` and `AddWithReplicas` are documented for any node, but removing a node with fewer than all
  replicas can take away keys of other nodes. `RemoveBalancedIff` gives the exact condition, and
  `WeightedPairPanics` a sequence of calls that ends in a division by zero.
- `MoveTimer` can be a full revolution late or early. `MoveIsExactIff` says exactly when.
- `RollingWindow.updateOffset` reads the clock twice. `AdvanceKeepsIff` says exactly when that is harmless.
- `StableRunner.Wait` promises that all messages were taken. `WaitIsSafeIff` says that this is certain exactly when
  no push is between its test of `done` and its numbering at the time of the call.

## Model

| member | source | states |
|---|---|---|
| `WordMatching.LongestSuffixIsSuffix` | core/stringx/node.go:36-61 | the state of the automaton is a suffix of the text |
| `WordMatching.LongestSuffixIsLongest` | core/stringx/node.go:36-61 | the state of the automaton is the longest suffix of the text that is a trie path: no longer suffix is one |
| `WordMatching.GotoTracksLongestSuffix` | core/stringx/node.go:69-84 | following failure links on a rune leads from the longest suffix of a text to the longest suffix of the extended text |
| `WordMatching.FailOfExtension` | core/stringx/node.go:45-59 | the failure link of a child is found by extending the failure links of its parent |
| `WordMatching.ChainIsNaive` | core/stringx/node.go:86-94 | walking the failure chain reports exactly the words that end at the current position |
| `WordMatching.AllMatchesMembers` | core/stringx/node.go:63-98 | the list of matches contains exactly the ranges whose slice is a word |
| `WordMatching.AllMatchesOrdered` | core/stringx/node.go:63-98 | each occurrence is listed once, by stop ascending, then the longer word first |
| `AhoCorasick.Trie.Add` | core/stringx/node.go:10-34 | adds exactly that word to the trie's words, the empty word being ignored, and keeps the heap structure |
| `AhoCorasick.Trie.Build` | core/stringx/node.go:36-61 | every node's failure link is the node of its longest proper suffix in the trie |
| `AhoCorasick.Trie.FailTarget` | core/stringx/node.go:47-58 | the inner loop of the construction finds the longest proper suffix from links set so far, and terminates |
| `AhoCorasick.Trie.Advance` | core/stringx/node.go:69-84 | one rune of the search moves to the longest suffix, along failure links of decreasing depth |
| `AhoCorasick.Trie.Collect` | core/stringx/node.go:86-94 | the reporting loop lists the words on the failure chain |
| `AhoCorasick.Trie.Find` | core/stringx/node.go:63-98 | for every text the result equals the naive list of all occurrences of all words |
| `AhoCorasick.NewAutomaton` | core/stringx/trie.go:29-45 | the automaton for a list of words holds exactly its non-empty words and has all failure links |
| `KeywordFilter.ReplaceWithAsterisk` | core/stringx/trie.go:90-94 | overwrites exactly the given range in place |
| `KeywordFilter.CollectKeywords` | core/stringx/trie.go:74-88 | the distinct slices of the matches, each once |
| `KeywordFilter.KeywordTrie.FindKeywords` | core/stringx/trie.go:64-72 | exactly the words that occur in the text, each once |
| `KeywordFilter.KeywordTrie.Filter` | core/stringx/trie.go:47-62 | keeps the length, masks exactly the positions covered by an occurrence, lists exactly the occurring words |
| `Replacing.LongestStopIsLongest` | core/stringx/replacer.go:57-65 | the substitution takes the longest word at a start |
| `Replacing.SubstituteSkips` | core/stringx/replacer.go:67-81 | text without an occurrence starting in it is copied unchanged |
| `Replacing.Replacer.DoReplace` | core/stringx/replacer.go:50-84 | one pass is the leftmost-longest non-overlapping substitution; the flag says whether anything occurred |
| `Replacing.Replacer.Replace` | core/stringx/replacer.go:39-48 | the result is the substitution applied twice |
| `PeriodicalExecution.StepKeepsInv` | core/executors/periodicalexecutor.go:67-202 | every atomic step of every goroutine keeps lock ownership, the counts of `inflight` and confirmations, the guarding flusher and the conservation of tasks |
| `PeriodicalExecution.RunsKeepInv` | core/executors/periodicalexecutor.go:67-202 | that invariant holds in every state of every run |
| `PeriodicalExecution.AddedIsHanded` | core/executors/periodicalexecutor.go:67-72 | what is counted as added is exactly what callers handed to `Add`, in order |
| `PeriodicalExecution.EveryTaskInOnePlace` | core/executors/periodicalexecutor.go:67-171 | each added task is, as often as it was added, in the container, in one extracted batch, or executed; never executed more often than added |
| `PeriodicalExecution.InflightIsExact` | core/executors/periodicalexecutor.go:110-132 | in every state `inflight` counts exactly the batches extracted, or about to be, whose receipt is uncounted |
| `PeriodicalExecution.UnreceivedBatchIsServed` | core/executors/periodicalexecutor.go:99-148 | a batch that was extracted, sent or awaits confirmation has `guarded` set and exactly one flusher alive or being spawned |
| `PeriodicalExecution.ContainerIsWatched` | core/executors/periodicalexecutor.go:118-148 | a non-empty container is guarded, or a quitting flusher or adder has yet to see to it |
| `PeriodicalExecution.QuiescentMeansExecuted` | core/executors/periodicalexecutor.go:67-202 | when all goroutines rest, exactly the added tasks were executed and nothing is left anywhere |
| `ExecutorProgress.NeverStuck` | core/executors/periodicalexecutor.go:67-202 | while some goroutine is neither finished nor an idle flusher, one can take a step that is not an idle tick and leaves less to do: no deadlock on lock, commander or confirm channel |
| `ExecutorProgress.ComesToRest` | core/executors/periodicalexecutor.go:67-202 | from every state that satisfies the invariant, steps of the goroutines present lead to rest |
| `ExecutorProgress.RestIsReachable` | core/executors/periodicalexecutor.go:67-202 | every run has a continuation without new callers in which all goroutines finish and exactly the added tasks have been executed |
| `SafeMaps.SafeMap.Set` | core/collection/safemap.go:91-108 | updates the abstract map, keeps the generations disjoint |
| `SafeMaps.SafeMap.Get` | core/collection/safemap.go:60-70 | looks up the abstract map |
| `SafeMaps.SafeMap.Del` | core/collection/safemap.go:30-57 | removes the key from the abstract map, with both migrations |
| `SafeMaps.SafeMap.DropOld` | core/collection/safemap.go:41-49 | the first migration keeps the abstract map |
| `SafeMaps.SafeMap.DropNew` | core/collection/safemap.go:50-56 | the second migration keeps the abstract map |
| `SafeMaps.SafeMap.Size` | core/collection/safemap.go:111-116 | the size of the abstract map |
| `TimerModel.PositionIsExact` | core/collection/timingwheel.go:182-188 | the slot and circle computed for a delay are exactly that many ticks away |
| `TimerModel.MoveRemaining` | core/collection/timingwheel.go:196-227 | a moved timer is due on the requested tick, plus or minus one revolution in exactly two cases |
| `TimerModel.MoveIsExactIff` | core/collection/timingwheel.go:210-226 | a move is exact if and only if neither case applies |
| `TimerModel.MoveCanBeLate` | core/collection/timingwheel.go:211-213 | a concrete move that fires a revolution late |
| `TimerModel.MoveCanBeEarly` | core/collection/timingwheel.go:214-217 | a concrete move that fires a revolution early |
| `TimerModel.TickCountsDown` | core/collection/timingwheel.go:283-315 | a tick brings a timer one step closer, and it fires exactly when one step is left |
| `TimerModel.UntouchedTimerFiresOnce` | core/collection/timingwheel.go:229-318 | left alone, a timer fires exactly once, on its tick, whatever happens to other timers |
| `TimerModel.SetTimerFiresOnRequestedTick` | core/collection/timingwheel.go:320-335 | a fresh timer of s steps fires exactly once, on the s-th tick |
| `TimerModel.MovedTimerFiresOnce` | core/collection/timingwheel.go:196-227 | a moved timer fires exactly once, on the requested tick corrected by the two cases |
| `TimerModel.ResetTimerFiresOnce` | core/collection/timingwheel.go:325-328 | setting an existing timer moves it and fires the new value once |
| `TimerModel.RemovedTimerStaysSilent` | core/collection/timingwheel.go:235-244 | a removed timer does not fire |
| `WheelLayout.RelocateSound` | core/collection/timingwheel.go:294-304 | relocating an entry keeps the bijection of index and live entries and puts the timer into the given slot |
| `WheelLayout.SupersedeRepresents` | core/collection/timingwheel.go:218-226 | a tombstone with a new entry represents the moved timer |
| `WheelLayout.InsertRepresents` | core/collection/timingwheel.go:329-334 | a new entry represents the new timer |
| `WheelLayout.KillRepresents` | core/collection/timingwheel.go:241-243 | a tombstone without index record represents the removal |
| `WheelLayout.MidScanRelocates` | core/collection/timingwheel.go:294-304 | a scan step that relocates never targets the slot being scanned, and keeps scanned and unscanned timers right |
| `WheelLayout.MidScanFires` | core/collection/timingwheel.go:307-314 | a scan step that fires keeps scanned and unscanned timers right |
| `WheelLayout.MidScanEnds` | core/collection/timingwheel.go:280-318 | at the end of the scan the structure represents the wheel one tick later |
| `WheelLayout.DrainSoundIff` | core/collection/timingwheel.go:165-180 | draining keeps the structure sound exactly when no timer was live |
| `TimingWheels.TimingWheel.SetTask` | core/collection/timingwheel.go:320-335 | does on the heap what the model's set does, rounding short delays up; an absent key is then due on the last tick not later than the delay |
| `TimingWheels.TimingWheel.MoveTask` | core/collection/timingwheel.go:196-227 | does what the model's move does, so the timer is due on the last tick not later than the delay, up to the two corrections; a delay below one interval runs the task and leaves the timer set |
| `TimingWheels.TimingWheel.StepsIn` | core/collection/timingwheel.go:183-183 | the tick number for a delay is the last one not later than it, and one for a delay below one interval |
| `TimingWheels.TimingWheel.SetFiresWithinDelay` | core/collection/timingwheel.go:320-335 | a timer set for an absent key fires exactly once, on the last tick not later than its delay |
| `TimingWheels.TimingWheel.RemoveTask` | core/collection/timingwheel.go:235-244 | does what the model's removal does |
| `TimingWheels.TimingWheel.SetTimerPosition` | core/collection/timingwheel.go:337-348 | points the index at the entry and slot, creating the record if needed |
| `TimingWheels.TimingWheel.ScanAndRunTasks` | core/collection/timingwheel.go:280-318 | the scan terminates, runs exactly the due timers once each, and leaves the others counted down |
| `TimingWheels.TimingWheel.OnTick` | core/collection/timingwheel.go:229-233 | one tick runs exactly the timers the model fires, each once and with its value, and ends in the model's next state |
| `HashRing.ItoaDenotes` | core/hash/consistenthash.go:80-80 | the decimal digits appended to a node's text denote the number of the replica |
| `HashRing.PointOfLabel` | core/hash/consistenthash.go:80-80 | replica i is placed at the hash of the node's text followed by digits that denote i |
| `HashRing.PointsDistinct` | core/hash/consistenthash.go:79-83 | under a hash without collisions the replicas of a node have points of their own |
| `HashRing.PointsCounted` | core/hash/consistenthash.go:79-83 | and there are as many points as replicas, with one replica each |
| `HashRing.SuccessorUnique` | core/hash/consistenthash.go:108-111 | the clockwise successor is unique |
| `HashRing.RemovalDisturbsFew` | core/hash/consistenthash.go:127-165 | removing a node leaves every key alone whose point did not list it, under any collisions |
| `HashRing.RemovalMovesOnlyOwned` | core/hash/consistenthash.go:127-165 | without a collision at its point, a key moves only if the removed node owned it |
| `HashRing.AdditionDisturbsFew` | core/hash/consistenthash.go:67-88 | adding a node moves keys only to points that list it, and without collision only to it |
| `HashRing.LookupSurvivesRemoval` | core/hash/consistenthash.go:100-165 | on a ring without collisions, a lookup that did not end at the removed node ends where it did |
| `HashRing.LookupMovesToAdded` | core/hash/consistenthash.go:67-124 | on a ring without collisions, a lookup ends where it did or at the added node |
| `ConsistentHashing.Search` | core/hash/consistenthash.go:109-111 | binary search returns the first key not below the hash |
| `ConsistentHashing.SearchFindsSuccessor` | core/hash/consistenthash.go:109-113 | the search, wrapped around, lands on the clockwise successor |
| `ConsistentHashing.RemoveKey` | core/hash/consistenthash.go:139-144 | takes exactly one copy of the hash out of the sorted keys, if there is one |
| `ConsistentHashing.RemoveRingNode` | core/hash/consistenthash.go:151-165 | filters one node out of one point's list and drops an empty point |
| `ConsistentHashing.RemoveBalancedIff` | core/hash/consistenthash.go:137-146 | after removing a node the multiplicity of each key equals the length of its list, if and only if the hashes of its unplaced replicas miss the other nodes |
| `ConsistentHashing.FirstNodeIsSpread` | core/hash/consistenthash.go:79-83 | under a hash without collisions a node added to an empty ring has exactly one point per replica, each listing it once |
| `ConsistentHashing.ConsistentHash.Remove` | core/hash/consistenthash.go:127-149 | keys sorted, the node gone from every list, others untouched; agreement of keys and lists kept exactly under that condition, always with full replicas |
| `ConsistentHashing.ConsistentHash.AddWithReplicas` | core/hash/consistenthash.go:67-88 | each point lists the node once per replica hashing there, after the former entries are gone; on an empty ring without collisions one point per replica; agreement as for removal |
| `ConsistentHashing.ConsistentHash.Add` | core/hash/consistenthash.go:60-62 | full replicas keep full agreement, whatever collides; each point lists the node once per replica hashing there, after the former entries are gone |
| `ConsistentHashing.ConsistentHash.AddWithWeight` | core/hash/consistenthash.go:92-97 | the number of replicas placed is the given percentage of all, rounded down; lists and agreement as for replicas |
| `ConsistentHashing.ConsistentHash.Get` | core/hash/consistenthash.go:100-124 | divides by zero exactly when points are left without keys; otherwise serves a node listed at the first key clockwise, which on a ring in agreement is the clockwise-first point and always has one |
| `ConsistentHashing.GetAroundRemove` | core/hash/consistenthash.go:100-149 | removing a node from a ring without collisions changes no lookup that did not end at it |
| `ConsistentHashing.GetAroundAdd` | core/hash/consistenthash.go:60-124 | adding an absent node, with no collisions afterwards, changes lookups only to that node |
| `ConsistentHashing.WeightedPairPanics` | core/hash/consistenthash.go:67-149 | adding two colliding one-replica nodes and removing one leads to the division by zero |
| `ConsistentHashing.WeightedRemovalCanPanic` | core/hash/consistenthash.go:137-146 | two colliding one-replica nodes: removing one leaves a listed node and no keys |
| `ConsistentHashing.CollidingPairIsValid` | core/hash/consistenthash.go:67-88 | that pair is a state in which keys and lists agree |
| `Routes.MatchesStep` | core/search/tree.go:93-130 | matching a path decomposes segment by segment, with the trailing-slash rule |
| `Routes.SegmentsSpell` | core/search/tree.go:99-105 | a path is its segments joined by slashes, and no segment contains one |
| `Routes.SegmentsUnique` | core/search/tree.go:99-105 | and it is split in no other way |
| `Routes.ParseRouteSpells` | core/search/tree.go:152-198 | a pattern is refused exactly for a leading or double slash; otherwise its tokens joined spell it, up to one final slash, and no token contains a slash |
| `Routes.LiteralComesFirst` | core/search/tree.go:132-142 | a matching route without parameters comes before every other matching route |
| `Routes.BindIsLeftmost` | core/search/tree.go:110-112 | a parameter name is bound to the segment at its leftmost place in the route |
| `Routes.BindOnlyNames` | core/search/tree.go:200-206 | nothing else is bound |
| `SearchTrees.BestViaChild` | core/search/tree.go:104-115 | the best route below a child is the best of those through that child |
| `SearchTrees.NoneViaChild` | core/search/tree.go:104-115 | a child that does not match or has nothing below it rules out all routes through it |
| `SearchTrees.Tree.AddAt` | core/search/tree.go:152-198 | the recursive insertion puts the parsed route into the table or leaves the table alone |
| `SearchTrees.Tree.Add` | core/search/tree.go:62-80 | exact error conditions; success extends the routing table by the route, and a failed call changes no search result |
| `SearchTrees.Tree.TryEach` | core/search/tree.go:132-142 | trying all children of one kind, in any order, finds a route through one of them or rules all out |
| `SearchTrees.Tree.Next` | core/search/tree.go:93-130 | the backtracking search below a node finds a best matching route with its item and parameters, or there is none |
| `SearchTrees.Tree.Search` | core/search/tree.go:83-91 | succeeds exactly if an added route matches; the route found is first in literal-before-parameter order and its named segments are bound |
| `SearchTrees.AddThenSearch` | core/search/tree.go:62-91 | after a successful addition of a pattern without parameters, searching its text finds that item and binds nothing, whatever else is in the tree |
| `SearchTrees.ParamBindsSegment` | core/search/tree.go:110-124 | a parameter pattern finds its item for any one segment and binds its name to it |
| `StableRunners.StepKeepsInv` | core/threading/stablerunner.go:57-105 | every step of pusher, getter, waiter and workers keeps the slot, ticket and counter invariants |
| `StableRunners.RunsKeepInv` | core/threading/stablerunner.go:57-105 | they hold in every state of every run |
| `StableRunners.ReceivedIsOldest` | core/threading/stablerunner.go:60-69 | what a slot's channel delivers stems from the oldest push not yet taken, though slots are reused |
| `StableRunners.ResultsInPushOrder` | core/threading/stablerunner.go:57-96 | in every interleaving the k-th successful get returns the handler's result for the k-th push, also after gets that failed |
| `StableRunners.PushIsNumberedInTurn` | core/threading/stablerunner.go:79-95 | an accepted push takes the next number for its own value; after closing a push changes nothing |
| `StableRunners.PushWaitsForRingAhead` | core/threading/stablerunner.go:84-92 | a push waits for its slot only while a message at least a whole ring ahead is being handled |
| `StableRunners.PushWaitsForFullRunner` | core/threading/taskrunner.go:28-34 | and for the task runner only while as many workers are busy as it allows |
| `StableRunners.HandlersLimited` | core/threading/taskrunner.go:28-44 | at most as many handlers run at once as the task runner allows |
| `RunnerProgress.WaitingGetIsServed` | core/threading/stablerunner.go:57-96 | every run in which a get waits for a numbered push has a continuation in which that get receives the handler's result for that push |
| `StableRunners.WaitMeansTaken` | core/threading/stablerunner.go:99-105 | when the wait returns, all pushed messages were taken in order, unless a push was between its test and its numbering when the runner was closed |
| `RunnerWait.LatePushCanBeLeftOver` | core/threading/stablerunner.go:79-105 | from every state with such a push, calling `Wait` can drain everything numbered, return, and leave that message behind |
| `RunnerWait.BetrayedOnlyByLatePush` | core/threading/stablerunner.go:79-105 | a call of `Wait` that returns with a message left over was made while such a push was under way |
| `RunnerWait.WaitIsSafeIff` | core/threading/stablerunner.go:79-105 | in every run, `Wait` is certain to return only after all messages were taken, if and only if no such push is under way at the call |
| `SingleFlights.StepKeepsInv` | core/syncx/singleflight.go:36-81 | every step keeps calls, flights and callers consistent |
| `SingleFlights.RunsKeepInv` | core/syncx/singleflight.go:36-81 | they are consistent in every state of every run |
| `SingleFlights.OneFlightPerKey` | core/syncx/singleflight.go:56-81 | at most one function runs per key |
| `SingleFlights.CallerGetsItsFlight` | core/syncx/singleflight.go:36-70 | a caller returns the completed result of the flight registered when it arrived, or of its own, and only then as fresh |
| `SingleFlights.FlightDeliversWhatItReturned` | core/syncx/singleflight.go:36-81 | in every run, if the function of a flight returned a value and an error, everyone who returns from that flight returns exactly these |
| `SingleFlights.ReturnedAfterTheFunction` | core/syncx/singleflight.go:72-81 | a flight has a result only after its function has returned |
| `SingleFlights.CallerKeepsKey` | core/syncx/singleflight.go:36-70 | a call is for its own key from arrival to return |
| `SingleFlights.WaiterNeverStuck` | core/syncx/singleflight.go:56-81 | a waiting caller or the one it waits for can move |
| `ResourceManagers.MoveKeepsInv` | core/syncx/resourcemanager.go:45-71 | every step inside and outside the function keeps the map, the creations and the delivered results consistent |
| `ResourceManagers.ManagerRunsKeepInv` | core/syncx/resourcemanager.go:45-71 | they are consistent in every state of every run |
| `ResourceManagers.CreatedAtMostOnce` | core/syncx/resourcemanager.go:45-71 | in every interleaving a creation succeeds at most once per key |
| `ResourceManagers.SuccessfulCallsAgree` | core/syncx/resourcemanager.go:45-71 | all successful calls for a key return the one resource created for it |
| `ResourceManagers.CreationIsReturned` | core/syncx/resourcemanager.go:55-70 | everyone who returns from a flight whose creation gave a resource returns it without error; from one whose creation failed, that error and no resource |
| `ResourceManagers.FoundIsReturned` | core/syncx/resourcemanager.go:48-53 | everyone who returns from a flight that found a resource returns it without error |
| `RollingWindows.ClearedShifts` | core/collection/rollingwindow.go:98-104 | clearing the expired slots shifts the ring by that many intervals, new ones empty, also when the gap exceeds the ring |
| `RollingWindows.AdvanceKeeps` | core/collection/rollingwindow.go:92-108 | advancing keeps each bucket equal to the log of its interval when the clock readings are in step |
| `RollingWindows.AdvanceKeepsIff` | core/collection/rollingwindow.go:92-108 | two clock readings are harmless for every log if and only if they lie in the same interval, the first is in the old one, or the whole ring expires |
| `RollingWindows.DriftMisreads` | core/collection/rollingwindow.go:93-107 | otherwise a log with one event is attributed to a later interval |
| `RollingWindows.AddKeeps` | core/collection/rollingwindow.go:57-62 | adding to the ring is adding to the log |
| `RollingWindows.VisitedIsLog` | core/collection/rollingwindow.go:65-81 | on a faithful ring the buckets visited are, in order, what the log says about the intervals of the window up to the last one used |
| `RollingWindows.HorizonSuffices` | core/collection/rollingwindow.go:69-80 | the buckets passed over are empty, so the fold equals the fold over all intervals of the window |
| `RollingWindows.RollingWindow.UpdateOffset` | core/collection/rollingwindow.go:92-108 | carries out the advance in place |
| `RollingWindows.RollingWindow.Add` | core/collection/rollingwindow.go:57-62 | extends the log and keeps the ring faithful to it unless the readings drift |
| `RollingWindows.RollingWindow.Reduce` | core/collection/rollingwindow.go:65-81 | visits the buckets of the window; on a faithful ring, in chronological order, what the whole log says about the last intervals, without the current one when ignored, after gaps of any length |
| `Breakers.BucketCounts` | core/breaker/bucket.go:17-48 | each bucket counts the outcomes of its interval, and the sum is their total |
| `Breakers.HistoryMeasuresStreaks` | core/breaker/googlebreaker.go:136-149 | working and failing buckets are the lengths of the unbroken streaks at the recent end |
| `Breakers.StreaksExclude` | core/breaker/googlebreaker.go:139-148 | they are never both positive and never exceed the window |
| `Breakers.HistoryCounts` | core/breaker/googlebreaker.go:133-152 | accepts and total count the log's successes and events of the last 40 intervals |
| `Breakers.WeightInRange` | core/breaker/googlebreaker.go:56-57 | the weight stays between 1.1 and 1.5, so the lower bound never bites |
| `Breakers.DropsIffRefuses` | core/breaker/googlebreaker.go:53-80 | the decision in whole numbers: with S = 100 (total - 5) - (150 - failing) accepts, a request is refused exactly when S > 0, no forced pass is due and 4000 (total + 1) draw < (40 - working) S |
| `Breakers.RatioRegion` | core/breaker/googlebreaker.go:56-63 | the ratio is below one, and positive exactly when failures and drops exceed the protection and the weighted successes |
| `Breakers.DropPossibleIff` | core/breaker/googlebreaker.go:60-79 | some draw is refused if and only if the ratio is positive, no forced pass is due and the window is not one working streak |
| `Breakers.DropSeesTrouble` | core/breaker/googlebreaker.go:53-80 | every refusal sees failures and drops exceed 5 plus a tenth of the successes in the window |
| `Breakers.SoundTally` | core/breaker/googlebreaker.go:133-152 | on any ring, total is accepts plus the failures and drops of the buckets visited |
| `Breakers.MarkedBuckets` | core/breaker/bucket.go:17-48 | a mark keeps every bucket's sum equal to its three counters, whatever the two clock readings, and touches one bucket beside resetting expired ones |
| `Breakers.DropSeesTroubledRing` | core/breaker/googlebreaker.go:53-80 | on any ring, every refusal sees failures and drops exceed 5 plus a tenth of the successes in the buckets it looks at |
| `Breakers.NoFailureNoDrop` | core/breaker/googlebreaker.go:53-131 | in every interleaving of decisions and marks, with both clock readings of each mark in step or not, a run without failures decides and marks no drop |
| `Breakers.GoogleBreaker.History` | core/breaker/googlebreaker.go:133-152 | the fold over the ring, which on a faithful ring is the history of the whole log |
| `Breakers.GoogleBreaker.Accept` | core/breaker/googlebreaker.go:53-80 | refuses exactly by that whole-number rule on the counts of the ring, records passes, refuses only in trouble (on a faithful ring, trouble in the log), and lets a request through when the last one passed more than a second ago |
| `Breakers.GoogleBreaker.Allow` | core/breaker/googlebreaker.go:82-91 | a refusal is marked and logged as a drop, an admission not yet |
| `Breakers.GoogleBreaker.DoReq` | core/breaker/googlebreaker.go:93-119 | every request is marked and logged exactly once under its true outcome, a panic as a failure; refusals go to the fallback |
| `CachedStores.ScheduleHasFive` | core/stores/cache/cleaner.go:82-95 | the retry delays form a schedule of exactly five |
| `CachedStores.ShrinkKeeps` | core/stores/cache/cachenode.go:258-276 | losing entries makes nothing stale |
| `CachedStores.FillKeeps` | core/stores/cache/cachenode.go:222-235 | caching what the database says makes nothing stale, and the new entry is not excused |
| `CachedStores.ChangeKeeps` | core/stores/sqlc/cachedsql.go:103-111 | a database change is safe once each changed key is gone or its present entry awaits a clean task |
| `CachedStores.CleanedKeeps` | core/stores/cache/cleaner.go:58-64 | a clean task that succeeded is no longer needed |
| `CachedStores.RetriedKeeps` | core/stores/cache/cleaner.go:66-73 | a clean task that is tried again still watches the entries that were there when it was made |
| `CachedStores.GivenUpKeeps` | core/stores/cache/cleaner.go:73-79 | a clean task that is given up excuses exactly the entries that were there at all its attempts |
| `CachedStores.CachedConn.DoGetCache` | core/stores/cache/cachenode.go:187-206 | an error, a miss, or what the cache says; undecodable text is dropped; a hit is counted exactly when text is there and Redis answers, a miss otherwise |
| `CachedStores.CachedConn.QueryRow` | core/stores/cache/cachenode.go:208-256 | the answer is the database's, or a failure, or stale, and then that very entry was there when a pending clean task was made or outlived all five attempts of one; a miss fills the cache; without failures always the database's; a database failure is counted exactly when the query was asked and failed |
| `CachedStores.CachedConn.Del` | core/stores/cache/cachenode.go:70-89 | afterwards each key is gone or its entry awaits a clean task, on a cluster and off it |
| `CachedStores.CachedConn.Exec` | core/stores/sqlc/cachedsql.go:103-111 | applies the change and keeps every stale entry covered; a failed exec changes nothing |
| `CachedStores.CachedConn.Clean` | core/stores/cache/cleaner.go:58-80 | a task is done, waits for its next delay, or is given up exactly after the fifth failure; only entries that were there all along are then excused |
| `TopTasks.RanksDescend` | core/stat/topk.go:31-45 | a rank determines its duration, and lower ranks are longer |
| `TopTasks.LeastOfTop` | core/stat/metrics.go:138-141 | the smallest of the k largest is the k-th largest |
| `TopTasks.TopOfTop` | core/stat/metrics.go:143-156 | the k' largest of the k largest are the k' largest of all |
| `TopTasks.RootIsLeast` | core/stat/topk.go:36-41 | the root of the heap is its smallest element |
| `TopTasks.TaskHeap.Push` | core/stat/topk.go:19-21 | the heap with the new element added |
| `TopTasks.TaskHeap.Pop` | core/stat/topk.go:23-29 | the heap without its smallest element, which is returned |
| `TopTasks.TopK` | core/stat/topk.go:31-45 | the k largest durations, nothing left out longer than anything kept, the smallest first |
| `Metrics.PercentilesAscend` | core/stat/metrics.go:134-178 | true percentiles are ordered: median, 90th, 99th, 99.9th |
| `Metrics.TopHasSameLongest` | core/stat/metrics.go:158-171 | the longest of the k largest is the longest of all, so fallbacks are exact too |
| `Metrics.MedianRank` | core/stat/metrics.go:137-137 | the rank of the median is the largest that leaves at most half of the tasks at or above it, and one for fewer than two tasks |
| `Metrics.Rank90` | core/stat/metrics.go:142-142 | likewise for a tenth of the tasks |
| `Metrics.Rank99` | core/stat/metrics.go:147-147 | likewise for a hundredth |
| `Metrics.Rank99p9` | core/stat/metrics.go:152-152 | likewise for a thousandth |
| `Metrics.KeptAreNotDrops` | core/stat/metrics.go:107-115 | exactly the tasks that are not drops are kept |
| `Metrics.GetTopDuration` | core/stat/metrics.go:198-205 | the longest duration, or zero for no task |
| `Metrics.Execute` | core/stat/metrics.go:120-181 | every percentile reported is the k-th longest of all tasks at its rank, at least the first, and they ascend; average, rate and drops |
| `Metrics.MetricsContainer.AddTask` | core/stat/metrics.go:107-118 | drops are counted and other tasks kept with their total duration |
| `Metrics.MetricsContainer.RemoveAll` | core/stat/metrics.go:183-196 | hands over exactly what was added since the last call |

## Left out

- WordMatching and its clients: decoding of UTF-8 into runes; texts and words are sequences of characters.
- SearchTrees.Tree.Search: the position of a slash is found by character, where the source scans bytes; the child order within one kind is arbitrary, as in the source.
- PeriodicalExecution: `Wait` as a barrier and the `wgBarrier` around the wait group, since confirmations are not tied to an adder; `Sync`, the shutdown listener, and the concrete containers (bulk, chunk, delay and less executors), which would only add easy members.
- SafeMaps.SafeMap: `Range`, and the lock around each operation.
- TimingWheels.TimingWheel: the channels and goroutine that feed the operations one at a time, argument checks, `Stop`, and the execution of due tasks; keys and values are `int`.
- TimingWheels.TimingWheel.MoveTask: a task that a short delay runs at once stays in the wheel, as in the source.
- WheelLayout.DrainSoundIff: `Drain` is covered only by this condition, because it empties the slots but not the index.
- ConsistentHashing.ConsistentHash: the lock around each operation, the hash function itself and `lang.Repr`; a hash is any function into the naturals.
- StableRunners: panicking handlers, several pushers or getters (the source forbids the latter), and `ScheduleImmediately`.
- RunnerProgress.WaitingGetIsServed: says that some schedule serves the get, not that every fair one does.
- ExecutorProgress.RestIsReachable: says that some schedule leads to rest, not that every fair one does.
- SingleFlights and ResourceManagers: panicking functions, `Inject` and `Close`.
- RollingWindows.RollingWindow: the lock, a callback of `Reduce` that changes the bucket it is given (buckets are values in the array here, not pointers), and a clock that runs backwards.
- Breakers.GoogleBreaker: rounding of floats, and the logging wrapper around the breaker.
- CachedStores.CachedConn: concurrent queries and execs (and so the shared flight inside `doTake`), lengths of expiry, `QueryRowIndex`, direct `SetCache`, a closed timing wheel, and clash of random clean-task names.
- CachedStores.CachedConn.Exec: an exec that changes rows whose keys it does not name.
- Metrics.Execute: rounding to 32-bit floats, and writing or logging the report.
- HTTP, gRPC, gateway, Redis, SQL, Mongo and etcd clients, logging, tracing, configuration, reflection-based mapping, service discovery and code generation are not modelled.
