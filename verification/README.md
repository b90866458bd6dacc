# Verified core of the AggroAppV3 libraries

The app itself is views and calls to a database service. What carries the weight is in the libraries
it ships with, and this project models six of them in Dafny and proves what they are for:

- **LevelDB's database iterator** (`DbFormat`, `DbIter`): a two-way iterator over a log of versioned
  entries shows, after any sequence of calls, what a cursor over the ordered map at the snapshot
  would show.
- **libuv's thread pool** (`ThreadPool*`, `RingQueue`, `RingSpace`, `QueueLayout`, `ListSteps`,
  `ListRefinement`): a state machine whose steps are the critical sections of workers, submitters and
  loop threads, with invariants and theorems over every interleaving. A signal may wake any number of
  sleepers but at least one, and sleepers may wake spuriously. `ThreadPoolCode` executes the critical
  sections on linked lists, with the tests on self-linked nodes that the protocol rests on, and
  `ThreadPoolRun` follows every run of the state machine with it. `ThreadPoolService` says what callers
  get: which item a worker takes, what a cancellation achieves, that every request completes.
- **libuv's pointer heap and timers** (`TimerHeap`, `TimerLoop`): the heap is three pointers a node,
  rearranged in place and tied to a ghost level-order sequence.
- **nanopb** (`Nanopb*`): the wire format, descriptions and message values, encoding and decoding as
  functions, round trip and forward compatibility, what decoding yields on any bytes (`NanopbFits`), what
  an encoding is to other readers (`NanopbRaw`), messages in parts (`NanopbMerge`); then streams, field
  iterator, required-field bitmap and the two-pass encoder as classes whose methods compute those
  functions.
- **Punycode and host names** (`Utf8`, `Punycode`, `Idna`): RFC 3492 over unbounded integers with its
  round trip, and the 32-bit encoder that writes it into a bounded buffer; labels and a host name whose
  encodings are known (`PunycodeSamples`, `IdnaSamples`).
- **IP addresses as text** (`Inet4`, `Inet6`, `Inet6Parser`, `Inet6Grammar`, `Inet6Code`,
  `InetForm`): printers and parsers, with the texts that the parsers accept given by their grammar and
  the form of what is printed.

`dafny verify dfyconfig.toml` checks everything.

Where the code does not do what its comments or its purpose promise, the model follows the code, and
there is an input that shows it and the exact condition under which the promise holds:

- The comment on the reverse direction of the database iterator (`db_iter.cc`, lines 44-45) says that
  the internal iterator stands just before all entries of the current key. Entries too new for the
  snapshot may lie in between: `NotJustBeforeTwo`, `JustBefore`; `DBIter.ReverseAt` is what holds.
- The assertion in `FindShortestSeparator` (`dbformat.cc`, line 83) fails with a user comparator that
  does what `comparator.h` asks of it, for two versions of one key: `VersionsAreNotSafe`, `SafePairs`.
- A host name with an ASCII label that begins with xn-- does not decode to itself: `FalsePrefixIsLost`,
  `HostRoundTrip`.
- The 32-bit reader of varints, meant to take sign extensions of negative numbers, takes others too:
  `LooseExtension`, `Varint32IsExact`.
- The reader of UTF-8 accepts some bytes that are not UTF-8: `LettersPass`, `DecodeIsExact`.

Products and quotients in `Punycode` are counted out (`Rounds`, `Advance`) to keep proofs linear;
`RoundsMultiply` and `AdvanceDivides` say that they are `*`, `/` and `%`, which the methods of `Idna`
use.

## Model

| member | source | states |
|---|---|---|
| `DbFormat.ParseUndoesAppend` | AggroAppV3/Pods/leveldb-library/db/dbformat.h:165-175 | parsing an internal key that was just appended gives back its user key, sequence and type, for every sequence up to 2^56-1 and both types |
| `DbFormat.AppendUndoesParse` | AggroAppV3/Pods/leveldb-library/db/dbformat.cc:14-23 | every byte string that parses is the serialisation of what it parses to, so the encoding is one-to-one |
| `DbFormat.InternalKeyBytes` | AggroAppV3/Pods/leveldb-library/db/dbformat.cc:14-23 | the bytes of an internal key: the user key, a byte that is 1 for a value and 0 for a deletion, and the sequence number in seven bytes, the low-order one first |
| `DbFormat.InternalCompareOrder` | AggroAppV3/Pods/leveldb-library/db/dbformat.cc:51-67 | the comparator is negative exactly when the key comes first by user key ascending, then sequence descending, then type descending; zero only for identical positions; antisymmetric |
| `DbFormat.InternalCompareTransitive` | AggroAppV3/Pods/leveldb-library/db/dbformat.cc:51-67 | with a total user order the internal order is transitive |
| `DbFormat.FindShortestSeparator` | AggroAppV3/Pods/leveldb-library/db/dbformat.cc:69-86 | with a total user order and a user separator that does what comparator.h promises, a changed `start` becomes shorter, comes later and is the earliest internal key of its user key; the result lies in [start, limit) in the internal order if and only if the user keys are strictly ordered or the user separator does not shorten |
| `DbFormat.SafePairs` | AggroAppV3/Pods/leveldb-library/db/dbformat.cc:69-86 | exactly which pairs are safe with every user comparator that keeps its promise: those with user keys in strict order, and those whose start has no shorter key above it |
| `DbFormat.VersionsAreNotSafe` | AggroAppV3/Pods/leveldb-library/db/dbformat.cc:76-84 | two versions of the user key [1, 0], in order, for which a separator that keeps its promise makes the result pass the limit, against the assertion in the code |
| `DbFormat.EarliestIsFirst` | AggroAppV3/Pods/leveldb-library/db/dbformat.cc:78-81 | no version of a user key comes before the key that the separators append the greatest sequence number to |
| `DbFormat.FindShortSuccessor` | AggroAppV3/Pods/leveldb-library/db/dbformat.cc:88-101 | the key is changed exactly if the user successor is shorter and later, and then to the earliest key of that, which is shorter and strictly after it |
| `DbFormat.BytewiseIsTotalOrder` | AggroAppV3/Pods/leveldb-library/util/comparator.cc:25-27 | the built-in comparator is a total order |
| `DbFormat.BytewiseIsLexicographic` | AggroAppV3/Pods/leveldb-library/util/comparator.cc:25-27 | and it is the lexicographic one: the first difference decides, and a prefix comes first |
| `DbFormat.BytewiseIsSeparator` | AggroAppV3/Pods/leveldb-library/util/comparator.cc:29-50 | for every start and limit the built-in comparator's separator lies in [start, limit), and is start if that is not below limit, which is more than a comparator must promise |
| `DbFormat.BytewiseSeparates` | AggroAppV3/Pods/leveldb-library/db/dbformat.cc:69-86 | so with the built-in comparator the internal separator lies in [start, limit) for every pair of internal keys, or is start |
| `DbFormat.BytewiseSeparatorIs` | AggroAppV3/Pods/leveldb-library/util/comparator.cc:29-50 | given the first difference, the separator in closed form: that byte raised by one where it stays below the limit's, otherwise the start |
| `DbFormat.BytewiseFindShortestSeparator` | AggroAppV3/Pods/leveldb-library/util/comparator.cc:29-50 | the loop over the common prefix computes that separator |
| `DbFormat.BytewiseIsSuccessor` | AggroAppV3/Pods/leveldb-library/util/comparator.cc:52-64 | the built-in short successor is never below its key |
| `DbFormat.BytewiseSuccessorIs` | AggroAppV3/Pods/leveldb-library/util/comparator.cc:52-64 | given the first byte that is not 0xff, the successor in closed form |
| `DbFormat.BytewiseFindShortSuccessor` | AggroAppV3/Pods/leveldb-library/util/comparator.cc:52-64 | the loop over the bytes computes that successor |
| `SnapshotView.CursorRunDeterministic` | AggroAppV3/Pods/leveldb-library/db/db_iter.cc:39-46 | the reference cursor over the ordered map leaves no choice: two runs of the same calls show the same trace |
| `SnapshotView.UserValueIs` | AggroAppV3/Pods/leveldb-library/db/db_iter.cc:174-191 | the reference map in terms of parsed keys: under a key is the value with the greatest sequence number up to the snapshot's, and nothing if that is a deletion or there is none |
| `SnapshotView.LiveHoldsUserValue` | AggroAppV3/Pods/leveldb-library/db/db_iter.cc:174-191 | a live log entry is the newest entry of its key visible at the snapshot and not a deletion, so its value is the user's value |
| `SnapshotView.UserValueIsLive` | AggroAppV3/Pods/leveldb-library/db/db_iter.cc:174-191 | every key with a value in the map has a live log entry |
| `DbIter.DBIter.FindNextUserEntry` | AggroAppV3/Pods/leveldb-library/db/db_iter.cc:168-198 | from a position and a key to skip, stops at the first live entry after it, or becomes invalid when there is none |
| `DbIter.DBIter.FindPrevUserEntry` | AggroAppV3/Pods/leveldb-library/db/db_iter.cc:227-267 | establishes the reverse invariant: saved key and value are those of a live entry, every entry between the internal position and it is invisible, and no live entry was passed over |
| `DbIter.DBIter.Next` | AggroAppV3/Pods/leveldb-library/db/db_iter.cc:141-166 | from either direction, moves to the least key above the current one in the map at the snapshot |
| `DbIter.DBIter.Prev` | AggroAppV3/Pods/leveldb-library/db/db_iter.cc:200-225 | from either direction, moves to the greatest key below the current one |
| `DbIter.DBIter.Seek` | AggroAppV3/Pods/leveldb-library/db/db_iter.cc:269-281 | moves to the least key at or above the target |
| `DbIter.DBIter.SeekToFirst` | AggroAppV3/Pods/leveldb-library/db/db_iter.cc:283-292 | moves to the least key |
| `DbIter.DBIter.SeekToLast` | AggroAppV3/Pods/leveldb-library/db/db_iter.cc:294-299 | moves to the greatest key |
| `DbIter.JustBefore` | AggroAppV3/Pods/leveldb-library/db/db_iter.cc:44-45 | the documented reverse position, just before all entries of the current key, is met if and only if there is no entry in front of them or that entry is visible at the snapshot |
| `DbIter.NotJustBefore` | AggroAppV3/Pods/leveldb-library/db/db_iter.cc:294-299 | for any two keys in order, the first with a version too new for the snapshot: moving to the last key leaves the internal iterator off the documented position |
| `DbIter.NotJustBeforeTwo` | AggroAppV3/Pods/leveldb-library/db/db_iter.cc:44-45 | the same for version 5 of key 1 and version 1 of key 2 at snapshot 3 |
| `DbIter.Run` | AggroAppV3/Pods/leveldb-library/db/db_iter.cc:141-299 | refinement over whole runs: for every sorted log, snapshot and list of calls, with any changes of direction, valid/key/value after each call are those of the cursor over the ordered map |
| `RingQueue.InsertTail` | AggroAppV3/Pods/Libuv-gRPC/src/queue.h:92-99 | appends to the sequence that the ring represents |
| `RingQueue.InsertHead` | AggroAppV3/Pods/Libuv-gRPC/src/queue.h:83-90 | puts an element in front |
| `RingQueue.Remove` | AggroAppV3/Pods/Libuv-gRPC/src/queue.h:101-106 | deletes exactly one element and leaves the ring well formed |
| `RingQueue.Split` | AggroAppV3/Pods/Libuv-gRPC/src/queue.h:61-70 | cuts the sequence in two at an element, in order |
| `RingQueue.Move` | AggroAppV3/Pods/Libuv-gRPC/src/queue.h:72-81 | hands over the whole sequence in order and leaves the source empty |
| `RingQueue.Add` | AggroAppV3/Pods/Libuv-gRPC/src/queue.h:52-59 | appends the other ring's sequence |
| `RingSpace.InsertTail` | AggroAppV3/Pods/Libuv-gRPC/src/queue.h:92-99 | among any number of lists that share no link, appending a free link to one leaves all of them well formed and the others as they were |
| `RingSpace.Remove` | AggroAppV3/Pods/Libuv-gRPC/src/queue.h:101-106 | unlinking an element leaves all lists well formed, and the element in none of them |
| `RingSpace.Move` | AggroAppV3/Pods/Libuv-gRPC/src/queue.h:72-81 | one list is handed over to a new head, the others stay |
| `RingSpace.QueueEmpty` | AggroAppV3/Pods/Libuv-gRPC/src/queue.h:40-41 | applied to a link that is in some list or alone, the test for emptiness says whether it is alone |
| `ThreadPoolCode.SharedState.WorkSubmit` | AggroAppV3/Pods/Libuv-gRPC/src/threadpool.c:142-160 | `post` on linked lists: the new link is in the list it belongs to and the marker is linked exactly if it was alone; all lists stay well formed |
| `ListRefinement.MarkerAlone` | AggroAppV3/Pods/Libuv-gRPC/src/threadpool.c:143-154 | the marker's link points to itself exactly when it is not in the work queue, so the test in `post` is the test of the state machine |
| `ThreadPoolCode.SharedState.WorkerLoop` | AggroAppV3/Pods/Libuv-gRPC/src/threadpool.c:66-119 | the worker's loop with its `continue` branches, `QUEUE_REMOVE`, `QUEUE_INIT` and the tests on links, computes the recursive turn on lists |
| `ThreadPoolCode.SharedState.WorkCancel` | AggroAppV3/Pods/Libuv-gRPC/src/threadpool.c:269-283 | the link leaves whatever list holds it exactly when it is not alone and the work is not done; otherwise nothing changes |
| `ListRefinement.AloneMeansRunning` | AggroAppV3/Pods/Libuv-gRPC/src/threadpool.c:269-277 | for every request that may be cancelled, its link points to itself exactly when the request is in no queue, that is, when a worker runs it |
| `ThreadPoolCode.SharedState.WorkDone` | AggroAppV3/Pods/Libuv-gRPC/src/threadpool.c:302-305 | the loop's list is handed over whole to the local one |
| `ThreadPoolCode.SharedState.NextDone` | AggroAppV3/Pods/Libuv-gRPC/src/threadpool.c:307-314 | the first link of the local list is taken out and its callback gets UV_ECANCELED exactly for a cancelled request; any step of other threads or of the callback may come before the next |
| `ListRefinement.StepShows` | AggroAppV3/Pods/Libuv-gRPC/src/threadpool.c:57-315 | the code on linked lists refines the state machine: each critical section takes lists that show a state to lists that show the state after the step |
| `ListRefinement.StepReady` | AggroAppV3/Pods/Libuv-gRPC/src/threadpool.c:57-315 | and in every such state the links are where the section expects them: what is inserted is in no list, what is tested is alone or in a list |
| `ThreadPoolRun.TakeStep` | AggroAppV3/Pods/Libuv-gRPC/src/threadpool.c:57-315 | whatever step is possible, the code executes it on the links, and they show the new state |
| `ThreadPoolRun.Follow` | AggroAppV3/Pods/Libuv-gRPC/src/threadpool.c:57-315 | the code follows every interleaving: after any run of the state machine its lists show the last state, so all theorems about reachable states hold of the links |
| `ThreadPoolScheduling.SchedulingStep` | AggroAppV3/Pods/Libuv-gRPC/src/threadpool.c:71-160 | counters, queue order and no-lost-wakeup are kept by every step of every thread |
| `ThreadPoolPlaces.PlacesStep` | AggroAppV3/Pods/Libuv-gRPC/src/threadpool.c:57-160 | every step keeps each request in one place, with fields that fit the place |
| `ThreadPoolTheorems.EveryReachableState` | AggroAppV3/Pods/Libuv-gRPC/src/threadpool.c:57-160 | all invariants hold in every state of every interleaving |
| `ThreadPoolTheorems.ExactlyOnePlace` | AggroAppV3/Pods/Libuv-gRPC/src/threadpool.c:87-128 | in every reachable state each request is in exactly one of: work queue, slow queue, a worker, cancellation, loop queue, drained queue, done |
| `ThreadPoolTheorems.HistoryIsTrue` | AggroAppV3/Pods/Libuv-gRPC/src/threadpool.c:121-129 | the run and call counters kept with a request are what the history of steps says |
| `ThreadPoolTheorems.AtMostOnce` | AggroAppV3/Pods/Libuv-gRPC/src/threadpool.c:295-315 | over any run, work runs at most once, `done` is called at most once, with UV_ECANCELED only if the work never ran and with 0 only if it ran |
| `ThreadPoolTheorems.NeverRunsCancelled` | AggroAppV3/Pods/Libuv-gRPC/src/threadpool.c:49-51 | no worker ever calls the aborting function of a cancelled request |
| `ThreadPoolTheorems.SlowWorkIsCapped` | AggroAppV3/Pods/Libuv-gRPC/src/threadpool.c:45-47 | `slow_io_work_running` is the number of workers on slow items and at most (nthreads+1)/2; the marker is queued at most once, and whenever slow work is pending |
| `ThreadPoolService.TurnTakes` | AggroAppV3/Pods/Libuv-gRPC/src/threadpool.c:71-117 | what a worker has after its turn, from any reachable state: the first pending slow item if the marker comes first and fewer than (nthreads+1)/2 of the other workers are at slow work; else the first item that is not the marker; else it sleeps |
| `ThreadPoolService.SlowWorkStarts` | AggroAppV3/Pods/Libuv-gRPC/src/threadpool.c:94-109 | slow work starts as long as there is room for it, so the cap is reached and not only kept |
| `ThreadPoolService.SleepsIffIdle` | AggroAppV3/Pods/Libuv-gRPC/src/threadpool.c:71-78 | a worker goes to sleep if and only if there is no request, no exit message and no slow work that may start |
| `ThreadPoolService.CancelSucceeds` | AggroAppV3/Pods/Libuv-gRPC/src/threadpool.c:269-283 | a cancellation takes hold of a request if and only if that waits for a worker or has been cancelled before; a request that runs or has run is left as it is |
| `ThreadPoolService.EveryRequestCompletes` | AggroAppV3/Pods/Libuv-gRPC/src/threadpool.c:57-315 | no request is ever stuck: from every state that can be reached before the exit message, workers and loops alone get to call every callback, each once |
| `ThreadPoolTheorems.StartsInSubmissionOrder` | AggroAppV3/Pods/Libuv-gRPC/src/threadpool.c:80-109 | fast items and slow items each start in submission order |
| `ThreadPoolTheorems.AllAsleepMeansNoWork` | AggroAppV3/Pods/Libuv-gRPC/src/threadpool.c:71-78 | if every worker sleeps unsignalled, both queues are empty |
| `ThreadPoolTheorems.ExitProgresses` | AggroAppV3/Pods/Libuv-gRPC/src/threadpool.c:80-85 | once the exit message is queued it stays, and each worker step uses up some of a finite amount of work that no other thread can add to |
| `ThreadPoolTheorems.ShutdownIsBounded` | AggroAppV3/Pods/Libuv-gRPC/src/threadpool.c:164-174 | after the exit message the workers take boundedly many steps, whatever other threads do |
| `ThreadPoolTheorems.ExitLeavesNobodyBehind` | AggroAppV3/Pods/Libuv-gRPC/src/threadpool.c:80-85 | no wakeup is lost: with the exit message queued, all workers have exited or some worker can take a step of its own, which waking up unsignalled is not |
| `ThreadPoolTheorems.ExitReachesEveryWorker` | AggroAppV3/Pods/Libuv-gRPC/src/threadpool.c:164-174 | a run that has come, after the exit message, to a state where no worker can take a step of its own has seen all workers exit, after boundedly many worker steps |
| `ThreadPoolTheorems.WorkersShutDown` | AggroAppV3/Pods/Libuv-gRPC/src/threadpool.c:164-178 | from every reachable state with the exit message queued the workers alone can bring all of them to exit, within the bound, so that `cleanup` can join them |
| `HeapOrder.PathTo` | AggroAppV3/Pods/Libuv-gRPC/src/heap-inl.h:119-124 | the bits computed from n describe the way from the root to level-order position n, for every n |
| `HeapOrder.RootIsLeast` | AggroAppV3/Pods/Libuv-gRPC/src/heap-inl.h:33-35 | in an ordered heap no key is less than the root's |
| `PointerHeap.Heap.Walk` | AggroAppV3/Pods/Libuv-gRPC/src/heap-inl.h:126-136 | following the path through the pointers arrives at the slot of that position and its parent's slot |
| `PointerHeap.Heap.NodeSwap` | AggroAppV3/Pods/Libuv-gRPC/src/heap-inl.h:71-104 | the in-place exchange of parent and child leaves all left/right/parent pointers consistent, with the two nodes exchanged in level order and nothing else moved |
| `PointerHeap.Heap.Insert` | AggroAppV3/Pods/Libuv-gRPC/src/heap-inl.h:106-148 | keeps a complete tree of consistent pointers in heap order; the nodes are the old ones and the new one |
| `PointerHeap.Heap.Remove` | AggroAppV3/Pods/Libuv-gRPC/src/heap-inl.h:150-237 | the same for removing any member: exactly that node is gone; an empty heap stays as it is |
| `PointerHeap.Heap.Dequeue` | AggroAppV3/Pods/Libuv-gRPC/src/heap-inl.h:239-241 | removes the root |
| `PointerHeap.Heap.MinIsLeast` | AggroAppV3/Pods/Libuv-gRPC/src/heap-inl.h:67-69 | the root is least by (timeout, start id) among all members |
| `TimerLoop.Deadline` | AggroAppV3/Pods/Libuv-gRPC/src/timer.c:78-80 | the wrapped sum and its test compute the sum over the unbounded integers, or 2^64-1 where that is too large |
| `TimerLoop.Loop.TimerStart` | AggroAppV3/Pods/Libuv-gRPC/src/timer.c:66-94 | all fields and the heap after a start or a refused start, with the deadline as time + timeout cut at 2^64-1; heap membership equals the active flag |
| `TimerLoop.Loop.TimerStop` | AggroAppV3/Pods/Libuv-gRPC/src/timer.c:97-107 | takes the timer out of heap and clears the flag, and changes no other timer |
| `TimerLoop.Loop.TimerAgain` | AggroAppV3/Pods/Libuv-gRPC/src/timer.c:110-120 | restarts a repeating timer, due at time + repeat cut at 2^64-1, refuses one without callback, stops one that is closing |
| `TimerLoop.Loop.NextTimeout` | AggroAppV3/Pods/Libuv-gRPC/src/timer.c:133-151 | -1 exactly without timers, 0 exactly when one is due, otherwise never beyond the earliest deadline and exactly it below INT_MAX |
| `TimerLoop.Loop.RunTimers` | AggroAppV3/Pods/Libuv-gRPC/src/timer.c:154-171 | whatever the callbacks do: each callback called is that of the active timer that is first by (timeout, start id) at that moment, which is due; the order of keys is strictly increasing; every timer due on entry fires with its key unless a callback starts, restarts, stops or closes it; none due is left at the end; with callbacks that arm nothing due the loop ends within as many calls as timers were due |
| `TimerLoop.FiresOrStays` | AggroAppV3/Pods/Libuv-gRPC/src/timer.c:158-170 | an active timer that no callback touches either fires with the key it has or is as it was |
| `TimerLoop.FiresAgain` | AggroAppV3/Pods/Libuv-gRPC/src/timer.c:167-169 | in any such run, a timer that repeats and that its callback leaves alone is due one interval after the time at which it fired, and one that does not repeat is over |
| `TimerLoop.FiresInOrder` | AggroAppV3/Pods/Libuv-gRPC/src/timer.c:38-56 | of two timers that fire, the one with the earlier deadline fires first, and of two with the same deadline the one started first |
| `TimerLoop.ExactlyTheDue` | AggroAppV3/Pods/Libuv-gRPC/src/timer.c:158-170 | from these: if no callback starts or stops anything, the timers that fire are exactly those due on entry, each once and with its key |
| `TimerLoop.Loop.RunIdle` | AggroAppV3/Pods/Libuv-gRPC/src/timer.c:154-171 | the loop with callbacks that do nothing: the fired timers are the set that was due, each once |
| `NanopbWire.OrOfDisjoint` | AggroAppV3/Pods/nanopb/pb_decode.c:233 | bitwise or of numbers without common bits is their sum |
| `NanopbWire.VarintRoundTrip` | AggroAppV3/Pods/nanopb/pb_decode.c:255-275 | every 64-bit value is read back from its varint, which takes at most ten bytes, and the bytes behind are left |
| `NanopbRaw.VarintBytes` | AggroAppV3/Pods/nanopb/pb_encode.c:608-628 | each byte of a varint as a number: seven bits, low-order first, the top bit set on all but the last, and no more bytes than needed |
| `NanopbWire.Varint32RoundTrip` | AggroAppV3/Pods/nanopb/pb_decode.c:187-247 | every 32-bit value is read back by the 32-bit reader |
| `NanopbVarint32.Varint32IsExact` | AggroAppV3/Pods/nanopb/pb_decode.c:187-247 | the 32-bit reader on the varint of every 64-bit number: one below 2^32 is read, any other is refused unless it has the bits 31 and 63 and all ones or all zeros in each group of seven between bits 35 and 62, and then its low 32 bits are read |
| `NanopbVarint32.LooseExtension` | AggroAppV3/Pods/nanopb/pb_decode.c:221-229 | so 2^63 + 2^31, which is the sign extension of no 32-bit integer, is read as 2^31 |
| `NanopbWire.TagRoundTrip` | AggroAppV3/Pods/nanopb/pb_decode.c:298-319 | field number and wire type are read back from an encoded tag |
| `NanopbRoundTrip.MessageEncodes` | AggroAppV3/Pods/nanopb/pb_encode.c:341-426 | every message that fits its description has an encoding |
| `NanopbRoundTrip.RoundTrip` | AggroAppV3/Pods/nanopb/pb_decode.c:928-1090 | for every static description with distinct legal tags and every fitting message, nested to any depth, decoding the encoding gives the message, with defaults for absent optionals and unused union members |
| `NanopbRaw.TaggedBytes` | AggroAppV3/Pods/nanopb/pb_encode.c:669-913 | what each type of value is written as, in numbers: the tag is the varint of eight times the field number plus 0, 1, 2 or 5, behind it a varint, eight or four bytes, or a length and that many bytes |
| `NanopbRaw.EncodedForm` | AggroAppV3/Pods/nanopb/pb_encode.c:675-707 | whatever is encoded, a reader without the description finds in it one field after the other to the last byte, each with a number of the description and with the wire type and length of its type |
| `NanopbRaw.EncodedIsIgnored` | AggroAppV3/Pods/nanopb/pb_decode.c:321-331 | a decoder with a description that knows none of the numbers skips every encoded message and changes nothing |
| `NanopbRaw.NothingLeftOut` | AggroAppV3/Pods/nanopb/pb_encode.c:240-336 | a field without presence flag is written if and only if it is not zero, false or empty |
| `NanopbFits.DecodeFits` | AggroAppV3/Pods/nanopb/pb_decode.c:1078-1090 | for every byte string: whatever decoding returns fits its description, with integers in the range of their size, strings and byte arrays inside their storage, arrays no longer than they can be, and no two members of a union in use, at every depth |
| `NanopbFits.MemberSelected` | AggroAppV3/Pods/nanopb/pb_decode.c:466-478 | after a round that read a union member, exactly this member of its union is in use |
| `NanopbFits.RequiredIsThere` | AggroAppV3/Pods/nanopb/pb_decode.c:1033-1073 | a message is refused unless the decoder comes to each of its first 64 required fields |
| `NanopbFits.FixedCountGoesOn` | AggroAppV3/Pods/nanopb/pb_decode.c:979-1031 | a message is refused if a fixed-count array that is not full does not go on |
| `NanopbFits.ZeroEnds` | AggroAppV3/Pods/nanopb/pb_decode.c:298-319 | a zero byte in the place of a tag ends the message, whatever follows |
| `NanopbFits.BytesAccepted` | AggroAppV3/Pods/nanopb/pb_decode.c:1441-1564 | a byte array or string is taken if and only if it fits with its header or end mark |
| `NanopbFits.IntegerAccepted` | AggroAppV3/Pods/nanopb/pb_decode.c:1339-1422 | an integer is taken if and only if it is in the range of its size |
| `NanopbFits.IntegerValue` | AggroAppV3/Pods/nanopb/pb_decode.c:1339-1422 | and which integer that is: congruent to the varint modulo 2^32 or 2^64, equal to it, or what zigzag stands for |
| `NanopbMerge.Concatenated` | AggroAppV3/Pods/nanopb/pb_decode.c:928-1013 | a message in two parts decodes as the second part onto the result of the first, for descriptions without fixed-count arrays |
| `NanopbMerge.SubmessagesMerge` | AggroAppV3/Pods/nanopb/pb_decode.c:1519-1541 | a submessage that comes in two parts is the submessage of both parts in one |
| `NanopbCompat.UnknownIsSkipped` | AggroAppV3/Pods/nanopb/pb_decode.c:321-331 | a complete field with an unknown tag is consumed exactly and leaves the decoder's state alone |
| `NanopbCompat.UnknownFieldIgnored` | AggroAppV3/Pods/nanopb/pb_decode.c:946-1013 | inserting such a field after any number of fields, even in the middle of a fixed-count array, never changes the result of decoding, be it success or failure |
| `NanopbCompat.StepLocal` | AggroAppV3/Pods/nanopb/pb_decode.c:946-1013 | a round of the decoding loop consumes a prefix and reads the same whatever follows it |
| `NanopbEncode.FillVarint` | AggroAppV3/Pods/nanopb/pb_encode.c:608-628 | the loop through the ten-byte buffer produces the base-128 varint and never leaves the buffer |
| `NanopbEncode.OStream.Write` | AggroAppV3/Pods/nanopb/pb_encode.c:103-124 | appends the bytes if they fit, touches nothing outside the stream's room, and only counts on a sizing stream |
| `NanopbEncode.OStream.EncodeSVarint` | AggroAppV3/Pods/nanopb/pb_encode.c:630-639 | the 64-bit shift and complement compute the zigzag code |
| `NanopbEncode.OStream.PackedSize` | AggroAppV3/Pods/nanopb/pb_encode.c:169-189 | the size computed for a packed array, by multiplication or by a sizing stream, is the size of its items |
| `NanopbEncode.OStream.EncodeArray` | AggroAppV3/Pods/nanopb/pb_encode.c:147-236 | writes the array's encoding, packed or tagged, exactly when there is room for all of it |
| `NanopbEncode.OStream.EncodeField` | AggroAppV3/Pods/nanopb/pb_encode.c:341-426 | writes what the field's presence calls for |
| `NanopbEncode.OStream.EncodeSubmessage` | AggroAppV3/Pods/nanopb/pb_encode.c:717-765 | writes length and body exactly when both fit; the branch for a changed size is never taken |
| `NanopbEncode.OStream.Encode` | AggroAppV3/Pods/nanopb/pb_encode.c:528-550 | on any stream, succeeds exactly when the message has an encoding and room for it, and then appends exactly that |
| `NanopbEncode.GetEncodedSize` | AggroAppV3/Pods/nanopb/pb_encode.c:567-576 | the size computed is the length of the encoding; fails exactly when there is none |
| `NanopbEncode.EncodeToBuffer` | AggroAppV3/Pods/nanopb/pb_encode.c:567-576 | sizing and writing agree: the write succeeds exactly when the computed size fits the buffer, and leaves exactly that many bytes |
| `NanopbIter.FieldIter.Next` | AggroAppV3/Pods/nanopb/pb_common.c:20-76 | advances or wraps to the first field, with the count of required fields before the position kept right |
| `NanopbIter.FieldIter.Find` | AggroAppV3/Pods/nanopb/pb_common.c:78-95 | finds the field with the tag from any position; when there is none the iterator is back where it was |
| `NanopbIter.SeenFields.Mark` | AggroAppV3/Pods/nanopb/pb_decode.c:1015-1020 | setting a bit adds exactly one field number to the set the two words stand for |
| `NanopbIter.SeenFields.AllSeen` | AggroAppV3/Pods/nanopb/pb_decode.c:1051-1073 | the word and remainder comparisons pass exactly when all the first `count` numbers are in the set |
| `NanopbIter.CountRequired` | AggroAppV3/Pods/nanopb/pb_decode.c:1035-1049 | running the iterator to the end counts the required fields, from wherever it stopped |
| `NanopbIter.CheckRequired` | AggroAppV3/Pods/nanopb/pb_decode.c:1033-1073 | the check passes exactly when each of the first 64 required fields was seen |
| `NanopbInput.IStream.DecodeVarint32` | AggroAppV3/Pods/nanopb/pb_decode.c:187-247 | the loop computes the 32-bit reader, including its eight-bit bit counter and sign extension |
| `NanopbInput.IStream.DecodeVarint` | AggroAppV3/Pods/nanopb/pb_decode.c:255-275 | the loop reads up to ten bytes modulo 2^64 |
| `NanopbInput.IStream.SkipField` | AggroAppV3/Pods/nanopb/pb_decode.c:278-331 | skips exactly one value of the wire type |
| `NanopbInput.IStream.MakeSubstream` | AggroAppV3/Pods/nanopb/pb_decode.c:372-385 | the substream holds exactly the announced bytes and the parent's count goes down by them |
| `NanopbInput.IStream.CloseSubstream` | AggroAppV3/Pods/nanopb/pb_decode.c:387-400 | the parent continues right behind the substream, whatever was left unread in it |
| `NanopbInput.IStream.DecodeStatic` | AggroAppV3/Pods/nanopb/pb_decode.c:406-483 | stores the value as the field's presence demands and leaves the stream right behind it |
| `NanopbInput.IStream.DecodeNoinit` | AggroAppV3/Pods/nanopb/pb_decode.c:928-1076 | the decoding loop with iterator, bitmap and substreams computes the message decoder, ends on every byte string and stays inside the stream |
| `NanopbInput.IStream.DecodeDelimited` | AggroAppV3/Pods/nanopb/pb_decode.c:1107-1120 | on success the stream is left exactly past the length prefix and that many bytes |
| `NanopbEndToEnd.WriteAndRead` | AggroAppV3/Pods/nanopb/pb_encode.c:528-576 | size, write into a buffer of that size, read: always succeeds and gives the message back |
| `Utf8.DecodeUndoesEncode` | AggroAppV3/Pods/Libuv-gRPC/src/idna.c:88-97 | every scalar value is read back from its UTF-8 bytes, whatever follows |
| `Utf8.EncodedSamples` | AggroAppV3/Pods/Libuv-gRPC/src/idna.c:24-86 | the encoding that is meant, on examples of section 7 of RFC 3629 |
| `Utf8.DecodeIsExact` | AggroAppV3/Pods/Libuv-gRPC/src/idna.c:24-86 | for all bytes: what is returned is a scalar value, never a surrogate or above U+10FFFF, and the bytes read are its one encoding if and only if those behind the lead byte are continuation bytes, since the code tests them only together |
| `Utf8.LettersPass` | AggroAppV3/Pods/Libuv-gRPC/src/idna.c:68-69 | the bytes E1 41 42, which are not UTF-8, are read as U+1042 |
| `Utf8.TextRoundTrip` | AggroAppV3/Pods/Libuv-gRPC/src/idna.c:99-100 | iterating over well-formed text yields its code points |
| `Punycode.ReadUndoesDigits` | AggroAppV3/Pods/Libuv-gRPC/src/idna.c:192-218 | the variable-length integer, for any bias, is read back by section 6.2 of RFC 3492 |
| `Punycode.DeltasApply` | AggroAppV3/Pods/Libuv-gRPC/src/idna.c:166-243 | the deltas of all passes, applied as insertions, rebuild the label from its basic code points |
| `Punycode.DecodeUndoesCoded` | AggroAppV3/Pods/Libuv-gRPC/src/idna.c:192-238 | reading the digits recovers the deltas for any bias adaptation that both sides share |
| `Punycode.RoundTrip` | AggroAppV3/Pods/Libuv-gRPC/src/idna.c:133-246 | for every label the section 6.2 decoder applied to the section 6.3 encoding returns the code points |
| `PunycodeSamples.OneDelta` | AggroAppV3/Pods/Libuv-gRPC/src/idna.c:166-189 | the delta of a code point that occurs once: the code points skipped times the places for each, and the places in front of it |
| `PunycodeSamples.AdaptIs` | AggroAppV3/Pods/Libuv-gRPC/src/idna.c:220-236 | the bias adaptation of section 6.1 with its quotients written out, up to two divisions by 35 |
| `PunycodeSamples.TwoUmlauts` | AggroAppV3/Pods/Libuv-gRPC/src/idna.c:161-245 | the letters U+00E4 U+00F6 are written as 4ca0b, which takes the first and the later adaptation |
| `PunycodeSamples.Groesse` | AggroAppV3/Pods/Libuv-gRPC/src/idna.c:133-245 | the word for size in German is written as gre-6ka8i |
| `PunycodeSamples.Nihongo` | AggroAppV3/Pods/Libuv-gRPC/src/idna.c:161-245 | U+65E5 U+672C U+8A9E is written as wgv71a119e, whose second adaptation divides by 35 |
| `Punycode.AdvanceDivides` | AggroAppV3/Pods/Libuv-gRPC/src/idna.c:208-211 | counting rounds is division with remainder |
| `Punycode.DecodeShortens` | AggroAppV3/Pods/Libuv-gRPC/src/idna.c:133-146 | decoding never lengthens a text, so a text that begins with xn-- is never the decoding of itself |
| `Idna.PutInteger` | AggroAppV3/Pods/Libuv-gRPC/src/idna.c:192-218 | the digit loop writes the variable-length integer |
| `Idna.NextBias` | AggroAppV3/Pods/Libuv-gRPC/src/idna.c:220-236 | halving, damping and the reduction loop compute the bias adaptation of section 6.1 |
| `Idna.FindLeast` | AggroAppV3/Pods/Libuv-gRPC/src/idna.c:167-172 | the least code point not yet handled |
| `Idna.OverflowTest` | AggroAppV3/Pods/Libuv-gRPC/src/idna.c:174-178 | the guard by division holds exactly when delta + x*y exceeds 32 bits |
| `Idna.EncodePass` | AggroAppV3/Pods/Libuv-gRPC/src/idna.c:183-239 | one pass writes exactly the deltas of its code point, or fails exactly because one of them does not fit |
| `Idna.EncodeRest` | AggroAppV3/Pods/Libuv-gRPC/src/idna.c:161-245 | the passes end because `todo` is the number of code points from n on; they succeed exactly when every delta fits into 32 bits, and then the text is the RFC encoding, without wrap-around |
| `Idna.ToAsciiLabel` | AggroAppV3/Pods/Libuv-gRPC/src/idna.c:102-246 | return code and output for every label: EINVAL for undecodable text, E2BIG exactly on overflow, otherwise the label or xn-- and its encoding, cut only by the size of the buffer |
| `Idna.LabelRoundTrip` | AggroAppV3/Pods/Libuv-gRPC/src/idna.c:133-146 | the text behind xn-- decodes to the label |
| `Idna.LabelDecodes` | AggroAppV3/Pods/Libuv-gRPC/src/idna.c:133-146 | the text of a label decodes to the label if and only if it is not an ASCII label that begins with xn-- |
| `Idna.ToAscii` | AggroAppV3/Pods/Libuv-gRPC/src/idna.c:250-291 | all labels, split at the four kinds of full stop and joined by ASCII ones; the number of characters stored is returned |
| `Idna.HostRoundTrip` | AggroAppV3/Pods/Libuv-gRPC/src/idna.c:250-291 | splitting the result at full stops and decoding each label gives the labels of the host name if and only if no ASCII label among them begins with xn-- |
| `Idna.FalsePrefixIsLost` | AggroAppV3/Pods/Libuv-gRPC/src/idna.c:133-146 | the host name xn-- passes through unchanged and decodes to the empty label |
| `IdnaSamples.LabelsJoin` | AggroAppV3/Pods/Libuv-gRPC/src/idna.c:262-283 | each of U+002E, U+3002, U+FF0E and U+FF61 ends a label, and becomes an ASCII full stop |
| `IdnaSamples.HostSample` | AggroAppV3/Pods/Libuv-gRPC/src/idna.c:250-291 | a host name of two labels with an ideographic full stop becomes xn--gre-6ka8i.de |
| `IdnaSamples.DeltasFit` | AggroAppV3/Pods/Libuv-gRPC/src/idna.c:174-178 | deltas fit up to 2^32-1 |
| `Inet4.Ntop4` | AggroAppV3/Pods/Libuv-gRPC/src/inet.c:53-64 | prints the address, or fails exactly when text and end mark do not fit |
| `InetForm.OctetIs` | AggroAppV3/Pods/Libuv-gRPC/src/inet.c:53-64 | each byte is printed as a decimal number without leading zeros |
| `Inet4.ParsedIsPrinted` | AggroAppV3/Pods/Libuv-gRPC/src/inet.c:179-215 | whatever the parser accepts is the printed form of its result |
| `Inet4.PrintedParses` | AggroAppV3/Pods/Libuv-gRPC/src/inet.c:179-215 | every printed form is accepted and gives the address |
| `Inet4.Pton4` | AggroAppV3/Pods/Libuv-gRPC/src/inet.c:179-215 | the loop over the four-byte buffer accepts exactly the printer's strings |
| `Inet6.FillWords` | AggroAppV3/Pods/Libuv-gRPC/src/inet.c:85-87 | the loop over the bytes assembles the eight groups |
| `Inet6.FindRun` | AggroAppV3/Pods/Libuv-gRPC/src/inet.c:88-111 | the leftmost longest run of at least two zero groups, or none if there is no such run |
| `Inet6.Format` | AggroAppV3/Pods/Libuv-gRPC/src/inet.c:113-143 | the formatting loop prints the groups before the run, a double colon and what follows, or an embedded IPv4 address |
| `Inet6.TextFits` | AggroAppV3/Pods/Libuv-gRPC/src/inet.c:75 | the text always fits the 46 characters of the buffer |
| `Inet6.Ntop6` | AggroAppV3/Pods/Libuv-gRPC/src/inet.c:67-147 | which run is compressed, what is printed, and when UV_ENOSPC is returned |
| `InetForm.HexIs` | AggroAppV3/Pods/Libuv-gRPC/src/inet.c:113-143 | each group is printed as a lower-case hexadecimal number without leading zeros |
| `InetForm.DottedIff` | AggroAppV3/Pods/Libuv-gRPC/src/inet.c:127-137 | an IPv4 address is printed inside exactly if the groups are those of an IPv4-mapped address, or of an IPv4-compatible one whose first half is not zero |
| `Inet6Code.Shift` | AggroAppV3/Pods/Libuv-gRPC/src/inet.c:282-297 | the in-place shift is a move to the end and a fill with zeros |
| `Inet6Grammar.ParsesExactly` | AggroAppV3/Pods/Libuv-gRPC/src/inet.c:218-302 | a text is accepted with an address if and only if it is of a form of section 2.2 of RFC 4291 that denotes this address: groups of one to four hexadecimal digits, one double colon for at least one group of zeros, an IPv4 address for the last two groups |
| `Inet6Code.Pton6` | AggroAppV3/Pods/Libuv-gRPC/src/inet.c:218-302 | the loop over the sixteen-byte buffer accepts exactly these texts and stores the address they denote |
| `Inet6Parser.RoundTrip` | AggroAppV3/Pods/Libuv-gRPC/src/inet.c:218-302 | for every address and any run of zero groups left out, reading the text gives the address |
| `Inet6Code.PrintAndParse` | AggroAppV3/Pods/Libuv-gRPC/src/inet.c:67-147 | printing and reading through the methods is the identity on all 128-bit addresses |

## Left out

- DbIter.Run: the internal iterator is a position in a sorted list of well-formed entries; read sampling, buffer capacities and corrupt internal keys are not modelled.
- DbFormat.FindShortestSeparator: the user comparator is a function on byte strings; only the bytewise one is modelled in full.
- TimerLoop.Loop.TimerStart: the start counter is unbounded, so its wrap-around after 2^64 starts is not modelled.
- TimerLoop.Loop.RunTimers: what callbacks do is given beforehand as a finite script of timer operations.
- PointerHeap.Heap.Insert: the element counter is unbounded and the order is that of timers.
- ThreadPoolRun.Follow: the steps of the threads are executed one after the other; that a mutex makes a critical section one step is taken for granted.
- ThreadPoolTheorems.EveryReachableState: starts after `init_threads`; thread creation, fork handling and the environment are not modelled, and work functions neither submit nor cancel from inside a worker step.
- NanopbEncode.OStream.Encode: sizes are unbounded except where they are cast to 64 bits on the wire, so encodings of 2^64 bytes or more are not described; a message in memory is a value of the shape of its description.
- NanopbInput.IStream.DecodeNoinit: what a failed decoding leaves in the destination is not described; the storage of fixed-count arrays starts with defaults; the build has 32-bit field sizes, 64-bit integers and packed arrays.
- NanopbRoundTrip.RoundTrip: encodings of 2^32 bytes or more, which the length reader cannot take, are not covered.
- NanopbMerge.Concatenated: leaves out descriptions with fixed-count arrays, of which the decoder only takes one part.
- NanopbCompat.UnknownFieldIgnored: an unknown field with number zero inside a message type without fields is excluded, since the end mark of the description answers to it there.
- Idna.ToAscii: takes the host name as code points with the greatest integer for undecodable text; `Utf8` covers the bytes, for text whose last code point is complete.
- Inet6Code.Pton6: zone indices after a percent sign are not modelled.
- nanopb callbacks, extensions, pointer fields and memory offsets; handles other than timers; the other files of LevelDB: foreign functions, allocation and file access.
- SnapKit, the view controllers and services of the app: calls into frameworks with little logic of their own.
