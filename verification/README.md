# Coroutine machines, schedulers and blocking protocols, verified

The repository is a collection of C++20 demonstrations. This project models the small
hand-written machines in it whose behaviour over unbounded runs is not obvious from reading
them, and proves what each of them is meant to do. Code that updates objects is modelled by
classes and methods with loops; threads are modelled by state machines whose steps are the
atomic operations of the source; what a machine should do is stated by functions on values
that know nothing of frames, handles or queues.

| File | What it models |
|---|---|
| `AwaitTree.dfy` | Programs made of prints and `co_await` calls, and ordinary recursion on them; the shipped `fun1`, `fun2`, `fun3` |
| `CoroutineFrame.dfy` | A coroutine frame as a heap object and the language rules for resuming it: sections 9.5.4 [dcl.fct.def.coroutine], 7.6.2.3 [expr.await] and 6.7.7 [class.temporary] of ISO/IEC 14882:2020 |
| `Recursion.dfy` | The machine of `coroutines/recursion`, which walks from caller to callee |
| `Crsm.dfy` | The machine of `coroutines/crsm` and of `coroutines/utils/awaitable_coroutines`, with continuations and symmetric transfer |
| `AsyncProgram.dfy`, `AsyncStack.dfy` | `coroutines/nested`: a direct-style evaluator, and the doubly linked async stack with its scheduler |
| `StreamParser.dfy` | `coroutines/datastream_parser`: the byte-stuffing frame parser |
| `MonitorQueue.dfy` | `concurrency/threadSafeQueue.cpp`: the monitor queue that notifies after unlocking |
| `PingPong.dfy` | The semaphore and the atomic-flag ping-pong, which reach the same states |
| `FetchMult.dfy` | `concurrency/atomics/fetch_mult.cpp`: the compare-exchange loop |
| `RoundRobin.dfy` | The loop-enqueueing and the self-enqueueing first-in-first-out schedulers |
| `PriorityScheduling.dfy` | The stack, priority and aging schedulers |
| `FixedPriorities.dfy` | The priority scheduler under any comparator and any choice among equals |
| `TimedTasks.dfy` | The scheduler ordered by deadlines |
| `Primes.dfy` | The prime generator on 64-bit numbers |
| `Interleaver.dfy` | The interleaving generator and its iterator |
| `Common.dfy`, `Tally.dfy` | Optional values, sequences and counts used by several files |

How the source's notions appear:

- A coroutine body is a finite value: the rest of what it does. Its program counter and locals
  are that value. In `coroutines/nested` what follows an await is a function of the value
  awaited (`AsyncProgram.Kont`).
- Where the source destroys frames (the call stacks, `coroutines/nested` and the schedulers),
  `destroy()` requires a frame that is not destroyed, and so does, as a precondition or an
  assertion, every method that resumes, links, walks or reads a frame through a handle. That
  these verify is the proof that no handle dangles where it is used. The `assert`s of the source
  are preconditions or assertions too. Generators live as long as the object that owns them.
- A coroutine that suspends through a function call returns control to its resumer; one that
  returns a handle from `await_suspend` passes control to it. Loops over `control` or `next`
  stand for this symmetric transfer.
- Frames that exist at the same time have different addresses, here their `id`.
- Printed lines are kept in a sequence. The clock only goes forward, by any amount. Threads
  are interleaved in any order, and condition variables may wake spuriously.
- Two pieces of the code do less than one may expect, and the statements below are about the
  code. The parser swallows the first byte of the stream and the byte behind each completed
  frame, so two frames sent back to back lose the second (`RoundTripIff`,
  `BackToBackLosesTheSecond`). `isPrime(1)` answers true; the generator asks for it when its
  64-bit counter has wrapped, and then yields 1 and starts over (`IsPrime`, `YieldsForEver`).

## Model

| member | source | states |
|---|---|---|
| AwaitTree.FramesAreAwaitsPlusOne | coroutines/recursion/main.cpp:80-104 | A call tree has one activation per await and the root, for every program. |
| AwaitTree.BurstThenStop | coroutines/recursion/main.cpp:45-48 | What a body prints up to its next suspension point, followed by what is left there, is all it prints; suspending loses no call. |
| AwaitTree.StepConserves | coroutines/recursion/main.cpp:42-50 | Resuming the innermost activation prints a first part of what recursion still has to print, uses exactly one of the resumptions due, and makes a call exactly when one fewer is left to make. |
| AwaitTree.Fun3Frames | coroutines/recursion/main.cpp:98-104 | fun3(n) has ceil(max(n,0)/2) + 1 activations. |
| AwaitTree.Fun3Resumptions | coroutines/recursion/main.cpp:98-111 | fun3(n) needs 2*ceil(max(n,0)/2) + 1 calls of nextStep. |
| AwaitTree.Fun1Of10Resumptions | coroutines/recursion/main.cpp:80-111 | The shipped fun1(10) needs 33 calls of nextStep. |
| AwaitTree.Fun3Prints | coroutines/recursion/main.cpp:98-104 | fun3(n) prints, with m = ceil(max(n,0)/2), "State 3" of n - 2k as line k for k up to m, and then m + 1 END lines, for every n. |
| AwaitTree.Fun1Of10Prints | coroutines/recursion/main.cpp:80-111 | The 36 lines of the shipped fun1(10), in order. |
| AwaitTree.State1Of10Prints | coroutines/crsm/main.cpp:86-113 | The ten lines of the shipped state1(10), in order. |
| CoroutineFrame.Frame.Resume | coroutines/recursion/main.cpp:28-32 | A resumption destroys the awaited temporary it wakes from, exactly once, prints up to the next suspension point, and stops either done or with a new suspended child. |
| CoroutineFrame.Frame.Destroy | coroutines/recursion/main.cpp:28-32 | A suspended frame, done or not, is destroyed, and only if it still exists. |
| CoroutineFrame.Activations.Resume | coroutines/recursion/main.cpp:48 | Resuming the innermost frame keeps the frames that exist one chain from the root, each awaiting the next, and acts on the stack of their bodies as one step of recursion. |
| CoroutineFrame.Activations.AllEnded | coroutines/recursion/main.cpp:28-32 | Nothing is left to run exactly when the root is done, and then the root is the only frame not destroyed. |
| CoroutineFrame.Activations.DepthsDiffer | coroutines/recursion/main.cpp:22-23 | No two of the frames that exist are at the same depth of the call stack. |
| CoroutineFrame.Activations.Drop | coroutines/recursion/main.cpp:28-32 | Dropping a machine before, between or after its resumptions destroys every frame not yet destroyed, each once. |
| CoroutineFrame.Activations.DropFrom | coroutines/crsm/main.cpp:49-53 | Destroying a frame destroys exactly the frames from it inwards, the innermost first. |
| Recursion.CoState.constructor | coroutines/recursion/main.cpp:12-14 | A new machine is suspended before its first line with the whole program to run. |
| Recursion.CoState.NextStep | coroutines/recursion/main.cpp:37-51 | One call is one step of recursion on the whole stack, none when the root is done; it says whether anything is left; every frame not done has a null or a live child handle before and after. |
| Recursion.CoState.Walk | coroutines/recursion/main.cpp:42-47 | The walk ends at the innermost coroutine not done and reads no destroyed frame on the way, although child handles are never cleared. |
| Recursion.CoState.ResumeAndLink | coroutines/recursion/main.cpp:48-66 | Storing the child handle on await keeps the invariant of the handles. |
| Recursion.CoState.RunToEnd | coroutines/recursion/main.cpp:106-114 | For every program the loop prints what recursion prints, needs activations + awaits calls, and ends with every child destroyed and one frame created per activation. |
| Recursion.CoState.StepOn | coroutines/recursion/main.cpp:106-114 | One pass of the loop keeps lines printed, resumptions due and frames created in step with recursion, and comes nearer to the end. |
| Recursion.RunFun1Of10 | coroutines/recursion/main.cpp:106-114 | Stepping the shipped program to its end prints those 36 lines, in 33 calls. |
| Crsm.CoState.Transfer | coroutines/crsm/main.cpp:15-30 | At a suspension the handle returned is the innermost coroutine not done: the child after an await, the awaiting coroutine after the end, none after the root; the step is one of recursion. |
| Crsm.CoState.TransferUntilNoop | coroutines/crsm/main.cpp:71-74 | Following the handles ends and prints what recursion prints, for every program. |
| Crsm.CoState.Start | coroutines/crsm/main.cpp:58-65 | One call of start() runs the whole tree to the trace of recursion, returns false, and leaves only the root frame; on a finished machine it does nothing. |
| Crsm.StartState1Of10 | coroutines/crsm/main.cpp:107-113 | One start() of the shipped program prints those ten lines. |
| Crsm.CoState.RunUntilCompletion | coroutines/utils/awaitable_coroutines/main.cpp:130-141 | run_until_completion makes exactly one pass over its loop, or none on a finished task, and the pass prints the trace of recursion. |
| AsyncProgram.NoDataUsed | coroutines/nested/main.cpp:57-90 | A program that finishes without data leaves none. |
| AsyncProgram.PrintAdvances | coroutines/nested/main.cpp:240-271 | Printing one line and going on means what the evaluator says, for all data to come, and is nearer the end. |
| AsyncProgram.CallAdvances | coroutines/nested/main.cpp:159-172 | Passing control to the awaited coroutine, with the caller's rest on the stack, does not change what the whole will do. |
| AsyncProgram.ReturnAdvances | coroutines/nested/main.cpp:122-136 | Passing a returned value to the innermost caller does not change what the whole will do. |
| AsyncProgram.DatumFeeds | coroutines/nested/main.cpp:85-89 | A program that waits for a datum goes on, given one, as its continuation says, under any callers. |
| AsyncProgram.InnerResult | coroutines/nested/main.cpp:240-251 | inner_function(i) waits, and with datum j returns i + j after its two lines. |
| AsyncProgram.ShippedWaits | coroutines/nested/main.cpp:273-284 | Without a datum the shipped program is suspended. |
| AsyncProgram.ShippedResult | coroutines/nested/main.cpp:240-271 | Input i with datum j gives (i+j)*3+3 and the six lines in order. |
| AsyncStack.Promise.SetScheduler | coroutines/nested/main.cpp:47-52 | The scheduler is set in this promise and in all that are linked below it. |
| AsyncStack.Promise.AwaitSuspend | coroutines/nested/main.cpp:159-172 | The two promises are linked both ways, the two asserts holding before. |
| AsyncStack.SpawnedTask.constructor | coroutines/nested/main.cpp:231-234 | spawn_task sets the scheduler of the task, links it below itself and passes control to it. |
| AsyncStack.SpawnedTask.LevelsDiffer | coroutines/nested/main.cpp:35-41 | The frames that exist form a chain: no two of them are at the same depth. |
| AsyncStack.SpawnedTask.Call | coroutines/nested/main.cpp:159-172 | Awaiting a call adds one frame at the inner end of the doubly linked chain, without a scheduler, and runs it. |
| AsyncStack.SpawnedTask.FindScheduler | coroutines/nested/main.cpp:68-75 | The upward search always finds the scheduler of the spawned task. |
| AsyncStack.SpawnedTask.HandUp | coroutines/nested/main.cpp:77-80 | The propagation loop leaves the scheduler in every frame of the chain below spawn_task. |
| AsyncStack.SpawnedTask.Suspend | coroutines/nested/main.cpp:61-84 | GetData parks exactly the innermost coroutine; no handle was parked before, and the whole chain has the scheduler after. |
| AsyncStack.SpawnedTask.AwaitResume | coroutines/nested/main.cpp:173-177 | While callee and caller both exist, the caller is unlinked from the callee and gets the value that was returned. |
| AsyncStack.SpawnedTask.FinalSuspend | coroutines/nested/main.cpp:122-141 | The value is stored once, the assert holding, in a frame that exists, and the coroutine is done. |
| AsyncStack.SpawnedTask.Unwind | coroutines/nested/main.cpp:122-155 | The end of a callee continues its caller with the value, read before the callee's frame is destroyed. |
| AsyncStack.SpawnedTask.Return | coroutines/nested/main.cpp:122-155 | After a return the chain ends at the caller, which runs what its await was followed by, given the value. |
| AsyncStack.SpawnedTask.ReturnFromTask | coroutines/nested/main.cpp:189-203 | When the task ends spawn_task holds its value and is suspended for good; nothing is parked. |
| AsyncStack.SpawnedTask.PrintLine | coroutines/nested/main.cpp:240-271 | A line is added to the output, and the outcome for all data to come stays the same. |
| AsyncStack.SpawnedTask.Act | coroutines/nested/main.cpp:122-177 | Every action of the running coroutine keeps, for all data still to come, the outcome direct-style evaluation gives, and brings the next suspension nearer. |
| AsyncStack.SpawnedTask.RunOn | coroutines/nested/main.cpp:122-177 | Symmetric transfer ends, with either one handle parked or the task complete, and with the outcome unchanged. |
| AsyncStack.SpawnedTask.ResumeWithData | coroutines/nested/main.cpp:26-30 | One datum is consumed as the evaluator consumes it, and again one handle is parked or the task is complete. |
| AsyncStack.SpawnedTask.OneOfTwo | coroutines/nested/main.cpp:20-31 | Exactly one of "root complete" and "one handle parked" holds. |
| AsyncStack.SpawnedTask.Settled | coroutines/nested/main.cpp:219-222 | A complete task has the evaluator's value and trace; a parked one with no data left has its trace. |
| AsyncStack.SpawnedTask.Result | coroutines/nested/main.cpp:217-222 | The assert in result() holds on a complete task, and the value is the stored one. |
| AsyncStack.SpawnedTask.Drop | coroutines/nested/main.cpp:211-215 | Dropping the result of a complete or a parked task destroys every frame that is left, each once; after a parked one the scheduler's handle dangles. |
| AsyncStack.SpawnedTask.DropFrom | coroutines/nested/main.cpp:151-155 | ~Async destroys exactly the frames from this one inwards, the innermost first. |
| AsyncStack.Spawn | coroutines/nested/main.cpp:231-234 | For every program, spawning runs to a wait or to the end, with the outcome of direct-style evaluation for all data. |
| AsyncStack.SpawnAndFeed | coroutines/nested/main.cpp:273-289 | For every program and every list of data, one resumeWithData per datum gives the value, the trace and the unused data of direct-style evaluation, or waits exactly when the evaluator does. |
| AsyncStack.RunOuter | coroutines/nested/main.cpp:273-289 | The machine gives (i+j)*3+3 for the shipped program. |
| StreamParser.Chunks | coroutines/datastream_parser/main.cpp:135-146 | Feeding a stream in two pieces yields the same frames, once each, and the same state as feeding it in one, from every state. |
| StreamParser.BlockIsDelivered | coroutines/datastream_parser/main.cpp:78-110 | From the hunting state every encoded frame is delivered, by its last byte and not before. |
| StreamParser.DeliveredIffHunting | coroutines/datastream_parser/main.cpp:78-110 | An encoded frame is delivered, alone and by its own last byte, if and only if the parser is hunting for ESC when the block begins. |
| StreamParser.RoundTrip | coroutines/datastream_parser/main.cpp:78-125 | Any first byte, any frames of any bytes, one or more bytes between frames, the first of them arbitrary and the others not ESC: exactly those frames are delivered, in order. |
| StreamParser.TrailingSeparator | coroutines/datastream_parser/main.cpp:26-29 | The byte behind the last frame is swallowed without effect. |
| StreamParser.RoundTripIff | coroutines/datastream_parser/main.cpp:42-60 | With at most one byte before each frame, whatever byte, the frames come through if and only if none of these bytes is left out. |
| StreamParser.OneWayToCut | coroutines/datastream_parser/main.cpp:78-110 | A stream can be cut in one way only into given frames and gaps that hold no ESC. |
| StreamParser.RoundTripIffSeparated | coroutines/datastream_parser/main.cpp:42-60 | With any number of bytes other than ESC before each frame, the frames come through if and only if there is at least one before each. |
| StreamParser.GapThenBlockIff | coroutines/datastream_parser/main.cpp:78-110 | From every state, whatever bytes come before it, a block delivers its frame alone if and only if those bytes yield nothing and end in the hunting state. |
| StreamParser.OneByOneIffReady | coroutines/datastream_parser/main.cpp:42-110 | Whatever bytes stand between the frames, each frame is delivered by its own block and nothing else is, if and only if each gap, read by itself from the start, yields nothing and ends hunting. |
| StreamParser.GapMayHoldTheFrame | coroutines/datastream_parser/main.cpp:78-110 | For frames that only appear in the output there is no such condition on the gaps: a gap may hold the frame that is then lost. |
| StreamParser.BackToBackLosesTheSecond | coroutines/datastream_parser/main.cpp:26-60 | A frame right behind another is always lost, and its trailer opens an empty frame. |
| StreamParser.Sound | coroutines/datastream_parser/main.cpp:78-110 | Whatever the input, the frames yielded stand in it as encoded blocks in order, without overlap, at least one byte before each, the last ending where its frame is yielded. |
| StreamParser.Resync | coroutines/datastream_parser/main.cpp:95-107 | From every state, with any half-read frame, three bytes x ESC y yield nothing and the next encoded frame is delivered. |
| StreamParser.Parse | coroutines/datastream_parser/main.cpp:78-110 | The nested loops, suspended and resumed once per byte, yield what the six-state machine yields, on every input. |
| StreamParser.FirstStream | coroutines/datastream_parser/main.cpp:75-110 | On the numeric bytes of the first shipped stream the parser yields the five bytes of "Hello" and is left inside an empty frame. |
| StreamParser.SecondStream | coroutines/datastream_parser/main.cpp:75-110 | From there the numeric bytes of the second yield the five bytes of "World" and leave the parser hunting. |
| StreamParser.Generator.SendData | coroutines/datastream_parser/main.cpp:55-60 | One byte is one transition, and the value changes only when a frame is complete. |
| StreamParser.Generator.Take | coroutines/datastream_parser/main.cpp:51-53 | A frame is handed out once. |
| StreamParser.Generator.ProcessStream | coroutines/datastream_parser/main.cpp:114-125 | From any state of the generator, exactly the frames completed by the stream are handled, in order, and the state is kept for the next stream. |
| StreamParser.ProcessShipped | coroutines/datastream_parser/main.cpp:130-147 | One generator, fed both streams, has handled exactly those two frames, with the state after each. |
| MonitorQueue.StepKeepsExclusion | concurrency/threadSafeQueue.cpp:18-42 | The mutex excludes in every step, and a consumer past its wait finds the queue non-empty. |
| MonitorQueue.ProduceKeepsCounts | concurrency/threadSafeQueue.cpp:55-58 | A producer's steps lose, invent and reorder no number, and no wakeup. |
| MonitorQueue.ConsumeKeepsCounts | concurrency/threadSafeQueue.cpp:60-65 | A consumer's steps lose, invent and reorder no number, and going to sleep loses no wakeup. |
| MonitorQueue.WakeKeepsCounts | concurrency/threadSafeQueue.cpp:23-26 | Notifying after the unlock, notifying nobody and waking spuriously keep both. |
| MonitorQueue.StepKeepsInv | concurrency/threadSafeQueue.cpp:18-65 | No step pops an empty queue, and every step keeps the invariant: exclusion, conservation, no lost wakeup. |
| MonitorQueue.RunKeepsInv | concurrency/threadSafeQueue.cpp:18-65 | The invariant and the safety of the next step hold after every run, for any numbers of threads. |
| MonitorQueue.StuckMeansDone | concurrency/threadSafeQueue.cpp:70-87 | Where no thread can go on all producers have finished; all consumers have if and only if there are no more consumers than producers; with at least as many the sum is that of all numbers. |
| MonitorQueue.StepLowersRank | concurrency/threadSafeQueue.cpp:38-42 | Every step lowers a rank, but for spurious wakeups, which raise it by less than three. |
| MonitorQueue.SumOfOneToN | concurrency/threadSafeQueue.cpp:70-87 | n producers and n consumers in any interleaving: removed is a prefix of pushed, a run has at most 16n steps and three more per spurious wakeup, and where it cannot go on all have finished and the sum is n(n+1)/2. |
| MonitorQueue.StepRecords | concurrency/threadSafeQueue.cpp:55-65 | The record of pushes gets the number of the producer that holds the mutex, behind all others, and the record of removals the front of the queue, which is what that consumer returns; no other step touches them. |
| MonitorQueue.RecordsGrow | concurrency/threadSafeQueue.cpp:55-65 | Along every run both records only grow at their ends. |
| MonitorQueue.ProducerWaitsForMutex | concurrency/threadSafeQueue.cpp:22-35 | A producer that has not finished waits only for the mutex, and only while another thread holds it. |
| MonitorQueue.ConsumerWaits | concurrency/threadSafeQueue.cpp:38-42 | A consumer cannot go on by itself only when asleep or when the mutex is taken; asleep, it may wake spuriously at any time, and any producer past its unlock may wake it. |
| MonitorQueue.AnyOrderOfPushes | concurrency/threadSafeQueue.cpp:55-58 | The producers may push in any order: for every list of different producers there is a run that pushes their numbers in it. |
| MonitorQueue.NotificationMayBeVain | concurrency/threadSafeQueue.cpp:22-42 | A run in which a consumer is notified, finds the queue emptied by another one and sleeps again. |
| MonitorQueue.WakesBySpuriousWakeup | concurrency/threadSafeQueue.cpp:38-42 | A run in which a consumer wakes although nothing was pushed. |
| PingPong.StepKeepsInv | concurrency/ping_pong_performance_test/pingPongSemaphore.cpp:11-24 | Each step keeps exactly one token among the signals and the threads, strict alternation and the counter's relation to both, and lowers a rank that stays non-negative. |
| PingPong.StuckMeansDone | concurrency/ping_pong_performance_test/pingPongSemaphore.cpp:11-24 | Where neither thread can go on both have left their loops and the counter is limit + 1. |
| PingPong.SemaphoresPass | concurrency/ping_pong_performance_test/pingPongSemaphore.cpp:5-34 | For every limit and every interleaving: one token, strictly alternating turns, no release on a full semaphore, at most 7(limit+1)+2 steps, no stuck state but the end with counter limit + 1. |
| PingPong.WaitsForTheOther | concurrency/ping_pong_performance_test/pingPongSemaphore.cpp:11-24 | A thread that is still in its loop waits only in acquire of a semaphore at zero, and then the other thread can go on. |
| PingPong.TurnsOfCompleteRuns | concurrency/ping_pong_performance_test/pingPongSemaphore.cpp:11-24 | The numbers of turns of complete runs are exactly 2*limit + 1 and 2*limit + 2, for every limit; the last tests may come in either order. |
| PingPong.FlagsRefineSemaphores | concurrency/ping_pong_performance_test/pingPongAtomicFlags.cpp:11-31 | Each step of the flag protocol is a step of the semaphore protocol or changes nothing there, and no wakeup is lost between flag and notification. |
| PingPong.FlagStepLowersRank | concurrency/ping_pong_performance_test/pingPongAtomicFlags.cpp:11-31 | Each step lowers a rank; a spurious wakeup raises it by at most one. |
| PingPong.FlagsPass | concurrency/ping_pong_performance_test/pingPongAtomicFlags.cpp:5-41 | The flag version has never both flags set, alternates, ends within a bound, and ends only with both threads out and counter limit + 1. |
| PingPong.FlagsFollow | concurrency/ping_pong_performance_test/pingPongAtomicFlags.cpp:11-31 | Each step that the semaphores can make is made by the flags too, without a spurious wakeup, a notification first where it is needed. |
| PingPong.FlagsReachTheSame | concurrency/ping_pong_performance_test/pingPongAtomicFlags.cpp:5-41 | The states reached by the two programs are the same: the flags neither add nor lose an interleaving. |
| PingPong.BlockedOrOut | concurrency/ping_pong_performance_test/pingPongAtomicFlags.cpp:11-31 | A thread cannot go on exactly when it has left its loop or is blocked, and exactly a blocked one may wake spuriously. |
| PingPong.PongWakesInVain | concurrency/ping_pong_performance_test/pingPongAtomicFlags.cpp:23-31 | There are runs with any number of spurious wakeups. |
| FetchMult.StepKeepsChain | concurrency/atomics/fetch_mult.cpp:7-12 | Successful exchanges form a chain old -> old*mult, and each thread returns the value its own exchange replaced. |
| FetchMult.FailureHasACause | concurrency/atomics/fetch_mult.cpp:9-10 | An exchange fails only if other threads' exchanges have succeeded since this thread last read. |
| FetchMult.WrapEarlyOrLate | concurrency/atomics/fetch_mult.cpp:9 | Wrapping each product into the type, signed or unsigned, or only the last gives the same value. |
| FetchMult.StepKeepsAccount | concurrency/atomics/fetch_mult.cpp:7-12 | Failures so far are bounded by the successes that can have caused them, and the value is the initial one times the multipliers applied. |
| FetchMult.FetchMultMultiplies | concurrency/atomics/fetch_mult.cpp:6-12 | Any number of threads, any interleaving, values of any sign: at most n(n-1)/2 failed exchanges, at most 2n + n(n-1)/2 operations, and at the end the initial value times the product of all multipliers, exactly if that is a value of the type and wrapped otherwise. |
| FetchMult.RunAlong | concurrency/atomics/fetch_mult.cpp:7-12 | Any threads, in any order, can be the first to succeed, one after the other. |
| FetchMult.FitsKeepsInRange | concurrency/atomics/fetch_mult.cpp:9 | If every product of the initial value and some multipliers is a value of the type, a thread about to compare, to succeed or to fail, computes such a value. |
| FetchMult.InRangeIffFits | concurrency/atomics/fetch_mult.cpp:6-12 | No run computes a product outside the type if and only if the initial value times the product of every non-empty set of multipliers is a value of the type. |
| FetchMult.FitsIsExact | concurrency/atomics/fetch_mult.cpp:6-12 | Then every complete run ends with the product itself. |
| FetchMult.NobodyWaits | concurrency/atomics/fetch_mult.cpp:7-12 | Every thread that has not returned can go on at any time. |
| FetchMult.FailsIfChanged | concurrency/atomics/fetch_mult.cpp:8-9 | An exchange whose expected value differs from the shared one fails, reads that one, and changes nothing else. |
| FetchMult.BoundIsReached | concurrency/atomics/fetch_mult.cpp:7-12 | The bound on failures is exact: for every n there are n threads and a complete run with n(n-1)/2 failed exchanges. |
| RoundRobin.NextIsLessWork | coroutines/utils/cooperative_tasks/main.cpp:13-25 | A resumption, whatever it spawns, lowers the remaining work by one. |
| RoundRobin.TotalResumes | coroutines/utils/cooperative_tasks/main.cpp:13-25 | The run has as many resumptions as the tasks and all they spawn need. |
| RoundRobin.ServedInRounds | concurrency/queueScheduler.cpp:30-42 | The queue is served in rounds: everybody in it once in order, then what the round left and spawned. |
| RoundRobin.FifoClosedForm | concurrency/queueScheduler.cpp:30-42 | For tasks that spawn nothing the trace is the concatenation over k of the tasks that need at least k resumptions, in queue order. |
| RoundRobin.FifoIsFair | concurrency/queueScheduler.cpp:30-42 | In every prefix of the trace, whatever is spawned meanwhile, a queued task that is not done has been resumed as often as any such task behind it, or once more. |
| RoundRobin.EachIsFinished | coroutines/utils/cooperative_tasks/main.cpp:13-25 | The tasks of each name, queued or spawned, are resumed exactly as often as they need together. |
| RoundRobin.OneIsFinished | concurrency/queueScheduler.cpp:30-42 | A queued task with a name of its own is resumed exactly as often as it needs, whatever is spawned. |
| RoundRobin.ShippedCooperative | coroutines/utils/cooperative_tasks/main.cpp:117-131 | The shipped three tasks of three stages run stage by stage, and are destroyed in order. |
| RoundRobin.ShippedQueue | concurrency/queueScheduler.cpp:47-76 | The shipped tasks A and B alternate three times. |
| RoundRobin.SpawnedRunsFirst | coroutines/utils/cooperative_tasks/main.cpp:27-43 | A task that spawns and then awaits is behind the task it has spawned, and both behind what was queued. |
| RoundRobin.Scheduler.Enqueue | coroutines/utils/cooperative_tasks/main.cpp:9-11 | The queue holds the coroutines not destroyed, each once and none done. |
| RoundRobin.Scheduler.Spawn | coroutines/utils/cooperative_tasks/main.cpp:105-108 | Tasks detached while another runs go to the back in order. |
| RoundRobin.Scheduler.ResumeSelfEnqueueing | coroutines/utils/cooperative_tasks/main.cpp:27-43 | A coroutine that awaits wake_up() is behind the tasks it has spawned; one that ends is done and not in the queue. |
| RoundRobin.Scheduler.TurnSelfEnqueueing | coroutines/utils/cooperative_tasks/main.cpp:15-24 | One pass of the self-enqueueing loop is one step of the abstract schedule. |
| RoundRobin.Scheduler.RunSelfEnqueueing | coroutines/utils/cooperative_tasks/main.cpp:13-25 | The self-enqueueing run ends with an empty queue and every frame destroyed once, with the schedule's resumptions and destructions in order. |
| RoundRobin.Scheduler.Turn | concurrency/queueScheduler.cpp:31-41 | One pass of the loop-enqueueing scheduler is the same step of the same schedule. |
| RoundRobin.Scheduler.Schedule | concurrency/queueScheduler.cpp:30-42 | The loop-enqueueing run has the same resumptions and destructions, so that each scheduler refines the other. |
| PriorityScheduling.TotalResumes | concurrency/stackScheduler.cpp:30-42 | Under every policy the run has as many resumptions as the tasks need. |
| PriorityScheduling.StackClosedForm | concurrency/stackScheduler.cpp:30-42 | The stack runs each task to its end, the last emplaced first. |
| PriorityScheduling.ShippedStack | concurrency/stackScheduler.cpp:47-76 | The shipped stack runs task B to its end and then task A. |
| FixedPriorities.BestIsGreatest | concurrency/problems/solutions/priority_queueSchedulerComperator.cpp:29-32 | The scheduler's top is a task that none comes after, for every strict weak order. |
| FixedPriorities.BestTraceIsLegal | concurrency/problems/solutions/priority_queueSchedulerComperator.cpp:39-51 | The scheduler's run is one of the runs that resume, each time, some task that none comes after. |
| FixedPriorities.LegalTurn | concurrency/problems/solutions/priority_queueSchedulerComperator.cpp:40-50 | Whichever greatest task is resumed, going on with a run of what is then queued is such a run. |
| FixedPriorities.EveryoneRuns | concurrency/problems/solutions/priority_queueSchedulerComperator.cpp:40-50 | In every such run every queued task has its turn. |
| FixedPriorities.OnTopAgain | concurrency/problems/solutions/priority_queueSchedulerComperator.cpp:45-46 | Without ties a task put back is the only one that may be on top. |
| FixedPriorities.BlocksAreContiguous | concurrency/problems/solutions/priority_queueSchedulerComperator.cpp:39-51 | A trace of one block for each task never comes back to a task it has left. |
| FixedPriorities.PriorityClosedForm | concurrency/problems/solutions/priority_queueSchedulerComperator.cpp:39-51 | For every comparator and every choice among equals, if no task that has to be put back is tied with another, the trace is one contiguous block for each task, in an order that lists the tasks emplaced, none before one that comes before it. |
| FixedPriorities.TiesInterleave | concurrency/problems/solutions/priority_queueSchedulerComperator.cpp:39-51 | The scheduler's own run of two tied tasks is such a run, and not contiguous. |
| FixedPriorities.TiesBreakBlocks | concurrency/problems/solutions/priority_queueSchedulerComperator.cpp:39-51 | If a task that has to be put back is tied with another, some choice among equals leaves it and comes back to it. |
| FixedPriorities.ContiguousIffNoTies | concurrency/problems/solutions/priority_queueSchedulerComperator.cpp:29-51 | For every strict weak order: all runs, whatever the choices among equals, are contiguous if and only if no task with more than one resumption is tied with another. |
| FixedPriorities.ShippedHaveNoTies | concurrency/problems/solutions/priority_queueSchedulerComperator.cpp:29-79 | std::ranges::less and std::ranges::greater on pairs leave no ties. |
| FixedPriorities.TopOfGreater | concurrency/problems/solutions/priority_queueSchedulerComperator.cpp:74 | Under std::ranges::greater the top has the lowest priority, and the lowest address among those. |
| FixedPriorities.ShippedLess | concurrency/problems/solutions/priority_queueSchedulerComperator.cpp:65-70 | The shipped program under std::ranges::less runs task B to its end and then task A, wherever their frames lie. |
| FixedPriorities.ShippedGreater | concurrency/problems/solutions/priority_queueSchedulerComperator.cpp:74-79 | Under std::ranges::greater it runs task A first. |
| PriorityScheduling.TopIsHighest | concurrency/problems/solutions/priority_queueSchedulerUpdatePriority.cpp:29-45 | Under std::ranges::less no priority is above that of the top. |
| PriorityScheduling.TopHasGreatestAddress | concurrency/problems/solutions/priority_queueSchedulerUpdatePriority.cpp:29-45 | Among the tasks of the priority of the top none has a greater address. |
| PriorityScheduling.AgingKeepsLevel | concurrency/problems/solutions/priority_queueSchedulerUpdatePriority.cpp:42-55 | After a resumption no task is more than one above any task that has run. |
| PriorityScheduling.AgingEvensOut | concurrency/problems/solutions/priority_queueSchedulerUpdatePriority.cpp:42-82 | Two unfinished tasks that have both run never differ by more than one in priority. |
| PriorityScheduling.AgingCounts | concurrency/problems/solutions/priority_queueSchedulerUpdatePriority.cpp:49-50 | Current priority plus resumptions so far is the initial priority, and resumptions left plus so far are those needed, for every comparator. |
| PriorityScheduling.FirstTurnComes | concurrency/problems/solutions/priority_queueSchedulerUpdatePriority.cpp:42-82 | A task first runs after at most the sum over the others j of max(0, p_j - p_i + 1) resumptions. |
| PriorityScheduling.ShippedAging | concurrency/problems/solutions/priority_queueSchedulerUpdatePriority.cpp:82-88 | The first six resumptions of the shipped aging program, with frames at increasing addresses, are C, C, B, C, B, A, and what is queued then. |
| PriorityScheduling.Scheduler.Top | concurrency/problems/solutions/priority_queueSchedulerUpdatePriority.cpp:45 | The loop over the container finds the policy's choice. |
| PriorityScheduling.Scheduler.Emplace | concurrency/problems/solutions/priority_queueSchedulerUpdatePriority.cpp:38-40 | Before a run or during a resumption, the task is added and the container holds the tasks not destroyed, each once and none done. |
| PriorityScheduling.Scheduler.Turn | concurrency/problems/solutions/priority_queueSchedulerUpdatePriority.cpp:44-54 | One pass of the loop is one step of the policy's schedule. |
| PriorityScheduling.Scheduler.Schedule | concurrency/problems/solutions/priority_queueSchedulerUpdatePriority.cpp:42-55 | The loop ends with the container empty and every task destroyed once, having resumed the policy's trace. |
| TimedTasks.NeverEarly | coroutines/utils/cooperative_tasks_with_asynchrony/main.cpp:20-33 | No task, detached before the run or by another task, is resumed before its deadline, and resumptions follow the clock. |
| TimedTasks.NothingOvertaken | coroutines/utils/cooperative_tasks_with_asynchrony/main.cpp:63-71 | Every pending deadline is met, and nothing later in the order is resumed before it. |
| TimedTasks.EarlierFirst | coroutines/utils/cooperative_tasks_with_asynchrony/main.cpp:63-71 | Of two pending entries the one for the earlier time is met first, and for one time that with the lower frame address. |
| TimedTasks.SortedIffForward | coroutines/utils/cooperative_tasks_with_asynchrony/main.cpp:20-58 | The deadlines are met in non-decreasing order if and only if no task awaits a time before the one it has just woken from. |
| TimedTasks.Scheduler.Detach | coroutines/utils/cooperative_tasks_with_asynchrony/main.cpp:128-131 | A task detached before the run or during a resumption is pending for the present time. |
| TimedTasks.Scheduler.DetachAll | coroutines/utils/cooperative_tasks_with_asynchrony/main.cpp:128-131 | The tasks that a resumption detaches are all pending, at addresses of their own, for times not before it. |
| TimedTasks.Scheduler.Top | coroutines/utils/cooperative_tasks_with_asynchrony/main.cpp:63-71 | The top of the queue is the earliest entry, ties by frame address. |
| TimedTasks.Scheduler.Enqueue | coroutines/utils/cooperative_tasks_with_asynchrony/main.cpp:42-45 | The awaiting task is pending again, for the time it awaits. |
| TimedTasks.Scheduler.Turn | coroutines/utils/cooperative_tasks_with_asynchrony/main.cpp:21-32 | One pass resumes the earliest task, not before its deadline, leaves pending what it awaits and detaches, and uses up one of the resumptions due. |
| TimedTasks.Scheduler.Run | coroutines/utils/cooperative_tasks_with_asynchrony/main.cpp:20-33 | Whatever times are awaited and whatever tasks are detached on the way, the run is legal from what was pending to the empty queue, has as many resumptions as the tasks and all they detach need, and ends with every frame destroyed once. |
| Primes.LargerPrime | coroutines/generate_primes/main.cpp:69-79 | There is a prime above every number, so the search for the next one ends. |
| Primes.NthIsPrime | coroutines/generate_primes/main.cpp:69-79 | The sequence that the generator is measured against consists of primes. |
| Primes.NthPrimeIncreases | coroutines/generate_primes/main.cpp:69-79 | The primes counted by the generator increase: none is repeated. |
| Primes.EveryPrimeIsReached | coroutines/generate_primes/main.cpp:69-79 | No prime is skipped. |
| Primes.StopsAtRoot | coroutines/generate_primes/main.cpp:64-65 | One divisor below 2^61 has a wrapped square above all but seven words, and the odd ones among these have a small factor: the loop ends although squares wrap. |
| Primes.SearchGoesOn | coroutines/generate_primes/main.cpp:64-65 | Each round rules out one more odd divisor, wrapped or not. |
| Primes.DivisorFound | coroutines/generate_primes/main.cpp:65 | A divisor is found before any square wraps. |
| Primes.ProductFits | coroutines/generate_primes/main.cpp:64 | For numbers below (2^32-1)^2 no square that the search comes to wraps; an invariant of the loop in IsPrime. |
| Primes.IsPrime | coroutines/generate_primes/main.cpp:61-67 | For every 64-bit number the answer is "prime" if and only if it is prime or is 1, and the loop computes a square that wraps if and only if the number is a prime above (2^32-1)^2. |
| Primes.YieldsThePrimes | coroutines/generate_primes/main.cpp:69-79 | The k-th number yielded is the k-th prime exactly as long as that prime fits in 64 bits. |
| Primes.SomeFit | coroutines/generate_primes/main.cpp:69-79 | The primes that fit in 64 bits are finitely many. |
| Primes.YieldsForEver | coroutines/generate_primes/main.cpp:69-79 | All 64-bit primes in order, then 1, then the same again without 2, for ever. |
| Primes.StopsAtGoal | coroutines/generate_primes/main.cpp:73-78 | On its way from one yielded number the loop stops at the next prime, or at the 1 it wraps to, and at no other number. |
| Primes.CoGenerator.GetNextPrime | coroutines/generate_primes/main.cpp:52-59 | Every call returns, and the k-th returns the k-th number of that sequence. |
| Primes.CoGenerator.Search | coroutines/generate_primes/main.cpp:72-78 | The loop runs to the number that follows the last one yielded. |
| Interleaver.MergeLength | coroutines/generator_2/main.cpp:99-122 | As many values as both vectors have elements. |
| Interleaver.FirstAt | coroutines/generator_2/main.cpp:111-115 | a[i] is value number i + min(i, size of b), for all sizes. |
| Interleaver.SecondAt | coroutines/generator_2/main.cpp:117-120 | b[j] is value number j + min(j + 1, size of a), for all sizes. |
| Interleaver.Elements.Resume | coroutines/generator_2/main.cpp:64-67 | A resumption drops the current element; a finished generator is not resumed. |
| Interleaver.Interleaved.constructor | coroutines/generator_2/main.cpp:99-108 | A new generator, run to its first co_yield, has the merge of the two vectors to show. |
| Interleaver.Interleaved.ResumeHandle | coroutines/generator_2/main.cpp:111-121 | A resumption drops the current value and keeps all others in order. |
| Interleaver.Drain | coroutines/generator_2/main.cpp:141-145 | The loop over finished(), value() and resume() sees all values still to come. |
| Interleaver.Cursor.Advance | coroutines/generator_2/main.cpp:79-83 | The iterator's unguarded resumption is only made on a coroutine that is not done. |
| Interleaver.DrainByIterator | coroutines/generator_2/main.cpp:69-95 | The range-for loop sees the same values. |
| Interleaver.BothWays | coroutines/generator_2/main.cpp:124-146 | Both ways of draining give the merge. |

## Left out

- Printing, `HandleFrame` (which stops at a zero byte of the frame), sleeping, time measurement, random numbers: printed lines and handled frames are kept as values, the clock is an input that does not go back. The line that the `main` of `coroutines/recursion` prints between two steps is not among them.
- Signed overflow: `int` is unbounded in the call trees, in nested, in priorities and in the shared sum. In `fetch_mult` a product outside the type wraps; for a signed type it is undefined in the source, and `InRangeIffFits` says when no run computes one. `generate_primes` is modelled on 64-bit words.
- Recursion.CoState.RunToEnd: does not model moved-from or null handles, because the class has neither moves nor null construction.
- Crsm.CoState.RunUntilCompletion: does not model the `result_` of `AwaitableFunction`; passing values from callee to caller is proved for `coroutines/nested`.
- AsyncStack.SpawnedTask.Drop: does not model resuming through the handle that a dropped parked task leaves in the scheduler, which is undefined in the source.
- `GetCallStack` of nested, which only hands out a pointer, and the debugger's use of the parent links.
- Two spawned tasks that share one nested `Scheduler`, which has room for one parked handle.
- Coroutines that throw, and bodies that never end: every modelled body is a finite call tree.
- MonitorQueue.SumOfOneToN: does not model the inside of the mutex and the condition variable, because their specification is used: exclusion, one sleeper woken per notification, spurious wakeups.
- PingPong.FlagsPass: does not model memory orderings, because all operations of the source are sequentially consistent by default. The weak-memory examples of the repository are not part of this model.
- PriorityScheduling.Scheduler.Schedule: does not model tasks that emplace others while they run, because the tasks of these programs have no scheduler to call; `Emplace` itself is proved for that moment too.
- The heap inside `std::priority_queue`: its specification, a maximum by the comparator, is used.
- `pingPongAtomicBool.cpp`, `pingPongAtomicFlag.cpp`, `pingPongConditionVariable.cpp` and `conditionVariablePingPong.cpp`: they have runs that park one thread for ever.
- `monitorObject.cpp` and `monitorObjectCpp20.cpp`, whose `get` waits and pops under two separate locks, and `threadsafequeue1.cpp` and `threadsafequeue2.cpp`, which repeat the protocol modelled here.
- The remaining demonstrations of language and library features.
