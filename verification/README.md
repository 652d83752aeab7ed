# Concurrency protocols, buffers and arithmetic of the course programs

This project models the programs of the repository that carry real algorithmic or concurrent
content, and proves what they are for. `dafny verify dfyconfig.toml` checks all of it.

* `LockFreePush.dfy`, `LockFreeWorstCase.dfy` - the lock-free list push of `src/apps/sem23/task22_3.c`,
  run by any number of threads: the list in memory is the stack of completed pushes, k threads lose at
  most k(k-1)/2 compare-and-swaps, and there is a schedule that loses exactly that many.
* `Primes.dfy`, `PrimeQueue.dfy` - `src/apps/sem23/task22_2.c`: trial division on 64-bit words, and the
  one-slot queue with a single condition variable between the producer of primes and the printing thread.
* `Dispatcher.dfy` - the token-passing threads of `src/apps/sem22/task21_4.c`.
* `PingPong.dfy` - the two alternating processes of `src/apps/sem21/task20_3.c`, for any `end`.
* `AsyncVector.dfy` - the fork/join map of `src/apps/sem24/cpp_magic.cpp`, for any inputs and function.
* `CommandLine.dfy` - the in-place tokenizer and `echo` of the shell in `src/apps/sem12/main.c`.
* `FixedPoint.dfy` - the rounding, saturating multiply of `src/apps/sem9/main.c`. The rounding rule is
  roundTiesToEven, section 4.3.1 of IEEE 754-2008.
* `GrowString.dfy` - the growing string of `src/utils/string.c`.
* `Uppercase.dfy` - the buffered filter of `src/apps/sem11/task10_3.c` against the unbuffered one of
  `src/apps/sem11/task10_2.c`.
* `ReadAll.dfy` - `read_all` of `src/apps/sem16/main.c`.
* `DotProduct.dfy` - the SIMD loop of `src/apps/sem10/process.S` over arbitrary arithmetic.
* `Counting.dfy`, `Arithmetic.dfy`, `Powers.dfy`, `Memory.dfy`, `Descriptors.dfy` - sums and set sizes,
  products and quotients, powers of two and word sizes, `realloc` and `memcpy`, and what successive `read`
  calls deliver.

The concurrent programs are transition systems: a state with one program counter per thread, one step
per access to shared memory, a run that is any finite interleaving, and an invariant of every run.
The sequential programs that update memory are methods over arrays and classes, proved against
specification functions. Thread counts, `end`, the input and the original list are parameters.
`read`, `scanf`, `malloc`, `realloc` and the scheduler are parameters as well: sequences of results,
a decision whether memory is granted, and the choice of the next step.

Where the code does less than one would expect, the project says exactly when:

* `is_prime` is right on every 64-bit word, also on those where `i * i` wraps around.
* The queue program prints the first primes from `base` on in every run if and only if `count` of them
  exist below 2^64 (`PrimeQueue.RightExactlyWhenPrimesSuffice`). With more requested, `value` wraps around
  and 2 follows the largest prime: for `base` = 2^64 - 1 and `count` = 1 every complete run prints 2
  (`PrimeQueue.LargestWordFails`).
* The two filters write the same if and only if the stream has no byte 0xFF, whose sign extension is
  the end marker (`Uppercase.ProgramsAgree`); on that byte alone one writes nothing, the other the byte
  (`Uppercase.MarkerIsDropped`).
* The words of a line come back from their printed form if and only if there are at most 64
  (`CommandLine.ParseJoin`).
* `fixed_mul` with n = 32 truncates; it rounds if and only if the lower half of the product is below one
  half, or a tie at an even result (`FixedPoint.WhenTruncationRounds`), and so 1 times 2^32 - 1 becomes 0
  (`FixedPoint.TruncationCanMiss`).

## Model

| member | source | states |
|---|---|---|
| `LockFreePush.ReachableList` | src/apps/sem23/task22_3.c:15-24 | in every reachable state the one list behind `head->next` is finite, free of repetitions, and the pushed nodes in reverse order of success before the original list |
| `LockFreePush.StepRefinesPush` | src/apps/sem23/task22_3.c:17-20 | a successful exchange puts that thread's node on top of the list in memory; no other step changes the list |
| `LockFreePush.ChainFrame` | src/apps/sem23/task22_3.c:18 | a store to a node that is not published leaves the list alone |
| `LockFreePush.ChainIsUnique` | src/apps/sem23/task22_3.c:7-10 | memory holds at most one list behind a reference |
| `LockFreePush.StepListInv` | src/apps/sem23/task22_3.c:15-24 | every atomic step keeps the list invariant |
| `LockFreePush.RunInv` | src/apps/sem23/task22_3.c:15-24 | the list and failure invariants hold throughout every run |
| `LockFreePush.AllPushed` | src/apps/sem23/task22_3.c:15-24 | once all calls have returned every node has been pushed exactly once |
| `LockFreePush.LossPaysBack` | src/apps/sem23/task22_3.c:19 | a genuine failure turns one failure in the making into a counted one |
| `LockFreePush.SuccessCost` | src/apps/sem23/task22_3.c:19-20 | a success makes at most the other running threads fail, so the budget of failures is kept |
| `LockFreePush.ContentionBound` | src/apps/sem23/task22_3.c:15-24 | over any run k threads suffer at most k(k-1)/2 genuine failures |
| `LockFreePush.FailuresBeforeSuccess` | src/apps/sem23/task22_3.c:16-22 | the push that succeeds p-th has failed at most p times |
| `LockFreePush.StaleStep` | src/apps/sem23/task22_3.c:17-19 | only another thread's success moves the head away from what a thread has loaded |
| `LockFreePush.FailureHasCause` | src/apps/sem23/task22_3.c:17-19 | every genuine failure has another thread's success between its own load and exchange |
| `LockFreePush.NeverBlocked` | src/apps/sem23/task22_3.c:15-24 | a thread can take a step if and only if it has not returned |
| `LockFreePush.PossibleSteps` | src/apps/sem23/task22_3.c:17-19 | in every reachable state each access is possible exactly at its place in the loop; the exchange can succeed, or fail spuriously, exactly if the head is what was loaded, and fails genuinely exactly if not |
| `LockFreePush.RunAlone` | src/apps/sem23/task22_3.c:15-24 | from every reachable state a thread running alone returns within five steps of its own, none of them a spurious failure, with the next successful push |
| `LockFreePush.CanStart` | src/apps/sem23/task22_3.c:15-24 | calls can start on every list in memory with any distinct nodes outside it |
| `LockFreePush.StepsAccounted` | src/apps/sem23/task22_3.c:16-22 | the length of a run is three steps per failed attempt plus the steps of successful or open ones |
| `LockFreePush.StepBound` | src/apps/sem23/task22_3.c:15-24 | k pushes take at most 3k + 3k(k-1)/2 steps, and three more per spurious failure, whatever the schedule |
| `LockFreeWorstCase.BoundIsReached` | src/apps/sem23/task22_3.c:15-24 | for any nodes and list there is a complete run with exactly k(k-1)/2 genuine and no spurious failures |
| `Primes.IsPrime` | src/apps/sem23/task22_2.c:68-81 | terminates and returns 1 exactly for the primes, on every 64-bit word, with the square taken modulo 2^64 |
| `Primes.LoopStops` | src/apps/sem23/task22_2.c:75-79 | a trial divisor exists for every word at which the loop ends by its guard or by a divisor |
| `Primes.FoundDivisor` | src/apps/sem23/task22_2.c:75-78 | a divisor found behind the guard on the wrapped square is a proper one |
| `Primes.Advance` | src/apps/sem23/task22_2.c:75 | `i += 2` neither wraps nor passes the point where the loop is certain to stop |
| `Primes.AllTriedMeansPrime` | src/apps/sem23/task22_2.c:75-80 | when the guard on the wrapped square fails after trying in vain, the number is prime |
| `Primes.NoSmallDivisorMeansPrime` | src/apps/sem23/task22_2.c:72-80 | odd divisors up to the square root decide primality |
| `PrimeQueue.PrintsFirstPrimes` | src/apps/sem23/task22_2.c:83-109 | in every reachable state the printed values begin what the producer offers, and are the first primes from `base` on if and only if so many exist in 64 bits; exactly `count` when the loop ends |
| `PrimeQueue.RightExactlyWhenPrimesSuffice` | src/apps/sem23/task22_2.c:83-109 | for all inputs: every run prints the first primes from `base` on if and only if `count` primes from `base` on fit in 64 bits |
| `PrimeQueue.LargestWordFails` | src/apps/sem23/task22_2.c:83-109 | asked for one prime from 2^64 - 1 on, where none is left, every complete run has printed 2 |
| `PrimeQueue.Complete` | src/apps/sem23/task22_2.c:83-109 | every run goes on, without spurious wakeups, to one that cannot |
| `PrimeQueue.OffersBeforeWrap` | src/apps/sem23/task22_2.c:83-93 | what the producer offers before `value` wraps is increasing and exactly the accepted values passed |
| `PrimeQueue.OffersAfterWrap` | src/apps/sem23/task22_2.c:90 | after 2^64 - 1 the producer goes on with 0 and next offers 2 |
| `PrimeQueue.TooMany` | src/apps/sem23/task22_2.c:106-109 | more values than primes left are not the first primes |
| `PrimeQueue.MutexHolder` | src/apps/sem23/task22_2.c:41-60 | each thread holds the mutex exactly from its lock to its wait or unlock |
| `PrimeQueue.SlotIsFifo` | src/apps/sem23/task22_2.c:40-61 | with the mutex free, the released history is the acquired history plus the content of the slot |
| `PrimeQueue.NoLostWakeup` | src/apps/sem23/task22_2.c:42-44 | with the mutex free, a waiting consumer faces an empty slot, a waiting producer a full one, and never both wait |
| `PrimeQueue.NoDeadlock` | src/apps/sem23/task22_2.c:40-61 | without spurious wakeups a step is possible unless the main loop is over and the producer waits |
| `PrimeQueue.PossibleSteps` | src/apps/sem23/task22_2.c:40-61 | a thread can go on exactly if it neither waits nor is done nor finds the mutex held at its lock; a waiting one may wake up at any time |
| `PrimeQueue.StepLocks` | src/apps/sem23/task22_2.c:40-61 | every step keeps mutual exclusion and the entitlement of each waiting thread to wait |
| `PrimeQueue.StepFlow` | src/apps/sem23/task22_2.c:45-48 | every step keeps the flow of values through the slot |
| `PrimeQueue.RunInv` | src/apps/sem23/task22_2.c:40-109 | mutual exclusion, flow, candidates and wakeups are invariants of every run |
| `PrimeQueue.StepMeasure` | src/apps/sem23/task22_2.c:40-93 | every step but a spurious wakeup brings the threads nearer to their end |
| `PrimeQueue.AlwaysFinishes` | src/apps/sem23/task22_2.c:83-109 | a run is bounded apart from three steps per spurious wakeup, and one that cannot go on has printed `count` values |
| `Dispatcher.MutualExclusion` | src/apps/sem22/task21_4.c:25-50 | at most one thread is between reading its activation and passing the token on |
| `Dispatcher.CountersKeepMessagesApart` | src/apps/sem22/task21_4.c:27-35 | every counter is 0, 1 or 2, every reader gets exactly 1 or exactly 2, and a thread that has exited leaves no message unread |
| `Dispatcher.MessageDecides` | src/apps/sem22/task21_4.c:28-30 | a thread that has read 2 exits, one that has read 1 goes on to the input |
| `Dispatcher.PossibleSteps` | src/apps/sem22/task21_4.c:25-78 | a thread blocks only on a counter that is 0, `main` only on a thread that has not exited, and exactly the descriptors of joined threads are closed |
| `Dispatcher.NoUseAfterClose` | src/apps/sem22/task21_4.c:73-78 | every descriptor a thread is about to read or write is open while `main` closes others |
| `Dispatcher.LogIsPrescribed` | src/apps/sem22/task21_4.c:32-46 | the log is the input in order, number k + 1 printed by the residue of number k, the first by thread 0 |
| `Dispatcher.CRemTruncates` | src/apps/sem22/task21_4.c:41 | the model of `%` is the remainder of division truncated towards zero |
| `Dispatcher.TargetIsResidue` | src/apps/sem22/task21_4.c:41-45 | the correction of negative remainders yields the mathematical residue |
| `Dispatcher.ThreadStep` | src/apps/sem22/task21_4.c:23-52 | every step of a thread keeps the one token in place: in one counter, with one thread, in one broadcast or used up |
| `Dispatcher.MainStep` | src/apps/sem22/task21_4.c:61-78 | so does every step of `main`, which closes only what nobody uses any more |
| `Dispatcher.RunInv` | src/apps/sem22/task21_4.c:23-78 | the token invariant holds throughout every run |
| `Dispatcher.StepMeasure` | src/apps/sem22/task21_4.c:23-78 | every step uses up remaining input, broadcast or pending exits |
| `Dispatcher.AlwaysFinishes` | src/apps/sem22/task21_4.c:23-78 | every run is bounded; one is stuck exactly when all threads have exited and all descriptors are closed, with the whole input logged |
| `Dispatcher.Complete` | src/apps/sem22/task21_4.c:23-78 | every run goes on to one with all threads exited and all descriptors closed |
| `Dispatcher.CanFinish` | src/apps/sem22/task21_4.c:54-81 | for every number of threads from 1 on and every input such a run exists from the start |
| `PingPong.OneToken` | src/apps/sem21/task20_3.c:21-35 | one token exists across both counters and both workers, so never two workers use the context |
| `PingPong.LogAlternates` | src/apps/sem21/task20_3.c:27-32 | the log is 0, 1, 2, ... below `end`, even values by worker 1 and odd ones by worker 2 |
| `PingPong.StepInv` | src/apps/sem21/task20_3.c:16-35 | every step of either worker keeps the token, the turn and the log |
| `PingPong.AlwaysFinishes` | src/apps/sem21/task20_3.c:52-59 | every run is bounded; one is stuck exactly when both workers have exited, with `begin` = `end`, the full log and one unread trigger |
| `PingPong.PossibleSteps` | src/apps/sem21/task20_3.c:21-59 | a worker blocks only on a counter that is 0, and the parent at its end until the child has exited |
| `PingPong.Complete` | src/apps/sem21/task20_3.c:21-59 | every run goes on to one that cannot |
| `PingPong.CanFinish` | src/apps/sem21/task20_3.c:45-59 | for every `end` a run from the start prints everything and lets both workers exit |
| `AsyncVector.CallbackAtMostOnce` | src/apps/sem24/cpp_magic.cpp:54-62 | in every reachable state the callback has run at most once, after all launches and writes, on the image of the inputs, and never for no inputs |
| `AsyncVector.LastTicketCalls` | src/apps/sem24/cpp_magic.cpp:58-62 | the thread whose increment reaches the required count is the only one to call, and finds every slot written |
| `AsyncVector.CountBounded` | src/apps/sem24/cpp_magic.cpp:59-66 | the counter never exceeds the number of launched threads |
| `AsyncVector.StepInv` | src/apps/sem24/cpp_magic.cpp:13-66 | every launch, write, increment and return keeps slots, tickets and calls consistent |
| `AsyncVector.StepsAccounted` | src/apps/sem24/cpp_magic.cpp:13-66 | every step advances exactly one thread by one |
| `AsyncVector.AlwaysCallsBack` | src/apps/sem24/cpp_magic.cpp:45-67 | every complete run has called back exactly once with the image of the inputs, or not at all for no inputs |
| `AsyncVector.PossibleSteps` | src/apps/sem24/cpp_magic.cpp:13-24 | the next launch is possible until the last, and a launched thread that has not returned can go on at any time |
| `AsyncVector.Complete` | src/apps/sem24/cpp_magic.cpp:45-67 | every run goes on to a complete one |
| `AsyncVector.CanCallBack` | src/apps/sem24/cpp_magic.cpp:45-67 | for any inputs, function and initial slots there is a run, and it ends with the call |
| `CommandLine.ProcessLine` | src/apps/sem12/main.c:190-209 | the C strings at the collected offsets of the mutated buffer are the first 64 words of the line, their number is that of the words but at most 64; only NULs are written, none behind the line |
| `CommandLine.SpansAreMaximalPieces` | src/apps/sem12/main.c:195-207 | the words are exactly the maximal non-empty pieces without spaces, each once, from left to right |
| `CommandLine.PieceSurvives` | src/apps/sem12/main.c:197-204 | the NULs written end every collected piece and the last one damages none |
| `CommandLine.Finish` | src/apps/sem12/main.c:204-208 | wherever the loop stops, by end of line or by the cap, the strings collected are the arguments |
| `CommandLine.CStringIs` | src/apps/sem12/main.c:197 | a C string is the text up to the NUL that ends it |
| `CommandLine.FuncEcho` | src/apps/sem12/main.c:31-39 | prints all arguments but the first, separated by spaces, with a newline after the last, read from the mutated buffer; every argument stands at its own offset in the output |
| `CommandLine.EchoLayout` | src/apps/sem12/main.c:31-39 | for any arguments, each but the first stands at the sum of the lengths before it, followed by a space or for the last by a newline, and nothing else is printed |
| `CommandLine.JoinLaws` | src/apps/sem12/main.c:33-37 | one word is printed as it is, and two groups of words with one space in between |
| `CommandLine.JoinIsNormalForm` | src/apps/sem12/main.c:33-37 | the joined tokens are the only text with these words and single spaces only between them |
| `CommandLine.EchoIsNormalLine` | src/apps/sem12/main.c:31-39 | what is printed for tokens is such a text and a newline, or nothing |
| `CommandLine.ReadString` | src/apps/sem12/main.c:34-36 | `%s` delivers the C string at an offset |
| `CommandLine.Echo` | src/apps/sem12/main.c:31-39 | parsing a line in place and printing from the same buffer prints its first 64 words but the first, with single spaces only between them and a newline, or nothing |
| `CommandLine.ArgsAreTokens` | src/apps/sem12/main.c:190-208 | the arguments are at most 64 and each is non-empty and free of separators |
| `CommandLine.WordsOfJoin` | src/apps/sem12/main.c:195-207 | the words of space-joined tokens are those tokens |
| `CommandLine.ParseJoin` | src/apps/sem12/main.c:190-208 | tokenizing joined tokens returns the first 64, hence all of them if and only if there are at most 64 |
| `CommandLine.ParseEcho` | src/apps/sem12/main.c:31-39 | tokenizing what echo prints returns its arguments, up to the cap |
| `CommandLine.EchoIsIdempotent` | src/apps/sem12/main.c:31-39 | entering the command again with the text it printed yields the same arguments and the same text, for every line |
| `FixedPoint.RoundsToNearestEven` | src/apps/sem9/main.c:15-24 | for n up to 31 the result is the product divided by 2^n, rounded to nearest with ties to even, cut off at 2^32 - 1 |
| `FixedPoint.NearestEvenExists` | src/apps/sem9/main.c:17-19 | there is such a rounded quotient for all operands |
| `FixedPoint.NearestEvenMonotone` | src/apps/sem9/main.c:17-19 | rounding is monotone in the product, so its result is unique |
| `FixedPoint.AddendRounds` | src/apps/sem9/main.c:18-19 | adding one half, or just less before an even quotient, makes the shift round to nearest even |
| `FixedPoint.RoundIsNearestEven` | src/apps/sem9/main.c:17-24 | the sum with the addend does not wrap in 64 bits and the shifted sum is the rounded quotient |
| `FixedPoint.ErrorAtMostHalf` | src/apps/sem9/main.c:15-24 | the error is at most half a unit in the last place if and only if the exact quotient is at most 2^32 - 1/2 |
| `FixedPoint.ExactWhenRepresentable` | src/apps/sem9/main.c:15-24 | a product that is a multiple of 2^n is delivered exactly if it fits |
| `FixedPoint.SourceExamples` | src/apps/sem9/main.c:29-36 | the three products that `main` compares have the values given there |
| `FixedPoint.TruncatesAt32` | src/apps/sem9/main.c:7-13 | for n = 32 the result is the product divided by 2^32 and rounded down |
| `FixedPoint.WhenTruncationRounds` | src/apps/sem9/main.c:7-13 | for n = 32 that is the rounded quotient if and only if the lower half is below one half, or a tie at an even result |
| `FixedPoint.TruncationCanMiss` | src/apps/sem9/main.c:7-13 | for n = 32 the operands 1 and 2^32 - 1 yield 0, where rounding to nearest would yield 1 |
| `FixedPoint.Monotone` | src/apps/sem9/main.c:6-25 | the result is monotone in both operands for every n, saturated or not |
| `GrowString.String.constructor` | src/utils/string.c:4-9 | a new string is empty, without memory and capacity |
| `GrowString.String.Destruct` | src/utils/string.c:10-17 | any string becomes empty, without memory and capacity |
| `GrowString.String.Reserve` | src/utils/string.c:19-34 | refuses unless the capacity grows and memory is granted; otherwise keeps the content in a block of the new capacity and a terminator, having moved the whole old block; on refusal keeps the whole string |
| `GrowString.String.AppendBuffer` | src/utils/string.c:40-55 | the new content, capacity and cost are those of the specification `Append`, the call fails exactly if more room is needed and refused, the capacity stays if it suffices and else becomes twice the new length, the string is terminated, a refusal changes nothing, and the block is the old one or a fresh one |
| `GrowString.AppendKeepsAmortised` | src/utils/string.c:45-50 | doubling keeps capacity, characters moved in whole blocks, and number of growths bounded |
| `GrowString.AppendEach` | src/utils/string.c:4-55 | a string object after any sequence of appends of given buffers, with memory granted or refused in any pattern, has the value `AppendAll` of them, hence the concatenated content, and obeys the bounds on capacity, characters moved and growths |
| `GrowString.AppendsAreCheap` | src/utils/string.c:40-55 | for the specification `AppendAll`, which `AppendEach` carries to the object: after any sequence of appends: capacity and characters moved by `realloc`, whole blocks counted, at most twice the length, and 2^growths at most length + 1 |
| `GrowString.ContentIsConcatenation` | src/utils/string.c:40-55 | for the same specification: the content is the concatenation of the successful appends, of all of them if memory is always granted |
| `Uppercase.FileReadState.constructor` | src/apps/sem11/task10_3.c:22-33 | the initial state is at the start of the stream |
| `Uppercase.FileReadState.NextChar` | src/apps/sem11/task10_3.c:90-104 | however the stream is cut into reads, delivers its next byte sign-extended and advances by one; at its end -1 for ever, leaving `lc` |
| `Uppercase.FileReadState.Refill` | src/apps/sem11/task10_3.c:91-102 | afterwards either the end mark is set, exactly at the end of the stream, or the buffer holds the next byte |
| `Uppercase.FileReadState.LastChar` | src/apps/sem11/task10_3.c:86-88 | the byte of the stream handed out last, sign-extended, and -1 before the first one |
| `Uppercase.BufferedUpper` | src/apps/sem11/task10_3.c:106-115 | writes the stream in upper case up to its first byte 0xFF |
| `Uppercase.UnbufferedUpper` | src/apps/sem11/task10_2.c:61-69 | writes the whole stream in upper case |
| `Uppercase.SignExtendIs` | src/apps/sem11/task10_3.c:103 | a char has the value of its byte modulo 256, from -128 to 127, and converts back |
| `Uppercase.UpperToAt` | src/apps/sem11/task10_3.c:109-113 | one byte per byte, changed by 32 exactly for the letters a to z |
| `Uppercase.ProgramsAgree` | src/apps/sem11/task10_3.c:106-115 | both outputs are equal if and only if the stream has no byte 0xFF |
| `Uppercase.MarkerIsDropped` | src/apps/sem11/task10_3.c:108 | for a stream of the one byte 0xFF the outputs differ |
| `Uppercase.RunBoth` | src/apps/sem11/task10_2.c:61-71 | the same for the two programs, with any buffer size and any cut into reads |
| `Descriptors.NextRead` | src/apps/sem11/task10_3.c:95-101 | a read delivers the next bytes of the stream, and one that fails marks its end |
| `Descriptors.StreamOneByOne` | src/apps/sem11/task10_2.c:63 | reads of one byte deliver the same stream |
| `ReadAll.ReadAll` | src/apps/sem16/main.c:13-45 | the buffer starts with the accepted bytes of the stream, has the least capacity 16 * 2^k above its size, twice its size at most from 16 on, and room for the final NUL; the reads kept end with the first that delivers nothing or needs memory that is refused |
| `ReadAll.AcceptedReads` | src/apps/sem16/main.c:19-39 | the accepted bytes are those of whole reads, up to the first that delivers nothing or needs a larger least capacity that is refused, and no earlier |
| `ReadAll.FitsUnlessRefused` | src/apps/sem16/main.c:29-36 | memory is asked for only when the least capacity has to grow, and then for the least that suffices |
| `ReadAll.StopsOnce` | src/apps/sem16/main.c:19-39 | that determines the number of accepted reads and bytes |
| `ReadAll.CapacityBounds` | src/apps/sem16/main.c:15-28 | the least capacity is 16 below size 16 and at most twice the size from there on |
| `ReadAll.AllAccepted` | src/apps/sem16/main.c:19-39 | with memory always granted everything before the end is accepted |
| `ReadAll.CapacityIsLeast` | src/apps/sem16/main.c:15-28 | the capacity kept by the loop is the least 16 * 2^k above the size, and the only such number |
| `ReadAll.DoubleOn` | src/apps/sem16/main.c:25-28 | doubling on from an earlier capacity ends where doubling from the start would |
| `ReadAll.Grow` | src/apps/sem16/main.c:25-28 | the inner loop terminates without overflow at the first doubling that suffices |
| `DotProduct.DotStart` | src/apps/sem10/process.S:21-49 | the empty sum is zero, and a product takes the element of b first |
| `DotProduct.DotSnoc` | src/apps/sem10/process.S:46-49 | every further product is added on the right |
| `DotProduct.DotProduct` | src/apps/sem10/process.S:16-55 | the unrolled loop and its tail compute the left-to-right sum of the first n products for any addition and multiplication, and zero for n <= 0 |

## Left out

- Memory orderings weaker than sequential consistency; all atomic accesses of the source are sequentially consistent or, as the store to the unpublished node, private until the exchange.
- The concurrent programs are transition systems on immutable states, not Dafny methods run in parallel: what is updated in place there is a field of the next state, and a step is one access to shared memory.
- Data races as undefined behaviour; that the plain fields `exists`, `value`, `begin` and the output slots are never accessed concurrently follows from the proved exclusion, but is not tied to the C and C++ definitions.
- `pthread_cancel` and the final join of the producer, `src/apps/sem23/task22_2.c:111-112`.
- More than one producer or consumer at the queue: the program has one of each, and with more the shared condition variable can wake the wrong side.
- Thread attributes, stack sizes, `sched_yield`, and failures of thread, process, eventfd and mutex creation.
- Interrupted or failing eventfd accesses; `read` on an eventfd blocks at 0 and otherwise takes the whole counter.
- `task21_4.c` with no threads, where `main` writes to a context that does not exist.
- Order of the buffered standard output of two processes; the log lists the calls of `printf`.
- Lifetimes of the shared context and of copies of the arguments, move semantics, and the sleep in `main` of `cpp_magic.cpp`; the callback and the function do not throw.
- The dispatch table `process_args`, the other shell commands and reading the line; `process_line` ends with the arguments collected, and `func_echo` is modelled by its output, since it returns no value.
- `fixed_mul` for n outside 1 to 32, where its shifts are undefined.
- Null-pointer checks of `src/utils/string.c` and `string_c_str`; a first append of nothing to a string without memory writes through a null pointer, and a source inside the destination or lengths beyond 2^63 are outside the contract of `string_append_buffer`.
- `read_all` when the first `malloc` fails, which the source does not check, or when the sizes exceed 2^62.
- Raw system calls, inline assembly, partial or failing writes, stack alignment and the return of the dot product through the x87 stack.
- Sockets, polling, signals, timers, memory mappings and program execution (`src/apps/sem13` to `sem20`): their behaviour is the kernel's.
- Small examples such as minimum and maximum, linked lists without concurrency, and counters under a lock: they carry no algorithmic content.
