# RT-Thread 1.2.3 kernel and finsh shell: a model and its proofs

This project models the parts of the kernel and of its shell whose
correctness is not visible in any one function, and proves what they promise
over all inputs and all runs.

Each part comes in two layers. One is on values: what the operations do to a
simple picture (tiled blocks, a sorted line of timers, a queue of waiters, an
expression), and lemmas about every run of them. The other is in the form of
the C code: classes whose methods update arrays, links and counters in place,
each proved to be the operation of the picture. So what is proved about the
picture holds of the structure in memory. What a call answers is stated a
second time, in terms of the blocks, bits, counts and queues before and after
it alone, so that it does not rest on how the picture computes it.

| files | part |
|---|---|
| MemHeapPicture, MemHeapAnswers, MemHeap | memheap.c: two interleaved rings over one pool, resize in place, byte counts |
| SmallMemPicture, SmallMemAnswers, SmallMem | mem.c: the small-memory heap, with lfree and plug_holes |
| PageRuns, PageAllocator | slab.c: the page allocator |
| SlabPicture, SlabAnswers, Slab | slab.c: zones, chunks, page descriptors |
| FinshHeapPicture, FinshHeap | finsh_heap.c: the shell's heap and its collector |
| FinshLang, FinshOperators, FinshTree, FinshCorrect, FinshLimits, FinshCode, FinshMachine | finsh_compiler.c, finsh_ops.c, finsh_vm.c: from trees to byte code to the stack machine |
| TimerLine, TimerClock, TimerRows | timer.c: the skip list over wrapping ticks, and expiry over time |
| BinaryDigits | the digits of words, for the ready bitmap, the shell and the timers |
| ThreadObject, WaitQueue | the thread object and the queues it waits in |
| MutexProtocol, Mutex | ipc.c: mutexes with priority inheritance |
| MailboxProtocol, MailboxRing | ipc.c: mailboxes |
| EventProtocol, EventSet | ipc.c: event sets |
| QueueProtocol, MessageQueue | ipc.c: message queues |
| SemaphoreProtocol, Semaphore | ipc.c: semaphores |
| ReadyBits, Scheduler, RoundRobin | kservice.c, scheduler.c, thread.c, clock.c: the ready bitmap and its queues, and time slices |

For the blocking objects every region that runs with interrupts disabled is
one step of a state machine, and steps of different threads come in any order.
A context switch is the assignment of the current thread. A timeout is a step
of its own, which may come whenever a timed wait is pending; how much of a
timeout is left after a wake-up is an arbitrary number.

Where the code does not do what its documentation suggests, the code is kept
and the difference is stated exactly:

- a periodic timer with period zero keeps the expiry loop running for ever
  (TimerClock.LoopEndsIff);
- rt_malloc in mem.c does not find a free block that lies below lfree, nor one
  that is the last of the arena and fits exactly, and fails if and only if there
  is no other (SmallMemPicture.MallocFailsIff); rt_realloc forgets to lower lfree
  (SmallMemPicture.ShrinkGood), and so hides the block it gives back
  (SmallMemPicture.ShrinkHidesBlock);
- memheap.c refuses a request for exactly all free bytes, even if one block has
  them (MemHeapPicture.AllocFailsIff);
- memheap.c rounds small requests to 12 bytes, and 8-byte alignment survives a
  step if and only if it does not cut a block off there
  (MemHeapPicture.ApplyAlignedIff); its realloc rounds twice
  (MemHeap.RoundedTwice);
- a mutex nested 256 deep wraps its hold count (MutexProtocol.NestingLimit), a
  first-come mutex does not keep its owner most urgent
  (MutexProtocol.HandOffUrgentIff), and a thread keeps a boost if and only if
  it acquired under it the mutex it releases last (MutexProtocol.BoostLeftIff;
  an example is MutexProtocol.NestingLeaksBoost);
- a semaphore released at 65535 loses its count (SemaphoreProtocol.StepGoodIff);
- the finsh compiler emits nothing for void pointers, drops an operator whose
  left operand starts with a call, and does not step through a dereference; for
  x++ of a system variable it steps the word at the variable's table entry, and
  for ++x it stores in the variable that word stepped.  FinshLimits.RightIff
  gives for every operator the exact condition under which its code is right,
  FinshLimits.FaithfulIff does so for all parts of a whole expression, and
  FinshLimits.RightIsPaired shows that dropped operators always tell.

`dafny verify dfyconfig.toml` verifies everything.

## Model

| member | source | states |
|---|---|---|
| MemHeapPicture.RunGood | MDK/src/memheap.c:146-593 | after any run of alloc, realloc and free the blocks tile the pool, no two adjacent blocks are free, the last block is the used tailer, and the free list holds exactly the free blocks, once each |
| MemHeapPicture.GoodAlloc | MDK/src/memheap.c:146-288 | an allocation, split or whole, keeps all of that |
| MemHeapPicture.GoodFree | MDK/src/memheap.c:499-593 | a free, merged to the left, to the right, to both or to neither, keeps all of that |
| MemHeapPicture.GoodRealloc | MDK/src/memheap.c:291-496 | so does a realloc that grows in place, shrinks, moves or fails |
| MemHeapPicture.GoodGrow | MDK/src/memheap.c:308-434 | growing takes exactly the free neighbour, and gives back what is too much of it |
| MemHeapPicture.GoodShrink | MDK/src/memheap.c:436-495 | shrinking gives back the tail of the block, joined with a free neighbour |
| MemHeapPicture.AllocFailsIff | MDK/src/memheap.c:159-193 | an allocation fails if and only if every free block is too small, or the request is for all the free bytes there are |
| MemHeapPicture.AllocatedBlock | MDK/src/memheap.c:195-262 | what is allocated is one used block with at least the requested words |
| MemHeapPicture.OwnedSurvivesAlloc | MDK/src/memheap.c:146-288 | an allocation leaves every used block where it was, with its size |
| MemHeapPicture.PayloadsDisjoint | MDK/src/memheap.c:195-262 | the payloads of two used blocks have no word in common |
| MemHeapPicture.Conservation | MDK/src/memheap.c:60-131 | free words, used words and headers add up to the pool, whatever was done |
| MemHeapPicture.AllocThenFree | MDK/src/memheap.c:499-593 | freeing at once what an allocation returned restores every block |
| MemHeapPicture.AllFreeIsFresh | MDK/src/memheap.c:499-593 | a pool with nothing used has the one free block it started with |
| MemHeapPicture.RunLeavesNoTrace | MDK/src/memheap.c:146-593 | after any run that gives everything back the pool is the fresh one |
| MemHeapPicture.ApplyAlignedIff | MDK/src/memheap.c:146-496 | a step keeps every payload 8-byte aligned if and only if it does not cut a block 12 bytes in: an allocation of at most 8 bytes that splits its block, or a realloc to at most 8 bytes that splits, or grows a smaller block in place |
| MemHeapPicture.RunAlignedIff | MDK/src/memheap.c:146-593 | every state of a run is aligned if and only if no step of it makes that cut |
| MemHeapPicture.RunAligned | MDK/src/memheap.c:44-45 | which holds of every run whose requests are over 8 bytes |
| MemHeapPicture.SmallRequestMisaligns | MDK/src/memheap.c:155-157 | and not of a first request of at most 8 bytes |
| MemHeapPicture.FreeWordsSplit | MDK/src/memheap.c:195-232 | splitting a free block costs exactly the new header |
| MemHeapPicture.FreeWordsMerge | MDK/src/memheap.c:533-566 | merging gains exactly the header that disappears |
| MemHeapAnswers.UsedDecide | MDK/src/memheap.c:146-593 | two well-formed pools of one size with the same used blocks have the same blocks, so what follows fixes every block after a call |
| MemHeapAnswers.AllocAnswers | MDK/src/memheap.c:164-262 | an allocation makes the first block of the free list that is large enough used, cut to the request if the rest can hold a header and 12 bytes, and changes no other |
| MemHeapAnswers.FreeAnswers | MDK/src/memheap.c:499-593 | a free ends the use of that block and of no other |
| MemHeapAnswers.ReallocAnswers | MDK/src/memheap.c:308-495 | a realloc to n bytes leaves the block where it is if and only if it is large enough, or the next one is free and the two together have more than the request and 12 bytes; it fails, changing nothing, if and only if it cannot and a request rounded twice would; whatever else it returns is the address of a used block of at least the request, in exchange for the old one |
| MemHeapAnswers.BusiestAnswers | MDK/src/memheap.c:352-420 | the most in use while it runs, which max_used_size counts: both blocks if it moves, otherwise the larger of before and after |
| MemHeapAnswers.AllocOrder | MDK/src/memheap.c:209-255 | an allocation keeps the order of the free list; what is cut off is first |
| MemHeapAnswers.FreeOrder | MDK/src/memheap.c:533-590 | a free keeps it; the block is first unless its left neighbour swallows it |
| MemHeapAnswers.ResizeOrder | MDK/src/memheap.c:352-495 | so does a realloc in place; what is left behind the block is first |
| MemHeapAnswers.OneCall | MDK/src/memheap.c:146-593 | a run of one call is that call; a realloc to nothing is a free |
| MemHeap.Pool.constructor | MDK/src/memheap.c:60-131 | the initial pool, with its headers, both rings and both counters, is the fresh picture |
| MemHeap.Pool.Alloc | MDK/src/memheap.c:146-288 | on the words of the pool, links and counters included, allocation is that of the picture; no other payload changes |
| MemHeap.Pool.Free | MDK/src/memheap.c:499-593 | free on the words of the pool is that of the picture; available_size is the sum of the free payloads |
| MemHeap.Pool.Realloc | MDK/src/memheap.c:291-496 | realloc on the words of the pool is that of the picture, and max_used_size follows in every case; the first min(old, new) words are kept, and every other live payload |
| MemHeap.Pool.FindFit | MDK/src/memheap.c:164-193 | the walk along the free ring finds the first block that is large enough |
| MemHeap.Pool.GrowInPlace | MDK/src/memheap.c:308-434 | the in-place growth: the neighbour leaves both rings, the rest of it is put back |
| MemHeap.Pool.ShrinkInPlace | MDK/src/memheap.c:436-495 | the in-place shrink, and the kept payload |
| MemHeap.RingInsert | MDK/src/memheap.c:217-233 | linking a block in after another keeps the ring circular with next and prev inverse |
| MemHeap.RingRemove | MDK/src/memheap.c:223-227 | unlinking a block keeps the ring circular with next and prev inverse |
| MemHeap.HeadersMissPayloads | MDK/src/memheap.c:60-131 | no header word of any block is a payload word of another |
| MemHeap.RoundedTwice | MDK/src/memheap.c:304-312 | realloc rounds a request before alloc rounds it again: from a null pointer 1 to 8 bytes become 16 where alloc gives 12 |
| FinshCorrect.CompilerCorrect | MDK/components/finsh/finsh_compiler.c:903-937 | executing the code compiled for a line ends with the value of the last statement on an otherwise empty stack and the memory of left-to-right evaluation |
| FinshCorrect.CodeMeaning | MDK/components/finsh/finsh_compiler.c:43-757 | for every sound expression, on every stack and before every continuation, its code pushes its value and has its effect |
| FinshCorrect.LineMeaning | MDK/components/finsh/finsh_compiler.c:912-935 | the values of all statements but the last are popped |
| FinshCorrect.TreeCode | MDK/components/finsh/finsh_compiler.c:43-757 | type check and code generation of the tree of any expression, compiled right or not, give its code, followed by that of its siblings |
| FinshCorrect.TreeLine | MDK/components/finsh/finsh_compiler.c:903-937 | the same for a whole line, whose siblings are cut off and compiled one by one |
| FinshLimits.RightIff | MDK/components/finsh/finsh_compiler.c:43-757 | for every operator over operands that are compiled right: the checked and compiled tree leaves the value and the memory of the expression if and only if the first operand does not start with a call (or a dropped * meets a pointer at itself), the variable is no void pointer, and for ++x and x++ it is a shell variable, or a system variable for which the word (++x) or the address (x++) at the table entry is its own; never for ++*p |
| FinshLimits.FaithfulIff | MDK/components/finsh/finsh_compiler.c:43-757 | for a whole expression, at any depth: all of its parts are compiled right if and only if each meets that condition on the memory it finds |
| FinshLimits.InContext | MDK/components/finsh/finsh_compiler.c:43-757 | code that is right on its own is right on every stack and before every continuation |
| FinshLimits.RightHasNoSurplus | MDK/components/finsh/finsh_compiler.c:43-757 | whatever the expression, its code can be right only if it leaves one stack slot |
| FinshLimits.NetOfCode | MDK/components/finsh/finsh_compiler.c:43-757 | the slots left are one, plus one for each dropped operator of two operands at any depth, less one for each void pointer |
| FinshLimits.RightIsPaired | MDK/components/finsh/finsh_compiler.c:43-757 | so without void pointers no expression is right in which, however deep, the first operand of a binary operator or an assignment starts with a call |
| FinshLimits.OperatorAfterCallIsDropped | MDK/components/finsh/finsh_compiler.c:43-757 | an operator whose first operand starts with a call compiles to both operands and no operation |
| FinshLimits.NotRightIff | MDK/components/finsh/finsh_compiler.c:264-268 | ~ is right if and only if its operand does not start with a call |
| FinshLimits.DerefRightIff | MDK/components/finsh/finsh_compiler.c:719-739 | * is right if and only if its operand does not start with a call or points at itself |
| FinshLimits.PreThroughPointer | MDK/components/finsh/finsh_compiler.c:373-534 | ++ and -- of a dereference leave memory as it was, and are never right |
| FinshLimits.PreStepped | MDK/components/finsh/finsh_compiler.c:373-534 | ++x stores in the variable the word at the step address, stepped; it has no result if that address is not mapped |
| FinshLimits.PreRightIff | MDK/components/finsh/finsh_compiler.c:373-534 | so it is right if and only if the two words are the same |
| FinshLimits.PostStepped | MDK/components/finsh/finsh_compiler.c:535-713 | x++ gives the value of the variable and steps the word at the step address |
| FinshLimits.PostRightIff | MDK/components/finsh/finsh_compiler.c:535-713 | so it is right if and only if the two addresses are the same |
| FinshCode.DecodeEncode | MDK/components/finsh/finsh_compiler.c:43-757 | wherever an instruction is placed in the text, what is fetched there is that instruction and its length |
| FinshCode.OperandLowFirst | MDK/components/finsh/finsh.h:48-55 | an operand lies behind its opcode, lowest byte first |
| FinshCode.EncodeConcat | MDK/components/finsh/finsh_compiler.c:43-757 | code is encoded instruction by instruction |
| FinshCode.RunEncoded | MDK/components/finsh/finsh_vm.c:47-72 | fetching and executing encoded code is executing the code, wherever it lies |
| FinshCode.RunZeros | MDK/components/finsh/finsh_vm.c:47-72 | the zeros behind the code do nothing until the end of the text |
| FinshCode.TextMeaning | MDK/components/finsh/finsh_vm.c:47-72 | a text that holds a line's code and zeros computes the line |
| FinshMachine.Vm.Run | MDK/components/finsh/finsh_vm.c:47-72 | the fetch and dispatch loop on the array of bytes computes what the text means; the 64-slot stack never overflows |
| FinshMachine.Vm.Dispatch | MDK/components/finsh/finsh_vm.c:62-71 | one fetch and one operation of the table is one step of the meaning |
| FinshMachine.Vm.OpCall | MDK/components/finsh/finsh_ops.c:444-569 | a call takes its parameters and the function from the stack, in order, and leaves the result |
| FinshMachine.Vm.OpSt | MDK/components/finsh/finsh_ops.c:428-435 | a store writes the word below the address and leaves it |
| FinshMachine.TypeCheck | MDK/components/finsh/finsh_compiler.c:759-901 | the recursive walk over the nodes leaves the annotated tree in place, and nothing else changed |
| FinshMachine.Compiler.CompileNode | MDK/components/finsh/finsh_compiler.c:43-757 | the recursive walk writes the code of the annotated tree behind what is there |
| FinshMachine.Compiler.Run | MDK/components/finsh/finsh_compiler.c:903-937 | the driver leaves the encoded line at the start of a cleared text |
| FinshMachine.ExecuteLine | MDK/components/finsh/finsh_compiler.c:903-937 | type check, compile and run of a line of nodes on their arrays: value and memory of left-to-right evaluation |
| FinshLang.LoadStored | MDK/components/finsh/finsh_ops.c:375-435 | a stored word is loaded again, byte for byte |
| FinshOperators.StoredLittleEndian | MDK/components/finsh/finsh_ops.c:428-435 | a store writes the word from the address on, lowest byte first, and no other byte |
| FinshOperators.LoadedLittleEndian | MDK/components/finsh/finsh_ops.c:375-388 | and a load reads it so |
| FinshOperators.AddCounts | MDK/components/finsh/finsh_ops.c:69-75 | a + 0 is a, and a step of b is one of the sum, around 2^32 |
| FinshOperators.SubUndoesAdd | MDK/components/finsh/finsh_ops.c:91-97 | subtraction and addition undo each other |
| FinshOperators.MulCounts | MDK/components/finsh/finsh_ops.c:157-163 | a * 0 is 0, and a step of b adds a |
| FinshOperators.DivIs | MDK/components/finsh/finsh_ops.c:113-141 | division and remainder have a meaning unless the divisor is zero or the quotient overflows; a is quotient times b plus remainder, which is smaller than b and has the sign of a |
| FinshOperators.AndOrXorAt | MDK/components/finsh/finsh_ops.c:179-229 | digit by digit, for every digit below 32 |
| FinshOperators.ComplementAt | MDK/components/finsh/finsh_ops.c:245-251 | every digit below 32 is turned |
| FinshOperators.DigitsDecide | MDK/components/finsh/finsh_ops.c:179-251 | and 32 digits determine a word |
| FinshOperators.ShlCounts | MDK/components/finsh/finsh_ops.c:267-273 | a shift by 0 to 31 places to the left: each doubles, around 2^32 |
| FinshOperators.ShrCounts | MDK/components/finsh/finsh_ops.c:289-295 | to the right: each halves the signed value, rounding down |
| TimerLine.CompareExact | MDK/src/timer.c:354-358 | the wrapped comparisons say "later" and "due" rightly exactly for differences in [-0x80000001, 0x7fffffff) |
| TimerLine.SelectInsert | MDK/src/timer.c:374-387 | inserting a timer at the scan position of each row it reaches is inserting it in the bottom row, for any heights |
| TimerLine.SelectWithout | MDK/src/timer.c:121-129 | unlinking from every row is unlinking from the bottom row |
| TimerLine.HeightIs | MDK/src/timer.c:371-389 | a timer is linked in more than k rows if and only if there are as many and the start counter is a multiple of 4 to the k |
| TimerLine.LayersInsert | MDK/src/timer.c:374-387 | the rows keep their containment, each in the one below |
| TimerLine.InsertIsAtPlace | MDK/src/timer.c:339-362 | insertion goes behind every equal deadline |
| TimerLine.InsertGood | MDK/src/timer.c:292-406 | and keeps the row in order of true deadlines |
| TimerRows.TimerList.Init | MDK/src/timer.c:80-105 | an initialised timer is known, inactive and in no row |
| TimerRows.TimerList.Search | MDK/src/timer.c:337-365 | the search that goes down the rows ends in every row where a scan from the front would, across the tick wrap |
| TimerRows.TimerList.Start | MDK/src/timer.c:292-406 | rt_timer_start with any number of rows: unlinked, then linked at its true deadline; activated exactly when linked |
| TimerRows.TimerList.Link | MDK/src/timer.c:371-389 | the start counter decides the rows, and in each the timer goes to its place |
| TimerRows.TimerList.Stop | MDK/src/timer.c:417-440 | an error exactly when the timer is not running |
| TimerRows.TimerList.Check | MDK/src/timer.c:486-544 | the expiry loop ends, fires the due timers in order and leaves the rest, as the expiry of TimerClock says |
| TimerRows.TimerList.Increase | MDK/src/clock.c:83-105 | a tick is one step of TimerClock |
| TimerRows.TimerList.NextTimeout | MDK/src/timer.c:107-118 | the least true deadline, wrapped, or RT_TICK_MAX |
| TimerClock.ExpiryExact | MDK/src/timer.c:486-544 | one expiry fires exactly the timers due, in deadline order, and leaves exactly the later ones and the periodic ones at one period from now |
| TimerClock.LoopEndsIff | MDK/src/timer.c:500-538 | the expiry loop ends if and only if no due periodic timer has a zero period |
| TimerClock.RunGood | MDK/src/timer.c:292-544 | in every run of starts, stops and ticks the line stays ordered with deadlines less than half the range ahead |
| TimerClock.GoodIsComparable | MDK/src/timer.c:354-358 | so every comparison of a start or of the next expiry is one the wrapped ticks get right |
| TimerClock.PeriodicNeverDrifts | MDK/src/timer.c:508-534 | a linked periodic timer fires at its deadline and every period after it, whatever happens to other timers |
| TimerClock.OneShot | MDK/src/timer.c:508-534 | a linked one-shot timer fires at its deadline and never again |
| TimerClock.StartedFiresAfter | MDK/src/timer.c:315-319 | a timer started with n ticks first fires n ticks later, and one with no time at the next tick |
| TimerClock.SilentUntilStarted | MDK/src/timer.c:417-440 | a stopped timer does not fire until it is started again |
| TimerClock.StopSilences | MDK/src/timer.c:417-440 | stopping a timer silences it until it is started again, and touches no other |
| WaitQueue.EnqueueIsStable | MDK/src/ipc.c:92-135 | a priority queue puts a newcomer behind every waiter at least as urgent and in front of the others |
| WaitQueue.LeftAddsUp | MDK/src/ipc.c:1486-1493 | what is left of a timeout goes down by every tick that passes until none is left, in one wait or in several; for ever stays for ever |
| WaitQueue.Suspend | MDK/src/ipc.c:92-135 | the insertion loop is that insertion; the thread is suspended |
| MutexProtocol.InitialGood | MDK/src/ipc.c:525-544 | mutexes just made satisfy both invariants of the runs |
| MutexProtocol.RunSafe | MDK/src/ipc.c:642-859 | for any mutexes, threads and interleaving, nested holding included: value is 1 iff there is no owner iff hold is 0, and then nobody waits; waiting and being queued agree |
| MutexProtocol.ReturnTellsOwnership | MDK/src/ipc.c:642-761 | a take returns RT_EOK if and only if its thread then owns the mutex: a timed-out waiter never does |
| MutexProtocol.TakeAnswers | MDK/src/ipc.c:642-761 | a take is granted, one deeper, if the mutex is free or its own, whatever the timeout; otherwise it is refused if the timeout is zero and else waits, with an end only if the timeout is positive; no other mutex or thread changes state |
| MutexProtocol.ReleaseAnswers | MDK/src/ipc.c:772-859 | a release by the owner is one level less; the last one wakes the waiter in front with the mutex, or frees it; by anyone else it changes nothing |
| MutexProtocol.WaitEnds | MDK/src/ipc.c:715-745 | a timed wait can end in an error at any time, another only with the mutex; a call that is over returns |
| MutexProtocol.HoldCounts | MDK/src/ipc.c:667-807 | over any run in which a thread keeps a mutex, hold is what it was plus its takes less its releases |
| MutexProtocol.LastReleaseFrees | MDK/src/ipc.c:806-840 | so from the take or hand-off that made it the owner on, a release ends the ownership if and only if it makes the releases as many as the takes |
| MutexProtocol.NestingLimit | MDK/src/ipc.c:667-671 | a take keeps the mutex consistent if and only if it does not nest it 256 deep, the range of the 8-bit count |
| MutexProtocol.RunFair | MDK/src/ipc.c:642-859 | with threads that hold one mutex at a time every owner of a mutex with a priority queue is at least as urgent as each of its waiters, whatever the queues of the others |
| MutexProtocol.PriorityRestored | MDK/src/ipc.c:811-818 | over such runs, with queues of either kind, a thread that owns nothing has the priority it started with |
| MutexProtocol.ReleaseRestores | MDK/src/ipc.c:807-836 | in any run, for either kind of queue and any nesting, the final release gives a thread the priority it had when it became the owner, by its own take or by hand-off |
| MutexProtocol.BoostLeftIff | MDK/src/ipc.c:807-836 | so after it the thread has its own priority if and only if it was not boosted when it acquired that mutex |
| MutexProtocol.BlockingBoosts | MDK/src/ipc.c:706-713 | blocking raises the owner to the more urgent of the two priorities and touches no other thread |
| MutexProtocol.HandOffUrgentIff | MDK/src/ipc.c:821-840 | a hand-off leaves the owner most urgent if and only if the thread in front is: first-come queues do not see to it |
| MutexProtocol.NestingLeaksBoost | MDK/src/ipc.c:811-818 | an example: a thread boosted through one mutex takes a second, releases both in that order, and ends owning nothing at the priority of its old waiter |
| Mutexes.Mutex.Take | MDK/src/ipc.c:642-761 | rt_mutex_take on the mutex and thread objects is the take of the protocol |
| Mutexes.Mutex.Release | MDK/src/ipc.c:772-859 | rt_mutex_release on the objects is the release of the protocol, or an error for any thread but the owner |
| Mutexes.Mutex.Timeout | MDK/src/thread.c:636-658 | a timeout takes the thread out of the queue with -RT_ETIMEOUT |
| MailboxProtocol.InitialGood | MDK/src/ipc.c:1253-1281 | a mailbox just made satisfies the invariant of the runs |
| MailboxProtocol.RunGood | MDK/src/ipc.c:1404-1715 | in every interleaving of sends, receives, retries, timeouts and resets: while a receiver sleeps there are as many woken receivers still to look as mails, and dually for senders and free slots |
| MailboxProtocol.NoLostWakeUp | MDK/src/ipc.c:1404-1674 | when every woken thread has looked, a receiver sleeps only on an empty mailbox and a sender only on a full one |
| MailboxProtocol.EachMailOnceInOrder | MDK/src/ipc.c:1494-1502 | without a reset the mails sent are the mails received, in order, followed by those still there |
| MailboxProtocol.LookAnswers | MDK/src/ipc.c:1404-1674 | a send or receive is done if there is a free slot or a mail, whatever the timeout; otherwise an error if the timeout is zero, and else one more waiter; what goes in is last, what comes out was first |
| MailboxProtocol.LookWakes | MDK/src/ipc.c:1506-1517 | it wakes the waiter in front on the other side, and nobody else |
| MailboxProtocol.AgainIsFresh | MDK/src/ipc.c:1433-1494 | a woken thread looks as in a fresh call with the time it has left |
| MailboxProtocol.InterruptIsLook | MDK/src/ipc.c:1404-1674 | a call from an interrupt does what a thread does that does not wait |
| MailboxProtocol.WaitEnds | MDK/src/ipc.c:1469-1481 | a timed wait can end in an error at any time, another cannot; a reset ends every wait in an error and empties the mailbox |
| MailboxProtocol.PrioritySet | MDK/src/thread.c:482-526 | a priority set from outside is the one the next wait queues by |
| MailboxProtocol.RunConcat | MDK/src/ipc.c:1404-1735 | a run is its first part and then the rest, a step at a time |
| MailboxRing.RtMailbox.SendPass | MDK/src/ipc.c:1404-1522 | a pass of rt_mb_send_wait on the ring buffer is that of the protocol; in_offset stays (out_offset + entry) mod size |
| MailboxRing.RtMailbox.ReceivePass | MDK/src/ipc.c:1551-1674 | a pass of rt_mb_recv likewise; the oldest mail is returned |
| MailboxRing.RtMailbox.Reset | MDK/src/ipc.c:1686-1715 | everyone asleep is woken with -RT_ERROR, and the ring is empty |
| MailboxRing.PutIsAppend | MDK/src/ipc.c:1494-1500 | writing at the input offset appends a mail, across the end of the ring |
| MailboxRing.TakeIsRest | MDK/src/ipc.c:1641-1647 | reading at the output offset removes the oldest |
| EventProtocol.InitialGood | MDK/src/ipc.c:889-906 | an event set just made satisfies the invariant of the runs |
| EventProtocol.RunGood | MDK/src/ipc.c:998-1237 | over every run whoever waits for all of its bits lacks one, and whoever waits for any lacks them all; and a woken thread still finds the bits it was woken with |
| EventProtocol.SweepLeavesNobody | MDK/src/ipc.c:1017-1066 | after a send so too, although the set shrinks while the queue is walked: whoever still waits lacks a bit of its wait for all, or every bit of its wait for any |
| EventProtocol.SendIsRetry | MDK/src/ipc.c:1017-1066 | waking with the bits in hand is the same as every waiter calling rt_event_recv again in queue order |
| EventProtocol.LoneWaiter | MDK/src/ipc.c:1093-1199 | a lone waiter woken by a send and a thread that receives after it get the same bits and leave the same set |
| EventProtocol.SweepAccounts | MDK/src/ipc.c:1017-1066 | every bit a send clears went to exactly one woken thread, and every woken thread got all, or some, of what it asked for |
| EventProtocol.ReceiveAnswers | MDK/src/ipc.c:1120-1148 | a receive is granted if and only if it is for all and they are there, or for any and one is; it gets those of its bits that are there, and if it clears, just those go |
| EventProtocol.CallAnswers | MDK/src/ipc.c:1120-1172 | so whatever the timeout; otherwise it is refused if the timeout is zero, and else one more waiter; nobody else notices |
| EventProtocol.SendAnswers | MDK/src/ipc.c:998-1071 | after a send each waiter sleeps on lacking what it waits for, or is woken with bits that were there, all it asked if it waits for all; a bit that is gone was cleared by one of them |
| EventProtocol.WaitEnds | MDK/src/ipc.c:1161-1172 | a timed wait can end in an error at any time, another cannot; a reset ends every wait in an error and leaves no bit |
| EventProtocol.PrioritySet | MDK/src/thread.c:482-526 | a priority set from outside is the one the next wait queues by |
| EventProtocol.RunConcat | MDK/src/ipc.c:998-1240 | a run is its first part and then the rest, a step at a time |
| EventSet.RtEvent.Send | MDK/src/ipc.c:998-1077 | the traversal loop on the queue and thread objects is that walk |
| EventSet.RtEvent.Receive | MDK/src/ipc.c:1093-1199 | rt_event_recv grants, refuses or suspends by that condition on the bits, and is the receive of EventProtocol |
| QueueProtocol.InitialGood | MDK/src/ipc.c:1738-1785 | a message queue just made satisfies the invariant of the runs |
| QueueProtocol.RunGood | MDK/src/ipc.c:1924-2275 | in every interleaving each node of the pool is free, queued or held by exactly one thread between its regions, messages come out in queue order with urgent ones first, and no wake-up is lost |
| QueueProtocol.ReadsWhatItTook | MDK/src/ipc.c:2192-2207 | a receiver that copies with interrupts enabled still copies the message it took |
| QueueProtocol.AtRest | MDK/src/ipc.c:1924-2221 | with nobody between two regions, free list and queue are the whole pool and a receiver sleeps only on an empty queue |
| QueueProtocol.SendCompletes | MDK/src/ipc.c:1924-2082 | a sender that gets a node puts its message last, or first if urgent, whatever others do between its three parts |
| QueueProtocol.ReceiveCompletes | MDK/src/ipc.c:2095-2220 | a receiver that finds a message gets the one in front, whatever others do while it copies, and gives the node back |
| QueueProtocol.GrabAnswers | MDK/src/ipc.c:1942-1951 | an error if and only if no node is free |
| QueueProtocol.ReceiveAnswers | MDK/src/ipc.c:2118-2203 | a message if there is one, whatever the timeout; otherwise an error if the timeout is zero, and else one more waiter |
| QueueProtocol.LinkWakes | MDK/src/ipc.c:1981-1992 | a message wakes the receiver in front, and nobody else |
| QueueProtocol.AgainIsFresh | MDK/src/ipc.c:2126-2190 | a woken receiver looks as in a fresh call with the time it has left |
| QueueProtocol.WaitEnds | MDK/src/ipc.c:2164-2177 | a timed wait can end in an error at any time, another cannot; a reset ends every wait in an error and leaves no message |
| QueueProtocol.PrioritySet | MDK/src/thread.c:482-526 | a priority set from outside is the one the next wait queues by |
| QueueProtocol.RunConcat | MDK/src/ipc.c:1924-2281 | a run is its first part and then the rest, a step at a time |
| MessageQueue.RtMessageQueue.constructor | MDK/src/ipc.c:1757-1782 | every node of the pool starts on the free list |
| MessageQueue.RtMessageQueue.Grab | MDK/src/ipc.c:1942-1953 | a sender gets the first free node, or RT_NULL exactly when there is none |
| MessageQueue.RtMessageQueue.Fill | MDK/src/ipc.c:1955-1958 | the copy of rt_mq_send writes its own node, which also ends it, and no node in other hands |
| MessageQueue.RtMessageQueue.FillUrgent | MDK/src/ipc.c:2042-2043 | the copy of rt_mq_urgent leaves the link of its node alone |
| MessageQueue.RtMessageQueue.LinkTail | MDK/src/ipc.c:1965-1985 | the node goes to the end of the queue; the tail is the last node and entry the length; nodes held by other threads stay theirs, links and messages unchanged |
| MessageQueue.RtMessageQueue.LinkHead | MDK/src/ipc.c:2052-2074 | an urgent node goes to the front; nodes held by other threads stay theirs, unchanged |
| MessageQueue.RtMessageQueue.Take | MDK/src/ipc.c:2109-2202 | the head of the queue, a refusal, or a wait |
| MessageQueue.RtMessageQueue.PutBack | MDK/src/ipc.c:2210-2213 | the node goes back to the free list; nodes held by other threads stay theirs, unchanged |
| MessageQueue.RtMessageQueue.ReleaseAll | MDK/src/ipc.c:2249-2266 | a reset puts every queued node on the free list; nodes held by any thread stay its own, unchanged |
| SemaphoreProtocol.InitialGood | MDK/src/ipc.c:211-231 | a semaphore just made satisfies the balance |
| SemaphoreProtocol.RunBalances | MDK/src/ipc.c:328-469 | initial value and releases are the present value and the takes granted; a positive value means no waiter; every blocked take was handed over, timed out, or waits |
| SemaphoreProtocol.StepGoodIff | MDK/src/ipc.c:435-469 | a step keeps the balance if and only if it is not a release that overflows the 16-bit value |
| SemaphoreProtocol.TakeAnswers | MDK/src/ipc.c:328-411 | a take is granted while the count is positive, whatever the timeout; otherwise refused, changing nothing, if the timeout is zero, and else one more waiter |
| SemaphoreProtocol.ReleaseAnswers | MDK/src/ipc.c:436-480 | a release wakes the waiter in front with the semaphore; without one the count rises |
| SemaphoreProtocol.WaitEnds | MDK/src/ipc.c:380-400 | a timed wait can end in an error at any time, another cannot |
| SemaphoreProtocol.RunConcat | MDK/src/ipc.c:328-480 | a run is its first part and then the rest, a step at a time |
| Semaphores.Semaphore.Take | MDK/src/ipc.c:328-411 | rt_sem_take on the objects is the take of the protocol |
| Semaphores.Semaphore.Release | MDK/src/ipc.c:435-469 | rt_sem_release on the objects is the release of the protocol |
| ReadyBits.FfsIsLowest | MDK/src/kservice.c:1235-1249 | find-first-set of every 32-bit word is one more than its lowest bit, or zero |
| ReadyBits.TableRight | MDK/src/kservice.c:1205-1223 | every entry of the byte table that is looked up is right |
| ReadyBits.MarkIs | MDK/src/scheduler.c:297-300 | marking a priority, in one word or in two levels, shows that priority and changes no other |
| ReadyBits.UnmarkIs | MDK/src/scheduler.c:336-348 | and unmarking hides it and no other |
| ReadyBits.FirstIs | MDK/src/scheduler.c:200-211 | the two-step choice is the most urgent priority shown, with 32 and with 256 levels |
| Scheduler.System.Schedule | MDK/src/scheduler.c:191-258 | unlocked, the current thread is the first of the most urgent non-empty queue; locked, it stays |
| Scheduler.System.Insert | MDK/src/scheduler.c:267-308 | a ready thread goes to the end of its queue, and bitmap and queues agree |
| Scheduler.System.Remove | MDK/src/scheduler.c:313-353 | a thread leaves its queue, if it is in one, and bitmap and queues agree |
| Scheduler.System.Startup | MDK/src/thread.c:203-238 | a started thread is ready at its initial priority, and every ready thread is queued at its own |
| Scheduler.System.Resume | MDK/src/thread.c:595-626 | a suspended thread becomes ready; an error for any other |
| Scheduler.System.Suspend | MDK/src/thread.c:554-584 | a ready thread is suspended; an error for any other |
| Scheduler.System.Timeout | MDK/src/thread.c:636-658 | a timed-out thread is ready with -RT_ETIMEOUT, and the scheduler has chosen |
| Scheduler.System.ChangePriority | MDK/src/thread.c:482-526 | a ready thread changes queue, masks and bitmap with its priority, any other only its masks |
| Scheduler.System.Close | MDK/src/thread.c:245-276 | a detached or deleted thread is in no queue, and no other thread leaves one |
| Scheduler.System.Exit | MDK/src/thread.c:47-82 | the exiting thread is closed and another one runs |
| Scheduler.System.Yield | MDK/src/thread.c:377-411 | the running thread goes behind the others of its queue |
| Scheduler.System.EnterCritical | MDK/src/scheduler.c:358-373 | the lock nests, and nothing else changes |
| Scheduler.System.ExitCritical | MDK/src/scheduler.c:378-402 | the outermost unlock schedules |
| Scheduler.System.TimeSlice | MDK/src/clock.c:90-101 | the slice of the running thread goes down, and at its end the thread goes behind its queue; settled, that is one tick of the round robin; with the scheduler locked it runs on, and between its suspension and the next schedule it gives way to nobody |
| RoundRobin.FullRound | MDK/src/clock.c:83-105 | over a full round each thread of the queue runs for exactly its slice, without interruption, in queue order, and then the queue is as it was |
| RoundRobin.OneTurn | MDK/src/thread.c:377-411 | a thread with k ticks left runs for these and goes to the end with a full slice |
| RoundRobin.ManyRounds | MDK/src/clock.c:83-105 | and so over any number of rounds: who runs at every tick, and the queue at the end |
| RoundRobin.FirstRound | MDK/src/clock.c:83-105 | from partly used slices each thread first runs for what it has left, in queue order, and then all slices are full |
| RoundRobin.AnyStart | MDK/src/clock.c:83-105 | so from any start the whole schedule is the rests and then round after round of full slices |
| PageRuns.OneList | MDK/src/slab.c:246-332 | a set of free pages has exactly one list of separated runs in address order |
| PageRuns.AllocTakes | MDK/src/slab.c:246-280 | allocation takes exactly n contiguous free pages and keeps the list canonical |
| PageRuns.AllocLowest | MDK/src/slab.c:246-280 | it fails if and only if no n contiguous pages are free, and otherwise gives the lowest |
| PageRuns.FreeJoins | MDK/src/slab.c:282-332 | release is set union, with the list canonical after two- and three-way merges |
| PageRuns.AllocThenFree | MDK/src/slab.c:246-332 | releasing what an allocation returned restores the identical list |
| PageRuns.RunGood | MDK/src/slab.c:246-332 | over every run free pages and owned spans share out the heap |
| PageRuns.RunLeavesNoTrace | MDK/src/slab.c:246-332 | once everything is released, in any order, the list is the first one |
| PageAllocator.PageHeap.AllocPages | MDK/src/slab.c:246-280 | the search and the relinking in the pages are that allocation |
| PageAllocator.PageHeap.FreePages | MDK/src/slab.c:282-332 | and the release, in all of its branches |
| SlabPicture.ZoneIndexIs | MDK/src/slab.c:411-475 | a request gets the chunk size of its zone index, the least one that holds it |
| SlabPicture.ChunksAligned | MDK/src/slab.c:640-660 | the chunks of a zone start right behind its header, every one aligned to its size if that is a power of two, and the first to 8 bytes otherwise |
| SlabPicture.RunGood | MDK/src/slab.c:488-934 | over every run each chunk is never used, given back or live, z_nfree counts those not live, a zone is listed exactly when in use with room, at most two empty zones are kept, and zones, large blocks and free pages share out the heap |
| SlabPicture.MallocGood | MDK/src/slab.c:488-686 | what rt_malloc returns is a chunk of the right size that was not live, or pages of its own |
| SlabPicture.MallocFailsIff | MDK/src/slab.c:488-686 | a large request fails if and only if no run of free pages is long enough; a small one if and only if every zone of its chunk size is full, no empty zone is kept, and there are no pages for a new one |
| SlabPicture.FreeGood | MDK/src/slab.c:793-934 | rt_free of a live chunk gives back that chunk and no other |
| SlabPicture.FreeLargeGood | MDK/src/slab.c:827-853 | rt_free of a large block gives back its pages |
| SlabAnswers.SmallFrom | MDK/src/slab.c:548-660 | a small request takes its chunk from a zone in use if one of its size has room, else from the empty zone kept last, else from the lowest pages that make a zone, and leaves the others |
| SlabAnswers.LastBackFirst | MDK/src/slab.c:571-583 | a zone gives out the chunks never used in their order, and then those given back, the last one first |
| SlabAnswers.RetiredIff | MDK/src/slab.c:870-905 | freeing a chunk retires its zone if and only if it was the only live one there and another zone of the size has room; a zone that was full and stays is the next to be taken from |
| SlabAnswers.RetiredTo | MDK/src/slab.c:896-930 | a retired zone is kept, first of the empty ones, if fewer than two are; otherwise its pages are free again and their descriptors say so |
| SlabAnswers.LargeTakes | MDK/src/slab.c:505-517 | a large request gets the lowest free pages that hold it, and their first descriptor counts them |
| SlabAnswers.LargeGivesBack | MDK/src/slab.c:827-853 | giving it back frees just these and clears the count |
| SlabAnswers.OneCall | MDK/src/slab.c:488-934 | a run of one call is that call: rt_free finds a chunk or a large block from its address |
| SlabPicture.LookupChunk | MDK/src/slab.c:859-862 | the descriptor of a chunk's page leads to its own zone, and its place there to its own number |
| SlabPicture.ChunksApart | MDK/src/slab.c:640-671 | two live chunks have no byte in common |
| SlabPicture.FreeCount | MDK/src/slab.c:886-893 | z_nfree equals z_nmax exactly when no chunk of the zone is live |
| SlabPicture.MallocUsed | MDK/src/slab.c:530-669 | the sizes of all live chunks and large blocks go up by the chunk size or the pages of what rt_malloc hands out, and by nothing if it fails |
| SlabPicture.FreeChunkUsed | MDK/src/slab.c:865-867 | and down by the size of the chunk given back, retired zone or not |
| SlabPicture.FreeLargeUsed | MDK/src/slab.c:827-841 | or of the large block |
| SlabPicture.NothingUsedIff | MDK/src/slab.c:488-934 | their sum is never negative, and zero if and only if nothing is live |
| SlabHeap.SlabAllocator.constructor | MDK/src/slab.c:354-404 | the initial heap keeps its first pages for the descriptors; the zones are as large as the size of the heap asks for; both counts are zero |
| SlabHeap.SlabAllocator.Malloc | MDK/src/slab.c:488-686 | rt_malloc on the headers, lists, descriptors and pages is that of SlabPicture; used_mem is always the size of all live chunks and large blocks, max_mem its maximum |
| SlabHeap.SlabAllocator.FreeMem | MDK/src/slab.c:793-934 | and rt_free, from the pointer alone; used_mem goes down by the size of the block |
| SmallMemPicture.RunGood | MDK/src/mem.c:246-558 | over every run of malloc, free and realloc blocks tile the arena, no two adjacent are free, used_mem is what used blocks cover, and lfree is a free block or the end |
| SmallMemPicture.StepLowestIff | MDK/src/mem.c:246-558 | any call leaves lfree the lowest free block if and only if it is not a realloc that shrinks a live block with no free block below it and none behind it |
| SmallMemPicture.RunLowestIff | MDK/src/mem.c:246-558 | lfree is the lowest free block in every state of a run if and only if no call of it is of that kind; malloc and free never are |
| SmallMemPicture.RunLowest | MDK/src/mem.c:246-558 | over every run without such a call, so over all runs of malloc and free, lfree ends as the lowest free block |
| SmallMemPicture.MallocGood | MDK/src/mem.c:246-374 | malloc adds one used block of at least the request and takes nothing from any other |
| SmallMemPicture.MallocLowest | MDK/src/mem.c:283-290 | malloc returns the lowest block that fits from lfree on and below the bound of its search; with lfree the lowest free block none is passed over |
| SmallMemPicture.MallocFailsIff | MDK/src/mem.c:283-290 | in every reachable arena it fails if and only if every free block large enough lies below lfree, or is the last of the arena and fits exactly: the bound is one short |
| SmallMemPicture.FreeGood | MDK/src/mem.c:504-558 | free gives up one used block and merges it with its neighbours |
| SmallMemPicture.ShrinkGood | MDK/src/mem.c:430-453 | shrinking shortens one block; lfree stays the lowest free block if and only if it was below the block or the neighbour is free |
| SmallMemPicture.ShrinkHidesBlock | MDK/src/mem.c:430-453 | a run after which a request is refused although a free block that is not the last has room: rt_realloc gave it back and left lfree above it |
| SmallMemPicture.ReallocGood | MDK/src/mem.c:385-466 | realloc keeps the arena and every other used block |
| SmallMemPicture.PlugGood | MDK/src/mem.c:136-174 | plugging holes leaves no two free blocks adjacent, and the lowest free address and all used blocks as they were |
| SmallMemPicture.EmptyIsOneBlock | MDK/src/mem.c:504-558 | an arena with nothing used is one free block |
| SmallMemAnswers.WordsIs | MDK/src/mem.c:258 | a request covers the bytes asked for, in steps of 8, with less than 8 to spare |
| SmallMemAnswers.UsedDecide | MDK/src/mem.c:246-558 | two well-formed arenas of one size with the same used blocks have the same blocks, so what follows fixes every block after a call |
| SmallMemAnswers.MallocAnswers | MDK/src/mem.c:283-352 | malloc makes the lowest free block from lfree on that is large enough, other than a last one that just fits, used, cut to the request if the rest can hold a header and 12 bytes rounded up, and changes no other |
| SmallMemAnswers.FreeAnswers | MDK/src/mem.c:504-558 | free ends the use of that block and of no other |
| SmallMemAnswers.ReallocAnswers | MDK/src/mem.c:385-466 | realloc leaves the block where it is if and only if the rounded request is its size, or leaves more than a header and 12 bytes over; it fails, changing nothing, if and only if it cannot and the request is for nothing or every free block large enough lies below lfree or is last and just fits; whatever else it returns is the address of a used block of at least the request, in exchange for the old one |
| SmallMemAnswers.ReallocElse | MDK/src/mem.c:396-417 | of a null pointer it is malloc; a pointer to no used block comes back, unless the request exceeds the arena |
| SmallMemAnswers.PeakAnswers | MDK/src/mem.c:325-349 | max_mem is raised exactly to the new used_mem where that is larger |
| SmallMemAnswers.OneCall | MDK/src/mem.c:246-558 | a run of one call is that call |
| SmallMem.SmallHeap.constructor | MDK/src/mem.c:184-238 | the initial arena and its sentinel |
| SmallMem.SmallHeap.Malloc | MDK/src/mem.c:246-374 | rt_malloc on the words of the arena, prev inverting next, is that of the picture; no used data changes |
| SmallMem.SmallHeap.FreeMem | MDK/src/mem.c:504-558 | rt_free on the words of the arena is that of the picture |
| SmallMem.SmallHeap.ReallocMem | MDK/src/mem.c:385-466 | rt_realloc on the words of the arena is that of the picture; the data both blocks hold is carried over, all other used data stays |
| SmallMem.SmallHeap.PlugHoles | MDK/src/mem.c:136-174 | the relinking of plug_holes joins the same blocks and moves lfree as the picture does |
| FinshHeapPicture.RunGood | MDK/components/finsh/finsh_heap.c:73-298 | over every run free and allocated blocks fill the heap, both lists are in address order, free blocks do not touch, and the topmost block is free |
| FinshHeapPicture.GcExact | MDK/components/finsh/finsh_heap.c:133-161 | the collector frees exactly the blocks no typed variable points to |
| FinshHeapPicture.AllocateSafe | MDK/components/finsh/finsh_heap.c:73-110 | allocation, collecting or not, reclaims and overlaps no block a variable points to |
| FinshHeapPicture.AllocateFailsIff | MDK/components/finsh/finsh_heap.c:80-97 | it fails if and only if, after a collection, no free block holds the data and two headers |
| FinshHeapPicture.UsedDecide | MDK/components/finsh/finsh_heap.c:73-298 | two well-formed heaps of one size with the same allocated blocks are the same, so what follows fixes the heap after a call |
| FinshHeapPicture.AllocateAnswers | MDK/components/finsh/finsh_heap.c:73-110 | if a free block holds the data, two headers and a word, the lowest such gives its front and nothing is released; otherwise the unreferenced blocks are released first, and the lowest that then holds the data and two headers gives its front |
| FinshHeapPicture.ReleaseAnswers | MDK/components/finsh/finsh_heap.c:115-128 | a free releases that block and no other |
| FinshHeapPicture.OneCall | MDK/components/finsh/finsh_heap.c:73-128 | a run of one call is that call |
| FinshHeapPicture.EmptyIsOneBlock | MDK/components/finsh/finsh_heap.c:115-128 | with nothing allocated the heap is one free block |
| FinshHeap.Store.HeapAllocate | MDK/components/finsh/finsh_heap.c:73-110 | on the words of the heap: the allocation of the picture, zeroed, with the data of every other block kept |
| FinshHeap.Store.HeapFree | MDK/components/finsh/finsh_heap.c:115-128 | remove, insert and merge on the words are the release of the picture |
| FinshHeap.Store.HeapGc | MDK/components/finsh/finsh_heap.c:133-161 | the loop over blocks and variables is the collection of the picture |
| FinshHeap.Store.BlockInsert | MDK/components/finsh/finsh_heap.c:166-200 | insertion in address order, provided that a block that becomes the last one already ends the list |
| FinshHeap.NeverLast | MDK/components/finsh/finsh_heap.c:166-200 | a released block never becomes the last free one, because the topmost block is free |
| FinshHeap.Store.BlockMerge | MDK/components/finsh/finsh_heap.c:248-298 | the block in its place joined with whatever it touches |
| FinshHeap.FreeIsMerged | MDK/components/finsh/finsh_heap.c:248-298 | which is release as set union |

## Left out

- Board, driver and context-switch code, hooks, debug output and list commands: no state of these parts.
- module.c (loading of modules): not enabled in this configuration.
- Mempools: a timed-out waiter is not counted off, so nothing of interest holds of the count.
- The semaphore that locks each allocator: every allocator call is one step. The failure path of rt_malloc in slab.c releases it twice.
- rt_malloc, rt_realloc and rt_free over several memheaps, and rt_memheap_detach: thin layers over one pool.
- Request sizes near 2^32, whose rounding wraps: a precondition of MemHeap.Pool.Alloc and MemHeap.Pool.Realloc; sizes in mem.c, slab.c and finsh_heap.c are unbounded numbers.
- The magic words of block headers: only asserted, never branched on, in mem.c and slab.c.
- An arena of mem.c with less than 16 bytes of data, for which the bound of the search wraps: a precondition of SmallMem.SmallHeap.constructor.
- rt_realloc and rt_calloc of slab.c, which copy between two blocks of rt_malloc; and the headers and descriptors of slab.c as bytes of the pages they lie in (they are a map and an array).
- The page allocator's headers as words of the pages (they are two arrays by page number).
- The finsh parser and lexer: the model starts from the trees the parser builds. FINSH_NODE_MAX bounds trees, not their meaning.
- Finsh trees with BYTE and WORD data: their loads leave the rest of a stack slot stale.
- FinshMachine.ExecuteLine: requires that the code of a line fits the 128-byte text segment, as the compiler does not look.
- FinshCorrect.CompilerCorrect: division by zero, the one quotient that overflows, shifts of 32 and more, unmapped addresses and calls with more than 16 arguments have no meaning, so nothing is said of them; system calls are an arbitrary function of their arguments and the memory.
- The stack and the text of the finsh machine as memory its programs could address.
- TimerClock.RunGood: the times of timers are fixed in a run; what rt_timer_control sets takes effect between runs, and the invariant does not depend on it.
- Timers restarted or stopped from a callback, rt_tick_set, detached timers (which keep their ACTIVATED flag), and the soft-timer thread, whose list is the same structure.
- TimerRows.TimerList.Start: the deadline and the links are one step; a tick between the two regions of rt_timer_start is not modelled, but any deadline the comparison can tell apart is allowed.
- Detaching or deleting a mutex, semaphore, event, mailbox or message queue: its waiters are woken with an error as by a reset, and the object is gone.
- rt_sem_control: a reset sets the value anew, so the balance starts again.
- MutexProtocol.RunFair: threads hold one mutex at a time and waiting or owning threads have their priority changed by inheritance only; a suspended thread's change does not re-sort its queue (MDK/src/thread.c:510-522).
- Calls from interrupts other than a non-blocking mailbox call: they are the same regions as those of a thread.
- The widths of entry and size in mailboxes and message queues (16 bits): both are bounded by the size of the pool.
- Scheduler.System.Close: the defunct list and the cleanup call; and threads deleted before they were started, whose masks were never computed.
- rt_thread_sleep: a suspend, a timer start and a schedule, each modelled on its own.
