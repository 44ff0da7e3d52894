# misan in Dafny

misan is a set of small, freestanding sanitizer runtimes: shadow state, bookkeeping tables and a
lock-free allocator, a few hundred lines of C each. This project models those runtimes and proves
what their tables and clocks mean over whole runs. `dafny verify dfyconfig.toml` checks all of it.

Each runtime comes in two layers. A *runtime* class (`TsanRuntime.Tsan`, `LsanRuntime.Lsan`,
`BumpAllocator.Allocator`, `AsanRuntime.Asan`, `MsanRuntime.Msan`, `CfiTable.Cfi`) has the original's
tables as arrays and fields, its loops as loops, and methods whose contracts equate the new state
with a step function of the old one. The lemmas are about those step functions, over every sequence
of steps.

- **ThreadSanitizer** (`TsanState`, `TsanEvents`, `HappensBefore`, `TsanClocks`, `TsanRaces`,
  `TsanVerdicts`, `TsanProtocol`, `TsanMutexes`, `TsanMachine`, `TsanRuntime`, `ProbeTable`). A run
  is a sequence of atomic steps; a report or an exhausted thread table ends it. The log of a run
  resolves each step to a thread id and a table slot and records the acting thread's clock just
  before the step; each entry is pinned to its event. A machine that knows only maps and events is
  proved to do the same. Happens-before is defined twice: as paths of edges over the log (program
  order, and the latest release of a mutex entry since its creation to each acquire of it), and as
  sets computed forward; both are proved equal. On that rest the exact meaning of a clock component,
  of a race report, and of the places where the report departs from happens-before. With the hooks
  used as meant, nothing is ever synchronised (`TsanProtocol`): the lock hook's own checked write
  reports the second thread first. That takes the write to be recorded; once the shadow table is
  full of other addresses it is not, and locks do synchronise.
- **LeakSanitizer** (`LsanHeap`, `LsanRegistry`, `LsanReachability`, `LsanRuntime`). What the tables
  hold, and what a check reports, is told from the calls alone. The scan marks an allocation
  reachable when a root or *any* active allocation refers to it. Its relation to transitive
  reachability is proved over arbitrary heap graphs: reports are sound, and what it misses hangs off
  an unreachable cycle.
- **Common runtime** (`BumpAllocator`, `DigitPrinter`). The compare-and-swap retry loop under every
  interleaving of callers and resets; the digit loop with its buffer bound and round trip.
- **AddressSanitizer** (`AsanShadow`, `AsanGlobals`, `AsanRuntime`). The 8-to-1 shadow as a set of
  inaccessible addresses, and registration of globals end to end.
- **MemorySanitizer** (`MsanMemory`, `MsanOrigins`, `MsanRuntime`). Shadow and origins as two
  regions of one flat memory, the bound up to which they do not meet, and the wrapping id allocator.
- **Control-flow integrity** (`CfiTable`). A chained hash table in the bump pool, as a set of pairs.

Conventions: addresses and 64-bit quantities are natural numbers, with the original's wrap-around
written out where it can be reached; the spin locks make each locked body one step; a thread's
registration is one step because nobody reads a thread's slot before its first recorded access; the
atomics are sequentially consistent. A call that does not return (a report, a fatal error) is a
status value.

Where the code and its own comments disagree, the model follows the code:
the atomic increment returns the new value, so thread ids start at 1 and origin ids at 2; the leak
check counts its findings although the interface promises 0 or 1, and it does not sweep transitively
although its header speaks of mark-and-sweep; a field width never pads but prints for ever when the
number is shorter, as any pointer below 2^60 is; `__asan_address_is_poisoned` answers for a whole grain;
the race check compares the threads' current clocks and never reads the clock stored in the shadow
slot, so it is not exactly happens-before (`VerdictVersusHappensBefore` says where they differ, and
two runs exhibit each kind of difference).

## Model

| member | source | states |
|---|---|---|
| `ProbeTable.ProbeIsFirstStop` | src/tsan/tsan_rtl.c:94-108 | the wrapping probe returns the first slot, in probe order, that holds the key or may be taken, and nothing only if no slot of the table does |
| `ProbeTable.FindIffMember` | src/tsan/tsan_rtl.c:235-250 | a probe that may not allocate succeeds exactly for keys in the table, whatever holes it has, and ends on the key's slot |
| `ProbeTable.InsertRefinesSet` | src/tsan/tsan_rtl.c:94-108 | for any hash: an allocating probe keeps one slot per key and no gap before it, adds exactly its key, finds a present key again, and fails exactly for a new key in a full table |
| `ProbeTable.FullIffCapacity` | src/tsan/tsan_rtl.c:94-108 | a table of different keys has no inactive slot exactly when it has as many keys as slots |
| `ProbeTable.InsertKeepsUniqueIff` | src/tsan/tsan_rtl.c:235-250 | in a table with holes, inserting keeps keys unique if and only if the key is absent or no hole lies between its hash index and its slot |
| `TsanState.RangeIsRun` | src/tsan/tsan_rtl.c:169-185 | a range operation is its byte accesses one after the other and returns if and only if all of them do |
| `TsanEvents.AccessEntry` | src/tsan/tsan_rtl.c:121-155 | the entry of an access event has its address and kind, its thread's id and that thread's clock at the time, and the thread's own component then ticks; nothing else of the clocks, ids and mutexes changes; an access without an entry changes nothing |
| `TsanEvents.OtherEntry` | src/tsan/tsan_rtl.c:252-303 | acquire, release and creation entries come from post-lock, post-unlock and creation events only |
| `TsanEvents.FunctionEntry` | src/tsan/tsan_rtl.c:63-66 | entering a function does no more than register its thread |
| `TsanEvents.TidsFollowOrder` | src/tsan/tsan_rtl.c:44-57 | in every run the threads have the ids 1, 2, ... in the order in which they first act |
| `HappensBefore.SeenIsHB` | src/tsan/tsan_rtl.c:274-303 | the forward sets of log positions hold exactly what paths of program-order and release-acquire edges reach, for threads and for mutex slots |
| `HappensBefore.SeenDownward` | src/tsan/tsan_rtl.c:274-303 | who has seen an entry of a thread has seen all earlier entries of that thread |
| `HappensBefore.SeenThroughRelease` | src/tsan/tsan_rtl.c:292-303 | a thread's past reaches other threads and mutex slots only together with a later release by that thread |
| `TsanClocks.StepKeeps` | src/tsan/tsan_rtl.c:121-155 | every step keeps the clock invariant: own components never decrease and accesses advance them, foreign components are exact maxima over seen releases |
| `TsanClocks.RunKeeps` | src/tsan/tsan_rtl.c:121-303 | the clock invariant holds after every run |
| `TsanClocks.ClockCapturesHB` | src/tsan/tsan_rtl.c:148-152 | in every run an access of t stamped c happens before another thread u's present if and only if u's component for t is at least c + 2 |
| `TsanClocks.ComponentIsLatestRelease` | src/tsan/tsan_rtl.c:276-300 | u's component for t is the largest stamp + 1 over the releases of t that happen before u's present, or 0 if there are none |
| `TsanClocks.NoClockLeadsByMoreThanOne` | src/tsan/tsan_rtl.c:292-303 | no thread or mutex clock leads its owner by more than one, and one that leads stems from a release since which the owner recorded no access |
| `TsanClocks.SlotZeroIsSilent` | src/tsan/tsan_rtl.c:44-57 | in every run ids are different and in 1..63, slot 0's clock is zero, and component 0 of every clock is zero |
| `TsanClocks.ClocksStaySmall` | src/tsan/tsan_rtl.c:72-74 | every clock component is at most the number of events plus two, so 64 bits suffice for any run shorter than 2^64 - 2 events |
| `TsanClocks.OwnCountsAccesses` | src/tsan/tsan_rtl.c:269-303 | if each acquire of t follows a recorded access of t with no release of t in between, t's own component is 1 plus its number of recorded accesses |
| `TsanRaces.ShadowIsLastAccessMap` | src/tsan/tsan_rtl.c:87-108 | in every run the shadow table is well-formed and maps exactly the recorded addresses to their last recorded access |
| `TsanRaces.UnrecordedIffFull` | src/tsan/tsan_rtl.c:127-131 | an access of any thread, registered or not, returns unrecorded if and only if its address is new and the recorded accesses are to 65536 addresses |
| `TsanRaces.EpochTestMeansOutOfTouch` | src/tsan/tsan_rtl.c:83-85 | the epoch test fails exactly when y has seen no release of x, or x has moved by at least two since the latest one y has seen |
| `TsanRaces.FirstAccessIsSilent` | src/tsan/tsan_rtl.c:100-104 | the first recorded access to an address never reports |
| `TsanRaces.LastAccessIsEvent` | src/tsan/tsan_rtl.c:121-155 | the log's last entry for an address is the last recorded access event to it |
| `TsanRaces.RaceVerdict` | src/tsan/tsan_rtl.c:121-155 | over runs: an access reports if and only if the last recorded access event to its address is by another thread, one of the two writes, and each thread is out of touch with the other; the report names those two accesses |
| `TsanVerdicts.VerdictVersusHappensBefore` | src/tsan/tsan_rtl.c:133-145 | for an access that clashes with the last recorded access event, exact conditions on current clocks for an ordered access to be reported and for an unordered one not to be |
| `TsanVerdicts.OrderedAccessIsReported` | src/tsan/tsan_rtl.c:133-145 | a run of two threads in which a read ordered through a release and an acquire is reported |
| `TsanVerdicts.UnorderedAccessIsMissed` | src/tsan/tsan_rtl.c:133-145 | a run of two threads in which two unordered writes are not reported |
| `TsanProtocol.NothingIsSynchronised` | src/tsan/tsan_rtl.c:269-303 | if whoever locks or unlocks a mutex has written its address before and nobody reads it, no run that is still running has ordered two threads: all foreign components are zero |
| `TsanProtocol.VerdictIsConflict` | src/tsan/tsan_rtl.c:133-145 | there an access reports if and only if the last recorded access event to its address is by another thread and one of the two writes |
| `TsanProtocol.SecondLockerIsReported` | src/tsan/tsan_rtl.c:269-290 | there a second thread writing, as the lock hook does, an address that another has written and nobody reads is always reported, naming the other |
| `TsanMutexes.FindMutexIffLive` | src/tsan/tsan_rtl.c:235-250 | when the table represents a map, a find yields exactly the live mutexes, with their clocks |
| `TsanMutexes.MutexTableIsMap` | src/tsan/tsan_rtl.c:235-267 | if clients create only dead mutexes, in every run the table is the partial map of live mutexes, one slot each, new entries at the zero clock, at most 1024 |
| `TsanMutexes.LockEntry` | src/tsan/tsan_rtl.c:274-285 | under that discipline a post-lock of a live mutex is an acquire by its thread, which becomes the owner and whose clock becomes the pointwise maximum of its own and the mutex's; of any other it does nothing |
| `TsanMutexes.UnlockEntry` | src/tsan/tsan_rtl.c:292-303 | under that discipline a post-unlock of a live mutex is a release by its thread and changes no thread clock; of any other it does nothing |
| `TsanMutexes.CreateEntry` | src/tsan/tsan_rtl.c:252-260 | creating a mutex, live or not, leaves it an entry with the zero clock and no owner where the next find ends, and does nothing only if all slots are taken by others |
| `TsanMutexes.CreateKeepsUniqueIff` | src/tsan/tsan_rtl.c:252-260 | creating keeps addresses unique if and only if the mutex is not live or every slot from its hash index up to its own is active |
| `TsanMutexes.RecreatedBehindHole` | src/tsan/tsan_rtl.c:252-267 | a four-event run after which one address has two active slots |
| `TsanMutexes.MutexClockNeverDecreases` | src/tsan/tsan_rtl.c:292-303 | between any two moments without a creation of an entry, in which only its holders release it, no component of its clock decreases, whatever other entries do |
| `TsanMutexes.AcquirerDominatesHolders` | src/tsan/tsan_rtl.c:274-303 | likewise an acquirer's clock dominates the clock every earlier holder had at its release, since the entry's creation |
| `TsanMachine.RuntimeIsMachine` | src/tsan/tsan_rtl.c:44-303 | if no live mutex is created again, every run of the runtime with its hash tables is the run of a machine with maps: it goes on as long, with the same ids, clocks, live mutexes and last accesses |
| `TsanMachine.RaceIsMachineReport` | src/tsan/tsan_rtl.c:121-155 | there an access is reported exactly when the machine, which knows only maps and events, reports it |
| `TsanMachine.LiveIsMachine` | src/tsan/tsan_rtl.c:252-303 | the machine's live mutexes are the mutex table's map |
| `TsanRuntime.Tsan.GetTid` | src/tsan/tsan_rtl.c:44-57 | takes the registration step, or none if the ids are exhausted |
| `TsanRuntime.Tsan.IncClock` | src/tsan/tsan_rtl.c:72-74 | advances one component of one thread's clock and nothing else |
| `TsanRuntime.Tsan.JoinClock` | src/tsan/tsan_rtl.c:76-81 | the loop joins a clock into a thread's clock in place and changes nothing else |
| `TsanRuntime.Tsan.ShadowGet` | src/tsan/tsan_rtl.c:94-108 | the probe loop terminates with the specified slot, activated for the address, and changes nothing else |
| `TsanRuntime.Tsan.Access` | src/tsan/tsan_rtl.c:121-155 | registers if needed and takes the access step: report, or record and tick |
| `TsanRuntime.Tsan.AccessRange` | src/tsan/tsan_rtl.c:169-185 | the loop takes the range step, stopping at the first access that does not return |
| `TsanRuntime.Tsan.MutexFind` | src/tsan/tsan_rtl.c:235-250 | the probe loop terminates with the specified slot and, when it allocates, a zeroed active entry |
| `TsanRuntime.Tsan.MutexCreate` | src/tsan/tsan_rtl.c:252-260 | takes the creation step |
| `TsanRuntime.Tsan.MutexDestroy` | src/tsan/tsan_rtl.c:262-267 | takes the destruction step |
| `TsanRuntime.Tsan.MutexPre` | src/tsan/tsan_rtl.c:269-290 | takes a write access step on the mutex address |
| `TsanRuntime.Tsan.MutexPostLock` | src/tsan/tsan_rtl.c:274-285 | registers if needed and takes the acquire step |
| `TsanRuntime.Tsan.MutexPostUnlock` | src/tsan/tsan_rtl.c:292-303 | registers if needed and takes the release step |
| `LsanRegistry.TablesFollowCalls` | src/lsan/lsan_rtl.c:37-106 | after every sequence of calls the entries, which of them are live, the roots with their sizes and the disabled flag are what an account kept from the calls alone says |
| `LsanRegistry.OldestRemoved` | src/lsan/lsan_rtl.c:54-65 | unregistering frees the oldest live entry of the address and no other |
| `LsanRegistry.SwappedOut` | src/lsan/lsan_rtl.c:77-87 | dropping a root swap-removes the first one of the base |
| `LsanRegistry.IgnoredIff` | src/lsan/lsan_rtl.c:89-98 | after every sequence of calls an entry is ignored if and only if a call since it was entered ignores its address and no older entry has that address |
| `LsanRegistry.ReportedIffLeaked` | src/lsan/lsan_rtl.c:37-163 | after every sequence of calls and over any memory, an entry is reported if and only if, by the calls, it is live and not ignored, lies in no root, and no whole word of a root or live entry holds its address |
| `LsanHeap.UnregisterRemovesOneRoot` | src/lsan/lsan_rtl.c:77-87 | swap-remove takes out exactly one root of the address and keeps all others |
| `LsanHeap.IgnoreSilencesIff` | src/lsan/lsan_rtl.c:89-98 | ignoring an address silences a reported entry of it if and only if no older entry, freed or not, has that address, and changes no other report |
| `LsanReachability.ReportsAreSound` | src/lsan/lsan_rtl.c:108-163 | over any heap, a reported allocation is active, not ignored, unreachable by any chain from a root, and not based inside a root |
| `LsanReachability.LostIsDownstream` | src/lsan/lsan_rtl.c:114-163 | over any heap, every unreachable allocation is downstream of a reported one, an ignored unreferenced one, or a cycle of unreachable ones |
| `LsanReachability.AcyclicLostIsDownstreamOfReport` | src/lsan/lsan_rtl.c:114-163 | on acyclic heaps the cycle case disappears |
| `LsanReachability.CompleteOnAcyclicHeaps` | src/lsan/lsan_rtl.c:140-163 | on acyclic heaps with nothing ignored the check finds nothing if and only if every active allocation is transitively reachable |
| `LsanReachability.SilentMissIffLostCycle` | src/lsan/lsan_rtl.c:140-163 | with nothing ignored, a check without findings misses something if and only if there is a cycle of unreachable allocations |
| `LsanReachability.SelfPointerHidesLeak` | src/lsan/lsan_rtl.c:127-135 | a heap of one self-pointing allocation without roots is leaked and not reported |
| `LsanRuntime.Lsan.RegisterAlloc` | src/lsan/lsan_rtl.c:37-52 | appends an active entry unless disabled or full |
| `LsanRuntime.Lsan.UnregisterAlloc` | src/lsan/lsan_rtl.c:54-65 | the loop frees the first active entry of the address unless disabled |
| `LsanRuntime.Lsan.RegisterRoot` | src/lsan/lsan_rtl.c:67-75 | appends a root while there is room |
| `LsanRuntime.Lsan.UnregisterRoot` | src/lsan/lsan_rtl.c:77-87 | the loop swap-removes the first root of the address |
| `LsanRuntime.Lsan.IgnoreObject` | src/lsan/lsan_rtl.c:89-98 | the loop marks the first entry of the address, active or not |
| `LsanRuntime.Lsan.Disable` | src/lsan/lsan_rtl.c:100-102 | sets the flag that stops both allocation hooks |
| `LsanRuntime.Lsan.Enable` | src/lsan/lsan_rtl.c:104-106 | clears the flag that stops both allocation hooks |
| `LsanRuntime.Lsan.MarkReachable` | src/lsan/lsan_rtl.c:114-138 | the nested loops answer whether a root or some active allocation refers to the entry |
| `LsanRuntime.Lsan.PrintLeak` | src/lsan/lsan_rtl.c:149-153 | printing a finding returns if and only if its address and all program counters of its stack trace are at least 2^60 |
| `LsanRuntime.Lsan.DoCheck` | src/lsan/lsan_rtl.c:140-163 | prints the active, unignored, unreferenced entries in table order and gets stuck for ever at the first whose address or stack trace holds a pointer below 2^60; otherwise counts them, and dies if fatal with findings |
| `BumpAllocator.BlocksAreSafe` | src/common/san_printf.c:148-173 | in every interleaving of requests below 2^64 less the pool size, the blocks since the last reset are pointer-aligned, inside the pool and pairwise disjoint, each past all earlier ones |
| `BumpAllocator.BlocksArePacked` | src/common/san_printf.c:148-173 | the counter is the end of the last block since the last reset, or 0; the first block after a reset starts the pool, every other where its predecessor ends, rounded up |
| `BumpAllocator.ResetStartsOver` | src/common/san_printf.c:171-173 | a reset forgets all blocks and sets the counter to 0 |
| `BumpAllocator.RequestBoundIsExact` | src/common/san_printf.c:156-161 | a bound on requests keeps all blocks of all runs inside the pool if and only if it is below 2^64 less the pool size |
| `BumpAllocator.SuccessfulCasIsCorrect` | src/common/san_printf.c:155-164 | a successful compare-and-swap, however old its value, yields a block of the requested size past every block since the last reset |
| `BumpAllocator.FailedCasMeansProgress` | src/common/san_printf.c:162-163 | a compare-and-swap fails only if another thread's allocation or reset changed the counter since its own load |
| `BumpAllocator.StepsContinueRun` | src/common/san_printf.c:148-173 | steps from the end of a run continue it, so the theorems about runs apply to what the loop does |
| `BumpAllocator.Allocator.LoadUsed` | src/common/san_printf.c:156-161 | takes the load step, dying when the pool is too small |
| `BumpAllocator.Allocator.CompareExchange` | src/common/san_printf.c:162-164 | takes the compare-and-swap step and returns the new block's offset exactly when it succeeds |
| `BumpAllocator.Allocator.ResetUsed` | src/common/san_printf.c:171-173 | takes the reset step |
| `BumpAllocator.Allocator.Alloc` | src/common/san_printf.c:148-166 | whatever other threads do in each round, the loop takes the steps of a run, ends at the latest one round after they stop, and returns the newest block; undisturbed it dies exactly when the block does not fit |
| `DigitPrinter.EvalDigits` | src/common/san_printf.c:22-25 | the digits of n evaluate to n |
| `DigitPrinter.DigitsAreCanonical` | src/common/san_printf.c:22-25 | digits below the base without a leading zero are the digits of their value |
| `DigitPrinter.DigitCount` | src/common/san_printf.c:20-25 | n has at most k digits if and only if n is below base^k |
| `DigitPrinter.DigitsFit` | src/common/san_printf.c:20-25 | a 64-bit number has at most 20 decimal or 16 hexadecimal digits |
| `DigitPrinter.PrintedNumberReadsBack` | src/common/san_printf.c:18-28 | the printed text reads back as n, starts with 0 only for n = 0, which prints as one character, and has letters of the case asked for |
| `DigitPrinter.SignedTextReadsBack` | src/common/san_printf.c:30-37 | the signed text reads back as n |
| `DigitPrinter.FillBuffer` | src/common/san_printf.c:22-25 | the first loop stores the digits from the least significant end and counts them |
| `DigitPrinter.PutN` | src/common/san_printf.c:18-28 | returns if and only if the padding loop ends, having printed exactly the digits, between 1 and 20; otherwise it goes on printing padding |
| `DigitPrinter.PutSN` | src/common/san_printf.c:30-37 | for every 64-bit value returns if and only if the signed text fills the width, having printed exactly that text |
| `DigitPrinter.PaddingEndsIff` | src/common/san_printf.c:26-26 | for every number, base and width the padding loop ends if and only if the number has at least width digits, that is, width <= 1 or n >= base^(width - 1); it then prints nothing |
| `DigitPrinter.Pad` | src/common/san_printf.c:26-26 | the loop, observed for any number of rounds, ends exactly when the model of it does, and prints nothing then |
| `DigitPrinter.PointerPrintingEndsIff` | src/common/san_printf.c:96-100 | printing a pointer ends if and only if it is at least 2^60 |
| `DigitPrinter.PutPointer` | src/common/san_printf.c:96-100 | prints 0x and the digits and returns exactly for pointers of at least 2^60 |
| `AsanShadow.PoisonOnSet` | src/asan/asan_rtl.c:58-73 | poisoning with a value of at least 8 opens the first grain's bytes before beg and closes everything from beg to the end of the last grain; every grain from beg on takes the given byte and a partial first one its offset |
| `AsanShadow.UnpoisonOnSet` | src/asan/asan_rtl.c:75-84 | unpoisoning opens every grain the range touches, to byte 0 |
| `AsanShadow.SetShadowOnSet` | src/asan/asan_rtl.c:206-211 | a shadow fill opens or closes whole grains, as many as fit the size, with the given byte |
| `AsanShadow.ShadowRefinesSet` | src/asan/asan_rtl.c:58-84 | over every sequence of operations the shadow is exactly the byte-level set |
| `AsanShadow.PassesIff` | src/asan/asan_rtl.c:102-117 | an access passes if and only if none of its bytes in its first grain is inaccessible; one of size 0 if and only if the byte before it in its grain, or at a grain start the byte itself, is accessible |
| `AsanShadow.PassesWithinGrainIff` | src/asan/asan_rtl.c:102-117 | inside one grain that is all of its bytes |
| `AsanShadow.AddressIsPoisonedIff` | src/asan/asan_rtl.c:127-129 | the query answers for the whole grain, and differs from the access check exactly for open bytes of partial grains |
| `AsanGlobals.RegisteredGrains` | src/asan/asan_rtl.c:147-158 | after the loop each grain of a padded extent has its global's byte and every other grain is unchanged |
| `AsanGlobals.AccessPassesIffInsideGlobal` | src/asan/asan_rtl.c:102-158 | after registration an access inside one grain of a padded extent passes if and only if it ends at or before the global's end |
| `AsanGlobals.OutsideUnchanged` | src/asan/asan_rtl.c:147-158 | shadow outside all padded extents is unchanged, even where extents overlap |
| `AsanGlobals.OrderDoesNotMatter` | src/asan/asan_rtl.c:147-158 | registering the same globals in another order gives the same shadow |
| `AsanGlobals.UnregisteredGrains` | src/asan/asan_rtl.c:160-165 | unregistering closes the whole extents and touches nothing else |
| `AsanGlobals.ReregisterRestores` | src/asan/asan_rtl.c:147-165 | registering after unregistering restores the first registration |
| `AsanRuntime.Asan.PoisonRange` | src/asan/asan_rtl.c:58-73 | the loop and the partial grain store make the specified shadow |
| `AsanRuntime.Asan.UnpoisonRange` | src/asan/asan_rtl.c:75-84 | the loop makes the specified shadow |
| `AsanRuntime.Asan.SetShadow` | src/asan/asan_rtl.c:206-211 | the loop makes the specified shadow |
| `AsanRuntime.Asan.CheckAccess` | src/asan/asan_rtl.c:102-117 | returns, rather than reports, exactly when uninitialised or the first grain's byte admits the access |
| `AsanRuntime.Asan.RegisterGlobals` | src/asan/asan_rtl.c:147-158 | the loop registers every global, initialising if needed |
| `AsanRuntime.Asan.UnregisterGlobals` | src/asan/asan_rtl.c:160-165 | the loop closes every extent |
| `MsanMemory.ApplyIsLocal` | src/msan/msan_rtl.c:33-77 | below 2^42 an operation with a non-null address changes the shadow and origin of exactly the bytes of its range, one with a null address nothing |
| `MsanMemory.RegionsAreExact` | src/msan/msan_rtl.c:33-77 | below 2^42 every sequence of operations leaves the shadow an exact byte set and the origins an exact byte map, unpoisoning giving origin 0 |
| `MsanMemory.MeetsShadowIff` | src/msan/msan_rtl.c:33-39 | byte k of the origin of a is the shadow byte of b if and only if 4a + k = 2^44 + b; exactly which ranges have an origin byte on the shadow of an address below 2^42 |
| `MsanMemory.OriginStoreOnShadow` | src/msan/msan_rtl.c:71-77 | what storing origins of any range does to every shadow byte |
| `MsanMemory.LimitIsTight` | src/msan/msan_rtl.c:33-39 | setting any non-zero origin in a memory without poisoned bytes makes an address below 2^42 look poisoned if and only if the range reaches past 2^42 and starts below 5 * 2^40; elsewhere no origin changes any such shadow |
| `MsanOrigins.IdClosedForm` | src/msan/msan_rtl.c:79-85 | the k-th id in closed form: 2 first, then 3..65535, 1, and round again without 2 |
| `MsanOrigins.IdsRecycleExactly` | src/msan/msan_rtl.c:79-85 | ids lie in 1..65535, and two allocations share one if and only if they are a multiple of 65534 apart and the earlier is not the first |
| `MsanOrigins.WindowIsDistinct` | src/msan/msan_rtl.c:79-85 | any 65534 consecutive allocations have different ids |
| `MsanOrigins.EntryLives` | src/msan/msan_rtl.c:79-100 | in every run of allocations and chain calls with any origins, an entry keeps the stack its call gave it for the next 65533 allocations, the very first for ever |
| `MsanOrigins.EntryReplaced` | src/msan/msan_rtl.c:81-97 | the one after takes its place, unless it was the first |
| `MsanOrigins.ChainKeepsStackIff` | src/msan/msan_rtl.c:93-100 | a chain of any length ends with the stack of its origin, except exactly when its first step recycles that origin |
| `MsanOrigins.ChainFromLatestKeepsStack` | src/msan/msan_rtl.c:93-100 | after any run of such calls, a chain from the latest id always keeps its stack |
| `MsanRuntime.Msan.FillShadow` | src/msan/msan_rtl.c:51-54 | the loop stores exactly the range's shadow bytes |
| `MsanRuntime.Msan.FillOrigins` | src/msan/msan_rtl.c:56-59 | the loop stores exactly the range's origin words, byte by byte |
| `MsanRuntime.Msan.Unpoison` | src/msan/msan_rtl.c:49-61 | applies the unpoison operation to the flat memory |
| `MsanRuntime.Msan.Poison` | src/msan/msan_rtl.c:63-69 | applies the poison operation to the flat memory |
| `MsanRuntime.Msan.SetOrigin` | src/msan/msan_rtl.c:71-77 | applies the set-origin operation to the flat memory |
| `MsanRuntime.Msan.CheckInitialized` | src/msan/msan_rtl.c:130-140 | reports if and only if some byte of the range is poisoned, naming the least |
| `MsanRuntime.Msan.AllocOrigin` | src/msan/msan_rtl.c:79-91 | returns the next id and enters the captured stack under it |
| `MsanRuntime.Msan.ChainOrigin` | src/msan/msan_rtl.c:93-100 | returns 0 for 0, else a new id whose entry takes over the origin's stack |
| `CfiTable.ChainsAreDisjoint` | src/cfi/cfi_rtl.c:42-51 | no node occurs twice, on one chain or on two |
| `CfiTable.FnvIsFnv1a` | src/cfi/cfi_rtl.c:22-29 | the loop's partial hashes are FNV-1a of the bytes so far |
| `Common.XorBits` | src/cfi/cfi_rtl.c:22-33 | every binary digit of an exclusive-or tells whether the operands differ there |
| `CfiTable.InsertKeepsWellFormed` | src/cfi/cfi_rtl.c:42-51 | linking a fresh node for a new pair at the head of its bucket keeps chains, buckets and uniqueness |
| `CfiTable.InsertsRefineSet` | src/cfi/cfi_rtl.c:42-51 | after any sequence of inserts, for any hash, the table is well-formed and holds exactly the inserted pairs |
| `CfiTable.LookupIffInserted` | src/cfi/cfi_rtl.c:31-40 | after any sequence of inserts, the pair's chain holds it if and only if it was inserted |
| `CfiTable.PoolCapacity` | src/common/san_printf.c:157-161 | there is one node per pair, and the pool holds them if and only if there are at most 10922 different pairs |
| `CfiTable.Cfi.HashUint64` | src/cfi/cfi_rtl.c:22-29 | the loop computes the 32-bit FNV-1a hash of the eight bytes, least significant first, reduced to a bucket |
| `CfiTable.Cfi.Walk` | src/cfi/cfi_rtl.c:34-39 | walking a chain terminates and finds a node of the pair if and only if the chain has one |
| `CfiTable.Cfi.Lookup` | src/cfi/cfi_rtl.c:31-40 | finds a node of the pair if and only if the table holds the pair |
| `CfiTable.Cfi.Insert` | src/cfi/cfi_rtl.c:42-51 | inserts the pair, changing nothing if it is present, and dies exactly when it is new and the pool is full |

## Left out

- PutN: is observed for a given number of rounds of its padding loop, so that the call can be modelled for widths at which it never returns. The bytes go to an output string rather than the console.
- PutSN: takes the negation of the minimum to wrap to itself, as on two's-complement machines; C leaves it undefined.
- CheckInitialized: names the byte only; the origin lookup of the report is not modelled.
- Alloc: takes as a parameter what other threads do between its steps; requests of at least 2^64 less the pool size, by it or by them, are left to `RequestBoundIsExact`.
- Register order inside a thread's registration: the original increments the thread count and fills the thread's slot in two moments; the model makes them one step.
- Clock wrap-around at 2^64: clocks are unbounded in the model; `ClocksStaySmall` bounds how long a run must be before it matters.
- Address and size wrap-around of ranges (ASan, MSan, LSan region scans, TSan ranges).
- Weak memory behaviour; all atomics of the original are sequentially consistent.
- Report text, stack capture, timestamps, format parsing and the platform layer.
- The UBSan handlers, which only format and abort, and the ASan hooks, which are thin wrappers around the access check.
- The ASan fake-stack slots: no entry point of the repository ever claims one, so `__asan_handle_no_return` finds none to poison.
- The value side of TSan's atomic loads and stores, and virtual-table hooks: each is one access step.
- Resetting the bump pool while the CFI table is in use.
- Concurrent use of the MSan id allocator and of the CFI table, neither of which the original locks.
