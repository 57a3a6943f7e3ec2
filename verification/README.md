# A verified model of the standalone seL4 root server

This project models the parts of the root server in which something can go wrong between one call and the next,
and proves what they guarantee. Every Dafny file is one module.

- `Ledger`, `FreeList`, `ChunkAllocator`, `AllocatorRuns`: the chunk allocator of `userland/kmalloc.cpp`. `Ledger` is
  the allocator seen from outside, a map from header chunks to live blocks. `FreeList` says what the link fields in
  memory have to look like, and that the live blocks determine them. `ChunkAllocator` is the code, over arrays for the four fields
  of `struct info`, with each function proved against the other two modules. A chunk is an index; the payload starts
  one whole chunk after the header, so the other chunks of a live block hold arbitrary user data. `AllocatorRuns` is
  about several calls: allocate and free, free twice, free everything, and the same calls on two different memories.
- `LockedHeap`: `kmalloc` and `krealloc` with the lock around them, as one thread calls them.
- `BinarySemaphore`: the lock of `userland/bin_sem_bare.h` as a state machine for any number of threads, one step per
  load, compare-and-swap, wait, increment and signal, over a notification with one bit of memory.
- `ConcurrentHeap`: any number of threads calling `kmalloc` and `kfree` under that lock, with bodies that are not
  atomic. Between the point where a body has read the heap and the point where it has put down its result, the shared
  memory may hold anything; only the lock keeps other bodies from reading it. Blocks may be handed from thread to
  thread, and whoever has one may free it. The log of calls is tied to the calls that each thread makes and to the
  answers it gets, as a run shows them. What a body computes is the function that `ChunkAllocator` is proved to compute.
- `Format`, `Printf`, `Numerals`: `_vsnprintf` of `userland/printf.c` without floats. `Format` is the text as a
  function of format and arguments, `Printf` the code that writes it into a buffer, `Numerals` says what its digits
  mean.
- `Standard`, `Reading`, `Layout`, `Directives`, `Concatenation`: `Standard` is section 7.21.6.1 of ISO/IEC 9899:2011
  for integers, characters and strings, with a parser, a table of specifiers and a layout of its own; `Reading` compares
  how directives are read, `Layout` how numbers come out, `Directives` the other directives and whole formats.
  `Concatenation` is about several directives and their arguments.
- `Strtol`, `StrtolStandard`, `RoundTrip`: `strtol` of `userland/lib/cstring.h`, section 7.22.1.4 of the same standard
  and the comparison of the two, and printing followed by parsing.
- `AddressSpace`, `Supply`, `Threads`, `Paging`: capability slots, page mapping, thread construction and the table.
  `AddressSpace` is what the kernel knows. Which calls the kernel (or the heap) refuses is an input: a function from
  the number of the request to its answer, and the number of slots. `Supply` computes from it how each operation ends,
  `Paging` is the code, proved to end in that way, from the constructor of the root server on. `Threads` is what sets
  the threads in the table apart.
- `Memmove`: `memcpy` and `memmove` of `userland/cstubs.c`.

## What does not hold as one might expect

Where the code does not do what its name or a comment promises, the model follows the code, and the exact condition is
proved.

- `chunk_count` does not terminate for sizes strictly between 2^64 - 64 and 2^64 - 32. For larger ones the sum wraps:
  size 2^64 - 32 is refused, and the last 31 sizes get a block of one chunk (`Ledger.ChunkLoopStopsExactly`,
  `Ledger.PayloadFitsExactly`).
- The test for a dual free in `relink` (line 103) is never true. A second `kfree` does no harm to the list because the
  count of a free chunk is 0; the byte counter goes wrong, exactly when the size left in the header is not 0
  (`ChunkAllocator.Allocator.KfreeNoLock`; `AllocatorRuns.MallocThenFreeTwice` is the case).
- `krealloc` of a live pointer never gives a new block: to a smaller size it answers NULL, and otherwise it takes the
  lock twice (`LockedHeap.LockedAllocator.Krealloc`). Nobody gets the lock again, and the caller stays in the wait,
  exactly when there are fewer than 2^31 + 1 threads (`BinarySemaphore.WaitingTwiceBlocksForever`,
  `BinarySemaphore.WaitingTwiceBlocks`).
- The thread table therefore never grows: with nothing refused, the first ten calls of `RootServer::createThread`
  return, and the run blocks for ever if and only if there is an eleventh (`Supply.PlentifulBoot`).
- The decrement of the semaphore fails at `INT_MIN`, and `kmalloc` ignores that. Mutual exclusion holds exactly up to
  2^31 + 1 threads (`BinarySemaphore.MutualExclusion`).
- `getFreeSlot` hands out one slot past the end of the free region (`Paging.UntypedPool.GetFreeSlot`).
- `mapPage` never maps a new page table: it passes an `Expected` where the kernel call wants a capability, which
  converts to `true` and so to capability 1, the initial thread's TCB. The assert on the result then fails. The page
  table of the boot code has room for 167 threads: with nothing refused, `ObjectFactory::createThread` makes that many,
  and the call after that fails the assert (`Paging.PageTable.MapPage`, `Supply.RoomFor167Threads`,
  `Supply.PlentifulAttempts`).
- `mapPage` reports success when the kernel refuses the page for any reason but a missing paging structure, and
  `unmapPage` when the frame is not mapped; then, and only then, the counter of mapped pages goes wrong
  (`Paging.PageTable.MapPage`, `Paging.PageTable.UnmapPage`).
- Converted integers differ from the standard in five ways, and in no others (`Layout.IntegerConversionMatchesIso`):
  - a left-justified number has more precision than digits;
  - zeros, prefix and sign do not fit 32 characters;
  - a precision argument is negative, and the number is 0 (`Layout.NegativePrecisionLosesZero`) or is to be padded
    with zeros: the standard drops such a precision, the code takes it for 0;
  - with `#`, the field width is the number of digits, or for `x` and zeros one more, and digits are taken off for
    padding (`Layout.PrefixTakesDigits`); or the precision already gives an octal number its leading zero; or an octal
    zero has precision 0;
  - a width or precision in the format is 2^32 or more.
- `%s` differs from the standard after a negative precision argument, and where a width, a precision or a string is
  2^32 or longer, unless spaces hide it (`Directives.StringMatchesIso`).
- `_vsnprintf` returns the length of the text exactly when it is below 2^31, and otherwise that length reduced to an
  `int` (`Printf.Vsnprintf`; `Layout.TextTooLongForInt` is a case).
- `%lu` of a value above `LONG_MAX` does not come back through `strtol` (`RoundTrip.PrintAndReadBack`).
- `strtol` looks at the character before the string exactly when the string starts with no white space, sign, digit or
  prefix that is read (`Strtol.ReadsBeforeStartExactly`; `Strtol.ReadsBeforeWords` has examples). What it finds there
  matters in one case, in which the end pointer is put in front of the string (`Strtol.NothingReadEnds`).
- `strtol` differs from the standard in five ways, and in no others (`StrtolStandard.StrtolMatchesIso`):
  - on an empty string the end pointer is not written;
  - white space other than spaces and tabs is not skipped;
  - "-+" is read as a minus sign;
  - in base 16 an "x" counts as a prefix without a zero, unless a letter above G follows; and in bases 0 and 16 a prefix
    counts without a digit after it, again unless a letter above G follows;
  - the end pointer is put in front of the string, as above.
- `memmove` goes wrong for overlapping copies upwards of 2 GiB or more (`Memmove.MemmoveIsExact`).

## Model

| member | source | states |
|---|---|---|
| Ledger.ChunkLoopStopsExactly | userland/kmalloc.cpp:73-81 | for every `size_t`, the loop of `chunk_count` leaves after some number of rounds if and only if the size is not strictly between 2^64 - 64 and 2^64 - 32 |
| Ledger.ChunkCountIsCeiling | userland/kmalloc.cpp:73-81 | up to 2^64 - 64 the count is the least number of chunks that holds header and payload |
| Ledger.PayloadFitsExactly | userland/kmalloc.cpp:73-92 | the payload chunks of a block hold the bytes asked for if and only if the size is at most 2^64 - 64 |
| Ledger.FirstFit | userland/kmalloc.cpp:154-170 | the lowest start of a free run of k chunks, none exactly when there is no such run |
| Ledger.FirstFitStartsMaximalRun | userland/kmalloc.cpp:154-170 | the run found cannot be extended downwards: it starts a maximal free run |
| Ledger.MallocKeepsWellFormed | userland/kmalloc.cpp:83-92 | after an allocation live blocks still share no chunk and lie in the pool, and the new header was not one |
| Ledger.TotalAfterMalloc | userland/kmalloc.cpp:90 | the sum of the live sizes grows by the requested size exactly on success |
| Ledger.TotalAfterFree | userland/kmalloc.cpp:98 | the sum of the live sizes shrinks by the size of the freed block |
| Ledger.RunsAreAccounted | userland/kmalloc.cpp:55 | along any run of proper calls, all blocks hold what was asked for if and only if none was asked for with one of the last 63 sizes, and while they do the byte counter is exact |
| Ledger.FreshPoolServes | userland/kmalloc.cpp:154-170 | a pool just set up grants every sequence of requests whose chunks fit into it |
| Ledger.ShellBufferIsGranted | userland/Shell.cpp:9-13 | the shell's buffer, the first request of all, is granted, so that the assert on it holds |
| FreeList.PrevInvertsNext | userland/kmalloc.cpp:57-71 | in every represented heap `prev` inverts `next` and `next` inverts `prev`, sentinels included |
| FreeList.ListIsFreeChunks | userland/kmalloc.cpp:100-102 | the walk from `head` to `tail` is strictly ascending and meets exactly the chunks no live block covers |
| FreeList.LinksAreDetermined | userland/kmalloc.cpp:83-117 | two memories with the same live blocks agree on every field the allocator reads, whatever the payload holds and whatever happened before |
| FreeList.PayloadWritesAreHarmless | userland/kmalloc.cpp:83-92 | any overwriting of payload chunks leaves a memory that represents the same heap |
| FreeList.UnlinkRepresents | userland/kmalloc.cpp:83-92 | the writes of `unlink` turn a memory of the heap into one of the heap with the new block, and touch no live block |
| FreeList.RelinkRepresents | userland/kmalloc.cpp:99-116 | threading a block between its neighbours gives a memory of the heap without it, and touches no other block |
| ChunkAllocator.Allocator.Init | userland/kmalloc.cpp:57-71 | all chunks in order between the sentinels, from any memory content |
| ChunkAllocator.Allocator.ChunkCountLoop | userland/kmalloc.cpp:73-81 | the loop, with its wrap-around, computes the chunk count |
| ChunkAllocator.Allocator.Unlink | userland/kmalloc.cpp:83-92 | the live blocks gain exactly the new one, the counter moves modulo 2^64, no word of a live block changes |
| ChunkAllocator.Allocator.Relink | userland/kmalloc.cpp:94-117 | a live block is freed; an outside pointer changes nothing; a chunk whose count reads 0, as in every free one, changes no word of memory but moves the counter |
| ChunkAllocator.Allocator.FirstRun | userland/kmalloc.cpp:157-169 | the scan over the list finds exactly the first fit |
| ChunkAllocator.Allocator.KmallocNoLock | userland/kmalloc.cpp:154-170 | the payload pointer of the first fit, or NULL if and only if there is none; the new heap, the counter, and no live block touched |
| ChunkAllocator.Allocator.KfreeNoLock | userland/kmalloc.cpp:178-185 | frees the block whose payload address is given, for NULL, outside, live and already free pointers; the counter stays right in all cases but one, a second free of a header that shows a size |
| ChunkAllocator.Allocator.WritePayload | userland/kmalloc.cpp:91 | a client's store into a payload chunk keeps the allocator's invariant and heap |
| AllocatorRuns.MallocThenFree | userland/kmalloc.cpp:83-117 | allocating a block and freeing it restores every link of the list, the counts and the counter |
| AllocatorRuns.MallocThenFreeTwice | userland/kmalloc.cpp:94-104 | freeing it once more changes no link, and the counter is right afterwards if and only if the size was 0 |
| AllocatorRuns.FreeAllBlocks | userland/kmalloc.cpp:94-117 | freeing all live blocks through `kfree_no_lock`, in any order, leaves the list that `init` builds and a counter of 0: coalescing is complete |
| AllocatorRuns.RunBoth | userland/kmalloc.cpp:83-117 | the same calls on two pools with the same live blocks, one of them with arbitrary stores into payload chunks before and between: equal answers, and equal links, counts and headers |
| BinarySemaphore.RunsKeepInv | userland/bin_sem_bare.h:21-63 | over all runs value is 1 - waiters - holders, and while there are any, holders + signallers + active notification is 1 |
| BinarySemaphore.MutualExclusion | userland/bin_sem_bare.h:21-52 | never two threads inside, in any interleaving, if and only if there are at most 2^31 + 1 threads |
| BinarySemaphore.NoTwoHolders | userland/bin_sem_bare.h:37-63 | two threads that hold the semaphore at the same time are one thread |
| BinarySemaphore.SignalsNeverCoalesce | userland/bin_sem_bare.h:58-61 | no signal is sent while the notification is still active, so none is lost |
| BinarySemaphore.NoLostWakeup | userland/bin_sem_bare.h:44-61 | from every reachable state with a thread that has decremented and waits at most two enabled steps lead to a holder |
| BinarySemaphore.LoopEnds | userland/bin_sem_bare.h:20-30 | whatever a thread has loaded, at most three steps of its own take it out of the decrement loop, as the holder if and only if the value was 1 |
| BinarySemaphore.FreeLockIsTaken | userland/bin_sem_bare.h:20-52 | a thread in the loop becomes the holder of a free lock in at most three steps, all its own |
| BinarySemaphore.EveryThreadCanEnter | userland/bin_sem_bare.h:37-63 | from every reachable state at most seven enabled steps, its call included, make any thread that is outside the holder |
| BinarySemaphore.HolderCanLeave | userland/bin_sem_bare.h:54-63 | a holder is out again in at most two steps, its own |
| BinarySemaphore.WaitingTwiceBlocks | userland/kmalloc.cpp:119-145 | after a holder waits again nobody is ever inside, and it never leaves that wait, in any continuation with fewer than 2^31 + 1 threads |
| BinarySemaphore.WaitingTwiceBlocksForever | userland/kmalloc.cpp:119-145 | once a holder waits again, no thread is ever inside again, in any continuation, if and only if there are fewer than 2^31 + 1 threads |
| LockedHeap.LockedAllocator.Krealloc | userland/kmalloc.cpp:119-145 | NULL is allocated for; a live pointer gets NULL for a smaller size, and otherwise the call waits for its own lock before anything is copied or freed |
| ConcurrentHeap.CallsAreSequential | userland/kmalloc.cpp:147-176 | in every interleaved run, whenever nobody is inside, memory and all answers are those of the calls run one at a time in lock order; the calls a thread makes, read off the run, are its calls in the log and the one it still waits with, and what its calls return are the answers to these |
| ConcurrentHeap.LogGrows | userland/kmalloc.cpp:147-176 | log and answers only grow, so that a call that has returned comes before every call made later |
| ConcurrentHeap.HeldBlocksAreDisjoint | userland/kmalloc.cpp:147-176 | at every point of every run, blocks handed from thread to thread included, no chunk belongs to two held blocks, of one thread or of two |
| ConcurrentHeap.StepKeepsInv | userland/kmalloc.cpp:147-176 | each step keeps lock, log and ownership in agreement; every live block has exactly one owner |
| Printf.Out | userland/printf.c:133-145 | one character in its place below the limit, nothing elsewhere |
| Printf.OutRev | userland/printf.c:199-223 | the reversed buffer in its field, and the new index |
| Printf.NtoaFormat | userland/printf.c:227-277 | zeros, prefix and sign within the 32-byte buffer, then the field |
| Printf.NtoaDigits | userland/printf.c:292-298 | the digit loop fills the buffer with the digits that fit, least significant first |
| Printf.Ntoa | userland/printf.c:281-326 | the text of a number, for any limit |
| Printf.ReadLength | userland/printf.c:643-680 | the length field as parsed |
| Printf.ReadDirective | userland/printf.c:601-680 | flags, width, precision and length as parsed, with the arguments that `*` takes |
| Printf.ReadBase | userland/printf.c:691-722 | the base of the specifier, and the flags it leaves |
| Printf.PutInteger | userland/printf.c:684-756 | the text of an integer specifier, for each type the length field selects |
| Printf.StrnLen | userland/printf.c:171-176 | the length up to the limit, as an `unsigned int` |
| Printf.PutString | userland/printf.c:796-820 | a string argument cut to the precision, in its field |
| Printf.PutConversion | userland/printf.c:683-849 | the specifier's text and the arguments left, as Format.Convert has it (DirectiveMatchesIso and FormatsConcatenate say what that is) |
| Printf.Vsnprintf | userland/printf.c:577-857 | the result is the length of the text as an `int` whatever the buffer, and that length itself if and only if it is below 2^31; the buffer holds the first maxlen - 1 characters and a NUL, and is untouched beyond |
| Numerals.DigitsDenoteValue | userland/printf.c:292-298 | the digits denote the value, and with 32 of them its remainder modulo base^32 |
| Numerals.DigitsSpellNumeral | userland/printf.c:292-298 | where they fit, the digits read backwards are the usual numeral |
| Numerals.NumeralDenotes | userland/printf.c:292-298 | the numeral of a number denotes it, in every base |
| Numerals.DigitCharIs | userland/printf.c:295 | the digit characters, one by one, in small and capital letters |
| Numerals.SignedExactly | userland/printf.c:730-739 | a word as a signed number is the one number in range that is congruent to it |
| Reading.DirectivesAgree | userland/printf.c:608-680 | the code reads every directive that the standard reads, and no other, and reads the same but for numbers modulo 2^32 and precisions that the standard drops |
| Layout.NumberTextMatchesIso | userland/printf.c:227-326 | for every value, flags (`#` included), width and precision, the text in base 8, 10 or 16 is the standard's if and only if FieldsConform holds |
| Layout.DroppedText | userland/printf.c:629-641 | the standard's text without a precision is its text with precision 0 if and only if the number is not 0 and no zeros are to fill the field |
| Layout.IntegerConversionMatchesIso | userland/printf.c:601-756 | for every directive with d, i, u, o, x or X, read by the code on one side and by the standard's own rules and table of specifiers on the other, and every argument: one argument is taken, and the text is the standard's if and only if Conforms holds |
| Layout.NegativePrecisionLosesZero | userland/printf.c:634-638 | `%.*d` with -1 and 0 prints nothing, where the standard asks for `0` |
| Layout.PrefixTakesDigits | userland/printf.c:242-248 | `%#2x` of 0x12 prints `0x`, where the standard asks for `0x12` |
| Layout.TextTooLongForInt | userland/printf.c:856 | `%*d` with -2^31 and 0 makes a text of 2^31 characters |
| Directives.CharMatchesIso | userland/printf.c:776-794 | `%c` prints the standard's text if and only if the width is below 2^32 |
| Directives.StringMatchesIso | userland/printf.c:796-820 | `%s` prints the standard's text, for every string, width and precision, if and only if StringConforms holds |
| Directives.PointerIsPrinted | userland/printf.c:822-837 | `%p` prints sixteen upper-case hexadecimal digits |
| Directives.BinaryIsPrinted | userland/printf.c:684-756 | `%b` prints the binary numeral of an unsigned int |
| Directives.OtherIsPrinted | userland/printf.c:840-848 | `%%`, and any other character that is no specifier, prints that character |
| Directives.LiteralText | userland/printf.c:587-594 | text without directives is printed as it is |
| Directives.DirectiveMatchesIso | userland/printf.c:601-849 | one directive takes the argument the standard says and prints the standard's text if and only if DirectiveConforms holds |
| Directives.FormatMatchesIso | userland/printf.c:577-857 | a whole format whose directives all conform prints the text that the standard prescribes for it |
| Concatenation.FormatsConcatenate | userland/printf.c:577-857 | a format that takes exactly its arguments, as the standard reads it, prints the same in front of any other format and arguments, and that one prints what it prints alone |
| Strtol.OneMoreDigit | userland/lib/cstring.h:102-116 | the guards decide exactly whether the longer number fits a long, also after saturation, and no intermediate result overflows |
| Strtol.SaturationAbsorbs | userland/lib/cstring.h:102-116 | a number out of range stays out of range on its side |
| Strtol.ReadHead | userland/lib/cstring.h:59-86 | white space, sign, base and prefix as skipped |
| Strtol.ReadDigits | userland/lib/cstring.h:92-125 | the clamped number, ERANGE exactly when clamped, and where reading stops |
| Strtol.ReadsBeforeStartExactly | userland/lib/cstring.h:117-127 | the code looks in front of the string if and only if StartsWithoutNumber holds of its first two characters |
| Strtol.NothingReadEnds | userland/lib/cstring.h:117-131 | where nothing is read, the end pointer is the start of the string, but for one case in which it lies in front of it |
| Strtol.Strtol | userland/lib/cstring.h:49-133 | for every base and every string: the exact number clamped to long, errno, and the end pointer |
| Strtol.EmptyIsZero | userland/lib/cstring.h:56-57 | an empty string gives 0 |
| Strtol.ErrnoExactly | userland/lib/cstring.h:87-116 | EINVAL exactly for other bases than 0 and 2 to 36, ERANGE exactly outside -2^63 to 2^63 - 1, and the value in each case |
| Strtol.DigitOfIs | userland/lib/cstring.h:93-99 | what every character counts for |
| StrtolStandard.StrtolMatchesIso | userland/lib/cstring.h:49-133 | for every string and every base the standard defines: value, end pointer and errno are the standard's if and only if Conforms holds |
| StrtolStandard.WhereStrtolDeparts | userland/lib/cstring.h:59-86 | `-+5`, `x5` in base 16 and `0xG` in base 16 are read otherwise than the standard says |
| RoundTrip.IntIsPrinted | userland/printf.c:734-736 | `%d` and `%i` print a sign and the numeral of the magnitude, for every int |
| RoundTrip.LongIsPrinted | userland/printf.c:730-733 | `%ld` prints a sign and the numeral of the magnitude |
| RoundTrip.UnsignedLongIsPrinted | userland/printf.c:746-748 | `%lu` prints the numeral |
| RoundTrip.NumeralIsRead | userland/lib/cstring.h:92-125 | a numeral in any base from 2 to 16, in either case, is read back as the number |
| RoundTrip.SignedNumeralIsRead | userland/lib/cstring.h:49-133 | a sign, a numeral and a NUL are read as that number up to the NUL, whatever follows |
| RoundTrip.PrintAndReadBack | userland/Shell.cpp:124-147 | printing into a large enough buffer and parsing it gives the value back: always for `%ld`, for `%lu` if and only if it is at most LONG_MAX |
| Supply.AllocSucceeds | userland/InitialUntypedPool.cpp:7-33 | an allocation succeeds if and only if a slot is left and one of the untypeds that are not devices grants it |
| Supply.OnlyTablesAreMissing | userland/PageTable.cpp:49-53 | between 0x8000000000 and 0x8040000000 nothing but a page table is ever missing, so that the branch that is not implemented is not reached |
| Supply.RoomFor167Threads | userland/RootServer.hpp:34-38 | the k-th thread's pages are covered by the boot page table if and only if k < 167 |
| Supply.CreateByRefusal | userland/ObjectFactory.cpp:12-114 | with one untyped, room and slots enough: eleven requests, a thread if and only if all are granted, and otherwise the end that belongs to the first one refused |
| Supply.AttemptsAreBounded | userland/ObjectFactory.cpp:12-114 | for every pattern of refusals and any number of calls of the factory: at most 167 threads, and a missing page table ends the run only when all 167 rows of pages are used up |
| Supply.PlentifulAttempts | userland/ObjectFactory.cpp:12-114 | with nothing refused, every call of the factory succeeds while there is room, and the run ends exactly at the one after that |
| Supply.AddToYoung | userland/lib/vector.hpp:58-89 | the thread table takes ten threads; with the eleventh its `krealloc` takes the lock twice |
| Supply.ServerAttemptsAreBounded | userland/RootServer.cpp:61-71 | for every pattern of refusals and any number of calls: at most ten give a thread, and the lock is taken twice only after ten |
| Supply.PlentifulServerAttempts | userland/RootServer.cpp:61-71 | with nothing refused, the calls return while the table has room, and the next one never does |
| Supply.BootNeverMeetsNotImplemented | userland/RootServer.cpp:8-71 | from the constructor on, for every pattern of refusals, the branch that is not implemented is never taken |
| Supply.PlentifulBoot | userland/RootServer.cpp:8-71 | from the constructor on, with nothing refused and slots enough, n calls of `RootServer::createThread` give n threads up to ten, and the run blocks for ever if and only if n > 10 |
| Paging.UntypedPool.GetFreeSlot | userland/InitialUntypedPool.cpp:39-50 | a slot never handed out before, within the region exactly as long as it lasts, and failure exactly one slot later |
| Paging.UntypedPool.AllocObject | userland/InitialUntypedPool.cpp:7-33 | an object in a fresh slot or none, as Supply.Alloc has it, and what is left afterwards |
| Paging.PageTable.MapPage | userland/PageTable.cpp:6-53 | crashes exactly when there is no frame or a paging structure is missing, at the assert that belongs to it, never reports an error, and otherwise maps the page; the counter stays right if and only if the address was not in use |
| Paging.PageTable.UnmapPage | userland/PageTable.cpp:55-61 | for any capability: the page is gone, and the counter stays right if and only if there was one or the kernel refused |
| Paging.PageTable.Init | userland/PageTable.cpp:63-87 | when it crashes, exactly; and otherwise the address has all its paging structures and one page table was added |
| Paging.ObjectFactory.ReleasePages | userland/ObjectFactory.cpp:74-77 | the rollback restores the mapping there was |
| Paging.ObjectFactory.CreateThread | userland/ObjectFactory.cpp:12-114 | succeeds, fails or gets no further exactly as Supply.CreateFate has it; an error leaves the mapped pages as they were, success adds three adjacent fresh ones and two fresh slots |
| AddressSpace.MappedPagesAreDisjoint | userland/ObjectFactory.cpp:36-61 | no byte lies in two mapped pages |
| Paging.ReservePages | userland/RootServer.cpp:234-240 | the ten pages from 0x8000001000 on, below the first thread page, and the end, with its cause, exactly when one of them cannot be had |
| Paging.CreateThreads | userland/ObjectFactory.cpp:12-114 | any number of calls of the factory: how many threads there are in the end, what ended the run if anything did, and three mapped pages for each thread |
| Paging.ThreadTable.Add | userland/lib/vector.hpp:58-89 | the thread at the end of the table, or the end of the run, exactly as Supply.AddFate has it |
| Paging.RootServer.CreateThread | userland/RootServer.cpp:61-71 | a thread with the next badge, the stack address and fresh slots of the factory's thread, put at the end of the table; an error leaves pages and table as they were; ends exactly as Supply.ServerFate has it |
| Paging.RootServer.CreateThreads | userland/RootServer.cpp:61-71 | any number of calls: how many gave a thread, what ended the run if anything did, three mapped pages for each thread, and badges 1, 2, 3 and so on in the order of the calls |
| Threads.Lookup | userland/RootServer.hpp:17-24 | the first thread with a badge, and the only one where badges are in order |
| Threads.OneThreadMore | userland/ObjectFactory.cpp:36-112 | a thread with fresh slots and the next pages shares no slot and no page with the others |
| Paging.Boot | userland/RootServer.cpp:8-71 | the composed run from the constructor comes to what Supply.BootFate has; if it gets through, the counter of mapped pages is 10 and three for each thread, and the threads share no slot, page or badge |
| Memmove.Memcpy | userland/cstubs.c:35-40 | the bytes one after the other, upwards; nothing else changes, and without harmful overlap it is a simultaneous copy |
| Memmove.Memmove | userland/cstubs.c:54-83 | a simultaneous copy below 2 GiB, downwards, or without overlap; bytes outside the destination unchanged |
| Memmove.MemmoveIsExact | userland/cstubs.c:54-83 | it is a simultaneous copy for all contents if and only if the length is below 2^31, or the copy goes down, or nothing overlaps |

## Left out

- ChunkAllocator.Allocator.KfreeNoLock: covers NULL, pointers outside the pool, live blocks, and chunks whose count reads 0; a misaligned pointer, or a stale one whose chunk is payload by now with another number in that place, is not modelled, since what it does depends on what users wrote there.
- ChunkAllocator.Allocator.Relink: the same pointers as KfreeNoLock.
- BinarySemaphore.WaitingTwiceBlocksForever: the second wait of `krealloc` is a move of a holder to the start of the lock; that `krealloc` makes it is LockedAllocator.Krealloc.
- LockedHeap.LockedAllocator.Krealloc: live pointers and NULL; other pointers are not modelled.
- Paging.ThreadTable.Add: assigning a shared pointer to storage that was never constructed, which C++ leaves undefined, is taken for a plain store; whether the heap has room for the vector is an answer to a request.
- Paging.ObjectFactory.CreateThread: `new` that gives NULL, which C++ leaves undefined since `operator new` is not declared to do so, is taken for the end of the run; the test in ObjectFactory.cpp:20 comes after the constructor has written through NULL.
- ChunkAllocator.Allocator.KmallocNoLock: sizes for which `chunk_count` does not terminate are excluded; such a call keeps the lock for ever.
- ConcurrentHeap.CallsAreSequential: the body is a read of the whole heap, arbitrary intermediate states and a write of the result, not the individual loads and stores of `ChunkAllocator`; and only threads up to 2^31 + 1 are covered, by what MutualExclusion shows.
- Printf.Vsnprintf: float specifiers, formats that end inside a directive, and arguments that do not match the format are excluded (Format.Render is None for them); a text of 2^64 characters or more is not considered.
- Layout.IntegerConversionMatchesIso: base 2, which the standard does not have, is rendered as the code does but not compared; `#` with d, i and u, which the standard leaves undefined, is taken to have no effect.
- RoundTrip.PrintAndReadBack: the negation of LONG_MIN, which C leaves undefined, is taken to wrap around.
- Strtol.Strtol: reading in front of the string is undefined in C; the two characters that are looked at there are a parameter.
- Paging.ObjectFactory.FinishThread: the calls on the TCB succeed or fail; what they are given, the addresses of thread-local storage and IPC buffer, is not modelled.
- Directives.FormatMatchesIso: `%p`, which the standard leaves to the implementation, and what it does not define are not compared, but for the lemmas about `%p`, `%b` and other characters.
- Paging.PageTable.MapPage: the kernel refuses a page only for a missing paging structure, or a frame or address in use; other refusals would be counted as mapped pages.
- `basic_string`, the rest of `vector`, the shell beyond its buffer, system call marshalling, thread start and register set-up, boot information and I/O ports: plumbing, or facts about one branch.
- Memory ordering of the atomic operations: runs are sequentially consistent.
- Floating-point formatting.
