# OS/161 kernel: a Dafny verification project

OS/161 is a small teaching kernel; this one carries a student's demand-paging memory system. The project models its
hardest parts and proves what they are for. `dafny verify dfyconfig.toml` checks everything. Nothing here executes the
kernel.

What is modelled, hardest first:

- **Long-long arithmetic** (`Digits`, `Division`, `Multiply`): Knuth's Algorithm D in base 2^16 with its wrapped 32-bit
  multiply-subtract and add-back, the digit arrays updated in place, the one-digit path, the signed wrappers, and the
  Karatsuba-style multiplication. The inner steps are proved for any number of digits.
- **Demand paging** (`Bitmap`, `PagingModel`, `PagingRuns`, `Paging`): coremap, first-in-first-out replacement, swap
  slots, two-level page tables, page faults, and contiguous kernel allocation. `Paging.Vm.Run` states the refinement:
  whatever sequence of accesses, allocations and releases is made, reads return what a flat private memory per address
  space would return, and the sequence stops early exactly when an operation runs out of memory. `PagingModel` holds the
  same state as a value with the invariant and says what each operation does to it, or that it fails; `Paging` is the
  in-place code proved against it. `PagingRuns` tells from outside, without the queue, which pages leave and what loads
  read.
- **Kernel heap** (`HeapModel`, `HeapRuns`, `Kmalloc`): free lists threaded through the free blocks themselves, page
  descriptors on two lists, descriptor bit tables, large requests. Memory is one map of words that clients also write
  to. `HeapRuns` has the calls as steps on values and the theorems over whole runs; each method of `Kmalloc.Heap` is
  proved to make one such step.
- **Threads** (`Threads`, `Migration`, `InterruptLevel`, `Synch`, `ThreadList`): context switching with hand-off of the
  run-queue lock, sleeping and waking, migration, interrupt levels, semaphores, locks and condition variables, as state
  machines over atomic steps of any number of threads and CPUs. Each machine has an invariant that looks at one thread,
  CPU or lock at a time, a lemma that every step keeps it, and theorems over whole runs; further theorems say from
  outside what the steps of a run have done: a wakeup delivers, a switch does as asked, `splx` sets the level, locks
  held are those taken and not released, sleepers are woken in order. `Migration` is the sequential load balancer,
  `ThreadList` the linked list itself.
- **Deadlock detector** (`Hangman`): the waits-for graph and the walk that ends only because the graph stays acyclic;
  the panics are stated on the history of calls.
- **Copying, printing, parsing** (`Memmove`, `Numerals`, `Printf`, `Conversions`, `PaddedIntegers`): word-wise
  overlapping copies, the digit loop, the formatter as a character-driven state machine, what each conversion prints,
  the bounded buffer, and `atoi`.

`Options` and `Sequences` hold what the others share.

Results where the code falls short of what one would expect, with the exact condition:

- `coremap_kfree` undoes `coremap_kalloc(n)` if and only if n >= 1: a request for zero pages marks a frame but records
  a size of zero (`PagingModel.ReleaseUndoesMark`).
- `kmalloc` returns at least the bytes asked for if and only if the request is at most 2^32 - 4096: above that, rounding
  up to pages wraps to zero (`HeapRuns.PagesCover`).
- `freepageref` meets its assertion if and only if no earlier descriptor table without a page has bits set
  (`Kmalloc.Descriptors.Free`). Only an `alloc_kpages` that returns 0 and later succeeds could bring that about, since
  the bit set for a failed descriptor page stays set. This kernel's does not: after start-up it returns a page or
  does not return, so no bit is lost and `kfree` never halts there (`Kmalloc.Heap.Kmalloc`, `Kmalloc.Heap.Kfree`).
- `kfree` of a block already free is caught if and only if the block is the first on its page's free list
  (`Kmalloc.Heap.SubpageKfree`); otherwise it is put there a second time and the list never ends
  (`HeapRuns.DoubleFreeLoops`).
- Signed 64-bit division is exact if and only if it is not the most negative value divided by -1
  (`Division.OnlyOverflow`).
- A `%d` field reads back as the integer printed if and only if the integer is zero or the field is not padded on the
  right with zeros: section 7.19.6.1 of ISO C99 lets `-` override `0`, but here `%-03d` prints 5 as 500
  (`PaddedIntegers.PaddedRoundTrip`).

What the models assume of their surroundings:

- Paging: disk transfers succeed; address spaces stay alive (`as_destroy` releases no frames); `coremap_free` is not
  called; coremap operations are atomic; allocating a queue node neither fails nor evicts; memory is accessed through
  the page table, so a stale TLB entry is not used; page tables and kernel data lie outside the modelled page contents.
  What an ELF segment leaves in a frame is a parameter. Frame 0 belongs to the kernel, as it does after start-up.
- Heap: `alloc_kpages` hands out pages nobody holds. Its result, and whether a descriptor page can be had, are
  parameters. The critical sections under the heap's spinlock are atomic; the lock is not held while pages are obtained.
- Threads: memory operations under the run-queue locks are atomic steps in the source's order; a spinlock is held by one
  CPU at a time. In `InterruptLevel` a thread that enters `thread_switch` holds the wait channel's lock when it goes to
  sleep, which `wchan_sleep` asserts, and no spinlock when it yields or exits; an interrupt handler does not lower the
  level.
- Printing: every conversion has its argument; a missing one reads as zero or NULL here. `int`, `long`, `size_t` and
  pointers are 32 bits, as on the machine this kernel is built for.

## Model

| member | source | states |
|---|---|---|
| `Division.TrialQuotient` | os161-base-2.0.3/common/gcc-millicode/qdivrem.c:182-210 | the corrected qhat is the largest base-2^16 digit whose product with the two leading divisor digits does not exceed the three leading dividend digits, and is at most two below the first guess |
| `Division.TrialDigitOffByAtMostOne` | os161-base-2.0.3/common/gcc-millicode/qdivrem.c:182-210 | for a normalised divisor of any length, the corrected qhat is the true quotient digit or one more |
| `Division.SubtractStepExact` | os161-base-2.0.3/common/gcc-millicode/qdivrem.c:217-223 | one step of the multiply-subtract, in wrapped 32-bit arithmetic, leaves the exact digit and the exact borrow |
| `Division.SubtractDigitsExact` | os161-base-2.0.3/common/gcc-millicode/qdivrem.c:211-223 | the whole multiply-subtract equals u - qhat*v, with the borrow as the missing multiple of the top power |
| `Division.MultiplySubtract` | os161-base-2.0.3/common/gcc-millicode/qdivrem.c:211-223 | the in-place loop stores exactly those digits in place, changes nothing else, and says whether it borrowed |
| `Division.BorrowIffTooLarge` | os161-base-2.0.3/common/gcc-millicode/qdivrem.c:224-229 | there is a borrow if and only if qhat was one too big; otherwise the digits left are the true remainder |
| `Division.AddDigitsExact` | os161-base-2.0.3/common/gcc-millicode/qdivrem.c:230-238 | the add-back loop adds the divisor exactly, the final carry excepted |
| `Division.AddBack` | os161-base-2.0.3/common/gcc-millicode/qdivrem.c:230-238 | the in-place add-back stores exactly the sum's digits |
| `Division.AddBackRepairs` | os161-base-2.0.3/common/gcc-millicode/qdivrem.c:224-238 | after a borrow one add-back with qhat - 1 gives the true digit and a remainder below the divisor |
| `Division.QuotientDigit` | os161-base-2.0.3/common/gcc-millicode/qdivrem.c:182-239 | steps D3 to D6 together: the digit and the remainder left in place are the exact quotient and remainder, for any number of divisor digits from two up |
| `Division.ProgressStep` | os161-base-2.0.3/common/gcc-millicode/qdivrem.c:176-240 | one more exact digit extends a partial long division of any length |
| `Division.DivideNormalised` | os161-base-2.0.3/common/gcc-millicode/qdivrem.c:176-240 | Algorithm D on any digit counts: quotient digits and remainder left in place divide exactly; arrays are accessed in bounds |
| `Division.NormalisingShift` | os161-base-2.0.3/common/gcc-millicode/qdivrem.c:169-171 | the shift count is at most 15 and moves the top bit of the leading digit to the top |
| `Division.ShiftLeftValue` | os161-base-2.0.3/common/gcc-millicode/qdivrem.c:270-279 | shifting the digits left multiplies the number by a power of two, less what leaves at the top |
| `Division.ShiftLeft` | os161-base-2.0.3/common/gcc-millicode/qdivrem.c:270-279 | the in-place shift loop computes that |
| `Division.ShiftRightValue` | os161-base-2.0.3/common/gcc-millicode/qdivrem.c:247-254 | shifting the remainder digits right divides by the power of two |
| `Division.ShiftRight` | os161-base-2.0.3/common/gcc-millicode/qdivrem.c:247-254 | the in-place loop that undoes normalisation computes that |
| `Division.Normalise` | os161-base-2.0.3/common/gcc-millicode/qdivrem.c:169-175 | both operands are scaled by the same power of two and the divisor's leading digit is at least half the base |
| `Division.Unscale` | os161-base-2.0.3/common/gcc-millicode/qdivrem.c:169-258 | dividing the scaled operands gives the same quotient and a remainder scaled by the same factor |
| `Division.LongDivide` | os161-base-2.0.3/common/gcc-millicode/qdivrem.c:152-263 | the multi-digit path, with or without normalisation, divides exactly and leaves the remainder when asked for |
| `Division.ShortDivide` | os161-base-2.0.3/common/gcc-millicode/qdivrem.c:123-149 | the one-digit path divides exactly |
| `Division.QDivRem` | os161-base-2.0.3/common/gcc-millicode/qdivrem.c:67-263 | for every 64-bit u and nonzero v the result is exactly u/v and u%v on every path, and division by zero is reported exactly for v = 0 |
| `Division.TruncatingDivision` | os161-base-2.0.3/common/gcc-millicode/divdi3.c:44-62 | the quotient and remainder used as reference are the ones of section 6.5.5 of ISO C99 |
| `Division.DivDi3` | os161-base-2.0.3/common/gcc-millicode/divdi3.c:44-62 | signed division truncates toward zero, modulo 2^64, for all signs |
| `Division.ModDi3` | os161-base-2.0.3/common/gcc-millicode/moddi3.c:45-62 | the signed remainder is exact for all operands, the most negative one included |
| `Division.OnlyOverflow` | os161-base-2.0.3/common/gcc-millicode/divdi3.c:44-62 | signed division is exact if and only if it is not the most negative value divided by -1 |
| `Multiply.Karatsuba` | os161-base-2.0.3/common/gcc-millicode/muldi3.c:43-75 | the identity with one product of differences in place of two cross products |
| `Multiply.MiddleTerm` | os161-base-2.0.3/common/gcc-millicode/muldi3.c:140-148 | the differences and the sign flag make up the possibly negative middle term |
| `Multiply.LMulQ` | os161-base-2.0.3/common/gcc-millicode/muldi3.c:183-241 | the product of any two 32-bit words is exact in 64 bits, whatever carries and sign the middle term has |
| `Multiply.TwoWordProduct` | os161-base-2.0.3/common/gcc-millicode/muldi3.c:99-164 | the high word formed from the low product, the middle term and the high product is right modulo 2^32 |
| `Multiply.MulMagnitudes` | os161-base-2.0.3/common/gcc-millicode/muldi3.c:124-158 | the product of two 64-bit magnitudes is right modulo 2^64 |
| `Multiply.MulDi3` | os161-base-2.0.3/common/gcc-millicode/muldi3.c:99-164 | signed multiplication is a*b modulo 2^64 for all operands |
| `Bitmap.Bitmap.constructor` | os161-base-2.0.3/kern/lib/bitmap.c:56-90 | a new bitmap has no usable bit set, and its padding bits can never be handed out |
| `Bitmap.Bitmap.Alloc` | os161-base-2.0.3/kern/lib/bitmap.c:98-121 | sets and returns the lowest clear bit; fails if and only if all are set |
| `Bitmap.Bitmap.Mark` | os161-base-2.0.3/kern/lib/bitmap.c:134-145 | sets exactly that bit |
| `Bitmap.Bitmap.Unmark` | os161-base-2.0.3/kern/lib/bitmap.c:147-158 | clears exactly that bit |
| `PagingModel.EntryAfterSet` | os161-base-2.0.3/kern/vm/pt.c:62-73 | the two-level lookup never confuses two pages: storing an entry changes what is found for that page only |
| `PagingModel.NoSharing` | os161-base-2.0.3/kern/vm/vm.c:137-180 | two valid pages never share a frame, and two swapped pages never share a swap slot |
| `PagingModel.EvictKeepsInv` | os161-base-2.0.3/kern/vm/coremap.c:216-248 | an eviction keeps the mapping invariant and every page's logical content |
| `PagingModel.PlaceKeepsInv` | os161-base-2.0.3/kern/vm/vm.c:146-173 | bringing a page into a frame keeps the invariant; a page already known keeps its content |
| `PagingModel.AddInnerKeepsInv` | os161-base-2.0.3/kern/vm/pt.c:11-23 | a new inner table maps nothing new and unmaps nothing |
| `PagingModel.StoreKeepsInv` | os161-base-2.0.3/kern/vm/vm.c:137-180 | a store through a mapping changes the logical content of that page only |
| `PagingModel.KernelWriteKeepsInv` | os161-base-2.0.3/kern/vm/coremap.c:175-214 | kernel writes to kernel frames change no page's content |
| `PagingModel.MarkKeepsInv` | os161-base-2.0.3/kern/vm/coremap.c:198-206 | handing a run of frames to the kernel keeps the invariant |
| `PagingModel.ReleaseKeepsInv` | os161-base-2.0.3/kern/vm/coremap.c:157-168 | giving a kernel block back keeps the invariant |
| `PagingModel.ReleaseUndoesMark` | os161-base-2.0.3/kern/vm/coremap.c:157-214 | freeing an allocation restores the free set if and only if at least one frame was asked for; a request for none takes a frame that is never given back |
| `PagingModel.EvictTimesQueue` | os161-base-2.0.3/kern/vm/coremap.c:216-248 | repeated evictions take frames off the front of the queue and keep all contents |
| `PagingModel.KAllocFailsIff` | os161-base-2.0.3/kern/vm/coremap.c:175-214 | a kernel allocation fails if and only if even after evicting every page that can be evicted there is no run of the length wanted |
| `PagingModel.KAllocatedIs` | os161-base-2.0.3/kern/vm/coremap.c:175-214 | a block that is the lowest run to appear as the queue is evicted from the front is the one the allocation gives: its outcome is a function of the state |
| `PagingModel.ExecRunPrefix` | os161-base-2.0.3/kern/vm/vm.c:79-227 | a sequence of operations that succeeds succeeds on every prefix, so the first failure stops the run |
| `PagingModel.FrameConservation` | os161-base-2.0.3/kern/vm/coremap.c:70-248 | free, user and kernel frames always add up to the number of frames |
| `Paging.Vm.constructor` | os161-base-2.0.3/kern/vm/coremap.c:70-106 | after start-up the frames below the first free address belong to the kernel and the others are free |
| `Paging.Vm.PopVictim` | os161-base-2.0.3/kern/vm/coremap.c:223-231 | the victim is the first queued frame that is not free; the frames before it are dropped |
| `Paging.Vm.SwapWritePage` | os161-base-2.0.3/kern/vm/swapfile.c:40-72 | the page goes to the lowest free slot; failure exactly when there is none |
| `Paging.Vm.Replace` | os161-base-2.0.3/kern/vm/coremap.c:216-248 | evicts exactly the page at the head of the queue, succeeding if and only if there is one and a slot for it; over runs that is the page resident longest (`PagingRuns.OldestLeavesFirst`) |
| `Paging.Vm.FindFree` | os161-base-2.0.3/kern/vm/coremap.c:124-137 | the lowest free frame, or none if and only if none is free |
| `Paging.Vm.Alloc` | os161-base-2.0.3/kern/vm/coremap.c:114-146 | takes the lowest free frame, after one eviction exactly when none was free, and puts it at the end of the queue; fails if and only if that is impossible |
| `Paging.Vm.FindRun` | os161-base-2.0.3/kern/vm/coremap.c:183-196 | the single pass finds the lowest run of free frames, or none if and only if there is none |
| `Paging.Vm.MakeRun` | os161-base-2.0.3/kern/vm/coremap.c:182-211 | evicts one page at a time, only while no run exists, with the queue length as bound |
| `Paging.Vm.KAlloc` | os161-base-2.0.3/kern/vm/coremap.c:175-214 | returns the lowest run that appears as pages are evicted from the head of the queue and marks exactly it; fails if and only if evicting all that can be evicted brings none, as a function of the state at the call |
| `Paging.Vm.KFree` | os161-base-2.0.3/kern/vm/coremap.c:157-168 | frees exactly the frames of that block |
| `Paging.Vm.InnerPtCreate` | os161-base-2.0.3/kern/vm/pt.c:11-23 | adds the missing inner table and keeps every page's content, whatever has to be evicted for it; fails if and only if two adjoining kernel frames cannot be had from the state at the call |
| `Paging.Vm.PageIn` | os161-base-2.0.3/kern/vm/vm.c:146-173 | a page comes in from its image or from its swap slot with the right content, in a frame of its own; fails if and only if no frame can be had |
| `Paging.Vm.Fault` | os161-base-2.0.3/kern/vm/vm.c:79-199 | every outcome of a fault with its exact condition on the state before it: killed, invalid, bad address, mapped with contents preserved, or panic if and only if the inner table or the frame cannot be had |
| `Paging.Vm.EnsureResident` | os161-base-2.0.3/kern/vm/vm.c:144-180 | an accessed page ends up mapped, its content kept or freshly loaded; failure if and only if it was not resident and no frame can be had |
| `Paging.Vm.MemoryAccess` | os161-base-2.0.3/kern/vm/vm.c:137-180 | a load reads, and a store changes, exactly the logical byte |
| `Paging.Vm.Access` | os161-base-2.0.3/kern/vm/vm.c:79-199 | one access by any address space behaves as on flat memory, and fails if and only if the fault it takes does |
| `Paging.Vm.Perform` | os161-base-2.0.3/kern/vm/vm.c:79-227 | every operation, user access or kernel allocation, release or store, behaves as on flat memory, and fails if and only if its step from the state at the call runs out of memory |
| `Paging.Vm.Run` | os161-base-2.0.3/kern/vm/vm.c:79-227 | over every sequence of accesses, allocations, releases and kernel stores the values read are those of flat private memory per address space; all of it is done if and only if no operation runs out of memory, otherwise it stops at the first that does |
| `PagingRuns.OldestLeavesFirst` | os161-base-2.0.3/kern/vm/coremap.c:28-66 | in every run, when an operation puts a page out, every page that stays became resident later than it |
| `PagingRuns.NoNeedlessEviction` | os161-base-2.0.3/kern/vm/coremap.c:114-214 | in every run no page is put out while a free frame, or a run of free frames for the kernel, will do |
| `PagingRuns.ResidentWhenTouched` | os161-base-2.0.3/kern/vm/vm.c:79-199 | a page becomes resident only by being touched, and after a touch that does not fail it is |
| `PagingRuns.LoadReadsLastStore` | os161-base-2.0.3/kern/vm/vm.c:137-180 | over every sequence of operations a load reads the byte stored last at that address of that address space |
| `PagingRuns.LoadReadsInitial` | os161-base-2.0.3/kern/vm/vm.c:146-173 | before any store it reads what the first access to the page found: zero, or the byte of the ELF page |
| `PagingRuns.LiveBlocksApart` | os161-base-2.0.3/kern/vm/coremap.c:175-214 | in every run the blocks the kernel holds are apart from each other, from free frames and from user pages |
| `PagingRuns.KernelDataStays` | os161-base-2.0.3/kern/vm/coremap.c:175-214 | in every run a frame of a block the kernel holds keeps what the kernel stored there last |
| `PagingRuns.BlocksChange` | os161-base-2.0.3/kern/vm/vm.c:202-227 | the kernel holds exactly the blocks it was given and has not given back, with the size it asked for |
| `PagingRuns.FreedFramesAreFree` | os161-base-2.0.3/kern/vm/coremap.c:157-168 | giving a block back frees exactly its frames |
| `HeapModel.LiveBlocksDisjoint` | os161-base-2.0.3/kern/vm/kmalloc.c:873-1018 | live blocks are at least as large as asked for and pairwise disjoint |
| `HeapModel.ThreadedChain` | os161-base-2.0.3/kern/vm/kmalloc.c:998-1008 | the loop over a fresh page threads all its blocks into one list that ends, last block first |
| `HeapModel.TakeKeepsInv` | os161-base-2.0.3/kern/vm/kmalloc.c:920-942 | taking the head block keeps all the lists well formed and the block was not live |
| `HeapModel.InstallKeepsCore` | os161-base-2.0.3/kern/vm/kmalloc.c:989-1014 | adding a fresh page with its descriptor keeps the invariant |
| `HeapModel.PutKeepsInv` | os161-base-2.0.3/kern/vm/kmalloc.c:1109-1140 | freeing a block that leaves its page partly used keeps the invariant |
| `HeapModel.FullListCovers` | os161-base-2.0.3/kern/vm/kmalloc.c:1141-1150 | a free list as long as the page has blocks holds every block of the page |
| `HeapModel.WhollyFree` | os161-base-2.0.3/kern/vm/kmalloc.c:1141-1150 | no block of a page whose count says wholly free is live |
| `HeapModel.DropKeepsInv` | os161-base-2.0.3/kern/vm/kmalloc.c:1141-1150 | giving a wholly free page back keeps the invariant; no listed page is wholly free |
| `HeapModel.ClientStoreKeepsInv` | os161-base-2.0.3/kern/vm/kmalloc.c:61-66 | whatever a client stores in its own block, the allocator's lists stay intact |
| `HeapModel.PutUntouched` | os161-base-2.0.3/kern/vm/kmalloc.c:1109-1140 | freeing a block leaves every word of every other live block alone |
| `HeapModel.InstallUntouched` | os161-base-2.0.3/kern/vm/kmalloc.c:998-1008 | threading a fresh page leaves every word of every live block alone |
| `Kmalloc.Descriptors.Alloc` | os161-base-2.0.3/kern/vm/kmalloc.c:256-298 | hands out the lowest clear bit's descriptor; the count stays the number of bits set; when no descriptor page can be had the bit stays set |
| `Kmalloc.Descriptors.Free` | os161-base-2.0.3/kern/vm/kmalloc.c:303-337 | clears exactly that bit; its assertion holds if and only if no earlier table without a page has bits set |
| `Kmalloc.LostBitsHaltFree` | os161-base-2.0.3/kern/vm/kmalloc.c:303-337 | if `alloc_kpages` could fail 256 times for descriptor pages and then succeed, the assertion would fail; with pages always to be had no bit is lost (`Kmalloc.Heap.Kmalloc`, `Kmalloc.Heap.Kfree`) |
| `Kmalloc.BlockType` | os161-base-2.0.3/kern/vm/kmalloc.c:851-867 | the smallest block size that fits; none if and only if the request is over 2048 bytes |
| `HeapRuns.PagesCover` | os161-base-2.0.3/kern/vm/kmalloc.c:1186-1192 | the pages asked for cover a large request if and only if rounding up does not wrap, that is up to 2^32 - 4096 bytes, and are never a page too many |
| `HeapRuns.LargeBlocksDisjoint` | os161-base-2.0.3/kern/vm/kmalloc.c:1169-1206 | small blocks and whole-page blocks never overlap |
| `HeapRuns.StepKeepsGood` | os161-base-2.0.3/kern/vm/kmalloc.c:873-1223 | every step, taking a block from a listed or a fresh page, putting one back, obtaining or releasing a large block, or a client store, keeps the lists well formed and the blocks apart |
| `HeapRuns.StepKeepsWord` | os161-base-2.0.3/kern/vm/kmalloc.c:873-1223 | a step changes a word of a block that stays live only if it is that client's store to it |
| `HeapRuns.BlocksDisjoint` | os161-base-2.0.3/kern/vm/kmalloc.c:873-1223 | in every state of every run any two live blocks, small or large, are disjoint |
| `HeapRuns.BlocksFit` | os161-base-2.0.3/kern/vm/kmalloc.c:873-1223 | in every state of every run a small block is at least as large as was asked for and does not straddle its page |
| `HeapRuns.DoubleFreeLoops` | os161-base-2.0.3/kern/vm/kmalloc.c:1096-1140 | putting back a block that is already on its page's free list, but not first, makes a list that no longer ends |
| `HeapRuns.FreedIsDead` | os161-base-2.0.3/kern/vm/kmalloc.c:1104-1130 | a freed block holds 0xdeadbeef behind its first word, which links it to the block that was first |
| `Kmalloc.Heap.TakeBlock` | os161-base-2.0.3/kern/vm/kmalloc.c:922-942 | pops the free list in place, and the source's assertions about the block hold |
| `Kmalloc.Heap.FindPage` | os161-base-2.0.3/kern/vm/kmalloc.c:914-920 | finds the first page of the size with a free block, if and only if there is one |
| `Kmalloc.Heap.ThreadPage` | os161-base-2.0.3/kern/vm/kmalloc.c:998-1005 | the threading loop writes exactly the links of the fresh list |
| `Kmalloc.Heap.SubpageKmalloc` | os161-base-2.0.3/kern/vm/kmalloc.c:873-1018 | a new, large enough, block-aligned live block and nothing else touched; asks for a page if and only if no free block of the size exists, and gives it back when no descriptor can be had; a failed call leaves heap and blocks unchanged, though it may lose a descriptor bit |
| `Kmalloc.Heap.Unlink` | os161-base-2.0.3/kern/vm/kmalloc.c:822-845 | removes the descriptor from a list and nothing else |
| `Kmalloc.Heap.FindOwner` | os161-base-2.0.3/kern/vm/kmalloc.c:1072-1090 | finds the page holding an address if and only if it is a heap page |
| `Kmalloc.Heap.SubpageKfree` | os161-base-2.0.3/kern/vm/kmalloc.c:1024-1160 | every outcome for any address with its condition: not a heap address, not a block, the head of the free list again, or that block put back and the page given up exactly when the heap no longer holds it; the descriptor assertion can fail only after a descriptor was lost |
| `Kmalloc.Heap.Kmalloc` | os161-base-2.0.3/kern/vm/kmalloc.c:1169-1206 | small requests from the pools, in the smallest block that fits, large ones as whole pages, each success one step of the run model; no descriptor is lost while descriptor pages can be had |
| `Kmalloc.Heap.ClientStore` | os161-base-2.0.3/kern/vm/kmalloc.c:61-66 | a client's store into its own block, small or large, is one step of the run model and leaves the allocator intact |
| `Kmalloc.Heap.Kfree` | os161-base-2.0.3/kern/vm/kmalloc.c:1211-1223 | releases exactly the pointer given, small or large, as one step of the run model, gives back the pages no longer held, and does nothing for NULL; halts only after a descriptor was lost |
| `HeapRuns.RunKeepsGood` | os161-base-2.0.3/kern/vm/kmalloc.c:873-1223 | from start-up on, the heap is well formed after every sequence of allocations and releases, small and large, and client stores |
| `HeapRuns.ContentsSurvive` | os161-base-2.0.3/kern/vm/kmalloc.c:873-1223 | in every such sequence a word of a block that stays live, small or large, holds what its client stored last |
| `Threads.StepKeepsInv` | os161-base-2.0.3/kern/thread/thread.c:450-1110 | every atomic step of switching, waking, forking for any CPU, exiting and migrating, by any CPU, keeps the protocol invariant |
| `Threads.RunKeepsInv` | os161-base-2.0.3/kern/thread/thread.c:450-1110 | the invariant holds in every reachable state, for any number of CPUs and threads |
| `Threads.OneCpuPerThread` | os161-base-2.0.3/kern/thread/thread.c:560-664 | no thread is current on two CPUs, nor on another CPU's run queue while a CPU may still be using its stack |
| `Threads.NoThreadLost` | os161-base-2.0.3/kern/thread/thread.c:588-651 | a thread whose node is on no list is the current thread of its CPU, at a point where that is expected |
| `Threads.WakeupNotOverwritten` | os161-base-2.0.3/kern/thread/thread.c:588-651 | a thread's store of S_SLEEP never overwrites a wakeup, and a waker finds the thread asleep or ready, never half asleep |
| `Threads.KernelAssertionsHold` | os161-base-2.0.3/kern/thread/thread.c:296-307 | a thread is on no list, or in the inserting CPU's hand only, when it is put on a queue by placing, making ready or migrating; only finished zombies are destroyed, and counted victims are still on the queue |
| `Threads.IdleNotStranded` | os161-base-2.0.3/kern/thread/thread.c:467-477 | an idle CPU with a thread on its run queue always has the interrupt that ends its idling pending |
| `Threads.WokenBecomesRunnable` | os161-base-2.0.3/kern/thread/thread.c:452-481 | a thread leaves the hand of a CPU that wakes or forks it only as S_READY on the run queue of its own CPU |
| `Threads.WakeupDelivers` | os161-base-2.0.3/kern/thread/thread.c:1019-1075 | a wakeup takes its threads off the channel, and each has been ready on a run queue before the wakeup is done |
| `Threads.ForkDelivers` | os161-base-2.0.3/kern/thread/thread.c:492-555 | a forked thread has been ready on a run queue before the fork is done |
| `Threads.StateChanges` | os161-base-2.0.3/kern/thread/thread.c:560-700 | a thread falls asleep or dies only by its own switch with that aim, runs only when its CPU switches to it, and is made ready only by yielding or by the CPU that has it in hand |
| `Threads.CurrentChanges` | os161-base-2.0.3/kern/thread/thread.c:641-664 | a CPU's current thread changes only when it picks the next one, from its own run queue |
| `Threads.ComeAndGo` | os161-base-2.0.3/kern/thread/thread.c:290-307 | threads come only by being forked and go only when laid to rest |
| `Threads.ListChanges` | os161-base-2.0.3/kern/thread/thread.c:560-700 | a thread leaves a channel only when woken, a run queue only to run or to migrate, the zombies only for good |
| `Threads.CpuProgress` | os161-base-2.0.3/kern/thread/thread.c:560-700 | a CPU goes through the points of the code in order, and only by its own steps |
| `Threads.LeavesIdleOnInterrupt` | os161-base-2.0.3/kern/thread/thread.c:641-651 | a CPU that went idle looks for threads again only after an interrupt that came since |
| `Threads.SwitchDoesAsAsked` | os161-base-2.0.3/kern/thread/thread.c:560-621 | the thread that called `thread_switch` joins the list it asked for and ends in the state it asked for |
| `Threads.VictimStaysRunnable` | os161-base-2.0.3/kern/thread/thread.c:887-944 | a migration victim leaves the hand only onto a run queue, ready, with that CPU as its own |
| `Threads.MigratesToReceiver` | os161-base-2.0.3/kern/thread/thread.c:887-932 | a victim goes to the CPU whose run queue was locked for it; the current thread stays |
| `Threads.CpuChanges` | os161-base-2.0.3/kern/thread/thread.c:917-932 | a thread's CPU changes only by migration |
| `Threads.MigrationDelivers` | os161-base-2.0.3/kern/thread/thread.c:873-944 | every victim is back on some run queue, ready, when the migration ends |
| `Migration.ShareCovers` | os161-base-2.0.3/kern/thread/thread.c:868-871 | the rounded-up share times the number of CPUs covers all ready threads |
| `Migration.RoomSuffices` | os161-base-2.0.3/kern/thread/thread.c:868-888 | the room below the share on the other CPUs is at least the surplus here |
| `Migration.Count` | os161-base-2.0.3/kern/thread/thread.c:856-866 | the total of all run queues |
| `Migration.TakeVictims` | os161-base-2.0.3/kern/thread/thread.c:873-880 | takes the surplus from the tail, never from an empty list |
| `Migration.Fill` | os161-base-2.0.3/kern/thread/thread.c:887-932 | fills a receiver no further than the share with the next victims in order, sets the current thread aside, and conserves threads |
| `Migration.FillEnds` | os161-base-2.0.3/kern/thread/thread.c:887-932 | what the receiver's loop comes to: which victims are behind its queue and in which order, which are left, and that none is lost |
| `Migration.ConsiderMigration` | os161-base-2.0.3/kern/thread/thread.c:847-950 | without interference: threads are conserved, the current thread stays, the victims go to the other CPUs in order and a CPU is given one only when those before it are full, no receiver passes the share and this CPU keeps exactly the share, plus one if the current thread was a victim; below the share nothing changes |
| `InterruptLevel.StepKeepsInv` | os161-base-2.0.3/kern/thread/spl.c:86-160 | every raise, lower, lock, unlock, interrupt, idle step and step of a switch, from its entry with the channel's lock or none to its end, keeps level, raise count, lock count and interrupt flag in step |
| `InterruptLevel.RunKeepsInv` | os161-base-2.0.3/kern/thread/spl.c:86-160 | so in every reachable state of any number of CPUs and threads |
| `InterruptLevel.AssertionsHold` | os161-base-2.0.3/kern/thread/spinlock.c:75-142 | no count is lowered below zero, locks are released by their holder, a switch is made holding exactly the run-queue lock and an idle CPU holds none, and both sides of a switch have count 2, along every run |
| `InterruptLevel.InterruptsExact` | os161-base-2.0.3/kern/thread/spl.c:86-160 | outside the idle loop interrupts are on if and only if the running thread has level 0 and holds or awaits no spinlock, however the calls nest |
| `InterruptLevel.SwitchedOutCount` | os161-base-2.0.3/kern/thread/thread.c:534-539 | every switched-out or newly forked thread has raise count 2 |
| `InterruptLevel.OneHolder` | os161-base-2.0.3/kern/thread/spinlock.c:75-142 | a spinlock is held by at most one CPU |
| `InterruptLevel.LevelChanges` | os161-base-2.0.3/kern/thread/spl.c:86-160 | after `splx` the running thread has the level asked for; a level changes only by its own thread's `splx`, interrupts and switches |
| `InterruptLevel.SwitchRestoresLevel` | os161-base-2.0.3/kern/thread/thread.c:567-664 | leaving `thread_switch` gives a thread the level it entered with, however long ago |
| `InterruptLevel.FirstLevelIsZero` | os161-base-2.0.3/kern/thread/thread.c:739-762 | a forked thread starts at level 0 |
| `InterruptLevel.HeldIsHistory` | os161-base-2.0.3/kern/thread/spinlock.c:75-142 | in every run a CPU holds exactly the spinlocks it has got and not released |
| `InterruptLevel.WaitingIsHistory` | os161-base-2.0.3/kern/thread/spinlock.c:75-118 | and spins for exactly the one it set out for and has not got |
| `InterruptLevel.CoreChanges` | os161-base-2.0.3/kern/thread/thread.c:641-664 | a CPU runs the thread it last switched to, and idles with interrupts on until it stops idling or takes one |
| `InterruptLevel.RunsOnlyWhenPicked` | os161-base-2.0.3/kern/thread/thread.c:588-664 | a thread that has put itself on a list leaves `thread_switch` only after a switch that picks it |
| `InterruptLevel.ThreadProgress` | os161-base-2.0.3/kern/thread/thread.c:560-664 | a thread goes through the points of `thread_switch` in order; an interrupt is handled from its entry to its return |
| `Hangman.CycleIffReachable` | os161-base-2.0.3/kern/thread/hangman.c:109-129 | adding the wait closes a circle if and only if the waiter can be reached from the holder |
| `Hangman.RunsNeverDeadlock` | os161-base-2.0.3/kern/thread/hangman.c:109-182 | in the calls of a run that does not panic no actors ever wait for each other in a circle |
| `Hangman.GraphIsHistory` | os161-base-2.0.3/kern/thread/hangman.c:109-182 | the recorded graph is the history of calls: who acquired what and has not released it, who waits for what and has not acquired it |
| `Hangman.DeadlockIsCircle` | os161-base-2.0.3/kern/thread/hangman.c:50-96 | the recorded graph has a cycle if and only if, by the calls alone, some actors wait for each other in a circle |
| `Hangman.Detector.Check` | os161-base-2.0.3/kern/thread/hangman.c:50-67 | the walk ends, and finds the target if and only if it can be reached |
| `Hangman.Detector.Wait` | os161-base-2.0.3/kern/thread/hangman.c:109-129 | panics if and only if the actor waits already or this call would have actors waiting for each other in a circle, by the calls made so far |
| `Hangman.Detector.Acquire` | os161-base-2.0.3/kern/thread/hangman.c:131-157 | panics if and only if, by the calls made so far, the actor does not wait for the lockable or someone holds it |
| `Hangman.Detector.Release` | os161-base-2.0.3/kern/thread/hangman.c:159-182 | panics if and only if, by the calls made so far, the actor waits for something or does not hold the lockable |
| `Semaphores.StepKeepsInv` | os161-base-2.0.3/kern/thread/synch.c:88-135 | every step of P and V by any thread keeps the invariant |
| `Semaphores.CountBalances` | os161-base-2.0.3/kern/thread/synch.c:88-135 | after every interleaving the count is the initial count plus V's minus completed P's |
| `Semaphores.NoStrandedSleepers` | os161-base-2.0.3/kern/thread/synch.c:88-135 | while anyone sleeps, the count is at most the number of woken threads that have not finished |
| `Semaphores.ThreadMoves` | os161-base-2.0.3/kern/thread/synch.c:88-135 | a thread moves through P and V only by its own steps, except that a V wakes a sleeper |
| `Semaphores.PostWakesOne` | os161-base-2.0.3/kern/thread/synch.c:123-135 | a V with sleepers wakes exactly one |
| `Semaphores.FirstAsleepFirstWoken` | os161-base-2.0.3/kern/thread/synch.c:88-135 | sleepers are woken in the order in which they went to sleep |
| `Monitors.StepKeepsInv` | os161-base-2.0.3/kern/thread/synch.c:189-352 | every step of the lock and condition-variable calls keeps the invariant |
| `Monitors.MutualExclusion` | os161-base-2.0.3/kern/thread/synch.c:189-232 | at most one thread is between getting and giving up the lock |
| `Monitors.FreeLockIsClaimed` | os161-base-2.0.3/kern/thread/synch.c:189-232 | a free lock with sleepers has a woken thread on its way to it |
| `Monitors.SignalFindsWaiters` | os161-base-2.0.3/kern/thread/synch.c:303-336 | a signal or broadcast after a waiter released the lock finds it on the wait channel or already woken |
| `Monitors.WakeEffect` | os161-base-2.0.3/kern/thread/synch.c:322-352 | a broadcast leaves nobody on the channel; a signal takes the first waiter, if there is one, which is the one that has waited longest (`Monitors.FirstWaitingFirstSignalled`) |
| `Monitors.WaitReturnsHolding` | os161-base-2.0.3/kern/thread/synch.c:303-320 | cv_wait ends only by getting the lock, and then owns it |
| `Monitors.ThreadMoves` | os161-base-2.0.3/kern/thread/synch.c:189-352 | a thread moves through the calls only by its own steps, except that releases and signals wake sleepers |
| `Monitors.ReleaseWakesOne` | os161-base-2.0.3/kern/thread/synch.c:215-232 | releasing a lock that threads sleep for wakes exactly one of them |
| `Monitors.SignalWakes` | os161-base-2.0.3/kern/thread/synch.c:322-352 | a broadcast wakes every waiter, a signal exactly one |
| `Monitors.FirstAsleepFirstWoken` | os161-base-2.0.3/kern/thread/synch.c:189-232 | threads that sleep for the lock are woken in the order in which they went to sleep |
| `Monitors.FirstWaitingFirstSignalled` | os161-base-2.0.3/kern/thread/synch.c:303-352 | waiters are signalled in the order in which they began to wait |
| `Memmove.MovedMeans` | os161-base-2.0.3/common/libc/string/memmove.c:48-117 | what moved memory means in terms of slices: destination equals the original source, the rest is unchanged |
| `Memmove.ForwardStep` | os161-base-2.0.3/common/libc/string/memcpy.c:65-83 | a forward copy does not overwrite source bytes still to be read when the destination is not above the source |
| `Memmove.BackwardStep` | os161-base-2.0.3/common/libc/string/memmove.c:91-114 | nor does a backward copy when it is not below |
| `Memmove.Memcpy` | os161-base-2.0.3/common/libc/string/memcpy.c:47-86 | word and byte paths both move the region at once, for disjoint regions and destinations not above the source |
| `Memmove.Memmove` | os161-base-2.0.3/common/libc/string/memmove.c:48-117 | for every overlap and alignment the destination gets the original source bytes and nothing else changes |
| `Numerals.NumeralValue` | os161-base-2.0.3/common/libc/printf/__printf.c:439-459 | printed digits evaluate back to the number, in every base from 2 to 16 |
| `Numerals.NumeralFits` | os161-base-2.0.3/common/libc/printf/__printf.c:84 | 64 bits never need more than 22 characters in base 8 or above |
| `Numerals.PrintDigits` | os161-base-2.0.3/common/libc/printf/__printf.c:415-467 | the right-to-left digit loop stays in its 23-byte buffer and leaves exactly the number's text and a terminator |
| `Numerals.ParseInt` | os161-base-2.0.3/common/libc/stdlib/atoi.c:49-101 | atoi reads blanks, a sign and the longest run of digits, modulo 2^32 |
| `Numerals.AtoiOfDecimal` | os161-base-2.0.3/common/libc/stdlib/atoi.c:49-101 | atoi undoes %d on every 32-bit integer, whatever follows |
| `Numerals.AtoiOfText` | os161-base-2.0.3/common/libc/stdlib/atoi.c:49-101 | for any text of blanks, a sign or none, digits and something else: the digits' value modulo 2^32, negated after a minus |
| `Printf.FieldWidth` | os161-base-2.0.3/common/libc/printf/__printf.c:365-404 | a field is as wide as asked for, or as its text if that is wider |
| `Printf.PlainText` | os161-base-2.0.3/common/libc/printf/__printf.c:497-510 | text without a percent sign prints as itself |
| `Printf.DecimalField` | os161-base-2.0.3/common/libc/printf/__printf.c:497-534 | %d prints the decimal text of any 32-bit integer, then the rest of the format |
| `Printf.PrintThenParse` | os161-base-2.0.3/common/libc/printf/__printf.c:497-534 | parsing what %d printed gives the integer back |
| `Conversions.SignedDirective` | os161-base-2.0.3/common/libc/printf/__printf.c:182-288 | %d with any flags, width and size prints the sign and the decimal digits of the integer the argument holds, in its field |
| `Conversions.UnsignedDirective` | os161-base-2.0.3/common/libc/printf/__printf.c:289-345 | %u, %x and %o with any flags, width and size print the argument modulo 2^32, or 2^64 with ll, in base 10, 16 or 8 without leading zeros, after 0x or 0 if # asks for it |
| `Conversions.PointerDirective` | os161-base-2.0.3/common/libc/printf/__printf.c:242-252 | %p prints 0x and the 32-bit address in base 16 |
| `Conversions.StringDirective` | os161-base-2.0.3/common/libc/printf/__printf.c:497-563 | %s prints its string, or (null) |
| `Conversions.CharDirective` | os161-base-2.0.3/common/libc/printf/__printf.c:497-563 | %c prints its character, or nothing for NUL |
| `Conversions.OtherDirective` | os161-base-2.0.3/common/libc/printf/__printf.c:497-563 | any other character after the modifiers, the percent sign among them, prints as itself and takes no argument |
| `Conversions.NumberIsNumeral` | os161-base-2.0.3/common/libc/printf/__printf.c:439-459 | a number has only one text without leading zeros in a base |
| `Conversions.TextBefore` | os161-base-2.0.3/common/libc/printf/__printf.c:497-510 | text before a directive prints as itself |
| `PaddedIntegers.PaddedRoundTrip` | os161-base-2.0.3/common/libc/printf/__printf.c:365-404 | a %d field of any width and padding reads back as the integer if and only if it is zero or is not padded with zeros on the right |
| `PaddedIntegers.DirectiveRoundTrip` | os161-base-2.0.3/common/libc/printf/__printf.c:365-534 | the same of the format text itself, with any flags and width |
| `PaddedIntegers.FiveBecomesFiveHundred` | os161-base-2.0.3/common/libc/printf/__printf.c:365-534 | formatting 5 with `%-03d` gives 500, so a padded field does not always read back |
| `Printf.Printer.PrintStuff` | os161-base-2.0.3/common/libc/printf/__printf.c:365-404 | sends padding, prefixes and text in the right order |
| `Printf.Printer.SendChar` | os161-base-2.0.3/common/libc/printf/__printf.c:497-563 | one format character sends exactly its text and moves the field state and arguments on; what the texts are is in `Conversions` |
| `Printf.Printer.Run` | os161-base-2.0.3/common/libc/printf/__printf.c:570-592 | the whole format sends exactly its rendering; what that is for every directive is in `Conversions` |
| `Printf.Vsnprintf` | os161-base-2.0.3/common/libc/printf/snprintf.c:98-142 | stores exactly the first min(len - 1, total) characters and a NUL, touches nothing else, and returns total |
| `ThreadList.Link` | os161-base-2.0.3/kern/thread/threadlist.c:105-140 | linking a loose node between neighbours keeps both directions consistent |
| `ThreadList.Unlink` | os161-base-2.0.3/kern/thread/threadlist.c:145-157 | unlinking keeps both directions consistent and leaves the node's links null |
| `ThreadList.List.constructor` | os161-base-2.0.3/kern/thread/threadlist.c:60-72 | a new list is empty |
| `ThreadList.List.AddHead` | os161-base-2.0.3/kern/thread/threadlist.c:162-170 | adds at the front |
| `ThreadList.List.AddTail` | os161-base-2.0.3/kern/thread/threadlist.c:172-180 | adds at the end |
| `ThreadList.List.RemHead` | os161-base-2.0.3/kern/thread/threadlist.c:182-198 | removes and returns the first thread, null if and only if the list is empty |
| `ThreadList.List.RemTail` | os161-base-2.0.3/kern/thread/threadlist.c:200-216 | removes and returns the last thread, null if and only if the list is empty |
| `ThreadList.List.InsertAfter` | os161-base-2.0.3/kern/thread/threadlist.c:218-224 | inserts right behind the given thread |
| `ThreadList.List.InsertBefore` | os161-base-2.0.3/kern/thread/threadlist.c:226-232 | inserts right before the given thread |
| `ThreadList.List.Remove` | os161-base-2.0.3/kern/thread/threadlist.c:234-240 | removes exactly that thread |
| `ThreadList.List.Forall` | os161-base-2.0.3/kern/include/threadlist.h:94-97 | forward iteration sees the sequence |
| `ThreadList.List.ForallReverse` | os161-base-2.0.3/kern/include/threadlist.h:99-102 | backward iteration sees its mirror image |
| `ThreadList.MoveHeadToTail` | os161-base-2.0.3/kern/thread/thread.c:1057-1063 | moving a thread between two disjoint lists changes each only as its own operation says |

## Left out

- The TLB: `vm_tlb.c` drives hardware registers, and an eviction does not remove the victim's entry.
- ELF loading, segment lookup and address-space teardown: input and output, and no zero-fill beyond the file size.
- `coremap_free`: it leaves stale queue nodes behind; concurrent entry to `coremap_kalloc`, which takes no lock.
- Stores to read-only pages in `Paging.Vm.Run`: `Paging.Vm.Fault` covers the fault itself, which ends the process.
- Processes, the pid table, system calls and the file system: argument copying and device input and output, which
  would add easy members.
- Statistics counters, diagnostics and the heap's debug modes (guard bands, labels, slow checks): compiled out or output
  only. The slow checker's conditions are part of the heap invariant.
- Wait-channel spinlocks in `Threads`: dropping them only adds interleavings; `Synch` models the locks that matter there.
- The order of threads within the queues in `Threads`: left open; `Migration` and `ThreadList` model it.
- Interference during `thread_consider_migration` in `Migration`: the concurrent steps are in `Threads`.
- Fairness and eventual progress: the theorems are about safety; the no-stranding results say who must still run.
- The heap after a free list has been made circular by freeing a block twice: nothing is promised of later calls.
- Kmalloc.Descriptors.Alloc: in-use bits are booleans rather than bits of 32-bit words; `Bitmap` models packed words.
- The links of the two descriptor lists of the heap are sequences rather than pointers; the free lists are pointers.
- Memmove.Memcpy: overlapping regions with the destination above the source are excluded, as the C standard excludes
  them.
- Printf.Vsnprintf: the total and the field width are not wrapped to 32 bits, because the source lets them overflow
  undefined.
- Hangman.Detector.Wait: the detector's own spinlock, which it ignores, is not among the lockables.
- Word-wise millicode other than division and multiplication, `bswap.c`, `timespec` arithmetic, arrays and headers: only
  easy members.
