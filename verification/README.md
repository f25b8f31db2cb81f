# Nadir kernel in Dafny

A model of the parts of the Nadir kernel that keep state, and proofs about them: the physical
frame allocator, the kernel heap that lives inside the memory it manages, the boot page tables
under both, the keyboard driver and its interrupt-fed queue, the VGA console, the boot logger,
and the interrupt controller driver.

`dafny verify dfyconfig.toml` checks the whole project.

## How it is built

Every component has two layers. A *specification* layer says what the component is for in
plain mathematics: a partition of frames into runs, a set of free frames, a page of text without
end, a stream of scancodes. An *imperative* layer is a class with the fields and loops of the C
file; each method is proved against the specification, and the main results are for-all
statements about every run of the specification, including every interleaving with interrupts
where there are any.

What a specification function means is in turn fixed by statements that name plain data only:
which word or byte of memory holds what afterwards and that no other one changed, which entry of
the table frees which frame, which of the 2000 cells changes, which byte goes to which port, which
scancodes came before.

| files | component |
|---|---|
| `Machine`, `RawMemory`, `FrameSets`, `Bits`, `Strings` | words, unaligned loads and stores, frame sets, bits of a byte, printed numbers |
| `RunHeap`, `HeapImage`, `Kmalloc`, `HeapRuns` | kernel heap: runs, their encoding in words, the allocator, whole runs |
| `E820`, `Pmm`, `PmmRuns` | firmware memory map, bitmap allocator, whole runs |
| `Paging`, `KernelMemory`, `KernelRuns` | boot page tables and the hardware walk; boot of the memory subsystem; whole runs of heap, frames and stores over one memory |
| `Scancodes`, `Keyboard`, `KeyboardRuns` | scancode decoder, driver, queue under interrupts |
| `Page`, `Console`, `Klog` | unbounded page, VGA console, boot logger |
| `Pic` | 8259A pair, end of interrupt and masking |

Addresses are byte addresses; the heap's memory is one array of 64-bit words, so address `a` is
word `a / 8` and a frame is 512 words. Arithmetic that can wrap in C is written with `Wrap`. A
handler, the tick counter, the firmware table and the kernel image bounds are parameters.

## Where the code does not do what its comments say

Each of these is a proved statement, with the exact condition under which the promise holds.

* `kmalloc` is documented to return NULL when a request rounds to zero frames
  (include/kmalloc.h:21-22). It does not: for the 4096 sizes from 2^64 - 4111 to 2^64 - 16 it
  returns a block and stores the magic over the link of the first free node, and memory then
  describes no heap at all (`Kmalloc.KmallocSafeIff`). For the 15 sizes above that it returns one
  frame (`Kmalloc.FramesForSound`).
* `kfree` is documented to ignore bad pointers and addresses outside the window, without a
  fault (include/kmalloc.h:38-41). It checks two words only. A header that the holder of any block
  can forge in its payload is taken for real, and the list then leads into the middle of a run
  (`HeapImage.FreeKeepsRuns`, `HeapImage.ForgedHeaderDestroys`); a pointer whose header lies
  outside the window faults (`KernelMemory.KfreeFaultsIff`). For every pointer `kmalloc` ever
  returned the promise holds (`HeapRuns.ReturnedPointerFreesItsBlock`).
* `reserve_range` is documented to reserve every frame of its range (kernel/mm/pmm.c:53). It
  rounds the end down, so a partial last frame is left out (`E820.ReservesAllItTouchesIff`), and
  after `pmm_init` it can be free (`E820.FreeAvoidsWithheldIff`, `E820.WithheldBytesCanBeFree`).
* "0 unambiguously means OOM" (kernel/mm/pmm.c:164) needs the client discipline of
  include/pmm.h:42: `pmm_free_frame(0)` frees frame 0
  (`PmmRuns.ZeroIsAmbiguousIff`; over whole runs `PmmRuns.ZeroFreeIff`).
* `kmalloc_init` loses one frame for good whenever a hole ends the first stretch of free frames
  before 64 (`Kmalloc.PullCount`).
* The high byte of a text cell is documented to be the colour attribute
  (kernel/arch/x86_64/console.c:25-27). For characters from 0x80 on the sign extension of `char`
  sets all its bits (`Page.CellBytes`).
* "Letters stay lowercase here" (kernel/arch/x86_64/keyboard.c:60-61) is not so: the shifted
  table holds capitals, and they are exactly what the XOR computes (`Scancodes.KeyMeaning`).

## Model

| member | source | states |
|---|---|---|
| RunHeap.FirstFit | kernel/mm/kmalloc.c:117-120 | The first listed run of at least `need` frames: every earlier one is too short, and the result is past the end exactly when none fits |
| RunHeap.TakeInv | kernel/mm/kmalloc.c:118-148 | Allocation, split or not, keeps the runs tiling the heap, makes exactly one more run live and moves exactly `need` frames from free to used |
| RunHeap.TakeKeepsOrder | kernel/mm/kmalloc.c:118-142 | Entry by entry: a remainder stands in the list where its run stood and has the frames left over, a run used up leaves its place, and every other entry keeps its order and every other run its length |
| RunHeap.ReleaseInv | kernel/mm/kmalloc.c:171-181 | Freeing keeps every run and moves exactly one live run, with all its frames, to the free list |
| RunHeap.TilesExactlyOnce | kernel/mm/kmalloc.c:9-24 | Every frame of the heap lies in exactly one run |
| RunHeap.RunCount | kernel/mm/kmalloc.c:118-151 | Never more runs than frames, nor more list nodes than runs, so a walk visits at most n nodes |
| HeapImage.TakeRefines | kernel/mm/kmalloc.c:124-148 | The word-level split, splice and header stamp turn memory that holds a heap into memory that holds the heap after first-fit took that run |
| HeapImage.FreeRefines | kernel/mm/kmalloc.c:163-181 | On the pointer of any run, kfree acts if and only if that run is live; then memory holds the heap with exactly that run released, otherwise not one word changes |
| HeapImage.LiveByMagic | kernel/mm/kmalloc.c:45-54 | The first word of a run is the magic if and only if the run is live: no link is ever mistaken for it |
| HeapImage.WriteKeeps | kernel/mm/kmalloc.c:9-17 | A client may store anything anywhere in the payload of its block; the heap in memory stays the same |
| HeapImage.OutsideWriteKeeps | kernel/mm/kmalloc.c:19-24 | A store of anything outside the frames of the heap keeps the heap in memory |
| HeapImage.TakeKeepsPayload | kernel/mm/kmalloc.c:124-148 | Allocating changes no word of the payload of a block somebody holds |
| HeapImage.FreeKeepsPayload | kernel/mm/kmalloc.c:171-181 | Freeing changes no word of any payload |
| HeapImage.ListInMemory | kernel/mm/kmalloc.c:50-57 | Following the pointers from the list head reaches NULL within n nodes and visits exactly the free runs, in order, none twice |
| Kmalloc.KmallocTakes | kernel/mm/kmalloc.c:114-151 | kmalloc takes from the first listed run with enough frames, if there is one, and changes nothing otherwise |
| Kmalloc.TakeOnTheList | kernel/mm/kmalloc.c:122-142 | The list found in memory after the call is the list found before it with that one run replaced by what is left of it, or gone |
| Kmalloc.TakeWords | include/kmalloc.h:32-36 | Each word and field after a request for any number of frames was granted: header, tail node, the one link, head and counters; no other word of memory changes, so the block is not cleared |
| HeapImage.TakeZeroCorrupts | kernel/mm/kmalloc.c:124-147 | After a request for zero frames no heap whatsoever is described by memory |
| RawMemory.ReadBack | kernel/mm/kmalloc.c:163-172 | A 64-bit store at any byte address, aligned or not, is what the next load there finds, and leaves every word alone that holds none of its bytes |
| RawMemory.LoadBytes | kernel/mm/kmalloc.c:163-172 | A load at any address reads eight bytes in order, least significant first |
| RawMemory.StoreBytes | kernel/mm/kmalloc.c:172-177 | A store at any address writes its eight bytes in order and no other byte of memory |
| HeapImage.AlignedKfree | kernel/mm/kmalloc.c:155-182 | At multiples of 8 the byte-level kfree is the word-level one, with the same test |
| HeapImage.HeaderIsTaken | kernel/mm/kmalloc.c:171-181 | Any pointer with a header before it, at any alignment, becomes the list head, linked to the old one, and the counters move by the frame count the header claims |
| HeapImage.KfreeMeaning | kernel/mm/kmalloc.c:155-182 | For every pointer with 16 bytes before it: without the magic there, or with a count of 0, nothing changes; otherwise head, link and both counters move by what those bytes say |
| HeapImage.KfreeWritesEightBytes | kernel/mm/kmalloc.c:171-177 | For every 64-bit pointer, kfree writes no byte of memory but the eight of the magic |
| HeapImage.FreeKeepsRuns | kernel/mm/kmalloc.c:155-182 | For every 64-bit pointer: kfree faults, or it returns with a heap of the same runs in memory if and only if there is no header before the pointer or it is that of a live block |
| HeapImage.ForgedHeaderDestroys | kernel/mm/kmalloc.c:163-181 | In every heap, two legal writes anywhere in a held payload forge a header: the heap is still there, and freeing the forged pointer then leaves no heap with its runs |
| Kmalloc.FramesForSound | kernel/mm/kmalloc.c:62-73 | The block holds header and payload if and only if the size is at most 2^64 - 4112, and is then the smallest that does; the sizes that round to zero frames are named exactly; up to 4080 bytes, and the 15 largest sizes, take one frame |
| Kmalloc.KmallocSafeIff | kernel/mm/kmalloc.c:64-148 | kmalloc leaves a heap in memory if and only if nothing was free or the size does not round to zero frames |
| Kmalloc.FreeThenKmalloc | kernel/mm/kmalloc.c:111-182 | From every represented heap, freeing a block and allocating any size of the same frame count gives the same block and puts back every word of memory, the list head and both counters |
| Kmalloc.Kheap.Walk | kernel/mm/kmalloc.c:114-151 | The pointer-to-link walk over memory stops at the link of the first run that fits, or at NULL |
| Kmalloc.Kheap.Kmalloc | kernel/mm/kmalloc.c:111-153 | For every 64-bit size: the pointer of the first fit with the exact new memory, or NULL with nothing changed; the heap stays valid unless the request rounds to zero frames |
| Kmalloc.Kheap.Kfree | kernel/mm/kmalloc.c:155-182 | For every 64-bit pointer, wild, unaligned or outside memory: whether it faults, and otherwise the exact words, list head and counters left |
| Kmalloc.Kheap.KfreeRun | kernel/mm/kmalloc.c:155-182 | On NULL or the pointer of a run the heap stays valid and exactly the live block there, if any, is released |
| Kmalloc.Kheap.ClientWrite | kernel/mm/kmalloc.c:9-17 | A store into a live payload changes that word and keeps the heap valid |
| Kmalloc.Kheap.ForeignWrite | kernel/mm/kmalloc.c:19-24 | A store outside the heap's frames changes that word and keeps the heap valid |
| Kmalloc.PullStep | kernel/mm/kmalloc.c:85-96 | The next frame handed out either extends the stretch by one or proves it maximal |
| Kmalloc.PullCount | kernel/mm/kmalloc.c:88-100 | The frame allocator's free count drops by the frames taken, plus one exactly when a hole ended the stretch before 64 |
| Kmalloc.Kheap.Pull | kernel/mm/kmalloc.c:85-100 | The loop takes exactly min(64, first maximal stretch) frames, lowest first, and says which frames the frame allocator has left |
| Kmalloc.InitRefines | kernel/mm/kmalloc.c:102-108 | Writing one node into arbitrary memory yields a heap of exactly those frames |
| Kmalloc.InitWords | kernel/mm/kmalloc.c:102-108 | The two words of the node, the head and the counters; every other word of memory is as it was |
| Kmalloc.FirstRunMeaning | kernel/mm/kmalloc.c:85-100 | Frame by frame: the heap gets the frames from the lowest free one to the first hole, at most 64; left are the frames past them, less the one that showed the hole |
| Kmalloc.Kheap.Init | kernel/mm/kmalloc.c:75-109 | The heap is one free run of exactly the first stretch, or none; the two words of its node, head and counters; every other word of memory, and every word when nothing was free, is as before; and what the frame allocator has left |
| HeapRuns.StepKeeps | kernel/mm/kmalloc.c:111-182 | Every kmalloc, kfree of an issued pointer and client write keeps the tiling and every run start, and adds a run only by a split |
| HeapRuns.RunTheorem | kernel/mm/kmalloc.c:75-182 | Over every run from a fresh heap: the runs tile the same n frames, every pointer ever issued still starts a run, and at most n - 1 splits happened |
| HeapRuns.RunRefines | kernel/mm/kmalloc.c:111-182 | Over every run memory goes on holding the abstract heap: nodes, headers, list head and counters |
| HeapRuns.MemoryTheorem | kernel/mm/kmalloc.c:75-192 | After every run the list read from the head is NULL-terminated within n nodes and is the free list of a tiling, and the counters are the sums of the free and of the live runs, totalling n |
| HeapRuns.IssuedIsReturned | kernel/mm/kmalloc.c:111-153 | The blocks counted as issued over a run are exactly those whose pointers kmalloc returned in it |
| HeapRuns.ReturnedPointerFreesItsBlock | kernel/mm/kmalloc.c:163-181 | For every run and every pointer kmalloc returned in it: freed after the run it does not fault, and releases the block live at that address and no other, or changes not one word |
| HeapRuns.BlockIsFresh | kernel/mm/kmalloc.c:118-148 | A new block is live, has the frames asked for, and overlaps no live block; the live blocks keep their lengths |
| HeapRuns.SmallRequest | kernel/mm/kmalloc.c:111-153 | A request of at most 4080 bytes succeeds if and only if the free counter is positive |
| HeapRuns.PayloadTheorem | kernel/mm/kmalloc.c:111-182 | Over every run, while a block is held its payload changes only by its holder's writes |
| HeapRuns.ConfinementTheorem | kernel/mm/kmalloc.c:111-182 | Over every run no word outside the heap's own frames is written |
| HeapRuns.Drive | kernel/mm/kmalloc.c:111-182 | Driving the allocator's methods through any legal sequence leaves exactly the heap and memory of the specification's run and returns exactly its pointers |
| E820.OrderIrrelevant | kernel/mm/pmm.c:133-137 | The usable and the free frames of a table are the same for every order of its entries |
| E820.FrameBytes | kernel/mm/pmm.c:110-120 | A frame is offered by a range exactly when all its 4096 bytes are in it, and touched by it exactly when one is |
| E820.FreeBytesAreUsable | kernel/mm/pmm.c:103-151 | Every byte of every frame pmm_init leaves free is in a usable entry, above 1MB and inside the window |
| E820.ReservesAllItTouchesIff | kernel/mm/pmm.c:53-74 | reserve_range reserves every frame its range touches if and only if the range is empty, starts past the window, reaches its end or ends on a frame boundary; it never reserves another frame |
| E820.FreeAvoidsWithheldIff | kernel/mm/pmm.c:53-144 | For every table and every withheld entry: after pmm_init no free frame has a byte in its range if and only if the range is empty, ends on a frame boundary, or ends in a frame that is past the window, not offered, withheld or carved out; and every free frame is above 1MB |
| E820.WithheldBytesCanBeFree | kernel/mm/pmm.c:74-142 | A table on which a free frame holds withheld bytes |
| E820.LowMegabyteCoversAll | kernel/mm/pmm.c:144-150 | With the kernel below 1MB the fixed reservations are exactly the first 256 frames |
| Pmm.BitmapIsItsFreeSet | kernel/mm/pmm.c:28-51 | A bitmap is determined by its set of clear bits |
| Pmm.TableEntries | kernel/mm/pmm.c:97-102 | The entries looked at are the first count, at most 64, in place; none for a null pointer |
| Pmm.FreeFramesIff | kernel/mm/pmm.c:97-151 | For any arguments, frame f is free afterwards if and only if it is in the window above 1MB, wholly inside a usable entry among the first 64, ends inside no other of these, and does not end inside the kernel image |
| Pmm.UsableFramesIff | kernel/mm/pmm.c:103-130 | The usable frames are those of the window wholly inside a usable entry among the first 64 |
| Pmm.LowReservations | kernel/mm/pmm.c:144-150 | The six fixed reservations amount to the first megabyte and the kernel image, for any kernel bounds |
| Pmm.Returned | kernel/mm/pmm.c:167-181 | An address gives back the frame that starts at it, if it is in the window, and no other |
| Pmm.RangeEnd | kernel/mm/pmm.c:110-120 | The end of a range clipped to the window, also when base plus length wraps around 64 bits |
| Pmm.Allocator.TestBit | kernel/mm/pmm.c:48-51 | Bit f % 8 of byte f / 8 is set if and only if frame f is not in the pool |
| Pmm.Allocator.SetBit | kernel/mm/pmm.c:38-41 | Or-ing the mask in removes exactly that frame from the pool |
| Pmm.Allocator.ClearBit | kernel/mm/pmm.c:43-46 | And-ing its complement adds exactly that frame |
| Pmm.Allocator.ReserveRange | kernel/mm/pmm.c:56-80 | Exactly the frames that end inside the range leave the pool, for every base and length, and the counter follows without underflow |
| Pmm.Allocator.OfferRange | kernel/mm/pmm.c:107-130 | Exactly the frames of the window wholly inside the range join the pool, each counted once however ranges overlap |
| Pmm.Allocator.Init | kernel/mm/pmm.c:82-151 | For every table pointer and count, in terms of the entries themselves: which frames are free, as FreeFramesIff says; the counters are the sizes of the usable and of the free set |
| Pmm.Allocator.Scan | kernel/mm/pmm.c:157-158 | The scan stops at the lowest free frame |
| Pmm.Allocator.AllocFrame | kernel/mm/pmm.c:153-165 | The lowest free frame is returned and leaves the pool; 0 with nothing changed when there is none |
| Pmm.Allocator.FreeFrame | kernel/mm/pmm.c:167-182 | Frame f is free afterwards if and only if it was free, or the address is 4096 * f and f is in the window; counted once |
| PmmRuns.StepConserves | kernel/mm/pmm.c:153-182 | A call keeps free and held frames a partition of the initial ones if and only if it frees nothing but held or free frames |
| PmmRuns.RunConserves | kernel/mm/pmm.c:153-182 | Over every disciplined run free and held frames stay disjoint and make up exactly the frames that were free at first |
| PmmRuns.AllocThenFree | kernel/mm/pmm.c:153-182 | Freeing what was just allocated puts back the pool it was taken from |
| PmmRuns.EverythingComesBack | kernel/mm/pmm.c:153-182 | After any disciplined run, giving back every held frame, in any order and however often, leaves exactly the frames free that were free at first |
| PmmRuns.AfterInit | kernel/mm/pmm.c:82-182 | After pmm_init on any table and any disciplined run: free count at most usable count, frame 0 not free, answer 0 exactly when nothing is free, any other answer above 1MB, in the window and held by nobody |
| PmmRuns.ZeroIsAmbiguousIff | kernel/mm/pmm.c:164-182 | Answer 0 is ambiguous exactly when frame 0 is free, and a call of pmm_free_frame makes it so exactly when its argument is 0 |
| PmmRuns.ZeroFreeIff | kernel/mm/pmm.c:153-182 | After any run of calls, disciplined or not, from a pool without frame 0: frame 0 is free, and the next answer of 0 ambiguous, if and only if some call freed address 0 and no allocation came after it |
| PmmRuns.NeverHandedOut | kernel/mm/pmm.c:153-182 | Held frames that nobody gives back stay held and are never returned by a later call |
| PmmRuns.InitOrderIrrelevant | kernel/mm/pmm.c:103-151 | pmm_init leaves the same bitmap, usable count and free count for every permutation of the table |
| PmmRuns.Drive | kernel/mm/pmm.c:153-197 | Any sequence of calls, disciplined or not, gives the specification's pool and answers, with the counter equal to the number of clear bits throughout |
| KernelMemory.Boot | kernel/core/kmain.c:103-120 | pmm_init then kmalloc_init, for every table: the heap is the first stretch of free frames, all above 1MB, the frame allocator has none of them left, no word of memory changes but the two of the heap's node, and page tables in memory survive |
| KernelMemory.HeapFramesStayOut | kernel/mm/kmalloc.c:19-24 | Whatever disciplined clients do afterwards, no call of pmm_alloc_frame ever returns a frame of the heap |
| KernelMemory.HeapKeepsIdentityMap | kernel/arch/x86_64/entry.asm:50-68 | A run of a heap above 1MB leaves the tables built and every address of the window mapped to itself, writable |
| KernelMemory.IdentityMapForever | kernel/core/kmain.c:103-120 | From memory with the tables built, through kmalloc_init and any run of the heap it yields, every address of the window still maps to itself |
| KernelMemory.HalvesBytes | kernel/arch/x86_64/entry.asm:50-68 | The dwords the entry code writes and the words the heap sees are the same bytes of memory |
| KernelMemory.KfreeFaultsIff | include/kmalloc.h:38-41 | For every 64-bit pointer, by its address: kfree faults if and only if the pointer is 1 to 15, lies more than 8 bytes past 1GB, or lies past 1GB with the magic in the word 16 bytes before it |
| KernelMemory.KfreeFaultsOnTheWalk | include/kmalloc.h:38-41 | kfree faults if and only if the page walk faults on a byte it reads: of the header's first word, or of its second once the first held the magic |
| KernelMemory.PointersAreMapped | include/kmalloc.h:3-7 | Every byte of every run is at an address that maps to itself |
| KernelRuns.StepOk | kernel/mm/kmalloc.c:19-24 | Every heap call, frame-allocator call and store by a holder into its own frame keeps, all at once, the heap in memory, free and held frames a partition of the initial ones, the heap's frames held, and the page tables |
| KernelRuns.KernelTheorem | kernel/core/kmain.c:103-149 | The same over every interleaving of the three; the heap keeps its frames, none of them is ever free, and every address of the window maps to itself throughout |
| KernelRuns.FrameTheorem | include/pmm.h:38-44 | Over every such run a word outside the heap changes only by a store to that very word: no heap or frame-allocator call touches anybody's frame |
| KernelRuns.BlockTheorem | kernel/mm/kmalloc.c:9-24 | Over every such run the payload of a held block changes only by its holder's stores, whatever frames are allocated, freed and written beside it |
| KernelRuns.FrameAnswer | kernel/mm/pmm.c:153-165 | In every such state pmm_alloc_frame answers a frame above 1MB that nobody held and that is none of the heap's, and makes it held; it answers 0 exactly when no frame was free |
| KernelRuns.BootOk | kernel/core/kmain.c:103-120 | For every firmware table the state after pmm_init and kmalloc_init over built tables satisfies all of that |
| KernelRuns.FromEntryToAnyRun | kernel/arch/x86_64/entry.asm:50-68 | From the dwords the entry code leaves, packed into the words the heap sees, through boot and every run: every address of the window maps to itself |
| KernelRuns.Drive | kernel/mm/kmalloc.c:111-182 | The methods of both allocators, called in any legal interleaving with stores, end in exactly the state and with exactly the answers of the specification's run |
| KernelRuns.BootAndRun | kernel/core/kmain.c:103-149 | Whatever the firmware table: boot by the methods, then any legal run, gives the specification's state and answers, and every address of the window still maps to itself |
| Paging.Clear | kernel/arch/x86_64/entry.asm:51-54 | rep stosd zeroes exactly the 16KB from PML4 on |
| Paging.Fill | kernel/arch/x86_64/entry.asm:61-68 | The loop writes 512 ascending 2MB entries and nothing else |
| Paging.BuildTables | kernel/arch/x86_64/entry.asm:50-68 | Over arbitrary memory the three tables are built, dword by dword, and nothing outside the 16KB changes |
| Paging.TablesAre | kernel/arch/x86_64/entry.asm:50-68 | Every dword of the built tables: 0x71003 and 0x72003, then 0x83 + 2MB * k, and zeros |
| Paging.IdentityBelow1GB | kernel/arch/x86_64/entry.asm:50-68 | The hardware walk over these tables maps every 48-bit address below 1GB to itself, writable, and faults on every other |
| Scancodes.PrefixFlag | kernel/arch/x86_64/keyboard.c:124-132 | The prefix flag is set if and only if the last code was 0xE0 |
| Scancodes.CapsIsParity | kernel/arch/x86_64/keyboard.c:145-149 | Caps lock is the parity of the unprefixed 0x3A presses in the whole stream |
| Scancodes.ShiftIsLastEvent | kernel/arch/x86_64/keyboard.c:133-144 | Shift is down if and only if the last unprefixed shift event of the stream was a press |
| Scancodes.ExtendedKeysInvisible | kernel/arch/x86_64/keyboard.c:124-132 | Deleting every prefix and every prefixed code from a stream changes no output byte and no modifier |
| Scancodes.NextModifiers | kernel/arch/x86_64/keyboard.c:120-149 | After any stream, what each next code does to prefix flag, shift and caps lock |
| Scancodes.NextByte | kernel/arch/x86_64/keyboard.c:124-171 | For any tables and after any stream, which byte the next code produces, from the history alone: which shift event was last, how often caps lock was pressed, whether a prefix came before |
| Scancodes.NextKey | kernel/arch/x86_64/keyboard.c:150-171 | On the US tables: the shifted entry exactly when shift is held, for letters exactly when shift and caps lock differ, and the unshifted entry otherwise |
| Scancodes.KeyboardRows | kernel/arch/x86_64/keyboard.c:42-78 | The two tables are the rows of a US keyboard, and no other code has an entry |
| Scancodes.NeverNul | kernel/arch/x86_64/keyboard.c:150-171 | No decoded byte is NUL, whatever the tables |
| Scancodes.KeyMeaning | kernel/arch/x86_64/keyboard.c:42-78 | On the US tables: ASCII only; shift alone gives the shifted entry, no modifier the unshifted one; caps lock affects letters only and cancels shift on letters only |
| Keyboard.Driver.Enqueue | kernel/arch/x86_64/keyboard.c:92-101 | The byte goes to the head slot, the head moves on and no other slot changes; when the queue is full nothing does |
| Keyboard.Driver.OnIrq | kernel/arch/x86_64/keyboard.c:120-172 | One interrupt moves decoder and queue exactly as the stream semantics says |
| Keyboard.Driver.Dequeue | kernel/arch/x86_64/keyboard.c:179-187 | Undisturbed: the oldest byte and the tail one further, or NUL and nothing changed |
| KeyboardRuns.IrqKeeps | kernel/arch/x86_64/keyboard.c:93-101 | A whole interrupt handler between any two consumer steps keeps every unread slot and what the consumer has seen |
| KeyboardRuns.PollKeeps | kernel/arch/x86_64/keyboard.c:179-187 | Each of the consumer's four steps keeps the queue invariant |
| KeyboardRuns.FullIff | kernel/arch/x86_64/keyboard.c:93-98 | The index test finds the queue full exactly when 127 bytes are unread |
| KeyboardRuns.DropIff | kernel/arch/x86_64/keyboard.c:92-101 | After any run under any interleaving an interrupt drops its byte if and only if it decodes to one while 127 bytes are unread; otherwise it appends it |
| KeyboardRuns.QueueTheorem | kernel/arch/x86_64/keyboard.c:80-187 | Under every interleaving: at most 127 bytes are unread, delivered bytes are a prefix of the accepted ones, every unread byte is in its slot, accepted bytes are the decoded stream less exactly the dropped ones, and dequeue answers NUL exactly when its own comparison saw an empty queue |
| KeyboardRuns.HasKeyThenDequeue | kernel/core/kmain.c:203-204 | Once has_key said yes, the next dequeue answers with a byte whatever interrupts run during it |
| KeyboardRuns.HasKeyIff | kernel/arch/x86_64/keyboard.c:174-177 | has_key is true exactly when a dequeue would deliver |
| KeyboardRuns.UndisturbedDequeue | kernel/arch/x86_64/keyboard.c:179-187 | Without interrupts the consumer's two or four steps are exactly the driver's dequeue: same answer, same ring |
| KeyboardRuns.Interrupt | kernel/arch/x86_64/keyboard.c:120-172 | The driver's handler is the interrupt step of the interleaving results |
| KeyboardRuns.Drive | kernel/arch/x86_64/keyboard.c:92-187 | The driver's own methods, called in any order, end in the state of the interleaved system after the same calls, and return exactly its answers |
| Page.BackspaceUndoes | kernel/arch/x86_64/console.c:71-95 | A printed character and a backspace restore the page; screen and cursor are as before, or exactly one row higher when printing scrolled |
| Page.TypeIsLayout | kernel/arch/x86_64/console.c:66-95 | Typing a string without backspaces adds its line-by-line layout to the page |
| Page.ShowsLastRows | kernel/arch/x86_64/console.c:66-102 | After console_clear such a string shows as the last 25 rows of its layout on the unbounded page, with the cursor at its end |
| Page.ReachableScreens | kernel/arch/x86_64/console.c:56-102 | In every state reachable from console_clear, backspaces included, the cursor is on the screen and every cell from it on is blank |
| Page.TypeOk | kernel/arch/x86_64/console.c:96-100 | The cursor stays on the screen and the window moves down by at most one row |
| Page.CellBytes | kernel/arch/x86_64/console.c:25-28 | Low byte the character, high byte white on black, or all ones for characters from 0x80 on |
| Page.NewlineText | kernel/arch/x86_64/console.c:68-70 | A newline anywhere in a row, its first column included, leads to the start of the next row |
| Page.NewlineOnScreen | kernel/arch/x86_64/console.c:66-101 | What a newline does to the 2000 cells and the cursor, scrolling included |
| Page.BackspaceOnScreen | kernel/arch/x86_64/console.c:71-85 | One cell back, to the row above from column 0, and that cell blank; nothing in the first cell |
| Page.PrintOnScreen | kernel/arch/x86_64/console.c:86-100 | The cell at the cursor, wrap at column 80 and scroll from the last cell |
| Page.PagePlaces | kernel/arch/x86_64/console.c:66-102 | By row and column: each character of a string is at the place the cursor had reached, every other cell is blank |
| Console.Screen.UpdateCursor | kernel/arch/x86_64/console.c:33-41 | The two cursor registers together are row * 80 + col |
| Console.Screen.Scroll | kernel/arch/x86_64/console.c:43-54 | The buffer loses its first row and gains a blank last one |
| Console.Screen.Clear | kernel/arch/x86_64/console.c:56-64 | From any screen: 2000 blanks, the empty page, cursor and registers at 0 |
| Console.Screen.PutChar | kernel/arch/x86_64/console.c:66-102 | For every byte: cells, row and column as a terminal of 25 rows of 80 has them, registers included; and the buffer is the window on the page after typing it |
| Console.Screen.Puts | kernel/arch/x86_64/console.c:104-110 | The page after the string up to its NUL |
| Console.Screen.PutHex64 | kernel/arch/x86_64/console.c:112-121 | The page after 0x and sixteen nibbles, most significant first |
| Strings.Hex64RoundTrip | kernel/arch/x86_64/console.c:112-121 | 0x and sixteen digits 0-9A-F, from which every 64-bit value reads back |
| Strings.HexTable | kernel/arch/x86_64/console.c:114-119 | The digit for each nibble |
| Strings.CString | kernel/arch/x86_64/console.c:104-110 | The bytes before the first NUL |
| Strings.DecRoundTrip | kernel/core/klog.c:90-107 | Every 64-bit value reads back from its decimal print, which has no leading zero and at most 20 digits |
| Klog.FillDigits | kernel/core/klog.c:99-102 | The digit loop ends with every digit in the buffer; the bound of 20 never cuts one off |
| Klog.KlogDec | kernel/core/klog.c:90-107 | The page gains exactly the decimal print of the value |
| Klog.KlogPrefix | kernel/core/klog.c:25-71 | The page gains the bracketed timestamp, the subsystem and a colon |
| Klog.KlogLine | kernel/core/klog.c:73-78 | The page gains one whole log line |
| Klog.PrefixRoundTrip | kernel/core/klog.c:25-68 | The tick count reads back from a log line, whatever text follows the field |
| Klog.LineShape | kernel/core/klog.c:25-71 | The exact bytes: brackets, spaces to five columns of seconds, the dot, hundredths and four zeros, name, colon and space |
| Klog.FieldWidth | kernel/core/klog.c:8-11 | The time field is 12 wide if and only if the seconds are at most 99999, and longer otherwise |
| Pic.Driver.Remap | kernel/arch/x86_64/pic.c:24-50 | The ten bytes and their ports in order; from any state of either chip, even half initialised: bases 32 and 40, cascade wired, 8086 mode, all lines masked |
| Pic.Driver.Eoi | kernel/arch/x86_64/pic.c:52-62 | The end-of-interrupt bytes: to the master, after the slave for lines 8-15, none for a line out of range |
| Pic.Driver.Register | kernel/arch/x86_64/idt.c:108-114 | The next dispatch of that line runs the new handler, or none once unregistered; what every other vector runs stays, and so do all when the line is out of range |
| Pic.Driver.Dispatch | kernel/arch/x86_64/idt.c:116-133 | On the ports: the handler's mask bytes first, the end of interrupt last, to the right chips; vectors outside 32-47 send nothing |
| Pic.Driver.SetMask | kernel/arch/x86_64/pic.c:64-90 | One byte to the data port of that line's chip: the old mask with one bit changed |
| Pic.MaskPairKeeps | kernel/arch/x86_64/pic.c:64-90 | A mask call changes the bit of its own line and no other bit of either chip |
| Pic.EoiMatchesAcknowledge | kernel/arch/x86_64/pic.c:52-62 | The end of interrupt clears exactly what the acknowledge cycle set, for both chips and for spurious requests |
| Pic.DispatchQuiets | kernel/arch/x86_64/idt.c:116-133 | Each interrupt arrives as 32 + line and nothing is in service after its dispatch |
| Pic.RunTheorem | kernel/arch/x86_64/idt.c:116-133 | Over every run of interrupts and mask calls nothing stays in service and each line is masked as its own last call said |

## Left out

- KernelMemory.KfreeFaultsOnTheWalk: for pointers from 16 up to 2^48, where a header has a canonical address to walk; the others are covered by KfreeFaultsIff, which counts them as faults.
- HeapRuns.StepKeeps: sizes that round to zero frames and pointers kmalloc never returned are excluded, because the heap does not survive them; the exact conditions are KmallocSafeIff and FreeKeepsRuns.
- Kmalloc.Kheap.ClientWrite: a client write is a whole word with an arbitrary value; narrower stores are special cases of it.
- Paging.IdentityBelow1GB: reserved-bit checks, the execute-disable bit and the TLB are not part of the walk.
- Pic.Driver.Remap: the in-service registers are left as they were; the whole-run results start from empty ones, and interrupts do not nest because the gates clear IF.
- C-level aliasing, compiler reordering and the meaning of volatile: program order is assumed, and a handler runs to completion.
- kernel/arch/x86_64/boot.asm: BIOS calls and real-mode loading depend on firmware.
- kernel/arch/x86_64/serial.c, include/io.h, kernel/arch/x86_64/pit.c: port polling and register programming; ticks are an arbitrary 64-bit input here.
- kernel/arch/x86_64/isr.asm, gate descriptors, the long-mode switch and exception_handler: processor state and diagnostics.
- kernel/core/kmain.c beyond the order of the two memory initialisations and the key loop: a fixed sequence, and a self-test that is one concrete run of the general heap results.
- irq_register_handler stores code addresses; here a handler is the sequence of mask calls it makes.
