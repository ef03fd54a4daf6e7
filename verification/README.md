# A verified model of the kernel's memory subsystem and console cores

The project models the i386 kernel's memory management as one stack and proves it end to
end: the Multiboot memory map, the physical frame allocator, two-level paging edited through
its own recursive window, and the first-fit heap whose block headers live in the memory they
describe. Beside it stand four smaller state machines: the keyboard driver, the terminal, the
number printer and the format scanner.

**How the stack is modelled.** Physical memory is an array of frames of words. Nothing but the
hardware reaches it: every load and store of paging and heap code takes a virtual address,
looks it up in a cache of translations or walks the page tables that lie in that same memory,
and may be changing the very entry that resolves it. A heap header is four words at a block's
address. A ghost list of blocks abstracts the linked list, and the invariant says that the
words in memory encode it. The rest of the kernel may take and give back frames, map any
frame at, and unmap, any page outside the heap's 16 MiB, the recursive window and the 4 MiB at
0xC0000000 that hold the kernel's own text, stack and statics, and read and write its frames
through the pages it has mapped; the processor may fill its cache between calls. The invariant
says that the kernel's own 4 MiB stay mapped as boot.S has mapped them.

**What is proved of it.** Whatever bytes the boot loader leaves and whatever is asked
afterwards, in any order, each allocation and each frame that is held behaves as an array of its
own: what is written to it, to a frame through any of the pages mapped to it, is read back until
it is freed or given back; and every request on which the call returns is granted or refused
exactly as an abstract machine of block list, free frames and page tables says, from the memory
that the map leaves on (`KernelMain.BootAndRun`). What that machine grants is stated by address and
by byte: an allocation exactly when a free block has room or its pages can be paid for
(`Session.AllocGranted`), a frame exactly when one is free, a mapping exactly outside the kernel's
own ranges with a frame for its table (`Session.FramesGranted`, `Session.PagesGranted`); and over
every run what was written is what is read (`Session.WrittenByteIsRead`,
`Session.PokedWordIsPeeked`). No free frame ever holds a byte of image, paging structures, stack or
bitmap (`Pmm.ProtectedFrames`, `Pmm.FreeByAddress`). On the way, `kmalloc` answers null exactly when no
block fits and the heap cannot grow; what a growth costs is counted to the frame when it
succeeds and when it is refused at the 16 MiB limit, and one that runs out of frames leaves at
most one (`Growth.GrowthPrice`); the block list is a function of the live blocks alone, so freeing
restores it; and the outcome of the three self-tests of `kernel_main` depends on the number
of free frames and on nothing else.

**Files, bottom up.**

| file | content |
|---|---|
| Common.dfy | 32-bit and 64-bit arithmetic that wraps |
| Multiboot.dfy | the walk of the memory map, and an encoder it inverts |
| Pmm.dfy | the bitmap and its counter, and what the map leaves free |
| Paging.dfy | the machine (memory, walk, cache) and paging.c on it |
| HeapModel.dfy | block lists as values: cut, merge, growth, runs |
| Growth.dfy | what growth takes of frames and tables, and what kmalloc grants |
| HeapHeaders.dfy | block lists as words in memory |
| HeapWindow.dfy | the heap's mapped pages over the machine |
| Kheap.dfy | kheap.c |
| SelfTests.dfy | the self-tests for frames and pages |
| Kernel.dfy | the joint invariant of heap, paging and frames, and every call that keeps it |
| Session.dfy | programs against the ideal memory and the abstract machine |
| KernelMain.dfy | the heap self-test, and the start of the kernel from the loader's bytes |
| Keyboard.dfy, Terminal.dfy, Printf.dfy | keyboard.c, tty.c, printf.c |

**Where the code falls short of what one would expect of it**, each with its exact condition:

- A block meets the request exactly when `size + 16 + 7` does not wrap at 32 bits
  (`HeapModel.NeededSuffices`, `HeapModel.MallocMeetsRequest`); 0xFFFFFFF0 bytes are answered
  by a block of 24 (`HeapModel.WrappedRequest`).
- The page rounding of `kheap_extend` covers the request exactly when it does not wrap
  (`HeapModel.GrowBytesSuffices`); when it wraps and the heap is not full, `kmalloc` does not
  return (`HeapModel.HugeRequestsLoop`): requests of 0xFFFFEFF1 to 0xFFFFFFE8 bytes
  (`Session.HangsExactly`).
- `paging_unmap_page` keeps the kernel's access to its page tables exactly when the page is none
  of three: the directory's own, the window page of the kernel's table (0xFFF00000) and the window
  page of the directory (0xFFFFF000). Unmapping the last clears the recursive slot: the directory
  stays mapped and no table is reached (`Paging.AddressSpace.UnmapPage`, `Paging.SlotLost`).
- `paging_map_page` below the recursive window keeps that access exactly when the directory's page
  still leads to the directory, writable (`Paging.DirectoryKeptOrLost`). In the window it writes a
  directory entry, and keeps the access exactly when the slot, if that is the entry, still leads to
  the directory, writable, and so does the directory's page through the kernel's table, if that is
  the entry (`Paging.AddressSpace.MapPage`).
- A growth that is refused takes no frames exactly when the heap is full or its first page cannot
  be had (`Growth.RefusedForNothing`). Past the 16 MiB limit `kheap_extend` maps every page up to
  it before it returns false (`Growth.RefusedAtLimit`): 16 MiB asked of the first heap are answered
  null and cost 4095 frames (`Growth.SixteenMebibytes`).
- A map entry writes the frames that hold its bytes exactly when it ends by 4 GiB, or is empty and
  starts on a page at 0 or at no multiple of 4 GiB (`Pmm.CoversExactly`); otherwise the low 32 bits
  of its first and last byte decide (`Pmm.CoversLowBits`).
- The frame count is right exactly when memory ends below 4 GiB or the low bits of its end fill the
  bitmap (`Pmm.FrameCountExactly`); a ROM region that ends at 4 GiB leaves nothing to allocate
  (`Pmm.RomCollapsesCount`).
- `pmm_reserve_region` reserves one frame more than its comment says, and next to nothing when
  rounding up the end wraps (`Pmm.RegionIsIntervalAndOneMore`).
- `pmm_self_test` keeps the only free frame when there is just one (`SelfTests.PmmSelfTest`),
  and `paging_self_test` leaves a page table behind (`SelfTests.PagingSelfTest`).
- A tab from one of the columns 73 to 79 takes the cursor off the screen
  (`Terminal.StaysOnScreen`), and from there it does not wrap (`Terminal.OverhangNeverWraps`).
- In base 2 the 32-byte buffer cuts the top digit of values from 2^31 on
  (`Printf.PrintedReadsBack`).
- `printf` returns the length of its output exactly when `%d`, `%x` and `%p` print one
  character each (`Printf.TallyIsLength`). It returns -1 where the count passes INT_MAX unless that
  first happens in `%u`, `%d`, `%x` or `%p`, where the addition overflows (`Printf.Console.Printf`).
- A character is lost exactly when it is typed while 255 wait (`Keyboard.PushAppends`); in a run
  without that, the characters returned, in flight and waiting are all those that the handled bytes
  type (`Keyboard.NothingLostWithRoom`).
- Every six instructions of the reader return a waiting character, whatever interrupts come between
  (`Keyboard.WaitingIsReturned`). The keyboard reader cannot sleep on a waiting key because STI takes effect one instruction
  late (`Keyboard.ReaderNeverMissesAKey`); without that delay it could
  (`Keyboard.SleepWithoutTheDelay`).

The walk follows section 4.3 of the Intel 64 and IA-32 Architectures Software Developer's
Manual, volume 3A, for 32-bit paging; the cache follows its section 4.10. `dafny verify
dfyconfig.toml` checks the whole project.

## Model

| member | source | states |
|---|---|---|
| `KernelMain.BootAndRun` | kernel/kernel/kernel.c:114-145 | from any bytes the boot loader left, through the initialisations and self-tests, and for any program of heap calls, byte reads and writes, frame calls, mappings that leave the kernel's own pages, word reads and writes through them, and cache fills: every operation is granted exactly when the abstract machine of block list, free frames and page tables grants it, starting from the memory that the map leaves, in a state in which the laws of `Session` on what is granted apply; and every written byte or word is read as an ideal memory holds it in which each allocation and each held frame is an array of its own |
| `KernelMain.StartKernel` | kernel/kernel/kernel.c:114-139 | after the initialisations in their order the joint invariant holds; block list, free frames and installed tables, and the reports of all three self-tests, are functions of the frames that the memory map leaves; the kernel reserves exactly the rest, with every frame that holds a byte of image, paging structures, stack or bitmap |
| `KernelMain.BootInNumbers` | kernel/kernel/kernel.c:128-137 | with two free frames the first two self-tests pass; with six all three do, the heap is one free block of 16 KiB and six frames are spent; with fewer the heap is empty, its test reports a failed allocation, and at most one frame is left |
| `KernelMain.WriteFour` | kernel/kernel/kernel.c:95-98 | after the four byte stores all four bytes are in memory |
| `KernelMain.ReadFour` | kernel/kernel/kernel.c:100 | all four bytes are read back |
| `KernelMain.FreeOne` | kernel/kernel/kernel.c:107-108 | a test block freed leaves the other one live |
| `KernelMain.StartMemory` | kernel/kernel/kernel.c:128-136 | the memory that kheap_init finds and leaves, and the reports of the tests before it |
| `KernelMain.FirstGrowth` | kernel/mm/kheap.c:71-90 | the first four heap pages take five frames, one of them for the page table; with fewer there is no heap and at most one frame left |
| `KernelMain.BeforeTheHeap` | kernel/kernel/kernel.c:128-134 | the first two self-tests leave all frames but one, or none |
| `KernelMain.KheapSelfTest` | kernel/kernel/kernel.c:78-112 | the heap self-test reports a pass or a failed allocation, never an overlap or a damaged byte, and what it does to block list, frames and tables is two allocations and two releases |
| `KernelMain.TestOfFirstHeap` | kernel/kernel/kernel.c:78-112 | on the first heap the test passes and takes neither frames nor tables |
| `KernelMain.TestOfEmptyHeap` | kernel/kernel/kernel.c:78-89 | on an empty heap with at most one frame the test reports a failed allocation |
| `KernelMain.NothingToGrow` | kernel/mm/kheap.c:71-90 | an empty heap without two frames serves no request of up to 16 KiB, and spends what there is |
| `KernelMain.BothLive` | kernel/kernel/kernel.c:78-92 | the two allocations of the test are distinct live blocks with room for 64 and 128 bytes |
| `KernelMain.FourBytesApart` | kernel/kernel/kernel.c:95-98 | the four bytes that the test writes are different ones |
| `Session.Client.Run` | kernel/mm/kheap.c:194-232 | from any reachable state and for any program, every operation was granted as the abstract machine grants it and answered as the ideal memory answers, and both describe the state at the end |
| `Session.Client.Do` | kernel/mm/kheap.c:194-232 | one operation of any kind moves block list, free frames, tables and handles by one step of the abstract machine, is granted exactly when that step says so, and moves the ideal memory accordingly |
| `Session.WriteShows` | kernel/mm/kheap.c:44-47 | a write through one allocation is seen by that allocation and by no other, because bytes of different regions never coincide |
| `Session.FreeShows` | kernel/mm/kheap.c:222-232 | freeing one allocation leaves every other one, and what was written to it, as it was |
| `Session.AllocShows` | kernel/mm/kheap.c:194-213 | a new allocation is disjoint from all live ones and disturbs none of their bytes |
| `Session.Client.Alloc` | kernel/mm/kheap.c:194-219 | an allocation of any size on which the call returns adds one fresh array; up to 4 KiB below the wrap of the size it is granted exactly when a free block has room for header and request rounded up to 8 or the least pages for that can be had, and the array has exactly the bytes asked for; refused or not, block list, frames and tables are exact |
| `Session.AllocGranted` | kernel/mm/kheap.c:194-219 | the abstract machine grants an allocation exactly when a free block has room, or the pages stay within 16 MiB and frames for them and their tables are there; the region then has the size asked for and its last byte can be written |
| `Session.HangsExactly` | kernel/mm/kheap.c:202-205 | the calls that never return are those of 0xFFFFEFF1 to 0xFFFFFFE8 bytes while the heap is below 16 MiB |
| `Session.AllocLeftOut` | kernel/mm/kheap.c:207-218 | no other call is left out: on these no number of turns of the loop finds a block, and on all others the machine grants what kmalloc gives |
| `Session.FreeGranted` | kernel/mm/kheap.c:222-232 | a release is granted exactly for a live allocation, and ends its block and no other |
| `Session.FramesGranted` | kernel/mm/pmm.c:196-219 | a frame is granted exactly when one is free, and is the least; one is taken back exactly when it is held |
| `Session.PagesGranted` | kernel/mm/paging.c:57-102 | by address: a mapping is granted exactly outside 0xC0000000 to 0xC0400000, 0xC2000000 to 0xC3000000 and the recursive window, of an aligned frame, with a page table or a frame for one; an unmapping exactly outside them |
| `Session.MappedIsReached` | kernel/mm/paging.c:57-87 | a page mapped to a held frame can be read at every word, and written exactly when the flags allow it |
| `Session.WrittenByteIsRead` | kernel/mm/kheap.c:44-47 | a byte written is what is read after any further operations, so long as they neither write that byte nor free the allocation |
| `Session.PokedWordIsPeeked` | kernel/mm/paging.c:83-84 | a word written through one page is read through every page mapped to that frame, after any further operations that neither write at that place of a frame nor give the frame back |
| `Session.Client.Free` | kernel/mm/kheap.c:222-232 | a release by handle ends one array and leaves the block list that kfree leaves |
| `Session.Client.Write` | kernel/mm/kheap.c:44-47 | a byte written is in its array and in no other |
| `Session.Client.Read` | kernel/mm/kheap.c:44-47 | every written byte is read as it is in the ideal memory |
| `Session.Client.HaveFrame` | kernel/mm/pmm.c:196-208 | the frame had is the least free one, and a new array of the ideal memory |
| `Session.Client.ReturnFrame` | kernel/mm/pmm.c:211-219 | a frame is given back exactly when it is held, and is free |
| `Session.Client.Poke` | kernel/mm/paging.c:83-84 | a word is written exactly when the program has mapped its page writable to a frame it holds, and goes into that frame's array alone |
| `Session.Client.Peek` | kernel/mm/paging.c:83-84 | every word written to a held frame is read as it is in the ideal memory, through whatever page |
| `Session.PokeShows` | kernel/mm/paging.c:83-84 | a word poked into a frame is in the array of that frame and in no other |
| `Session.TakenShows` | kernel/mm/pmm.c:196-208 | a frame taken leaves the words of every frame held before |
| `Session.Client.ChangePage` | kernel/mm/paging.c:57-102 | a mapping outside the heap, the recursive window and the kernel's own 4 MiB costs a page table exactly when there is none, and fails exactly without a frame for it; every page the program has mapped stays as it asked until it changes it |
| `Session.RegionsApart` | kernel/mm/kheap.c:24-27 | bytes of two live allocations have different addresses |
| `Session.HoldsWritten` | kernel/mm/kheap.c:44-47 | a byte written keeps the other bytes of its word |
| `Kernel.MemorySystem.HeapPagesBacked` | kernel/mm/kheap.c:71-90 | in every reachable state each heap page is mapped writable, two heap pages never share a frame, and each such frame is used, is no page table and was not reserved at boot |
| `Kernel.StartTables` | kernel/mm/paging.c:43-48 | on what boot.S leaves, paging_init leaves the boot table and the directory itself in the directory |
| `Kernel.PagingFramesReserved` | kernel/mm/pmm.c:184-185 | the frames of the boot directory and the boot table are never free |
| `Kernel.MemorySystem.WrittenIsInMemory` | kernel/mm/kheap.c:44-47 | a word written to a payload that is still live is found at its address by the hardware walk |
| `Kernel.MemorySystem.WriteWord` | kernel/mm/kheap.c:44-47 | a store to a live payload word keeps the whole invariant |
| `Kernel.MemorySystem.ReadWord` | kernel/mm/kheap.c:44-47 | a load through cache and page tables returns the last word written |
| `Kernel.MemorySystem.WriteByte` | kernel/kernel/kernel.c:95-98 | a byte store to a live payload changes that byte of its word and no other written word |
| `Kernel.MemorySystem.ReadByte` | kernel/kernel/kernel.c:100 | a byte load finds the byte of the last word written |
| `Kernel.MemorySystem.UnmapPage` | kernel/mm/paging.c:90-102 | unmapping a page outside the heap, the recursive window and the kernel's own 4 MiB removes that page alone, and keeps the invariant, all other pages and the words of every held frame |
| `Kernel.BootMapsKernel` | kernel/arch/i386/boot.S:50-80 | boot.S maps the first 4 MiB at 0xC0000000, with video memory in the last page |
| `Kernel.MemorySystem.StillSeen` | kernel/mm/kheap.c:71-90 | what is confined to the heap leaves the kernel's own pages, every other page below the recursive window, and the words of every held frame |
| `Kernel.MemorySystem.WriteMapped` | kernel/mm/paging.c:83-84 | a store through a page mapped to a held frame changes one word of that frame; no other held frame, no page and nothing of the heap changes |
| `Kernel.MemorySystem.ReadMapped` | kernel/mm/paging.c:83-84 | a load through any page mapped to a held frame finds the word of that frame |
| `Kernel.MemorySystem.Prefetch` | kernel/mm/paging.c:34-37 | a cache fill at a call boundary keeps the whole invariant |
| `Kernel.StartFrames` | kernel/mm/pmm.c:124-189 | after pmm_init and its self-test the free frames are those the memory map leaves, but for a single one that the test keeps, and none holds a byte of image, paging structures, stack or bitmap |
| `Kernel.StartPaging` | kernel/kernel/kernel.c:128-134 | after both initialisations and self-tests the free frames and the directory are exact |
| `Kernel.StartHeap` | kernel/mm/kheap.c:177-185 | kheap_init leaves what growing an empty heap by four pages leaves |
| `Kernel.MemorySystem.Kmalloc` | kernel/mm/kheap.c:194-219 | all of the invariant survives an allocation, written payload words, every page outside the heap and the words of every held frame included; the answer, the block list, the free frames and the tables are exact, success or failure |
| `Kernel.MemorySystem.Kfree` | kernel/mm/kheap.c:222-232 | a release forgets exactly the words of the released block, and leaves every page outside the heap and the words of every held frame |
| `Kernel.MemorySystem.MapPage` | kernel/mm/paging.c:57-87 | a mapping outside the heap, the recursive window and the kernel's own 4 MiB, of any frame, succeeds exactly when it is aligned and its page table is there or a frame is free; it changes one page and costs that table, and leaves heap, written words, all other pages and the words of every held frame |
| `Kernel.MappedExactly` | kernel/mm/paging.c:57-87 | a mapping fails exactly when it is not aligned or there is neither a table nor a frame for one, and takes a frame exactly for a new table |
| `Kernel.MemorySystem.MemorySound` | kernel/mm/kheap.c:53-119 | in every reachable state the block list is well formed, the heap ends on a page, frame 0 is not free and no held frame is |
| `Kernel.MemorySystem.TakeFrame` | kernel/mm/pmm.c:196-208 | the least free frame is taken, and neither the heap nor a page table uses it |
| `Kernel.MemorySystem.GiveFrame` | kernel/mm/pmm.c:211-219 | a held frame given back is free, and is neither a heap page nor a page table |
| `Kernel.OtherByteStays` | kernel/kernel/kernel.c:95-98 | a byte store keeps every other byte, of the same word or of another |
| `SelfTests.PmmSelfTest` | kernel/kernel/kernel.c:15-32 | the frame self-test passes exactly when two frames are free, reports no duplicate, and restores the allocator; a single free frame stays taken |
| `SelfTests.Exercise` | kernel/kernel/kernel.c:52-71 | a word written to the test page is read back, the page resolves to its frame, and after unmapping to nothing |
| `SelfTests.GivenBack` | kernel/kernel/kernel.c:29-30 | giving both frames back restores the free and the held frames |
| `SelfTests.PagingSelfTest` | kernel/kernel/kernel.c:34-76 | the paging self-test passes exactly when there are frames for the page and its table, and fails at the first or the second of them otherwise; the free frames and tables after it are exact |
| `SelfTests.PagingTestCounts` | kernel/kernel/kernel.c:40-50 | two free frames pass the test and one of them is then gone; with fewer it fails and takes nothing |
| `SelfTests.PmmTestCounts` | kernel/kernel/kernel.c:15-32 | the frame test takes nothing, but for a single free frame, which it keeps |
| `Kheap.KernelHeap.Kmalloc` | kernel/mm/kheap.c:194-219 | block list, free frames, tables and answer are those of first fit with at most one growth; no word of a live payload and no page outside the heap changes; sizes whose page rounding wraps are answered too when the heap is full |
| `Kheap.KernelHeap.Kfree` | kernel/mm/kheap.c:222-232 | NULL changes nothing; a live payload address releases that block; every other live payload keeps its words |
| `Kheap.KernelHeap.Allocate` | kernel/mm/kheap.c:207-218 | the loop ends after at most one successful growth, since the grown heap always has a fitting block |
| `Kheap.KernelHeap.TakeOrGrow` | kernel/mm/kheap.c:207-218 | one turn: the lowest fitting block is taken, or the heap grows, or nothing changes |
| `Kheap.KernelHeap.TakeFit` | kernel/mm/kheap.c:208-213 | the scan takes the lowest fitting block and hands out its payload |
| `Kheap.KernelHeap.FindFit` | kernel/mm/kheap.c:208-210 | following next links from the first header reaches exactly the first fitting block |
| `Kheap.KernelHeap.GrowBy` | kernel/mm/kheap.c:71-119 | the pages are mapped and joined to the list, or neither |
| `Kheap.KernelHeap.MapPages` | kernel/mm/kheap.c:71-90 | a failed loop leaves the end of the heap where it was, with the pages mapped so far outside it, ready to be mapped over |
| `Kheap.KernelHeap.AddTail` | kernel/mm/kheap.c:92-119 | the header written at the old end turns the mapped bytes into list entries without touching a payload |
| `Kheap.KernelHeap.LinkTail` | kernel/mm/kheap.c:99-116 | the new block is merged into a free last block or linked behind a live one |
| `Kheap.KernelHeap.FindLast` | kernel/mm/kheap.c:102-105 | following next links ends at the last block |
| `Kheap.KernelHeap.Split` | kernel/mm/kheap.c:126-147 | the headers in memory after the call encode the list with the block cut, or handed out whole when the rest would be under 24 bytes |
| `Kheap.KernelHeap.Cut` | kernel/mm/kheap.c:134-146 | the seven stores of a cut turn the encoding of the old list into that of the new one and miss every payload |
| `Kheap.KernelHeap.Join` | kernel/mm/kheap.c:155-161 | one merge of neighbours is a merge in the encoded list and misses every payload |
| `Kheap.KernelHeap.Coalesce` | kernel/mm/kheap.c:150-171 | merging with the next and then the previous block is the merge of the list; live blocks stay |
| `Kheap.KernelHeap.FreeBlock` | kernel/mm/kheap.c:229-231 | marking and coalescing restore a list with no two free neighbours |
| `Kheap.KernelHeap.UsedByteCount` | kernel/mm/kheap.c:240-251 | the walk over the headers sums the sizes of the live blocks |
| `Kheap.KernelHeap.TotalByteCount` | kernel/mm/kheap.c:235-237 | the mapped bytes are exactly the used and free bytes together |
| `Kheap.KernelHeap.Init` | kernel/mm/kheap.c:177-185 | the first growth gives one free block of 16 KiB when it is affordable and an empty heap otherwise |
| `Kheap.KernelHeap.UserStore` | kernel/mm/kheap.c:44-47 | a store to a live payload reaches no header, no page table and no translation |
| `Kheap.KernelHeap.UserLoad` | kernel/mm/kheap.c:44-47 | a load from a live payload returns the word the heap window holds there |
| `Kheap.KernelHeap.SetFree` | kernel/mm/kheap.c:130 | rewriting the flag byte changes one flag of the encoded list |
| `Kheap.KernelHeap.Extend` | kernel/mm/kheap.c:53-120 | growth succeeds exactly when the pages stay within 16 MiB and there are frames for them and their page tables; the heap then ends whole pages further on, 16 KiB at least and less than a page more than was asked for; block list, free frames and tables after it are exact, success or failure |
| `Kheap.KernelHeap.MapLoop` | kernel/mm/kheap.c:71-90 | the mapping loop stops exactly where a page cannot be had, having spent exactly what came before, and disturbs no mapping, held frame or word outside |
| `Kheap.GrowthOf` | kernel/mm/kheap.c:71-119 | what the loop spends and what the list gains are the growth of the abstract memory |
| `Kheap.FullHeap` | kernel/mm/kheap.c:61-63 | a heap of 16 MiB does not grow and spends nothing |
| `Kheap.TurnGrants` | kernel/mm/kheap.c:207-218 | what a turn of the loop finds, before or after the growth, is the answer; after a growth it finds a block |
| `Growth.GrowthPrice` | kernel/mm/kheap.c:53-90 | with n the least number of pages, four at least, that holds the request: the heap can grow exactly when n pages stay within 16 MiB and there is a free frame for each of them and for each missing page table; that is what it takes; a growth refused at the limit takes the price of every page up to it; one that runs out of frames leaves at most one |
| `Growth.GrantExactly` | kernel/mm/kheap.c:194-219 | kmalloc answers an address exactly when a free block has room for header and request rounded up to 8, or the least pages for that stay within 16 MiB and can be paid for |
| `Growth.GrowthInBytes` | kernel/mm/kheap.c:65-90 | a growth adds whole pages, 16 KiB at least, that hold the request, and less than a page more |
| `Growth.GrantTakes` | kernel/mm/kheap.c:194-219 | an allocation takes frames from the free ones and gives none back |
| `Growth.RefusedForNothing` | kernel/mm/kheap.c:61-87 | a growth that is refused takes no frames exactly when the heap is full or there is no frame for its first page and the table of that page |
| `Growth.RefusedAtLimit` | kernel/mm/kheap.c:72-77 | a growth past 16 MiB is refused after the pages up to the limit have been mapped: their frames and page tables go if there are that many, and otherwise at most one frame is left |
| `Growth.GrowToLimit` | kernel/mm/kheap.c:72-77 | growth beyond 16 MiB goes exactly as far as to 16 MiB |
| `Growth.SixteenMebibytes` | kernel/mm/kheap.c:72-77 | 16 MiB asked of the first heap are answered null, and 4095 frames are gone |
| `Growth.RunCostCounts` | kernel/mm/kheap.c:71-90 | mapping a run of pages costs a frame for each page and one for each directory entry that has no table |
| `Growth.GrowToCounts` | kernel/mm/kheap.c:71-90 | page by page, growth gets to its end exactly when the price can be paid |
| `Growth.GrowToWithin` | kernel/mm/kheap.c:75-77 | growth never passes 16 MiB |
| `Growth.NullExactlyWhen` | kernel/mm/kheap.c:194-219 | kmalloc answers null exactly when no block fits and the heap cannot grow |
| `HeapModel.LiveDeterminesList` | kernel/mm/kheap.c:20-22 | the block list is a function of the live blocks and the end of the heap: the order of the calls that led there leaves no trace |
| `HeapModel.EveryRun` | kernel/mm/kheap.c:194-251 | over every run: tiling, alignment, no free neighbours, the 16 MiB limit, conservation of bytes, the bound on waste, and the bound on free blocks |
| `HeapModel.NeededSuffices` | kernel/mm/kheap.c:202-205 | the block size meets the request exactly when size + 16 + 7 does not wrap at 32 bits |
| `HeapModel.GrowBytesSuffices` | kernel/mm/kheap.c:65-69 | the pages are the least number, four at least, that holds the request, exactly when the rounding does not wrap; when it wraps there is no page at all |
| `HeapModel.NeededIsLeast` | kernel/mm/kheap.c:202-205 | the block size is the least multiple of 8, 24 at least, with room for header and request |
| `HeapModel.TakenFacts` | kernel/mm/kheap.c:126-147 | of the lowest fitting block exactly the bytes needed are handed out, or all of it when the rest would be under 24 bytes |
| `HeapModel.BytesAreLive` | kernel/mm/kheap.c:240-251 | used bytes are the sum of the sizes of the live blocks, and free bytes are the rest of the mapped heap |
| `HeapModel.BytesOfCalls` | kernel/mm/kheap.c:240-251 | the used bytes of two heaps that differ by one live block differ by its size |
| `HeapModel.SplitKeepsShape` | kernel/mm/kheap.c:126-147 | a cut keeps tiling, alignment, order and the absence of free neighbours |
| `HeapModel.ReleaseKeepsShape` | kernel/mm/kheap.c:150-171 | a release keeps them, whatever its neighbours are |
| `HeapModel.GrowKeepsShape` | kernel/mm/kheap.c:92-119 | growth keeps them and leaves a free last block of at least the bytes added |
| `HeapModel.MergeKeepsTiles` | kernel/mm/kheap.c:155-161 | a merge of neighbours leaves no gap and no overlap |
| `HeapModel.AllocThenFree` | kernel/mm/kheap.c:126-171 | releasing a block just cut off restores the exact list |
| `HeapModel.MallocThenFree` | kernel/mm/kheap.c:194-232 | kmalloc and then kfree of its result, without growth, restore the exact block list |
| `HeapModel.RunsThatMeet` | kernel/mm/kheap.c:194-232 | runs that end with the same live blocks and the same end of the heap end with the same list |
| `HeapModel.CutMergesBack` | kernel/mm/kheap.c:126-161 | merging a cut block with its rest undoes the cut |
| `HeapModel.FreesFacts` | kernel/mm/kheap.c:222-232 | a release ends exactly the live block at the address given |
| `HeapModel.GivesFacts` | kernel/mm/kheap.c:194-219 | null leaves the heap as it was; any other result is 8-aligned, starts at the lowest fitting block, belongs to a new live block, has room for the request exactly when the size did not wrap, and is cut to the bytes needed unless the rest would be too small for a block |
| `HeapModel.MallocFacts` | kernel/mm/kheap.c:194-219 | an allocation keeps every live block and adds one block at a new address |
| `HeapModel.MallocMeetsRequest` | kernel/mm/kheap.c:202-213 | the payload has room for the request exactly when the size did not wrap |
| `HeapModel.FirstFitIsLowest` | kernel/mm/kheap.c:208-213 | no fitting block lies below the one taken |
| `HeapModel.FirstFit` | kernel/mm/kheap.c:208-210 | the index of the lowest fitting block, or the length of the list when there is none |
| `HeapModel.GrownFits` | kernel/mm/kheap.c:207-218 | after a growth some block fits |
| `HeapModel.BytesConserved` | kernel/mm/kheap.c:235-251 | used and free bytes make up the mapped heap |
| `HeapModel.FewFreeBlocks` | kernel/mm/kheap.c:149-171 | free blocks number at most the live ones plus one |
| `HeapModel.NothingLiveIsOneBlock` | kernel/mm/kheap.c:149-171 | with nothing live the heap is one free block |
| `HeapModel.ReleaseAllCoalesces` | kernel/mm/kheap.c:149-171 | freeing every live block, in any order, leaves one free block over the whole heap |
| `HeapModel.AfterKeeps` | kernel/mm/kheap.c:194-232 | every event keeps the list well formed and every other live block as it is |
| `HeapModel.KmallocIsEvent` | kernel/mm/kheap.c:194-219 | what kmalloc does is an event of the runs |
| `HeapModel.KfreeIsEvent` | kernel/mm/kheap.c:222-232 | what kfree does is an event of the runs |
| `HeapModel.UsedWithinAllowed` | kernel/mm/kheap.c:240-251 | used bytes exceed what was asked for by at most 39 per live block |
| `HeapModel.HugeRequestsLoop` | kernel/mm/kheap.c:65-72 | a request whose page rounding wraps maps no page, and however often the loop turns no block fits |
| `HeapModel.WrappedRequest` | kernel/mm/kheap.c:202-205 | a request for 0xFFFFFFF0 bytes on the first heap is answered by a block of 24 |
| `HeapModel.FreesAt` | kernel/mm/kheap.c:222-232 | what kfree leaves is determined by the address |
| `HeapHeaders.CutEncodes` | kernel/mm/kheap.c:134-146 | the words written by a cut encode the cut list and keep every payload word |
| `HeapHeaders.JoinEncodes` | kernel/mm/kheap.c:155-161 | the words written by a merge encode the merged list and keep every payload word |
| `HeapHeaders.FlagEncodes` | kernel/mm/kheap.c:228-231 | a new flag byte encodes the list with that flag |
| `HeapHeaders.SizeEncodes` | kernel/mm/kheap.c:109 | a new size word encodes the list with that size |
| `HeapHeaders.AppendEncoded` | kernel/mm/kheap.c:114-115 | a header past the end and one forward link encode the list with a block appended |
| `HeapHeaders.TailLinks` | kernel/mm/kheap.c:114-115 | linking a new header behind the last block keeps every payload word |
| `HeapHeaders.PayloadKept` | kernel/mm/kheap.c:24-27 | stores inside a free block, or to a back link, reach no live payload |
| `HeapHeaders.PayloadsDisjoint` | kernel/mm/kheap.c:24-27 | no address lies in the payloads of two live blocks |
| `HeapHeaders.PayloadInside` | kernel/mm/kheap.c:24-27 | every live payload lies inside the mapped heap |
| `HeapHeaders.PayloadWriteEncodes` | kernel/mm/kheap.c:24-27 | no write to a live payload changes any header |
| `HeapHeaders.GivenPayloads` | kernel/mm/kheap.c:194-213 | every payload word live before an allocation is live after it |
| `HeapHeaders.FreedPayloads` | kernel/mm/kheap.c:222-232 | a release ends the payload at its address and no other |
| `HeapHeaders.WordOfPayload` | kernel/mm/kheap.c:15-16 | the word of a payload byte lies in the payload, since blocks start at multiples of 8 |
| `HeapWindow.ByteStored` | kernel/kernel/kernel.c:95-98 | of the four bytes of a word a byte store changes one |
| `HeapWindow.Window.StoreElsewhere` | kernel/mm/paging.c:83-84 | a store to a frame that is neither the heap's nor a page table's changes its word alone |
| `HeapWindow.Window.Store` | kernel/mm/kheap.c:134-146 | a store through cache and walk changes one word of the heap and no translation |
| `HeapWindow.Window.Load` | kernel/mm/kheap.c:208-209 | a load through cache and walk finds the word of the heap |
| `HeapWindow.Window.MapElsewhere` | kernel/mm/paging.c:57-87 | a mapping outside the window leaves every heap page on its own frame with its words |
| `HeapWindow.Window.UnmapElsewhere` | kernel/mm/paging.c:90-102 | so does an unmapping |
| `HeapWindow.Window.TakeFrame` | kernel/mm/pmm.c:196-208 | a frame from the allocator shows through no heap page and holds no page table |
| `HeapWindow.Window.Retreat` | kernel/mm/kheap.c:75-87 | pages mapped by a failed growth fall outside the heap and may be mapped over later |
| `HeapWindow.ConfinedIsTransitive` | kernel/mm/kheap.c:71-90 | operations that disturb nothing outside the heap compose |
| `HeapWindow.Window.TryPage` | kernel/mm/kheap.c:73-89 | one page is attached exactly when there are frames for it and for a page table it needs; the frames and tables left are exact, and on failure the frame goes back |
| `HeapWindow.Window.AttachPage` | kernel/mm/kheap.c:73-89 | the same, together with what the rest of the kernel can tell |
| `Paging.AddressSpace.MapPage` | kernel/mm/paging.c:57-87 | success exactly when the frame is aligned and a table is there or can be had; one page changes its translation, and a new table shows as one window page; a failure changes nothing; below the window the walk still leads to the directory exactly when its own page keeps its frame and the right to write; in the window one directory entry is written, and shape and access are kept exactly under a condition on it; the cache stays coherent below the window |
| `Paging.AddressSpace.Boot` | kernel/arch/i386/boot.S:48-80 | the directory and table that boot.S leaves: entry 768 is the boot table, entry 0 is clear, and the cache is empty |
| `Paging.AddressSpace.Init` | kernel/mm/paging.c:43-48 | the recursive slot completes the invariant and changes no translation below its window |
| `Paging.AddressSpace.WindowResolves` | kernel/mm/paging.c:29-32 | page n of the recursive window resolves to the frame of directory entry n, for every present n |
| `Paging.AddressSpace.DirectoryResolves` | kernel/mm/paging.c:22-23 | the higher-half address of the directory resolves to the directory |
| `Paging.AddressSpace.StoreInDirectory` | kernel/mm/paging.c:74-75 | filling an absent entry changes translations of that entry's pages only, plus one page of the window |
| `Paging.AddressSpace.ClearTable` | kernel/mm/paging.c:77-78 | a new table is cleared through the very entry that installed it, and maps nothing afterwards |
| `Paging.AddressSpace.InstallTable` | kernel/mm/paging.c:68-79 | a new table appears as one page of the window and maps nothing |
| `Paging.AddressSpace.SetEntry` | kernel/mm/paging.c:83-85 | the entry and the cache agree again after invlpg, and one translation has changed |
| `Paging.AddressSpace.GetPhysical` | kernel/mm/paging.c:105-123 | the answer is the hardware walk's on every address, the recursive window included |
| `Paging.AddressSpace.Load` | kernel/mm/paging.c:34-37 | an access through a coherent cache reads what the walk finds |
| `Paging.AddressSpace.Prefetch` | kernel/mm/paging.c:34-37 | the processor may cache any existing translation between calls without breaking coherence |
| `Paging.AddressSpace.StoreData` | kernel/mm/kheap.c:93-97 | a store to a frame that holds no page table changes no translation |
| `Paging.PageEntryFields` | kernel/mm/paging.c:66-84 | an aligned address and flags below one page combine without interference |
| `Paging.AddressSpace.StoreInTable` | kernel/mm/paging.c:83-84 | one store through the window changes one translation; the directory stays reachable exactly when its own page still leads to it, writable |
| `Paging.AddressSpace.AddTable` | kernel/mm/paging.c:69-78 | a new table is the least free frame, cleared, and shows as one window page |
| `Paging.AddressSpace.EnsureTable` | kernel/mm/paging.c:68-81 | a table is there afterwards exactly when it was there before or a frame was left for it |
| `Paging.AddressSpace.UnmapPage` | kernel/mm/paging.c:90-102 | exactly one page loses its translation; for every address, the kernel still reaches the directory and all page tables exactly when the page is not the directory's, nor the window page of the kernel's table or of the directory; in the window a directory entry and 4 MiB of translations go |
| `Paging.SlotLost` | kernel/mm/paging.c:90-102 | unmapping 0xFFFFF000 takes the recursive slot and with it the way to every page table, though the page is not the directory's |
| `Paging.AddressSpace.SlotAfter` | kernel/mm/paging.c:83-85 | after any write of any directory entry: the tables are in shape, and the kernel reaches them, exactly under a condition on the entry written |
| `Paging.AddressSpace.TablesReach` | kernel/mm/paging.c:20-32 | in every state in shape the kernel reaches the directory for writing, and through the slot every table |
| `Paging.DirectoryKeptOrLost` | kernel/mm/paging.c:66-84 | mapping the directory's page again for user code keeps access to it; mapping it read-only or unmapping it loses it |
| `Pmm.FrameAllocator.WriteBit` | kernel/mm/pmm.c:38-48 | one bit of the bitmap changes and no other |
| `Pmm.FrameAllocator.SetUsed` | kernel/mm/pmm.c:33-49 | one frame changes, the counter stays the number of used frames, and a frame past the count is ignored |
| `Pmm.FrameAllocator.SetRange` | kernel/mm/pmm.c:52-63 | the frames of the range change and no others |
| `Pmm.FrameAllocator.ReserveRegion` | kernel/mm/pmm.c:66-78 | exactly the frames of the region, rounded as the code rounds, become used |
| `Pmm.LastEntryStep` | kernel/mm/pmm.c:158-169 | a later entry overrides an earlier one on the frames it covers |
| `Pmm.FrameAllocator.FillUsed` | kernel/mm/pmm.c:154-156 | everything starts used, and the counter says so |
| `Pmm.FrameAllocator.CountFrames` | kernel/mm/pmm.c:133-148 | the count is that of the highest end of memory, capped at 32768 |
| `Pmm.HighestEnd` | kernel/mm/pmm.c:133-137 | the greatest end among the map entries |
| `Pmm.FrameAllocator.ApplyMap` | kernel/mm/pmm.c:158-177 | a frame is free exactly when the last entry covering it is usable, or none is usable at all and it lies in the fallback range |
| `Pmm.FrameAllocator.Init` | kernel/mm/pmm.c:124-189 | a frame is free exactly when it is not reserved at boot and the map or the fallback says so; no free frame holds a byte of the kernel image from 1 MiB, of the boot directory and table, of the stack or of the bitmap, as long as the end of each does not wrap when rounded up |
| `Pmm.ProtectedFrames` | kernel/mm/pmm.c:176-188 | whatever the map says, no byte of image, directory, table, stack or bitmap lies in a free frame |
| `Pmm.FreeByAddress` | kernel/mm/pmm.c:124-189 | when no entry is misplaced and no end wraps: a frame is free exactly when the last map entry with a byte in it is of kind 1 or 3, or there is none of those and the memory above 1 MiB reaches it, and it is not frame 0, holds no byte of the four protected regions and is not the first one past the last page of any |
| `Pmm.TopIsGreatest` | kernel/mm/pmm.c:133-144 | the end of memory is the greatest of the ends of the map entries and of the memory above 1 MiB |
| `Pmm.FrameAllocator.AllocFrame` | kernel/mm/pmm.c:196-208 | the least free frame other than 0 is handed out, or 0 when there is none |
| `Pmm.FrameAllocator.FreeFrame` | kernel/mm/pmm.c:211-219 | a held frame becomes free; misaligned, null and out-of-range addresses change nothing |
| `Pmm.FrameAllocator.UsedFrames` | kernel/mm/pmm.c:225-227 | the counter is the number of used frames |
| `Pmm.FrameAllocator.FreeFrames` | kernel/mm/pmm.c:229-234 | the difference is the number of free frames, and the guard never fires |
| `Pmm.FrameAllocator.ScannedTo` | kernel/mm/pmm.c:197-207 | what the scan has passed decides the least free frame |
| `Pmm.FrameAllocator.Accounting` | kernel/mm/pmm.c:225-234 | free, held and reserved frames are disjoint and make up the total |
| `Pmm.FrameAllocator.HeldNotFree` | kernel/mm/pmm.c:196-208 | no held frame is free |
| `Pmm.TakeShrinks` | kernel/mm/pmm.c:196-208 | a frame is taken exactly when one is left |
| `Pmm.LeastFree` | kernel/mm/pmm.c:197-205 | the least free frame, characterised |
| `Pmm.RunPartitions` | kernel/mm/pmm.c:196-219 | over every run free and held frames partition the frames that were free at the start |
| `Pmm.NextFrameIsFresh` | kernel/mm/pmm.c:196-208 | after any run the next frame was neither held nor reserved; 0 comes only when all are held |
| `Pmm.CoversExactly` | kernel/mm/pmm.c:86-98 | an entry writes exactly the frames that hold its bytes if and only if it ends by 4 GiB, or is empty and starts on a page at 0 or at no multiple of 4 GiB |
| `Pmm.CoversLowBits` | kernel/mm/pmm.c:86-98 | for every entry: the frames from that of the low 32 bits of its first byte to that of the low 32 bits of its last |
| `Pmm.CoversAsIfLow` | kernel/mm/pmm.c:93-98 | an entry that spans no multiple of 4 GiB writes what the same entry below 4 GiB would |
| `Pmm.RegionIsIntervalAndOneMore` | kernel/mm/pmm.c:66-78 | the frames reserved are those that meet the interval and one more, or next to none when rounding up the end wraps |
| `Pmm.FrameCountExactly` | kernel/mm/pmm.c:133-148 | the frame count is the one that the end of memory calls for exactly when that end is below 4 GiB or its low bits fill the bitmap |
| `Pmm.RomCollapsesCount` | kernel/mm/pmm.c:133-148 | a region that ends at 4 GiB leaves a count of one frame, and nothing to allocate |
| `Pmm.FrameCountCoversMap` | kernel/mm/pmm.c:133-148 | when the count is right no frame of the map that fits the bitmap is left out, whatever the entries |
| `Pmm.FrameAllocator.Hold` | kernel/mm/pmm.c:197-204 | the frame found is no longer free, and held |
| `Multiboot.MemoryMap.Walk` | kernel/mm/multiboot.c:99-119 | the stored entries are those met from offset 0, on arbitrary bytes, even where the offset wraps; the map is valid exactly when there is one |
| `Multiboot.NumberOfBytes` | kernel/mm/multiboot.c:56-64 | the loads of the walk read back what the layout of section 3.3 of the Multiboot Specification 0.6.96 writes |
| `Multiboot.ParseEncoded` | kernel/mm/multiboot.c:47-66 | an encoded record inside the identity map parses to its entry, and the next offset is the next record |
| `Multiboot.WalkDecodes` | kernel/mm/multiboot.c:103-117 | from any record boundary the walk stores the records that are visible: in order, up to the room left and the end of the identity map |
| `Multiboot.ShortRecordEnds` | kernel/mm/multiboot.c:103-117 | a record whose size is below 20 ends the map: the records before it are stored, whatever follows |
| `Multiboot.VisibleIsAll` | kernel/mm/multiboot.c:18-20 | all records are visible exactly when they fit the storage and start inside the identity map |
| `Multiboot.WalkInvertsEncoder` | kernel/mm/multiboot.c:103-119 | the walk inverts the encoder exactly on maps of at most 64 entries that all start inside the identity map |
| `Keyboard.LettersAreCapitalised` | kernel/arch/i386/drivers/keyboard.c:63-92 | the letter keys are exactly those whose plain entry is a small letter; shift XOR Caps Lock capitalises them, and Caps Lock affects nothing else |
| `Keyboard.LetterLayout` | kernel/arch/i386/drivers/keyboard.c:30-53 | the three rows of letters type qwertyuiop, asdfghjkl and zxcvbnm, or their capitals for shift XOR Caps Lock |
| `Keyboard.OtherLayout` | kernel/arch/i386/drivers/keyboard.c:30-53 | the rows of digits and symbols type the plain or the shifted column, for shift alone |
| `Keyboard.SingleKeyLayout` | kernel/arch/i386/drivers/keyboard.c:30-53 | so do the keys between them |
| `Keyboard.OtherKeys` | kernel/arch/i386/drivers/keyboard.c:119-159 | no other byte types anything, and none after the prefix does |
| `Keyboard.WaitingIsReturned` | kernel/arch/i386/drivers/keyboard.c:181-195 | whatever bytes and interrupts come between, every six instructions of the reader return the oldest waiting character, and the reader is where it was |
| `Keyboard.SleeperReturnsKey` | kernel/arch/i386/drivers/keyboard.c:181-195 | from sleep, one interrupt with a byte that types a character and six instructions return it |
| `Keyboard.EmptySleeps` | kernel/arch/i386/drivers/keyboard.c:192-193 | with nothing waiting and no interrupt the reader is asleep after four instructions and stays so |
| `Keyboard.HeldStep` | kernel/arch/i386/drivers/keyboard.c:122-145 | a key counts as held from an unprefixed press to its release, prefixed or not |
| `Keyboard.FlagsAreHistory` | kernel/arch/i386/drivers/keyboard.c:108-160 | after any byte stream the flags are those of the history: prefix just seen, shifts held, parity of Caps Lock presses |
| `Keyboard.TypedByHistory` | kernel/arch/i386/drivers/keyboard.c:134-159 | a byte types a character exactly when it is an unprefixed printing press, and the character is the table's for that history |
| `Keyboard.RecordedStep` | kernel/arch/i386/drivers/keyboard.c:95-160 | after one more byte the accepted characters are still those typed, without the ones dropped |
| `Keyboard.NothingLostWithRoom` | kernel/arch/i386/drivers/keyboard.c:95-195 | in every run in which fewer than 255 characters wait, the characters returned, in flight and waiting are those that the handled bytes type |
| `Keyboard.HandleIsSafe` | kernel/arch/i386/drivers/keyboard.c:108-160 | an interrupt at any instruction of the reader keeps the safety invariant |
| `Keyboard.Waiting` | kernel/arch/i386/drivers/keyboard.c:53-55 | at most 255 characters wait, and none exactly when the positions agree |
| `Keyboard.PushAppends` | kernel/arch/i386/drivers/keyboard.c:95-102 | a push appends, or drops the character exactly when 255 wait |
| `Keyboard.PopRemoves` | kernel/arch/i386/drivers/keyboard.c:187-188 | a pop takes the oldest |
| `Keyboard.Driver.constructor` | kernel/arch/i386/drivers/keyboard.c:162-171 | an empty ring and no modifiers |
| `Keyboard.Driver.BufferPush` | kernel/arch/i386/drivers/keyboard.c:95-102 | the ring after the call is the pushed ring |
| `Keyboard.Driver.ScancodeToAscii` | kernel/arch/i386/drivers/keyboard.c:75-92 | the table lookup for the state of the modifiers |
| `Keyboard.Driver.IrqHandler` | kernel/arch/i386/drivers/keyboard.c:108-160 | one byte moves flags and ring as the history functions say; accepted characters are those typed so far without the ones dropped, and are those taken and those waiting |
| `Keyboard.Driver.HasKey` | kernel/arch/i386/drivers/keyboard.c:173-175 | true exactly when a character waits |
| `Keyboard.Driver.TakeKey` | kernel/arch/i386/drivers/keyboard.c:186-190 | the oldest accepted character is returned |
| `Keyboard.StepIsSafe` | kernel/arch/i386/drivers/keyboard.c:181-195 | every interleaved step of reader, interrupt and controller keeps the safety invariant |
| `Keyboard.RunIsSafe` | kernel/arch/i386/drivers/keyboard.c:181-195 | so does every run |
| `Keyboard.ReaderNeverMissesAKey` | kernel/arch/i386/drivers/keyboard.c:177-195 | in every interleaving the bytes handled and pending are those sent; the accepted characters are those that the handled bytes type, without the ones dropped; the returned ones are a prefix of them, the rest is in flight or in the ring; and a sleeping reader has an empty ring and is woken by the next byte |
| `Keyboard.SleepWithoutTheDelay` | kernel/arch/i386/drivers/keyboard.c:192-193 | were STI to take effect at once, some run would leave the reader asleep with a character waiting |
| `Keyboard.Driver.PressKey` | kernel/arch/i386/drivers/keyboard.c:139-159 | an unprefixed press moves flags and ring as the history functions say |
| `Terminal.StaysOnScreen` | kernel/arch/i386/tty.c:93-135 | a character keeps the cursor on the screen exactly when it is not a tab from one of the last seven columns |
| `Terminal.TabLeavesScreen` | kernel/arch/i386/tty.c:117-124 | a tab from column 73 leaves the column at 80 |
| `Terminal.TabColumn` | kernel/arch/i386/tty.c:117-122 | a tab moves to the next multiple of eight, or stays on one |
| `Terminal.TextStaysOnScreen` | kernel/arch/i386/tty.c:137-141 | a text stays on the screen exactly when each of its tabs fits |
| `Terminal.TablessTextsFit` | kernel/arch/i386/tty.c:137-141 | every text without tabs does |
| `Terminal.PrintingStep` | kernel/arch/i386/tty.c:130-133 | one printing character changes one cell, to the character in the low byte and the colour in the high one, and moves the cursor one place, wrapped at 80 |
| `Terminal.EntryIs` | kernel/arch/i386/vga.h:29-31 | a cell holds the character in its low byte and the colour in its high one |
| `Terminal.ControlStep` | kernel/arch/i386/tty.c:96-128 | newline, return, backspace, tab and escape: where each takes the cursor, which cells become spaces, and that nothing else changes |
| `Terminal.PrintingRunWraps` | kernel/arch/i386/tty.c:130-141 | a run of printing characters lands, characters in the low bytes and colours in the high ones, in order from the cursor on, wrapped at eighty columns, whatever scrolling it causes |
| `Terminal.RowsAboveAreFinal` | kernel/arch/i386/tty.c:93-135 | no character changes a row above the cursor |
| `Terminal.PutShows` | kernel/arch/i386/tty.c:88-91 | one cell written in the buffer is one cell written in the log |
| `Terminal.ScrollShows` | kernel/arch/i386/tty.c:45-60 | moving the rows up by one shows the log with a blank row added |
| `Terminal.Screen.SyncCursor` | kernel/arch/i386/tty.c:25-32 | the two register bytes hold row * 80 + column |
| `Terminal.Screen.PutEntryAt` | kernel/arch/i386/tty.c:88-91 | one cell changes, its low byte to the character and its high byte to the colour |
| `Terminal.Screen.SetColor` | kernel/arch/i386/tty.c:84-86 | the colour of later characters, and nothing shown, changes |
| `Terminal.RawTypedShows` | kernel/arch/i386/tty.c:93-135 | while every tab fits, what a character does to video memory and cursor is what it does to the log |
| `Terminal.TextShown` | kernel/arch/i386/tty.c:137-141 | a text whose tabs all fit stays in the page of video memory, and leaves its 25 rows as the last 25 of the log |
| `Terminal.OverhangNeverWraps` | kernel/arch/i386/tty.c:130-133 | a cursor that a tab has put past the last column never wraps or scrolls: printing goes on in the cells that follow |
| `Terminal.OverhangEnds` | kernel/arch/i386/tty.c:94-124 | only newline, carriage return and a backspace from column 80 bring it back, and a tab does nothing |
| `Terminal.Screen.constructor` | kernel/arch/i386/tty.c:69-82 | video memory shows a blank log with the cursor at the origin |
| `Terminal.Screen.Scroll` | kernel/arch/i386/tty.c:45-60 | the nested copy loops move 24 rows up, blank the last, and leave the rest of the page |
| `Terminal.Screen.Newline` | kernel/arch/i386/tty.c:62-67 | the next row, scrolling exactly at the bottom |
| `Terminal.Screen.TabHere` | kernel/arch/i386/tty.c:117-124 | spaces up to the next multiple of eight |
| `Terminal.Screen.PutChar` | kernel/arch/i386/tty.c:93-135 | wherever the cursor is, the step of the machine's view, and a cursor register that follows |
| `Terminal.Screen.Write` | kernel/arch/i386/tty.c:137-141 | video memory and cursor after a whole text, wherever the cursor is, and the register at row * 80 + column |
| `Printf.ParseNumeral` | libc/stdio/printf.c:30-34 | the digits parse back to the value in every base from 2 to 16, with a leading zero for 0 only |
| `Printf.BufferHolds` | libc/stdio/printf.c:17-30 | the buffer guard cuts digits off exactly in base 2 from 2^31 on |
| `Printf.PrintedReadsBack` | libc/stdio/printf.c:16-38 | what is printed reads back as the value exactly when nothing was cut; otherwise the top bit is lost |
| `Printf.SignedReadsBack` | libc/stdio/printf.c:40-49 | signed text reads back as the value for every int, INT_MIN included |
| `Printf.TextReadsBack` | libc/stdio/printf.c:78-139 | what a directive prints reads back as its argument: %u and %d in decimal, %x in hexadecimal, %p in hexadecimal after 0x, with small digits and no leading zero |
| `Printf.RenderMeans` | libc/stdio/printf.c:60-148 | every format put together from literal text, doubled percent signs, stray ones and directives is taken apart again: the output is the text of the pieces in order, and the count is theirs |
| `Printf.Console.FillDigits` | libc/stdio/printf.c:17-34 | the loop that fills the buffer backwards leaves the digits of the value, at most 31 |
| `Printf.Console.PrintUint` | libc/stdio/printf.c:16-38 | bases outside 2 to 16 print nothing and fail; others print the digits |
| `Printf.Console.PrintInt` | libc/stdio/printf.c:40-49 | a sign and the digits of the magnitude, without overflow |
| `Printf.Console.PrintUnsignedInline` | libc/stdio/printf.c:97-119 | the inline loop of %u emits the same decimal digits and counts them |
| `Printf.Console.PrintDirective` | libc/stdio/printf.c:78-139 | each directive emits the text of its argument and counts it as the code does |
| `Printf.Console.StretchLength` | libc/stdio/printf.c:61-65 | a stretch runs up to the next percent sign |
| `Printf.PlainStretch` | libc/stdio/printf.c:60-73 | a stretch without percent signs stands for itself, character by character |
| `Printf.StretchRenders` | libc/stdio/printf.c:60-73 | a chunk, %% included, means the same as its characters |
| `Printf.TallyIsLength` | libc/stdio/printf.c:120-139 | the returned count is the length of the output exactly when no %d, %x or %p prints more than one character; it is never more |
| `Printf.Console.Printf` | libc/stdio/printf.c:51-152 | the chunked scan emits what the format means one character at a time and returns the tally when that fits an int; otherwise it returns -1 with a prefix of the text printed, unless the count first overflows in %u, %d, %x or %p |
| `Printf.TallyFits` | libc/stdio/printf.c:76-139 | a tally that fits never overflows on the way |
| `Printf.StretchOverflows` | libc/stdio/printf.c:66-68 | literal text is looked at before it is printed |

## Left out

- Kheap.KernelHeap.Kmalloc: leaves out sizes whose page rounding wraps (block size above 2^32 - 4096) while the heap is below 16 MiB, where the call does not return: it writes a header at the end of the heap, which is a page fault if no earlier failed growth has left a page mapped there, and otherwise turns its loop for ever, as `HeapModel.HugeRequestsLoop` shows.
- Kheap.KernelHeap.Extend: leaves out the same requests.
- Kheap.KernelHeap.TakeOrGrow: leaves out the same requests.
- Kheap.KernelHeap.Allocate: leaves out the same requests.
- Kernel.MemorySystem.Kmalloc: leaves out the same requests.
- Session.Client.Alloc: does not call `kmalloc` with them and counts them as refused. A size that wraps otherwise is served, by an array of the bytes that the block has.
- Session.Client.Do: a word of a frame that is mapped twice is one word; a poke or a peek through a page that leads to a frame which is not the program's is refused, since what it reaches is not the program's either.
- Paging.AddressSpace.MapPage: takes flags below 4096 only; greater ones would be mixed into the frame number. What a mapping or unmapping in the recursive window does to the cache, and with it to what stale translations still reach, is not stated.
- Paging.AddressSpace.Prefetch: fills happen at accesses and between calls; a fill between the installing and the clearing of a new table is not modelled, nor are paging-structure caches, the accessed and dirty bits, large pages and write protection of a read-only page against the kernel beyond the check in `Store`.
- The user bit of `flags` is in the entry but grants nothing, since every table entry is a supervisor one; `Paging.AddressSpace.MapPage` therefore states a supervisor translation.
- Kernel.MemorySystem.MapPage: does not cover mappings inside the heap's 16 MiB, the recursive window or the kernel's own 4 MiB, and neither does `UnmapPage`: the code does not check, a caller that takes a page of text, stack or statics away makes it fault, and no other part of the kernel does.
- Placed: the linker lays the boot directory and the boot table side by side, page-aligned, inside the boot map; linker addresses are parameters.
- The statics of the code (the bitmap, the heap's end, the stored map) and the kernel's image are fields, not words of the simulated memory; the frames they lie in are reserved at boot, and their pages stay mapped as boot.S has mapped them, which is part of the invariant of `Kernel.MemorySystem`.
- Frames spent by a failed growth are not given back by the code, so nothing is claimed of them but their number and that they stay held; the pages are mapped over by the next growth.
- Multiboot.MemoryMap.Walk: starts from the map's address and length. Finding them in the boot information, whose fields the code offsets by flag bits, is not modelled; nor is the `magic` check.
- An entry in the last 24 bytes of the identity map is read past its end; the simulated memory is taken to reach that far.
- Freeing an address that is not a live payload, and giving back a frame that is not held: the code does not check, and its callers must not.
- Printf.Console.Printf: says nothing where the count overflows in `%u`, `%d`, `%x` or `%p`, which is undefined in C; `putchar` never fails in this kernel. Argument types that do not suit their directives are undefined in C.
- Strings are sequences without NUL, so `strlen` is a length; `memset` and `memcpy` are the loops that use them.
- Terminal.Screen.PutChar: asks that the cell it writes lies in the one page mapped at video memory; beyond it there is a page fault. The shape of the hardware cursor is left out.
- Keyboard: the controller delivers its bytes in order, one for each interrupt; non-maskable interrupts, which also wake HLT, are left out.
- Interrupt tables, descriptor tables, port wiring, the page-fault report, the shell and the remaining C library: plumbing or single loops that would add easy members only.
- The texts that `kernel_main` prints.
