// The memory subsystem as one machine: frame allocator, page tables and heap, booted in the
// order of kernel_main and then used in any order by the rest of the kernel.

module Kernel {
  import opened Common
  import opened Multiboot
  import opened Pmm
  import opened Paging
  import opened HeapModel
  import opened Growth
  import opened HeapWindow
  import opened HeapHeaders
  import opened Kheap
  import opened SelfTests

  // The linker places the directory and the first table side by side in the boot map.
  ghost predicate Placed(layout: Layout) {
    && layout.pageDirectory % 4096 == 0 && layout.pageDirectory + 4096 == layout.pageTable1
    && layout.pageTable1 < 1023 * 4096
  }

  // The frames that the memory map leaves to the allocator.
  ghost function FreeFramesAtBoot(boot: BootInfo, layout: Layout): (free: set<nat>) {
    if !boot.valid then {} else set f: nat | f < BootFrameCount(boot) && FreeAtBoot(boot, layout, f)
  }

  // The directory and the boot table are out of the allocator's reach.
  lemma PagingFramesReserved(boot: BootInfo, layout: Layout)
    requires Placed(layout)
    ensures layout.pageDirectory / 4096 !in FreeFramesAtBoot(boot, layout)
    ensures layout.pageTable1 / 4096 !in FreeFramesAtBoot(boot, layout)
  {
    assert ReservedAtBoot(layout, layout.pageDirectory / 4096) && ReservedAtBoot(layout, layout.pageTable1 / 4096);
  }

  // pmm_init and its self-test.
  method StartFrames(boot: BootInfo, layout: Layout) returns (pmm: FrameAllocator, outcome: Outcome)
    ensures fresh(pmm) && fresh(pmm.bitmap) && pmm.Valid()
    ensures pmm.frameCount == if boot.valid then BootFrameCount(boot) else 0
    ensures forall f: nat :: f < pmm.frameCount ==> (f in pmm.Reserved()) == !FreeAtBoot(boot, layout, f)
    ensures pmm.Free() == PmmTestFree(FreeFramesAtBoot(boot, layout))
    ensures 0 !in FreeFramesAtBoot(boot, layout) && pmm.Free() <= FreeFramesAtBoot(boot, layout)
    ensures forall f :: f in pmm.Free() ==> Clear(layout, f)
    ensures outcome == if |FreeFramesAtBoot(boot, layout)| >= 2 then Passed else AllocFailed
  {
    hide Clear, FreeAtBoot, BootFrameCount;
    pmm := new FrameAllocator();
    ProtectedFrames(boot, layout);
    pmm.Init(boot, layout);
    FreeFramesFound(pmm, boot, layout);
    pmm.HeldNotFree();
    ghost var st := pmm.State();
    assert Proper(st);
    PmmTestCounts(st);
    outcome := PmmSelfTest(pmm);
  }

  lemma FreeFramesFound(pmm: FrameAllocator, boot: BootInfo, layout: Layout)
    requires pmm.Valid() && pmm.frameCount == if boot.valid then BootFrameCount(boot) else 0
    requires forall f: nat :: f < pmm.frameCount ==> !pmm.IsUsed(f) == FreeAtBoot(boot, layout, f)
    ensures pmm.Free() == FreeFramesAtBoot(boot, layout)
  {
    hide FreeAtBoot, BootFrameCount, FrameAllocator.IsUsed;
  }

  // paging_init, on what boot.S leaves.
  method StartTables(pmm: FrameAllocator, layout: Layout, contents: (nat, nat) -> U32) returns (mmu: AddressSpace)
    requires Placed(layout) && pmm.Valid()
    requires layout.pageDirectory / 4096 !in pmm.Free() && layout.pageTable1 / 4096 !in pmm.Free()
    ensures fresh(mmu) && fresh(mmu.ram) && mmu.pmm == pmm && mmu.Valid() && mmu.pd == layout.pageDirectory / 4096
    ensures mmu.Installed() == {768, 1023} && mmu.Walk(TEST_PAGE).None? && KernelMapped(mmu)
  {
    hide FrameAllocator.Free, FrameAllocator.Used, AddressSpace.Walk, AddressSpace.AfterBoot, BootLeaf;
    mmu := new AddressSpace.Boot(pmm, layout.pageDirectory / 4096, layout.pageTable1 / 4096, contents);
    BootMapsKernel(mmu);
    mmu.Init();
    mmu.NothingWithoutTable(TEST_PAGE);
  }

  // ... and paging_init with its self-test, on what boot.S leaves. The tests give back all
  // they take, but for a page table that the second one installs.
  method StartPaging(boot: BootInfo, layout: Layout, contents: (nat, nat) -> U32)
    returns (mmu: AddressSpace, pmmTest: Outcome, pagingTest: Outcome)
    requires Placed(layout)
    ensures fresh(mmu) && fresh(mmu.ram) && fresh(mmu.pmm) && fresh(mmu.pmm.bitmap) && mmu.Valid()
    ensures mmu.pd == layout.pageDirectory / 4096
    ensures mmu.pmm.frameCount == if boot.valid then BootFrameCount(boot) else 0
    ensures forall f: nat :: f < mmu.pmm.frameCount ==> (f in mmu.pmm.Reserved()) == !FreeAtBoot(boot, layout, f)
    ensures pmmTest == if |FreeFramesAtBoot(boot, layout)| >= 2 then Passed else AllocFailed
    ensures var free, tables := PmmTestFree(FreeFramesAtBoot(boot, layout)), {768, 1023};
            && pagingTest == (if free == {} then AllocFailed
                              else if CanAdd(TestSupply(free, tables)) then Passed else MapFailed)
            && mmu.pmm.Free() == PagingTestFree(free, tables) && mmu.Installed() == PagingTestTables(free, tables)
    ensures 0 !in FreeFramesAtBoot(boot, layout) && mmu.Sized() && KernelMapped(mmu)
  {
    hide FreeAtBoot, ReservedAtBoot, BootFrameCount, FreeFramesAtBoot, FrameAllocator.IsUsed, FrameAllocator.Free,
      FrameAllocator.Used, FrameAllocator.Reserved, AddressSpace.Valid, AddressSpace.Walk, AddressSpace.Installed,
      PmmTestFree, PagingTestFree, PagingTestTables, CanAdd;
    var pmm;
    pmm, pmmTest := StartFrames(boot, layout);
    PagingFramesReserved(boot, layout);
    mmu := StartTables(pmm, layout, contents);
    pagingTest := PagingSelfTest(mmu);
  }

  // kheap_init. If no frame can be had, the heap starts empty.
  method StartHeap(mmu: AddressSpace) returns (heap: KernelHeap)
    requires mmu.Valid()
    modifies mmu`tlb, mmu.ram, mmu.pmm`usedCount, mmu.pmm`held, mmu.pmm.bitmap
    ensures fresh(heap) && fresh(heap.window) && heap.window.mmu == mmu
    ensures heap.Valid() && mmu.pmm.Reserved() == old(mmu.pmm.Reserved())
    ensures forall p: Page :: p < 0xF_FC00 && !HeapPage(p) ==> mmu.Walk(p) == old(mmu.Walk(p))
    ensures heap.Now() == AfterGrowth(Memory(Heap([], KHEAP_START), old(mmu.pmm.Free()), old(mmu.Installed())), 4096)
  {
    hide AddressSpace.Walk, Encoded, Tiles, AddressSpace.Tables, AddressSpace.Coherent, AddressSpace.TablesNotFree,
      FrameAllocator.Used, FrameAllocator.Free, AddressSpace.Translations, AddressSpace.Installed, ShowsOutside,
      NoTableIn, AfterGrowth;
    var window := new Window(mmu);
    heap := new KernelHeap(window);
    mmu.ViewFacts();
    heap.Init();
    mmu.ViewFacts();
  }

  // What the boot table shows at page p: the first 4 MiB, and the VGA buffer in the last page.
  function BootLeaf(p: Page): Option<Leaf> {
    Some(Leaf(if p % 1024 < 1023 then p % 1024 else 0xB8, true, false))
  }

  // The kernel's text, stack and statics are where boot.S has mapped them.
  ghost predicate KernelMapped(mmu: AddressSpace)
    reads mmu.ram
    requires mmu.Sized()
  {
    forall p: Page :: p / 1024 == 768 ==> mmu.Walk(p) == BootLeaf(p)
  }

  lemma BootMapsKernel(mmu: AddressSpace)
    requires mmu.AfterBoot()
    ensures KernelMapped(mmu)
    ensures forall a: U32 :: 0xC000_0000 <= a < 0xC03F_F000 ==>
              mmu.Walk(a / 4096) == Some(Leaf((a - 0xC000_0000) / 4096, true, false))
    ensures mmu.Walk(0xC03F_F000 / 4096) == Some(Leaf(0xB_8000 / 4096, true, false))
  {
    hide Present, Writable, User, FrameOf, TableEntry, BootLeaf;
    TableEntryFields(mmu.bt);
    forall p: Page | p / 1024 == 768 ensures mmu.Walk(p) == BootLeaf(p) {
      BootPage(mmu, p);
    }
    forall a: U32 | 0xC000_0000 <= a < 0xC03F_F000
      ensures mmu.Walk(a / 4096) == Some(Leaf((a - 0xC000_0000) / 4096, true, false))
    {
      BootAddress(a);
    }
    LastBootPage();
  }

  lemma LastBootPage()
    ensures BootLeaf(0xC_03FF) == Some(Leaf(0xB8, true, false))
  {
  }

  lemma BootAddress(a: U32)
    requires 0xC000_0000 <= a < 0xC03F_F000
    ensures a / 4096 / 1024 == 768 && BootLeaf(a / 4096) == Some(Leaf((a - 0xC000_0000) / 4096, true, false))
  {
  }

  lemma BootPage(mmu: AddressSpace, p: Page)
    requires mmu.AfterBoot() && p / 1024 == 768
    ensures mmu.Walk(p) == BootLeaf(p)
  {
    hide Present, Writable, User, FrameOf, TableEntry;
    TableEntryFields(mmu.bt);
    TableEntryFields(if p % 1024 < 1023 then p % 1024 else 0xB8);
  }

  function WithWord(words: seq<U32>, i: nat, w: U32): seq<U32>
    requires i < |words|
  {
    words[i := w]
  }

  // A page outside the kernel's own 4 MiB, the heap's 16 MiB and the recursive window.
  predicate Foreign(p: Page) {
    p < 0xF_FC00 && !HeapPage(p) && p / 1024 != 768
  }

  lemma ForeignIndices(virt: U32, pd: Frame)
    requires Foreign(virt / 4096) && pd < 1023
    ensures virt < RECURSIVE_PT_BASE && virt / 4096 != DirectoryPage(pd)
    ensures forall w: int :: DirectoryKept(pd, virt / 4096, w)
  {
    PageIndices(virt);
    DirectoryAddress(pd, 0);
  }

  ghost predicate SoundMemory(m: Memory) {
    Fine(m.heap) && m.heap.end >= KHEAP_START && m.heap.end % 4096 == 0 && 0 !in m.free
  }

  // A page mapped outside the heap: it costs a page table if there is none for it yet, and
  // fails without a frame for that.
  ghost function Mapped(m: Memory, virt: U32, phys: U32): (Memory, bool) {
    var t := virt / 0x40_0000;
    if phys % 4096 != 0 || (t !in m.tables && LeastFree(m.free) == 0) then (m, false)
    else (m.(free := if t in m.tables then m.free else TakeFrom(m.free), tables := m.tables + {t}), true)
  }

  // The frame is aligned, and there is a table for the page or a free frame for one.
  ghost predicate CanMap(m: Memory, virt: U32, phys: U32) {
    phys % 4096 == 0 && (virt / 0x40_0000 in m.tables || m.free != {})
  }

  lemma MappedExactly(m: Memory, virt: U32, phys: U32)
    requires 0 !in m.free
    ensures var (after, ok) := Mapped(m, virt, phys);
            && ok == CanMap(m, virt, phys)
            && |after.free| == |m.free| - if ok && virt / 0x40_0000 !in m.tables then 1 else 0
  {
    hide LeastFree, TakeFrom;
    TakeCounts(m.free);
  }

  // The byte at `a` is now c, and every other byte written is what it was.
  ghost predicate ByteWritten(was: map<int, U32>, now: map<int, U32>, a: U32, c: Byte) {
    var at := a - a % 4;
    && now.Keys == was.Keys + {at} && ByteOf(now[at], a % 4) == c
    && (forall x :: x in was && x != at ==> now[x] == was[x])
    && (at in was ==> now[at] == WithByte(was[at], a % 4, c))
  }

  lemma ByteGoesIn(was: map<int, U32>, a: U32, c: Byte, w: U32)
    requires a - a % 4 in was ==> w == was[a - a % 4]
    ensures ByteWritten(was, was[a - a % 4 := WithByte(w, a % 4, c)], a, c)
  {
    ByteStored(w, a % 4, c, a % 4);
    hide WithByte, ByteOf;
  }

  // A byte that has been written and is `c`.
  ghost predicate ByteIs(written: map<int, U32>, a: int, c: Byte) {
    a - a % 4 in written && ByteOf(written[a - a % 4], a % 4) == c
  }

  lemma ByteIsWritten(was: map<int, U32>, now: map<int, U32>, a: U32, c: Byte)
    requires ByteWritten(was, now, a, c)
    ensures ByteIs(now, a, c)
  {
    hide ByteOf, WithByte;
  }

  // Every other byte stays, in the same word or in another one.
  lemma OtherByteStays(was: map<int, U32>, now: map<int, U32>, a: U32, c: Byte, x: int, e: Byte)
    requires ByteWritten(was, now, a, c) && ByteIs(was, x, e) && x != a
    ensures ByteIs(now, x, e)
  {
    hide ByteOf, WithByte;
    if a - a % 4 == x - x % 4 {
      ByteStored(was[a - a % 4], a % 4, c, x % 4);
    }
  }

  class MemorySystem {
    const heap: KernelHeap
    ghost const reserved: set<nat>     // frames in use before the first allocation
    ghost var mine: set<nat>           // frames the rest of the kernel holds
    ghost var written: map<int, U32>   // what was last written to words of live payloads

    ghost predicate FrameIsMine(f: nat)
      reads heap.window, heap.window.mmu.ram, heap.window.mmu.pmm
      requires heap.window.mmu.Sized()
    {
      && f in heap.window.mmu.pmm.held && f < 0x10_0000
      && heap.window.mmu.NotTable(f) && heap.window.NotInHeap(f)
    }

    ghost predicate Kept(a: int)
      reads this`written, heap, heap.window
    {
      && a in written && a % 4 == 0 && InPayload(heap.blocks, a)
      && a in heap.window.words && heap.window.words[a] == written[a]
    }

    ghost predicate Valid()
      reads this, heap, heap.window, heap.window.mmu, heap.window.mmu.ram, heap.window.mmu.pmm,
        heap.window.mmu.pmm.bitmap
    {
      && heap.Valid()
      && heap.window.mmu.pmm.Reserved() == reserved && KernelMapped(heap.window.mmu)
      && (forall f :: f in mine ==> FrameIsMine(f))
      && (forall a :: a in written ==> Kept(a))
    }

    // The translations outside the heap and the recursive window.
    ghost function OtherPages(): imap<Page, Option<Leaf>>
      reads heap.window.mmu.ram
      requires heap.window.mmu.Sized()
    {
      imap p: Page | p < 0xF_FC00 && !HeapPage(p) :: heap.window.mmu.Walk(p)
    }

    // What the frames hold that the rest of the kernel has.
    ghost function MyFrames(): map<nat, seq<U32>>
      reads this`mine, heap.window.mmu.ram
      requires heap.window.mmu.Sized()
    {
      map f: nat | f in mine && f < 0x10_0000 :: heap.window.mmu.Content(f)
    }

    // What decides the answers of the calls below.
    ghost function Now(): Memory
      reads heap, heap.window.mmu.ram, heap.window.mmu.pmm, heap.window.mmu.pmm.bitmap
      requires heap.window.mmu.Sized() && heap.window.mmu.pmm.Sized()
    {
      heap.Now()
    }

    lemma HeapShape()
      requires Valid()
      ensures Fine(Heap(heap.blocks, heap.end))
    {
      hide Window.Mirrors, Window.PagesOwned, Window.FramesDistinct, Encoded;
    }

    // What holds of the memory in every reachable state.
    lemma MemorySound()
      requires Valid()
      ensures heap.window.mmu.Sized() && heap.window.mmu.pmm.Sized()
      ensures SoundMemory(Now()) && mine !! Now().free
    {
      hide KernelHeap.Valid, AddressSpace.Installed, AddressSpace.NotTable, Window.NotInHeap, FrameAllocator.Free;
      HeapShape();
      HeapSound();
    }

    lemma HeapSound()
      requires heap.Valid()
      ensures heap.window.mmu.Sized() && heap.window.mmu.pmm.Sized()
      ensures heap.end >= KHEAP_START && heap.end % 4096 == 0
      ensures 0 !in heap.window.mmu.pmm.Free() && heap.window.mmu.pmm.held !! heap.window.mmu.pmm.Free()
    {
      hide Encoded, Tiles, Window.Mirrors, Window.PagesOwned, Window.FramesDistinct, AddressSpace.Coherent,
        AddressSpace.Walk, AddressSpace.Tables, AddressSpace.TablesNotFree, FrameAllocator.Free;
      heap.EndOnPage();
      heap.window.NoFreeZero();
      heap.window.mmu.pmm.HeldNotFree();
    }

    // Every page of the heap is mapped writable, to a frame of its own, which the allocator
    // counts as used, which holds no page table and was not reserved at boot.
    lemma HeapPagesBacked(p: Page, q: Page)
      requires Valid() && FIRST_PAGE <= p && 4096 * p < heap.end && FIRST_PAGE <= q && 4096 * q < heap.end
      ensures var mmu := heap.window.mmu;
              && mmu.Walk(p).Some? && mmu.Walk(p).value.writable && mmu.Walk(q).Some?
              && mmu.Walk(p).value.frame in mmu.pmm.Used()
              && mmu.Walk(p).value.frame !in mmu.pmm.Free() && mmu.Walk(p).value.frame !in reserved
              && mmu.NotTable(mmu.Walk(p).value.frame)
              && (p != q ==> mmu.Walk(p).value.frame != mmu.Walk(q).value.frame)
    {
      hide AddressSpace.Walk, AddressSpace.NotTable, FrameAllocator.IsUsed, Encoded, Tiles;
      heap.window.mmu.pmm.HeldNotFree();
      assert heap.window.InWindow(p) && heap.window.InWindow(q);
      assert heap.window.Owned(p) && heap.window.Owned(q);
    }

    // A word that was written and is still allocated is found by the walk, unchanged.
    lemma WrittenIsInMemory(a: int)
      requires Valid() && a in written
      ensures var leaf := heap.window.mmu.Walk(heap.window.PageOf(a));
              leaf.Some? && heap.window.mmu.ram[leaf.value.frame, a % 4096 / 4] == written[a]
    {
      assert Kept(a);
      heap.window.WordResolves(a);
    }

    constructor (kheap: KernelHeap)
      requires kheap.Valid() && kheap.window.mmu.Sized() && KernelMapped(kheap.window.mmu)
      ensures Valid() && heap == kheap && mine == {} && written == map[] && reserved == heap.window.mmu.pmm.Reserved()
    {
      heap := kheap;
      reserved := kheap.window.mmu.pmm.Reserved();
      mine, written := {}, map[];
    }

    // What a snapshot says of the pages and frames of the rest of the kernel.
    ghost predicate SeenIn(v: World, pages: imap<Page, Option<Leaf>>, frames: map<nat, seq<U32>>)
      reads this`mine
    {
      && v.reserved == reserved
      && (forall p: Page :: p in pages <==> p < 0xF_FC00 && !HeapPage(p))
      && (forall p: Page :: p in v.view.walk) && (forall p: Page :: p in pages ==> pages[p] == v.view.walk[p])
      && (forall p: Page :: p / 1024 == 768 ==> v.view.walk[p] == BootLeaf(p))
      && (forall f: nat :: f in frames <==> f in mine)
      && forall f: nat :: f in mine ==>
           && f < 0x10_0000 && f in v.held && NoTableIn(v.view, heap.window.mmu.pd, f) && ShowsOutside(v, f)
           && f in v.others && frames[f] == v.others[f]
    }

    lemma SnapshotIs()
      requires heap.Valid()
      ensures heap.window.mmu.Sized()
      ensures forall p: Page ::
                p in heap.window.Snapshot().view.walk && heap.window.Snapshot().view.walk[p] == heap.window.mmu.Walk(p)
      ensures forall f: nat :: FrameIsMine(f) <==>
                && f < 0x10_0000 && f in heap.window.Snapshot().held
                && NoTableIn(heap.window.Snapshot().view, heap.window.mmu.pd, f)
                && ShowsOutside(heap.window.Snapshot(), f)
      ensures forall f: Frame :: heap.window.NotInHeap(f) ==>
                f in heap.window.Snapshot().others && heap.window.Snapshot().others[f] == heap.window.mmu.Content(f)
      ensures forall f: Frame :: ShowsOutside(heap.window.Snapshot(), f) == heap.window.NotInHeap(f)
      ensures heap.window.Snapshot().reserved == heap.window.mmu.pmm.Reserved()
    {
      hide ShowsOutside, NoTableIn, AddressSpace.NotTable, Window.NotInHeap, AddressSpace.Content, AddressSpace.Walk,
        Window.Others;
      heap.window.mmu.ViewFacts();
      heap.window.OthersAre();
      forall f: Frame ensures heap.window.NotInHeap(f) == ShowsOutside(heap.window.Snapshot(), f) {
        heap.window.NotInHeapIsOutside(f);
      }
    }

    lemma SeenNow()
      requires Valid()
      ensures heap.window.mmu.Sized() && heap.window.mmu.pmm.Sized()
      ensures SeenIn(heap.window.Snapshot(), OtherPages(), MyFrames())
    {
      hide ShowsOutside, NoTableIn, AddressSpace.NotTable, Window.NotInHeap, AddressSpace.Content, AddressSpace.Walk,
        Window.Others, HeapPage, BootLeaf, AddressSpace.Translations, KernelHeap.Valid, Window.Snapshot;
      HeapSized();
      SnapshotIs();
    }

    lemma HeapSized()
      requires heap.Valid()
      ensures heap.window.mmu.Sized() && heap.window.mmu.pmm.Sized() && heap.window.mmu.pd < 1023
    {
      hide KernelHeap.Linked, Window.Mirrors, Window.PagesOwned, Window.FramesDistinct, AddressSpace.Coherent,
        AddressSpace.Walk;
    }

    lemma Sizes()
      requires Valid()
      ensures heap.window.mmu.Sized() && heap.window.mmu.pmm.Sized()
    {
      hide KernelHeap.Valid;
      HeapSized();
    }

    lemma MineHave()
      requires Valid()
      ensures heap.window.mmu.Sized() && MyFrames().Keys == mine
      ensures forall f :: f in mine ==> |MyFrames()[f]| == 1024
    {
      hide KernelHeap.Valid, AddressSpace.NotTable, Window.NotInHeap, AddressSpace.Content, KernelMapped;
      HeapSized();
      heap.window.mmu.WordsOf();
    }

    lemma PagesStillSeen(v: World, pages: imap<Page, Option<Leaf>>, frames: map<nat, seq<U32>>)
      requires heap.Valid() && SeenIn(v, pages, frames)
      requires heap.window.mmu.Sized() && heap.window.mmu.pmm.Sized()
      requires Confined(v, heap.window.Snapshot(), heap.window.mmu.pd)
      ensures OtherPages() == pages && KernelMapped(heap.window.mmu)
    {
      hide ShowsOutside, NoTableIn, AddressSpace.NotTable, Window.NotInHeap, AddressSpace.Content, AddressSpace.Walk,
        Window.Others, BootLeaf, AddressSpace.Translations, KernelHeap.Valid, Window.Snapshot;
      SnapshotIs();
      forall p: Page | p in pages ensures heap.window.mmu.Walk(p) == pages[p] {
        assert p in v.view.walk;
      }
      forall p: Page | p / 1024 == 768 ensures heap.window.mmu.Walk(p) == BootLeaf(p) {
        assert p in pages && p in v.view.walk;
      }
    }

    // An operation confined to the heap leaves them all.
    lemma StillSeen(v: World, pages: imap<Page, Option<Leaf>>, frames: map<nat, seq<U32>>)
      requires heap.Valid() && SeenIn(v, pages, frames)
      requires heap.window.mmu.Sized() && heap.window.mmu.pmm.Sized()
      requires Confined(v, heap.window.Snapshot(), heap.window.mmu.pd)
      ensures OtherPages() == pages && MyFrames() == frames && KernelMapped(heap.window.mmu)
      ensures heap.window.mmu.pmm.Reserved() == reserved
      ensures forall f :: f in mine ==> FrameIsMine(f)
    {
      hide ShowsOutside, NoTableIn, AddressSpace.NotTable, Window.NotInHeap, AddressSpace.Content, AddressSpace.Walk,
        Window.Others, BootLeaf, AddressSpace.Translations, KernelHeap.Valid, Window.Snapshot, KernelMapped, OtherPages,
        FrameIsMine, FrameAllocator.Reserved;
      PagesStillSeen(v, pages, frames);
      SnapshotIs();
      forall f: nat | f in mine ensures FrameIsMine(f) && heap.window.mmu.Content(f) == frames[f] {
      }
    }

    // ---------------------------------------------------------------- the heap

    // Whatever was written and is still allocated survives every call below, and so do the
    // pages and frames of the rest of the kernel.
    method Kmalloc(size: U32) returns (ptr: U32, ghost grew: bool)
      requires Valid() && (Needed(size) + 4095 < TWO32 || heap.end == LIMIT)
      modifies heap, heap.window, heap.window.mmu`tlb, heap.window.mmu.ram,
        heap.window.mmu.pmm`usedCount, heap.window.mmu.pmm`held, heap.window.mmu.pmm.bitmap
      ensures Valid() && OtherPages() == old(OtherPages()) && MyFrames() == old(MyFrames())
      ensures size == 0 ==> ptr == 0 && Now() == old(Now())
      ensures size > 0 ==> (Now(), ptr as int) == Grant(old(Now()), Needed(size))
      ensures size > 0 ==> Gives(old(Now()).heap, Needed(size), grew, Now().heap, ptr)
    {
      hide KernelHeap.Valid, Gives, Grant, Needed, InPayload, FrameIsMine, KernelMapped, SeenIn, Confined, OtherPages,
        MyFrames, AddressSpace.Installed, FrameAllocator.Free, FrameAllocator.Reserved, Window.Snapshot;
      SeenNow();
      ghost var h, v, pages, frames := Now().heap, heap.window.Snapshot(), OtherPages(), MyFrames();
      ptr, grew := heap.Kmalloc(size);
      StillSeen(v, pages, frames);
      if size > 0 {
        GivenPayloads(h, size, grew, Now().heap, ptr);
      }
    }

    // Only the words of the freed block are forgotten.
    method Kfree(ptr: U32)
      requires Valid()
      requires ptr != 0 ==> exists b :: b in Live(heap.blocks) && b.addr + HEADER == ptr
      modifies this`written, heap`blocks, heap.window`words, heap.window.mmu`tlb, heap.window.mmu.ram
      ensures Valid() && OtherPages() == old(OtherPages()) && MyFrames() == old(MyFrames())
      ensures Frees(old(heap.blocks), ptr, heap.blocks)
      ensures Now() == old(Now()).(heap := Heap(FreedAt(old(heap.blocks), ptr), heap.end))
      ensures forall a :: a in written <==> a in old(written) && InPayload(heap.blocks, a)
      ensures forall a :: a in written ==> written[a] == old(written[a])
      ensures forall b, a :: b in old(Live(heap.blocks)) && b.addr + HEADER == ptr && a in old(written) ==>
                (a in written) == !(ptr <= a < b.addr + b.size)
    {
      hide KernelHeap.Valid, Frees, InPayload, FrameIsMine, KernelMapped, SeenIn, Confined, OtherPages, MyFrames, Live,
        FreedAt, AddressSpace.Installed, FrameAllocator.Free, FrameAllocator.Reserved, KernelHeap.Now, Window.Snapshot,
        WellFormed;
      SeenNow();
      ghost var v, pages, frames := heap.window.Snapshot(), OtherPages(), MyFrames();
      HeapShape();
      ghost var bs, end := heap.blocks, heap.end;
      heap.Kfree(ptr);
      ConfinedIsReflexive(v, heap.window.mmu.pd);
      StillSeen(v, pages, frames);
      FreedPayloads(bs, end, ptr, heap.blocks);
      Forget();
    }

    // What is no longer in a payload is no longer anybody's.
    ghost method Forget()
      requires heap.Valid() && heap.window.mmu.pmm.Reserved() == reserved && forall f :: f in mine ==> FrameIsMine(f)
      requires heap.window.mmu.Sized() && KernelMapped(heap.window.mmu)
      requires forall a :: a in written ==> a % 4 == 0
      requires forall a :: a in written && InPayload(heap.blocks, a) ==>
                 a in heap.window.words && heap.window.words[a] == written[a]
      modifies this`written
      ensures Valid()
      ensures forall a :: a in written <==> a in old(written) && InPayload(heap.blocks, a)
      ensures forall a :: a in written ==> written[a] == old(written[a])
    {
      hide KernelHeap.Valid, InPayload, FrameIsMine;
      written := map a | a in written && InPayload(heap.blocks, a) :: written[a];
    }

    // The heap user writes a word of a live payload.
    method WriteWord(a: U32, w: U32)
      requires Valid() && a % 4 == 0 && InPayload(heap.blocks, a)
      modifies this`written, heap.window`words, heap.window.mmu`tlb, heap.window.mmu.ram
      ensures Valid() && OtherPages() == old(OtherPages()) && MyFrames() == old(MyFrames())
      ensures written == old(written)[a := w] && Now() == old(Now())
    {
      hide KernelHeap.Valid, InPayload, FrameIsMine, KernelMapped, SeenIn, Confined, OtherPages, MyFrames,
        KernelHeap.Now,
        AddressSpace.Installed, FrameAllocator.Free, Window.Snapshot;
      SeenNow();
      ghost var v, pages, frames := heap.window.Snapshot(), OtherPages(), MyFrames();
      heap.UserStore(a, w);
      written := written[a := w];
      ConfinedIsReflexive(v, heap.window.mmu.pd);
      StillSeen(v, pages, frames);
    }

    // What was written is read back, through the cache, the page tables and the heap, after
    // any run of calls that did not free it.
    method ReadWord(a: U32) returns (w: U32)
      requires Valid() && a % 4 == 0 && InPayload(heap.blocks, a)
      modifies heap.window.mmu`tlb
      ensures Valid() && (a in written ==> w == written[a])
    {
      assert a in written ==> Kept(a);
      hide KernelHeap.Linked, InPayload, NoFreeNeighbours, AddressSpace.NotTable, Window.NotInHeap;
      w := heap.UserLoad(a);
    }

    // A byte of a payload. The other bytes of its word stay as they are.
    method WriteByte(a: U32, c: Byte)
      requires Valid() && InPayload(heap.blocks, a)
      modifies this`written, heap.window`words, heap.window.mmu`tlb, heap.window.mmu.ram
      ensures Valid() && OtherPages() == old(OtherPages()) && MyFrames() == old(MyFrames())
      ensures ByteWritten(old(written), written, a, c) && Now() == old(Now())
    {
      hide Valid, InPayload, WithByte, ByteOf, ByteWritten, OtherPages, MyFrames, Now;
      PayloadWord(a);
      var at: U32, k: nat := a - a % 4, a % 4;
      var w := ReadWord(at);
      ByteGoesIn(written, a, c, w);
      WriteWord(at, WithByte(w, k, c));
    }

    method ReadByte(a: U32) returns (c: Byte)
      requires Valid() && InPayload(heap.blocks, a)
      modifies heap.window.mmu`tlb
      ensures Valid() && (a - a % 4 in written ==> c == ByteOf(written[a - a % 4], a % 4))
    {
      hide Valid, InPayload, ByteOf;
      PayloadWord(a);
      var w := ReadWord(a - a % 4);
      c := ByteOf(w, a % 4);
    }

    lemma PayloadWord(a: int)
      requires Valid() && InPayload(heap.blocks, a)
      ensures a >= 0 && InPayload(heap.blocks, a - a % 4) && (a - a % 4) % 4 == 0
    {
      HeapShape();
      WordOfPayload(heap.blocks, heap.end, a);
    }

    // ---------------------------------------------------------------- the rest of the kernel

    method TakeFrame() returns (frame: U32)
      requires Valid()
      modifies this`mine, heap.window.mmu.pmm`usedCount, heap.window.mmu.pmm`held, heap.window.mmu.pmm.bitmap
      ensures Valid() && frame == 4096 * LeastFree(old(Now()).free)
      ensures mine == (if frame == 0 then old(mine) else old(mine) + {frame / 4096})
      ensures frame != 0 ==> frame / 4096 !in old(mine)
      ensures forall f :: f in old(MyFrames()) ==> f in MyFrames() && MyFrames()[f] == old(MyFrames()[f])
      ensures OtherPages() == old(OtherPages())
      ensures Now() == old(Now()).(free := TakeFrom(old(Now()).free))
    {
      hide Encoded, Tiles, NoFreeNeighbours, InPayload, AddressSpace.NotTable, Window.NotInHeap, LeastFree,
        Window.Mirrors, Window.PagesOwned, Window.FramesDistinct, AddressSpace.Installed, FrameAllocator.Free,
        AddressSpace.Tables, AddressSpace.Coherent, AddressSpace.TablesNotFree, KernelMapped, OtherPages,
        AddressSpace.Content;
      heap.window.NoFreeZero();
      Takings(heap.window.mmu.pmm.State());
      frame := heap.window.TakeFrame();
      if frame != 0 {
        mine := mine + {frame / 4096};
      }
    }

    method GiveFrame(frame: U32)
      requires Valid() && frame % 4096 == 0 && frame / 4096 in mine
      modifies this`mine, heap.window.mmu.pmm`usedCount, heap.window.mmu.pmm`held, heap.window.mmu.pmm.bitmap
      ensures Valid() && mine == old(mine) - {frame / 4096}
      ensures forall f :: f in MyFrames() ==> f in old(MyFrames()) && MyFrames()[f] == old(MyFrames()[f])
      ensures OtherPages() == old(OtherPages())
      ensures Now() == old(Now()).(free := old(Now()).free + {frame / 4096})
    {
      hide Encoded, Tiles, NoFreeNeighbours, InPayload, AddressSpace.NotTable, Window.NotInHeap,
        Window.Mirrors, Window.PagesOwned, Window.FramesDistinct, AddressSpace.Installed, FrameAllocator.Free,
        AddressSpace.Tables, AddressSpace.Coherent, AddressSpace.TablesNotFree, KernelMapped, OtherPages,
        AddressSpace.Content;
      assert FrameIsMine(frame / 4096);
      heap.window.GiveFrame(frame);
      mine := mine - {frame / 4096};
    }

    // A mapping made anywhere but in the heap's 16 MiB and the kernel's own 4 MiB, of any
    // frame.
    method MapPage(virt: U32, phys: U32, flags: U32) returns (ok: bool)
      requires Valid() && Foreign(virt / 4096) && flags < 0x1000
      modifies heap.window.mmu`tlb, heap.window.mmu.ram, heap.window.mmu.pmm`usedCount,
        heap.window.mmu.pmm`held, heap.window.mmu.pmm.bitmap
      ensures Valid() && MyFrames() == old(MyFrames())
      ensures (Now(), ok) == Mapped(old(Now()), virt, phys)
      ensures ok == CanMap(old(Now()), virt, phys)
      ensures OtherPages() == if ok
                              then old(OtherPages())[virt / 4096 := Some(Leaf(phys / 4096, Writable(flags), false))]
                              else old(OtherPages())
    {
      hide Valid, Mapped, CanMap, OtherPages, MyFrames, SoundMemory, AddressSpace.Installed, FrameAllocator.Free;
      NoFreeZero();
      MappedExactly(Now(), virt, phys);
      ok := MapForeign(virt, phys, flags);
    }

    // The call itself.
    method MapForeign(virt: U32, phys: U32, flags: U32) returns (ok: bool)
      requires Valid() && Foreign(virt / 4096) && flags < 0x1000
      modifies heap.window.mmu`tlb, heap.window.mmu.ram, heap.window.mmu.pmm`usedCount,
        heap.window.mmu.pmm`held, heap.window.mmu.pmm.bitmap
      ensures Valid() && MyFrames() == old(MyFrames())
      ensures (Now(), ok) == Mapped(old(Now()), virt, phys)
      ensures OtherPages() == if ok
                              then old(OtherPages())[virt / 4096 := Some(Leaf(phys / 4096, Writable(flags), false))]
                              else old(OtherPages())
    {
      hide Window.Mirrors, Window.PagesOwned, Window.FramesDistinct, Encoded, Tiles, NoFreeNeighbours, InPayload,
        AddressSpace.NotTable, Window.NotInHeap, AddressSpace.Walk, Present, Writable, AddressSpace.Installed,
        LeastFree, AddressSpace.TablesNotFree, AddressSpace.Coherent, FrameAllocator.Free,
        AddressSpace.Content, BootLeaf;
      heap.window.TopBound();
      heap.window.NoFreeZero();
      Takings(heap.window.mmu.pmm.State());
      ForeignIndices(virt, heap.window.mmu.pd);
      ok := heap.window.MapElsewhere(virt, phys, flags);
    }

    lemma NoFreeZero()
      requires Valid()
      ensures heap.window.mmu.Sized() && heap.window.mmu.pmm.Sized() && 0 !in Now().free
    {
      hide SoundMemory, AddressSpace.Installed, FrameAllocator.Free, KernelHeap.Valid;
      HeapSound();
    }

    method UnmapPage(virt: U32)
      requires Valid() && Foreign(virt / 4096)
      modifies heap.window.mmu`tlb, heap.window.mmu.ram
      ensures Valid() && Now() == old(Now()) && MyFrames() == old(MyFrames())
      ensures OtherPages() == old(OtherPages())[virt / 4096 := None]
    {
      hide Window.Mirrors, Window.PagesOwned, Window.FramesDistinct, Encoded, Tiles, NoFreeNeighbours, InPayload,
        AddressSpace.NotTable, Window.NotInHeap, AddressSpace.Walk, AddressSpace.Installed, FrameAllocator.Free,
        AddressSpace.TablesNotFree, AddressSpace.Coherent, AddressSpace.Content, BootLeaf;
      heap.window.TopBound();
      ForeignIndices(virt, heap.window.mmu.pd);
      heap.window.UnmapElsewhere(virt);
    }

    // A word written through a page that was mapped to one of our own frames. It reaches no
    // other frame of ours, no heap and no page table.
    method WriteMapped(virt: U32, w: U32)
      requires Valid() && virt % 4 == 0 && Foreign(virt / 4096)
      requires OtherPages()[virt / 4096].Some? && OtherPages()[virt / 4096].value.writable
      requires OtherPages()[virt / 4096].value.frame in mine
      modifies heap.window.mmu`tlb, heap.window.mmu.ram
      ensures Valid() && Now() == old(Now()) && OtherPages() == old(OtherPages())
      ensures var f := OtherPages()[virt / 4096].value.frame;
              && f in old(MyFrames()) && |old(MyFrames())[f]| == 1024
              && MyFrames() == old(MyFrames())[f := WithWord(old(MyFrames())[f], virt % 4096 / 4, w)]
    {
      hide Window.Mirrors, Window.PagesOwned, Window.FramesDistinct, Encoded, Tiles, NoFreeNeighbours, InPayload,
        AddressSpace.NotTable, Window.NotInHeap, AddressSpace.Walk, AddressSpace.Installed, FrameAllocator.Free,
        AddressSpace.TablesNotFree, AddressSpace.Coherent, AddressSpace.Content, BootLeaf;
      assert FrameIsMine(OtherPages()[virt / 4096].value.frame);
      heap.window.mmu.WordsOf();
      heap.window.StoreElsewhere(virt, w);
    }

    method ReadMapped(virt: U32) returns (w: U32)
      requires Valid() && virt % 4 == 0 && Foreign(virt / 4096)
      requires OtherPages()[virt / 4096].Some? && OtherPages()[virt / 4096].value.frame in mine
      modifies heap.window.mmu`tlb
      ensures Valid() && Now() == old(Now())
      ensures var f := OtherPages()[virt / 4096].value.frame;
              f in MyFrames() && |MyFrames()[f]| == 1024 && w == MyFrames()[f][virt % 4096 / 4]
    {
      hide Encoded, Tiles, NoFreeNeighbours, InPayload, Window.Mirrors, Window.PagesOwned, Window.FramesDistinct,
        AddressSpace.Tables, AddressSpace.TablesNotFree, AddressSpace.Walk, AddressSpace.Content, BootLeaf;
      assert FrameIsMine(OtherPages()[virt / 4096].value.frame);
      heap.window.mmu.WordsOf();
      w := heap.window.mmu.Load(virt);
    }

    // The processor fills its cache when it likes.
    method Prefetch(p: Page)
      requires Valid()
      modifies heap.window.mmu`tlb
      ensures Valid() && Now() == old(Now())
    {
      hide Encoded, Tiles, NoFreeNeighbours, InPayload, Window.Mirrors, Window.PagesOwned, Window.FramesDistinct,
        AddressSpace.Coherent, AddressSpace.Walk;
      heap.window.mmu.Prefetch(p);
    }
  }
}
