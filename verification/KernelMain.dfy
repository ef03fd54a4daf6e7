// The initialisations and self-tests of kernel_main in their order, from the bytes that the
// boot loader left in low memory.

module KernelMain {
  import opened Common
  import opened Multiboot
  import opened Pmm
  import opened Paging
  import opened HeapModel
  import opened Growth
  import opened HeapWindow
  import opened HeapHeaders
  import opened Kheap
  import opened SelfTests
  import opened Kernel
  import opened Session

  // ---------------------------------------------------------------- kheap_self_test

  // What the test does to the memory, and whether it passes: two allocations, and if both are
  // granted, both freed.
  ghost function HeapTest(m: Memory): (Memory, bool) {
    var (m1, a) := Grant(m, Needed(64));
    var (m2, b) := Grant(m1, Needed(128));
    if a == 0 || b == 0 then (m2, false)
    else (m2.(heap := Heap(FreedAt(FreedAt(m2.heap.blocks, a), b), m2.heap.end)), true)
  }

  lemma TestSizes()
    ensures Needed(64) == 80 && Needed(128) == 144
  {
  }

  // An allocation that finds a fitting block moves neither the end of the heap nor any frame.
  lemma ServedWhereItFits(m: Memory, needed: U32)
    requires Fine(m.heap) && !NoFit(m.heap, needed)
    ensures var (n, ptr) := Grant(m, needed);
            && ptr != 0 && n.heap == Taken(m.heap, needed) && n.heap.end == m.heap.end
            && n.free == m.free && n.tables == m.tables
  {
    hide FirstFit, Fine, SplitAt, CanGrow, AfterGrowth;
    NullExactlyWhen(m, needed);
  }

  // In the first heap both test requests fit.
  lemma TestsFit()
    ensures !NoFit(FirstHeap(), 80) && Fine(FirstHeap())
    ensures Fine(Taken(FirstHeap(), 80)) && !NoFit(Taken(FirstHeap(), 80), 144)
  {
    var bs := FirstHeap().blocks;
    assert Tiles(bs, FirstHeap().end) && Fits(bs[0], 80) && FirstFit(bs, 80) == 0;
    TakenFacts(FirstHeap(), 80);
    hide FirstFit, Fine;
    var cs := SplitAt(bs, 0, 80);
    assert cs[1] == Block(KHEAP_START + 80, 16304, true) && Fits(cs[1], 144);
  }

  lemma TestOfFirstHeap(m: Memory)
    requires m.heap == FirstHeap()
    ensures HeapTest(m).1 && HeapTest(m).0.free == m.free && HeapTest(m).0.tables == m.tables
    ensures HeapTest(m).0.heap.end == m.heap.end
  {
    hide Grant, NoFit, Fine, Taken, FirstHeap, FreedAt, Needed;
    TestSizes();
    TestsFit();
    ServedWhereItFits(m, 80);
    ServedWhereItFits(Grant(m, 80).0, 144);
  }

  // Without frames nothing is had on an empty heap.
  lemma NothingToGrow(m: Memory, needed: U32)
    requires m.heap == Heap([], KHEAP_START) && 0 !in m.free && |m.free| <= 1 && needed <= 16384 && needed > 0
    ensures var (n, ptr) := Grant(m, needed);
            ptr == 0 && n.heap == m.heap && 0 !in n.free && |n.free| <= 1
  {
    hide GrownSupply, Serve, Spanned;
    assert NoFit(m.heap, needed);
    GrowthPrice(m, needed, 4);
  }

  lemma TestOfEmptyHeap(m: Memory)
    requires m.heap == Heap([], KHEAP_START) && 0 !in m.free && |m.free| <= 1
    ensures !HeapTest(m).1 && HeapTest(m).0.heap == m.heap && |HeapTest(m).0.free| <= 1
  {
    hide Grant, Needed;
    TestSizes();
    NothingToGrow(m, 80);
    NothingToGrow(Grant(m, 80).0, 144);
  }

  // Two allocations on a heap with nothing live.
  lemma BothLive(h: Heap, h1: Heap, h2: Heap, g1: bool, g2: bool, a: int, b: int)
    requires Live(h.blocks) == {} && Gives(h, Needed(64), g1, h1, a) && Gives(h1, Needed(128), g2, h2, b)
    ensures a != 0 && b != 0 ==>
              && a != b && a % 8 == 0 && b % 8 == 0
              && (exists c :: c in Live(h2.blocks) && c.addr + HEADER == a && 64 + HEADER <= c.size)
              && (exists c :: c in Live(h2.blocks) && c.addr + HEADER == b && 128 + HEADER <= c.size)
              && forall c :: c in Live(h2.blocks) ==> c.addr + HEADER == a || c.addr + HEADER == b
  {
    hide Gives, Live, NoFit, Needed;
    GivesFacts(h, 64, g1, h1, a);
    GivesFacts(h1, 128, g2, h2, b);
  }

  ghost predicate LiveAt(bs: seq<Block>, ptr: int) {
    exists c :: c in Live(bs) && c.addr + HEADER == ptr
  }

  ghost predicate LiveOnlyAt(bs: seq<Block>, ptr: int, other: int) {
    forall c :: c in Live(bs) ==> c.addr + HEADER == ptr || c.addr + HEADER == other
  }

  method TakeBoth(system: MemorySystem) returns (a: U32, b: U32)
    requires system.Valid() && Live(system.heap.blocks) == {}
    requires system.heap.window.mmu.Sized() && system.heap.window.mmu.pmm.Sized()
    modifies system.heap, system.heap.window, system.heap.window.mmu`tlb, system.heap.window.mmu.ram,
      system.heap.window.mmu.pmm`usedCount, system.heap.window.mmu.pmm`held, system.heap.window.mmu.pmm.bitmap
    ensures system.Valid()
    ensures a != 0 && b != 0 ==>
              && a != b
              && Backed(system.heap.blocks, Region(a, 64)) && Backed(system.heap.blocks, Region(b, 128))
              && LiveOnlyAt(system.heap.blocks, a, b)
    ensures var (m1, p) := Grant(old(system.Now()), Needed(64));
            a == p && (system.Now(), b as int) == Grant(m1, Needed(128))
  {
    hide MemorySystem.Valid, Gives, Grant, Live, Needed;
    ghost var h := Heap(system.heap.blocks, system.heap.end);
    TestSizes();
    ghost var g1, g2;
    a, g1 := system.Kmalloc(64);
    ghost var h1 := Heap(system.heap.blocks, system.heap.end);
    b, g2 := system.Kmalloc(128);
    BothLive(h, h1, Heap(system.heap.blocks, system.heap.end), g1, g2, a, b);
  }

  ghost predicate FourLive(bs: seq<Block>, a: U32, b: U32) {
    && InPayload(bs, a) && InPayload(bs, a + 63) && InPayload(bs, b) && InPayload(bs, b + 127)
    && a + 63 < TWO32 && b + 127 < TWO32
  }

  // The first and the last bytes of both test regions are payload bytes ...
  lemma FourBytesLive(bs: seq<Block>, end: int, a: U32, b: U32)
    requires WellFormed(bs, end) && Backed(bs, Region(a, 64)) && Backed(bs, Region(b, 128)) && end <= LIMIT
    ensures FourLive(bs, a, b)
  {
    hide Backed, WellFormed, InPayload;
    RegionByte(bs, end, Region(a, 64), 0);
    RegionByte(bs, end, Region(a, 64), 63);
    RegionByte(bs, end, Region(b, 128), 0);
    RegionByte(bs, end, Region(b, 128), 127);
  }

  ghost predicate FourApart(a: U32, b: U32) {
    a != b && a != b + 127 && a + 63 != b && a + 63 != b + 127
  }

  // ... and differ.
  lemma FourBytesApart(bs: seq<Block>, end: int, a: U32, b: U32)
    requires WellFormed(bs, end) && Backed(bs, Region(a, 64)) && Backed(bs, Region(b, 128)) && a != b
    ensures FourApart(a, b)
  {
    hide Backed, WellFormed;
    var r, s := Region(a, 64), Region(b, 128);
    RegionsApart(bs, end, r, 0, s, 0);
    RegionsApart(bs, end, r, 0, s, 127);
    RegionsApart(bs, end, r, 63, s, 0);
    RegionsApart(bs, end, r, 63, s, 127);
  }

  ghost predicate TestBytes(written: map<int, U32>, a: U32, b: U32) {
    && a + 63 < TWO32 && b + 127 < TWO32
    && ByteIs(written, a, 65) && ByteIs(written, a + 63, 90) && ByteIs(written, b, 66) && ByteIs(written, b + 127, 89)
  }

  // The first and the last byte of an allocation are written.
  method WriteEnds(system: MemorySystem, first: U32, last: U32, c: Byte, d: Byte) returns (ghost between: map<int, U32>)
    requires system.Valid() && InPayload(system.heap.blocks, first) && InPayload(system.heap.blocks, last)
    requires system.heap.window.mmu.Sized() && system.heap.window.mmu.pmm.Sized()
    modifies system`written, system.heap.window`words, system.heap.window.mmu`tlb, system.heap.window.mmu.ram
    ensures system.Valid() && system.Now() == old(system.Now())
    ensures ByteWritten(old(system.written), between, first, c) && ByteWritten(between, system.written, last, d)
  {
    hide MemorySystem.Valid, InPayload, ByteWritten, MemorySystem.Now;
    system.WriteByte(first, c);
    between := system.written;
    system.WriteByte(last, d);
  }

  method ReadEnds(system: MemorySystem, first: U32, last: U32, c: Byte, d: Byte) returns (ok: bool)
    requires system.Valid() && InPayload(system.heap.blocks, first) && InPayload(system.heap.blocks, last)
    requires ByteIs(system.written, first, c) && ByteIs(system.written, last, d)
    modifies system.heap.window.mmu`tlb
    ensures system.Valid() && ok
  {
    hide MemorySystem.Valid, InPayload, ByteOf;
    var p := system.ReadByte(first);
    var q := system.ReadByte(last);
    ok := p == c && q == d;
  }

  // a[0] = 'A'; a[63] = 'Z'; b[0] = 'B'; b[127] = 'Y'
  method WriteFour(system: MemorySystem, a: U32, b: U32)
    requires system.Valid() && FourLive(system.heap.blocks, a, b) && FourApart(a, b)
    requires system.heap.window.mmu.Sized() && system.heap.window.mmu.pmm.Sized()
    modifies system`written, system.heap.window`words, system.heap.window.mmu`tlb, system.heap.window.mmu.ram
    ensures system.Valid() && system.Now() == old(system.Now()) && TestBytes(system.written, a, b)
  {
    hide MemorySystem.Valid, InPayload, ByteWritten, TestBytes, FourApart, MemorySystem.Now;
    ghost var w0 := system.written;
    ghost var w1 := WriteEnds(system, a, a + 63, 65, 90);
    ghost var w2 := system.written;
    ghost var w3 := WriteEnds(system, b, b + 127, 66, 89);
    FourBytes(w0, w1, w2, w3, system.written, a, b);
  }

  method ReadFour(system: MemorySystem, a: U32, b: U32) returns (ok: bool)
    requires system.Valid() && FourLive(system.heap.blocks, a, b) && TestBytes(system.written, a, b)
    modifies system.heap.window.mmu`tlb
    ensures system.Valid() && ok
  {
    hide MemorySystem.Valid, InPayload, ByteIs;
    var okA := ReadEnds(system, a, a + 63, 65, 90);
    var okB := ReadEnds(system, b, b + 127, 66, 89);
    ok := okA && okB;
  }

  lemma FourBytes(w0: map<int, U32>, w1: map<int, U32>, w2: map<int, U32>, w3: map<int, U32>, w4: map<int, U32>,
                  a: U32, b: U32)
    requires a + 63 < TWO32 && b + 127 < TWO32 && FourApart(a, b)
    requires ByteWritten(w0, w1, a, 65) && ByteWritten(w1, w2, a + 63, 90)
    requires ByteWritten(w2, w3, b, 66) && ByteWritten(w3, w4, b + 127, 89)
    ensures TestBytes(w4, a, b)
  {
    hide ByteWritten, ByteIs;
    ByteIsWritten(w0, w1, a, 65);
    ByteIsWritten(w1, w2, a + 63, 90);
    OtherByteStays(w1, w2, a + 63, 90, a, 65);
    ByteIsWritten(w2, w3, b, 66);
    OtherByteStays(w2, w3, b, 66, a, 65);
    OtherByteStays(w2, w3, b, 66, a + 63, 90);
    ByteIsWritten(w3, w4, b + 127, 89);
    OtherByteStays(w3, w4, b + 127, 89, a, 65);
    OtherByteStays(w3, w4, b + 127, 89, a + 63, 90);
    OtherByteStays(w3, w4, b + 127, 89, b, 66);
  }

  lemma OneFreed(bs: seq<Block>, end: int, ptr: int, other: int, after: seq<Block>)
    requires WellFormed(bs, end) && Frees(bs, ptr, after) && LiveOnlyAt(bs, ptr, other)
    ensures LiveOnlyAt(after, other, other)
    ensures other != ptr && LiveAt(bs, other) ==> LiveAt(after, other)
    ensures other == ptr ==> Live(after) == {}
  {
    hide Frees, Live, WellFormed;
    FreesFacts(bs, end, ptr, after);
    if other != ptr && LiveAt(bs, other) {
      var c :| c in Live(bs) && c.addr + HEADER == other;
      assert c in Live(after);
    }
  }

  method FreeOne(system: MemorySystem, ptr: U32, ghost other: U32)
    requires system.Valid() && ptr != 0 && LiveAt(system.heap.blocks, ptr) && LiveOnlyAt(system.heap.blocks, ptr, other)
    requires system.heap.window.mmu.Sized() && system.heap.window.mmu.pmm.Sized()
    modifies system`written, system.heap`blocks, system.heap.window`words, system.heap.window.mmu`tlb,
      system.heap.window.mmu.ram
    ensures system.Valid() && LiveOnlyAt(system.heap.blocks, other, other)
    ensures system.Now() == old(system.Now()).(heap := Heap(FreedAt(old(system.heap.blocks), ptr), system.heap.end))
    ensures other != ptr && old(LiveAt(system.heap.blocks, other)) ==> LiveAt(system.heap.blocks, other)
    ensures other == ptr ==> Live(system.heap.blocks) == {} && system.written == map[]
  {
    hide MemorySystem.Valid, Frees, FreedAt, Live, WellFormed, InPayload, LiveOnlyAt;
    ghost var bs, end, was := system.heap.blocks, system.heap.end, system.written;
    system.HeapShape();
    system.Kfree(ptr);
    OneFreed(bs, end, ptr, other, system.heap.blocks);
    if other == ptr {
      NothingWritten(system.heap.blocks, was, system.written);
    }
  }

  lemma BackedLive(bs: seq<Block>, r: Region)
    requires Backed(bs, r)
    ensures LiveAt(bs, r.ptr)
  {
    hide Live;
  }

  // With nothing live there is nothing written.
  lemma NothingWritten(bs: seq<Block>, was: map<int, U32>, now: map<int, U32>)
    requires Live(bs) == {} && forall a :: a in now <==> a in was && InPayload(bs, a)
    ensures now == map[]
  {
    forall a ensures a !in now {
      assert !InPayload(bs, a);
    }
    assert now.Keys == {};
  }

  // kheap_self_test: what it does to the memory, and that it reports nothing but a failed
  // allocation.
  method KheapSelfTest(system: MemorySystem) returns (outcome: Outcome)
    requires system.Valid() && system.written == map[] && Live(system.heap.blocks) == {}
    modifies system, system.heap, system.heap.window, system.heap.window.mmu`tlb, system.heap.window.mmu.ram,
      system.heap.window.mmu.pmm`usedCount, system.heap.window.mmu.pmm`held, system.heap.window.mmu.pmm.bitmap
    ensures system.Valid() && system.mine == old(system.mine) && system.written == map[]
    ensures system.heap.window.mmu.Sized() && system.heap.window.mmu.pmm.Sized()
    ensures system.Now() == HeapTest(old(system.Now())).0
    ensures outcome == if HeapTest(old(system.Now())).1 then Passed else AllocFailed
    ensures outcome == Passed ==> Live(system.heap.blocks) == {}
  {
    hide MemorySystem.Valid, Live, Backed, LiveAt, LiveOnlyAt, FourLive, FourApart, TestBytes, WellFormed, Grant,
      FreedAt, Needed, AddressSpace.Installed, FrameAllocator.Free;
    system.Sizes();
    var a, b := TakeBoth(system);
    if a == 0 || b == 0 {
      return AllocFailed;
    }
    outcome := Passed;
    if a == b {
      outcome := Overlap;
    } else {
      system.HeapShape();
      FourBytesLive(system.heap.blocks, system.heap.end, a, b);
      FourBytesApart(system.heap.blocks, system.heap.end, a, b);
      WriteFour(system, a, b);
      var ok := ReadFour(system, a, b);
      if !ok {
        outcome := ReadWriteFailed;
      }
    }
    BackedLive(system.heap.blocks, Region(a, 64));
    BackedLive(system.heap.blocks, Region(b, 128));
    FreeOne(system, a, b);
    FreeOne(system, b, b);
  }

  lemma EmptyAgain(system: MemorySystem)
    requires system.Valid() && Live(system.heap.blocks) == {}
    ensures system.heap.end == FirstHeap().end ==> Heap(system.heap.blocks, system.heap.end) == FirstHeap()
  {
    hide MemorySystem.Valid, Live;
    system.HeapShape();
    EmptyHeap(system.heap.blocks, system.heap.end);
    if system.heap.blocks != [] {
      NothingLiveIsOneBlock(system.heap.blocks, system.heap.end);
    }
  }

  // ---------------------------------------------------------------- kernel_main

  datatype Report = Report(pmm: Outcome, paging: Outcome, kheap: Outcome)

  // The memory when kheap_init has returned, from the frames that the memory map leaves free.
  ghost function InitialMemory(free: set<nat>): Memory {
    var left, tables := PmmTestFree(free), {768, 1023};
    AfterGrowth(Memory(Heap([], KHEAP_START), PagingTestFree(left, tables), PagingTestTables(left, tables)), 4096)
  }

  ghost function BootMemory(free: set<nat>): Memory {
    HeapTest(InitialMemory(free)).0
  }

  ghost function BootReport(free: set<nat>): Report {
    var left := PmmTestFree(free);
    Report(if |free| >= 2 then Passed else AllocFailed,
           if left == {} then AllocFailed else if CanAdd(TestSupply(left, {768, 1023})) then Passed else MapFailed,
           if HeapTest(InitialMemory(free)).1 then Passed else AllocFailed)
  }

  // After the first two self-tests all frames but one are left, or none.
  lemma BeforeTheHeap(free: set<nat>)
    requires 0 !in free
    ensures var left, tables := PmmTestFree(free), {768, 1023};
            && (left == {} <==> |free| < 2) && (CanAdd(TestSupply(left, tables)) <==> |free| >= 2)
            && |PagingTestFree(left, tables)| == (if |free| >= 2 then |free| - 1 else 0)
            && 0 !in PagingTestFree(left, tables) && 776 !in PagingTestTables(left, tables)
  {
    hide CanAdd, Add, LeastFree;
    TakeCounts(free);
    assert |free| == 1 ==> |TakeFrom(free)| == 0;
    PagingTestCounts(PmmTestFree(free), {768, 1023});
  }

  // Four pages of heap cost four frames and the frame of their page table.
  lemma FirstGrowth(m: Memory)
    requires m.heap == Heap([], KHEAP_START) && 0 !in m.free && 776 !in m.tables
    ensures CanGrow(m, 4096) == (|m.free| >= 5)
    ensures AfterGrowth(m, 4096).heap == if |m.free| >= 5 then FirstHeap() else Heap([], KHEAP_START)
    ensures |m.free| >= 5 ==> |AfterGrowth(m, 4096).free| == |m.free| - 5
    ensures |m.free| < 5 ==> |AfterGrowth(m, 4096).free| <= 1
    ensures 0 !in AfterGrowth(m, 4096).free
  {
    hide GrownSupply, Between;
    GrowthPrice(m, 4096, 4);
    assert Spanned(FIRST_PAGE, 4) == Between(776, 776);
    OneTable(m.tables);
  }

  lemma OneTable(tables: set<nat>)
    requires 776 !in tables
    ensures |Between(776, 776) - tables| == 1
  {
    assert Between(776, 776) - tables == {776};
  }

  // With two free frames the first two self-tests pass, with six all three do and the heap is
  // one block of 16 KiB; otherwise there is no heap, and at most one frame is left.
  lemma BootInNumbers(free: set<nat>)
    requires 0 !in free
    ensures var r, m, n := BootReport(free), BootMemory(free), |free|;
            && r.pmm == r.paging == (if n >= 2 then Passed else AllocFailed)
            && r.kheap == (if n >= 6 then Passed else AllocFailed)
            && m.heap.end == (if n >= 6 then FirstHeap().end else KHEAP_START)
            && (n < 6 ==> m.heap.blocks == []) && (if n >= 6 then |m.free| == n - 6 else |m.free| <= 1)
    ensures InitialMemory(free).heap == if |free| >= 6 then FirstHeap() else Heap([], KHEAP_START)
  {
    hide PmmTestFree, PagingTestFree, PagingTestTables, CanAdd, AfterGrowth, HeapTest, Spanned;
    BeforeTheHeap(free);
    var left, tables := PmmTestFree(free), {768, 1023};
    var m := Memory(Heap([], KHEAP_START), PagingTestFree(left, tables), PagingTestTables(left, tables));
    FirstGrowth(m);
    if |free| >= 6 {
      TestOfFirstHeap(AfterGrowth(m, 4096));
    } else {
      TestOfEmptyHeap(AfterGrowth(m, 4096));
    }
  }

  // From the bytes the boot loader left to a running memory subsystem: its memory and the
  // reports of the self-tests are determined by the frames that the memory map leaves.
  method StartKernel(mem: seq<Byte>, mmapAddr: U32, mmapLength: U32, memUpperKb: U32, layout: Layout,
                     contents: (nat, nat) -> U32)
    returns (system: MemorySystem, report: Report, ghost boot: BootInfo)
    requires Readable(mem) && Placed(layout)
    ensures system.Valid() && system.mine == {} && system.written == map[]
    ensures fresh(system) && fresh(system.heap) && fresh(system.heap.window) && fresh(system.heap.window.mmu)
    ensures fresh(system.heap.window.mmu.ram) && fresh(system.heap.window.mmu.pmm)
    ensures fresh(system.heap.window.mmu.pmm.bitmap) && system.heap.window.mmu.pd == layout.pageDirectory / 4096
    ensures boot == LoaderInfo(mem, mmapAddr, mmapLength, memUpperKb)
    ensures system.heap.window.mmu.pmm.frameCount == if boot.valid then BootFrameCount(boot) else 0
    ensures forall f: nat :: f < system.heap.window.mmu.pmm.frameCount ==>
              (f in system.reserved) == !FreeAtBoot(boot, layout, f)
    ensures forall f: nat :: f < system.heap.window.mmu.pmm.frameCount && f !in system.reserved ==> Clear(layout, f)
    ensures system.heap.window.mmu.Sized() && system.heap.window.mmu.pmm.Sized()
    ensures system.Now() == BootMemory(FreeFramesAtBoot(boot, layout))
    ensures report == BootReport(FreeFramesAtBoot(boot, layout)) && 0 !in FreeFramesAtBoot(boot, layout)
    ensures |FreeFramesAtBoot(boot, layout)| >= 6 ==> system.Now().heap == FirstHeap()
  {
    hide EntriesFrom, FreeAtBoot, BootFrameCount, FreeFramesAtBoot, HeapTest, MemorySystem.Valid, KernelHeap.Valid,
      PmmTestFree, PagingTestFree, PagingTestTables, CanAdd, AddressSpace.Installed, FrameAllocator.Free,
      FrameAllocator.Used, Live, FirstHeap, Clear;
    var memoryMap := new MemoryMap();
    memoryMap.Walk(mem, mmapAddr, mmapLength);
    var info := BootInfo(memoryMap.valid, memoryMap.storage[..memoryMap.count], memUpperKb);
    boot := info;
    ProtectedFrames(info, layout);
    var kheap, pmmTest, pagingTest := StartMemory(info, layout, contents);
    system := new MemorySystem(kheap);
    BootInNumbers(FreeFramesAtBoot(boot, layout));
    var kheapTest := KheapSelfTest(system);
    report := Report(pmmTest, pagingTest, kheapTest);
    if kheapTest == Passed {
      EmptyAgain(system);
    }
  }

  // What pmm_init finds of the loader's information.
  ghost function LoaderInfo(mem: seq<Byte>, mmapAddr: U32, mmapLength: U32, memUpperKb: U32): BootInfo
    requires Readable(mem)
  {
    var entries := if InIdentityMap(mmapAddr) then EntriesFrom(mem, mmapAddr, mmapLength, 0, MAX_MMAP_ENTRIES) else [];
    BootInfo(entries != [], entries, memUpperKb)
  }

  // pmm_init, paging_init and kheap_init, with the self-tests between them.
  method StartMemory(boot: BootInfo, layout: Layout, contents: (nat, nat) -> U32)
    returns (heap: KernelHeap, pmmTest: Outcome, pagingTest: Outcome)
    requires Placed(layout)
    ensures fresh(heap) && fresh(heap.window) && fresh(heap.window.mmu)
    ensures fresh(heap.window.mmu.ram) && fresh(heap.window.mmu.pmm) && fresh(heap.window.mmu.pmm.bitmap)
    ensures heap.window.mmu.pd == layout.pageDirectory / 4096
    ensures heap.Valid() && heap.window.mmu.pmm.frameCount == (if boot.valid then BootFrameCount(boot) else 0)
    ensures forall f: nat :: f < heap.window.mmu.pmm.frameCount ==>
              (f in heap.window.mmu.pmm.Reserved()) == !FreeAtBoot(boot, layout, f)
    ensures heap.window.mmu.Sized() && heap.window.mmu.pmm.Sized() && KernelMapped(heap.window.mmu)
    ensures var free := FreeFramesAtBoot(boot, layout);
            && heap.Now() == InitialMemory(free) && 0 !in free && Live(heap.blocks) == {}
            && pmmTest == BootReport(free).pmm && pagingTest == BootReport(free).paging
  {
    hide FreeAtBoot, BootFrameCount, FreeFramesAtBoot, FrameAllocator.Used, FrameAllocator.Free,
      FrameAllocator.Reserved, AddressSpace.Installed, PmmTestFree, PagingTestFree, PagingTestTables, CanAdd,
      AfterGrowth, HeapTest, AddressSpace.Walk, BootLeaf;
    var mmu;
    mmu, pmmTest, pagingTest := StartPaging(boot, layout, contents);
    BootInNumbers(FreeFramesAtBoot(boot, layout));
    heap := StartHeap(mmu);
    heap.NowInSnapshot();
    NothingLiveYet(heap);
  }

  lemma NothingLiveYet(heap: KernelHeap)
    ensures heap.blocks == FirstHeap().blocks || heap.blocks == [] ==> Live(heap.blocks) == {}
  {
  }

  // From the boot loader's bytes: whatever is asked of the memory subsystem afterwards, it
  // grants what the abstract machine grants, and answers as the ideal memory does.
  method BootAndRun(mem: seq<Byte>, mmapAddr: U32, mmapLength: U32, memUpperKb: U32, layout: Layout,
                    contents: (nat, nat) -> U32, ops: seq<Op>)
    returns (granted: seq<bool>, answers: seq<Option<U32>>)
    requires Readable(mem) && Placed(layout)
    ensures var free := FreeFramesAtBoot(LoaderInfo(mem, mmapAddr, mmapLength, memUpperKb), layout);
            Agrees(Ideal(map[], map[]), Machine(BootMemory(free), map[], 0, {}, map[]), ops, granted, answers)
  {
    hide MemorySystem.Valid, Agrees, FreeAtBoot, BootFrameCount, FreeFramesAtBoot, EntriesFrom, BootMemory,
      BootReport, Shows, LoaderInfo, MemorySystem.Now;
    var system, _, _ := StartKernel(mem, mmapAddr, mmapLength, memUpperKb, layout, contents);
    var client := new Client(system);
    granted, answers := client.Run(ops);
  }
}
