// The self-tests that kernel_main runs between the initialisations. Whatever the memory map,
// they find nothing wrong: they pass, or there is no frame for them.

module SelfTests {
  import opened Common
  import opened Pmm
  import opened Paging
  import opened HeapModel
  import opened Growth
  import opened HeapWindow

  datatype Outcome =
    | Passed | AllocFailed | Duplicate | MapFailed | ReadWriteFailed | PhysMismatch | UnmapFailed | Overlap

  const TEST_PAGE: Page := 0xC_1000
  const MAGIC: U32 := 0xDEAD_BEEF

  // With a single free frame the first one taken is never given back.
  ghost function AfterPmmTest(st: Frames): Frames {
    if |st.free| == 1 then Apply(st, Take) else st
  }

  // The frames that two calls of pmm_alloc_frame take; 0 for none.
  ghost function FirstTaken(st: Frames): nat { LeastFree(st.free) }

  ghost function SecondTaken(st: Frames): nat { LeastFree(Apply(st, Take).free) }

  ghost function BothTaken(st: Frames): Frames { Apply(Apply(st, Take), Take) }

  ghost predicate Proper(st: Frames) { 0 !in st.free && st.free !! st.held }

  lemma TooFew(st: Frames)
    requires Proper(st)
    ensures FirstTaken(st) == 0 || SecondTaken(st) == 0 <==> |st.free| < 2
    ensures |st.free| < 2 ==> BothTaken(st) == AfterPmmTest(st)
  {
    hide LeastFree;
    TakeShrinks(st);
    TakeShrinks(Apply(st, Take));
  }

  // What the test leaves free.
  ghost function PmmTestFree(free: set<nat>): set<nat> {
    if |free| == 1 then TakeFrom(free) else free
  }

  lemma PmmTestCounts(st: Frames)
    requires Proper(st)
    ensures AfterPmmTest(st).free == PmmTestFree(st.free) && 0 !in PmmTestFree(st.free)
    ensures |PmmTestFree(st.free)| == if |st.free| >= 2 then |st.free| else 0
  {
    hide LeastFree;
    Takings(st);
    TakeCounts(st.free);
  }

  // Two frames taken are different, and giving both back restores the allocator.
  lemma GivenBack(st: Frames)
    requires Proper(st) && |st.free| >= 2
    ensures var a, b, two := FirstTaken(st), SecondTaken(st), BothTaken(st);
            && a != b && a in two.held && b in Apply(two, Give(a)).held
            && Apply(Apply(two, Give(a)), Give(b)) == AfterPmmTest(st)
  {
    hide LeastFree;
    TakeShrinks(st);
    TakeShrinks(Apply(st, Take));
    var end := Apply(Apply(BothTaken(st), Give(FirstTaken(st))), Give(SecondTaken(st)));
    assert end.free == st.free;
    assert end.held == st.held;
  }

  lemma FrameNumber(addr: U32, f: nat)
    requires addr == 4096 * f
    ensures addr % 4096 == 0 && addr / 4096 == f && (addr == 0 <==> f == 0)
  {
  }

  method GiveBack(pmm: FrameAllocator, frame: U32)
    requires pmm.Valid() && frame % 4096 == 0 && frame / 4096 in pmm.held
    modifies pmm`usedCount, pmm`held, pmm.bitmap
    ensures pmm.Valid() && pmm.Reserved() == old(pmm.Reserved())
    ensures pmm.State() == Apply(old(pmm.State()), Give(frame / 4096))
  {
    pmm.HeldInRange(frame / 4096);
    hide FrameAllocator.Used, FrameAllocator.Free, FrameAllocator.Reserved, Apply;
    pmm.FreeFrame(frame);
  }

  method TakeTwo(pmm: FrameAllocator) returns (a: U32, b: U32)
    requires pmm.Valid()
    modifies pmm`usedCount, pmm`held, pmm.bitmap
    ensures pmm.Valid() && pmm.Reserved() == old(pmm.Reserved())
    ensures var st := old(pmm.State());
            && pmm.State() == BothTaken(st)
            && a % 4096 == 0 && a / 4096 == FirstTaken(st) && (a == 0 <==> FirstTaken(st) == 0)
            && b % 4096 == 0 && b / 4096 == SecondTaken(st) && (b == 0 <==> SecondTaken(st) == 0)
  {
    ghost var st := pmm.State();
    hide FrameAllocator.Valid, FrameAllocator.Used, FrameAllocator.Free, FrameAllocator.Reserved, LeastFree, Apply;
    a := pmm.AllocFrame();
    b := pmm.AllocFrame();
    FrameNumber(a, FirstTaken(st));
    FrameNumber(b, SecondTaken(st));
  }

  // pmm_self_test
  method PmmSelfTest(pmm: FrameAllocator) returns (outcome: Outcome)
    requires pmm.Valid()
    modifies pmm`usedCount, pmm`held, pmm.bitmap
    ensures pmm.Valid() && pmm.Reserved() == old(pmm.Reserved())
    ensures outcome == if |old(pmm.Free())| >= 2 then Passed else AllocFailed
    ensures pmm.State() == AfterPmmTest(old(pmm.State()))
  {
    pmm.HeldNotFree();
    ghost var st := pmm.State();
    assert Proper(st) && |st.free| == |pmm.Free()|;
    hide FrameAllocator.Valid, FrameAllocator.Used, FrameAllocator.Free, FrameAllocator.Reserved, LeastFree, Apply,
      AfterPmmTest;
    var a, b := TakeTwo(pmm);
    TooFew(st);
    if a == 0 || b == 0 {
      return AllocFailed;
    }
    hide FirstTaken, SecondTaken, BothTaken, FrameAllocator.State;
    GivenBack(st);
    if a == b {
      return Duplicate;
    }
    GiveBack(pmm, a);
    GiveBack(pmm, b);
    return Passed;
  }

  // A frame from the allocator holds no page table.
  method TakeFrame(mmu: AddressSpace) returns (frame: U32)
    requires mmu.Valid()
    modifies mmu.pmm`usedCount, mmu.pmm`held, mmu.pmm.bitmap
    ensures mmu.Valid() && mmu.pmm.Reserved() == old(mmu.pmm.Reserved())
    ensures frame == 4096 * old(mmu.NextTable()) && mmu.pmm.State() == Apply(old(mmu.pmm.State()), Take)
    ensures frame != 0 ==> mmu.NotTable(frame / 4096) && frame / 4096 in mmu.pmm.held
  {
    hide AddressSpace.Walk, AddressSpace.Separated, AddressSpace.Coherent, LeastFree, FrameAllocator.Valid;
    mmu.pmm.HeldNotFree();
    TableEntryFields(mmu.pd);
    frame := mmu.pmm.AllocFrame();
  }

  method ReturnFrame(mmu: AddressSpace, frame: U32)
    requires mmu.Valid() && frame % 4096 == 0 && frame / 4096 in mmu.pmm.held && mmu.NotTable(frame / 4096)
    modifies mmu.pmm`usedCount, mmu.pmm`held, mmu.pmm.bitmap
    ensures mmu.Valid() && mmu.pmm.Reserved() == old(mmu.pmm.Reserved())
    ensures mmu.pmm.State() == Apply(old(mmu.pmm.State()), Give(frame / 4096))
  {
    hide AddressSpace.Walk, AddressSpace.Separated, AddressSpace.Coherent;
    GiveBack(mmu.pmm, frame);
  }

  // The mapping of the test page, with what it tells of held frames.
  method MapTestPage(mmu: AddressSpace, frame: U32) returns (ok: bool)
    requires mmu.Valid() && frame % 4096 == 0 && frame / 4096 in mmu.pmm.held && mmu.NotTable(frame / 4096)
    modifies mmu`tlb, mmu.ram, mmu.pmm`usedCount, mmu.pmm`held, mmu.pmm.bitmap
    ensures mmu.Valid() && mmu.pmm.Reserved() == old(mmu.pmm.Reserved())
    ensures frame / 4096 in mmu.pmm.held && mmu.NotTable(frame / 4096)
    ensures ok == (772 in old(mmu.Installed()) || old(mmu.NextTable()) != 0)
    ensures mmu.Installed() == if ok then old(mmu.Installed()) + {772} else old(mmu.Installed())
    ensures mmu.pmm.State() == if ok && 772 !in old(mmu.Installed()) then Apply(old(mmu.pmm.State()), Take)
                               else old(mmu.pmm.State())
    ensures forall p: Page :: p < 0xF_FC00 ==>
              mmu.Walk(p) == if ok && p == TEST_PAGE then Some(Leaf(frame / 4096, true, false)) else old(mmu.Walk(p))
  {
    hide AddressSpace.Walk, AddressSpace.Separated, AddressSpace.Coherent, LeastFree, AddressSpace.Installed,
      FrameOf, TableEntry;
    ghost var next := mmu.NextTable();
    mmu.pmm.HeldNotFree();
    DirectoryAddress(mmu.pd, 0);
    if next < 0x10_0000 {
      TableEntryFields(next);
    }
    ok := mmu.MapPage(4096 * TEST_PAGE, frame, FLAG_WRITE);
  }

  // A word written to the test page is read back, the page resolves to its frame, and after
  // unmapping it resolves to nothing.
  method Exercise(mmu: AddressSpace, frame: U32) returns (outcome: Outcome)
    requires mmu.Valid() && frame % 4096 == 0 && frame != 0 && mmu.NotTable(frame / 4096)
    requires mmu.Walk(TEST_PAGE) == Some(Leaf(frame / 4096, true, false))
    modifies mmu`tlb, mmu.ram
    ensures mmu.Valid() && outcome == Passed
    ensures mmu.Installed() == old(mmu.Installed()) && (forall f: Frame :: mmu.NotTable(f) == old(mmu.NotTable(f)))
    ensures forall p: Page :: mmu.Walk(p) == if p == TEST_PAGE then None else old(mmu.Walk(p))
  {
    hide AddressSpace.Walk, AddressSpace.Separated, AddressSpace.Coherent, AddressSpace.TablesNotFree,
      AddressSpace.Translations, AddressSpace.Installed, AddressSpace.NotTable, AddressSpace.Pde, Present, Writable,
      FrameOf, TableEntry;
    DirectoryAddress(mmu.pd, 0);
    var virt: U32 := 4096 * TEST_PAGE;
    outcome := Passed;
    mmu.StoreData(virt, MAGIC);
    var read := mmu.Load(virt);
    if read != MAGIC {
      outcome := ReadWriteFailed;
    } else {
      var phys := mmu.GetPhysical(virt);
      if phys != frame {
        outcome := PhysMismatch;
      }
    }
    mmu.UnmapPage(virt);
    if outcome == Passed {
      var phys := mmu.GetPhysical(virt);
      if phys != 0 {
        outcome := UnmapFailed;
      }
    }
  }

  ghost predicate CanMapTest(tables: set<nat>, st: Frames) {
    772 in tables || LeastFree(st.free) != 0
  }

  ghost function AfterMapping(tables: set<nat>, st: Frames): Frames {
    if CanMapTest(tables, st) && 772 !in tables then Apply(st, Take) else st
  }

  // The test with the frame it has taken; the frame is given back whatever comes of it.
  method TestWithFrame(mmu: AddressSpace, frame: U32) returns (outcome: Outcome)
    requires mmu.Valid() && mmu.Walk(TEST_PAGE).None?
    requires frame % 4096 == 0 && frame != 0 && frame / 4096 in mmu.pmm.held && mmu.NotTable(frame / 4096)
    modifies mmu`tlb, mmu.ram, mmu.pmm`usedCount, mmu.pmm`held, mmu.pmm.bitmap
    ensures mmu.Valid() && mmu.pmm.Reserved() == old(mmu.pmm.Reserved())
    ensures var st, tables := old(mmu.pmm.State()), old(mmu.Installed());
            && outcome == (if CanMapTest(tables, st) then Passed else MapFailed)
            && mmu.pmm.State() == Apply(AfterMapping(tables, st), Give(frame / 4096))
            && mmu.Installed() == if CanMapTest(tables, st) then tables + {772} else tables
    ensures forall p: Page :: p < 0xF_FC00 ==> mmu.Walk(p) == old(mmu.Walk(p))
  {
    hide AddressSpace.Tables, AddressSpace.Coherent, AddressSpace.TablesNotFree, AddressSpace.Walk,
      AddressSpace.Installed, FrameAllocator.Free, FrameAllocator.Used, LeastFree, Apply, AddressSpace.NotTable,
      AddressSpace.Pde, FrameAllocator.Reserved;
    var ok := MapTestPage(mmu, frame);
    if !ok {
      ReturnFrame(mmu, frame);
      return MapFailed;
    }
    outcome := Exercise(mmu, frame);
    ReturnFrame(mmu, frame);
  }

  // The frame and, if there is none yet, the table of the test page.
  ghost function TestSupply(free: set<nat>, tables: set<nat>): Supply {
    Supply(free, tables, TEST_PAGE)
  }

  // What the test leaves free: a page table that it had to install stays.
  ghost function PagingTestFree(free: set<nat>, tables: set<nat>): set<nat> {
    var s := TestSupply(free, tables);
    if CanAdd(s) then Add(s).free + {LeastFree(free)} else free
  }

  ghost function PagingTestTables(free: set<nat>, tables: set<nat>): set<nat> {
    if CanAdd(TestSupply(free, tables)) then tables + {772} else tables
  }

  lemma TestLeaves(st: Frames, tables: set<nat>)
    requires Proper(st) && LeastFree(st.free) != 0
    ensures var f, one := LeastFree(st.free), Apply(st, Take);
            && CanMapTest(tables, one) == CanAdd(TestSupply(st.free, tables))
            && Apply(AfterMapping(tables, one), Give(f)).free == PagingTestFree(st.free, tables)
  {
    hide LeastFree;
    var one := Apply(st, Take);
    Takings(st);
    assert 0 !in one.free;
    Takings(one);
  }

  // With two frames for the test one is gone after it; with fewer none is.
  lemma PagingTestCounts(free: set<nat>, tables: set<nat>)
    requires 0 !in free && 772 !in tables
    ensures CanAdd(TestSupply(free, tables)) <==> |free| >= 2
    ensures |PagingTestFree(free, tables)| == if |free| >= 2 then |free| - 1 else |free|
    ensures 0 !in PagingTestFree(free, tables)
  {
    AddCounts(TestSupply(free, tables));
    TakeCounts(free);
    var s := TestSupply(free, tables);
    if CanAdd(s) {
      assert LeastFree(free) !in Add(s).free;
    }
  }

  // paging_self_test
  method PagingSelfTest(mmu: AddressSpace) returns (outcome: Outcome)
    requires mmu.Valid() && mmu.Walk(TEST_PAGE).None?
    modifies mmu`tlb, mmu.ram, mmu.pmm`usedCount, mmu.pmm`held, mmu.pmm.bitmap
    ensures mmu.Valid() && mmu.pmm.Reserved() == old(mmu.pmm.Reserved())
    ensures var free, tables := old(mmu.pmm.Free()), old(mmu.Installed());
            && outcome == (if free == {} then AllocFailed
                           else if CanAdd(TestSupply(free, tables)) then Passed else MapFailed)
            && mmu.pmm.Free() == PagingTestFree(free, tables) && mmu.Installed() == PagingTestTables(free, tables)
    ensures forall p: Page :: p < 0xF_FC00 ==> mmu.Walk(p) == old(mmu.Walk(p))
  {
    ghost var st, tables := mmu.pmm.State(), mmu.Installed();
    mmu.pmm.HeldNotFree();
    assert Proper(st) && mmu.pmm.Sized() && mmu.Sized();
    TakeCounts(st.free);
    Takings(st);
    NoTest(st.free, tables);
    var frame := TakeFrame(mmu);
    FrameNumber(frame, LeastFree(st.free));
    if frame == 0 {
      return AllocFailed;
    }
    TestLeaves(st, tables);
    outcome := TestWithFrame(mmu, frame);
  }

  lemma NoTest(free: set<nat>, tables: set<nat>)
    ensures LeastFree(free) == 0 ==> PagingTestFree(free, tables) == free && PagingTestTables(free, tables) == tables
  {
  }
}
