// Two-level i386 paging edited through itself: the directory by its higher-half address,
// the page tables through the recursive slot. Every access of the code resolves its
// virtual address by the walk that the access may be about to change.

module Paging {
  import opened Common
  import opened Pmm

  type Frame = x: int | 0 <= x < 0x10_0000
  type Page = x: int | 0 <= x < 0x10_0000

  const KERNEL_VIRTUAL_BASE: U32 := 0xC000_0000
  const RECURSIVE_PD_INDEX := 1023
  const RECURSIVE_PT_BASE: U32 := 0xFFC0_0000
  const FLAG_WRITE: U32 := 2

  // ---------------------------------------------------------------- page-table entries

  predicate Present(e: U32) { e % 2 == 1 }

  predicate Writable(e: U32) { e / 2 % 2 == 1 }

  predicate User(e: U32) { e / 4 % 2 == 1 }

  function FrameOf(e: U32): Frame { e / 4096 }

  // A directory entry or boot entry: present, writable, supervisor.
  function TableEntry(f: Frame): U32 { 4096 * f + 3 }

  lemma TableEntryFields(f: Frame)
    ensures var e := TableEntry(f); Present(e) && Writable(e) && !User(e) && FrameOf(e) == f && e % 4096 == 3
  {
  }

  // What a translation grants: the frame, and the rights that both levels grant.
  datatype Leaf = Leaf(frame: Frame, writable: bool, user: bool)

  function LeafOf(pde: U32, pte: U32): Option<Leaf> {
    if !Present(pde) || !Present(pte) then None
    else Some(Leaf(FrameOf(pte), Writable(pde) && Writable(pte), User(pde) && User(pte)))
  }

  lemma NullEntry()
    ensures !Present(0)
  {
  }

  lemma EntryFields(e: U32)
    requires e % 4096 == 3
    ensures Present(e) && Writable(e) && !User(e)
  {
  }

  // Under a table the entry of the page decides alone, and grants user code nothing.
  lemma LeafUnderTable(pde: U32, pte: U32)
    requires pde % 4096 == 3
    ensures LeafOf(pde, pte) == if Present(pte) then Some(Leaf(FrameOf(pte), Writable(pte), false)) else None
  {
    EntryFields(pde);
  }

  // `flags | PAGING_FLAG_PRESENT`
  function WithPresent(flags: U32): U32 {
    if flags % 2 == 0 then flags + 1 else flags
  }

  // `phys | flags` for a page-aligned address and flags below one page.
  lemma PageEntryFields(phys: U32, flags: U32)
    requires phys % 4096 == 0 && flags < 4096
    ensures var e := phys + WithPresent(flags);
            e < TWO32 && Present(e) && FrameOf(e) == phys / 4096 && Writable(e) == Writable(flags)
  {
    var q, f := phys / 4096, WithPresent(flags);
    assert f / 2 == flags / 2;
    assert (4096 * q + f) / 2 == 2048 * q + f / 2;
  }

  // ---------------------------------------------------------------- addresses

  function WindowPage(n: nat): Page
    requires n < 1024
  {
    0xF_FC00 + n
  }

  function PageTableVa(n: nat): U32
    requires n < 1024
  {
    RECURSIVE_PT_BASE + 4096 * n
  }

  function DirectoryPage(pd: Frame): Page
    requires pd < 1023
  {
    0xC_0000 + pd
  }

  function DirectoryVa(pd: Frame): U32
    requires pd < 1023
  {
    KERNEL_VIRTUAL_BASE + 4096 * pd
  }

  lemma WindowAddress(n: nat, i: nat)
    requires n < 1024 && i < 1024
    ensures var va := PageTableVa(n) + 4 * i;
            va < TWO32 && va % 4 == 0 && va / 4096 == WindowPage(n) && va % 4096 / 4 == i
    ensures WindowPage(n) / 1024 == 1023 && WindowPage(n) % 1024 == n
  {
  }

  lemma DirectoryAddress(pd: Frame, i: nat)
    requires pd < 1023 && i < 1024
    ensures var va := DirectoryVa(pd) + 4 * i;
            va < TWO32 && va % 4 == 0 && va / 4096 == DirectoryPage(pd) && va % 4096 / 4 == i
    ensures DirectoryPage(pd) / 1024 == 768 && DirectoryPage(pd) % 1024 == pd
  {
  }

  lemma PageIndices(virt: U32)
    ensures virt / 0x40_0000 == virt / 4096 / 1024 < 1024
    ensures virt / 4096 == virt / 0x40_0000 * 1024 + virt / 4096 % 1024
  {
  }

  // The entry maps frame f for writing.
  predicate LeadsTo(e: U32, f: Frame) {
    Present(e) && Writable(e) && FrameOf(e) == f
  }

  // Present entries have the flags of a table, and below the slot each has a table of its own.
  ghost predicate Distinct(dir: seq<U32>, pd: Frame)
    requires |dir| == 1024
  {
    && (forall n: nat :: n < 1024 && Present(dir[n]) ==> dir[n] % 4096 == 3)
    && (forall n: nat :: n < 1023 && Present(dir[n]) ==> FrameOf(dir[n]) != pd)
    && (forall n: nat, m: nat :: n < m < 1023 && Present(dir[n]) && Present(dir[m]) ==>
          FrameOf(dir[n]) != FrameOf(dir[m]))
  }

  // The recursive slot stays as it is, and any other entry, if present, holds a table of its
  // own; entry 768 is present, and its table shows the directory.
  ghost predicate ShapeWith(dir: seq<U32>, pd: Frame, i: nat, e: U32, back: U32)
    requires |dir| == 1024 && i < 1024
  {
    if i == RECURSIVE_PD_INDEX then e == TableEntry(pd)
    else && (i == 768 ==> Present(e) && LeadsTo(back, pd))
         && (Present(e) ==>
               && e % 4096 == 3 && FrameOf(e) != pd
               && forall n: nat :: n < 1023 && n != i && Present(dir[n]) ==> FrameOf(dir[n]) != FrameOf(e))
  }

  // The slot leads to the directory, and so does, for writing, the directory's page.
  predicate AccessWith(pd: Frame, i: nat, e: U32, back: U32) {
    && (i == RECURSIVE_PD_INDEX ==> LeadsTo(e, pd))
    && (i == 768 ==> Present(e) && Writable(e) && LeadsTo(back, pd))
  }

  // Unmapping 0xFFFFF000 clears the slot itself: the directory stays mapped, and no page table
  // can be reached.
  lemma SlotLost(dir: seq<U32>, pd: Frame, back: U32)
    requires |dir| == 1024 && pd < 1023
    ensures 0xFFFF_F000 / 4096 == WindowPage(RECURSIVE_PD_INDEX) != WindowPage(768)
    ensures WindowPage(RECURSIVE_PD_INDEX) != DirectoryPage(pd)
    ensures !ShapeWith(dir, pd, RECURSIVE_PD_INDEX, 0, back) && !AccessWith(pd, RECURSIVE_PD_INDEX, 0, back)
  {
  }

  lemma OnlyKernelTableShowsIt(dir: seq<U32>, pd: Frame, i: nat, e: U32, a: U32, b: U32)
    requires |dir| == 1024 && i < 1024 && (i == 768 ==> a == b)
    ensures ShapeWith(dir, pd, i, e, a) == ShapeWith(dir, pd, i, e, b)
    ensures AccessWith(pd, i, e, a) == AccessWith(pd, i, e, b)
  {
  }

  // The entry of page p may become w without cutting the kernel off from its directory.
  predicate DirectoryKept(pd: Frame, p: Page, w: int)
    requires pd < 1023
  {
    p == DirectoryPage(pd) ==> 0 <= w < TWO32 && LeadsTo(w, pd)
  }

  // Mapping the directory's page for user code too keeps access to it; mapping it without the
  // right to write, or unmapping it, loses it.
  lemma DirectoryKeptOrLost(pd: Frame)
    requires pd < 1023
    ensures DirectoryKept(pd, DirectoryPage(pd), 4096 * pd + WithPresent(6))
    ensures !DirectoryKept(pd, DirectoryPage(pd), 4096 * pd + WithPresent(4))
    ensures !DirectoryKept(pd, DirectoryPage(pd), 0)
  {
  }

  // All translations and the directory they start from.
  datatype View = View(walk: imap<Page, Option<Leaf>>, directory: seq<U32>)

  ghost predicate NoTableIn(view: View, pd: Frame, f: Frame) {
    f != pd && forall n: nat :: n < |view.directory| && Present(view.directory[n]) ==> FrameOf(view.directory[n]) != f
  }

  // The directory entries that hold a page table.
  ghost function TablesIn(view: View): set<nat> {
    set n: nat | n < |view.directory| && Present(view.directory[n])
  }

  // ---------------------------------------------------------------- the machine

  function BootWord(pd: Frame, bt: Frame, contents: (nat, nat) -> U32, f: nat, i: nat): U32 {
    if f == pd then if i == 768 then TableEntry(bt) else 0
    else if f == bt then if i < 1023 then TableEntry(i) else TableEntry(0xB8)
    else contents(f, i)
  }

  class AddressSpace {
    const ram: array2<U32>         // frame, word
    const pmm: FrameAllocator
    const pd: Frame                // frame of boot_page_directory, which cr3 holds
    const bt: Frame                // frame of boot_page_table1
    var tlb: map<Page, Leaf>

    // What boot.S leaves before kernel_main: the boot table maps the first 4 MiB but for its
    // last page, which shows the VGA buffer; directory entry 768 holds that table, entry 0
    // has been cleared, and reloading cr3 has emptied the TLB.
    constructor Boot(pmm: FrameAllocator, pd: Frame, bt: Frame, contents: (nat, nat) -> U32)
      requires pd < 1023 && bt < 1023 && pd != bt
      ensures this.pmm == pmm && this.pd == pd && this.bt == bt && fresh(ram)
      ensures AfterBoot()
    {
      this.pmm, this.pd, this.bt := pmm, pd, bt;
      ram := new U32[0x10_0000, 1024]((f: nat, i: nat) => BootWord(pd, bt, contents, f, i));
      tlb := map[];
    }

    ghost predicate AfterBoot()
      reads this`tlb, ram
    {
      && Sized()
      && pd < 1023 && bt < 1023 && pd != bt
      && (forall n: nat :: n < 1024 ==> Pde(n) == if n == 768 then TableEntry(bt) else 0)
      && (forall i: nat :: i < 1024 ==> ram[bt, i] == TableEntry(if i < 1023 then i else 0xB8))
      && Coherent()
    }

    ghost predicate Sized() {
      ram.Length0 == 0x10_0000 && ram.Length1 == 1024
    }

    function Pde(n: nat): U32
      reads ram
      requires Sized() && n < 1024
    {
      ram[pd, n]
    }

    // The hardware walk of section 4.3 of the Intel SDM, volume 3A, for 4-KByte pages.
    function Walk(p: Page): Option<Leaf>
      reads ram
      requires Sized()
    {
      var pde := Pde(p / 1024);
      if !Present(pde) then None else LeafOf(pde, ram[FrameOf(pde), p % 1024])
    }

    // The frame holds no page table and is not the directory.
    ghost predicate NotTable(f: Frame)
      reads ram
      requires Sized()
    {
      f != pd && forall n: nat :: n < 1024 && Present(Pde(n)) ==> FrameOf(Pde(n)) != f
    }

    // What a frame holds.
    ghost function Content(f: Frame): seq<U32>
      reads ram
      requires Sized()
    {
      seq(1024, (i: nat) requires i < 1024 reads ram => ram[f, i])
    }

    lemma WordsOf()
      requires Sized()
      ensures forall f: Frame :: |Content(f)| == 1024
      ensures forall f: Frame, i: nat :: i < 1024 ==> Content(f)[i] == ram[f, i]
    {
    }

    ghost function Translations(): View
      reads ram
      requires Sized()
    {
      View(imap p: Page | true :: Walk(p), seq(1024, (n: nat) requires n < 1024 reads ram => Pde(n)))
    }

    lemma ViewFacts()
      requires Sized()
      ensures forall p: Page :: p in Translations().walk && Translations().walk[p] == Walk(p)
      ensures forall f: Frame :: NotTable(f) == NoTableIn(Translations(), pd, f)
      ensures Installed() == TablesIn(Translations())
    {
      assert forall n: nat :: n < 1024 ==> Translations().directory[n] == Pde(n);
    }

    ghost function Installed(): set<nat>
      reads ram
      requires Sized()
    {
      set n: nat | n < 1024 && Present(Pde(n))
    }

    lemma NothingWithoutTable(p: Page)
      requires Sized() && p / 1024 !in Installed()
      ensures Walk(p).None?
    {
    }

    // Every cached translation is the one the page tables give now.
    ghost predicate Coherent()
      reads this`tlb, ram
      requires Sized()
    {
      forall p :: p in tlb ==> Walk(p) == Some(tlb[p])
    }

    // The kernel reaches the directory, for writing, by its higher-half address.
    ghost predicate DirectoryMapped()
      reads ram
      requires Sized()
    {
      && pd < 1023
      && Walk(DirectoryPage(pd)).Some? && Walk(DirectoryPage(pd)).value.frame == pd
      && Walk(DirectoryPage(pd)).value.writable
    }

    // Page tables are distinct frames, none of them the directory.
    ghost predicate Separated()
      reads ram
      requires Sized()
    {
      && (forall n: nat :: n < 1024 && Present(Pde(n)) ==> Pde(n) % 4096 == 3)
      && (forall n: nat :: n < 1023 && Present(Pde(n)) ==> FrameOf(Pde(n)) != pd)
      && (forall n: nat, m: nat :: n < m < 1023 && Present(Pde(n)) && Present(Pde(m)) ==>
            FrameOf(Pde(n)) != FrameOf(Pde(m)))
    }

    ghost predicate Tables()
      reads ram
      requires Sized()
    {
      DirectoryMapped() && Separated() && Pde(1023) == TableEntry(pd)
    }

    // The kernel can write the directory, and through the recursive slot every page table.
    ghost predicate Reaches()
      reads ram
      requires Sized()
    {
      DirectoryMapped() && LeadsTo(Pde(RECURSIVE_PD_INDEX), pd)
    }

    lemma TablesReach()
      requires Sized() && Tables()
      ensures Reaches()
    {
      TableEntryFields(pd);
    }

    ghost function Directory(): (dir: seq<U32>)
      reads ram
      requires Sized()
      ensures |dir| == 1024 && forall n: nat :: n < 1024 ==> dir[n] == Pde(n)
    {
      seq(1024, (n: nat) requires n < 1024 reads ram => Pde(n))
    }

    // The word that e, as a table entry, gives for the page of the directory.
    ghost function Back(e: U32): U32
      reads ram
      requires Sized() && pd < 1023
    {
      if FrameOf(e) == pd && pd == 768 then e else ram[FrameOf(e), pd]
    }

    // Directory entry i may become e and leave the tables in shape, or the kernel its access.
    ghost predicate ShapeKept(i: nat, e: int)
      reads ram
      requires Sized() && i < 1024 && pd < 1023
    {
      0 <= e < TWO32 && ShapeWith(Directory(), pd, i, e, Back(e))
    }

    ghost predicate AccessKept(i: nat, e: int)
      reads ram
      requires Sized() && i < 1024 && pd < 1023
    {
      0 <= e < TWO32 && AccessWith(pd, i, e, Back(e))
    }

    lemma SlotSeparated(dir: seq<U32>, i: nat, e: U32)
      requires Sized() && pd < 1023 && |dir| == 1024 && i < 1024
      requires forall n: nat :: n < 1024 ==> Pde(n) == if n == i then e else dir[n]
      requires Distinct(dir, pd)
      ensures i < 1023 ==>
                Separated() == (Present(e) ==>
                  && e % 4096 == 3 && FrameOf(e) != pd
                  && forall n: nat :: n < 1023 && n != i && Present(dir[n]) ==> FrameOf(dir[n]) != FrameOf(e))
      ensures i == 1023 && e % 4096 == 3 ==> Separated()
    {
      hide Present, FrameOf;
      if i < 1023 && Separated() && Present(e) {
        assert Pde(i) == e;
        forall n: nat | n < 1023 && n != i && Present(dir[n]) ensures FrameOf(dir[n]) != FrameOf(e) {
          assert Pde(n) == dir[n];
        }
      }
    }

    // The walk of the directory's page, when entry 768 is e.
    lemma SlotMapped(e: U32)
      requires Sized() && pd < 1023 && Pde(768) == e
      ensures DirectoryMapped() == (Present(e) && Writable(e) && LeadsTo(ram[FrameOf(e), pd], pd))
    {
      hide Present, Writable, User, FrameOf;
      DirectoryAddress(pd, 0);
    }

    // Of a directory that was in shape before entry i became e.
    lemma SlotAfter(dir: seq<U32>, i: nat, e: U32)
      requires Sized() && pd < 1023 && |dir| == 1024 && i < 1024
      requires forall n: nat :: n < 1024 ==> Pde(n) == if n == i then e else dir[n]
      requires Distinct(dir, pd) && dir[RECURSIVE_PD_INDEX] == TableEntry(pd) && Present(dir[768]) && Writable(dir[768])
      requires i != 768 ==> LeadsTo(ram[FrameOf(dir[768]), pd], pd)
      ensures Tables() == ShapeWith(dir, pd, i, e, ram[FrameOf(e), pd])
      ensures Reaches() == AccessWith(pd, i, e, ram[FrameOf(e), pd])
      ensures i != 768 || !Present(e) ==> DirectoryMapped() == (i != 768)
    {
      hide Present, Writable, User, FrameOf, TableEntry, Separated, Distinct, DirectoryMapped;
      TableEntryFields(pd);
      SlotSeparated(dir, i, e);
      SlotMapped(Pde(768));
      if e % 4096 == 3 {
        EntryFields(e);
      }
    }

    // The allocator never hands out a frame that holds a page table.
    ghost predicate TablesNotFree()
      reads ram, pmm, pmm.bitmap
      requires Sized() && pmm.Sized()
    {
      forall n: nat :: n < 1024 && Present(Pde(n)) ==> FrameOf(Pde(n)) !in pmm.Free()
    }

    ghost predicate Valid()
      reads this, ram, pmm, pmm.bitmap
    {
      Sized() && Tables() && Coherent() && pmm.Valid() && TablesNotFree()
    }

    // ---------------------------------------------------------------- hardware accesses

    // The translation an access uses: a cached one first.
    function Translate(p: Page): Option<Leaf>
      reads this`tlb, ram
      requires Sized()
    {
      if p in tlb then Some(tlb[p]) else Walk(p)
    }

    method Load(va: U32) returns (w: U32)
      requires Sized() && Coherent() && va % 4 == 0
      requires Walk(va / 4096).Some?
      modifies this`tlb
      ensures w == ram[Walk(va / 4096).value.frame, va % 4096 / 4]
      ensures Coherent()
    {
      var leaf := Translate(va / 4096).value;
      tlb := tlb[va / 4096 := leaf];
      w := ram[leaf.frame, va % 4096 / 4];
    }

    // Leaves the cache coherent only if the word written translates no cached page.
    method Store(va: U32, w: U32)
      requires Sized() && Coherent() && va % 4 == 0
      requires Walk(va / 4096).Some? && Walk(va / 4096).value.writable
      modifies this`tlb, ram
      ensures tlb == old(tlb)[va / 4096 := old(Walk(va / 4096).value)]
      ensures forall f: Frame, i: nat :: i < 1024 ==>
                ram[f, i] == if f == old(Walk(va / 4096).value.frame) && i == va % 4096 / 4 then w else old(ram[f, i])
    {
      var leaf := Translate(va / 4096).value;
      tlb := tlb[va / 4096 := leaf];
      ram[leaf.frame, va % 4096 / 4] := w;
    }

    method Invlpg(va: U32)
      modifies this`tlb
      ensures tlb == old(tlb) - {va / 4096}
    {
      tlb := tlb - {va / 4096};
    }

    // The processor may cache any translation that exists, at any call boundary.
    method Prefetch(p: Page)
      requires Valid()
      modifies this`tlb
      ensures Valid()
    {
      if Walk(p).Some? {
        tlb := tlb[p := Walk(p).value];
      }
    }

    // ---------------------------------------------------------------- paging_init

    method Init()
      requires AfterBoot() && pmm.Valid() && pd !in pmm.Free() && bt !in pmm.Free()
      modifies this`tlb, ram
      ensures Valid() && Installed() == {768, 1023}
      ensures forall p: Page :: p / 1024 < 1023 ==> Walk(p) == old(Walk(p))
      ensures forall f: Frame, i: nat :: i < 1024 && f != pd ==> ram[f, i] == old(ram[f, i])
    {
      hide Present, Writable, User, FrameOf, TableEntry;
      TableEntryFields(bt);
      TableEntryFields(pd);
      NullEntry();
      DirectoryAddress(pd, RECURSIVE_PD_INDEX);
      Store(DirectoryVa(pd) + 4 * RECURSIVE_PD_INDEX, TableEntry(pd));
      forall n: nat | n < 1024
        ensures Pde(n) == if n == 768 then TableEntry(bt) else if n == 1023 then TableEntry(pd) else 0
      {
        assert Pde(n) == if n == 1023 then TableEntry(pd) else old(Pde(n));
      }
    }

    // Page n of the recursive window shows the frame of directory entry n.
    lemma WindowResolves(n: nat)
      requires Sized() && Tables() && n < 1024 && Present(Pde(n))
      ensures Walk(WindowPage(n)) == Some(Leaf(FrameOf(Pde(n)), true, false))
    {
      hide Present, Writable, User, FrameOf, TableEntry;
      TableEntryFields(pd);
      EntryFields(Pde(n));
      WindowAddress(n, 0);
    }

    // The higher-half address of the directory shows the directory.
    lemma DirectoryResolves()
      requires Sized() && Tables()
      ensures Walk(DirectoryPage(pd)) == Some(Leaf(pd, true, false)) && Present(Pde(768))
    {
      hide Present, Writable, User, FrameOf, TableEntry;
      DirectoryAddress(pd, 0);
      EntryFields(Pde(768));
    }

    // ---------------------------------------------------------------- single writes

    // A write of word i of page table n, by its window address. It changes one translation.
    method StoreInTable(n: nat, i: nat, w: U32)
      requires Sized() && Tables() && Coherent()
      requires n < 1024 && i < 1024 && Present(Pde(n))
      modifies this`tlb, ram
      ensures forall f: Frame, j: nat :: j < 1024 ==>
                ram[f, j] == if f == old(FrameOf(Pde(n))) && j == i then w else old(ram[f, j])
      ensures n < 1023 ==>
                && Tables() == DirectoryMapped() == DirectoryKept(pd, 1024 * n + i, w)
                && (forall m: nat :: m < 1024 ==> Pde(m) == old(Pde(m)))
                && (forall p: Page :: Walk(p) == if p == 1024 * n + i then LeafOf(Pde(n), w) else old(Walk(p)))
                && (forall p :: p in tlb ==> p == WindowPage(n) || p in old(tlb))
                && (forall p :: p in tlb && p != 1024 * n + i ==> Walk(p) == Some(tlb[p]))
    {
      hide Present, Writable, User, FrameOf, TableEntry, LeafOf;
      WindowResolves(n);
      WindowAddress(n, i);
      DirectoryResolves();
      LeafUnderTable(Pde(n), w);
      Store(PageTableVa(n) + 4 * i, w);
      assert n < 1023 ==> forall m: nat :: m < 1024 ==> Pde(m) == old(Pde(m));
      TableEntryFields(pd);
    }

    // Filling an absent directory entry, by the higher-half address of the directory.
    method StoreInDirectory(n: nat, e: U32)
      requires Sized() && Tables() && Coherent()
      requires n < 1024 && !Present(Pde(n))
      modifies this`tlb, ram
      ensures DirectoryMapped() && Pde(1023) == TableEntry(pd)
      ensures forall m: nat :: m < 1024 ==> Pde(m) == if m == n then e else old(Pde(m))
      ensures forall f: Frame, j: nat :: j < 1024 && (f != pd || j != n) ==> ram[f, j] == old(ram[f, j])
      ensures forall p: Page :: p / 1024 != n ==>
                Walk(p) == if p == WindowPage(n) then LeafOf(Pde(1023), e) else old(Walk(p))
      ensures Coherent() && forall p :: p in tlb ==> p / 1024 != n
    {
      hide Present, Writable, User, FrameOf, TableEntry;
      DirectoryResolves();
      DirectoryAddress(pd, n);
      WindowAddress(n, 0);
      TableEntryFields(pd);
      assert Walk(WindowPage(n)) == None;
      Store(DirectoryVa(pd) + 4 * n, e);
    }

    // memset of a new page table through the window, a word at a time.
    method ClearTable(n: nat)
      requires Sized() && Tables() && Coherent()
      requires n < 1023 && n != 768 && Present(Pde(n))
      requires forall p :: p in tlb ==> p / 1024 != n
      modifies this`tlb, ram
      ensures Tables() && Coherent()
      ensures forall m: nat :: m < 1024 ==> Pde(m) == old(Pde(m))
      ensures forall f: Frame, j: nat :: j < 1024 ==>
                ram[f, j] == if f == FrameOf(Pde(n)) then 0 else old(ram[f, j])
      ensures forall p: Page :: Walk(p) == if p / 1024 == n then None else old(Walk(p))
    {
      DirectoryAddress(pd, 0);
      hide Present, Writable, User, FrameOf, TableEntry, LeafOf, Separated, DirectoryMapped, Walk;
      ghost var table := FrameOf(Pde(n));
      var i := 0;
      while i < 1024
        invariant 0 <= i <= 1024
        invariant Tables() && Coherent()
        invariant forall p :: p in tlb ==> p / 1024 != n
        invariant forall m: nat :: m < 1024 ==> Pde(m) == old(Pde(m))
        invariant forall f: Frame, j: nat :: j < 1024 ==>
                    ram[f, j] == if f == table && j < i then 0 else old(ram[f, j])
        invariant forall p: Page :: p / 1024 != n ==> Walk(p) == old(Walk(p))
      {
        WindowAddress(n, 0);
        StoreInTable(n, i, 0);
        i := i + 1;
      }
      forall p: Page | p / 1024 == n ensures Walk(p) == None {
        AbsentEntry(p);
      }
    }

    lemma AbsentEntry(p: Page)
      requires Sized() && ram[FrameOf(Pde(p / 1024)), p % 1024] == 0
      ensures Walk(p) == None
    {
    }

    // The branch of paging_map_page that installs a new table and clears it.
    method InstallTable(n: nat, frame: Frame)
      requires Sized() && Tables() && Coherent()
      requires n < 1024 && !Present(Pde(n)) && NotTable(frame)
      modifies this`tlb, ram
      ensures Tables() && Coherent()
      ensures forall m: nat :: m < 1024 ==> Pde(m) == if m == n then TableEntry(frame) else old(Pde(m))
      ensures forall f: Frame, j: nat :: j < 1024 && f != pd ==>
                ram[f, j] == if f == frame then 0 else old(ram[f, j])
      ensures forall p: Page ::
                Walk(p) == if p == WindowPage(n) then Some(Leaf(frame, true, false)) else old(Walk(p))
    {
      hide Present, Writable, User, FrameOf, TableEntry, LeafOf, Coherent;
      TableEntryFields(frame);
      TableEntryFields(pd);
      assert n != 768 && n != 1023;
      WindowAddress(n, 0);
      forall p: Page | p / 1024 == n ensures Walk(p) == None {
      }
      StoreInDirectory(n, TableEntry(frame));
      ClearTable(n);
      WindowResolves(n);
    }

    // A write of one page-table entry, then invlpg of the page it translates.
    method SetEntry(n: nat, i: nat, w: U32, virt: U32)
      requires Sized() && Tables() && Coherent()
      requires n < 1024 && i < 1024 && Present(Pde(n)) && virt / 4096 == 1024 * n + i
      modifies this`tlb, ram
      ensures forall f: Frame, j: nat :: j < 1024 ==>
                ram[f, j] == if f == old(FrameOf(Pde(n))) && j == i then w else old(ram[f, j])
      ensures n < 1023 ==>
                && Tables() == DirectoryMapped() == DirectoryKept(pd, virt / 4096, w) && Coherent()
                && (forall m: nat :: m < 1024 ==> Pde(m) == old(Pde(m)))
                && (forall p: Page :: Walk(p) == if p == virt / 4096 then LeafOf(Pde(n), w) else old(Walk(p)))
      ensures n == RECURSIVE_PD_INDEX ==>
                && Tables() == old(ShapeKept(i, w)) && Reaches() == old(AccessKept(i, w))
                && (i != 768 || !Present(w) ==> DirectoryMapped() == (i != 768))
    {
      hide Present, Writable, User, FrameOf, TableEntry, LeafOf, Walk, Distinct, ShapeWith, AccessWith, DirectoryMapped,
        Reaches;
      DirectoryShape(Directory());
      ghost var dir, back := Directory(), Back(w);
      DirectoryAddress(pd, 0);
      TableEntryFields(pd);
      StoreInTable(n, i, w);
      if n == RECURSIVE_PD_INDEX {
        SlotAfter(dir, i, w);
        OnlyKernelTableShowsIt(dir, pd, i, w, back, ram[FrameOf(w), pd]);
      }
      Invlpg(virt);
    }

    lemma DirectoryShape(dir: seq<U32>)
      requires Sized() && Tables() && dir == Directory()
      ensures pd < 1023 && Distinct(dir, pd) && dir[RECURSIVE_PD_INDEX] == TableEntry(pd)
      ensures Present(dir[768]) && Writable(dir[768]) && LeadsTo(ram[FrameOf(dir[768]), pd], pd)
      ensures FrameOf(dir[768]) != pd
    {
      DirectoryAddress(pd, 0);
      EntryFields(Pde(768));
    }

    // The frame of the next new page table.
    ghost function NextTable(): nat
      reads pmm, pmm.bitmap
      requires pmm.Sized()
    {
      LeastFree(pmm.Free())
    }

    // A frame is taken for the new table, if there is one, and installed.
    method AddTable(n: nat) returns (ok: bool)
      requires Valid() && n < 1024 && !Present(Pde(n))
      modifies this`tlb, ram, pmm`usedCount, pmm`held, pmm.bitmap
      ensures Valid() && pmm.Reserved() == old(pmm.Reserved())
      ensures ok == (old(NextTable()) != 0) && (ok ==> Present(Pde(n)))
      ensures pmm.State() == Apply(old(pmm.State()), Take)
      ensures forall m: nat :: m < 1024 ==>
                Pde(m) == if ok && m == n then TableEntry(old(NextTable())) else old(Pde(m))
      ensures forall f: Frame, i: nat :: i < 1024 && (!ok || NotTable(f)) ==> ram[f, i] == old(ram[f, i])
      ensures forall p: Page ::
                Walk(p) == if ok && p == WindowPage(n) then Some(Leaf(old(NextTable()), true, false)) else old(Walk(p))
    {
      hide Present, Writable, User, FrameOf, TableEntry, LeafOf, Walk, Separated, Coherent, LeastFree;
      TableEntryFields(pd);
      var newPt := pmm.AllocFrame();
      if newPt == 0 {
        return false;
      }
      TableEntryFields(newPt / 4096);
      assert NotTable(newPt / 4096);
      InstallTable(n, newPt / 4096);
      ok := true;
    }

    // The first half of paging_map_page: directory entry n is present afterwards, unless a
    // new table is needed and no frame is left.
    method EnsureTable(n: nat) returns (ok: bool)
      requires Valid() && n < 1024
      modifies this`tlb, ram, pmm`usedCount, pmm`held, pmm.bitmap
      ensures Valid() && pmm.Reserved() == old(pmm.Reserved())
      ensures ok == (old(Present(Pde(n))) || old(NextTable()) != 0) && (ok ==> Present(Pde(n)))
      ensures pmm.State() == if old(Present(Pde(n))) then old(pmm.State()) else Apply(old(pmm.State()), Take)
      ensures forall m: nat :: m < 1024 ==>
                Pde(m) == if ok && m == n && old(!Present(Pde(n))) then TableEntry(old(NextTable())) else old(Pde(m))
      ensures forall f: Frame, i: nat :: i < 1024 && (!ok || NotTable(f) || old(Present(Pde(n)))) ==>
                ram[f, i] == old(ram[f, i])
      ensures forall p: Page ::
                Walk(p) == if ok && old(!Present(Pde(n))) && p == WindowPage(n)
                           then Some(Leaf(old(NextTable()), true, false)) else old(Walk(p))
    {
      hide Present, Writable, User, FrameOf, TableEntry, LeafOf, Walk, Separated, Coherent, LeastFree, NotTable;
      DirectoryResolves();
      DirectoryAddress(pd, n);
      var pde := Load(DirectoryVa(pd) + 4 * n);
      if Present(pde) {
        return true;
      }
      ok := AddTable(n);
    }

    // ---------------------------------------------------------------- the interface

    // One page changes its translation, whether or not a table had to be installed; a new
    // table also appears as one page of the recursive window. A failure changes nothing.
    // Mapping a page of the window writes a directory entry.
    method MapPage(virt: U32, phys: U32, flags: U32) returns (ok: bool)
      requires Valid() && flags < 0x1000
      modifies this`tlb, ram, pmm`usedCount, pmm`held, pmm.bitmap
      ensures ok == (phys % 4096 == 0 && (virt / 0x40_0000 in old(Installed()) || old(NextTable()) != 0))
      ensures pmm.Valid() && pmm.Reserved() == old(pmm.Reserved())
      ensures pmm.State() == if ok && virt / 0x40_0000 !in old(Installed()) then Apply(old(pmm.State()), Take)
                             else old(pmm.State())
      ensures virt < RECURSIVE_PT_BASE ==>
                && DirectoryMapped() == (ok ==> DirectoryKept(pd, virt / 4096, phys + WithPresent(flags)))
                && Valid() == DirectoryMapped() && Coherent()
                && Installed() == (if ok then old(Installed()) + {virt / 0x40_0000} else old(Installed()))
                && (forall n: nat :: n < 1024 ==>
                      Pde(n) == if ok && n == virt / 0x40_0000 && old(!Present(Pde(n)))
                                then TableEntry(old(NextTable())) else old(Pde(n)))
                && (forall f: Frame, i: nat :: i < 1024 && (!ok || NotTable(f)) ==> ram[f, i] == old(ram[f, i]))
                && (forall p: Page ::
                      Walk(p) == if ok && p == virt / 4096 then Some(Leaf(phys / 4096, Writable(flags), false))
                                 else if ok && old(!Present(Pde(virt / 0x40_0000))) && p == WindowPage(virt / 0x40_0000)
                                 then Some(Leaf(old(NextTable()), true, false))
                                 else old(Walk(p)))
      ensures virt >= RECURSIVE_PT_BASE ==>
                && Tables() == (ok ==> old(ShapeKept(virt / 4096 % 1024, phys + WithPresent(flags))))
                && Reaches() == (ok ==> old(AccessKept(virt / 4096 % 1024, phys + WithPresent(flags))))
                && forall f: Frame, i: nat :: i < 1024 ==>
                     ram[f, i] == if ok && f == pd && i == virt / 4096 % 1024 then phys + WithPresent(flags)
                                  else old(ram[f, i])
    {
      hide Present, Writable, User, FrameOf, TableEntry, Walk, Coherent, LeastFree, Separated;
      PageIndices(virt);
      var pdeIdx, pteIdx := virt / 0x40_0000, virt / 4096 % 1024;
      TablesReach();
      if phys % 4096 != 0 {
        return false;
      }
      TableEntryFields(pd);
      ok := EnsureTable(pdeIdx);
      if !ok {
        TablesReach();
        return;
      }
      PageEntryFields(phys, flags);
      PresentTable(pdeIdx);
      WindowAddress(pdeIdx, 0);
      SetEntry(pdeIdx, pteIdx, phys + WithPresent(flags), virt);
    }

    lemma PresentTable(n: nat)
      requires Sized() && Separated() && n < 1024 && Present(Pde(n))
      ensures Writable(Pde(n)) && !User(Pde(n)) && !NotTable(FrameOf(Pde(n)))
    {
      EntryFields(Pde(n));
    }

    // A page of the recursive window is a page table: unmapping it clears a directory entry,
    // and 4 MiB lose their translations.
    method UnmapPage(virt: U32)
      requires Valid()
      modifies this`tlb, ram
      ensures virt < RECURSIVE_PT_BASE ==>
                && Valid() == DirectoryMapped() && Coherent()
                && (forall p: Page :: Walk(p) == if p == virt / 4096 then None else old(Walk(p)))
                && (forall n: nat :: n < 1024 ==> Pde(n) == old(Pde(n)))
                && Installed() == old(Installed()) && (forall f: Frame :: NotTable(f) == old(NotTable(f)))
                && (forall f: Frame, i: nat :: i < 1024 && NotTable(f) ==> ram[f, i] == old(ram[f, i]))
      ensures virt >= RECURSIVE_PT_BASE ==>
                && (forall f: Frame, i: nat :: i < 1024 ==>
                      ram[f, i] == if f == pd && i == virt / 4096 % 1024 then 0 else old(ram[f, i]))
                && (forall p: Page :: p / 1024 == virt / 4096 % 1024 ==> Walk(p) == None)
      ensures DirectoryMapped() == (virt / 4096 != DirectoryPage(pd) && virt / 4096 != WindowPage(768))
      ensures Tables() == Reaches() == (virt / 4096 != DirectoryPage(pd) && virt / 4096 != WindowPage(768)
                                        && virt / 4096 != WindowPage(RECURSIVE_PD_INDEX))
    {
      hide Present, Writable, User, FrameOf, TableEntry, Coherent, Separated;
      PageIndices(virt);
      var pdeIdx, pteIdx := virt / 0x40_0000, virt / 4096 % 1024;
      DirectoryResolves();
      DirectoryAddress(pd, pdeIdx);
      NullEntry();
      TableEntryFields(pd);
      var pde := Load(DirectoryVa(pd) + 4 * pdeIdx);
      if !Present(pde) {
        return;
      }
      SetEntry(pdeIdx, pteIdx, 0, virt);
    }

    // The answer is the walk's, on every address, the recursive window included.
    method GetPhysical(virt: U32) returns (phys: U32)
      requires Valid()
      modifies this`tlb
      ensures Valid()
      ensures phys == match Walk(virt / 4096) case None => 0 case Some(leaf) => 4096 * leaf.frame
    {
      hide Writable, User, TableEntry, Coherent, Separated;
      PageIndices(virt);
      var pdeIdx, pteIdx := virt / 0x40_0000, virt / 4096 % 1024;
      DirectoryResolves();
      DirectoryAddress(pd, pdeIdx);
      var pde := Load(DirectoryVa(pd) + 4 * pdeIdx);
      if !Present(pde) {
        return 0;
      }
      WindowResolves(pdeIdx);
      WindowAddress(pdeIdx, pteIdx);
      var entry := Load(PageTableVa(pdeIdx) + 4 * pteIdx);
      if !Present(entry) {
        return 0;
      }
      phys := entry - entry % 4096;
    }

    // A store to a frame that holds no page table leaves every entry ...
    method StoreBesideTables(va: U32, w: U32)
      requires Sized() && Coherent() && va % 4 == 0
      requires Walk(va / 4096).Some? && Walk(va / 4096).value.writable && NotTable(Walk(va / 4096).value.frame)
      modifies this`tlb, ram
      ensures Coherent()
      ensures forall n: nat :: n < 1024 ==> Pde(n) == old(Pde(n))
      ensures forall p: Page :: Walk(p) == old(Walk(p))
      ensures forall f: Frame, i: nat :: i < 1024 ==>
                ram[f, i] == if f == old(Walk(va / 4096).value.frame) && i == va % 4096 / 4 then w else old(ram[f, i])
    {
      hide Present, Writable, User, FrameOf, TableEntry, LeafOf;
      Store(va, w);
      assert forall n: nat :: n < 1024 ==> Pde(n) == old(Pde(n));
      assert forall p: Page :: Walk(p) == old(Walk(p));
    }

    // ... and so every translation.
    method StoreData(va: U32, w: U32)
      requires Valid() && va % 4 == 0
      requires Walk(va / 4096).Some? && Walk(va / 4096).value.writable && NotTable(Walk(va / 4096).value.frame)
      modifies this`tlb, ram
      ensures Valid() && Translations() == old(Translations())
      ensures forall n: nat :: n < 1024 ==> Pde(n) == old(Pde(n))
      ensures Installed() == old(Installed()) && forall f: Frame :: NotTable(f) == old(NotTable(f))
      ensures forall p: Page :: Walk(p) == old(Walk(p))
      ensures forall f: Frame, i: nat :: i < 1024 ==>
                ram[f, i] == if f == old(Walk(va / 4096).value.frame) && i == va % 4096 / 4 then w else old(ram[f, i])
    {
      hide Present, Writable, User, FrameOf, TableEntry, Walk, Pde, Coherent;
      StoreBesideTables(va, w);
    }
  }
}
