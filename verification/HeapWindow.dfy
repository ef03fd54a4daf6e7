// The virtual window of the kernel heap: the words that the heap sees from KHEAP_START up,
// each stored in physical memory behind the page tables.

module HeapWindow {
  import opened Common
  import opened HeapModel
  import opened Pmm
  import opened Paging
  import opened Growth

  lemma SlotsDiffer(a: int, b: int)
    requires a % 4 == 0 && b % 4 == 0 && a != b
    ensures a / 4096 != b / 4096 || a % 4096 / 4 != b % 4096 / 4
  {
    SlotOf(a);
    SlotOf(b);
  }

  lemma SlotOf(a: int)
    requires a % 4 == 0
    ensures a == 4096 * (a / 4096) + 4 * (a % 4096 / 4)
  {
    var q, r, m := a / 4096, a % 4096, a / 4;
    assert a == 4096 * q + r && a == 4 * m;
    FourTimes(r, m - 1024 * q);
  }

  lemma FourTimes(r: int, k: int)
    requires r == 4 * k
    ensures 4 * (r / 4) == r
  {
  }

  // A byte store of 0 or 1 into the low byte of a word.
  function WithFlag(w: U32, flag: bool): U32 {
    w - w % 256 + if flag then 1 else 0
  }

  predicate Flag(w: U32) {
    w % 256 != 0
  }

  // Byte k of a word, as an i386 byte access at offset k finds it.
  function ByteOf(w: U32, k: nat): Byte
    requires k < 4
  {
    match k
    case 0 => w % 256
    case 1 => w / 256 % 256
    case 2 => w / 0x1_0000 % 256
    case _ => w / 0x100_0000
  }

  function OfBytes(a: Byte, b: Byte, c: Byte, d: Byte): U32 {
    a + 256 * b + 0x1_0000 * c + 0x100_0000 * d
  }

  function WithByte(w: U32, k: nat, b: Byte): U32
    requires k < 4
  {
    OfBytes(if k == 0 then b else ByteOf(w, 0), if k == 1 then b else ByteOf(w, 1),
            if k == 2 then b else ByteOf(w, 2), if k == 3 then b else ByteOf(w, 3))
  }

  lemma BytesOf(a: Byte, b: Byte, c: Byte, d: Byte)
    ensures var w := OfBytes(a, b, c, d);
            ByteOf(w, 0) == a && ByteOf(w, 1) == b && ByteOf(w, 2) == c && ByteOf(w, 3) == d
  {
    var w := OfBytes(a, b, c, d);
    var high := b + 256 * c + 0x1_0000 * d;
    assert w == a + 256 * high && w / 256 == high;
    var top := c + 256 * d;
    assert high == b + 256 * top && w == a + 256 * b + 0x1_0000 * top;
  }

  // A byte store changes its byte and no other.
  lemma ByteStored(w: U32, k: nat, b: Byte, j: nat)
    requires k < 4 && j < 4
    ensures ByteOf(WithByte(w, k, b), j) == if j == k then b else ByteOf(w, j)
  {
    BytesOf(if k == 0 then b else ByteOf(w, 0), if k == 1 then b else ByteOf(w, 1),
            if k == 2 then b else ByteOf(w, 2), if k == 3 then b else ByteOf(w, 3));
    hide ByteOf, OfBytes;
  }

  predicate Within(p: int, top: int) {
    FIRST_PAGE <= p && 4096 * p < top
  }

  lemma WithinNext(top: int)
    requires KHEAP_START <= top && top % 4096 == 0
    ensures forall p :: Within(p, top + 4096) <==> Within(p, top) || p == top / 4096
  {
  }

  // The pages of the 16 MiB that the heap may ever use.
  predicate HeapPage(p: int) {
    FIRST_PAGE <= p < FIRST_PAGE + 4096
  }

  // All translations, and what the frames hold that show through no heap page.
  datatype Outer = Outer(view: View, others: imap<Frame, seq<U32>>)

  // What the rest of the kernel can tell of an operation of the heap: the frames reserved at
  // boot, the frames held, the free ones, all translations, what the frames hold that show
  // through no heap page, and the end of the mapped heap.
  datatype World = World(reserved: set<nat>, held: set<nat>, free: set<nat>, view: View,
                         others: imap<Frame, seq<U32>>, top: int)

  ghost function SupplyIn(w: World): Supply {
    Supply(w.free, TablesIn(w.view), if w.top < 0 then 0 else w.top / 4096)
  }

  ghost predicate ShowsOutside(w: World, f: Frame) {
    forall p: Page :: Within(p, w.top) && p in w.view.walk ==> w.view.walk[p].None? || w.view.walk[p].value.frame != f
  }

  // Nothing outside the heap is disturbed: reserved frames stay reserved, held frames stay
  // held, come into no page table and no heap page and keep their words, and no translation
  // changes but in the pages of the heap and in the recursive window.
  ghost predicate Confined(v: World, w: World, pd: Frame) {
    && v.reserved == w.reserved && v.held <= w.held
    && (forall p: Page :: p < 0xF_FC00 && !HeapPage(p) && p in v.view.walk ==>
          p in w.view.walk && w.view.walk[p] == v.view.walk[p])
    && (forall f: Frame :: f in v.held && NoTableIn(v.view, pd, f) ==> NoTableIn(w.view, pd, f))
    && (forall f: Frame :: f in v.held && ShowsOutside(v, f) ==> ShowsOutside(w, f))
    && (forall f: Frame :: f in v.held && NoTableIn(v.view, pd, f) && f in v.others ==>
          f in w.others && w.others[f] == v.others[f])
  }

  lemma ConfinedIsTransitive(u: World, v: World, w: World, pd: Frame)
    requires Confined(u, v, pd) && Confined(v, w, pd)
    ensures Confined(u, w, pd)
  {
    hide NoTableIn, ShowsOutside;
  }

  lemma RetreatIsConfined(v: World, w: World, pd: Frame)
    requires w == v.(top := w.top, others := w.others) && w.top <= v.top
    requires forall f: Frame :: f in v.others ==> f in w.others && w.others[f] == v.others[f]
    ensures Confined(v, w, pd)
  {
    hide NoTableIn;
  }

  lemma ConfinedIsReflexive(w: World, pd: Frame)
    ensures Confined(w, w, pd)
  {
    hide NoTableIn, ShowsOutside;
  }

  // The map holds the word addresses from `lo` to `hi`.
  ghost predicate Spans(words: map<int, U32>, lo: int, hi: int) {
    forall a: int :: a in words <==> lo <= a < hi && a % 4 == 0
  }

  // What was there is still there.
  ghost predicate Carried(m: map<int, U32>, n: map<int, U32>) {
    forall a :: a in m ==> a in n && n[a] == m[a]
  }

  lemma CarriedAtStart(m: map<int, U32>)
    ensures Carried(m, m)
  {
  }

  lemma CarriedOn(m: map<int, U32>, n: map<int, U32>, o: map<int, U32>)
    requires Carried(m, n) && Carried(n, o)
    ensures Carried(m, o)
  {
  }

  lemma SpansJoin(a: map<int, U32>, b: map<int, U32>, lo: int, mid: int, hi: int)
    requires Spans(a, lo, mid) && Spans(b, mid, hi) && lo <= mid <= hi
    ensures Spans(a + b, lo, hi)
    ensures forall k :: k in a + b <==> k in a || k in b
    ensures forall k :: k in a ==> k !in b
  {
  }

  class Window {
    const mmu: AddressSpace
    ghost var top: int                // end of the mapped pages
    ghost var words: map<int, U32>    // what the heap reads at each word address

    ghost function PageFrame(p: Page): Frame
      reads mmu.ram
      requires mmu.Sized()
    {
      match mmu.Walk(p) case Some(leaf) => leaf.frame case None => 0
    }

    // The page is mapped writable, to a frame that came from the allocator and holds no
    // page table.
    ghost predicate Owned(p: Page)
      reads mmu.ram, mmu.pmm
      requires mmu.Sized()
    {
      && mmu.Walk(p).Some? && mmu.Walk(p).value.writable
      && PageFrame(p) in mmu.pmm.held && mmu.NotTable(PageFrame(p))
    }

    ghost predicate InWindow(p: int)
      reads this`top
    {
      Within(p, top)
    }

    ghost predicate PagesOwned()
      reads this`top, mmu.ram, mmu.pmm
      requires mmu.Sized()
    {
      forall p: Page :: InWindow(p) ==> Owned(p)
    }

    ghost predicate FramesDistinct()
      reads this`top, mmu.ram
      requires mmu.Sized()
    {
      forall p: Page, q: Page :: InWindow(p) && InWindow(q) && p != q ==> PageFrame(p) != PageFrame(q)
    }

    // The word that the processor finds at a mapped address.
    ghost function Memory(a: int): U32
      reads mmu.ram
      requires mmu.Sized()
    {
      mmu.ram[PageFrame(PageOf(a)), a % 4096 / 4]
    }

    ghost function PageWords(from: int): (page: map<int, U32>)
      reads mmu.ram
      requires mmu.Sized()
      ensures Spans(page, from, from + 4096) && forall a :: a in page ==> page[a] == Memory(a)
    {
      map a: int | from <= a < from + 4096 && a % 4 == 0 :: Memory(a)
    }

    ghost predicate Mirrors()
      reads this, mmu.ram
      requires mmu.Sized()
    {
      && Spans(words, KHEAP_START, top)
      && (forall a: int :: a in words ==> words[a] == Memory(a))
    }

    ghost function PageOf(a: int): Page {
      if 0 <= a < TWO32 then a / 4096 else 0
    }

    ghost predicate Valid()
      reads this, mmu, mmu.ram, mmu.pmm, mmu.pmm.bitmap
    {
      && mmu.Valid()
      && KHEAP_START <= top <= LIMIT && top % 4096 == 0
      && PagesOwned() && FramesDistinct() && Mirrors()
    }

    constructor (mmu: AddressSpace)
      requires mmu.Valid()
      ensures this.mmu == mmu && top == KHEAP_START && Valid()
    {
      this.mmu := mmu;
      top, words := KHEAP_START, map[];
    }

    lemma WordResolves(a: int)
      requires Valid() && a in words
      ensures KHEAP_START <= a < top && a % 4 == 0 && InWindow(PageOf(a)) && Owned(PageOf(a))
    {
    }

    lemma TopBound()
      requires Valid()
      ensures KHEAP_START <= top <= LIMIT
    {
    }

    lemma WordsBelowTop()
      requires Valid()
      ensures forall a :: a in words ==> a < top
    {
    }

    lemma Domain(a: int)
      requires Valid()
      ensures a in words <==> KHEAP_START <= a < top && a % 4 == 0
    {
    }

    method Load(va: U32) returns (w: U32)
      requires Valid() && va in words
      modifies mmu`tlb
      ensures Valid() && w == words[va]
    {
      WordResolves(va);
      w := mmu.Load(va);
    }

    // The store, word by word and frame by frame.
    method StoreWord(va: U32, w: U32)
      requires Valid() && va in words
      modifies mmu`tlb, mmu.ram, this`words
      ensures Valid() && words == old(words)[va := w] && mmu.Translations() == old(mmu.Translations())
      ensures forall p: Page :: mmu.Walk(p) == old(mmu.Walk(p))
      ensures forall f: Frame, i: nat :: i < 1024 && f != PageFrame(PageOf(va)) ==> mmu.ram[f, i] == old(mmu.ram[f, i])
      ensures InWindow(PageOf(va))
    {
      hide AddressSpace.Walk, AddressSpace.Tables, AddressSpace.Coherent, AddressSpace.TablesNotFree,
        FrameAllocator.Valid, AddressSpace.Translations, AddressSpace.Installed, AddressSpace.NotTable;
      WordResolves(va);
      mmu.StoreData(va, w);
      words := words[va := w];
      forall a: int | a in words ensures words[a] == Memory(a) {
        if a != va {
          SlotsDiffer(a, va);
        }
      }
    }

    method Store(va: U32, w: U32)
      requires Valid() && va in words
      modifies mmu`tlb, mmu.ram, this`words
      ensures Valid() && words == old(words)[va := w] && Outside() == old(Outside())
    {
      hide PagesOwned, FramesDistinct, Mirrors, AddressSpace.Walk, AddressSpace.Tables, AddressSpace.Coherent,
        AddressSpace.TablesNotFree, FrameAllocator.Valid, AddressSpace.Translations, AddressSpace.Content, Others,
        Within;
      OthersAre();
      mmu.WordsOf();
      StoreWord(va, w);
      OthersAre();
      mmu.WordsOf();
      assert forall p: Page :: PageFrame(p) == old(PageFrame(p));
      forall f: Frame | NotInHeap(f) ensures mmu.Content(f) == old(mmu.Content(f)) {
        assert f != PageFrame(PageOf(va));
      }
      assert Others() == old(Others());
    }

    method StoreFlag(va: U32, flag: bool)
      requires Valid() && va in words
      modifies mmu`tlb, mmu.ram, this`words
      ensures Valid() && words == old(words)[va := WithFlag(old(words[va]), flag)]
      ensures Outside() == old(Outside())
    {
      hide Valid;
      var w := Load(va);
      Store(va, WithFlag(w, flag));
    }

    // The frame shows through no page of the window.
    ghost predicate NotInHeap(f: Frame)
      reads this`top, mmu.ram
      requires mmu.Sized()
    {
      forall p: Page :: InWindow(p) ==> PageFrame(p) != f
    }

    ghost function Others(): imap<Frame, seq<U32>>
      reads this`top, mmu.ram
      requires mmu.Sized()
    {
      imap f: Frame | NotInHeap(f) :: mmu.Content(f)
    }

    ghost function Outside(): Outer
      reads this`top, mmu.ram
      requires mmu.Sized()
    {
      Outer(mmu.Translations(), Others())
    }

    lemma OthersAre()
      requires mmu.Sized()
      ensures forall f: Frame :: f in Others() <==> NotInHeap(f)
      ensures forall f: Frame :: f in Others() ==> Others()[f] == mmu.Content(f)
    {
      hide NotInHeap, AddressSpace.Content;
    }

    ghost function Snapshot(): World
      reads this`top, mmu.ram, mmu.pmm, mmu.pmm.bitmap
      requires mmu.Sized() && mmu.pmm.Sized()
    {
      World(mmu.pmm.Reserved(), mmu.pmm.held, mmu.pmm.Free(), mmu.Translations(), Others(), top)
    }

    lemma NotInHeapIsOutside(f: Frame)
      requires Valid()
      ensures NotInHeap(f) == ShowsOutside(Snapshot(), f)
    {
      mmu.ViewFacts();
      if NotInHeap(f) {
        forall p: Page | Within(p, top)
          ensures mmu.Walk(p).None? || mmu.Walk(p).value.frame != f
        {
          assert InWindow(p);
        }
      } else {
        var p: Page :| InWindow(p) && PageFrame(p) == f;
        assert Owned(p);
      }
    }

    // The pages of the window stay as they are and keep their words.
    method MapBeside(virt: U32, phys: U32, flags: U32) returns (ok: bool)
      requires Valid() && !InWindow(virt / 4096)
      requires virt < RECURSIVE_PT_BASE && flags < 0x1000
      requires DirectoryKept(mmu.pd, virt / 4096, phys + WithPresent(flags))
      modifies mmu`tlb, mmu.ram, mmu.pmm`usedCount, mmu.pmm`held, mmu.pmm.bitmap
      ensures mmu.Valid() && PagesOwned() && FramesDistinct() && mmu.pmm.Reserved() == old(mmu.pmm.Reserved())
      ensures old(mmu.pmm.held) <= mmu.pmm.held
      ensures forall p: Page, i: nat :: InWindow(p) && i < 1024 ==>
                PageFrame(p) == old(PageFrame(p)) && mmu.ram[PageFrame(p), i] == old(mmu.ram[PageFrame(p), i])
      ensures forall p: Page :: p < 0xF_FC00 ==>
                mmu.Walk(p) == if ok && p == virt / 4096 then Some(Leaf(phys / 4096, Writable(flags), false))
                               else old(mmu.Walk(p))
      ensures forall f: Frame :: f in old(mmu.pmm.held) ==> mmu.NotTable(f) == old(mmu.NotTable(f))
      ensures forall f: Frame :: f in old(mmu.pmm.held) && old(mmu.NotTable(f)) ==>
                mmu.Content(f) == old(mmu.Content(f))
      ensures forall f: Frame :: old(NotInHeap(f)) ==> NotInHeap(f)
      ensures ok == (phys % 4096 == 0 && (virt / 0x40_0000 in old(mmu.Installed()) || old(mmu.NextTable()) != 0))
      ensures mmu.Installed() == if ok then old(mmu.Installed()) + {virt / 0x40_0000} else old(mmu.Installed())
      ensures mmu.pmm.State()
              == if ok && virt / 0x40_0000 !in old(mmu.Installed()) then Apply(old(mmu.pmm.State()), Take)
                 else old(mmu.pmm.State())
    {
      hide AddressSpace.Walk, AddressSpace.Separated, AddressSpace.Coherent, LeastFree, AddressSpace.Installed,
        Present, Writable, FrameOf, TableEntry, Mirrors, AddressSpace.Content, DirectoryKept,
        AddressSpace.DirectoryMapped;
      ghost var next := mmu.NextTable();
      mmu.WordsOf();
      mmu.pmm.HeldNotFree();
      if next < 0x10_0000 {
        TableEntryFields(next);
      }
      ok := mmu.MapPage(virt, phys, flags);
      mmu.WordsOf();
      forall p: Page | InWindow(p) ensures PageFrame(p) == old(PageFrame(p)) && Owned(p) {
      }
    }

    // A page mapped anywhere but in the window leaves the heap as it was.
    method MapElsewhere(virt: U32, phys: U32, flags: U32) returns (ok: bool)
      requires Valid() && !InWindow(virt / 4096)
      requires virt < RECURSIVE_PT_BASE && flags < 0x1000
      requires DirectoryKept(mmu.pd, virt / 4096, phys + WithPresent(flags))
      modifies mmu`tlb, mmu.ram, mmu.pmm`usedCount, mmu.pmm`held, mmu.pmm.bitmap
      ensures Valid() && mmu.pmm.Reserved() == old(mmu.pmm.Reserved())
      ensures old(mmu.pmm.held) <= mmu.pmm.held
      ensures forall p: Page :: p < 0xF_FC00 ==>
                mmu.Walk(p) == if ok && p == virt / 4096 then Some(Leaf(phys / 4096, Writable(flags), false))
                               else old(mmu.Walk(p))
      ensures forall f: Frame :: f in old(mmu.pmm.held) ==> mmu.NotTable(f) == old(mmu.NotTable(f))
      ensures forall f: Frame :: f in old(mmu.pmm.held) && old(mmu.NotTable(f)) ==>
                mmu.Content(f) == old(mmu.Content(f))
      ensures forall f: Frame :: old(NotInHeap(f)) ==> NotInHeap(f)
      ensures ok == (phys % 4096 == 0 && (virt / 0x40_0000 in old(mmu.Installed()) || old(mmu.NextTable()) != 0))
      ensures mmu.Installed() == if ok then old(mmu.Installed()) + {virt / 0x40_0000} else old(mmu.Installed())
      ensures mmu.pmm.State()
              == if ok && virt / 0x40_0000 !in old(mmu.Installed()) then Apply(old(mmu.pmm.State()), Take)
                 else old(mmu.pmm.State())
    {
      assert mmu.Sized() && mmu.pmm.Sized() && mmu.pd < 1023;
      hide AddressSpace.Content, AddressSpace.Walk, AddressSpace.Valid, AddressSpace.Installed,
        AddressSpace.Translations,
        FrameAllocator.Free, FrameAllocator.Used, Present, Writable, LeastFree, PagesOwned, FramesDistinct;
      ok := MapBeside(virt, phys, flags);
      forall a: int | a in words ensures words[a] == Memory(a) {
        hide AddressSpace.NotTable;
        assert InWindow(PageOf(a));
      }
    }

    method UnmapElsewhere(virt: U32)
      requires Valid() && !InWindow(virt / 4096)
      requires virt < RECURSIVE_PT_BASE && virt / 4096 != DirectoryPage(mmu.pd)
      modifies mmu`tlb, mmu.ram
      ensures Valid()
      ensures forall p: Page :: mmu.Walk(p) == if p == virt / 4096 then None else old(mmu.Walk(p))
      ensures mmu.Installed() == old(mmu.Installed())
      ensures forall f: Frame :: mmu.NotTable(f) ==> mmu.Content(f) == old(mmu.Content(f))
      ensures forall f: Frame :: mmu.NotTable(f) == old(mmu.NotTable(f)) && (old(NotInHeap(f)) ==> NotInHeap(f))
    {
      hide AddressSpace.Content, AddressSpace.Walk, AddressSpace.Separated, AddressSpace.Coherent, FrameAllocator.Valid;
      mmu.WordsOf();
      mmu.UnmapPage(virt);
      mmu.WordsOf();
      assert PagesOwned() && FramesDistinct();
      forall a: int | a in words ensures words[a] == Memory(a) {
        assert InWindow(PageOf(a)) && Owned(PageOf(a));
      }
    }

    // A store to a frame that is neither the heap's nor a page table's.
    method StoreElsewhere(virt: U32, w: U32)
      requires Valid() && virt % 4 == 0
      requires mmu.Walk(virt / 4096).Some? && mmu.Walk(virt / 4096).value.writable
      requires mmu.NotTable(mmu.Walk(virt / 4096).value.frame) && NotInHeap(mmu.Walk(virt / 4096).value.frame)
      modifies mmu`tlb, mmu.ram
      ensures Valid() && mmu.Installed() == old(mmu.Installed())
      ensures forall p: Page :: mmu.Walk(p) == old(mmu.Walk(p))
      ensures forall f: Frame :: mmu.NotTable(f) == old(mmu.NotTable(f)) && NotInHeap(f) == old(NotInHeap(f))
      ensures forall f: Frame ::
                mmu.Content(f) == if f == old(mmu.Walk(virt / 4096).value.frame)
                                  then old(mmu.Content(f))[virt % 4096 / 4 := w] else old(mmu.Content(f))
    {
      hide AddressSpace.Content, AddressSpace.Walk, AddressSpace.Tables, AddressSpace.Coherent,
        AddressSpace.TablesNotFree, AddressSpace.Translations, AddressSpace.Installed, AddressSpace.NotTable,
        FrameAllocator.Valid;
      mmu.WordsOf();
      mmu.StoreData(virt, w);
      mmu.WordsOf();
      assert forall p: Page :: PageFrame(p) == old(PageFrame(p));
      assert PagesOwned() && FramesDistinct();
      forall f: Frame
        ensures mmu.Content(f) == if f == old(mmu.Walk(virt / 4096).value.frame)
                                  then old(mmu.Content(f))[virt % 4096 / 4 := w] else old(mmu.Content(f))
      {
      }
      forall a: int | a in words ensures words[a] == Memory(a) {
        assert InWindow(PageOf(a)) && Owned(PageOf(a));
      }
    }

    // The next page joins the window.
    ghost method Advance()
      requires Valid() && top + 4096 <= LIMIT && Owned(top / 4096)
      requires forall p: Page :: InWindow(p) ==> PageFrame(p) != PageFrame(top / 4096)
      modifies this
      ensures Valid() && top == old(top) + 4096
      ensures forall p: Page :: InWindow(p) ==> old(InWindow(p)) || p == old(top) / 4096
      ensures Carried(old(words), words)
    {
      hide AddressSpace.Walk, AddressSpace.Coherent, AddressSpace.Tables, AddressSpace.TablesNotFree,
        FrameAllocator.Valid, AddressSpace.NotTable, PageFrame, Owned, Memory;
      hide Spans, PageWords, PageOf, Within;
      WithinNext(top);
      var page := PageWords(top);
      SpansJoin(words, page, KHEAP_START, top, top + 4096);
      words, top := words + page, top + 4096;
    }

    // The last pages leave the window again: they stay mapped, and a later extension maps
    // over them.
    ghost method Retreat(to: int)
      requires Valid() && KHEAP_START <= to <= top && to % 4096 == 0
      modifies this
      ensures Valid() && top == to
      ensures forall f: Frame :: old(NotInHeap(f)) ==> NotInHeap(f)
      ensures forall a :: a in words <==> a in old(words) && a < to
      ensures forall a :: a in words ==> words[a] == old(words[a])
    {
      assert mmu.Sized();
      hide AddressSpace.Walk, AddressSpace.Valid, AddressSpace.NotTable, PageFrame, Owned, Memory;
      words := map a | a in words && a < to :: words[a];
      top := to;
    }

    // Mapping a held frame at the end of the window.
    method AttachFrame(mapAt: U32, frame: U32) returns (ok: bool)
      requires Valid() && mapAt == top && top + 4096 <= LIMIT
      requires frame % 4096 == 0 && frame / 4096 in mmu.pmm.held && mmu.NotTable(frame / 4096)
      requires NotInHeap(frame / 4096)
      modifies this, mmu`tlb, mmu.ram, mmu.pmm`usedCount, mmu.pmm`held, mmu.pmm.bitmap
      ensures Valid() && mmu.pmm.Reserved() == old(mmu.pmm.Reserved())
      ensures old(mmu.pmm.held) <= mmu.pmm.held
      ensures forall p: Page :: p < 0xF_FC00 && (p != mapAt / 4096 || !ok) ==> mmu.Walk(p) == old(mmu.Walk(p))
      ensures forall f: Frame :: f in old(mmu.pmm.held) ==> mmu.NotTable(f) == old(mmu.NotTable(f))
      ensures forall f: Frame :: f in old(mmu.pmm.held) && old(mmu.NotTable(f)) ==>
                mmu.Content(f) == old(mmu.Content(f))
      ensures forall f: Frame :: old(NotInHeap(f)) && (f != frame / 4096 || !ok) ==> NotInHeap(f)
      ensures ok ==> top == old(top) + 4096 && Carried(old(words), words)
      ensures !ok ==> top == old(top) && words == old(words)
      ensures ok == (mapAt / 0x40_0000 in old(mmu.Installed()) || old(mmu.NextTable()) != 0)
      ensures mmu.Installed() == if ok then old(mmu.Installed()) + {mapAt / 0x40_0000} else old(mmu.Installed())
      ensures mmu.pmm.State()
              == if ok && mapAt / 0x40_0000 !in old(mmu.Installed()) then Apply(old(mmu.pmm.State()), Take)
                 else old(mmu.pmm.State())
    {
      hide AddressSpace.Content, AddressSpace.Walk, AddressSpace.Separated, AddressSpace.Coherent,
        AddressSpace.TablesNotFree,
        AddressSpace.NotTable, AddressSpace.Installed, LeastFree, Mirrors, FramesDistinct, PagesOwned;
      assert Writable(FLAG_WRITE);
      ok := MapElsewhere(mapAt, frame, FLAG_WRITE);
      if ok {
        Advance();
      }
    }

    // A frame from the allocator is new to the heap and to the page tables.
    method TakeFrame() returns (frame: U32)
      requires Valid()
      modifies mmu.pmm`usedCount, mmu.pmm`held, mmu.pmm.bitmap
      ensures Valid() && mmu.pmm.Reserved() == old(mmu.pmm.Reserved())
      ensures frame == 4096 * old(mmu.NextTable())
      ensures mmu.pmm.State() == Apply(old(mmu.pmm.State()), Take)
      ensures frame != 0 ==> && frame / 4096 !in old(mmu.pmm.held) && frame / 4096 in mmu.pmm.held
                             && mmu.NotTable(frame / 4096) && NotInHeap(frame / 4096)
    {
      hide AddressSpace.Walk, AddressSpace.Separated, AddressSpace.Coherent, LeastFree, FrameAllocator.Valid,
        Memory;
      mmu.pmm.HeldNotFree();
      TableEntryFields(mmu.pd);
      frame := mmu.pmm.AllocFrame();
    }

    // Giving back a frame that neither the heap nor the page tables use.
    method GiveFrame(frame: U32)
      requires Valid() && frame % 4096 == 0
      requires frame / 4096 in mmu.pmm.held && mmu.NotTable(frame / 4096) && NotInHeap(frame / 4096)
      modifies mmu.pmm`usedCount, mmu.pmm`held, mmu.pmm.bitmap
      ensures Valid() && mmu.pmm.Reserved() == old(mmu.pmm.Reserved())
      ensures mmu.pmm.State() == Apply(old(mmu.pmm.State()), Give(frame / 4096))
    {
      hide AddressSpace.Walk, AddressSpace.Separated, AddressSpace.Coherent, Memory;
      mmu.pmm.HeldInRange(frame / 4096);
      mmu.pmm.FreeFrame(frame);
    }

    lemma NoFreeZero()
      requires Valid()
      ensures mmu.Sized() && mmu.pmm.Sized() && 0 !in mmu.pmm.Free()
    {
      hide AddressSpace.Walk, FrameAllocator.Free, FrameAllocator.Used;
    }

    ghost function Supplied(): Supply
      reads this`top, mmu.ram, mmu.pmm, mmu.pmm.bitmap
      requires mmu.Sized() && mmu.pmm.Sized()
    {
      Supply(mmu.pmm.Free(), mmu.Installed(), if top < 0 then 0 else top / 4096)
    }

    lemma SuppliedInSnapshot()
      requires mmu.Sized() && mmu.pmm.Sized()
      ensures Supplied() == SupplyIn(Snapshot())
    {
      mmu.ViewFacts();
    }

    // One turn of the loop of kheap_extend: a frame is taken and mapped, or given back.
    method TryPage(mapAt: U32) returns (ok: bool)
      requires Valid() && mapAt == top && top + 4096 <= LIMIT
      modifies this, mmu`tlb, mmu.ram, mmu.pmm`usedCount, mmu.pmm`held, mmu.pmm.bitmap
      ensures Valid() && mmu.pmm.Reserved() == old(mmu.pmm.Reserved())
      ensures old(mmu.pmm.held) <= mmu.pmm.held
      ensures forall p: Page :: p < 0xF_FC00 && (p != mapAt / 4096 || !ok) ==> mmu.Walk(p) == old(mmu.Walk(p))
      ensures forall f: Frame :: f in old(mmu.pmm.held) ==> mmu.NotTable(f) == old(mmu.NotTable(f))
      ensures forall f: Frame :: f in old(mmu.pmm.held) && old(mmu.NotTable(f)) ==>
                mmu.Content(f) == old(mmu.Content(f))
      ensures forall f: Frame :: f in old(mmu.pmm.held) && old(NotInHeap(f)) ==> NotInHeap(f)
      ensures ok ==> top == old(top) + 4096 && Carried(old(words), words)
      ensures !ok ==> top == old(top) && words == old(words)
      ensures mmu.Sized() && mmu.pmm.Sized()
      ensures ok == CanAdd(old(Supplied())) && Supplied() == if ok then Add(old(Supplied())) else old(Supplied())
    {
      hide AddressSpace.Content, Valid, NotInHeap, AddressSpace.Walk, AddressSpace.NotTable, AddressSpace.Installed,
        FrameAllocator.Free,
        LeastFree;
      PageIndices(mapAt);
      NoFreeZero();
      ghost var st := mmu.pmm.State();
      Takings(st);
      var frame := TakeFrame();
      if frame == 0 {
        return false;
      }
      NoFreeZero();
      Takings(mmu.pmm.State());
      ok := AttachFrame(mapAt, frame);
      if !ok {
        GiveFrame(frame);
      }
    }

    method AttachPage(mapAt: U32) returns (ok: bool)
      requires Valid() && mapAt == top && top + 4096 <= LIMIT
      modifies this, mmu`tlb, mmu.ram, mmu.pmm`usedCount, mmu.pmm`held, mmu.pmm.bitmap
      ensures Valid() && Confined(old(Snapshot()), Snapshot(), mmu.pd)
      ensures ok == CanAdd(SupplyIn(old(Snapshot())))
      ensures SupplyIn(Snapshot()) == if ok then Add(SupplyIn(old(Snapshot()))) else SupplyIn(old(Snapshot()))
      ensures top == if ok then old(top) + 4096 else old(top)
      ensures Carried(old(words), words)
    {
      hide AddressSpace.Installed, AddressSpace.Content, Others, FrameAllocator.Free, Add, CanAdd, TablesIn, Supplied;
      OthersAre();
      SuppliedInSnapshot();
      mmu.ViewFacts();
      forall f: Frame ensures NotInHeap(f) == ShowsOutside(Snapshot(), f) {
        NotInHeapIsOutside(f);
      }
      ok := TryPage(mapAt);
      OthersAre();
      SuppliedInSnapshot();
      mmu.ViewFacts();
      forall f: Frame ensures NotInHeap(f) == ShowsOutside(Snapshot(), f) {
        NotInHeapIsOutside(f);
      }
    }
  }

  // What taking a frame leaves free.
  lemma Takings(st: Frames)
    requires 0 !in st.free
    ensures Apply(st, Take).free == TakeFrom(st.free)
    ensures LeastFree(st.free) != 0 ==> TakeFrom(st.free) + {LeastFree(st.free)} == st.free
  {
    hide LeastFree;
    TakeShrinks(st);
    if LeastFree(st.free) == 0 {
      assert st.free - {0} == st.free;
    }
  }
}
