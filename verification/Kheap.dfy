// The kernel heap: a first-fit allocator whose headers lie in the memory it hands out,
// reached through the page tables one word at a time.

module Kheap {
  import opened Common
  import opened HeapModel
  import opened HeapWindow
  import opened HeapHeaders
  import opened Pmm
  import opened Paging
  import opened Growth

  lemma AlignedWords(a: int)
    requires a % 8 == 0
    ensures a % 4 == 0 && (a + 4) % 4 == 0 && (a + 8) % 4 == 0 && (a + 12) % 4 == 0
  {
  }

  // The supply of a world, page by page.
  lemma TurnGrows(v: World, w: World, to: nat, ok: bool)
    requires 0 <= v.top < 4096 * to && ok == CanAdd(SupplyIn(v))
    requires SupplyIn(w) == if ok then Add(SupplyIn(v)) else SupplyIn(v)
    ensures GrowTo(SupplyIn(v), to) == GrowTo(SupplyIn(w), to)
    ensures !ok ==> GrowTo(SupplyIn(v), to) == SupplyIn(v) && SupplyIn(v).page < to
  {
    hide CanAdd, TablesIn;
  }

  // What growing to page `to` has taken, whether or not it got there.
  ghost predicate Spent(v: World, w: World, to: nat, ok: bool) {
    var t := GrowTo(SupplyIn(v), to);
    ok == (t.page >= to) && w.free == t.free && TablesIn(w.view) == t.tables
  }

  lemma LoopEnds(w: World, to: nat)
    requires 4096 * to == w.top
    ensures GrowTo(SupplyIn(w), to) == SupplyIn(w) && SupplyIn(w).page == to
  {
    hide CanAdd, TablesIn, Add;
  }

  lemma NullFrees(bs: seq<Block>)
    ensures Frees(bs, 0, bs)
  {
  }

  lemma BlockFrees(bs: seq<Block>, i: nat, ptr: int)
    requires i < |bs| && bs[i].addr + HEADER == ptr && ptr != 0 && !bs[i].free
    ensures Frees(bs, ptr, Release(bs, i))
  {
    hide Release;
  }

  lemma SameLive(bs: seq<Block>, cs: seq<Block>)
    requires Live(bs) == Live(cs)
    ensures StillLive(bs, cs)
  {
    hide Live;
  }

  lemma MergeNextStarts(bs: seq<Block>, i: nat)
    requires i < |bs| && bs[i].free
    ensures i < |MergeNext(bs, i)| && MergeNext(bs, i)[i].addr == bs[i].addr && MergeNext(bs, i)[i].free
  {
  }

  lemma StillLiveItself(bs: seq<Block>)
    ensures StillLive(bs, bs)
  {
  }

  lemma KeepsItself(bs: seq<Block>, m: Words)
    ensures Keeps(bs, m, m)
  {
    hide InPayload;
  }

  // Taking the lowest fitting block, frames and tables untouched.
  lemma TakesServes(m: Memory, n: Memory, needed: U32, ptr: int)
    requires Takes(m.heap, needed, n.heap, ptr) && n.free == m.free && n.tables == m.tables
    ensures !NoFit(m.heap, needed) && (n, ptr) == Serve(m, needed)
  {
    hide FirstFit, Taken;
  }

  // A turn of the loop of kmalloc, before or after the heap has grown: what it finds is the
  // answer, and after a growth it finds a block.
  lemma TurnGrants(m: Memory, needed: U32, grew: bool, after: Memory, ptr: int)
    requires Fine(m.heap) && (grew ==> NoFit(m.heap, needed) && CanGrow(m, needed))
    requires var now := if grew then AfterGrowth(m, needed) else m;
             if ptr != 0 then !NoFit(now.heap, needed) && (after, ptr) == Serve(now, needed)
             else NoFit(now.heap, needed) && after == AfterGrowth(now, needed)
    ensures ptr == 0 ==> !grew
    ensures ptr != 0 || !CanGrow(m, needed) ==>
              (after, ptr) == Grant(m, needed) && Gives(m.heap, needed, grew, after.heap, ptr)
  {
    hide FirstFit, Fine, GrownSupply, Grown;
    if CanGrow(m, needed) {
      GrownFits(m.heap, needed);
    }
  }

  lemma GrownStaysLive(m: Memory, needed: U32)
    requires CanGrow(m, needed)
    ensures StillLive(m.heap.blocks, AfterGrowth(m, needed).heap.blocks)
    ensures needed + 4095 < TWO32
  {
    hide GrownSupply, GrowPages, Grow, StillLive;
    GrownPayloads(m.heap, needed);
  }

  // At the limit nothing is mapped and nothing is spent.
  lemma FullHeap(m: Memory, minBytes: U32)
    requires m.heap.end == LIMIT
    ensures !CanGrow(m, minBytes) && AfterGrowth(m, minBytes) == m
  {
    hide GrowPages;
    GrowBytesSuffices(minBytes);
    GrowToStops(SupplyOf(m), SupplyOf(m).page + GrowPages(minBytes));
  }

  // What growth spends and what it adds are the growth of the memory.
  lemma GrowthOf(m: Memory, n: Memory, v: World, w: World, minBytes: U32, ok: bool)
    requires m.heap.end >= 0 && m.heap.end % 4096 == 0 && minBytes + 4095 < TWO32
    requires SupplyOf(m) == SupplyIn(v) && n.free == w.free && n.tables == TablesIn(w.view)
    requires Spent(v, w, m.heap.end / 4096 + GrowPages(minBytes), ok)
    requires n.heap.end == (if ok then m.heap.end + GrowBytes(minBytes) else m.heap.end) <= LIMIT
    requires n.heap.blocks == if ok then Grow(m.heap.blocks, m.heap.end, GrowBytes(minBytes)) else m.heap.blocks
    ensures ok == CanGrow(m, minBytes) && n == AfterGrowth(m, minBytes)
  {
    hide GrowTo, GrowPages, Grow, TablesIn, SupplyIn;
    GrowToWithin(SupplyOf(m), m.heap.end / 4096 + GrowPages(minBytes));
  }

  class KernelHeap {
    const window: Window
    var end: U32              // kheap_end
    var first: U32            // kheap_first, 0 for NULL
    ghost var blocks: seq<Block>

    // The list in memory is the list of blocks, and the blocks tile [KHEAP_START, end).
    ghost predicate Chained()
      reads this, window, window.mmu, window.mmu.ram, window.mmu.pmm, window.mmu.pmm.bitmap
    {
      && window.Valid() && end <= window.top
      && Tiles(blocks, end) && Encoded(window.words, blocks)
      && first == if blocks == [] then 0 else KHEAP_START
    }

    // ... and the heap ends where the mapped pages end.
    ghost predicate Linked()
      reads this, window, window.mmu, window.mmu.ram, window.mmu.pmm, window.mmu.pmm.bitmap
      ensures Linked() ==> Chained()
    {
      Chained() && window.top == end
    }

    ghost predicate Valid()
      reads this, window, window.mmu, window.mmu.ram, window.mmu.pmm, window.mmu.pmm.bitmap
    {
      Linked() && NoFreeNeighbours(blocks)
    }

    // What decides the answers of the heap's operations.
    ghost function Now(): Memory
      reads this`blocks, this`end, window.mmu.ram, window.mmu.pmm, window.mmu.pmm.bitmap
      requires window.mmu.Sized() && window.mmu.pmm.Sized()
    {
      Memory(Heap(blocks, end), window.mmu.pmm.Free(), window.mmu.Installed())
    }

    lemma NowInSnapshot()
      requires Valid()
      ensures window.mmu.Sized() && window.mmu.pmm.Sized()
      ensures Now() == Memory(Heap(blocks, end), window.Snapshot().free, TablesIn(window.Snapshot().view))
      ensures SupplyOf(Now()) == SupplyIn(window.Snapshot())
    {
      hide Encoded, Tiles, TablesIn, AddressSpace.Installed;
      window.mmu.ViewFacts();
    }

    constructor (window: Window)
      requires window.Valid() && window.top == KHEAP_START
      ensures this.window == window && Valid() && blocks == [] && end == KHEAP_START
    {
      this.window := window;
      end, first, blocks := KHEAP_START, 0, [];
    }

    // Where the header of block i is, and what it says.
    lemma Reads(i: nat)
      requires Chained() && i < |blocks|
      ensures var b := blocks[i];
              && KHEAP_START <= b.addr && b.addr + b.size <= end <= LIMIT && b.size >= MIN_BLOCK
              && HeaderSpace(window.words, b.addr)
              && window.words[b.addr] == b.size && Flag(window.words[b.addr + 4]) == b.free
              && window.words[b.addr + 8] == Next(blocks, i) && window.words[b.addr + 12] == Prev(blocks, i)
    {
      hide Window.Valid, Tiles, Flag;
      window.TopBound();
      Bounds(blocks, end, i);
      RoomForHeader(blocks, end, i);
      assert HeaderAt(window.words, blocks, i);
    }

    // The header of block i as the code reads it.
    lemma Fields(i: nat)
      requires Chained() && i < |blocks|
      ensures var a := blocks[i].addr;
              && 0 < a && a + 12 < TWO32 && HeaderSpace(window.words, a)
              && window.words[a] == blocks[i].size && Flag(window.words[a + 4]) == blocks[i].free
              && window.words[a + 8] == (if i + 1 < |blocks| then blocks[i + 1].addr else 0)
              && window.words[a + 12] == (if i > 0 then blocks[i - 1].addr else 0)
      ensures i + 1 < |blocks| ==> blocks[i + 1].addr != 0
      ensures i > 0 ==> blocks[i - 1].addr != 0
    {
      hide Chained, Flag;
      Reads(i);
      if i + 1 < |blocks| {
        Reads(i + 1);
      }
      if i > 0 {
        Reads(i - 1);
      }
    }

    lemma BlockAligned(i: nat)
      requires Chained() && i < |blocks|
      ensures Aligned(blocks[i])
    {
    }

    // The next link of block i is null or leads to a header.
    lemma NextReads(i: nat)
      requires Chained() && i < |blocks|
      ensures var next := Next(blocks, i);
              next == if i + 1 < |blocks| then blocks[i + 1].addr else 0
      ensures var next := Next(blocks, i);
              next == 0 || (blocks[i].addr + blocks[i].size <= next < LIMIT && next + 12 in window.words)
    {
      hide Tiles, Window.Valid;
      if i + 1 < |blocks| {
        Reads(i + 1);
        Apart(blocks, end, i, i + 1);
      }
    }

    // The four stores that make a free block.
    method WriteFreeHeader(at: U32, size: U32, next: U32, prev: U32)
      requires window.Valid() && HeaderSpace(window.words, at)
      modifies window`words, window.mmu`tlb, window.mmu.ram
      ensures window.Outside() == old(window.Outside())
      ensures window.Valid()
      ensures window.words == FreeHeaderWords(old(window.words), at, size, next, prev)
    {
      hide Window.Outside, Window.Valid, WithFlag;
      HeaderBelow(at);
      window.Store(at, size);
      window.StoreFlag(at + 4, true);
      window.Store(at + 8, next);
      window.Store(at + 12, prev);
    }

    lemma HeaderBelow(a: int)
      requires window.Valid() && HeaderSpace(window.words, a)
      ensures a + 12 < LIMIT
    {
      hide Window.Valid;
      window.Domain(a + 12);
      assert window.top <= LIMIT by {
        window.TopBound();
      }
    }

    // The stores of kheap_split when it cuts.
    method WriteCut(block: U32, size: U32, needed: U32, ghost b: Block, ghost next: U32)
      requires window.Valid() && b.addr == block && b.size == size
      requires HeaderSpace(window.words, b.addr) && HeaderSpace(window.words, b.addr + needed)
      requires MIN_BLOCK <= needed <= size && b.addr + needed < LIMIT && next < LIMIT
      requires window.words[b.addr + 8] == next && (next != 0 ==> (next as int) + 12 in window.words)
      modifies window`words, window.mmu`tlb, window.mmu.ram
      ensures window.Outside() == old(window.Outside())
      ensures window.Valid()
      ensures window.words == CutWords(old(window.words), b, needed, next)
    {
      hide Window.Outside, Window.Valid, Flag, WithFlag, FreeHeaderWords;
      var remainder: U32 := block + needed;
      var link := window.Load(block + 8);
      assert block + 8 != remainder && block + 12 < remainder;
      WriteFreeHeader(remainder, size - needed, link, block);
      if link != 0 {
        window.Store(link + 12, remainder);
      }
      WriteFront(block, needed, remainder);
    }

    // The stores to the header of the block that is handed out.
    method WriteFront(block: U32, needed: U32, remainder: U32)
      requires window.Valid() && HeaderSpace(window.words, block) && block + 12 < TWO32
      modifies window`words, window.mmu`tlb, window.mmu.ram
      ensures window.Valid() && window.Outside() == old(window.Outside())
      ensures window.words == old(window.words)[block := needed]
                              [block + 4 := WithFlag(old(window.words)[block + 4], false)][block + 8 := remainder]
    {
      hide Window.Outside, Window.Valid, WithFlag;
      window.Store(block, needed);
      window.StoreFlag(block + 4, false);
      window.Store(block + 8, remainder);
    }

    // The store of is_free.
    method SetFree(block: U32, ghost i: nat, free: bool)
      requires Linked() && i < |blocks| && blocks[i].addr == block
      modifies this`blocks, window`words, window.mmu`tlb, window.mmu.ram
      ensures window.Outside() == old(window.Outside())
      ensures Linked() && blocks == old(blocks)[i := Block(block, old(blocks)[i].size, free)]
      ensures Keeps(old(blocks), old(window.words), window.words)
    {
      hide Window.Outside, Window.Valid, Encoded, Tiles, Keeps, Flag, WithFlag;
      Fields(i);
      FlagEncodes(window.words, blocks, end, i, free);
      FlagKeepsTiles(blocks, end, i, free);
      window.StoreFlag(block + 4, free);
      blocks := blocks[i := Block(block, blocks[i].size, free)];
    }

    // kheap_split when the rest is big enough to be a block.
    method Cut(block: U32, size: U32, needed: U32, ghost i: nat)
      requires Linked() && i < |blocks| && blocks[i].addr == block && blocks[i].size == size
      requires Fits(blocks[i], needed) && Cuts(blocks[i], needed) && needed % 8 == 0 && needed >= MIN_BLOCK
      modifies this`blocks, window`words, window.mmu`tlb, window.mmu.ram
      ensures window.Outside() == old(window.Outside())
      ensures Linked() && blocks == SplitAt(old(blocks), i, needed)
      ensures Keeps(old(blocks), old(window.words), window.words)
    {
      hide Window.Outside, Window.Valid, Encoded, Tiles, InPayload, Next, Prev, CutWords, Flag, WithFlag;
      Reads(i);
      NextReads(i);
      RemainderSpace(i, needed);
      CutEncodes(window.words, blocks, end, i, needed);
      SplitKeepsTiles(blocks, end, i, needed);
      WriteCut(block, size, needed, blocks[i], Next(blocks, i));
      blocks := SplitAt(blocks, i, needed);
    }

    // kheap_split
    method Split(block: U32, needed: U32, ghost i: nat)
      requires Linked() && i < |blocks| && blocks[i].addr == block
      requires Fits(blocks[i], needed) && needed % 8 == 0 && needed >= MIN_BLOCK
      modifies this`blocks, window`words, window.mmu`tlb, window.mmu.ram
      ensures window.Outside() == old(window.Outside())
      ensures Linked() && blocks == SplitAt(old(blocks), i, needed)
      ensures Keeps(old(blocks), old(window.words), window.words)
    {
      hide Window.Outside, Linked, Chained, InPayload;
      var size := SizeOf(block, i);
      if size < needed + MIN_BLOCK {
        SetFree(block, i, false);
        return;
      }
      Cut(block, size, needed, i);
    }

    // A cut leaves room for the header of the rest.
    lemma RemainderSpace(i: nat, needed: int)
      requires Linked() && i < |blocks| && Cuts(blocks[i], needed) && needed % 8 == 0 && needed >= MIN_BLOCK
      ensures HeaderSpace(window.words, blocks[i].addr + needed)
    {
      hide Tiles, Encoded, Window.Valid;
      BlockAligned(i);
      Reads(i);
      HeaderFits(blocks[i].addr + needed);
    }

    lemma HeaderFits(a: int)
      requires Linked() && KHEAP_START <= a <= end - MIN_BLOCK && a % 8 == 0
      ensures HeaderSpace(window.words, a)
    {
      AlignedWords(a);
      hide Window.Valid, Tiles, Encoded;
      window.Domain(a); window.Domain(a + 4); window.Domain(a + 8); window.Domain(a + 12);
    }

    // ---------------------------------------------------------------- header fields

    method SizeOf(block: U32, ghost i: nat) returns (size: U32)
      requires Chained() && i < |blocks| && blocks[i].addr == block
      modifies window.mmu`tlb
      ensures Chained() && (old(Linked()) ==> Linked()) && size == blocks[i].size
    {
      Fields(i);
      hide Window.Valid, Encoded, Tiles, Flag;
      size := window.Load(block);
    }

    method IsFree(block: U32, ghost i: nat) returns (free: bool)
      requires Chained() && i < |blocks| && blocks[i].addr == block
      modifies window.mmu`tlb
      ensures Chained() && (old(Linked()) ==> Linked()) && free == blocks[i].free
    {
      Fields(i);
      hide Window.Valid, Encoded, Tiles, Flag;
      var w := window.Load(block + 4);
      free := Flag(w);
    }

    method NextOf(block: U32, ghost i: nat) returns (next: U32)
      requires Chained() && i < |blocks| && blocks[i].addr == block
      modifies window.mmu`tlb
      ensures Chained() && (old(Linked()) ==> Linked())
      ensures if i + 1 < |blocks| then next == blocks[i + 1].addr && next != 0 else next == 0
    {
      Fields(i);
      hide Window.Valid, Encoded, Tiles, Flag;
      next := window.Load(block + 8);
    }

    method PrevOf(block: U32, ghost i: nat) returns (prev: U32)
      requires Chained() && i < |blocks| && blocks[i].addr == block
      modifies window.mmu`tlb
      ensures Chained() && (old(Linked()) ==> Linked())
      ensures if i > 0 then prev == blocks[i - 1].addr && prev != 0 else prev == 0
    {
      Fields(i);
      hide Window.Valid, Encoded, Tiles, Flag;
      prev := window.Load(block + 12);
    }

    // ---------------------------------------------------------------- kfree

    // The stores of one merge in kheap_coalesce.
    method WriteJoin(kept: U32, gone: U32, ghost b: Block, ghost size: U32, ghost next: U32)
      requires window.Valid() && b.addr == kept && HeaderSpace(window.words, kept) && HeaderSpace(window.words, gone)
      requires window.words[kept] as int + window.words[gone] as int == size && window.words[gone + 8] == next
      requires gone >= kept + MIN_BLOCK && (next != 0 ==> (next as int) + 12 in window.words)
      requires kept + 12 < LIMIT && gone + 12 < LIMIT && next < LIMIT
      modifies window`words, window.mmu`tlb, window.mmu.ram
      ensures window.Outside() == old(window.Outside())
      ensures window.Valid() && window.words == JoinWords(old(window.words), b, size, next)
    {
      hide Window.Outside, Window.Valid, AddressSpace.Translations, Header, Encoded;
      var first := window.Load(kept);
      var second := window.Load(gone);
      window.Store(kept, first + second);
      var link := window.Load(gone + 8);
      assert link == next;
      window.Store(kept + 8, link);
      if link != 0 {
        window.Store(link + 12, kept);
      }
    }

    // Block k swallows block k + 1.
    method Join(kept: U32, gone: U32, ghost k: nat)
      requires Linked() && k + 1 < |blocks| && blocks[k].addr == kept && blocks[k + 1].addr == gone
      requires blocks[k].free && blocks[k + 1].free
      modifies this`blocks, window`words, window.mmu`tlb, window.mmu.ram
      ensures window.Outside() == old(window.Outside())
      ensures Linked() && blocks == MergeAt(old(blocks), k) && Live(blocks) == Live(old(blocks))
      ensures Keeps(old(blocks), old(window.words), window.words)
    {
      hide Window.Outside, Window.Valid, Encoded, Tiles, Keeps, Next, Prev, Flag, WithFlag, MergeAt, Live, JoinWords,
        AddressSpace.Translations;
      Reads(k);
      Reads(k + 1);
      NextReads(k + 1);
      Apart(blocks, end, k, k + 1);
      JoinEncodes(window.words, blocks, end, k);
      MergeKeepsTiles(blocks, end, k);
      MergeKeepsLive(blocks, k);
      WriteJoin(kept, gone, blocks[k], blocks[k].size + blocks[k + 1].size, Next(blocks, k + 1));
      blocks := MergeAt(blocks, k);
    }

    // The first half of kheap_coalesce.
    method MergeWithNext(block: U32, ghost i: nat)
      requires Linked() && i < |blocks| && blocks[i].addr == block && blocks[i].free
      modifies this`blocks, window`words, window.mmu`tlb, window.mmu.ram
      ensures window.Outside() == old(window.Outside())
      ensures Linked() && blocks == MergeNext(old(blocks), i) && Live(blocks) == Live(old(blocks))
      ensures Keeps(old(blocks), old(window.words), window.words)
    {
      hide Window.Outside, Linked, Live, Keeps, MergeAt, AddressSpace.Translations;
      KeepsItself(blocks, window.words);
      var next := NextOf(block, i);
      if next != 0 {
        var free := IsFree(next, i + 1);
        if free {
          Join(block, next, i);
        }
      }
    }

    // The second half.
    method MergeWithPrev(block: U32, ghost i: nat)
      requires Linked() && i < |blocks| && blocks[i].addr == block && blocks[i].free
      modifies this`blocks, window`words, window.mmu`tlb, window.mmu.ram
      ensures window.Outside() == old(window.Outside())
      ensures Linked() && blocks == MergePrev(old(blocks), i) && Live(blocks) == Live(old(blocks))
      ensures Keeps(old(blocks), old(window.words), window.words)
    {
      hide Window.Outside, Linked, Live, Keeps, MergeAt, AddressSpace.Translations;
      KeepsItself(blocks, window.words);
      var prev := PrevOf(block, i);
      if prev != 0 {
        var free := IsFree(prev, i - 1);
        if free {
          Join(prev, block, i - 1);
        }
      }
    }

    // kheap_coalesce
    method Coalesce(block: U32, ghost i: nat)
      requires Linked() && i < |blocks| && blocks[i].addr == block && blocks[i].free
      modifies this`blocks, window`words, window.mmu`tlb, window.mmu.ram
      ensures window.Outside() == old(window.Outside())
      ensures Linked() && blocks == MergePrev(MergeNext(old(blocks), i), i) && Live(blocks) == Live(old(blocks))
      ensures Keeps(old(blocks), old(window.words), window.words)
    {
      hide Window.Outside, Linked, Live, Keeps, StillLive, MergeNext, MergePrev, AddressSpace.Translations;
      ghost var bs, m := blocks, window.words;
      MergeNextStarts(bs, i);
      MergeWithNext(block, i);
      ghost var cs, n := blocks, window.words;
      MergeWithPrev(block, i);
      SameLive(bs, cs);
      KeepsOn(bs, cs, m, n, window.words);
    }

    // Gives a live block back; NULL is allowed. Nothing that is still live changes.
    method Kfree(ptr: U32)
      requires Valid()
      requires ptr != 0 ==> exists b :: b in Live(blocks) && b.addr + HEADER == ptr
      modifies this`blocks, window`words, window.mmu`tlb, window.mmu.ram
      ensures window.Outside() == old(window.Outside())
      ensures Valid()
      ensures Frees(old(blocks), ptr, blocks) && end == old(end) && window.Snapshot() == old(window.Snapshot())
      ensures Now() == old(Now()).(heap := Heap(FreedAt(old(blocks), ptr), end))
      ensures Keeps(blocks, old(window.words), window.words)
    {
      hide NoFreeNeighbours, InPayload, Release, Frees, Encoded, Tiles, TablesIn, AddressSpace.Installed,
        AddressSpace.Translations, FrameAllocator.Free, Window.Mirrors, Window.PagesOwned, Window.FramesDistinct;
      ghost var bs := blocks;
      NowInSnapshot();
      if ptr == 0 {
        KeepsItself(blocks, window.words);
        NullFrees(bs);
        FreesAt(bs, end, ptr, bs);
        return;
      }
      ghost var b :| b in Live(blocks) && b.addr + HEADER == ptr;
      ghost var i := IndexOf(blocks, b);
      Reads(i);
      FreeBlock(ptr - HEADER, i);
      BlockFrees(bs, i, ptr);
      FreesAt(bs, end, ptr, blocks);
      NowInSnapshot();
    }

    // The two statements of kfree on the header.
    method FreeBlock(block: U32, ghost i: nat)
      requires Valid() && i < |blocks| && blocks[i].addr == block
      modifies this`blocks, window`words, window.mmu`tlb, window.mmu.ram
      ensures window.Outside() == old(window.Outside())
      ensures Valid() && blocks == Release(old(blocks), i)
      ensures Keeps(blocks, old(window.words), window.words)
    {
      hide Window.Outside, Linked, NoFreeNeighbours, InPayload, MergeNext, MergePrev;
      ReleaseKeepsApart(blocks, i);
      SetFree(block, i, true);
      Coalesce(block, i);
      SamePayloads(MarkFree(old(blocks), i), blocks);
      SomePayloads(old(blocks), i);
    }

    // ---------------------------------------------------------------- statistics

    method UsedByteCount() returns (used: nat)
      requires Valid()
      modifies window.mmu`tlb
      ensures Valid() && used == UsedBytes(blocks)
    {
      hide Linked, Chained, UsedBytes;
      UsedNone();
      used := 0;
      var cur := first;
      ghost var i := 0;
      FirstBlock();
      while cur != 0
        invariant Valid() && i <= |blocks|
        invariant if i < |blocks| then cur == blocks[i].addr && cur != 0 else cur == 0
        invariant used == UsedBytes(blocks[..i])
        decreases |blocks| - i
      {
        UsedStep(i);
        var free := IsFree(cur, i);
        if !free {
          var size := SizeOf(cur, i);
          used := used + size;
        }
        cur := NextOf(cur, i);
        i := i + 1;
      }
      assert blocks[..i] == blocks;
    }

    lemma UsedNone()
      ensures UsedBytes(blocks[..0]) == 0
    {
    }

    lemma UsedStep(i: nat)
      requires i < |blocks|
      ensures UsedBytes(blocks[..i + 1]) == UsedBytes(blocks[..i]) + if blocks[i].free then 0 else blocks[i].size
    {
      assert blocks[..i + 1][..i] == blocks[..i];
    }

    lemma FirstBlock()
      requires Chained()
      ensures if blocks == [] then first == 0 else first == blocks[0].addr && first != 0
    {
    }

    method TotalByteCount() returns (total: nat)
      requires Valid()
      ensures total == UsedBytes(blocks) + FreeBytes(blocks)
    {
      BytesConserved(blocks, end);
      window.TopBound();
      total := end - KHEAP_START;
    }

    // ---------------------------------------------------------------- growth

    // One turn of the mapping loop of kheap_extend.
    method MapOne(mapAt: U32) returns (ok: bool)
      requires window.Valid() && window.top == mapAt
      modifies window, window.mmu`tlb, window.mmu.ram, window.mmu.pmm`usedCount, window.mmu.pmm`held,
        window.mmu.pmm.bitmap
      ensures window.Valid() && window.mmu.Sized() && window.mmu.pmm.Sized()
      ensures Confined(old(window.Snapshot()), window.Snapshot(), window.mmu.pd)
      ensures window.top == (if ok then mapAt + 4096 else mapAt) <= LIMIT
      ensures ok == CanAdd(SupplyIn(old(window.Snapshot())))
      ensures SupplyIn(window.Snapshot())
              == if ok then Add(SupplyIn(old(window.Snapshot()))) else SupplyIn(old(window.Snapshot()))
      ensures Carried(old(window.words), window.words)
    {
      window.TopBound();
      if mapAt + 4096 - KHEAP_START > KHEAP_MAX_BYTES {
        ConfinedIsReflexive(window.Snapshot(), window.mmu.pd);
        return false;
      }
      ok := window.AttachPage(mapAt);
    }

    // The mapping loop of kheap_extend.
    method MapLoop(pages: nat, ghost to: nat) returns (ok: bool)
      requires window.Valid() && window.top == end && 4096 * to == end + 4096 * pages
      modifies window, window.mmu`tlb, window.mmu.ram, window.mmu.pmm`usedCount, window.mmu.pmm`held,
        window.mmu.pmm.bitmap
      ensures window.Valid() && Confined(old(window.Snapshot()), window.Snapshot(), window.mmu.pd)
      ensures end <= window.top && (ok ==> window.top == end + 4096 * pages)
      ensures SupplyIn(window.Snapshot()) == GrowTo(SupplyIn(old(window.Snapshot())), to)
      ensures ok == (GrowTo(SupplyIn(old(window.Snapshot())), to).page >= to)
      ensures Carried(old(window.words), window.words)
    {
      hide Window.Mirrors, Window.PagesOwned, Window.FramesDistinct, AddressSpace.Tables, AddressSpace.Coherent,
        AddressSpace.TablesNotFree, FrameAllocator.Free, FrameAllocator.Used, AddressSpace.Translations, Confined,
        Carried, GrowTo, Add, CanAdd, TablesIn, SupplyIn;
      ghost var w, m := window.Snapshot(), window.words;
      ghost var now, words := w, m;
      ConfinedIsReflexive(w, window.mmu.pd);
      CarriedAtStart(m);
      window.TopBound();
      var mapAt := end;
      var i := 0;
      ok := true;
      while i < pages
        invariant window.Valid() && window.mmu.Sized() && window.mmu.pmm.Sized()
        invariant now == window.Snapshot() && words == window.words
        invariant 0 <= i <= pages && KHEAP_START <= mapAt == window.top == end + 4096 * i <= LIMIT
        invariant Confined(w, now, window.mmu.pd) && Carried(m, words)
        invariant GrowTo(SupplyIn(w), to) == GrowTo(SupplyIn(now), to) && now.top == mapAt
      {
        ok := MapOne(mapAt);
        CarriedOn(m, words, window.words);
        ConfinedIsTransitive(w, now, window.Snapshot(), window.mmu.pd);
        TurnGrows(now, window.Snapshot(), to, ok);
        now, words := window.Snapshot(), window.words;
        if !ok {
          return;
        }
        mapAt := mapAt + 4096;
        i := i + 1;
      }
      LoopEnds(now, to);
    }

    // A failure leaves the pages mapped so far behind, outside the heap.
    method MapPages(pages: nat, ghost to: nat) returns (ok: bool)
      requires window.Valid() && window.top == end && 4096 * to == end + 4096 * pages
      modifies window, window.mmu`tlb, window.mmu.ram, window.mmu.pmm`usedCount, window.mmu.pmm`held,
        window.mmu.pmm.bitmap
      ensures window.Valid() && Confined(old(window.Snapshot()), window.Snapshot(), window.mmu.pd)
      ensures window.top == if ok then end + 4096 * pages else end
      ensures Spent(old(window.Snapshot()), window.Snapshot(), to, ok)
      ensures Carried(old(window.words), window.words)
    {
      hide Window.Mirrors, Window.PagesOwned, Window.FramesDistinct, AddressSpace.Tables, AddressSpace.Coherent,
        AddressSpace.TablesNotFree, FrameAllocator.Free, FrameAllocator.Used, AddressSpace.Translations, Confined,
        GrowTo, Add, CanAdd, TablesIn;
      window.TopBound();
      window.WordsBelowTop();
      ghost var w := window.Snapshot();
      ok := MapLoop(pages, to);
      if !ok {
        ghost var v := window.Snapshot();
        window.OthersAre();
        window.Retreat(end);
        window.OthersAre();
        RetreatIsConfined(v, window.Snapshot(), window.mmu.pd);
        ConfinedIsTransitive(w, v, window.Snapshot(), window.mmu.pd);
      }
    }

    // The search for the last block in kheap_extend.
    method FindLast() returns (last: U32)
      requires Chained() && blocks != []
      modifies window.mmu`tlb
      ensures Chained() && last == blocks[|blocks| - 1].addr
    {
      FirstBlock();
      hide Chained, Linked;
      last := first;
      ghost var i := 0;
      var next := NextOf(last, i);
      while next != 0
        invariant Chained() && i < |blocks| && last == blocks[i].addr
        invariant if i + 1 < |blocks| then next == blocks[i + 1].addr && next != 0 else next == 0
        decreases |blocks| - i
      {
        last := next;
        i := i + 1;
        next := NextOf(last, i);
      }
    }

    // The tail of kheap_extend: the mapped bytes past `end` join the list.
    method AddTail(mapAt: U32)
      requires Chained() && NoFreeNeighbours(blocks)
      requires window.top == mapAt && end + 4096 <= mapAt && (mapAt - end) % 4096 == 0
      modifies this, window`words, window.mmu`tlb, window.mmu.ram
      ensures window.Outside() == old(window.Outside())
      ensures Valid() && end == mapAt && blocks == Grow(old(blocks), old(end), mapAt - old(end))
      ensures Keeps(old(blocks), old(window.words), window.words)
    {
      hide Window.Outside, Window.Valid, Tiles, InPayload, Flag, WithFlag, FreeHeaderWords, NoFreeNeighbours, Encoded;
      var block, size := end, mapAt - end;
      TailSpace();
      EndAligned(blocks, end);
      window.TopBound();
      GrowKeepsShape(blocks, end, size);
      TailHeader(window.words, blocks, end, size);
      WriteFreeHeader(block, size, 0, 0);
      if first == 0 {
        first := block;
        AppendEncoded(window.words, window.words, blocks, end, Block(block, size, true));
        blocks := blocks + [Block(block, size, true)];
      } else {
        LinkTail(block, size);
      }
      end := mapAt;
    }

    lemma TailSpace()
      requires Chained() && end + MIN_BLOCK <= window.top
      ensures HeaderSpace(window.words, end) && end < LIMIT
    {
      EndAligned(blocks, end);
      AlignedWords(end);
      window.TopBound();
      hide Window.Valid, Tiles, Encoded;
      window.Domain(end); window.Domain(end + 4); window.Domain(end + 8); window.Domain(end + 12);
    }

    // The new block merges into a free last block, or is linked behind it.
    method LinkTail(block: U32, size: U32)
      requires Chained() && blocks != [] && block == end && end + size <= LIMIT && size >= MIN_BLOCK
      requires Header(window.words, Block(block, size, true), 0, 0)
      modifies this`blocks, window`words, window.mmu`tlb, window.mmu.ram
      ensures window.Outside() == old(window.Outside())
      ensures window.Valid() && Encoded(window.words, blocks) && blocks == Grow(old(blocks), end, size)
      ensures Keeps(old(blocks), old(window.words), window.words)
    {
      hide Window.Outside, Window.Valid, Tiles, InPayload, Flag, WithFlag, Encoded;
      ghost var k := |blocks| - 1;
      Fields(k);
      Bounds(blocks, end, k);
      LastEnds(blocks, end);
      SizeEncodes(window.words, blocks, end, k, blocks[k].size + size);
      TailLinks(window.words, blocks, end, size);
      var last := FindLast();
      var free := IsFree(last, k);
      var lastSize := SizeOf(last, k);
      if free && last + lastSize == block {
        window.Store(last, lastSize + size);
        blocks := blocks[k := Block(last, lastSize + size, true)];
      } else {
        window.Store(block + 12, last);
        window.Store(last + 8, block);
        blocks := blocks + [Block(block, size, true)];
      }
    }

    // The pages are mapped and joined to the list, or neither.
    method GrowBy(pages: nat, ghost to: nat) returns (ok: bool)
      requires Valid() && pages > 0 && 4096 * to == end + 4096 * pages
      modifies this, window, window.mmu`tlb, window.mmu.ram,
        window.mmu.pmm`usedCount, window.mmu.pmm`held, window.mmu.pmm.bitmap
      ensures Valid() && Confined(old(window.Snapshot()), window.Snapshot(), window.mmu.pd)
      ensures Spent(old(window.Snapshot()), window.Snapshot(), to, ok)
      ensures end == (if ok then old(end) + 4096 * pages else old(end)) <= LIMIT
      ensures blocks == if ok then Grow(old(blocks), old(end), 4096 * pages) else old(blocks)
      ensures Keeps(old(blocks), old(window.words), window.words)
    {
      hide Spent, Encoded, Tiles, NoFreeNeighbours, InPayload, Carried, Keeps, Confined, Grow, Window.PagesOwned,
        Window.FramesDistinct, Window.Mirrors, AddressSpace.Tables, AddressSpace.Coherent,
        AddressSpace.TablesNotFree, FrameAllocator.Valid, AddressSpace.Translations, FrameAllocator.Free,
        FrameAllocator.Used;
      window.TopBound();
      ghost var bs, m := blocks, window.words;
      ok := MapPages(pages, to);
      EncodedInMore(m, window.words, bs);
      ghost var n := window.words;
      if ok {
        AddTail(end + 4096 * pages);
        KeepsOn(bs, bs, m, n, window.words);
      }
    }

    // kheap_extend. On failure the heap is as it was, though frames may have been spent.
    method Extend(minBytes: U32) returns (ok: bool)
      requires Valid() && (minBytes + 4095 < TWO32 || end == LIMIT)
      modifies this, window, window.mmu`tlb, window.mmu.ram,
        window.mmu.pmm`usedCount, window.mmu.pmm`held, window.mmu.pmm.bitmap
      ensures Valid() && Confined(old(window.Snapshot()), window.Snapshot(), window.mmu.pd)
      ensures ok == CanGrow(old(Now()), minBytes) && Now() == AfterGrowth(old(Now()), minBytes)
      ensures if ok then var more := end - old(end);
                         && more % 4096 == 0 && more >= minBytes && more >= 16384
                         && (more > 16384 ==> more < minBytes + 4096)
              else end == old(end) && blocks == old(blocks)
      ensures Keeps(old(blocks), old(window.words), window.words)
    {
      hide Encoded, Tiles, NoFreeNeighbours, InPayload, Confined, GrowPages, Grow, Window.PagesOwned,
        Window.FramesDistinct, Window.Mirrors, AddressSpace.Tables, AddressSpace.Coherent,
        AddressSpace.TablesNotFree, AddressSpace.Translations, FrameAllocator.Used, FrameAllocator.Free,
        AddressSpace.Installed, Spent, CanGrow, AfterGrowth, SupplyOf, SupplyIn, TablesIn;
      ghost var m, w := Now(), window.Snapshot();
      NowInSnapshot();
      EndOnPage();
      if end - KHEAP_START >= KHEAP_MAX_BYTES {
        ConfinedIsReflexive(window.Snapshot(), window.mmu.pd);
        FullHeap(m, minBytes);
        return false;
      }
      GrowBytesSuffices(minBytes);
      ghost var to := end / 4096 + GrowPages(minBytes);
      ok := GrowBy(GrowPages(minBytes), to);
      NowInSnapshot();
      GrowthOf(m, Now(), w, window.Snapshot(), minBytes, ok);
      if ok {
        GrowthInBytes(m, minBytes);
      }
    }

    lemma EndOnPage()
      requires Valid()
      ensures window.Snapshot().top == end && KHEAP_START <= end <= LIMIT && end % 4096 == 0
    {
      hide Encoded, Tiles;
    }

    // ---------------------------------------------------------------- kmalloc

    // The first-fit scan of kmalloc.
    method FindFit(needed: U32) returns (cur: U32, ghost i: nat)
      requires Linked()
      modifies window.mmu`tlb
      ensures Linked() && i == FirstFit(blocks, needed)
      ensures if i < |blocks| then cur == blocks[i].addr && cur != 0 else cur == 0
    {
      FirstBlock();
      hide Chained, Linked, FirstFit;
      cur, i := first, 0;
      while cur != 0
        invariant Linked() && i <= |blocks|
        invariant if i < |blocks| then cur == blocks[i].addr && cur != 0 else cur == 0
        invariant forall j :: 0 <= j < i ==> !Fits(blocks[j], needed)
        decreases |blocks| - i
      {
        var free := IsFree(cur, i);
        if free {
          var size := SizeOf(cur, i);
          if size >= needed {
            return;
          }
        }
        cur := NextOf(cur, i);
        i := i + 1;
      }
    }

    // One pass of the loop of kmalloc: the lowest fitting block is taken, if there is one.
    method TakeFit(needed: U32) returns (ptr: U32)
      requires Valid() && needed % 8 == 0 && needed >= MIN_BLOCK
      modifies this`blocks, window`words, window.mmu`tlb, window.mmu.ram
      ensures Valid() && window.Snapshot() == old(window.Snapshot())
      ensures var h := Heap(old(blocks), end);
              if ptr != 0 then Takes(h, needed, Heap(blocks, end), ptr) else NoFit(h, needed) && blocks == old(blocks)
      ensures Keeps(old(blocks), old(window.words), window.words)
    {
      hide Chained, Linked, FirstFit, InPayload, NoFreeNeighbours, SplitAt;
      var cur, i := FindFit(needed);
      if cur == 0 {
        return 0;
      }
      Reads(i);
      SplitKeepsApart(blocks, i, needed);
      Split(cur, needed, i);
      ptr := cur + HEADER;
    }

    // One turn of the loop of kmalloc: the scan, and the growth when it finds nothing.
    method TakeOrGrow(needed: U32) returns (ptr: U32, ok: bool)
      requires Valid() && (needed + 4095 < TWO32 || end == LIMIT) && needed % 8 == 0 && needed >= MIN_BLOCK
      modifies this, window, window.mmu`tlb, window.mmu.ram,
        window.mmu.pmm`usedCount, window.mmu.pmm`held, window.mmu.pmm.bitmap
      ensures Valid() && Confined(old(window.Snapshot()), window.Snapshot(), window.mmu.pd)
      ensures Keeps(old(blocks), old(window.words), window.words)
      ensures if ptr != 0
              then !ok && !NoFit(old(Now()).heap, needed) && (Now(), ptr as int) == Serve(old(Now()), needed)
              else && NoFit(old(Now()).heap, needed)
                   && ok == CanGrow(old(Now()), needed) && Now() == AfterGrowth(old(Now()), needed)
    {
      hide Linked, Takes, NoFit, InPayload, Confined, CanGrow, AfterGrowth, Serve, Keeps, StillLive,
        NoFreeNeighbours, TablesIn, AddressSpace.Installed, FrameAllocator.Free, AddressSpace.Translations,
        FrameAllocator.Used, SupplyOf, SupplyIn;
      ghost var w, bs, m := window.Snapshot(), blocks, window.words;
      ghost var now := Now();
      NowInSnapshot();
      ConfinedIsReflexive(w, window.mmu.pd);
      StillLiveItself(bs);
      ok := false;
      ptr := TakeFit(needed);
      NowInSnapshot();
      if ptr != 0 {
        TakesServes(now, Now(), needed, ptr);
        return;
      }
      ghost var n := window.words;
      ok := Extend(needed);
      KeepsOn(bs, bs, m, n, window.words);
    }

    // The loop of kmalloc. It grows the heap at most once; `grew` tells whether it did.
    method Allocate(needed: U32) returns (ptr: U32, ghost grew: bool)
      requires Valid() && (needed + 4095 < TWO32 || end == LIMIT) && needed % 8 == 0 && needed >= MIN_BLOCK
      modifies this, window, window.mmu`tlb, window.mmu.ram,
        window.mmu.pmm`usedCount, window.mmu.pmm`held, window.mmu.pmm.bitmap
      ensures Valid() && Confined(old(window.Snapshot()), window.Snapshot(), window.mmu.pd)
      ensures (Now(), ptr as int) == Grant(old(Now()), needed)
      ensures Gives(old(Now()).heap, needed, grew, Now().heap, ptr)
      ensures Keeps(old(blocks), old(window.words), window.words)
    {
      hide Linked, NoFit, InPayload, Confined, Gives, Grant, Serve, Fine, CanGrow, AfterGrowth, Keeps, StillLive,
        NoFreeNeighbours, AddressSpace.Installed, FrameAllocator.Free, AddressSpace.Translations,
        FrameAllocator.Used;
      ghost var w, m, mine := window.Snapshot(), Now(), window.words;
      ConfinedIsReflexive(w, window.mmu.pd);
      HeapFine();
      StillLiveItself(blocks);
      KeepsItself(blocks, mine);
      grew := false;
      while true
        invariant Valid() && Confined(w, window.Snapshot(), window.mmu.pd)
        invariant Keeps(m.heap.blocks, mine, window.words) && StillLive(m.heap.blocks, blocks)
        invariant if grew then CanGrow(m, needed) && NoFit(m.heap, needed) && Now() == AfterGrowth(m, needed)
                  else Now() == m
        invariant needed + 4095 < TWO32 || end == LIMIT
        decreases !grew
      {
        ghost var v, now, words := window.Snapshot(), Now(), window.words;
        var ok;
        ptr, ok := TakeOrGrow(needed);
        KeepsOn(m.heap.blocks, now.heap.blocks, mine, words, window.words);
        ConfinedIsTransitive(w, v, window.Snapshot(), window.mmu.pd);
        TurnGrants(m, needed, grew, Now(), ptr);
        if !ok {
          return;
        }
        GrownStaysLive(m, needed);
        grew := true;
      }
    }

    lemma HeapFine()
      requires Valid()
      ensures Fine(Now().heap)
    {
      hide Window.Mirrors, Window.PagesOwned, Window.FramesDistinct, Encoded;
    }

    // kmalloc
    method Kmalloc(size: U32) returns (ptr: U32, ghost grew: bool)
      requires Valid() && (Needed(size) + 4095 < TWO32 || end == LIMIT)
      modifies this, window, window.mmu`tlb, window.mmu.ram,
        window.mmu.pmm`usedCount, window.mmu.pmm`held, window.mmu.pmm.bitmap
      ensures Valid() && Confined(old(window.Snapshot()), window.Snapshot(), window.mmu.pd)
      ensures size == 0 ==> ptr == 0 && Now() == old(Now())
      ensures size > 0 ==> (Now(), ptr as int) == Grant(old(Now()), Needed(size))
      ensures size > 0 ==> Gives(old(Now()).heap, Needed(size), grew, Now().heap, ptr)
      ensures Keeps(old(blocks), old(window.words), window.words)
    {
      hide Linked, InPayload, NoFreeNeighbours, Align8, Confined, Gives, Grant, Keeps, AddressSpace.Installed,
        FrameAllocator.Free, AddressSpace.Translations, FrameAllocator.Used;
      if size == 0 {
        ConfinedIsReflexive(window.Snapshot(), window.mmu.pd);
        KeepsItself(blocks, window.words);
        return 0, false;
      }
      var needed := Align8(Add32(size, HEADER));
      if needed < MIN_BLOCK {
        needed := MIN_BLOCK;
      }
      assert needed == Needed(size);
      ptr, grew := Allocate(needed);
    }

    // kheap_init, on an empty heap.
    method Init()
      requires Valid() && blocks == [] && end == KHEAP_START
      modifies this, window, window.mmu`tlb, window.mmu.ram,
        window.mmu.pmm`usedCount, window.mmu.pmm`held, window.mmu.pmm.bitmap
      ensures Valid() && Confined(old(window.Snapshot()), window.Snapshot(), window.mmu.pd)
      ensures Now() == AfterGrowth(old(Now()), 4096)
    {
      hide Linked, Confined, CanGrow, AfterGrowth, AddressSpace.Installed, FrameAllocator.Free;
      var ok := Extend(4096);
    }

    // ---------------------------------------------------------------- the user's accesses

    // A store to a live payload. It reaches no header and no page table.
    method UserStore(a: U32, w: U32)
      requires Valid() && a % 4 == 0 && InPayload(blocks, a)
      modifies window`words, window.mmu`tlb, window.mmu.ram
      ensures Valid() && window.Snapshot() == old(window.Snapshot()) && Now() == old(Now())
      ensures window.words == old(window.words)[a := w]
    {
      hide Encoded, Tiles, InPayload, NoFreeNeighbours, AddressSpace.Installed, AddressSpace.Translations, TablesIn,
        Window.Mirrors, Window.PagesOwned, Window.FramesDistinct;
      NowInSnapshot();
      PayloadInside(blocks, end, a);
      window.Domain(a);
      PayloadWriteEncodes(window.words, blocks, end, a, w);
      window.Store(a, w);
      NowInSnapshot();
    }

    method UserLoad(a: U32) returns (w: U32)
      requires Valid() && a % 4 == 0 && InPayload(blocks, a)
      modifies window.mmu`tlb
      ensures Valid() && a in window.words && w == window.words[a]
    {
      PayloadInside(blocks, end, a);
      window.Domain(a);
      hide Window.Valid, Encoded, Tiles, InPayload, NoFreeNeighbours;
      w := window.Load(a);
    }
  }
}
