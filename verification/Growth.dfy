// What growing the heap takes of the rest of the machine: frames for its pages and for the
// page tables that they need, to the last frame.

module Growth {
  import opened Common
  import opened Pmm
  import opened HeapModel

  // The free frames, the directory entries that hold a page table, and the next page to map.
  datatype Supply = Supply(free: set<nat>, tables: set<nat>, page: nat)

  ghost function TakeFrom(free: set<nat>): set<nat> {
    free - {LeastFree(free)}
  }

  // The page lies within the limit of the heap, there is a frame for it, and there is a table
  // for it or one more frame.
  ghost predicate CanAdd(s: Supply) {
    && 4096 * s.page + 4096 <= LIMIT && LeastFree(s.free) != 0
    && (s.page / 1024 in s.tables || LeastFree(TakeFrom(s.free)) != 0)
  }

  // The frame of the page is taken first, the one of the table second.
  ghost function Add(s: Supply): Supply {
    var one := TakeFrom(s.free);
    Supply(if s.page / 1024 in s.tables then one else TakeFrom(one), s.tables + {s.page / 1024}, s.page + 1)
  }

  // Mapping page by page up to page q: it stops at the first page that cannot be had, and
  // what was taken until then is spent.
  ghost function GrowTo(s: Supply, q: nat): Supply
    decreases q - s.page
  {
    if s.page >= q || !CanAdd(s) then s else GrowTo(Add(s), q)
  }

  lemma GrowToStops(s: Supply, q: nat)
    requires s.page >= q || !CanAdd(s)
    ensures GrowTo(s, q) == s
  {
  }

  // Growth that gets anywhere stays within the limit.
  lemma {:induction false} GrowToWithin(s: Supply, q: nat)
    ensures GrowTo(s, q).page >= q && s.page < q ==> 4096 * q <= LIMIT
    ensures s.page <= q ==> GrowTo(s, q).page <= q
    decreases q - s.page
  {
    hide LeastFree;
    if s.page < q && CanAdd(s) {
      GrowToWithin(Add(s), q);
    }
  }

  // ---------------------------------------------------------------- the price

  // The frames that mapping page p takes: the page's, and a table's if there is none yet.
  ghost function PageCost(tables: set<nat>, p: nat): nat {
    if p / 1024 in tables then 1 else 2
  }

  ghost function RunCost(tables: set<nat>, p: nat, n: nat): nat
    decreases n
  {
    if n == 0 then 0 else PageCost(tables, p) + RunCost(tables + {p / 1024}, p + 1, n - 1)
  }

  ghost function Between(lo: nat, hi: nat): (s: set<nat>)
    ensures forall t: nat :: t in s <==> lo <= t <= hi
    decreases hi + 1 - lo
  {
    if lo > hi then {} else {lo} + Between(lo + 1, hi)
  }

  // The directory entries that n pages from page p on fall under.
  ghost function Spanned(p: nat, n: nat): set<nat> {
    if n == 0 then {} else Between(p / 1024, (p + n - 1) / 1024)
  }

  // A run of pages costs a frame for each page and one for each table that is missing.
  lemma {:induction false} RunCostCounts(tables: set<nat>, p: nat, n: nat)
    ensures RunCost(tables, p, n) == n + |Spanned(p, n) - tables|
    decreases n
  {
    hide Spanned, Between;
    if n > 0 {
      CostAtLeast(tables, p, n);
      RunCostCounts(tables + {p / 1024}, p + 1, n - 1);
      SpannedStep(p, n);
      OneMissing(Spanned(p + 1, n - 1), tables, p / 1024);
    } else {
      NothingSpanned(p, tables);
    }
  }

  lemma NothingSpanned(p: nat, tables: set<nat>)
    ensures RunCost(tables, p, 0) == 0 && Spanned(p, 0) - tables == {}
  {
  }

  lemma SpannedStep(p: nat, n: nat)
    requires n > 0
    ensures Spanned(p, n) == Spanned(p + 1, n - 1) + {p / 1024}
  {
    if n > 1 {
      forall t: nat ensures t in Spanned(p, n) <==> t in Spanned(p + 1, n - 1) + {p / 1024} {
      }
    }
  }

  lemma OneMissing(rest: set<nat>, tables: set<nat>, t: nat)
    ensures |(rest + {t}) - tables| == |rest - (tables + {t})| + if t in tables then 0 else 1
  {
    var left := rest - (tables + {t});
    if t in tables {
      assert (rest + {t}) - tables == left;
    } else {
      assert (rest + {t}) - tables == left + {t};
    }
  }

  lemma TakeCounts(free: set<nat>)
    requires 0 !in free
    ensures LeastFree(free) == 0 <==> |free| == 0
    ensures |TakeFrom(free)| == (if |free| == 0 then 0 else |free| - 1) && 0 !in TakeFrom(free)
  {
    SizeOfChanged(free, LeastFree(free), false);
  }

  lemma AddCounts(s: Supply)
    requires 0 !in s.free
    ensures CanAdd(s) <==> 4096 * s.page + 4096 <= LIMIT && PageCost(s.tables, s.page) <= |s.free|
    ensures CanAdd(s) ==> |Add(s).free| == |s.free| - PageCost(s.tables, s.page)
    ensures 0 !in Add(s).free
  {
    TakeCounts(s.free);
    TakeCounts(TakeFrom(s.free));
    hide LeastFree, TakeFrom;
  }

  // Growth reaches page q exactly when that is within the limit and its price can be paid;
  // then the price is what it takes. Growth that stops for want of frames leaves at most one.
  lemma {:induction false} GrowToCounts(s: Supply, q: nat)
    requires 0 !in s.free && s.page < q
    ensures GrowTo(s, q).page >= q <==> 4096 * q <= LIMIT && RunCost(s.tables, s.page, q - s.page) <= |s.free|
    ensures GrowTo(s, q).page >= q ==> |GrowTo(s, q).free| == |s.free| - RunCost(s.tables, s.page, q - s.page)
    ensures GrowTo(s, q).page < q && 4096 * q <= LIMIT ==> |GrowTo(s, q).free| <= 1
    ensures 0 !in GrowTo(s, q).free && GrowTo(s, q).page <= q
    decreases q - s.page
  {
    hide CanAdd, LeastFree, PageCost, TakeFrom;
    AddCounts(s);
    CostAtLeast(s.tables, s.page, q - s.page);
    if CanAdd(s) {
      var t := Add(s);
      assert t.page == s.page + 1 && t.tables == s.tables + {s.page / 1024};
      if t.page < q {
        GrowToCounts(t, q);
      } else {
        GrowToStops(t, q);
        NoCost(t.tables, t.page);
      }
    }
  }

  lemma CostAtLeast(tables: set<nat>, p: nat, n: nat)
    requires n > 0
    ensures RunCost(tables, p, n) == PageCost(tables, p) + RunCost(tables + {p / 1024}, p + 1, n - 1)
    ensures 1 <= PageCost(tables, p) <= 2
  {
  }

  lemma NoCost(tables: set<nat>, p: nat)
    ensures RunCost(tables, p, 0) == 0
  {
  }

  // ---------------------------------------------------------------- the heap and its supply

  // Everything that decides what the heap's operations answer.
  datatype Memory = Memory(heap: Heap, free: set<nat>, tables: set<nat>)

  ghost function SupplyOf(m: Memory): Supply {
    Supply(m.free, m.tables, if m.heap.end < 0 then 0 else m.heap.end / 4096)
  }

  ghost function GrownSupply(m: Memory, minBytes: U32): Supply {
    GrowTo(SupplyOf(m), SupplyOf(m).page + GrowPages(minBytes))
  }

  // There is room for the pages of kheap_extend, and frames for them and for their tables.
  ghost predicate CanGrow(m: Memory, minBytes: U32) {
    Extends(m.heap, minBytes) && GrownSupply(m, minBytes).page >= SupplyOf(m).page + GrowPages(minBytes)
  }

  // kheap_extend: the heap grows or stays, and either way the frames taken are gone.
  ghost function AfterGrowth(m: Memory, minBytes: U32): Memory {
    var t := GrownSupply(m, minBytes);
    Memory(if CanGrow(m, minBytes) then Grown(m.heap, minBytes) else m.heap, t.free, t.tables)
  }

  // kmalloc: the memory after it, and its answer.
  ghost function Grant(m: Memory, needed: U32): (Memory, int) {
    if !NoFit(m.heap, needed) then Serve(m, needed)
    else
      var g := AfterGrowth(m, needed);
      if CanGrow(m, needed) then Serve(g, needed) else (g, 0)
  }

  // The lowest fitting block is taken.
  ghost function Serve(m: Memory, needed: U32): (Memory, int) {
    if NoFit(m.heap, needed) then (m, 0)
    else
      var i := FirstFit(m.heap.blocks, needed);
      (m.(heap := Taken(m.heap, needed)), m.heap.blocks[i].addr + HEADER)
  }

  lemma ServesAboveZero(m: Memory, needed: U32)
    requires Fine(m.heap)
    ensures Serve(m, needed).1 == 0 <==> NoFit(m.heap, needed)
    ensures 0 <= Serve(m, needed).1 < LIMIT
  {
    hide Tiles, Taken;
    if !NoFit(m.heap, needed) {
      Bounds(m.heap.blocks, m.heap.end, FirstFit(m.heap.blocks, needed));
      RoomForHeader(m.heap.blocks, m.heap.end, FirstFit(m.heap.blocks, needed));
    }
  }

  // kmalloc answers null exactly when no block fits and the heap cannot grow.
  lemma NullExactlyWhen(m: Memory, needed: U32)
    requires Fine(m.heap)
    ensures Grant(m, needed).1 == 0 <==> NoFit(m.heap, needed) && !CanGrow(m, needed)
    ensures 0 <= Grant(m, needed).1 < LIMIT
  {
    hide Fine, FirstFit, GrownSupply, Grown, Serve;
    ServesAboveZero(m, needed);
    if CanGrow(m, needed) {
      GrownFits(m.heap, needed);
      ServesAboveZero(AfterGrowth(m, needed), needed);
    }
  }

  // With n the least number of pages, four at least, that holds the bytes: the heap can grow
  // exactly when the n pages stay within 16 MiB and there is a free frame for each of them and
  // for each page table that is missing; then that is what it takes. A growth past the limit
  // takes the pages up to it. One that fails for want of frames leaves at most one.
  lemma GrowthPrice(m: Memory, minBytes: U32, n: nat)
    requires 0 !in m.free && m.heap.end >= 0 && m.heap.end % 4096 == 0 && minBytes + 4095 < TWO32
    requires LeastPages(n, minBytes)
    ensures var p := m.heap.end / 4096;
            var price := n + |Spanned(p, n) - m.tables|;
            && CanGrow(m, minBytes) == (m.heap.end + 4096 * n <= LIMIT && price <= |m.free|)
            && (CanGrow(m, minBytes) ==>
                  AfterGrowth(m, minBytes).heap.end == m.heap.end + 4096 * n
                  && |AfterGrowth(m, minBytes).free| == |m.free| - price)
            && (m.heap.end + 4096 * n <= LIMIT && price > |m.free| ==> |AfterGrowth(m, minBytes).free| <= 1)
            && 0 !in AfterGrowth(m, minBytes).free
    ensures var p, k := m.heap.end / 4096, (LIMIT - m.heap.end) / 4096;
            m.heap.end <= LIMIT < m.heap.end + 4096 * n ==>
              var price := k + |Spanned(p, k) - m.tables|;
              if price <= |m.free| then |AfterGrowth(m, minBytes).free| == |m.free| - price
              else |AfterGrowth(m, minBytes).free| <= 1
  {
    hide GrowPages, GrowTo, RunCost, Spanned, Grow;
    var p := m.heap.end / 4096;
    GrowBytesSuffices(minBytes);
    LeastPagesUnique(GrowPages(minBytes), n, minBytes);
    GrowToCounts(SupplyOf(m), p + n);
    RunCostCounts(m.tables, p, n);
    if m.heap.end <= LIMIT < m.heap.end + GrowBytes(minBytes) {
      RefusedAtLimit(m, minBytes);
    }
  }

  // In bytes: whole pages, 16 KiB at least, and less than a page more than was asked for.
  lemma GrowthInBytes(m: Memory, minBytes: U32)
    requires CanGrow(m, minBytes)
    ensures var more := AfterGrowth(m, minBytes).heap.end - m.heap.end;
            && more % 4096 == 0 && more >= minBytes && more >= 16384 && (more > 16384 ==> more < minBytes + 4096)
  {
    hide Grow, GrownSupply;
    GrowBytesSuffices(minBytes);
  }

  // A free block has r bytes, or n pages stay within 16 MiB and there is a free frame for each
  // of them and for each page table that is missing.
  ghost predicate CanHave(m: Memory, r: nat, n: nat)
    requires m.heap.end >= 0
  {
    || (exists b :: b in m.heap.blocks && b.free && b.size >= r)
    || (m.heap.end + 4096 * n <= LIMIT && n + |Spanned(m.heap.end / 4096, n) - m.tables| <= |m.free|)
  }

  // A request is served exactly when the least block for it, or the least pages for that, can
  // be had.
  lemma GrantExactly(m: Memory, size: U32, r: nat, n: nat)
    requires Fine(m.heap) && 0 !in m.free && m.heap.end >= 0 && m.heap.end % 4096 == 0
    requires size + 4118 < TWO32 && LeastBlock(r, size) && LeastPages(n, r)
    ensures Grant(m, Needed(size)).1 != 0 <==> CanHave(m, r, n)
  {
    hide Fine, Needed, Grant, CanGrow, AfterGrowth, Spanned;
    NeededIsLeast(size, r);
    NullExactlyWhen(m, r);
    GrowthPrice(m, r, n);
    if !NoFit(m.heap, r) {
      assert m.heap.blocks[FirstFit(m.heap.blocks, r)] in m.heap.blocks;
    } else {
      forall b | b in m.heap.blocks ensures !(b.free && b.size >= r) {
        assert !Fits(b, r);
      }
    }
  }

  // Growth only takes frames.
  lemma {:induction false} GrowToTakes(s: Supply, q: nat)
    ensures GrowTo(s, q).free <= s.free
    decreases q - s.page
  {
    hide LeastFree;
    if s.page < q && CanAdd(s) {
      GrowToTakes(Add(s), q);
    }
  }

  lemma GrantTakes(m: Memory, needed: U32)
    ensures Grant(m, needed).0.free <= m.free
  {
    hide GrowTo, FirstFit, Taken, Grown, GrowPages;
    GrowToTakes(SupplyOf(m), SupplyOf(m).page + GrowPages(needed));
  }

  // ---------------------------------------------------------------- growth that is refused

  // Beyond the limit growth goes exactly as far as to the limit.
  lemma {:induction false} GrowToLimit(s: Supply, q: nat)
    requires s.page <= LIMIT / 4096 <= q
    ensures GrowTo(s, q) == GrowTo(s, LIMIT / 4096)
    decreases q - s.page
  {
    hide LeastFree, TakeFrom;
    if s.page < q && CanAdd(s) {
      GrowToLimit(Add(s), q);
    }
  }

  lemma {:induction false} GrowToSpends(s: Supply, q: nat)
    requires 0 !in s.free
    ensures s.page < q && CanAdd(s) <==> |GrowTo(s, q).free| < |s.free|
    ensures GrowTo(s, q).free <= s.free
    ensures !(s.page < q && CanAdd(s)) ==> GrowTo(s, q) == s
    decreases q - s.page
  {
    hide CanAdd, LeastFree, PageCost, TakeFrom;
    AddCounts(s);
    CostAtLeast(s.tables, s.page, 1);
    AddTakes(s);
    if s.page < q && CanAdd(s) {
      GrowToSpends(Add(s), q);
    }
  }

  lemma AddTakes(s: Supply)
    ensures Add(s).free <= s.free
  {
    hide LeastFree;
  }

  // A growth that is refused takes no frame exactly when not even its first page can be had:
  // the heap is full, or there is no frame for that page or for its page table.
  lemma RefusedForNothing(m: Memory, minBytes: U32)
    requires 0 !in m.free && 0 <= m.heap.end <= LIMIT && m.heap.end % 4096 == 0 && minBytes + 4095 < TWO32
    requires !CanGrow(m, minBytes)
    ensures AfterGrowth(m, minBytes).free == m.free
            <==> m.heap.end == LIMIT || PageCost(m.tables, m.heap.end / 4096) > |m.free|
  {
    hide GrowPages, GrowTo, CanAdd, PageCost, Grow;
    GrowBytesSuffices(minBytes);
    GrowToSpends(SupplyOf(m), SupplyOf(m).page + GrowPages(minBytes));
    AddCounts(SupplyOf(m));
  }

  // A growth past the limit takes all pages up to it, as far as the frames go, before it is
  // refused.
  lemma RefusedAtLimit(m: Memory, minBytes: U32)
    requires 0 !in m.free && 0 <= m.heap.end <= LIMIT && m.heap.end % 4096 == 0 && minBytes + 4095 < TWO32
    requires m.heap.end + minBytes > LIMIT || m.heap.end + 16384 > LIMIT
    ensures !CanGrow(m, minBytes)
    ensures var p, n := m.heap.end / 4096, (LIMIT - m.heap.end) / 4096;
            var price := n + |Spanned(p, n) - m.tables|;
            if price <= |m.free| then |AfterGrowth(m, minBytes).free| == |m.free| - price
            else |AfterGrowth(m, minBytes).free| <= 1
  {
    hide GrowPages, GrowTo, RunCost, Spanned, Grow;
    GrowBytesSuffices(minBytes);
    var s, p, n := SupplyOf(m), m.heap.end / 4096, (LIMIT - m.heap.end) / 4096;
    GrowToLimit(s, p + GrowPages(minBytes));
    RunCostCounts(m.tables, p, n);
    if n > 0 {
      GrowToCounts(s, p + n);
    } else {
      GrowToStops(s, p + n);
      NothingSpanned(p, m.tables);
    }
  }

  // kmalloc of 16 MiB on the first heap answers null, and takes 4092 frames for pages and three
  // for page tables.
  lemma SixteenMebibytes(m: Memory)
    requires m.heap == FirstHeap() && 0 !in m.free && |m.free| >= 4095
    requires 776 in m.tables && 777 !in m.tables && 778 !in m.tables && 779 !in m.tables
    ensures var (n, ptr) := Grant(m, Needed(0x100_0000));
            ptr == 0 && n.heap == m.heap && |n.free| == |m.free| - 4095
  {
    hide GrowTo, Serve, Between;
    assert Needed(0x100_0000) == 0x100_0010;
    assert FirstFit(m.heap.blocks, 0x100_0010) == 1;
    RefusedAtLimit(m, 0x100_0010);
    assert Spanned(0xC_2004, 4092) == Between(776, 779);
    ThreeTables(m.tables);
  }

  lemma ThreeTables(tables: set<nat>)
    requires 776 in tables && 777 !in tables && 778 !in tables && 779 !in tables
    ensures |Between(776, 779) - tables| == 3
  {
    assert Between(776, 779) - tables == {777, 778, 779};
  }
}
