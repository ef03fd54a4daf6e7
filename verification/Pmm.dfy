// The physical frame allocator: a bitmap and a counter that refine a finite set of
// free frames, built at boot from the Multiboot memory map.

module Pmm {
  import opened Common
  import opened Multiboot

  const PAGE_SIZE := 4096
  const MAX_FRAMES := 32768

  // ---------------------------------------------------------------- bits of the bitmap

  // `1u << k`
  function Mask(k: nat): (m: bv8)
    requires k < 8
    ensures m == 1 << k
  {
    match k
    case 0 => 1 case 1 => 2 case 2 => 4 case 3 => 8
    case 4 => 16 case 5 => 32 case 6 => 64 case _ => 128
  }

  predicate Bit(b: bv8, k: nat)
    requires k < 8
  {
    b & Mask(k) != 0
  }

  lemma BitsAfterUpdate(b: bv8, k: nat, j: nat)
    requires k < 8 && j < 8
    ensures Bit(b | Mask(k), j) == (j == k || Bit(b, j))
    ensures Bit(b & !Mask(k), j) == (j != k && Bit(b, j))
  {
    BitSet(b, k, j);
    BitCleared(b, k, j);
  }

  lemma BitSet(b: bv8, k: nat, j: nat)
    requires k < 8 && j < 8
    ensures Bit(b | Mask(k), j) == (j == k || Bit(b, j))
  {
  }

  lemma BitCleared(b: bv8, k: nat, j: nat)
    requires k < 8 && j < 8
    ensures Bit(b & !Mask(k), j) == (j != k && Bit(b, j))
  {
  }

  lemma BitsOfFullByte(j: nat)
    requires j < 8
    ensures Bit(0xFF, j)
  {
  }

  // ---------------------------------------------------------------- sets of frames

  ghost function Below(n: nat): (s: set<nat>)
    ensures forall f: nat :: f in s <==> f < n
    ensures |s| == n
  {
    if n == 0 then {} else Below(n - 1) + {n - 1}
  }

  ghost function Changed(s: set<nat>, f: nat, present: bool): set<nat> {
    if present then s + {f} else s - {f}
  }

  lemma SizeOfChanged(s: set<nat>, f: nat, present: bool)
    ensures |Changed(s, f, present)|
         == if (f in s) == present then |s| else if present then |s| + 1 else |s| - 1
  {
    assert f in s ==> s + {f} == s;
    assert f !in s ==> s - {f} == s;
  }

  // The least free frame other than frame 0, or 0 if there is none.
  ghost function LeastFree(free: set<nat>): (m: nat)
    ensures m == 0 <==> free <= {0}
    ensures m != 0 ==> m in free && forall f :: f in free && f != 0 ==> m <= f
  {
    if free <= {0} then 0
    else
      var x :| x in free && x != 0;
      var m := LeastFree(free - {x});
      assert free == (free - {x}) + {x};
      if m == 0 || x < m then x else m
  }

  // ---------------------------------------------------------------- regions of the map

  function AddrToFrame(addr: U32): nat {
    addr / 4096
  }

  function RegionStartFrame(addr: U64): nat {
    AddrToFrame(Truncate32(addr))
  }

  function RegionEndFrame(addr: U64, len: U64): nat {
    var end := Add64(addr, len);
    if end == 0 then 0 else AddrToFrame(Truncate32(end - 1)) + 1
  }

  predicate RegionUsable(kind: U32) {
    kind == MEMORY_AVAILABLE || kind == MEMORY_ACPI_RECLAIMABLE
  }

  // The frames that one map entry writes.
  predicate Covers(e: MmapEntry, f: nat) {
    RegionStartFrame(e.addr) <= f < RegionEndFrame(e.addr, e.len)
  }

  // The frames that hold a byte of the entry.
  predicate Meets(e: MmapEntry, f: nat) {
    e.len > 0 && e.addr < 4096 * f + 4096 && 4096 * f < e.addr + e.len
  }

  lemma FrameRange(first: nat, last: nat, f: nat)
    ensures first / 4096 <= f <= last / 4096 <==> first < 4096 * f + 4096 && 4096 * f <= last
  {
  }

  // The casts keep the low 32 bits of the first and of the last byte, and the entry writes
  // the frames from the one to the other.
  lemma CoversLowBits(e: MmapEntry, f: nat)
    ensures var end := Add64(e.addr, e.len);
            Covers(e, f) <==> end > 0 && e.addr % TWO32 < 4096 * f + 4096 && 4096 * f <= (end - 1) % TWO32
  {
    var end := Add64(e.addr, e.len);
    if end > 0 {
      FrameRange(e.addr % TWO32, (end - 1) % TWO32, f);
    }
  }

  // An entry that spans no multiple of 4 GiB writes what the same entry below 4 GiB would.
  lemma CoversAsIfLow(e: MmapEntry, f: nat)
    requires e.len > 0 && e.addr + e.len < TWO64 && e.addr / TWO32 == (e.addr + e.len - 1) / TWO32
    ensures Covers(e, f) <==> Meets(MmapEntry(e.addr % TWO32, e.len, e.kind), f)
  {
    CoversLowBits(e, f);
    var high := e.addr / TWO32;
    assert e.addr == TWO32 * high + e.addr % TWO32;
    assert e.addr + e.len - 1 == TWO32 * high + (e.addr + e.len - 1) % TWO32;
    hide Covers;
  }

  // When an entry writes exactly the frames that hold its bytes: if it has any, it must end
  // by 4 GiB, and if it has none, it must start on a page, and at 0 or at no multiple of 4 GiB.
  predicate WellPlaced(e: MmapEntry) {
    if e.len > 0 then e.addr + e.len <= TWO32
    else e.addr % 4096 == 0 && (e.addr == 0 || e.addr % TWO32 != 0)
  }

  lemma CoversExactly(e: MmapEntry)
    ensures (forall f: nat :: Covers(e, f) <==> Meets(e, f)) <==> WellPlaced(e)
  {
    if WellPlaced(e) {
      forall f: nat ensures Covers(e, f) <==> Meets(e, f) {
        CoversIsIntersection(e, f);
      }
    } else {
      var f := Misplaced(e);
    }
  }

  lemma CoversIsIntersection(e: MmapEntry, f: nat)
    requires WellPlaced(e)
    ensures Covers(e, f) <==> Meets(e, f)
  {
    CoversLowBits(e, f);
    hide Covers;
    if e.len == 0 && e.addr > 0 {
      LastByteBefore(e.addr);
      PageStart(e.addr % TWO32, f);
    }
  }

  lemma LastByteBefore(a: nat)
    requires a > 0
    ensures (a - 1) % TWO32 == if a % TWO32 == 0 then TWO32 - 1 else a % TWO32 - 1
    ensures a % TWO32 % 4096 == a % 4096
  {
    var q, r := a / TWO32, a % TWO32;
    assert a == TWO32 * q + r;
    if r == 0 {
      assert a - 1 == TWO32 * (q - 1) + (TWO32 - 1);
    } else {
      assert a - 1 == TWO32 * q + (r - 1);
    }
    assert a == 4096 * (0x10_0000 * q) + r;
  }

  lemma PageStart(a: nat, f: nat)
    requires a % 4096 == 0
    ensures !(a < 4096 * f + 4096 && 4096 * f <= a - 1)
  {
    assert a == 4096 * (a / 4096);
  }

  // A frame that a misplaced entry writes and does not meet, or meets and does not write.
  lemma Misplaced(e: MmapEntry) returns (f: nat)
    requires !WellPlaced(e)
    ensures Covers(e, f) != Meets(e, f)
  {
    hide Covers;
    if e.len > 0 {
      f := (e.addr + e.len - 1) / 4096;
      CoversLowBits(e, f);
      assert 4096 * f >= TWO32;
    } else {
      f := e.addr % TWO32 / 4096;
      CoversLowBits(e, f);
      LastByteBefore(e.addr);
      assert e.addr % TWO32 == 4096 * f + e.addr % TWO32 % 4096;
    }
  }

  // ---------------------------------------------------------------- what boot must compute

  datatype BootInfo = BootInfo(valid: bool, mmap: seq<MmapEntry>, memUpperKb: U32)

  // Physical addresses of the linker symbols that pmm_init protects.
  datatype Layout = Layout(kernelEnd: U32, pageDirectory: U32, pageTable1: U32,
                           stackBottom: U32, stackTop: U32, bitmap: U32)

  // The last map entry that covers `f`, among the first `n`, is usable.
  ghost predicate LastEntryUsable(mmap: seq<MmapEntry>, n: nat, f: nat)
    requires n <= |mmap|
  {
    exists i :: 0 <= i < n && Covers(mmap[i], f) && RegionUsable(mmap[i].kind)
                && forall j :: i < j < n ==> !Covers(mmap[j], f)
  }

  ghost predicate SomeUsable(mmap: seq<MmapEntry>, n: nat)
    requires n <= |mmap|
  {
    exists i :: 0 <= i < n && RegionUsable(mmap[i].kind)
  }

  lemma LastEntryStep(mmap: seq<MmapEntry>, n: nat, f: nat)
    requires n < |mmap|
    ensures LastEntryUsable(mmap, n + 1, f)
            <==> if Covers(mmap[n], f) then RegionUsable(mmap[n].kind) else LastEntryUsable(mmap, n, f)
  {
    hide Covers, RegionUsable;
    if Covers(mmap[n], f) {
      if LastEntryUsable(mmap, n + 1, f) {
        var i :| 0 <= i < n + 1 && Covers(mmap[i], f) && RegionUsable(mmap[i].kind)
                 && forall j :: i < j < n + 1 ==> !Covers(mmap[j], f);
        assert i == n;
      }
    } else if LastEntryUsable(mmap, n, f) {
      var i :| 0 <= i < n && Covers(mmap[i], f) && RegionUsable(mmap[i].kind)
               && forall j :: i < j < n ==> !Covers(mmap[j], f);
      assert forall j :: i < j < n + 1 ==> !Covers(mmap[j], f);
    }
  }

  lemma NoEntryYet(mmap: seq<MmapEntry>)
    ensures forall f: nat :: !LastEntryUsable(mmap, 0, f)
  {
  }

  function Fallback(memUpperKb: U32): MmapEntry {
    MmapEntry(0x0010_0000, memUpperKb * 1024, MEMORY_AVAILABLE)
  }

  // The frames that pmm_reserve_region writes: every frame that meets [start, end), and
  // one more.
  predicate InRegion(start: U32, end: U32, f: nat) {
    start < end && AddrToFrame(start) <= f < AddrToFrame(Add32(end, 4095)) + 1
  }

  // That is so as long as rounding up the end does not wrap; when it does, next to nothing is
  // reserved.
  lemma RegionIsIntervalAndOneMore(start: U32, end: U32, f: nat)
    ensures InRegion(start, end, f) <==>
              start < end
              && if end + 4095 < TWO32 then (start < 4096 * f + 4096 && 4096 * f < end) || f == (end + 4095) / 4096
                 else f == 0 && start < 4096
  {
    FrameRange(start, if end + 4095 < TWO32 then end + 4095 else end + 4095 - TWO32, f);
  }

  predicate ReservedAtBoot(layout: Layout, f: nat) {
    || f == 0
    || InRegion(0x0010_0000, layout.kernelEnd, f)
    || InRegion(layout.pageDirectory, Add32(layout.pageTable1, 4096), f)
    || InRegion(layout.stackBottom, layout.stackTop, f)
    || InRegion(layout.bitmap, Add32(layout.bitmap, MAX_FRAMES / 8), f)
  }

  ghost predicate FreeAtBoot(boot: BootInfo, layout: Layout, f: nat) {
    && !ReservedAtBoot(layout, f)
    && (|| LastEntryUsable(boot.mmap, |boot.mmap|, f)
        || (!SomeUsable(boot.mmap, |boot.mmap|) && boot.memUpperKb != 0 && Covers(Fallback(boot.memUpperKb), f)))
  }

  // ---------------------------------------------------------------- the same, by address

  // The frame holds a byte of [lo, hi).
  predicate HoldsByte(f: nat, lo: int, hi: int) {
    lo < hi && lo < 4096 * f + 4096 && 4096 * f < hi
  }

  // Rounding up the ends of what pmm_init protects does not wrap.
  predicate EndsFit(layout: Layout) {
    && layout.kernelEnd + 4095 < TWO32 && layout.pageTable1 + 8191 < TWO32
    && layout.stackTop + 4095 < TWO32 && layout.bitmap + 8191 < TWO32
  }

  // The frame holds no byte of the interrupt vectors, of the kernel's image, of the boot
  // directory and table, of the stack or of the bitmap.
  predicate Clear(layout: Layout, f: nat) {
    && f != 0
    && (layout.kernelEnd + 4095 < TWO32 ==> !HoldsByte(f, 0x10_0000, layout.kernelEnd))
    && (layout.pageTable1 + 8191 < TWO32 ==> !HoldsByte(f, layout.pageDirectory, layout.pageTable1 + 4096))
    && (layout.stackTop + 4095 < TWO32 ==> !HoldsByte(f, layout.stackBottom, layout.stackTop))
    && (layout.bitmap + 8191 < TWO32 ==> !HoldsByte(f, layout.bitmap, layout.bitmap + 4096))
  }

  // No other frame is free ...
  lemma ProtectedFrames(boot: BootInfo, layout: Layout)
    ensures forall f: nat :: FreeAtBoot(boot, layout, f) ==> Clear(layout, f)
  {
    hide HoldsByte, LastEntryUsable, SomeUsable, Covers, ReservedAtBoot;
    forall f: nat | FreeAtBoot(boot, layout, f) ensures Clear(layout, f) {
      UnreservedIsClear(layout, f);
    }
  }

  lemma UnreservedIsClear(layout: Layout, f: nat)
    requires !ReservedAtBoot(layout, f)
    ensures Clear(layout, f)
  {
    hide InRegion;
    RegionIsIntervalAndOneMore(0x10_0000, layout.kernelEnd, f);
    RegionIsIntervalAndOneMore(layout.pageDirectory, Add32(layout.pageTable1, 4096), f);
    RegionIsIntervalAndOneMore(layout.stackBottom, layout.stackTop, f);
    RegionIsIntervalAndOneMore(layout.bitmap, Add32(layout.bitmap, 4096), f);
  }

  // The frame past the end of a region, or past its last page.
  predicate PastEnd(f: nat, lo: int, hi: int) {
    lo < hi && f == (hi + 4095) / 4096
  }

  lemma ReservedByAddress(layout: Layout, f: nat)
    requires EndsFit(layout)
    ensures ReservedAtBoot(layout, f) <==>
              || f == 0
              || HoldsByte(f, 0x10_0000, layout.kernelEnd) || PastEnd(f, 0x10_0000, layout.kernelEnd)
              || HoldsByte(f, layout.pageDirectory, layout.pageTable1 + 4096)
              || PastEnd(f, layout.pageDirectory, layout.pageTable1 + 4096)
              || HoldsByte(f, layout.stackBottom, layout.stackTop) || PastEnd(f, layout.stackBottom, layout.stackTop)
              || HoldsByte(f, layout.bitmap, layout.bitmap + 4096) || PastEnd(f, layout.bitmap, layout.bitmap + 4096)
  {
    hide InRegion;
    RegionIsIntervalAndOneMore(0x10_0000, layout.kernelEnd, f);
    RegionIsIntervalAndOneMore(layout.pageDirectory, Add32(layout.pageTable1, 4096), f);
    RegionIsIntervalAndOneMore(layout.stackBottom, layout.stackTop, f);
    RegionIsIntervalAndOneMore(layout.bitmap, Add32(layout.bitmap, 4096), f);
  }

  // The last map entry that has a byte in the frame is of kind 1 or 3; or no entry at all is,
  // and the frame has a byte of the memory above 1 MiB.
  ghost predicate MapLeaves(boot: BootInfo, f: nat) {
    || (exists i :: && 0 <= i < |boot.mmap| && Meets(boot.mmap[i], f)
                    && (boot.mmap[i].kind == 1 || boot.mmap[i].kind == 3)
                    && forall j :: i < j < |boot.mmap| ==> !Meets(boot.mmap[j], f))
    || ((forall i :: 0 <= i < |boot.mmap| ==> boot.mmap[i].kind != 1 && boot.mmap[i].kind != 3)
        && HoldsByte(f, 0x10_0000, 0x10_0000 + 1024 * boot.memUpperKb))
  }

  // ... and every other frame that the map leaves is free, but for the first one past each of
  // the four regions, whenever no entry is misplaced and no end wraps.
  lemma FreeByAddress(boot: BootInfo, layout: Layout, f: nat)
    requires EndsFit(layout) && 0x10_0000 + 1024 * boot.memUpperKb <= TWO32
    requires forall i :: 0 <= i < |boot.mmap| ==> WellPlaced(boot.mmap[i])
    ensures FreeAtBoot(boot, layout, f) <==>
              && MapLeaves(boot, f) && f != 0
              && !HoldsByte(f, 0x10_0000, layout.kernelEnd) && !PastEnd(f, 0x10_0000, layout.kernelEnd)
              && !HoldsByte(f, layout.pageDirectory, layout.pageTable1 + 4096)
              && !PastEnd(f, layout.pageDirectory, layout.pageTable1 + 4096)
              && !HoldsByte(f, layout.stackBottom, layout.stackTop) && !PastEnd(f, layout.stackBottom, layout.stackTop)
              && !HoldsByte(f, layout.bitmap, layout.bitmap + 4096) && !PastEnd(f, layout.bitmap, layout.bitmap + 4096)
  {
    hide ReservedAtBoot, HoldsByte, PastEnd;
    ReservedByAddress(layout, f);
    MapLeavesExactly(boot, f);
  }

  lemma MapLeavesExactly(boot: BootInfo, f: nat)
    requires 0x10_0000 + 1024 * boot.memUpperKb <= TWO32
    requires forall i :: 0 <= i < |boot.mmap| ==> WellPlaced(boot.mmap[i])
    ensures MapLeaves(boot, f) <==>
              || LastEntryUsable(boot.mmap, |boot.mmap|, f)
              || (!SomeUsable(boot.mmap, |boot.mmap|) && boot.memUpperKb != 0 && Covers(Fallback(boot.memUpperKb), f))
  {
    hide Covers, Meets;
    forall i | 0 <= i < |boot.mmap| ensures Covers(boot.mmap[i], f) == Meets(boot.mmap[i], f) {
      CoversIsIntersection(boot.mmap[i], f);
    }
    FallbackMeets(boot.memUpperKb, f);
  }

  lemma FallbackMeets(memUpperKb: U32, f: nat)
    requires 0x10_0000 + 1024 * memUpperKb <= TWO32
    ensures memUpperKb != 0 && Covers(Fallback(memUpperKb), f)
            <==> HoldsByte(f, 0x10_0000, 0x10_0000 + 1024 * memUpperKb)
  {
    CoversIsIntersection(Fallback(memUpperKb), f);
    hide Covers;
  }

  // The end of memory: the greatest end of a map entry, or of the memory above 1 MiB.
  function HighestEnd(boot: BootInfo, n: nat): (h: U64)
    requires n <= |boot.mmap|
    ensures forall i :: 0 <= i < n ==> Add64(boot.mmap[i].addr, boot.mmap[i].len) <= h
    ensures h == 0 || exists i :: 0 <= i < n && h == Add64(boot.mmap[i].addr, boot.mmap[i].len)
  {
    if n == 0 then 0
    else
      var h, e := HighestEnd(boot, n - 1), Add64(boot.mmap[n - 1].addr, boot.mmap[n - 1].len);
      if e > h then e else h
  }

  function Max(a: int, b: int): int {
    if a > b then a else b
  }

  // The end of memory before the cast to uintptr_t.
  function Top(boot: BootInfo): U64 {
    var h := HighestEnd(boot, |boot.mmap|);
    if boot.memUpperKb != 0 then Max(h, 0x0010_0000 + boot.memUpperKb * 1024) else h
  }

  // It is one of these ends, and none lies above it.
  lemma TopIsGreatest(boot: BootInfo)
    ensures forall e :: e in boot.mmap ==> Add64(e.addr, e.len) <= Top(boot)
    ensures boot.memUpperKb != 0 ==> 0x0010_0000 + 1024 * boot.memUpperKb <= Top(boot)
    ensures || Top(boot) == 0 || (exists e :: e in boot.mmap && Top(boot) == Add64(e.addr, e.len))
            || (boot.memUpperKb != 0 && Top(boot) == 0x0010_0000 + 1024 * boot.memUpperKb)
  {
    hide Add64;
    var h := HighestEnd(boot, |boot.mmap|);
    forall e | e in boot.mmap ensures Add64(e.addr, e.len) <= h {
      var i :| 0 <= i < |boot.mmap| && boot.mmap[i] == e;
    }
    if h != 0 {
      var i :| 0 <= i < |boot.mmap| && h == Add64(boot.mmap[i].addr, boot.mmap[i].len);
      assert boot.mmap[i] in boot.mmap;
    }
  }

  function BootFrameCount(boot: BootInfo): nat {
    var frames := AddrToFrame(Truncate32(Top(boot))) + 1;
    if frames > MAX_FRAMES then MAX_FRAMES else frames
  }

  function TrueFrameCount(boot: BootInfo): nat {
    if Top(boot) / 4096 + 1 > MAX_FRAMES then MAX_FRAMES else Top(boot) / 4096 + 1
  }

  // The count is the one that the end of memory calls for exactly when that end is below
  // 4 GiB, or its low 32 bits happen to fill the bitmap.
  lemma FrameCountExactly(boot: BootInfo)
    ensures BootFrameCount(boot) == TrueFrameCount(boot)
            <==> Top(boot) < TWO32 || Top(boot) % TWO32 / 4096 >= MAX_FRAMES - 1
  {
    hide HighestEnd, Top;
    var t := Top(boot);
    if t < TWO32 {
      assert t % TWO32 == t;
    } else {
      assert t / 4096 >= MAX_FRAMES;
    }
  }

  // A region that ends at 4 GiB, as the ROM of a PC does, leaves a count of one frame, and
  // that one is reserved: nothing can be allocated.
  lemma RomCollapsesCount(layout: Layout)
    ensures var ram, high := MmapEntry(0x10_0000, 0x7F0_0000, MEMORY_AVAILABLE), MmapEntry(0xFFFC_0000, 0x4_0000, 2);
            var rom := BootInfo(true, [ram, high], 127 * 1024);
            && BootFrameCount(rom) == 1 && TrueFrameCount(rom) == MAX_FRAMES
            && forall f: nat :: f < 1 ==> !FreeAtBoot(rom, layout, f)
  {
    var ram, high := MmapEntry(0x10_0000, 0x7F0_0000, MEMORY_AVAILABLE), MmapEntry(0xFFFC_0000, 0x4_0000, 2);
    var rom := BootInfo(true, [ram, high], 127 * 1024);
    assert HighestEnd(rom, 1) == 0x800_0000;
    assert HighestEnd(rom, 2) == TWO32;
    assert Top(rom) == TWO32;
  }

  // When the count is the right one, no frame of the map that the bitmap can hold is left out.
  lemma FrameCountCoversMap(boot: BootInfo, i: nat, f: nat)
    requires i < |boot.mmap| && Covers(boot.mmap[i], f) && f < MAX_FRAMES
    requires BootFrameCount(boot) == TrueFrameCount(boot)
    ensures f < BootFrameCount(boot)
  {
    var h, end := HighestEnd(boot, |boot.mmap|), Add64(boot.mmap[i].addr, boot.mmap[i].len);
    CoversLowBits(boot.mmap[i], f);
    hide HighestEnd, Covers;
    LowBitsBelow(end - 1);
    assert 4096 * f < end <= h <= Top(boot);
  }

  lemma LowBitsBelow(a: nat)
    ensures a % TWO32 <= a
  {
  }

  // ---------------------------------------------------------------- the allocator

  class FrameAllocator {
    const bitmap: array<bv8>
    var frameCount: nat
    var usedCount: nat

    // Frames handed out and not yet given back.
    ghost var held: set<nat>

    ghost predicate Sized()
      reads this`frameCount
    {
      bitmap.Length == MAX_FRAMES / 8 && frameCount <= MAX_FRAMES
    }

    predicate IsUsed(f: nat)
      reads this`frameCount, bitmap
      requires Sized() && f < frameCount
    {
      Bit(bitmap[f / 8], f % 8)
    }

    ghost function Used(): set<nat>
      reads this`frameCount, bitmap
      requires Sized()
    {
      set f: nat | f < frameCount && IsUsed(f)
    }

    ghost function Free(): set<nat>
      reads this`frameCount, bitmap
      requires Sized()
    {
      set f: nat | f < frameCount && !IsUsed(f)
    }

    ghost function Reserved(): set<nat>
      reads this`frameCount, this`held, bitmap
      requires Sized()
    {
      Used() - held
    }

    ghost predicate Valid()
      reads this, bitmap
    {
      && Sized()
      && usedCount == |Used()|
      && held <= Used()
      && 0 !in Free() && 0 !in held
    }

    constructor ()
      ensures Valid() && fresh(bitmap)
      ensures frameCount == 0 && held == {}
    {
      bitmap := new bv8[MAX_FRAMES / 8](_ => 0);
      frameCount, usedCount := 0, 0;
      held := {};
    }

    // The update of one bit, `|=` or `&= ~` on the byte that holds it.
    method WriteBit(frame: nat, used: bool)
      requires Sized() && frame < frameCount
      modifies bitmap
      ensures forall f: nat :: f < frameCount ==> IsUsed(f) == if f == frame then used else old(IsUsed(f))
      ensures Used() == Changed(old(Used()), frame, used)
      ensures Free() == Changed(old(Free()), frame, !used)
    {
      hide Bit, Mask;
      var byte, bit := frame / 8, frame % 8;
      var was := bitmap[byte];
      bitmap[byte] := if used then was | Mask(bit) else was & !Mask(bit);
      forall f: nat | f < frameCount
        ensures IsUsed(f) == if f == frame then used else old(IsUsed(f))
      {
        if f / 8 == byte {
          BitsAfterUpdate(was, bit, f % 8);
        }
      }
    }

    method SetUsed(frame: nat, used: bool)
      requires Sized() && usedCount == |Used()|
      modifies this`usedCount, bitmap
      ensures usedCount == |Used()|
      ensures forall f: nat :: f < frameCount ==> IsUsed(f) == if f == frame then used else old(IsUsed(f))
      ensures frame < frameCount ==> Used() == Changed(old(Used()), frame, used)
      ensures frame < frameCount ==> Free() == Changed(old(Free()), frame, !used)
      ensures frame >= frameCount ==> Used() == old(Used()) && Free() == old(Free())
    {
      hide IsUsed, Changed, Free;
      if frame >= frameCount {
        return;
      }
      assert IsUsed(frame) == (frame in Used());
      SizeOfChanged(Used(), frame, used);
      hide Used;
      if used {
        if !IsUsed(frame) {
          usedCount := usedCount + 1;
        }
      } else {
        if IsUsed(frame) {
          usedCount := usedCount - 1;
        }
      }
      WriteBit(frame, used);
    }

    // pmm_reserve_frames and pmm_free_frames_range: the same loop over [start, end).
    method SetRange(start: nat, end: nat, used: bool)
      requires Sized() && usedCount == |Used()|
      modifies this`usedCount, bitmap
      ensures usedCount == |Used()|
      ensures forall f: nat :: f < frameCount ==> IsUsed(f) == if start <= f < end then used else old(IsUsed(f))
    {
      hide IsUsed;
      var frame := start;
      while frame < end && frame < frameCount
        invariant start <= frame
        invariant usedCount == |Used()|
        invariant forall f: nat :: f < frameCount ==>
                    IsUsed(f) == if start <= f < frame && f < end then used else old(IsUsed(f))
        decreases end - frame
      {
        SetUsed(frame, used);
        frame := frame + 1;
      }
    }

    method ReserveRegion(start: U32, end: U32)
      requires Sized() && usedCount == |Used()|
      modifies this`usedCount, bitmap
      ensures usedCount == |Used()|
      ensures forall f: nat :: f < frameCount ==> IsUsed(f) == (InRegion(start, end, f) || old(IsUsed(f)))
    {
      hide IsUsed;
      if end <= start {
        return;
      }
      SetRange(AddrToFrame(start), AddrToFrame(Add32(end, 4095)) + 1, true);
    }

    lemma FullIsUsed()
      requires Sized() && forall k :: 0 <= k < (frameCount + 7) / 8 ==> bitmap[k] == 0xFF
      ensures forall f: nat :: f < frameCount ==> IsUsed(f)
    {
      hide Bit;
      forall f: nat | f < frameCount ensures IsUsed(f) {
        BitsOfFullByte(f % 8);
      }
    }

    // The pessimistic start: memset of the bitmap to 0xFF.
    method FillUsed()
      requires Sized()
      modifies this`usedCount, bitmap
      ensures usedCount == |Used()|
      ensures forall f: nat :: f < frameCount ==> IsUsed(f)
    {
      hide Bit, Below;
      var i := 0;
      while i < (frameCount + 7) / 8
        invariant 0 <= i <= (frameCount + 7) / 8
        invariant forall k :: 0 <= k < i ==> bitmap[k] == 0xFF
      {
        bitmap[i] := 0xFF;
        i := i + 1;
      }
      FullIsUsed();
      usedCount := frameCount;
      assert Used() == Below(frameCount);
    }

    // Steps 1 and 2 of pmm_init: the frame count.
    method CountFrames(boot: BootInfo)
      modifies this`frameCount
      ensures frameCount == BootFrameCount(boot) && 0 < frameCount <= MAX_FRAMES
    {
      hide Add64, Truncate32, AddrToFrame;
      var highest: U64 := 0;
      var i := 0;
      while i < |boot.mmap|
        invariant 0 <= i <= |boot.mmap|
        invariant highest == HighestEnd(boot, i)
      {
        var end := Add64(boot.mmap[i].addr, boot.mmap[i].len);
        if end > highest {
          highest := end;
        }
        i := i + 1;
      }
      if boot.memUpperKb != 0 {
        var end: U64 := 0x0010_0000 + boot.memUpperKb * 1024;
        if end > highest {
          highest := end;
        }
      }
      frameCount := AddrToFrame(Truncate32(highest)) + 1;
      if frameCount > MAX_FRAMES {
        frameCount := MAX_FRAMES;
      }
    }

    // Step 3 of pmm_init: free what the map calls usable.
    method ApplyMap(boot: BootInfo)
      requires Sized() && usedCount == |Used()|
      requires forall f: nat :: f < frameCount ==> IsUsed(f)
      modifies this`usedCount, bitmap
      ensures usedCount == |Used()|
      ensures forall f: nat :: f < frameCount ==>
                !IsUsed(f) == (|| LastEntryUsable(boot.mmap, |boot.mmap|, f)
                               || (!SomeUsable(boot.mmap, |boot.mmap|) && boot.memUpperKb != 0
                                   && Covers(Fallback(boot.memUpperKb), f)))
    {
      hide IsUsed, LastEntryUsable, RegionUsable, RegionStartFrame, RegionEndFrame;
      var freedAny := false;
      var i := 0;
      NoEntryYet(boot.mmap);
      while i < |boot.mmap|
        invariant 0 <= i <= |boot.mmap|
        invariant usedCount == |Used()|
        invariant freedAny == SomeUsable(boot.mmap, i)
        invariant forall f: nat :: f < frameCount ==> !IsUsed(f) == LastEntryUsable(boot.mmap, i, f)
      {
        var e := boot.mmap[i];
        SetRange(RegionStartFrame(e.addr), RegionEndFrame(e.addr, e.len), !RegionUsable(e.kind));
        if RegionUsable(e.kind) {
          freedAny := true;
        }
        forall f: nat | f < frameCount
          ensures !IsUsed(f) == LastEntryUsable(boot.mmap, i + 1, f)
        {
          LastEntryStep(boot.mmap, i, f);
        }
        i := i + 1;
      }
      if !freedAny && boot.memUpperKb != 0 {
        var e := Fallback(boot.memUpperKb);
        SetRange(RegionStartFrame(e.addr), RegionEndFrame(e.addr, e.len), false);
      }
    }

    // pmm_init, on a machine whose statics are still zero.
    method Init(boot: BootInfo, layout: Layout)
      requires Valid() && frameCount == 0 && held == {}
      modifies this, bitmap
      ensures Valid() && held == {}
      ensures frameCount == if boot.valid then BootFrameCount(boot) else 0
      ensures forall f: nat :: f < frameCount ==> !IsUsed(f) == FreeAtBoot(boot, layout, f)
      ensures forall f: nat :: f < frameCount && !IsUsed(f) ==> Clear(layout, f)
    {
      hide IsUsed, Covers, LastEntryUsable, SomeUsable, InRegion, BootFrameCount, Clear;
      if !boot.valid {
        return;
      }
      CountFrames(boot);
      FillUsed();
      ApplyMap(boot);
      SetUsed(0, true);
      ReserveRegion(0x0010_0000, layout.kernelEnd);
      ReserveRegion(layout.pageDirectory, Add32(layout.pageTable1, 4096));
      ReserveRegion(layout.stackBottom, layout.stackTop);
      ReserveRegion(layout.bitmap, Add32(layout.bitmap, MAX_FRAMES / 8));
      assert IsUsed(0);
      ProtectedFrames(boot, layout);
    }

    // The abstract state that the bitmap and the counter refine.
    ghost function State(): Frames
      reads this, bitmap
      requires Sized()
    {
      Frames(Free(), held)
    }

    // The frame that the scan has found is marked and handed out.
    method Hold(frame: nat)
      requires Valid() && frame < frameCount && !IsUsed(frame) && frame > 0
      modifies this`usedCount, this`held, bitmap
      ensures Valid() && Reserved() == old(Reserved())
      ensures State() == Frames(old(Free()) - {frame}, old(held) + {frame})
    {
      hide IsUsed, Bit;
      assert frame in Free() && frame !in Used();
      SetUsed(frame, true);
      held := held + {frame};
    }

    method AllocFrame() returns (addr: U32)
      requires Valid()
      modifies this`usedCount, this`held, bitmap
      ensures Valid()
      ensures addr == 4096 * LeastFree(old(Free()))
      ensures State() == Apply(old(State()), Take)
      ensures Reserved() == old(Reserved())
    {
      hide Used, Free, LeastFree, IsUsed, Below;
      var frame := 1;
      while frame < frameCount
        invariant 1 <= frame
        invariant forall f: nat :: 1 <= f < frame && f < frameCount ==> IsUsed(f)
      {
        if !IsUsed(frame) {
          ScannedTo(frame);
          Hold(frame);
          addr := frame * PAGE_SIZE;
          return;
        }
        frame := frame + 1;
      }
      ScannedTo(frame);
      addr := 0;
    }

    // What the scan of pmm_alloc_frame knows at its end.
    lemma ScannedTo(frame: nat)
      requires Valid() && frame >= 1 && forall f: nat :: 1 <= f < frame && f < frameCount ==> IsUsed(f)
      ensures frame >= frameCount ==> LeastFree(Free()) == 0
      ensures frame < frameCount && !IsUsed(frame) ==> LeastFree(Free()) == frame && frame in Free() && frame !in Used()
    {
      hide Bit, LeastFree, Below;
      if frame >= frameCount {
        LeastFreeIs(Free(), 0);
      } else if !IsUsed(frame) {
        LeastFreeIs(Free(), frame);
      }
    }

    method FreeFrame(addr: U32)
      requires Valid()
      modifies this`usedCount, this`held, bitmap
      ensures Valid()
      ensures State() == if addr != 0 && addr % 4096 == 0 && addr / 4096 < frameCount
                         then Apply(old(State()), Give(addr / 4096)) else old(State())
      ensures addr / 4096 in old(held) ==> Reserved() == old(Reserved())
    {
      hide IsUsed, Used, Free;
      if addr == 0 || addr % PAGE_SIZE != 0 {
        return;
      }
      var frame := AddrToFrame(addr);
      SetUsed(frame, false);
      if frame < frameCount {
        held := held - {frame};
      }
    }

    method UsedFrames() returns (n: nat)
      requires Valid()
      ensures n == |Used()|
    {
      n := usedCount;
    }

    method FreeFrames() returns (n: nat)
      requires Valid()
      ensures n == |Free()|
    {
      n := if frameCount < usedCount then 0 else frameCount - usedCount;
      UsedPlusFree();
    }

    lemma HeldNotFree()
      requires Valid()
      ensures held !! Free()
    {
      hide IsUsed;
    }

    lemma HeldInRange(f: nat)
      requires Valid() && f in held
      ensures 0 < f < frameCount
    {
    }

    lemma UsedPlusFree()
      requires Sized()
      ensures |Used()| + |Free()| == frameCount
      ensures Used() !! Free()
    {
      hide IsUsed;
      assert Used() + Free() == Below(frameCount);
      assert Used() !! Free();
    }

    // Every frame is free, held, or reserved since boot.
    lemma Accounting()
      requires Valid()
      ensures |Free()| + |held| + |Reserved()| == frameCount
      ensures Free() !! held && Free() !! Reserved() && held !! Reserved()
    {
      UsedPlusFree();
      assert Used() == held + Reserved();
    }
  }

  // ---------------------------------------------------------------- runs

  datatype Frames = Frames(free: set<nat>, held: set<nat>)

  datatype FrameOp = Take | Give(frame: nat)

  ghost function Apply(st: Frames, op: FrameOp): Frames {
    match op
    case Take =>
      var m := LeastFree(st.free);
      if m == 0 then st else Frames(st.free - {m}, st.held + {m})
    case Give(f) =>
      Frames(st.free + {f}, st.held - {f})
  }

  // What the callers owe: only held frames are given back.
  ghost predicate Legal(st: Frames, ops: seq<FrameOp>)
    decreases |ops|
  {
    ops == [] || ((ops[0].Give? ==> ops[0].frame in st.held) && Legal(Apply(st, ops[0]), ops[1..]))
  }

  ghost function Run(st: Frames, ops: seq<FrameOp>): Frames
    decreases |ops|
  {
    if ops == [] then st else Run(Apply(st, ops[0]), ops[1..])
  }

  // A frame is taken exactly when one is left, and then there is one less.
  lemma TakeShrinks(st: Frames)
    requires 0 !in st.free
    ensures LeastFree(st.free) == 0 <==> |st.free| == 0
    ensures |Apply(st, Take).free| == if |st.free| == 0 then 0 else |st.free| - 1
  {
    SizeOfChanged(st.free, LeastFree(st.free), false);
  }

  lemma LeastFreeIs(free: set<nat>, m: nat)
    requires m == 0 ==> free <= {0}
    requires m != 0 ==> m in free && forall f :: f in free && f != 0 ==> m <= f
    ensures LeastFree(free) == m
  {
  }

  // Over every run the free and the held frames partition the frames that were free at the
  // start, so a frame reserved at boot is never handed out and no frame is handed out twice.
  lemma {:induction false} RunPartitions(st: Frames, ops: seq<FrameOp>)
    requires st.free !! st.held && Legal(st, ops)
    ensures var end := Run(st, ops);
            end.free !! end.held && end.free + end.held == st.free + st.held
    decreases |ops|
  {
    hide LeastFree;
    if ops != [] {
      var next := Apply(st, ops[0]);
      assert next.free + next.held == st.free + st.held;
      RunPartitions(next, ops[1..]);
    }
  }

  // The frame handed out after any run was not held and not reserved.
  lemma NextFrameIsFresh(st: Frames, ops: seq<FrameOp>)
    requires st.free !! st.held && Legal(st, ops)
    ensures var end := Run(st, ops);
            var m := LeastFree(end.free);
            if m == 0 then end.held + {0} >= st.free + st.held
            else m !in end.held && m in st.free + st.held
  {
    RunPartitions(st, ops);
  }
}
