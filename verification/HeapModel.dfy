// The kernel heap as a value: the list of blocks in address order, what allocation,
// release and growth do to it, and what every run of them keeps.

module HeapModel {
  import opened Common

  const KHEAP_START := 0xC200_0000
  const KHEAP_MAX_BYTES := 0x100_0000
  const LIMIT := KHEAP_START + KHEAP_MAX_BYTES
  const FIRST_PAGE := 0xC_2000
  const HEADER := 16
  const MIN_BLOCK := 24

  datatype Block = Block(addr: int, size: int, free: bool)

  // ---------------------------------------------------------------- sizes

  // kheap_align: the addition wraps at 32 bits.
  function Align8(n: U32): U32 {
    var m := Add32(n, 7);
    m - m % 8
  }

  // The block size that kmalloc looks for.
  function Needed(size: U32): (n: U32)
    ensures n >= MIN_BLOCK && n % 8 == 0
  {
    var n := Align8(Add32(size, HEADER));
    if n < MIN_BLOCK then MIN_BLOCK else n
  }

  // The arithmetic of kmalloc meets the request exactly when it does not wrap.
  lemma NeededSuffices(size: U32)
    ensures Needed(size) >= size + HEADER <==> size + HEADER + 7 < TWO32
    ensures size > 0 ==> Needed(size) <= size + HEADER + 7
  {
  }

  // `r` is the least size of a block with room for a header and `size` bytes.
  predicate LeastBlock(r: nat, size: int) {
    && r % 8 == 0 && r >= 24 && r >= size + 16 && (r == 24 || r - 8 < size + 16)
  }

  lemma NeededIsLeast(size: U32, r: nat)
    requires size + HEADER + 7 < TWO32 && LeastBlock(r, size)
    ensures Needed(size) == r
  {
  }

  // The pages that kheap_extend maps; the rounding wraps at 32 bits.
  function GrowPages(minBytes: U32): nat {
    var need: U32 := if minBytes < 4 * 4096 then 4 * 4096 else minBytes;
    Add32(need, 4095) / 4096
  }

  function GrowBytes(minBytes: U32): nat {
    4096 * GrowPages(minBytes)
  }

  // `n` is the least number of pages, four at least, that holds the bytes.
  predicate LeastPages(n: nat, minBytes: int) {
    n >= 4 && 4096 * n >= minBytes && (n == 4 || 4096 * (n - 1) < minBytes)
  }

  lemma GrowBytesSuffices(minBytes: U32)
    ensures GrowBytes(minBytes) >= minBytes <==> minBytes + 4095 < TWO32
    ensures minBytes + 4095 < TWO32 <==> LeastPages(GrowPages(minBytes), minBytes)
    ensures minBytes + 4095 >= TWO32 ==> GrowPages(minBytes) == 0
  {
  }

  lemma LeastPagesUnique(m: nat, n: nat, minBytes: int)
    requires LeastPages(m, minBytes) && LeastPages(n, minBytes)
    ensures m == n
  {
  }

  // ---------------------------------------------------------------- the block list

  ghost predicate Aligned(b: Block) {
    b.addr % 8 == 0 && b.size % 8 == 0 && b.size >= MIN_BLOCK
  }

  // The blocks cover [KHEAP_START, end) without gap or overlap, in address order.
  ghost predicate Tiles(bs: seq<Block>, end: int) {
    && (if bs == [] then end == KHEAP_START
        else bs[0].addr == KHEAP_START && bs[|bs| - 1].addr + bs[|bs| - 1].size == end)
    && (forall i :: 0 <= i < |bs| ==> Aligned(bs[i]))
    && (forall i, j :: 0 <= i && j == i + 1 && j < |bs| ==> bs[i].addr + bs[i].size == bs[j].addr)
  }

  ghost predicate NoFreeNeighbours(bs: seq<Block>) {
    forall i, j :: 0 <= i && j == i + 1 && j < |bs| ==> !(bs[i].free && bs[j].free)
  }

  ghost predicate WellFormed(bs: seq<Block>, end: int) {
    Tiles(bs, end) && NoFreeNeighbours(bs)
  }

  lemma {:induction false} Ordered(bs: seq<Block>, end: int, i: nat, j: nat)
    requires Tiles(bs, end) && i < j < |bs|
    ensures bs[i].addr + bs[i].size <= bs[j].addr
    decreases j
  {
    if i + 1 < j {
      Ordered(bs, end, i, j - 1);
      assert bs[j - 1].addr + bs[j - 1].size == bs[j].addr;
    }
  }

  lemma Bounds(bs: seq<Block>, end: int, i: nat)
    requires Tiles(bs, end) && i < |bs|
    ensures KHEAP_START <= bs[i].addr && bs[i].addr + bs[i].size <= end
  {
    if 0 < i {
      Ordered(bs, end, 0, i);
    }
    if i < |bs| - 1 {
      Ordered(bs, end, i, |bs| - 1);
    }
  }

  lemma RoomForHeader(bs: seq<Block>, end: int, i: nat)
    requires Tiles(bs, end) && i < |bs|
    ensures bs[i].size >= MIN_BLOCK
  {
    assert Aligned(bs[i]);
  }

  lemma LastEnds(bs: seq<Block>, end: int)
    requires Tiles(bs, end) && bs != []
    ensures bs[|bs| - 1].addr + bs[|bs| - 1].size == end
  {
  }

  // Blocks in order do not overlap, and each has room for a header.
  lemma Apart(bs: seq<Block>, end: int, i: nat, j: nat)
    requires Tiles(bs, end) && i < j < |bs|
    ensures bs[i].addr + bs[i].size <= bs[j].addr && bs[i].size >= MIN_BLOCK && bs[j].size >= MIN_BLOCK
    ensures KHEAP_START <= bs[i].addr && bs[j].addr + bs[j].size <= end
  {
    Ordered(bs, end, i, j);
    Bounds(bs, end, i);
    Bounds(bs, end, j);
    assert Aligned(bs[i]) && Aligned(bs[j]);
  }

  // ---------------------------------------------------------------- operations

  // Is the block cut, or handed out whole?
  predicate Cuts(b: Block, needed: int) {
    b.size >= needed + MIN_BLOCK
  }

  function SplitAt(bs: seq<Block>, i: nat, needed: int): seq<Block>
    requires i < |bs|
  {
    var b := bs[i];
    if !Cuts(b, needed) then bs[i := Block(b.addr, b.size, false)]
    else
      seq(|bs| + 1, (j: nat) requires j < |bs| + 1 =>
        if j < i then bs[j]
        else if j == i then Block(b.addr, needed, false)
        else if j == i + 1 then Block(b.addr + needed, b.size - needed, true)
        else bs[j - 1])
  }

  function MergeAt(bs: seq<Block>, k: nat): (c: seq<Block>)
    requires k + 1 < |bs|
    ensures |c| == |bs| - 1
  {
    seq(|bs| - 1, (j: nat) requires j < |bs| - 1 =>
      if j < k then bs[j]
      else if j == k then Block(bs[k].addr, bs[k].size + bs[k + 1].size, bs[k].free)
      else bs[j + 1])
  }

  function MarkFree(bs: seq<Block>, i: nat): (c: seq<Block>)
    requires i < |bs|
    ensures |c| == |bs|
  {
    bs[i := Block(bs[i].addr, bs[i].size, true)]
  }

  function MergeNext(bs: seq<Block>, i: nat): seq<Block>
    requires i < |bs|
  {
    if i + 1 < |bs| && bs[i + 1].free then MergeAt(bs, i) else bs
  }

  function MergePrev(bs: seq<Block>, i: nat): seq<Block>
    requires i < |bs|
  {
    if i > 0 && bs[i - 1].free then MergeAt(bs, i - 1) else bs
  }

  // kfree: mark, merge with the next block, merge with the previous one.
  function Release(bs: seq<Block>, i: nat): seq<Block>
    requires i < |bs|
  {
    MergePrev(MergeNext(MarkFree(bs, i), i), i)
  }

  // kheap_extend: new memory at `end` joins a free last block or becomes one.
  function Grow(bs: seq<Block>, end: int, bytes: int): seq<Block> {
    if bs != [] && bs[|bs| - 1].free
    then bs[|bs| - 1 := Block(bs[|bs| - 1].addr, bs[|bs| - 1].size + bytes, true)]
    else bs + [Block(end, bytes, true)]
  }

  predicate Fits(b: Block, needed: int) {
    b.free && b.size >= needed
  }

  // The lowest fitting block, or |bs|.
  function FirstFit(bs: seq<Block>, needed: int): (i: nat)
    ensures i <= |bs|
    ensures i < |bs| ==> Fits(bs[i], needed)
    ensures forall j :: 0 <= j < i ==> !Fits(bs[j], needed)
  {
    if bs == [] then 0
    else
      var i := FirstFit(bs[..|bs| - 1], needed);
      assert forall j :: 0 <= j < i ==> bs[j] == bs[..|bs| - 1][j];
      if i < |bs| - 1 then i else if Fits(bs[|bs| - 1], needed) then i else |bs|
  }

  // ---------------------------------------------------------------- operations keep the shape

  lemma PartsAligned(b: Block, needed: int)
    requires Aligned(b) && needed % 8 == 0 && needed >= MIN_BLOCK && Cuts(b, needed)
    ensures Aligned(Block(b.addr, needed, false)) && Aligned(Block(b.addr + needed, b.size - needed, true))
  {
  }

  lemma SplitKeepsTiles(bs: seq<Block>, end: int, i: nat, needed: int)
    requires Tiles(bs, end) && i < |bs| && Fits(bs[i], needed) && needed % 8 == 0 && needed >= MIN_BLOCK
    ensures Tiles(SplitAt(bs, i, needed), end)
  {
    var c := SplitAt(bs, i, needed);
    if Cuts(bs[i], needed) {
      PartsAligned(bs[i], needed);
      hide Aligned, Fits, Cuts;
      forall j | 0 <= j < |c| ensures Aligned(c[j]) {
      }
      forall j, k | 0 <= j && k == j + 1 && k < |c|
        ensures c[j].addr + c[j].size == c[k].addr
      {
        if j > i {
          assert c[j].addr + c[j].size == bs[j].addr;
        }
      }
    }
  }

  lemma SplitKeepsApart(bs: seq<Block>, i: nat, needed: int)
    requires NoFreeNeighbours(bs) && i < |bs| && bs[i].free
    ensures NoFreeNeighbours(SplitAt(bs, i, needed))
  {
    var c := SplitAt(bs, i, needed);
    if Cuts(bs[i], needed) {
      forall j, k | 0 <= j && k == j + 1 && k < |c|
        ensures !(c[j].free && c[k].free)
      {
        if j > i {
          assert c[k] == bs[j] && (j > i + 1 ==> c[j] == bs[j - 1]);
        }
      }
    }
  }

  lemma SplitKeepsShape(bs: seq<Block>, end: int, i: nat, needed: int)
    requires WellFormed(bs, end) && i < |bs| && Fits(bs[i], needed) && needed % 8 == 0 && needed >= MIN_BLOCK
    ensures WellFormed(SplitAt(bs, i, needed), end)
  {
    SplitKeepsTiles(bs, end, i, needed);
    SplitKeepsApart(bs, i, needed);
  }

  lemma MergeKeepsTiles(bs: seq<Block>, end: int, k: nat)
    requires Tiles(bs, end) && k + 1 < |bs|
    ensures Tiles(MergeAt(bs, k), end)
  {
    var c := MergeAt(bs, k);
    assert bs[k].addr + bs[k].size == bs[k + 1].addr;
    assert forall j :: 0 <= j < |c| ==> Aligned(c[j]);
    hide Aligned;
    forall i, j | 0 <= i && j == i + 1 && j < |c|
      ensures c[i].addr + c[i].size == c[j].addr
    {
      assert j + 1 < |bs|;
    }
  }

  lemma FlagKeepsTiles(bs: seq<Block>, end: int, i: nat, free: bool)
    requires Tiles(bs, end) && i < |bs|
    ensures Tiles(bs[i := Block(bs[i].addr, bs[i].size, free)], end)
  {
    var c := bs[i := Block(bs[i].addr, bs[i].size, free)];
    assert forall j :: 0 <= j < |c| ==> c[j].addr == bs[j].addr && c[j].size == bs[j].size;
  }

  lemma ReleaseKeepsTiles(bs: seq<Block>, end: int, i: nat)
    requires Tiles(bs, end) && i < |bs|
    ensures Tiles(Release(bs, i), end)
  {
    hide Tiles, MergeAt;
    var a := MarkFree(bs, i);
    FlagKeepsTiles(bs, end, i, true);
    var b := MergeNext(a, i);
    if i + 1 < |a| && a[i + 1].free {
      MergeKeepsTiles(a, end, i);
    }
    if i > 0 && b[i - 1].free {
      MergeKeepsTiles(b, end, i - 1);
    }
  }

  // Only the pair at `i` and `i + 1` may be free together.
  ghost predicate ApartExcept(bs: seq<Block>, i: int) {
    forall j, k :: 0 <= j && k == j + 1 && k < |bs| && j != i ==> !(bs[j].free && bs[k].free)
  }

  lemma MergeKeepsApart(bs: seq<Block>, k: nat)
    requires k + 1 < |bs| && (bs[k].free ==> bs[k + 1].free)
    requires ApartExcept(bs, k)
    ensures NoFreeNeighbours(MergeAt(bs, k))
  {
    var c := MergeAt(bs, k);
    forall i, j | 0 <= i && j == i + 1 && j < |c|
      ensures !(c[i].free && c[j].free)
    {
      assert j + 1 < |bs|;
    }
  }

  lemma ReleaseKeepsApart(bs: seq<Block>, i: nat)
    requires NoFreeNeighbours(bs) && i < |bs|
    ensures NoFreeNeighbours(Release(bs, i))
  {
    var a := MarkFree(bs, i);
    var b := MergeNext(a, i);
    if i + 1 < |a| && a[i + 1].free {
      forall j, k | 0 <= j && k == j + 1 && k < |b| && j != i - 1
        ensures !(b[j].free && b[k].free)
      {
        assert k + 1 < |bs|;
      }
    }
    assert ApartExcept(b, i - 1);
    if i > 0 && b[i - 1].free {
      MergeKeepsApart(b, i - 1);
    }
  }

  lemma ReleaseKeepsShape(bs: seq<Block>, end: int, i: nat)
    requires WellFormed(bs, end) && i < |bs|
    ensures WellFormed(Release(bs, i), end)
  {
    ReleaseKeepsTiles(bs, end, i);
    ReleaseKeepsApart(bs, i);
  }

  lemma GrowKeepsShape(bs: seq<Block>, end: int, bytes: int)
    requires WellFormed(bs, end) && bytes >= 4096 && bytes % 4096 == 0
    ensures WellFormed(Grow(bs, end, bytes), end + bytes)
    ensures Grow(bs, end, bytes) != [] && Fits(Grow(bs, end, bytes)[|Grow(bs, end, bytes)| - 1], bytes)
  {
    var c := Grow(bs, end, bytes);
    EndAligned(bs, end);
    assert forall j :: 0 <= j < |c| ==> Aligned(c[j]);
    hide Aligned;
  }

  lemma EndAligned(bs: seq<Block>, end: int)
    requires Tiles(bs, end)
    ensures end % 8 == 0 && end >= KHEAP_START && (bs == [] ==> end == KHEAP_START)
  {
    if bs != [] {
      assert Aligned(bs[|bs| - 1]);
      Bounds(bs, end, |bs| - 1);
    }
  }

  // ---------------------------------------------------------------- what one call undoes

  // Marking a cut block free and merging it with the next undoes the cut.
  lemma CutMergesBack(bs: seq<Block>, i: nat, needed: int)
    requires i < |bs| && bs[i].free && Cuts(bs[i], needed)
    ensures MergeNext(MarkFree(SplitAt(bs, i, needed), i), i) == bs
  {
    var c := MarkFree(SplitAt(bs, i, needed), i);
    assert |c| == |bs| + 1 && c[i + 1].free;
    var b := MergeAt(c, i);
    forall j | 0 <= j < |bs| ensures b[j] == bs[j] {
    }
  }

  // kfree of a block just taken restores the exact list.
  lemma AllocThenFree(bs: seq<Block>, end: int, i: nat, needed: int)
    requires WellFormed(bs, end) && i < |bs| && Fits(bs[i], needed)
    ensures Release(SplitAt(bs, i, needed), i) == bs
  {
    hide Tiles;
    assert i > 0 ==> !bs[i - 1].free;
    assert i + 1 < |bs| ==> !bs[i + 1].free;
    hide NoFreeNeighbours;
    if Cuts(bs[i], needed) {
      CutMergesBack(bs, i, needed);
      hide SplitAt, MergeAt, MarkFree;
    } else {
      assert MarkFree(SplitAt(bs, i, needed), i) == bs;
    }
  }

  // ---------------------------------------------------------------- live blocks

  ghost function Live(bs: seq<Block>): set<Block> {
    set b | b in bs && !b.free
  }

  lemma SplitAddsLive(bs: seq<Block>, i: nat, needed: int)
    requires i < |bs| && bs[i].free
    ensures Live(SplitAt(bs, i, needed)) == Live(bs) + {SplitAt(bs, i, needed)[i]}
  {
    var c := SplitAt(bs, i, needed);
    if Cuts(bs[i], needed) {
      forall b | b in bs && !b.free ensures b in c {
        var j :| 0 <= j < |bs| && bs[j] == b;
        assert c[if j < i then j else j + 1] == b;
      }
      forall b | b in c && !b.free ensures b in bs || b == c[i] {
        var j :| 0 <= j < |c| && c[j] == b;
        assert j < i ==> bs[j] == b;
        assert j > i + 1 ==> bs[j - 1] == b;
      }
    } else {
      forall b | b in bs && !b.free ensures b in c {
        var j :| 0 <= j < |bs| && bs[j] == b;
        assert c[j] == b;
      }
    }
  }

  // Merging free blocks leaves the live ones as they are.
  lemma MergeKeepsLive(bs: seq<Block>, k: nat)
    requires k + 1 < |bs| && bs[k].free && bs[k + 1].free
    ensures Live(MergeAt(bs, k)) == Live(bs)
  {
    var c := MergeAt(bs, k);
    forall b | b in bs && !b.free ensures b in c {
      var j :| 0 <= j < |bs| && bs[j] == b;
      assert c[if j < k then j else j - 1] == b;
    }
    forall b | b in c && !b.free ensures b in bs {
      var j :| 0 <= j < |c| && c[j] == b;
      assert bs[if j < k then j else j + 1] == b;
    }
  }

  lemma MarkRemovesLive(bs: seq<Block>, end: int, i: nat)
    requires Tiles(bs, end) && i < |bs|
    ensures Live(MarkFree(bs, i)) == Live(bs) - {bs[i]}
  {
    var c := MarkFree(bs, i);
    forall b | b in bs && b != bs[i] ensures b in c {
      var j :| 0 <= j < |bs| && bs[j] == b;
      assert c[j] == b;
    }
    forall b | b in c && !b.free ensures b in bs && b != bs[i] {
      var j :| 0 <= j < |c| && c[j] == b;
      Distinct(bs, end, i, j);
    }
  }

  lemma Distinct(bs: seq<Block>, end: int, i: nat, j: nat)
    requires Tiles(bs, end) && i < |bs| && j < |bs|
    ensures bs[i].addr == bs[j].addr ==> i == j
  {
    assert Aligned(bs[i]) && Aligned(bs[j]);
    if i < j {
      Ordered(bs, end, i, j);
    } else if j < i {
      Ordered(bs, end, j, i);
    }
  }

  lemma ReleaseRemovesLive(bs: seq<Block>, end: int, i: nat)
    requires Tiles(bs, end) && i < |bs|
    ensures Live(Release(bs, i)) == Live(bs) - {bs[i]}
  {
    var a := MarkFree(bs, i);
    MarkRemovesLive(bs, end, i);
    var b := MergeNext(a, i);
    if i + 1 < |a| && a[i + 1].free {
      MergeKeepsLive(a, i);
    }
    assert b[i].free;
    if i > 0 && b[i - 1].free {
      MergeKeepsLive(b, i - 1);
    }
  }

  lemma GrowKeepsLive(bs: seq<Block>, end: int, bytes: int)
    ensures Live(Grow(bs, end, bytes)) == Live(bs)
  {
    var c := Grow(bs, end, bytes);
    forall b | b in bs && !b.free ensures b in c {
      var j :| 0 <= j < |bs| && bs[j] == b;
      assert c[j] == b;
    }
    forall b | b in c && !b.free ensures b in bs {
      var j :| 0 <= j < |c| && c[j] == b;
      assert j < |bs| && bs[j] == b;
    }
  }

  // `after` is what kfree leaves.
  ghost predicate Frees(bs: seq<Block>, ptr: int, after: seq<Block>) {
    if ptr == 0 then after == bs
    else exists i :: 0 <= i < |bs| && bs[i].addr + HEADER == ptr && !bs[i].free && after == Release(bs, i)
  }

  // kfree ends exactly one live block: the one at `ptr`.
  lemma FreesFacts(bs: seq<Block>, end: int, ptr: int, after: seq<Block>)
    requires WellFormed(bs, end) && Frees(bs, ptr, after)
    ensures WellFormed(after, end)
    ensures Live(after) == Live(bs) - set b | b in Live(bs) && b.addr + HEADER == ptr
  {
    hide Tiles, Release;
    if ptr == 0 {
      forall b | b in Live(bs) ensures b.addr + HEADER != 0 {
        var j :| 0 <= j < |bs| && bs[j] == b;
        Bounds(bs, end, j);
      }
    } else {
      var i :| 0 <= i < |bs| && bs[i].addr + HEADER == ptr && !bs[i].free && after == Release(bs, i);
      ReleaseStep(bs, end, i);
      forall b | b in Live(bs) && b.addr + HEADER == ptr ensures b == bs[i] {
        var j :| 0 <= j < |bs| && bs[j] == b;
        Distinct(bs, end, i, j);
      }
    }
  }

  // The block whose payload is at `ptr`; |bs| if there is none.
  ghost function IndexAt(bs: seq<Block>, ptr: int): (i: nat)
    ensures i <= |bs| && (i < |bs| ==> bs[i].addr + HEADER == ptr)
    ensures forall j :: 0 <= j < i ==> bs[j].addr + HEADER != ptr
  {
    if bs == [] || bs[0].addr + HEADER == ptr then 0 else 1 + IndexAt(bs[1..], ptr)
  }

  ghost function FreedAt(bs: seq<Block>, ptr: int): seq<Block> {
    if IndexAt(bs, ptr) < |bs| then Release(bs, IndexAt(bs, ptr)) else bs
  }

  // What kfree leaves is determined by the address.
  lemma FreesAt(bs: seq<Block>, end: int, ptr: int, after: seq<Block>)
    requires Tiles(bs, end) && Frees(bs, ptr, after)
    ensures after == FreedAt(bs, ptr)
  {
    hide Release;
    var k := IndexAt(bs, ptr);
    if ptr == 0 {
      if k < |bs| {
        Bounds(bs, end, k);
      }
    } else {
      var i :| 0 <= i < |bs| && bs[i].addr + HEADER == ptr && !bs[i].free && after == Release(bs, i);
      Distinct(bs, end, i, k);
    }
  }

  // kmalloc and then kfree of its result, with no growth, restore the exact list.
  lemma MallocThenFree(h: Heap, needed: U32, after: Heap, ptr: int, final: seq<Block>)
    requires needed >= MIN_BLOCK && needed % 8 == 0
    requires Gives(h, needed, false, after, ptr) && ptr != 0 && Frees(after.blocks, ptr, final)
    ensures final == h.blocks
  {
    hide FirstFit, Release, Tiles, NoFreeNeighbours;
    var i := FirstFit(h.blocks, needed);
    AllocThenFree(h.blocks, h.end, i, needed);
    SplitKeepsShape(h.blocks, h.end, i, needed);
    var j :| 0 <= j < |after.blocks| && after.blocks[j].addr + HEADER == ptr && !after.blocks[j].free
             && final == Release(after.blocks, j);
    Distinct(after.blocks, after.end, i, j);
  }

  lemma LiveIsFreed(bs: seq<Block>, end: int, b: Block)
    requires Tiles(bs, end) && b in Live(bs)
    ensures Frees(bs, b.addr + HEADER, FreedAt(bs, b.addr + HEADER))
  {
    hide Release, FreedAt;
    var i :| 0 <= i < |bs| && bs[i] == b;
    Bounds(bs, end, i);
    assert Frees(bs, b.addr + HEADER, Release(bs, i));
    FreesAt(bs, end, b.addr + HEADER, Release(bs, i));
  }

  // ---------------------------------------------------------------- counting

  function UsedBytes(bs: seq<Block>): int {
    if bs == [] then 0
    else
      var last := bs[|bs| - 1];
      UsedBytes(bs[..|bs| - 1]) + if last.free then 0 else last.size
  }

  function FreeBytes(bs: seq<Block>): int {
    if bs == [] then 0
    else
      var last := bs[|bs| - 1];
      FreeBytes(bs[..|bs| - 1]) + if last.free then last.size else 0
  }

  lemma TilesPrefix(bs: seq<Block>, end: int)
    requires Tiles(bs, end) && bs != []
    ensures Tiles(bs[..|bs| - 1], end - bs[|bs| - 1].size)
  {
    var n := |bs| - 1;
    assert n > 0 ==> bs[n - 1].addr + bs[n - 1].size == bs[n].addr;
  }

  // Used and free bytes make up the mapped heap.
  lemma {:induction false} BytesConserved(bs: seq<Block>, end: int)
    requires Tiles(bs, end)
    ensures UsedBytes(bs) + FreeBytes(bs) == end - KHEAP_START
  {
    if bs != [] {
      TilesPrefix(bs, end);
      BytesConserved(bs[..|bs| - 1], end - bs[|bs| - 1].size);
    }
  }

  ghost function SizeSum(s: set<Block>): int {
    if s == {} then 0 else var b :| b in s; b.size + SizeSum(s - {b})
  }

  lemma {:induction false} SizeSumWithout(s: set<Block>, b: Block)
    requires b in s
    ensures SizeSum(s) == b.size + SizeSum(s - {b})
    decreases |s|
  {
    var c :| c in s && SizeSum(s) == c.size + SizeSum(s - {c});
    if b != c {
      SizeSumWithout(s - {c}, b);
      SizeSumWithout(s - {b}, c);
      assert s - {c} - {b} == s - {b} - {c};
    }
  }

  // Used bytes are the sizes of the live blocks, and free bytes are the rest of the heap.
  lemma {:induction false} BytesAreLive(bs: seq<Block>, end: int)
    requires Tiles(bs, end)
    ensures UsedBytes(bs) == SizeSum(Live(bs)) && FreeBytes(bs) == end - KHEAP_START - SizeSum(Live(bs))
    decreases |bs|
  {
    BytesConserved(bs, end);
    if bs != [] {
      var n := |bs| - 1;
      TilesPrefix(bs, end);
      BytesAreLive(bs[..n], end - bs[n].size);
      forall i | 0 <= i < n ensures bs[i] != bs[n] {
        Apart(bs, end, i, n);
      }
      LiveWithoutLast(bs);
      if !bs[n].free {
        assert bs[n] in Live(bs);
        SizeSumWithout(Live(bs), bs[n]);
      } else {
        assert Live(bs) - {bs[n]} == Live(bs);
      }
    } else {
      assert Live(bs) == {};
    }
  }

  // So an allocation uses the bytes of its block, and a release gives them back.
  lemma BytesOfCalls(bs: seq<Block>, end: int, after: seq<Block>, afterEnd: int, b: Block)
    requires Tiles(bs, end) && Tiles(after, afterEnd) && b !in Live(bs) && Live(after) == Live(bs) + {b}
    ensures UsedBytes(after) == UsedBytes(bs) + b.size
  {
    hide Tiles, Live, UsedBytes, SizeSum;
    BytesAreLive(bs, end);
    BytesAreLive(after, afterEnd);
    SizeSumWithout(Live(after), b);
    assert Live(after) - {b} == Live(bs);
  }

  function Count(bs: seq<Block>, free: bool): nat {
    if bs == [] then 0
    else Count(bs[..|bs| - 1], free) + if bs[|bs| - 1].free == free then 1 else 0
  }

  // Free blocks number at most the live blocks plus one.
  lemma {:induction false} FewFreeBlocks(bs: seq<Block>)
    requires NoFreeNeighbours(bs)
    ensures Count(bs, true) <= Count(bs, false) + 1
    ensures bs != [] && !bs[|bs| - 1].free ==> Count(bs, true) <= Count(bs, false)
  {
    if bs != [] {
      var n := |bs| - 1;
      var front := bs[..n];
      assert n > 0 ==> !(bs[n - 1].free && bs[n].free);
      assert n > 0 ==> front[n - 1] == bs[n - 1];
      FewFreeBlocks(front);
    }
  }

  // ---------------------------------------------------------------- freeing everything

  // With nothing live, the heap is one free block.
  lemma NothingLiveIsOneBlock(bs: seq<Block>, end: int)
    requires WellFormed(bs, end) && bs != [] && Live(bs) == {}
    ensures bs == [Block(KHEAP_START, end - KHEAP_START, true)]
  {
    assert |bs| > 1 ==> !(bs[0].free && bs[1].free);
    forall i | 0 <= i < |bs| ensures bs[i].free {
      assert bs[i] !in Live(bs);
    }
  }

  lemma EmptyHeap(bs: seq<Block>, end: int)
    requires Tiles(bs, end)
    ensures bs == [] <==> end == KHEAP_START
  {
    if bs != [] {
      Bounds(bs, end, 0);
      RoomForHeader(bs, end, 0);
    }
  }

  // A live block that ends where the heap ends is the last one.
  lemma LiveAtTheEnd(bs: seq<Block>, end: int, b: Block)
    requires Tiles(bs, end) && b in Live(bs) && b.addr + b.size == end
    ensures bs[|bs| - 1] == b
  {
    var n := |bs| - 1;
    var i :| 0 <= i < |bs| && bs[i] == b;
    if i < n {
      Apart(bs, end, i, n);
    }
  }

  // Two lists with the same live blocks: a free last block of one starts no later than that
  // of the other.
  lemma FreeTailStarts(bs: seq<Block>, cs: seq<Block>, end: int)
    requires WellFormed(bs, end) && WellFormed(cs, end) && Live(cs) <= Live(bs) && bs != [] && cs != []
    requires bs[|bs| - 1].free && cs[|cs| - 1].free
    ensures cs[|cs| - 1].addr <= bs[|bs| - 1].addr
  {
    var n, m := |bs| - 1, |cs| - 1;
    if m == 0 {
      Bounds(bs, end, n);
    } else {
      var c := cs[m - 1];
      assert !c.free && c.addr + c.size == cs[m].addr;
      assert c in Live(cs);
      var i :| 0 <= i < |bs| && bs[i] == c;
      Apart(bs, end, i, n);
    }
  }

  lemma LastSame(bs: seq<Block>, cs: seq<Block>, end: int)
    requires WellFormed(bs, end) && WellFormed(cs, end) && Live(bs) == Live(cs) && bs != [] && cs != []
    ensures bs[|bs| - 1] == cs[|cs| - 1]
  {
    var b, c := bs[|bs| - 1], cs[|cs| - 1];
    LastEnds(bs, end);
    LastEnds(cs, end);
    hide Tiles, NoFreeNeighbours;
    if !b.free {
      assert b in Live(bs);
      LiveAtTheEnd(cs, end, b);
    } else if !c.free {
      assert c in Live(cs);
      LiveAtTheEnd(bs, end, c);
    } else {
      FreeTailStarts(bs, cs, end);
      FreeTailStarts(cs, bs, end);
    }
  }

  lemma LiveWithoutLast(bs: seq<Block>)
    requires bs != [] && bs[|bs| - 1] !in bs[..|bs| - 1]
    ensures Live(bs[..|bs| - 1]) == Live(bs) - {bs[|bs| - 1]}
  {
    var n := |bs| - 1;
    assert bs == bs[..n] + [bs[n]];
  }

  lemma WithoutLast(bs: seq<Block>, end: int)
    requires WellFormed(bs, end) && bs != []
    ensures var n, b := |bs| - 1, bs[|bs| - 1];
            WellFormed(bs[..n], end - b.size) && Live(bs[..n]) == Live(bs) - {b} && bs == bs[..n] + [b]
  {
    var n := |bs| - 1;
    TilesPrefix(bs, end);
    hide Live;
    forall i | 0 <= i < n ensures bs[i] != bs[n] {
      Apart(bs, end, i, n);
    }
    hide Tiles;
    LiveWithoutLast(bs);
  }

  // The block list is a function of the live blocks and of the end of the heap: whatever
  // calls led there, in whatever order, the free blocks lie as they must.
  lemma {:induction false} LiveDeterminesList(bs: seq<Block>, cs: seq<Block>, end: int)
    requires WellFormed(bs, end) && WellFormed(cs, end) && Live(bs) == Live(cs)
    ensures bs == cs
  {
    EmptyHeap(bs, end);
    EmptyHeap(cs, end);
    hide WellFormed, Live;
    if bs != [] {
      LastSame(bs, cs, end);
      WithoutLast(bs, end);
      WithoutLast(cs, end);
      LiveDeterminesList(bs[..|bs| - 1], cs[..|cs| - 1], end - bs[|bs| - 1].size);
    }
  }

  // The index of a block; |bs| if it is absent.
  ghost function IndexOf(bs: seq<Block>, b: Block): (i: nat)
    ensures i <= |bs| && (i < |bs| ==> bs[i] == b) && (i == |bs| <==> b !in bs)
  {
    if b in bs then var i :| 0 <= i < |bs| && bs[i] == b; i else |bs|
  }

  ghost function ReleaseAll(bs: seq<Block>, order: seq<Block>): seq<Block>
    decreases |order|
  {
    if order == [] || order[0] !in bs then bs
    else ReleaseAll(Release(bs, IndexOf(bs, order[0])), order[1..])
  }

  // Freeing every live block once, in any order, leaves one free block over the whole heap.
  lemma {:induction false} ReleaseAllCoalesces(bs: seq<Block>, end: int, order: seq<Block>)
    requires WellFormed(bs, end) && bs != []
    requires forall b :: b in order <==> b in Live(bs)
    requires forall i, j :: 0 <= i < j < |order| ==> order[i] != order[j]
    ensures ReleaseAll(bs, order) == [Block(KHEAP_START, end - KHEAP_START, true)]
    decreases |order|
  {
    hide WellFormed, Release;
    if order == [] {
      assert Live(bs) == {};
      NothingLiveIsOneBlock(bs, end);
    } else {
      var b, rest := order[0], order[1..];
      assert b in Live(bs);
      var i := IndexOf(bs, b);
      var next := Release(bs, i);
      ReleaseStep(bs, end, i);
      forall c ensures c in rest <==> c in Live(next) {
        assert c in rest ==> c in order && c != b;
        assert order == [b] + rest;
      }
      ReleaseAllCoalesces(next, end, rest);
    }
  }

  lemma ReleaseStep(bs: seq<Block>, end: int, i: nat)
    requires WellFormed(bs, end) && i < |bs|
    ensures WellFormed(Release(bs, i), end) && Release(bs, i) != []
    ensures Live(Release(bs, i)) == Live(bs) - {bs[i]}
  {
    ReleaseKeepsShape(bs, end, i);
    ReleaseRemovesLive(bs, end, i);
    assert Aligned(bs[i]);
    Bounds(bs, end, i);
  }

  // ---------------------------------------------------------------- runs

  datatype Heap = Heap(blocks: seq<Block>, end: int)

  ghost predicate Fine(h: Heap) {
    WellFormed(h.blocks, h.end) && h.end <= KHEAP_START + KHEAP_MAX_BYTES
  }

  function Grown(h: Heap, needed: U32): Heap {
    Heap(Grow(h.blocks, h.end, GrowBytes(needed)), h.end + GrowBytes(needed))
  }

  // Taking the lowest fitting block: the new heap and the index taken.
  function Taken(h: Heap, needed: U32): Heap
    requires FirstFit(h.blocks, needed) < |h.blocks|
  {
    Heap(SplitAt(h.blocks, FirstFit(h.blocks, needed), needed), h.end)
  }

  // May kheap_extend be asked for `needed` bytes, and does the new memory stay in bounds?
  predicate Extends(h: Heap, needed: U32) {
    needed + 4095 < TWO32 && h.end + GrowBytes(needed) <= KHEAP_START + KHEAP_MAX_BYTES
  }

  lemma GrownFits(h: Heap, needed: U32)
    requires Fine(h) && Extends(h, needed)
    ensures Fine(Grown(h, needed))
    ensures FirstFit(Grown(h, needed).blocks, needed) < |Grown(h, needed).blocks|
  {
    hide FirstFit, WellFormed;
    GrowBytesSuffices(needed);
    GrowKeepsShape(h.blocks, h.end, GrowBytes(needed));
    var bs := Grown(h, needed).blocks;
    assert Fits(bs[|bs| - 1], needed);
  }

  // One allocation: the heap after it and the block taken, if any. `grew` tells whether an
  // extension, when one is needed, finds its frames.
  ghost function Malloc(h: Heap, needed: U32, grew: bool): (Heap, Option<Block>)
    requires Fine(h) && (grew ==> Extends(h, needed))
  {
    var i := FirstFit(h.blocks, needed);
    if i < |h.blocks| then (Taken(h, needed), Some(Taken(h, needed).blocks[i]))
    else if !grew then (h, None)
    else
      GrownFits(h, needed);
      var g := Grown(h, needed);
      (Taken(g, needed), Some(Taken(g, needed).blocks[FirstFit(g.blocks, needed)]))
  }

  // The heap `after` and `ptr` are what an allocation gives.
  ghost predicate Gives(h: Heap, needed: U32, grew: bool, after: Heap, ptr: int) {
    && Fine(h) && (grew ==> Extends(h, needed))
    && after == Malloc(h, needed, grew).0
    && ptr == match Malloc(h, needed, grew).1 case Some(b) => b.addr + HEADER case None => 0
  }

  // No free block is big enough.
  ghost predicate NoFit(h: Heap, needed: U32) {
    FirstFit(h.blocks, needed) == |h.blocks|
  }

  // The lowest fitting block has been taken, and its payload is at `ptr`.
  ghost predicate Takes(h: Heap, needed: U32, after: Heap, ptr: int) {
    var i := FirstFit(h.blocks, needed);
    i < |h.blocks| && after == Taken(h, needed) && ptr == h.blocks[i].addr + HEADER
  }

  // Of the free block c, b is what a request for `needed` bytes gets: that many, or all of it
  // when the rest would be too small for a block.
  predicate HandedOut(c: Block, needed: int, b: Block) {
    && c.free && c.size >= needed && !b.free && b.addr == c.addr
    && b.size == if c.size - needed >= MIN_BLOCK then needed else c.size
  }

  // ... of a free block of the heap, as it was or grown.
  ghost predicate CutFrom(h: Heap, needed: U32, grew: bool, b: Block) {
    exists c :: (c in h.blocks || (grew && c in Grown(h, needed).blocks)) && HandedOut(c, needed, b)
  }

  lemma TakenFacts(h: Heap, needed: U32)
    requires Fine(h) && needed >= MIN_BLOCK && needed % 8 == 0
    requires FirstFit(h.blocks, needed) < |h.blocks|
    ensures Fine(Taken(h, needed))
    ensures var b := Taken(h, needed).blocks[FirstFit(h.blocks, needed)];
            && Live(Taken(h, needed).blocks) == Live(h.blocks) + {b}
            && !b.free && needed <= b.size < needed + MIN_BLOCK && b.size % 8 == 0
            && HandedOut(h.blocks[FirstFit(h.blocks, needed)], needed, b)
            && b !in Live(h.blocks) && forall c :: c in Live(h.blocks) ==> c.addr != b.addr
  {
    hide FirstFit;
    var i := FirstFit(h.blocks, needed);
    SplitKeepsShape(h.blocks, h.end, i, needed);
    SplitAddsLive(h.blocks, i, needed);
    assert Aligned(h.blocks[i]);
    forall c | c in Live(h.blocks) ensures c.addr != h.blocks[i].addr {
      var j :| 0 <= j < |h.blocks| && h.blocks[j] == c;
      Distinct(h.blocks, h.end, i, j);
    }
  }

  // What one allocation keeps, and what it hands out.
  lemma MallocFacts(h: Heap, needed: U32, grew: bool)
    requires Fine(h) && needed >= MIN_BLOCK && needed % 8 == 0 && (grew ==> Extends(h, needed))
    ensures var (after, taken) := Malloc(h, needed, grew);
            && Fine(after)
            && (taken.None? ==> after == h)
            && (taken.Some? ==>
                  && Live(after.blocks) == Live(h.blocks) + {taken.value}
                  && !taken.value.free && needed <= taken.value.size < needed + MIN_BLOCK
                  && taken.value.size % 8 == 0 && CutFrom(h, needed, grew, taken.value)
                  && forall c :: c in Live(h.blocks) ==> c.addr != taken.value.addr)
  {
    hide FirstFit, Taken, Fine, HandedOut;
    if FirstFit(h.blocks, needed) < |h.blocks| {
      TakenFacts(h, needed);
    } else if grew {
      GrownFits(h, needed);
      GrowKeepsLive(h.blocks, h.end, GrowBytes(needed));
      TakenFacts(Grown(h, needed), needed);
    }
  }

  // A block handed out has room for the request exactly when its size did not wrap.
  lemma MallocMeetsRequest(h: Heap, size: U32, grew: bool)
    requires Fine(h) && size > 0 && (grew ==> Extends(h, Needed(size)))
    ensures var taken := Malloc(h, Needed(size), grew).1;
            taken.Some? ==> (taken.value.size - HEADER >= size <==> size + HEADER + 7 < TWO32)
  {
    hide Malloc, Fine;
    MallocFacts(h, Needed(size), grew);
    NeededSuffices(size);
  }

  // What kmalloc promises: null leaves the heap as it was, for want of a fitting block; any
  // other result is the payload, 8-aligned, of a new live block that starts at the lowest
  // fitting block, and it has room for the request unless the size wrapped.
  lemma GivesFacts(h: Heap, size: U32, grew: bool, after: Heap, ptr: int)
    requires size > 0 && Gives(h, Needed(size), grew, after, ptr)
    ensures Fine(after)
    ensures ptr == 0 ==> after == h && !grew && forall b :: b in h.blocks ==> !Fits(b, Needed(size))
    ensures !grew && ptr != 0 ==>
              forall b :: b in h.blocks && Fits(b, Needed(size)) ==> ptr <= b.addr + HEADER
    ensures ptr != 0 ==>
              exists b :: && b in Live(after.blocks) && b.addr + HEADER == ptr && ptr % 8 == 0
                          && Live(after.blocks) == Live(h.blocks) + {b}
                          && (b.size - HEADER >= size <==> size + HEADER + 7 < TWO32)
                          && Needed(size) <= b.size <= size + 39 && CutFrom(h, Needed(size), grew, b)
                          && forall c :: c in Live(h.blocks) ==> c.addr != b.addr
  {
    hide Malloc, Fine, CutFrom;
    MallocFacts(h, Needed(size), grew);
    NeededSuffices(size);
    FirstFitIsLowest(h, Needed(size), grew);
    var taken := Malloc(h, Needed(size), grew).1;
    if taken.Some? {
      TakenInside(after, taken.value);
    }
  }

  lemma LiveAligned(bs: seq<Block>, end: int, b: Block)
    requires WellFormed(bs, end) && b in Live(bs)
    ensures b.addr >= KHEAP_START && b.addr % 8 == 0
  {
    var i :| 0 <= i < |bs| && bs[i] == b;
    Bounds(bs, end, i);
    assert Aligned(bs[i]);
  }

  lemma TakenInside(h: Heap, b: Block)
    requires Fine(h) && b in Live(h.blocks)
    ensures b.addr >= KHEAP_START && b.addr % 8 == 0
  {
    LiveAligned(h.blocks, h.end, b);
  }

  lemma FirstFitIsLowest(h: Heap, needed: U32, grew: bool)
    requires Fine(h) && (grew ==> Extends(h, needed))
    ensures var taken := Malloc(h, needed, grew).1;
            && (taken.None? ==> !grew && forall b :: b in h.blocks ==> !Fits(b, needed))
            && (taken.Some? && !grew ==> forall b :: b in h.blocks && Fits(b, needed) ==> taken.value.addr <= b.addr)
  {
    hide FirstFit, Extends, Tiles;
    var i := FirstFit(h.blocks, needed);
    if i < |h.blocks| {
      forall b | b in h.blocks && Fits(b, needed) ensures h.blocks[i].addr <= b.addr {
        var j :| 0 <= j < |h.blocks| && h.blocks[j] == b;
        if i < j {
          Apart(h.blocks, h.end, i, j);
        }
      }
    }
  }

  datatype Event = Allocate(size: U32, grew: bool) | Free(block: Block)

  // A heap with the sizes that the live blocks were asked for.
  datatype Ledger = Ledger(heap: Heap, asked: map<int, int>)

  // What the caller and the machine may do next.
  ghost predicate Possible(l: Ledger, e: Event) {
    match e
    case Allocate(size, grew) => size > 0 && (grew ==> Extends(l.heap, Needed(size)))
    case Free(b) => b in Live(l.heap.blocks)
  }

  ghost function After(l: Ledger, e: Event): Ledger
    requires Fine(l.heap) && Possible(l, e)
  {
    match e
    case Allocate(size, grew) =>
      var (heap, taken) := Malloc(l.heap, Needed(size), grew);
      Ledger(heap, if taken.Some? then l.asked[taken.value.addr := size] else l.asked)
    case Free(b) =>
      var blocks := Release(l.heap.blocks, IndexOf(l.heap.blocks, b));
      Ledger(Heap(blocks, l.heap.end), l.asked - {b.addr})
  }

  // Every live block is what its request called for: big enough unless the request wrapped,
  // and never more than 39 bytes over.
  ghost predicate Accounted(l: Ledger) {
    forall b :: b in Live(l.heap.blocks) ==>
      && b.addr in l.asked
      && b.size <= l.asked[b.addr] + 39
      && (l.asked[b.addr] + HEADER + 7 < TWO32 ==> b.size >= l.asked[b.addr] + HEADER)
  }

  lemma AfterKeeps(l: Ledger, e: Event)
    requires Fine(l.heap) && Accounted(l) && Possible(l, e)
    ensures Fine(After(l, e).heap) && Accounted(After(l, e))
    ensures forall b :: b in Live(l.heap.blocks) && e != Free(b) ==> b in Live(After(l, e).heap.blocks)
  {
    hide Malloc, Needed, Tiles, NoFreeNeighbours, Release;
    match e
    case Allocate(size, grew) =>
      MallocFacts(l.heap, Needed(size), grew);
      NeededSuffices(size);
      var (heap, taken) := Malloc(l.heap, Needed(size), grew);
      assert After(l, e).heap == heap;
      assert Live(l.heap.blocks) <= Live(heap.blocks);
    case Free(b) =>
      var bs := l.heap.blocks;
      var i := IndexOf(bs, b);
      ReleaseStep(bs, l.heap.end, i);
      forall c | c in Live(bs) && c != b ensures c.addr != b.addr {
        var j :| 0 <= j < |bs| && bs[j] == c;
        Distinct(bs, l.heap.end, i, j);
      }
  }

  // The calls of the code are the events of the runs: what kmalloc gives is an allocation,
  // and what kfree leaves is a release.
  lemma KmallocIsEvent(l: Ledger, size: U32, grew: bool, after: Heap, ptr: int)
    requires size > 0 && Gives(l.heap, Needed(size), grew, after, ptr)
    ensures Possible(l, Allocate(size, grew)) && After(l, Allocate(size, grew)).heap == after
    ensures ptr != 0 ==> After(l, Allocate(size, grew)).asked == l.asked[ptr - HEADER := size]
    ensures ptr == 0 ==> After(l, Allocate(size, grew)) == l
  {
    hide Malloc, Needed, Fine;
    GivesFacts(l.heap, size, grew, after, ptr);
    MallocFacts(l.heap, Needed(size), grew);
    var taken := Malloc(l.heap, Needed(size), grew).1;
    if taken.Some? {
      TakenInside(after, taken.value);
    }
  }

  lemma KfreeIsEvent(l: Ledger, b: Block, after: seq<Block>)
    requires Fine(l.heap) && b in Live(l.heap.blocks) && Frees(l.heap.blocks, b.addr + HEADER, after)
    ensures After(l, Free(b)).heap == Heap(after, l.heap.end)
  {
    hide Release, Tiles, NoFreeNeighbours;
    var bs := l.heap.blocks;
    var k := IndexOf(bs, b);
    Bounds(bs, l.heap.end, k);
    var i :| 0 <= i < |bs| && bs[i].addr + HEADER == b.addr + HEADER && !bs[i].free && after == Release(bs, i);
    Distinct(bs, l.heap.end, i, k);
  }

  ghost predicate PossibleRun(l: Ledger, es: seq<Event>)
    decreases |es|
  {
    es == [] || (Fine(l.heap) && Possible(l, es[0]) && PossibleRun(After(l, es[0]), es[1..]))
  }

  ghost function RunAll(l: Ledger, es: seq<Event>): Ledger
    requires PossibleRun(l, es)
    decreases |es|
  {
    if es == [] then l else RunAll(After(l, es[0]), es[1..])
  }

  ghost function AllowedBytes(bs: seq<Block>, asked: map<int, int>): int {
    if bs == [] then 0
    else
      var last := bs[|bs| - 1];
      AllowedBytes(bs[..|bs| - 1], asked)
      + if last.free || last.addr !in asked then 0 else asked[last.addr] + 39
  }

  lemma {:induction false} UsedWithinAllowed(bs: seq<Block>, asked: map<int, int>)
    requires forall b :: b in Live(bs) ==> b.addr in asked && b.size <= asked[b.addr] + 39
    ensures UsedBytes(bs) <= AllowedBytes(bs, asked)
  {
    if bs != [] {
      var last, front := bs[|bs| - 1], bs[..|bs| - 1];
      assert !last.free ==> last in Live(bs);
      assert forall b :: b in Live(front) ==> b in Live(bs);
      UsedWithinAllowed(front, asked);
    }
  }

  // Over every run: the block list tiles the heap with no two free neighbours, the heap
  // stays within its limit, bytes are conserved, and the bytes in use exceed what was asked
  // for by at most 39 for each live block.
  lemma {:induction false} EveryRun(l: Ledger, es: seq<Event>)
    requires Fine(l.heap) && Accounted(l) && PossibleRun(l, es)
    ensures var r := RunAll(l, es);
            && Fine(r.heap) && Accounted(r)
            && UsedBytes(r.heap.blocks) + FreeBytes(r.heap.blocks) == r.heap.end - KHEAP_START
            && UsedBytes(r.heap.blocks) <= AllowedBytes(r.heap.blocks, r.asked)
            && Count(r.heap.blocks, true) <= Count(r.heap.blocks, false) + 1
    decreases |es|
  {
    if es == [] {
      BytesConserved(l.heap.blocks, l.heap.end);
      UsedWithinAllowed(l.heap.blocks, l.asked);
      FewFreeBlocks(l.heap.blocks);
    } else {
      hide Fine, Accounted, Possible, After;
      AfterKeeps(l, es[0]);
      EveryRun(After(l, es[0]), es[1..]);
    }
  }

  // Runs that end with the same live blocks and the same end of the heap end alike, whatever
  // they did and in whatever order.
  lemma RunsThatMeet(l: Ledger, es: seq<Event>, fs: seq<Event>)
    requires Fine(l.heap) && Accounted(l) && PossibleRun(l, es) && PossibleRun(l, fs)
    requires Live(RunAll(l, es).heap.blocks) == Live(RunAll(l, fs).heap.blocks)
    requires RunAll(l, es).heap.end == RunAll(l, fs).heap.end
    ensures RunAll(l, es).heap == RunAll(l, fs).heap
  {
    EveryRun(l, es);
    EveryRun(l, fs);
    hide RunAll, PossibleRun, WellFormed;
    LiveDeterminesList(RunAll(l, es).heap.blocks, RunAll(l, fs).heap.blocks, RunAll(l, es).heap.end);
  }

  // ---------------------------------------------------------------- huge requests

  // The block list after n growths of no page at all.
  ghost function GrownByNothing(bs: seq<Block>, end: int, n: nat): seq<Block> {
    if n == 0 then bs else Grow(GrownByNothing(bs, end, n - 1), end, 0)
  }

  ghost predicate AllSmaller(bs: seq<Block>, needed: int) {
    forall b :: b in bs ==> b.size < needed
  }

  lemma NothingGrowsSmall(bs: seq<Block>, end: int, needed: int)
    requires AllSmaller(bs, needed) && needed > 0
    ensures AllSmaller(Grow(bs, end, 0), needed)
  {
  }

  // A request whose page rounding wraps grows the heap by no page, and the scan never finds a
  // block: however often the loop of kmalloc turns, it does not end.
  lemma {:induction false} HugeRequestsLoop(h: Heap, needed: U32, n: nat)
    requires Fine(h) && needed + 4095 >= TWO32
    ensures GrowPages(needed) == 0 && NoFit(Heap(GrownByNothing(h.blocks, h.end, n), h.end), needed)
  {
    GrowBytesSuffices(needed);
    NothingHuge(h, needed, n);
  }

  lemma {:induction false} NothingHuge(h: Heap, needed: U32, n: nat)
    requires Fine(h) && needed + 4095 >= TWO32
    ensures AllSmaller(GrownByNothing(h.blocks, h.end, n), needed)
  {
    if n > 0 {
      NothingHuge(h, needed, n - 1);
      NothingGrowsSmall(GrownByNothing(h.blocks, h.end, n - 1), h.end, needed);
      hide Grow, AllSmaller, Fine;
    } else {
      forall b | b in h.blocks ensures b.size < needed {
        var i :| 0 <= i < |h.blocks| && h.blocks[i] == b;
        Bounds(h.blocks, h.end, i);
      }
    }
  }

  // ---------------------------------------------------------------- the first heap

  // What kheap_init makes: one free block of four pages.
  function FirstHeap(): Heap {
    Heap([Block(KHEAP_START, 16384, true)], KHEAP_START + 16384)
  }

  // The greatest size whose block size wraps to nothing is answered by a block of 24 bytes.
  lemma WrappedRequest()
    ensures Fine(FirstHeap()) && Needed(0xFFFF_FFF0) == MIN_BLOCK
    ensures Malloc(FirstHeap(), Needed(0xFFFF_FFF0), false).1 == Some(Block(KHEAP_START, MIN_BLOCK, false))
  {
    var bs := FirstHeap().blocks;
    assert Tiles(bs, FirstHeap().end) && Fits(bs[0], MIN_BLOCK) && FirstFit(bs, MIN_BLOCK) == 0;
    assert SplitAt(bs, 0, MIN_BLOCK)[0] == Block(KHEAP_START, MIN_BLOCK, false);
  }
}
