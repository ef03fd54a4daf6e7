// Any program over the memory subsystem. What it reads is what an ideal memory holds, in which
// every allocation is an array of its own; what it is granted is what an abstract machine of
// block list, free frames and page tables grants.

module Session {
  import opened Common
  import opened Pmm
  import opened Paging
  import opened HeapModel
  import opened Growth
  import opened HeapWindow
  import opened HeapHeaders
  import opened Kheap
  import opened Kernel

  // ---------------------------------------------------------------- programs

  // Allocations are named by the order in which they succeeded; their offsets are in bytes.
  // A poke and a peek reach a frame of the program's own through a page it has mapped to it.
  datatype Op =
    | Alloc(size: U32)
    | Free(k: nat)
    | Write(k: nat, offset: nat, b: Byte)
    | Read(k: nat, offset: nat)
    | TakeFrame
    | GiveFrame(frame: U32)
    | Map(virt: U32, phys: U32, flags: U32)
    | Unmap(virt: U32)
    | Poke(virt: U32, w: U32)
    | Peek(virt: U32)
    | Fill(page: Page)

  // ---------------------------------------------------------------- the abstract machine

  datatype Region = Region(ptr: U32, size: U32)

  // Block list, free frames and tables, and what the program holds: allocations, frames, and
  // the pages it has mapped.
  datatype Machine =
    Machine(memory: Memory, regions: map<nat, Region>, next: nat, frames: set<nat>, pages: map<Page, Leaf>)

  // A call of kmalloc that never returns.
  predicate Hangs(size: U32, end: int) {
    Needed(size) + 4095 >= TWO32 && end != LIMIT
  }

  // The bytes that an allocation is good for: those asked for, unless the size wrapped.
  function Usable(size: U32): (n: U32) {
    if size + HEADER + 7 < TWO32 then size else Needed(size) - HEADER
  }

  // What the program maps stays out of the kernel's own 4 MiB, the heap's 16 MiB and the
  // recursive window.
  predicate MayMap(virt: U32, flags: U32) {
    Foreign(virt / 4096) && flags < 0x1000
  }

  // The address lies in a page that the program has mapped to a frame it holds.
  predicate Reaches(pages: map<Page, Leaf>, frames: set<nat>, virt: U32, store: bool) {
    && virt % 4 == 0 && virt / 4096 in pages && pages[virt / 4096].frame in frames
    && (store ==> pages[virt / 4096].writable)
  }

  ghost function AllocStep(a: Machine, size: U32): (Machine, bool) {
    if size == 0 || Hangs(size, a.memory.heap.end) then (a, false)
    else
      var (memory, ptr) := Grant(a.memory, Needed(size));
      if 0 < ptr < TWO32
      then (a.(memory := memory, regions := a.regions[a.next := Region(ptr, Usable(size))], next := a.next + 1), true)
      else (a.(memory := memory), false)
  }

  ghost function FreeStep(a: Machine, k: nat): (Machine, bool) {
    if k !in a.regions then (a, false)
    else
      var h := a.memory.heap;
      var memory := a.memory.(heap := Heap(FreedAt(h.blocks, a.regions[k].ptr), h.end));
      (a.(memory := memory, regions := a.regions - {k}), true)
  }

  ghost function FrameStep(a: Machine, op: Op): (Machine, bool)
    requires op.TakeFrame? || op.GiveFrame?
  {
    if op.TakeFrame? then
      var f := LeastFree(a.memory.free);
      var memory := a.memory.(free := TakeFrom(a.memory.free));
      (a.(memory := memory, frames := if f == 0 then a.frames else a.frames + {f}), f != 0)
    else if op.frame % 4096 == 0 && op.frame / 4096 in a.frames then
      var f := op.frame / 4096;
      (a.(memory := a.memory.(free := a.memory.free + {f}), frames := a.frames - {f}), true)
    else (a, false)
  }

  ghost function PageStep(a: Machine, op: Op): (Machine, bool)
    requires op.Map? || op.Unmap?
  {
    if op.Unmap? then
      if Foreign(op.virt / 4096) then (a.(pages := a.pages - {op.virt / 4096}), true) else (a, false)
    else if MayMap(op.virt, op.flags) then
      var (memory, ok) := Mapped(a.memory, op.virt, op.phys);
      var leaf := Leaf(op.phys / 4096, Writable(op.flags), false);
      (a.(memory := memory, pages := if ok then a.pages[op.virt / 4096 := leaf] else a.pages), ok)
    else (a, false)
  }

  // One operation, and whether it was granted: an allocation or a frame was had, a mapping
  // was made, an access was in range, a handle or a frame was the program's to give back.
  ghost function Step(a: Machine, op: Op): (Machine, bool) {
    match op
    case Alloc(size) => AllocStep(a, size)
    case Free(k) => FreeStep(a, k)
    case Write(k, offset, _) => (a, k in a.regions && offset < a.regions[k].size)
    case Read(k, offset) => (a, k in a.regions && offset < a.regions[k].size)
    case TakeFrame => FrameStep(a, op)
    case GiveFrame(_) => FrameStep(a, op)
    case Poke(virt, _) => (a, Reaches(a.pages, a.frames, virt, true))
    case Peek(virt) => (a, Reaches(a.pages, a.frames, virt, false))
    case Fill(_) => (a, true)
    case _ => PageStep(a, op)
  }

  // ---------------------------------------------------------------- what the machine grants

  // What holds of the machine in every state that a program reaches.
  ghost predicate Sound(a: Machine) {
    && SoundMemory(a.memory) && a.frames !! a.memory.free
    && forall k :: k in a.regions ==> k < a.next && Backed(a.memory.heap.blocks, a.regions[k])
  }

  // An allocation is granted exactly when the least block for it, or the least pages for that
  // block, can be had; then it is good for every byte that was asked for.
  lemma AllocGranted(a: Machine, size: U32, r: nat, n: nat, b: Byte)
    requires Sound(a) && 0 < size && size + 4118 < TWO32 && LeastBlock(r, size) && LeastPages(n, r)
    ensures var (after, granted) := Step(a, Alloc(size));
            && granted == CanHave(a.memory, r, n)
            && (granted ==>
                  && after.next == a.next + 1 && a.next in after.regions && after.regions - {a.next} == a.regions
                  && after.regions[a.next].size == size
                  && Step(after, Write(a.next, size - 1, b)).1)
            && (!granted ==> after.regions == a.regions && after.next == a.next)
  {
    hide Fine, Needed, Grant, CanHave;
    NeededIsLeast(size, r);
    GrantExactly(a.memory, size, r, n);
    NullExactlyWhen(a.memory, r);
  }

  // The calls that never return are those of these sizes while the heap is below its limit ...
  lemma HangsExactly(size: U32, end: int)
    ensures Hangs(size, end) <==> end != LIMIT && 0xFFFF_EFF1 <= size <= 0xFFFF_FFE8
  {
  }

  // ... and no others: a program is denied, without a call, just those in which no number of
  // turns of the loop would find a block.
  lemma AllocLeftOut(a: Machine, size: U32, turns: nat)
    requires Sound(a) && 0 < size
    ensures var h := a.memory.heap;
            if h.end != LIMIT && 0xFFFF_EFF1 <= size <= 0xFFFF_FFE8
            then Step(a, Alloc(size)) == (a, false)
                 && NoFit(Heap(GrownByNothing(h.blocks, h.end, turns), h.end), Needed(size))
            else Step(a, Alloc(size)).1 == (Grant(a.memory, Needed(size)).1 != 0)
  {
    HangsExactly(size, a.memory.heap.end);
    hide Fine, Needed, Grant, NoFit, GrownByNothing;
    if Needed(size) + 4095 >= TWO32 {
      HugeRequestsLoop(a.memory.heap, Needed(size), turns);
    }
    NullExactlyWhen(a.memory, Needed(size));
  }

  // What else is granted, by address: a frame if there is one, the least; the return of a frame
  // that is held; a mapping that keeps clear of the kernel's 4 MiB, of the heap's 16 MiB and of
  // the recursive window, of an aligned frame, with a page table or a frame for one.
  lemma FramesGranted(a: Machine, frame: U32)
    requires Sound(a)
    ensures var (after, granted) := Step(a, TakeFrame);
            && granted == (a.memory.free != {})
            && (if granted
                then exists f :: f in a.memory.free && after.memory.free == a.memory.free - {f}
                                 && after.frames == a.frames + {f} && forall g :: g in a.memory.free ==> f <= g
                else after == a)
    ensures var (after, granted) := Step(a, GiveFrame(frame));
            && granted == (exists f :: f in a.frames && frame == 4096 * f)
            && (granted ==> after.frames == a.frames - {frame / 4096}
                            && after.memory.free == a.memory.free + {frame / 4096})
            && (!granted ==> after == a)
  {
    if frame % 4096 == 0 && frame / 4096 in a.frames {
      assert frame == 4096 * (frame / 4096);
    }
    if a.memory.free != {} {
      assert LeastFree(a.memory.free) != 0 by {
        var f :| f in a.memory.free;
      }
    }
  }

  // A release is granted exactly for an allocation that is live: its block ends and no other.
  lemma FreeGranted(a: Machine, k: nat)
    requires Sound(a)
    ensures var (after, granted) := Step(a, Op.Free(k));
            && granted == (k in a.regions)
            && (if granted
                then && after == a.(memory := after.memory, regions := a.regions - {k})
                     && after.memory == a.memory.(heap := Heap(after.memory.heap.blocks, a.memory.heap.end))
                     && Fine(after.memory.heap)
                     && Live(after.memory.heap.blocks)
                        == Live(a.memory.heap.blocks)
                           - set b | b in Live(a.memory.heap.blocks) && b.addr + HEADER == a.regions[k].ptr
                else after == a)
  {
    hide FreedAt, Release, Tiles, NoFreeNeighbours, Live;
    if k in a.regions {
      var bs, ptr := a.memory.heap.blocks, a.regions[k].ptr;
      var b :| b in Live(bs) && b.addr + HEADER == ptr && a.regions[k].size + HEADER <= b.size;
      LiveIsFreed(bs, a.memory.heap.end, b);
      FreesFacts(bs, a.memory.heap.end, ptr, FreedAt(bs, ptr));
    }
  }

  // A page that has been mapped to a frame of the program's can be read at every word, and
  // written exactly when the flags said so.
  lemma MappedIsReached(a: Machine, virt: U32, frame: U32, flags: U32, at: U32)
    requires Sound(a) && Step(a, Map(virt, frame, flags)).1 && frame / 4096 in a.frames
    requires at / 4096 == virt / 4096 && at % 4 == 0
    ensures var after := Step(a, Map(virt, frame, flags)).0;
            Step(after, Peek(at)).1 && forall w :: Step(after, Poke(at, w)).1 == (flags / 2 % 2 == 1)
  {
    hide Fine, Mapped, Backed;
  }

  lemma PagesGranted(a: Machine, virt: U32, phys: U32, flags: U32)
    requires Sound(a)
    ensures var foreign := virt < 0xFFC0_0000 && !(0xC000_0000 <= virt < 0xC040_0000)
                           && !(0xC200_0000 <= virt < 0xC300_0000);
            var (mapped, ok) := Step(a, Map(virt, phys, flags));
            && ok == (foreign && flags < 4096 && phys % 4096 == 0
                      && (virt / 0x40_0000 in a.memory.tables || a.memory.free != {}))
            && (if ok then mapped.pages == a.pages[virt / 4096 := Leaf(phys / 4096, flags / 2 % 2 == 1, false)]
                else mapped == a)
            && Step(a, Unmap(virt)) == if foreign then (a.(pages := a.pages - {virt / 4096}), true) else (a, false)
  {
    hide Fine, LeastFree;
    PageOfAddress(virt);
    if a.memory.free != {} {
      var f :| f in a.memory.free;
    }
  }

  lemma PageOfAddress(virt: U32)
    ensures Foreign(virt / 4096) <==>
              virt < 0xFFC0_0000 && !(0xC000_0000 <= virt < 0xC040_0000) && !(0xC200_0000 <= virt < 0xC300_0000)
  {
  }

  ghost function MachineAfter(a: Machine, ops: seq<Op>): Machine {
    if ops == [] then a else Step(MachineAfter(a, ops[..|ops| - 1]), ops[|ops| - 1]).0
  }

  // ---------------------------------------------------------------- the ideal memory

  // The size of an allocation, and the bytes written to it so far.
  datatype Cells = Cells(size: nat, bytes: map<nat, Byte>)

  // Every allocation is an array of its own, and so is every frame that the program holds; of
  // a frame, the words written since it was taken.
  datatype Ideal = Ideal(live: map<nat, Cells>, owned: map<nat, map<nat, U32>>)

  function Stored(live: map<nat, Cells>, k: nat, offset: nat, b: Byte): map<nat, Cells>
    requires k in live
  {
    live[k := Cells(live[k].size, live[k].bytes[offset := b])]
  }

  function Poked(owned: map<nat, map<nat, U32>>, f: nat, i: nat, w: U32): map<nat, map<nat, U32>> {
    if f !in owned then owned
    else
      var words: map<nat, U32> := owned[f][i := w];
      owned[f := words]
  }

  // One operation, where the machine is at `a`. What it refuses changes nothing, and what it
  // maps or caches is invisible.
  ghost function IdealStep(m: Ideal, a: Machine, op: Op): Ideal {
    if !Step(a, op).1 then m
    else
      match op
      case Alloc(size) => m.(live := m.live[a.next := Cells(Usable(size), map[])])
      case Free(k) => m.(live := m.live - {k})
      case Write(k, offset, b) => if k in m.live then m.(live := Stored(m.live, k, offset, b)) else m
      case TakeFrame => m.(owned := m.owned[LeastFree(a.memory.free) := map[]])
      case GiveFrame(frame) => m.(owned := m.owned - {frame / 4096})
      case Poke(virt, w) =>
        if virt / 4096 in a.pages
        then m.(owned := Poked(m.owned, a.pages[virt / 4096].frame, virt % 4096 / 4, w)) else m
      case _ => m
  }

  // What a read of a written byte and a peek at a written word answer.
  ghost function IdealAnswer(m: Ideal, a: Machine, op: Op): Option<U32> {
    match op
    case Read(k, offset) =>
      if k in m.live && offset in m.live[k].bytes then Some(m.live[k].bytes[offset]) else None
    case Peek(virt) =>
      if virt / 4096 in a.pages then Word(m.owned, a.pages[virt / 4096].frame, virt) else None
    case _ => None
  }

  function Word(owned: map<nat, map<nat, U32>>, f: nat, virt: U32): Option<U32> {
    if virt % 4 == 0 && f in owned && virt % 4096 / 4 in owned[f] then Some(owned[f][virt % 4096 / 4]) else None
  }

  ghost function IdealAfter(m: Ideal, a: Machine, ops: seq<Op>): Ideal {
    if ops == [] then m
    else
      var before := ops[..|ops| - 1];
      IdealStep(IdealAfter(m, a, before), MachineAfter(a, before), ops[|ops| - 1])
  }

  // ---------------------------------------------------------------- what the ideal memory keeps

  // The two know the same allocations and the same frames.
  ghost predicate Together(m: Ideal, a: Machine) {
    m.live.Keys == a.regions.Keys && m.owned.Keys == a.frames
  }

  lemma RunNext(m: Ideal, a: Machine, ops: seq<Op>, op: Op)
    ensures MachineAfter(a, ops + [op]) == Step(MachineAfter(a, ops), op).0
    ensures IdealAfter(m, a, ops + [op]) == IdealStep(IdealAfter(m, a, ops), MachineAfter(a, ops), op)
  {
    hide Step, IdealStep;
    assert (ops + [op])[..|ops|] == ops;
  }

  // Byte o of allocation k can be read and is b.
  ghost predicate ByteReads(m: Ideal, a: Machine, k: nat, o: nat, b: Byte) {
    && k < a.next && k in a.regions && o < a.regions[k].size
    && k in m.live && o in m.live[k].bytes && m.live[k].bytes[o] == b
  }

  lemma ByteStays(m: Ideal, a: Machine, op: Op, k: nat, o: nat, b: Byte)
    requires ByteReads(m, a, k, o, b) && op != Op.Free(k) && !(op.Write? && op.k == k && op.offset == o)
    ensures ByteReads(IdealStep(m, a, op), Step(a, op).0, k, o, b)
  {
    hide Grant, Mapped, FreedAt, LeastFree, MayMap, Reaches, Usable, Hangs;
  }

  // A byte that a program writes is what it reads after any other operations, so long as they
  // neither write that byte nor free the allocation.
  lemma {:induction false} WrittenByteIsRead(m: Ideal, a: Machine, k: nat, o: nat, b: Byte, ops: seq<Op>)
    requires Sound(a) && Together(m, a) && Step(a, Write(k, o, b)).1
    requires forall op :: op in ops ==> op != Op.Free(k) && !(op.Write? && op.k == k && op.offset == o)
    ensures var all := [Write(k, o, b)] + ops;
            && Step(MachineAfter(a, all), Read(k, o)).1
            && IdealAnswer(IdealAfter(m, a, all), MachineAfter(a, all), Read(k, o)) == Some(b)
            && ByteReads(IdealAfter(m, a, all), MachineAfter(a, all), k, o, b)
    decreases |ops|
  {
    hide AllocStep, FreeStep, FrameStep, PageStep;
    var first := [Write(k, o, b)];
    if ops == [] {
      RunNext(m, a, [], Write(k, o, b));
      assert [] + first == first && first + ops == first;
    } else {
      var n := |ops| - 1;
      WrittenByteIsRead(m, a, k, o, b, ops[..n]);
      assert first + ops == (first + ops[..n]) + [ops[n]];
      RunNext(m, a, first + ops[..n], ops[n]);
      ByteStays(IdealAfter(m, a, first + ops[..n]), MachineAfter(a, first + ops[..n]), ops[n], k, o, b);
    }
  }

  // Word i of frame f is w, and the frame is the program's.
  ghost predicate WordHeld(m: Ideal, a: Machine, f: nat, i: nat, w: U32) {
    && f in a.frames && a.frames !! a.memory.free
    && f in m.owned && i in m.owned[f] && m.owned[f][i] == w
  }

  lemma WordStays(m: Ideal, a: Machine, op: Op, f: nat, i: nat, w: U32)
    requires WordHeld(m, a, f, i, w) && (op.GiveFrame? ==> op.frame != 4096 * f)
    requires op.Poke? ==> op.virt % 4096 / 4 != i
    ensures WordHeld(IdealStep(m, a, op), Step(a, op).0, f, i, w)
  {
    hide Grant, FreedAt, LeastFree, MayMap, Reaches, Usable, Hangs;
    if op.Alloc? {
      GrantTakes(a.memory, Needed(op.size));
    }
  }

  // A word that a program writes through one page it reads through every page that it has
  // mapped to that frame, after any operations that neither write at that place of a frame nor
  // give the frame back.
  lemma {:induction false} PokedWordIsPeeked(m: Ideal, a: Machine, virt: U32, w: U32, ops: seq<Op>, other: U32)
    requires Sound(a) && Together(m, a) && Step(a, Poke(virt, w)).1
    requires forall op :: op in ops ==>
               && (op.GiveFrame? ==> op.frame != 4096 * a.pages[virt / 4096].frame)
               && (op.Poke? ==> op.virt % 4096 / 4 != virt % 4096 / 4)
    ensures var all := [Poke(virt, w)] + ops;
            var after, f := MachineAfter(a, all), a.pages[virt / 4096].frame;
            && WordHeld(IdealAfter(m, a, all), after, f, virt % 4096 / 4, w)
            && (other % 4 == 0 && other % 4096 == virt % 4096
                && other / 4096 in after.pages && after.pages[other / 4096].frame == f ==>
                  Step(after, Peek(other)).1 && IdealAnswer(IdealAfter(m, a, all), after, Peek(other)) == Some(w))
    decreases |ops|
  {
    hide AllocStep, FreeStep, FrameStep, PageStep;
    var first := [Poke(virt, w)];
    if ops == [] {
      RunNext(m, a, [], Poke(virt, w));
      assert [] + first == first && first + ops == first;
    } else {
      var n := |ops| - 1;
      assert forall op :: op in ops[..n] ==> op in ops;
      PokedWordIsPeeked(m, a, virt, w, ops[..n], other);
      assert first + ops == (first + ops[..n]) + [ops[n]];
      RunNext(m, a, first + ops[..n], ops[n]);
      WordStays(IdealAfter(m, a, first + ops[..n]), MachineAfter(a, first + ops[..n]), ops[n],
                a.pages[virt / 4096].frame, virt % 4096 / 4, w);
    }
  }

  // ---------------------------------------------------------------- regions of the heap

  // The region is the payload of a live block.
  ghost predicate Backed(bs: seq<Block>, r: Region) {
    exists b :: b in Live(bs) && b.addr + HEADER == r.ptr && r.size + HEADER <= b.size
  }

  // A byte of a region is a payload byte of a block.
  lemma RegionByte(bs: seq<Block>, end: int, r: Region, o: nat)
    requires WellFormed(bs, end) && Backed(bs, r) && o < r.size
    ensures InPayload(bs, r.ptr + o) && KHEAP_START <= r.ptr + o < end
  {
    hide Tiles, NoFreeNeighbours, Live;
    var b :| b in Live(bs) && b.addr + HEADER == r.ptr && r.size + HEADER <= b.size;
    assert b.addr + HEADER <= r.ptr + o < b.addr + b.size;
    PayloadInside(bs, end, r.ptr + o);
  }

  // Bytes of different regions are different.
  lemma RegionsApart(bs: seq<Block>, end: int, r: Region, o: nat, s: Region, p: nat)
    requires WellFormed(bs, end) && Backed(bs, r) && Backed(bs, s) && r.ptr != s.ptr
    requires o < r.size && p < s.size
    ensures r.ptr + o != s.ptr + p
  {
    hide Tiles, NoFreeNeighbours;
    var b :| b in Live(bs) && b.addr + HEADER == r.ptr && r.size + HEADER <= b.size;
    var c :| c in Live(bs) && c.addr + HEADER == s.ptr && s.size + HEADER <= c.size;
    if r.ptr + o == s.ptr + p {
      PayloadsDisjoint(bs, end, b, c, r.ptr + o);
    }
  }

  // The bytes written to an allocation are where its region is.
  ghost predicate Holds(written: map<int, U32>, r: Region, cells: Cells) {
    && r.size == cells.size
    && forall o :: o in cells.bytes ==> o < r.size && ByteIs(written, r.ptr + o, cells.bytes[o])
  }

  // The regions of the client, over the heap, show the ideal memory.
  ghost predicate Shows(regions: map<nat, Region>, next: nat, bs: seq<Block>, written: map<int, U32>,
                        live: map<nat, Cells>) {
    && regions.Keys == live.Keys
    && (forall k :: k in regions ==> k < next && Backed(bs, regions[k]) && Holds(written, regions[k], live[k]))
    && (forall j, k :: j in regions && k in regions && j != k ==> regions[j].ptr != regions[k].ptr)
  }

  // ---------------------------------------------------------------- what each operation keeps

  lemma HoldsBesides(was: map<int, U32>, now: map<int, U32>, r: Region, cells: Cells, a: U32, b: Byte)
    requires Holds(was, r, cells) && ByteWritten(was, now, a, b)
    requires forall o :: o in cells.bytes ==> r.ptr + o != a
    ensures Holds(now, r, cells)
  {
    hide ByteIs, ByteWritten;
    forall o | o in cells.bytes ensures ByteIs(now, r.ptr + o, cells.bytes[o]) {
      OtherByteStays(was, now, a, b, r.ptr + o, cells.bytes[o]);
    }
  }

  lemma HoldsWritten(was: map<int, U32>, now: map<int, U32>, r: Region, cells: Cells, o: nat, b: Byte)
    requires Holds(was, r, cells) && o < r.size && r.ptr + o < TWO32 && ByteWritten(was, now, r.ptr + o, b)
    ensures Holds(now, r, Cells(cells.size, cells.bytes[o := b]))
  {
    hide ByteIs, ByteWritten;
    ByteIsWritten(was, now, r.ptr + o, b);
    forall p | p in cells.bytes && p != o ensures ByteIs(now, r.ptr + p, cells.bytes[p]) {
      OtherByteStays(was, now, r.ptr + o, b, r.ptr + p, cells.bytes[p]);
    }
  }

  lemma HoldsSize(written: map<int, U32>, r: Region, cells: Cells)
    requires Holds(written, r, cells)
    ensures r.size == cells.size
  {
  }

  lemma HoldsRange(written: map<int, U32>, r: Region, cells: Cells, o: nat)
    requires Holds(written, r, cells) && o in cells.bytes
    ensures o < r.size
  {
  }

  lemma WriteShows(regions: map<nat, Region>, next: nat, bs: seq<Block>, end: int, was: map<int, U32>, now: map<int,
                   U32>,
                   live: map<nat, Cells>, k: nat, offset: nat, b: Byte)
    requires WellFormed(bs, end) && Shows(regions, next, bs, was, live)
    requires k in regions && k in live && offset < regions[k].size && regions[k].ptr + offset < TWO32
    requires ByteWritten(was, now, regions[k].ptr + offset, b)
    ensures Shows(regions, next, bs, now, Stored(live, k, offset, b))
  {
    hide Backed, WellFormed, Holds, ByteWritten;
    var a := regions[k].ptr + offset;
    HoldsSize(was, regions[k], live[k]);
    HoldsWritten(was, now, regions[k], live[k], offset, b);
    forall j | j in regions && j != k ensures Holds(now, regions[j], live[j]) {
      forall o | o in live[j].bytes ensures regions[j].ptr + o != a {
        HoldsRange(was, regions[j], live[j], o);
        RegionsApart(bs, end, regions[j], o, regions[k], offset);
      }
      HoldsBesides(was, now, regions[j], live[j], a, b);
    }
  }

  lemma BackedStill(bs: seq<Block>, after: seq<Block>, ptr: int, r: Region)
    requires Live(after) == Live(bs) - set b | b in Live(bs) && b.addr + HEADER == ptr
    requires Backed(bs, r) && r.ptr != ptr
    ensures Backed(after, r)
  {
    var b :| b in Live(bs) && b.addr + HEADER == r.ptr && r.size + HEADER <= b.size;
    assert b in Live(after);
  }

  lemma ByteKept(after: seq<Block>, end: int, written: map<int, U32>, kept: map<int, U32>, a: int, b: Byte)
    requires WellFormed(after, end) && InPayload(after, a) && ByteIs(written, a, b)
    requires forall x :: x in kept <==> x in written && InPayload(after, x)
    requires forall x :: x in kept ==> kept[x] == written[x]
    ensures ByteIs(kept, a, b)
  {
    hide WellFormed, InPayload, ByteOf;
    WordOfPayload(after, end, a);
  }

  lemma HoldsKept(after: seq<Block>, end: int, written: map<int, U32>, kept: map<int, U32>, r: Region, cells: Cells)
    requires WellFormed(after, end) && Holds(written, r, cells) && Backed(after, r)
    requires forall a :: a in kept <==> a in written && InPayload(after, a)
    requires forall a :: a in kept ==> kept[a] == written[a]
    ensures Holds(kept, r, cells)
  {
    hide WellFormed, InPayload, ByteIs, Backed;
    forall o | o in cells.bytes ensures ByteIs(kept, r.ptr + o, cells.bytes[o]) {
      RegionByte(after, end, r, o);
      ByteKept(after, end, written, kept, r.ptr + o, cells.bytes[o]);
    }
  }

  lemma FreeShows(regions: map<nat, Region>, next: nat, bs: seq<Block>, end: int, after: seq<Block>,
                  written: map<int, U32>,
                  kept: map<int, U32>, live: map<nat, Cells>, k: nat)
    requires WellFormed(bs, end) && Shows(regions, next, bs, written, live) && k in regions
    requires Frees(bs, regions[k].ptr, after)
    requires forall a :: a in kept <==> a in written && InPayload(after, a)
    requires forall a :: a in kept ==> kept[a] == written[a]
    ensures Shows(regions - {k}, next, after, kept, live - {k})
  {
    hide WellFormed, Frees, InPayload, Holds, Backed, Live;
    FreesFacts(bs, end, regions[k].ptr, after);
    forall j | j in regions && j != k
      ensures Backed(after, regions[j]) && Holds(kept, regions[j], live[j])
    {
      BackedStill(bs, after, regions[k].ptr, regions[j]);
      HoldsKept(after, end, written, kept, regions[j], live[j]);
    }
  }

  lemma BackedBy(bs: seq<Block>, r: Region, b: Block)
    requires b in Live(bs) && b.addr + HEADER == r.ptr && r.size + HEADER <= b.size
    ensures Backed(bs, r)
  {
  }

  lemma BackedBeside(bs: seq<Block>, after: seq<Block>, b: Block, r: Region)
    requires Live(after) == Live(bs) + {b} && forall c :: c in Live(bs) ==> c.addr != b.addr
    requires Backed(bs, r)
    ensures Backed(after, r) && r.ptr != b.addr + HEADER
  {
  }

  lemma NothingHeld(written: map<int, U32>, r: Region)
    ensures Holds(written, r, Cells(r.size, map[]))
  {
  }

  lemma AllocShows(regions: map<nat, Region>, next: nat, h: Heap, after: Heap, written: map<int, U32>, live: map<nat,
                   Cells>,
                   size: U32, grew: bool, ptr: U32)
    requires Shows(regions, next, h.blocks, written, live) && size > 0
    requires Gives(h, Needed(size), grew, after, ptr)
    ensures ptr == 0 ==> Shows(regions, next, after.blocks, written, live)
    ensures ptr != 0 ==>
              Shows(regions[next := Region(ptr, Usable(size))], next + 1, after.blocks, written,
                    live[next := Cells(Usable(size), map[])])
  {
    hide Gives, Needed, Holds, Backed, Live;
    GivesFacts(h, size, grew, after, ptr);
    if ptr != 0 {
      var b :| b in Live(after.blocks) && b.addr + HEADER == ptr && Live(after.blocks) == Live(h.blocks) + {b}
               && (b.size - HEADER >= size <==> size + HEADER + 7 < TWO32) && Needed(size) <= b.size
               && forall c :: c in Live(h.blocks) ==> c.addr != b.addr;
      BackedBy(after.blocks, Region(ptr, Usable(size)), b);
      forall k | k in regions ensures Backed(after.blocks, regions[k]) && regions[k].ptr != ptr {
        BackedBeside(h.blocks, after.blocks, b, regions[k]);
      }
      NothingHeld(written, Region(ptr, Usable(size)));
    }
  }

  lemma ShowsKeys(regions: map<nat, Region>, next: nat, bs: seq<Block>, written: map<int, U32>, live: map<nat, Cells>)
    requires Shows(regions, next, bs, written, live)
    ensures regions.Keys == live.Keys
    ensures forall k :: k in regions ==> regions[k].size == live[k].size
  {
    hide Backed, ByteIs;
  }

  lemma ShowsBacked(regions: map<nat, Region>, next: nat, bs: seq<Block>, written: map<int, U32>, live: map<nat,
                    Cells>, k: nat)
    requires Shows(regions, next, bs, written, live) && k in regions
    ensures Backed(bs, regions[k])
    ensures exists b :: b in Live(bs) && b.addr + HEADER == regions[k].ptr
  {
    hide Holds, Live;
  }

  lemma ShowsByte(regions: map<nat, Region>, next: nat, bs: seq<Block>, written: map<int, U32>, live: map<nat,
                  Cells>, k: nat, offset: nat)
    requires Shows(regions, next, bs, written, live) && k in regions && offset in live[k].bytes
    ensures offset < regions[k].size && ByteIs(written, regions[k].ptr + offset, live[k].bytes[offset])
  {
    hide Backed, ByteIs;
  }

  // ---------------------------------------------------------------- the client

  // ---------------------------------------------------------------- frames of the program

  // The frame holds the words that were written to it.
  ghost predicate FrameShows(words: map<nat, U32>, content: seq<U32>) {
    |content| == 1024 && forall i :: i in words ==> i < 1024 && content[i] == words[i]
  }

  ghost predicate FramesShow(owned: map<nat, map<nat, U32>>, frames: map<nat, seq<U32>>) {
    forall f :: f in owned ==> f in frames && FrameShows(owned[f], frames[f])
  }

  // The pages are mapped as the program has asked.
  ghost predicate PagesShow(pages: map<Page, Leaf>, walk: imap<Page, Option<Leaf>>) {
    forall p :: p in pages ==> Foreign(p) && p in walk && walk[p] == Some(pages[p])
  }

  // A frame that is taken brings whatever it contains.
  lemma TakenShows(owned: map<nat, map<nat, U32>>, was: map<nat, seq<U32>>, now: map<nat, seq<U32>>, f: nat)
    requires FramesShow(owned, was) && f in now && |now[f]| == 1024 && f !in owned
    requires forall g :: g in was ==> g in now && now[g] == was[g]
    ensures FramesShow(owned[f := map[]], now)
  {
    hide FrameShows;
    assert FrameShows(map[], now[f]) by {
      EmptyShows(now[f]);
    }
  }

  lemma EmptyShows(content: seq<U32>)
    requires |content| == 1024
    ensures FrameShows(map[], content)
  {
  }

  lemma GivenShows(owned: map<nat, map<nat, U32>>, was: map<nat, seq<U32>>, now: map<nat, seq<U32>>, f: nat)
    requires FramesShow(owned, was) && now.Keys == was.Keys - {f}
    requires forall g :: g in now ==> now[g] == was[g]
    ensures FramesShow(owned - {f}, now)
  {
    hide FrameShows;
  }

  // A poke goes into its frame alone.
  lemma PokeShows(owned: map<nat, map<nat, U32>>, frames: map<nat, seq<U32>>, f: nat, i: nat, w: U32)
    requires FramesShow(owned, frames) && f in frames && i < 1024 && |frames[f]| == 1024
    ensures FramesShow(Poked(owned, f, i, w), frames[f := WithWord(frames[f], i, w)])
  {
  }

  // ---------------------------------------------------------------- the client

  class Client {
    const system: MemorySystem
    var regions: map<nat, Region>   // the allocations not yet freed
    var next: nat
    var frames: set<nat>            // the frames taken and not given back
    var pages: map<Page, Leaf>      // the pages mapped and not unmapped
    ghost var ideal: Ideal

    ghost predicate Valid()
      reads this, system, system.heap, system.heap.window, system.heap.window.mmu, system.heap.window.mmu.ram,
        system.heap.window.mmu.pmm, system.heap.window.mmu.pmm.bitmap
    {
      && system.Valid() && system.heap.window.mmu.Sized() && system.heap.window.mmu.pmm.Sized()
      && Shows(regions, next, system.heap.blocks, system.written, ideal.live)
      && frames == ideal.owned.Keys && frames <= system.mine && FramesShow(ideal.owned, system.MyFrames())
      && PagesShow(pages, system.OtherPages())
    }

    ghost function Model(): Machine
      reads this, system.heap, system.heap.window.mmu.ram, system.heap.window.mmu.pmm, system.heap.window.mmu.pmm.bitmap
      requires system.heap.window.mmu.Sized() && system.heap.window.mmu.pmm.Sized()
    {
      Machine(system.Now(), regions, next, frames, pages)
    }

    constructor (system: MemorySystem)
      requires system.Valid() && system.written == map[]
      ensures this.system == system && Valid() && ideal == Ideal(map[], map[])
      ensures Model() == Machine(system.Now(), map[], 0, {}, map[])
    {
      this.system := system;
      regions, next, frames, pages := map[], 0, {}, map[];
      ideal := Ideal(map[], map[]);
      new;
      system.Sizes();
    }

    lemma MachineSound()
      requires Valid()
      ensures Sound(Model()) && Together(ideal, Model())
    {
      hide MemorySystem.Valid, FramesShow, PagesShow, MemorySystem.MyFrames, MemorySystem.OtherPages, Backed, Holds,
        SoundMemory, FrameAllocator.Free, AddressSpace.Installed;
      system.MemorySound();
    }

    // Whatever the size, so long as kmalloc returns.
    method Alloc(size: U32) returns (granted: bool)
      requires Valid()
      modifies this, system.heap, system.heap.window, system.heap.window.mmu`tlb, system.heap.window.mmu.ram,
        system.heap.window.mmu.pmm`usedCount, system.heap.window.mmu.pmm`held, system.heap.window.mmu.pmm.bitmap
      ensures Valid() && ideal == IdealStep(old(ideal), old(Model()), Op.Alloc(size))
      ensures (Model(), granted) == AllocStep(old(Model()), size)
      ensures Sound(old(Model()))
      ensures forall r: nat, n: nat ::
                0 < size && size + 4118 < TWO32 && LeastBlock(r, size) && LeastPages(n, r) ==>
                  && granted == CanHave(old(Model()).memory, r, n)
                  && (granted ==> next == old(next) + 1 && regions.Keys == old(regions).Keys + {old(next)}
                                  && regions[old(next)].size == size)
    {
      hide MemorySystem.Valid, Shows, Gives, Needed, Grant, FramesShow, PagesShow, MemorySystem.MyFrames,
        MemorySystem.OtherPages, Usable;
      granted := false;
      ghost var before := Model();
      MachineSound();
      forall r: nat, n: nat | 0 < size && size + 4118 < TWO32 && LeastBlock(r, size) && LeastPages(n, r)
        ensures AllocStep(before, size).1 == CanHave(before.memory, r, n)
        ensures AllocStep(before, size).1 ==> AllocStep(before, size).0.regions[next].size == size
      {
        AllocGranted(before, size, r, n, 0);
      }
      if !Hangs(size, system.heap.end) {
        ghost var h := Heap(system.heap.blocks, system.heap.end);
        var ptr, grew := system.Kmalloc(size);
        granted := ptr != 0;
        if size > 0 {
          AllocShows(regions, next, h, Heap(system.heap.blocks, system.heap.end), system.written, ideal.live,
                     size, grew, ptr);
        }
        if granted {
          ideal := ideal.(live := ideal.live[next := Cells(Usable(size), map[])]);
          regions, next := regions[next := Region(ptr, Usable(size))], next + 1;
        }
      }
    }

    method Free(k: nat) returns (granted: bool)
      requires Valid()
      modifies this, system`written, system.heap`blocks, system.heap.window`words, system.heap.window.mmu`tlb,
        system.heap.window.mmu.ram
      ensures Valid() && ideal == IdealStep(old(ideal), old(Model()), Op.Free(k))
      ensures (Model(), granted) == FreeStep(old(Model()), k)
    {
      hide MemorySystem.Valid, Shows, Frees, Live, InPayload, FreedAt, FramesShow, PagesShow, MemorySystem.MyFrames,
        MemorySystem.OtherPages;
      ShowsKeys(regions, next, system.heap.blocks, system.written, ideal.live);
      granted := k in regions;
      if granted {
        ghost var bs, end := system.heap.blocks, system.heap.end;
        ghost var written := system.written;
        system.HeapShape();
        ShowsBacked(regions, next, bs, written, ideal.live, k);
        system.Kfree(regions[k].ptr);
        FreeShows(regions, next, bs, end, system.heap.blocks, written, system.written, ideal.live, k);
        regions := regions - {k};
        ideal := ideal.(live := ideal.live - {k});
      }
    }

    method Write(k: nat, offset: nat, b: Byte) returns (granted: bool)
      requires Valid()
      modifies this`ideal, system`written, system.heap.window`words, system.heap.window.mmu`tlb,
        system.heap.window.mmu.ram
      ensures Valid() && ideal == IdealStep(old(ideal), old(Model()), Op.Write(k, offset, b))
      ensures (Model(), granted) == Step(old(Model()), Op.Write(k, offset, b))
    {
      hide MemorySystem.Valid, Shows, InPayload, ByteWritten, WellFormed, FramesShow, PagesShow,
        MemorySystem.MyFrames, MemorySystem.OtherPages, MemorySystem.Now;
      ShowsKeys(regions, next, system.heap.blocks, system.written, ideal.live);
      granted := k in regions && offset < regions[k].size;
      if granted {
        ghost var bs, end, was := system.heap.blocks, system.heap.end, system.written;
        system.HeapShape();
        ShowsBacked(regions, next, bs, was, ideal.live, k);
        RegionByte(bs, end, regions[k], offset);
        system.WriteByte(regions[k].ptr + offset, b);
        WriteShows(regions, next, bs, end, was, system.written, ideal.live, k, offset, b);
        ideal := ideal.(live := Stored(ideal.live, k, offset, b));
      }
    }

    // Every byte that was written is read as it is in the ideal memory.
    method Read(k: nat, offset: nat) returns (granted: bool, answer: Option<U32>)
      requires Valid()
      modifies system.heap.window.mmu`tlb
      ensures Valid() && (Model(), granted) == Step(old(Model()), Op.Read(k, offset)) && granted == answer.Some?
      ensures var expected := IdealAnswer(ideal, Model(), Op.Read(k, offset)); expected.Some? ==> answer == expected
    {
      hide MemorySystem.Valid, Shows, InPayload, WellFormed, ByteOf, FramesShow, PagesShow, MemorySystem.MyFrames,
        MemorySystem.OtherPages, MemorySystem.Now;
      ShowsKeys(regions, next, system.heap.blocks, system.written, ideal.live);
      answer := None;
      granted := k in regions && offset < regions[k].size;
      if k in regions && offset in ideal.live[k].bytes {
        ShowsByte(regions, next, system.heap.blocks, system.written, ideal.live, k, offset);
      }
      if granted {
        ghost var bs, end := system.heap.blocks, system.heap.end;
        system.HeapShape();
        ShowsBacked(regions, next, bs, system.written, ideal.live, k);
        RegionByte(bs, end, regions[k], offset);
        var b := system.ReadByte(regions[k].ptr + offset);
        answer := Some(b);
      }
    }

    method HaveFrame() returns (granted: bool)
      requires Valid()
      modifies this`frames, this`ideal, system`mine, system.heap.window.mmu.pmm`usedCount,
        system.heap.window.mmu.pmm`held, system.heap.window.mmu.pmm.bitmap
      ensures Valid() && (Model(), granted) == FrameStep(old(Model()), TakeFrame)
      ensures ideal == IdealStep(old(ideal), old(Model()), TakeFrame)
    {
      hide MemorySystem.Valid, Shows, LeastFree, TakeFrom, FramesShow, PagesShow, MemorySystem.MyFrames,
        MemorySystem.OtherPages, MemorySystem.Now;
      system.MineHave();
      ghost var was := system.MyFrames();
      var frame := system.TakeFrame();
      granted := frame != 0;
      if granted {
        system.MineHave();
        TakenShows(ideal.owned, was, system.MyFrames(), frame / 4096);
        frames := frames + {frame / 4096};
        ideal := ideal.(owned := ideal.owned[frame / 4096 := map[]]);
      }
    }

    // Only frames that are held can be given back.
    method ReturnFrame(frame: U32) returns (granted: bool)
      requires Valid()
      modifies this`frames, this`ideal, system`mine, system.heap.window.mmu.pmm`usedCount,
        system.heap.window.mmu.pmm`held, system.heap.window.mmu.pmm.bitmap
      ensures Valid() && (Model(), granted) == FrameStep(old(Model()), GiveFrame(frame))
      ensures ideal == IdealStep(old(ideal), old(Model()), GiveFrame(frame))
    {
      hide MemorySystem.Valid, Shows, FramesShow, PagesShow, MemorySystem.MyFrames, MemorySystem.OtherPages,
        MemorySystem.Now;
      granted := frame % 4096 == 0 && frame / 4096 in frames;
      if granted {
        system.MineHave();
        ghost var was := system.MyFrames();
        system.GiveFrame(frame);
        system.MineHave();
        GivenShows(ideal.owned, was, system.MyFrames(), frame / 4096);
        frames := frames - {frame / 4096};
        ideal := ideal.(owned := ideal.owned - {frame / 4096});
      }
    }

    method ChangePage(op: Op) returns (granted: bool)
      requires Valid() && (op.Map? || op.Unmap?)
      modifies this`pages, system.heap.window.mmu`tlb, system.heap.window.mmu.ram,
        system.heap.window.mmu.pmm`usedCount, system.heap.window.mmu.pmm`held, system.heap.window.mmu.pmm.bitmap
      ensures Valid() && (Model(), granted) == PageStep(old(Model()), op)
    {
      hide MemorySystem.Valid, Shows, Foreign, Mapped, FramesShow, MemorySystem.MyFrames,
        MemorySystem.OtherPages, MemorySystem.Now;
      granted := false;
      match op {
        case Map(virt, phys, flags) =>
          if MayMap(virt, flags) {
            granted := system.MapPage(virt, phys, flags);
            if granted {
              pages := pages[virt / 4096 := Leaf(phys / 4096, Writable(flags), false)];
            }
          }
        case Unmap(virt) =>
          if Foreign(virt / 4096) {
            granted := true;
            system.UnmapPage(virt);
            pages := pages - {virt / 4096};
          }
      }
    }

    method Poke(virt: U32, w: U32) returns (granted: bool)
      requires Valid()
      modifies this`ideal, system.heap.window.mmu`tlb, system.heap.window.mmu.ram
      ensures Valid() && (Model(), granted) == Step(old(Model()), Op.Poke(virt, w))
      ensures ideal == IdealStep(old(ideal), old(Model()), Op.Poke(virt, w))
    {
      hide MemorySystem.Valid, Shows, Foreign, FramesShow, MemorySystem.MyFrames, MemorySystem.OtherPages,
        MemorySystem.Now;
      granted := Reaches(pages, frames, virt, true);
      if granted {
        ghost var f, was := pages[virt / 4096].frame, system.MyFrames();
        system.WriteMapped(virt, w);
        PokeShows(ideal.owned, was, f, virt % 4096 / 4, w);
        ideal := ideal.(owned := Poked(ideal.owned, f, virt % 4096 / 4, w));
      }
    }

    // Every word that was poked into a frame is what a peek finds, through whatever page.
    method Peek(virt: U32) returns (granted: bool, answer: Option<U32>)
      requires Valid()
      modifies system.heap.window.mmu`tlb
      ensures Valid() && (Model(), granted) == Step(old(Model()), Op.Peek(virt)) && granted == answer.Some?
      ensures var expected := IdealAnswer(ideal, Model(), Op.Peek(virt)); expected.Some? ==> answer == expected
    {
      hide MemorySystem.Valid, Shows, Foreign, MemorySystem.MyFrames, MemorySystem.OtherPages, MemorySystem.Now;
      answer := None;
      granted := Reaches(pages, frames, virt, false);
      if granted {
        var w := system.ReadMapped(virt);
        answer := Some(w);
      }
    }

    method Do(op: Op) returns (granted: bool, answer: Option<U32>)
      requires Valid()
      modifies this, system, system.heap, system.heap.window, system.heap.window.mmu`tlb, system.heap.window.mmu.ram,
        system.heap.window.mmu.pmm`usedCount, system.heap.window.mmu.pmm`held, system.heap.window.mmu.pmm.bitmap
      ensures Valid() && ideal == IdealStep(old(ideal), old(Model()), op)
      ensures (Model(), granted) == Step(old(Model()), op)
      ensures Sound(old(Model())) && Together(old(ideal), old(Model()))
      ensures var expected := IdealAnswer(old(ideal), old(Model()), op); expected.Some? ==> answer == expected
    {
      hide MemorySystem.Valid, Shows, AllocStep, FreeStep, FrameStep, PageStep, Reaches, MemorySystem.Now, FramesShow,
        PagesShow, MemorySystem.MyFrames, MemorySystem.OtherPages, Sound, Together;
      granted, answer := false, None;
      MachineSound();
      match op {
        case Alloc(size) => granted := Alloc(size);
        case Free(k) => granted := Free(k);
        case Write(k, offset, b) => granted := Write(k, offset, b);
        case Read(k, offset) => granted, answer := Read(k, offset);
        case TakeFrame => granted := HaveFrame();
        case GiveFrame(frame) => granted := ReturnFrame(frame);
        case Poke(virt, w) => granted := Poke(virt, w);
        case Peek(virt) => granted, answer := Peek(virt);
        case Fill(page) =>
          granted := true;
          system.Prefetch(page);
        case _ => granted := ChangePage(op);
      }
    }

    // Any program, against the ideal memory and the abstract machine.
    method Run(ops: seq<Op>) returns (granted: seq<bool>, answers: seq<Option<U32>>)
      requires Valid()
      modifies this, system, system.heap, system.heap.window, system.heap.window.mmu`tlb, system.heap.window.mmu.ram,
        system.heap.window.mmu.pmm`usedCount, system.heap.window.mmu.pmm`held, system.heap.window.mmu.pmm.bitmap
      ensures Valid() && |granted| == |ops| && |answers| == |ops|
      ensures ideal == IdealAfter(old(ideal), old(Model()), ops) && Model() == MachineAfter(old(Model()), ops)
      ensures Agrees(old(ideal), old(Model()), ops, granted, answers)
    {
      hide MemorySystem.Valid, Shows, Agrees, IdealStep, IdealAnswer, Step, MemorySystem.Now, FramesShow, PagesShow,
        MemorySystem.MyFrames, MemorySystem.OtherPages, Sound, Together;
      ghost var first, start := ideal, Model();
      granted, answers := [], [];
      AgreesAtStart(ideal, start);
      var i := 0;
      while i < |ops|
        invariant 0 <= i <= |ops| && |granted| == i && |answers| == i
        invariant Valid() && ideal == IdealAfter(first, start, ops[..i])
        invariant Model() == MachineAfter(start, ops[..i])
        invariant Agrees(first, start, ops[..i], granted, answers)
      {
        var g, a := Do(ops[i]);
        AgreesNext(first, start, ops[..i], granted, answers, ops[i], g, a);
        assert ops[..i + 1] == ops[..i] + [ops[i]];
        granted, answers := granted + [g], answers + [a];
        i := i + 1;
      }
      assert ops[..i] == ops;
    }
  }

  // ---------------------------------------------------------------- agreement

  // The machine, which is sound and of one mind with the ideal memory, grants the operation, or
  // not, as `granted` says, and a read or a peek answers what the ideal memory does.
  ghost predicate AgreesOn(m: Ideal, a: Machine, op: Op, granted: bool, answer: Option<U32>) {
    && Sound(a) && Together(m, a) && granted == Step(a, op).1
    && (IdealAnswer(m, a, op).Some? ==> answer == IdealAnswer(m, a, op))
  }

  ghost predicate AgreesAt(m: Ideal, a: Machine, ops: seq<Op>, granted: seq<bool>, answers: seq<Option<U32>>, i: nat)
    requires i < |ops| == |granted| == |answers|
  {
    AgreesOn(IdealAfter(m, a, ops[..i]), MachineAfter(a, ops[..i]), ops[i], granted[i], answers[i])
  }

  ghost predicate Agrees(m: Ideal, a: Machine, ops: seq<Op>, granted: seq<bool>, answers: seq<Option<U32>>) {
    && |granted| == |ops| && |answers| == |ops|
    && forall i: nat :: i < |ops| ==> AgreesAt(m, a, ops, granted, answers, i)
  }

  lemma AgreesAtStart(m: Ideal, a: Machine)
    ensures IdealAfter(m, a, []) == m && MachineAfter(a, []) == a && Agrees(m, a, [], [], [])
  {
  }

  lemma AgreesNext(m: Ideal, a: Machine, ops: seq<Op>, granted: seq<bool>,
                   answers: seq<Option<U32>>, op: Op, g: bool, answer: Option<U32>)
    requires Agrees(m, a, ops, granted, answers)
    requires AgreesOn(IdealAfter(m, a, ops), MachineAfter(a, ops), op, g, answer)
    ensures IdealAfter(m, a, ops + [op]) == IdealStep(IdealAfter(m, a, ops), MachineAfter(a, ops), op)
    ensures MachineAfter(a, ops + [op]) == Step(MachineAfter(a, ops), op).0
    ensures Agrees(m, a, ops + [op], granted + [g], answers + [answer])
  {
    hide Step, IdealStep, AgreesOn;
    assert (ops + [op])[..|ops|] == ops;
    forall i: nat | i <= |ops| ensures AgreesAt(m, a, ops + [op], granted + [g], answers + [answer], i) {
      AgreesStill(m, a, ops, granted, answers, op, g, answer, i);
    }
  }

  lemma AgreesStill(m: Ideal, a: Machine, ops: seq<Op>, granted: seq<bool>,
                    answers: seq<Option<U32>>, op: Op, g: bool, answer: Option<U32>, i: nat)
    requires |ops| == |granted| == |answers| && i <= |ops|
    requires i < |ops| ==> AgreesAt(m, a, ops, granted, answers, i)
    requires i == |ops| ==> AgreesOn(IdealAfter(m, a, ops), MachineAfter(a, ops), op, g, answer)
    ensures AgreesAt(m, a, ops + [op], granted + [g], answers + [answer], i)
  {
    hide AgreesOn, IdealAfter, MachineAfter;
    assert (ops + [op])[..i] == ops[..i];
    assert ops[..|ops|] == ops;
  }
}
