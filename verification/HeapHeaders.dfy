// Block headers as the words they are: how the doubly linked list of the heap sits in the
// memory it manages, and what the writes of each operation leave there.

module HeapHeaders {
  import opened Common
  import opened HeapModel
  import opened HeapWindow

  type Words = map<int, U32>

  // size, is_free, next and prev of a block, at offsets 0, 4, 8 and 12.
  ghost predicate Header(m: Words, b: Block, next: int, prev: int) {
    && b.addr in m && b.addr + 4 in m && b.addr + 8 in m && b.addr + 12 in m
    && m[b.addr] == b.size
    && Flag(m[b.addr + 4]) == b.free
    && m[b.addr + 8] == next
    && m[b.addr + 12] == prev
  }

  // Null is 0.
  ghost function Next(bs: seq<Block>, i: int): int {
    if 0 <= i + 1 < |bs| then bs[i + 1].addr else 0
  }

  ghost function Prev(bs: seq<Block>, i: int): int {
    if 0 < i <= |bs| then bs[i - 1].addr else 0
  }

  ghost predicate HeaderAt(m: Words, bs: seq<Block>, i: nat)
    requires i < |bs|
  {
    Header(m, bs[i], Next(bs, i), Prev(bs, i))
  }

  ghost predicate Encoded(m: Words, bs: seq<Block>) {
    forall i: nat :: i < |bs| ==> HeaderAt(m, bs, i)
  }

  // A word of the user's part of a live block.
  ghost predicate InPayload(bs: seq<Block>, a: int) {
    exists b :: b in Live(bs) && b.addr + HEADER <= a < b.addr + b.size
  }

  // No word of a live payload has changed.
  ghost predicate Keeps(bs: seq<Block>, m: Words, n: Words) {
    forall a :: a in m && InPayload(bs, a) ==> a in n && n[a] == m[a]
  }

  // Every word of a payload is still one.
  ghost predicate StillLive(bs: seq<Block>, cs: seq<Block>) {
    forall a :: InPayload(bs, a) ==> InPayload(cs, a)
  }

  lemma KeepsOn(bs: seq<Block>, cs: seq<Block>, m: Words, n: Words, o: Words)
    requires Keeps(bs, m, n) && StillLive(bs, cs) && Keeps(cs, n, o)
    ensures Keeps(bs, m, o)
  {
    hide InPayload;
  }

  // Outside [lo, hi) and the word `link` nothing has changed.
  ghost predicate SameBut(m: Words, n: Words, lo: int, hi: int, link: int) {
    && (forall a :: a in m <==> a in n)
    && (forall a :: a in m && !(lo <= a < hi) && a != link ==> m[a] == n[a])
  }

  lemma HeaderKept(m: Words, n: Words, b: Block, next: int, prev: int, lo: int, hi: int, link: int)
    requires Header(m, b, next, prev) && SameBut(m, n, lo, hi, link)
    requires b.addr + HEADER <= lo || hi <= b.addr
    requires link < b.addr || b.addr + HEADER <= link
    ensures Header(n, b, next, prev)
  {
  }

  lemma FlagAfterStore(w: U32, flag: bool)
    ensures Flag(WithFlag(w, flag)) == flag
  {
  }

  // The back link of block `t`; 12, which no block contains, if there is none.
  ghost function BackLink(bs: seq<Block>, t: int): int {
    if 0 <= t < |bs| then bs[t].addr + 12 else 12
  }

  // Writes inside block `i` and to the back link of block `t` leave the other headers.
  lemma Kept(m: Words, n: Words, bs: seq<Block>, end: int, i: nat, t: nat, j: nat)
    requires Tiles(bs, end) && Encoded(m, bs) && i < |bs| && j < |bs| && j != i && j != t
    requires SameBut(m, n, bs[i].addr, bs[i].addr + bs[i].size, BackLink(bs, t))
    ensures HeaderAt(n, bs, j)
  {
    hide Header, SameBut, Tiles;
    assert HeaderAt(m, bs, j);
    if j < i { Apart(bs, end, j, i); } else { Apart(bs, end, i, j); }
    if t < |bs| {
      if j < t { Apart(bs, end, j, t); } else { Apart(bs, end, t, j); }
    }
    HeaderKept(m, n, bs[j], Next(bs, j), Prev(bs, j), bs[i].addr, bs[i].addr + bs[i].size, BackLink(bs, t));
  }

  // ---------------------------------------------------------------- what each operation writes

  // A block cut in two.
  lemma SplitEncoded(m: Words, n: Words, bs: seq<Block>, end: int, i: nat, needed: int)
    requires Tiles(bs, end) && Encoded(m, bs) && i < |bs| && Cuts(bs[i], needed)
    requires SameBut(m, n, bs[i].addr, bs[i].addr + bs[i].size, BackLink(bs, i + 1))
    requires Header(n, Block(bs[i].addr, needed, false), bs[i].addr + needed, Prev(bs, i))
    requires Header(n, Block(bs[i].addr + needed, bs[i].size - needed, true), Next(bs, i), bs[i].addr)
    requires i + 1 < |bs| ==> Header(n, bs[i + 1], Next(bs, i + 1), bs[i].addr + needed)
    ensures Encoded(n, SplitAt(bs, i, needed))
  {
    hide Header, SameBut, Tiles, Cuts;
    var c := SplitAt(bs, i, needed);
    forall j: nat | j < |c|
      ensures HeaderAt(n, c, j)
    {
      if j < i {
        Kept(m, n, bs, end, i, i + 1, j);
      } else if j > i + 2 {
        Kept(m, n, bs, end, i, i + 1, j - 1);
      }
    }
  }

  // Block k + 1 swallowed by block k.
  lemma MergeEncoded(m: Words, n: Words, bs: seq<Block>, end: int, k: nat)
    requires Tiles(bs, end) && Encoded(m, bs) && k + 1 < |bs|
    requires SameBut(m, n, bs[k].addr, bs[k].addr + bs[k].size, BackLink(bs, k + 2))
    requires Header(n, MergeAt(bs, k)[k], Next(bs, k + 1), Prev(bs, k))
    requires k + 2 < |bs| ==> Header(n, bs[k + 2], Next(bs, k + 2), bs[k].addr)
    ensures Encoded(n, MergeAt(bs, k))
  {
    hide Header, SameBut, Tiles;
    var c := MergeAt(bs, k);
    forall j: nat | j < |c|
      ensures HeaderAt(n, c, j)
    {
      if j < k {
        Kept(m, n, bs, end, k, k + 2, j);
      } else if j > k + 1 {
        Kept(m, n, bs, end, k, k + 2, j + 1);
      }
    }
  }

  // A size or a flag rewritten in place.
  lemma RewriteEncoded(m: Words, n: Words, bs: seq<Block>, end: int, i: nat, b: Block)
    requires Tiles(bs, end) && Encoded(m, bs) && i < |bs| && b.addr == bs[i].addr
    requires SameBut(m, n, bs[i].addr, bs[i].addr + bs[i].size, 12)
    requires Header(n, b, Next(bs, i), Prev(bs, i))
    ensures Encoded(n, bs[i := b])
  {
    hide Header, SameBut, Tiles;
    var c := bs[i := b];
    forall j: nat | j < |c|
      ensures HeaderAt(n, c, j)
    {
      if j != i {
        Kept(m, n, bs, end, i, |bs|, j);
      }
    }
  }

  // A block appended: the forward link of the last block is the only old word written.
  lemma AppendEncoded(m: Words, n: Words, bs: seq<Block>, end: int, b: Block)
    requires Tiles(bs, end) && Encoded(m, bs) && b.addr == end
    requires forall a :: a in m ==> a in n && (m[a] == n[a] || (bs != [] && a == bs[|bs| - 1].addr + 8))
    requires Header(n, b, 0, Prev(bs, |bs|))
    requires bs != [] ==> Header(n, bs[|bs| - 1], end, Prev(bs, |bs| - 1))
    ensures Encoded(n, bs + [b])
  {
    hide Tiles;
    var c := bs + [b];
    forall j: nat | j < |c|
      ensures HeaderAt(n, c, j)
    {
      if j < |bs| - 1 {
        assert HeaderAt(m, bs, j);
        Apart(bs, end, j, |bs| - 1);
        assert Header(n, bs[j], Next(bs, j), Prev(bs, j));
      }
    }
  }

  // ---------------------------------------------------------------- payloads

  // Writes inside a block that is not live, or to a back link, reach no live payload.
  lemma PayloadKept(m: Words, n: Words, bs: seq<Block>, end: int, i: nat, t: nat, a: int)
    requires Tiles(bs, end) && i < |bs| && bs[i].free
    requires SameBut(m, n, bs[i].addr, bs[i].addr + bs[i].size, BackLink(bs, t))
    requires InPayload(bs, a) && a in m
    ensures a in n && n[a] == m[a]
  {
    hide Tiles;
    var b :| b in Live(bs) && b.addr + HEADER <= a < b.addr + b.size;
    var j :| 0 <= j < |bs| && bs[j] == b;
    if j < i { Apart(bs, end, j, i); } else { Apart(bs, end, i, j); }
    if t < |bs| && t != j {
      if j < t { Apart(bs, end, j, t); } else { Apart(bs, end, t, j); }
    }
    if t >= |bs| {
      Bounds(bs, end, j);
    }
  }

  // Every payload word is a word of the heap.
  lemma PayloadInside(bs: seq<Block>, end: int, a: int)
    requires Tiles(bs, end) && InPayload(bs, a)
    ensures KHEAP_START <= a < end
  {
    var b :| b in Live(bs) && b.addr + HEADER <= a < b.addr + b.size;
    var j :| 0 <= j < |bs| && bs[j] == b;
    Bounds(bs, end, j);
  }

  // The word that holds a payload byte lies in the payload.
  lemma WordOfPayload(bs: seq<Block>, end: int, a: int)
    requires WellFormed(bs, end) && InPayload(bs, a)
    ensures a >= 0 && InPayload(bs, a - a % 4) && (a - a % 4) % 4 == 0
  {
    var b :| b in Live(bs) && b.addr + HEADER <= a < b.addr + b.size;
    LiveAligned(bs, end, b);
    hide Live, Tiles;
    AlignedStart(b.addr);
    RoundDown(a, b.addr + HEADER);
  }

  lemma AlignedStart(a: int)
    requires a % 8 == 0
    ensures (a + HEADER) % 4 == 0
  {
  }

  lemma RoundDown(a: int, lo: int)
    requires 0 <= lo <= a && lo % 4 == 0
    ensures lo <= a - a % 4 && (a - a % 4) % 4 == 0
  {
    var q := a / 4;
    assert a - a % 4 == 4 * q;
    assert lo == 4 * (lo / 4) && lo / 4 <= q;
  }

  // Live payloads are disjoint.
  lemma PayloadsDisjoint(bs: seq<Block>, end: int, b: Block, c: Block, a: int)
    requires Tiles(bs, end) && b in Live(bs) && c in Live(bs)
    requires b.addr + HEADER <= a < b.addr + b.size && c.addr + HEADER <= a < c.addr + c.size
    ensures b == c
  {
    hide Tiles;
    var i :| 0 <= i < |bs| && bs[i] == b;
    var j :| 0 <= j < |bs| && bs[j] == c;
    if i < j { Apart(bs, end, i, j); }
    if j < i { Apart(bs, end, j, i); }
  }

  // ---------------------------------------------------------------- the writes of kheap_split

  ghost predicate HeaderSpace(m: Words, a: int) {
    a in m && a + 4 in m && a + 8 in m && a + 12 in m
  }

  // The header of a new free block, field by field.
  ghost function FreeHeaderWords(m: Words, a: int, size: int, next: int, prev: int): (n: Words)
    requires HeaderSpace(m, a)
    requires 0 <= size < TWO32 && 0 <= next < TWO32 && 0 <= prev < TWO32
    ensures n.Keys == m.Keys
  {
    m[a := size][a + 4 := WithFlag(m[a + 4], true)][a + 8 := next][a + 12 := prev]
  }

  ghost function CutWords(m: Words, b: Block, needed: int, next: int): Words
    requires HeaderSpace(m, b.addr) && HeaderSpace(m, b.addr + needed)
    requires 0 <= b.addr && 0 <= needed <= b.size < TWO32 && b.addr + needed < TWO32 && 0 <= next < TWO32
  {
    var r := b.addr + needed;
    var cut := FreeHeaderWords(m, r, b.size - needed, next, b.addr);
    var linked: Words := if next != 0 then cut[next + 12 := r] else cut;
    linked[b.addr := needed][b.addr + 4 := WithFlag(linked[b.addr + 4], false)][b.addr + 8 := r]
  }

  lemma CutSameElsewhere(m: Words, b: Block, needed: int, next: int)
    requires HeaderSpace(m, b.addr) && HeaderSpace(m, b.addr + needed)
    requires 0 <= b.addr && MIN_BLOCK <= needed <= b.size - MIN_BLOCK && b.addr + b.size < TWO32
    requires next == 0 || (b.addr + b.size <= next < TWO32 && next + 12 in m)
    ensures SameBut(m, CutWords(m, b, needed, next), b.addr, b.addr + b.size, if next == 0 then 12 else next + 12)
  {
    hide WithFlag;
  }

  lemma CutLeft(m: Words, b: Block, needed: int, next: int)
    requires HeaderSpace(m, b.addr) && HeaderSpace(m, b.addr + needed)
    requires 0 <= b.addr && MIN_BLOCK <= needed <= b.size - MIN_BLOCK && b.addr + b.size < TWO32
    requires next == 0 || (b.addr + b.size <= next < TWO32 && next + 12 in m)
    ensures Header(CutWords(m, b, needed, next), Block(b.addr, needed, false), b.addr + needed, m[b.addr + 12])
  {
    hide Flag, WithFlag;
    FlagAfterStore(m[b.addr + 4], false);
  }

  lemma CutRight(m: Words, b: Block, needed: int, next: int)
    requires HeaderSpace(m, b.addr) && HeaderSpace(m, b.addr + needed)
    requires 0 <= b.addr && MIN_BLOCK <= needed <= b.size - MIN_BLOCK && b.addr + b.size < TWO32
    requires next == 0 || (b.addr + b.size <= next < TWO32 && next + 12 in m)
    ensures Header(CutWords(m, b, needed, next), Block(b.addr + needed, b.size - needed, true), next, b.addr)
  {
    hide Flag, WithFlag, FreeHeaderWords;
    var r := b.addr + needed;
    var cut := FreeHeaderWords(m, r, b.size - needed, next, b.addr);
    FreeHeaderIs(m, r, b.size - needed, next, b.addr);
    var n := CutWords(m, b, needed, next);
    assert n[r] == cut[r] && n[r + 4] == cut[r + 4] && n[r + 8] == cut[r + 8] && n[r + 12] == cut[r + 12];
  }

  lemma FreeHeaderIs(m: Words, a: int, size: int, next: int, prev: int)
    requires HeaderSpace(m, a) && 0 <= size < TWO32 && 0 <= next < TWO32 && 0 <= prev < TWO32
    ensures Header(FreeHeaderWords(m, a, size, next, prev), Block(a, size, true), next, prev)
  {
    hide Flag, WithFlag;
    FlagAfterStore(m[a + 4], true);
  }

  lemma CutHeaders(m: Words, b: Block, needed: int, next: int)
    requires HeaderSpace(m, b.addr) && HeaderSpace(m, b.addr + needed)
    requires 0 <= b.addr && MIN_BLOCK <= needed <= b.size - MIN_BLOCK && b.addr + b.size < TWO32
    requires next == 0 || (b.addr + b.size <= next < TWO32 && next + 12 in m)
    ensures var n := CutWords(m, b, needed, next);
            && Header(n, Block(b.addr, needed, false), b.addr + needed, m[b.addr + 12])
            && Header(n, Block(b.addr + needed, b.size - needed, true), next, b.addr)
            && (next != 0 ==> n[next + 12] == b.addr + needed)
  {
    hide Flag, WithFlag, Header;
    CutLeft(m, b, needed, next);
    CutRight(m, b, needed, next);
  }

  lemma CutEncodes(m: Words, bs: seq<Block>, end: int, i: nat, needed: int)
    requires Tiles(bs, end) && Encoded(m, bs) && i < |bs| && Cuts(bs[i], needed) && needed >= MIN_BLOCK
    requires HeaderSpace(m, bs[i].addr + needed) && HeaderSpace(m, bs[i].addr)
    requires bs[i].free && end < TWO32 && bs[i].addr >= 0 && bs[i].addr + bs[i].size < TWO32 && 0 <= Next(bs, i) < TWO32
    ensures var n := CutWords(m, bs[i], needed, Next(bs, i));
            && Encoded(n, SplitAt(bs, i, needed))
            && Keeps(bs, m, n)
  {
    hide Tiles, Keeps, InPayload, Flag, CutWords, SplitAt, WithFlag;
    var b, next := bs[i], Next(bs, i);
    var n := CutWords(m, b, needed, next);
    assert HeaderAt(m, bs, i);
    if i + 1 < |bs| {
      assert HeaderAt(m, bs, i + 1);
      Apart(bs, end, i, i + 1);
    }
    CutSameElsewhere(m, b, needed, next);
    CutHeaders(m, b, needed, next);
    SplitEncoded(m, n, bs, end, i, needed);
    AllPayloadsKept(m, n, bs, end, i, i + 1);
  }

  lemma AllPayloadsKept(m: Words, n: Words, bs: seq<Block>, end: int, i: nat, t: nat)
    requires Tiles(bs, end) && i < |bs| && bs[i].free
    requires SameBut(m, n, bs[i].addr, bs[i].addr + bs[i].size, BackLink(bs, t))
    ensures Keeps(bs, m, n)
  {
    hide Tiles, InPayload, SameBut, BackLink;
    forall a | a in m && InPayload(bs, a) ensures a in n && n[a] == m[a] {
      PayloadKept(m, n, bs, end, i, t, a);
    }
  }

  // ---------------------------------------------------------------- the writes of a merge

  ghost function JoinWords(m: Words, b: Block, size: int, next: int): Words
    requires HeaderSpace(m, b.addr) && 0 <= b.addr < TWO32 && 0 <= size < TWO32 && 0 <= next < TWO32
  {
    var joined: Words := m[b.addr := size][b.addr + 8 := next];
    if next != 0 then joined[next + 12 := b.addr] else joined
  }

  lemma JoinLocal(m: Words, b: Block, size: int, next: int)
    requires HeaderSpace(m, b.addr) && b.size >= MIN_BLOCK && Flag(m[b.addr + 4]) == b.free
    requires 0 <= b.addr && 0 <= size < TWO32 && b.addr < TWO32
    requires next == 0 || (b.addr + b.size <= next < TWO32 && next + 12 in m)
    ensures var n := JoinWords(m, b, size, next);
            && SameBut(m, n, b.addr, b.addr + b.size, if next == 0 then 12 else next + 12)
            && Header(n, Block(b.addr, size, b.free), next, m[b.addr + 12])
            && (next != 0 ==> n[next + 12] == b.addr)
  {
    hide Flag;
  }

  lemma JoinEncodes(m: Words, bs: seq<Block>, end: int, k: nat)
    requires Tiles(bs, end) && Encoded(m, bs) && k + 1 < |bs| && bs[k].free
    requires bs[k].addr >= 0 && bs[k].addr < TWO32 && 0 <= bs[k].size + bs[k + 1].size < TWO32
    requires HeaderSpace(m, bs[k].addr) && 0 <= Next(bs, k + 1) < TWO32
    ensures var n := JoinWords(m, bs[k], bs[k].size + bs[k + 1].size, Next(bs, k + 1));
            && Encoded(n, MergeAt(bs, k))
            && Keeps(bs, m, n)
  {
    hide Tiles, InPayload, Flag, JoinWords;
    var next := Next(bs, k + 1);
    var n := JoinWords(m, bs[k], bs[k].size + bs[k + 1].size, next);
    assert HeaderAt(m, bs, k);
    Apart(bs, end, k, k + 1);
    if k + 2 < |bs| {
      assert HeaderAt(m, bs, k + 2);
      Apart(bs, end, k, k + 2);
    }
    JoinLocal(m, bs[k], bs[k].size + bs[k + 1].size, next);
    MergeEncoded(m, n, bs, end, k);
    forall a | a in m && InPayload(bs, a) ensures a in n && n[a] == m[a] {
      PayloadKept(m, n, bs, end, k, k + 2, a);
    }
  }

  // ---------------------------------------------------------------- single-field writes

  // A header word lies in no payload.
  lemma HeaderWordKeepsPayloads(m: Words, bs: seq<Block>, end: int, i: nat, offset: int, w: U32, a: int)
    requires Tiles(bs, end) && i < |bs| && 0 <= offset < HEADER
    requires InPayload(bs, a) && a in m
    ensures m[bs[i].addr + offset := w][a] == m[a]
  {
    hide Tiles;
    var b :| b in Live(bs) && b.addr + HEADER <= a < b.addr + b.size;
    var j :| 0 <= j < |bs| && bs[j] == b;
    if i < j { Apart(bs, end, i, j); }
    if j < i { Apart(bs, end, j, i); }
  }

  // is_free rewritten.
  lemma FlagEncodes(m: Words, bs: seq<Block>, end: int, i: nat, free: bool)
    requires Tiles(bs, end) && Encoded(m, bs) && i < |bs| && HeaderSpace(m, bs[i].addr)
    ensures var n := m[bs[i].addr + 4 := WithFlag(m[bs[i].addr + 4], free)];
            && Encoded(n, bs[i := Block(bs[i].addr, bs[i].size, free)])
            && Keeps(bs, m, n)
  {
    hide Flag, WithFlag, InPayload;
    var w := WithFlag(m[bs[i].addr + 4], free);
    var n := m[bs[i].addr + 4 := w];
    FlagAfterStore(m[bs[i].addr + 4], free);
    assert HeaderAt(m, bs, i) && Aligned(bs[i]);
    RewriteEncoded(m, n, bs, end, i, Block(bs[i].addr, bs[i].size, free));
    forall a | a in m && InPayload(bs, a) ensures n[a] == m[a] {
      HeaderWordKeepsPayloads(m, bs, end, i, 4, w, a);
    }
  }

  // The size of a block rewritten, with what tiles after it moved accordingly.
  lemma SizeEncodes(m: Words, bs: seq<Block>, end: int, i: nat, size: U32)
    requires Tiles(bs, end) && Encoded(m, bs) && i < |bs| && HeaderSpace(m, bs[i].addr)
    ensures var n := m[bs[i].addr := size];
            && Encoded(n, bs[i := Block(bs[i].addr, size, bs[i].free)])
            && Keeps(bs, m, n)
  {
    hide Flag, InPayload;
    var n := m[bs[i].addr := size];
    assert HeaderAt(m, bs, i) && Aligned(bs[i]);
    RewriteEncoded(m, n, bs, end, i, Block(bs[i].addr, size, bs[i].free));
    forall a | a in m && InPayload(bs, a) ensures n[a] == m[a] {
      HeaderWordKeepsPayloads(m, bs, end, i, 0, size, a);
    }
  }

  lemma EncodedInMore(m: Words, n: Words, bs: seq<Block>)
    requires Encoded(m, bs)
    requires Carried(m, n)
    ensures Encoded(n, bs) && Keeps(bs, m, n)
  {
    forall i: nat | i < |bs| ensures HeaderAt(n, bs, i) {
      assert HeaderAt(m, bs, i);
    }
  }

  lemma SamePayloads(bs: seq<Block>, cs: seq<Block>)
    requires Live(bs) == Live(cs)
    ensures forall a :: InPayload(bs, a) == InPayload(cs, a)
  {
  }

  lemma GrownPayloads(h: Heap, needed: U32)
    ensures StillLive(h.blocks, Grown(h, needed).blocks)
  {
    GrowKeepsLive(h.blocks, h.end, GrowBytes(needed));
  }

  // An allocation keeps every live payload.
  lemma GivenPayloads(h: Heap, size: U32, grew: bool, after: Heap, ptr: int)
    requires size > 0 && Gives(h, Needed(size), grew, after, ptr)
    ensures StillLive(h.blocks, after.blocks)
  {
    GivesFacts(h, size, grew, after, ptr);
    hide Gives, Needed;
    assert Live(h.blocks) <= Live(after.blocks);
  }

  // kfree ends one payload and no other.
  lemma FreedPayloads(bs: seq<Block>, end: int, ptr: int, after: seq<Block>)
    requires WellFormed(bs, end) && Frees(bs, ptr, after)
    ensures forall a :: InPayload(after, a) ==> InPayload(bs, a)
    ensures forall b, a :: b in Live(bs) && InPayload(bs, a) && b.addr + HEADER == ptr ==>
              InPayload(after, a) == !(ptr <= a < b.addr + b.size)
    ensures (forall b :: b in Live(bs) ==> b.addr + HEADER != ptr) ==>
              (forall a :: InPayload(bs, a) ==> InPayload(after, a))
  {
    hide Tiles, NoFreeNeighbours, Frees, Live;
    FreesFacts(bs, end, ptr, after);
    forall b, a | b in Live(bs) && InPayload(bs, a) && b.addr + HEADER == ptr
      ensures InPayload(after, a) == !(ptr <= a < b.addr + b.size)
    {
      var c :| c in Live(bs) && c.addr + HEADER <= a < c.addr + c.size;
      if c.addr == b.addr {
        SameAddress(bs, end, b, c);
      }
      if ptr <= a < b.addr + b.size {
        OnlyPayloadOf(bs, end, b, a);
      }
    }
  }

  lemma OnlyPayloadOf(bs: seq<Block>, end: int, b: Block, a: int)
    requires WellFormed(bs, end) && b in Live(bs) && b.addr + HEADER <= a < b.addr + b.size
    ensures forall c :: c in Live(bs) && c.addr + HEADER <= a < c.addr + c.size ==> c == b
  {
    hide Live;
    forall c | c in Live(bs) && c.addr + HEADER <= a < c.addr + c.size ensures c == b {
      PayloadsDisjoint(bs, end, b, c, a);
    }
  }

  lemma SameAddress(bs: seq<Block>, end: int, b: Block, c: Block)
    requires WellFormed(bs, end) && b in Live(bs) && c in Live(bs) && b.addr == c.addr
    ensures b == c
  {
    var i :| 0 <= i < |bs| && bs[i] == b;
    var j :| 0 <= j < |bs| && bs[j] == c;
    Distinct(bs, end, i, j);
  }

  // The payloads that survive a release were live before it.
  lemma SomePayloads(bs: seq<Block>, i: nat)
    requires i < |bs|
    ensures forall a :: InPayload(MarkFree(bs, i), a) ==> InPayload(bs, a)
  {
  }

  // The header of new memory at `end`, written before the list knows of it.
  lemma TailHeader(m: Words, bs: seq<Block>, end: int, size: U32)
    requires Tiles(bs, end) && Encoded(m, bs) && HeaderSpace(m, end) && end < TWO32
    ensures var n := FreeHeaderWords(m, end, size, 0, 0);
            && Encoded(n, bs) && Header(n, Block(end, size, true), 0, 0)
            && Keeps(bs, m, n)
  {
    hide Tiles, Flag, WithFlag, InPayload;
    FlagAfterStore(m[end + 4], true);
    var n := FreeHeaderWords(m, end, size, 0, 0);
    forall i: nat | i < |bs| ensures HeaderAt(n, bs, i) {
      assert HeaderAt(m, bs, i);
      Bounds(bs, end, i);
      RoomForHeader(bs, end, i);
    }
    forall a | a in m && InPayload(bs, a) ensures n[a] == m[a] {
      PayloadInside(bs, end, a);
    }
  }

  // Linking the new block behind the last one.
  lemma TailLinks(n: Words, bs: seq<Block>, end: int, size: U32)
    requires Tiles(bs, end) && bs != [] && Encoded(n, bs) && Header(n, Block(end, size, true), 0, 0)
    requires 0 <= bs[|bs| - 1].addr < TWO32 && 0 <= end < TWO32
    ensures var last := bs[|bs| - 1].addr;
            var o: Words := n[end + 12 := last][last + 8 := end];
            && Encoded(o, bs + [Block(end, size, true)])
            && forall a :: a in n && InPayload(bs, a) ==> o[a] == n[a]
  {
    hide Tiles, Flag, InPayload;
    var k := |bs| - 1;
    var last := bs[k].addr;
    Bounds(bs, end, k);
    RoomForHeader(bs, end, k);
    assert HeaderAt(n, bs, k);
    var p: Words := n[end + 12 := last];
    forall i: nat | i < |bs| ensures HeaderAt(p, bs, i) {
      assert HeaderAt(n, bs, i);
      Bounds(bs, end, i);
      RoomForHeader(bs, end, i);
    }
    AppendEncoded(p, p[last + 8 := end], bs, end, Block(end, size, true));
    forall a | a in n && InPayload(bs, a) ensures p[last + 8 := end][a] == n[a] {
      PayloadInside(bs, end, a);
      HeaderWordKeepsPayloads(p, bs, end, k, 8, end, a);
    }
  }

  // A write to a payload leaves every header.
  lemma PayloadWriteEncodes(m: Words, bs: seq<Block>, end: int, a: int, w: U32)
    requires Tiles(bs, end) && Encoded(m, bs) && InPayload(bs, a)
    ensures Encoded(m[a := w], bs)
  {
    hide Tiles, Flag;
    var b :| b in Live(bs) && b.addr + HEADER <= a < b.addr + b.size;
    var j :| 0 <= j < |bs| && bs[j] == b;
    var n := m[a := w];
    forall i: nat | i < |bs|
      ensures HeaderAt(n, bs, i)
    {
      assert HeaderAt(m, bs, i);
      if i < j { Apart(bs, end, i, j); }
      if j < i { Apart(bs, end, j, i); }
    }
  }
}
