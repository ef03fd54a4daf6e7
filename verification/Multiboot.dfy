// The Multiboot memory map: the walk that copies it out of low memory, and an
// encoder for the layout of section 3.3 of the Multiboot Specification 0.6.96.

module Multiboot {
  import opened Common

  const MAX_MMAP_ENTRIES := 64
  const IDENTITY_MAP_LIMIT := 0x0040_0000

  const MEMORY_AVAILABLE: U32 := 1
  const MEMORY_ACPI_RECLAIMABLE: U32 := 3

  datatype MmapEntry = MmapEntry(addr: U64, len: U64, kind: U32)

  // ---------------------------------------------------------------- numbers in memory

  function Pow256(n: nat): (p: nat)
    ensures p > 0
  {
    if n == 0 then 1 else 256 * Pow256(n - 1)
  }

  lemma Pow256Widths()
    ensures Pow256(4) == TWO32 && Pow256(8) == TWO64
  {
    assert Pow256(2) == 0x1_0000;
    assert Pow256(4) == 0x1_0000 * 0x1_0000;
    assert Pow256(6) == 0x1_0000 * 0x1_0000 * 0x1_0000;
  }

  // The number that an i386 load of these bytes yields.
  function Number(bytes: seq<Byte>): (v: nat)
    ensures v < Pow256(|bytes|)
  {
    if bytes == [] then 0 else bytes[0] + 256 * Number(bytes[1..])
  }

  function Bytes(v: nat, width: nat): (bytes: seq<Byte>)
    ensures |bytes| == width
  {
    if width == 0 then [] else [v % 256] + Bytes(v / 256, width - 1)
  }

  lemma {:induction false} NumberOfBytes(v: nat, width: nat)
    requires v < Pow256(width)
    ensures Number(Bytes(v, width)) == v
  {
    if width > 0 {
      NumberOfBytes(v / 256, width - 1);
      assert Bytes(v, width)[1..] == Bytes(v / 256, width - 1);
    }
  }

  // The simulated memory reaches past the last entry that may start inside the identity map.
  ghost predicate Readable(mem: seq<Byte>) {
    |mem| >= IDENTITY_MAP_LIMIT + 24
  }

  function Load32(mem: seq<Byte>, at: nat): U32
    requires at + 4 <= |mem|
  {
    Pow256Widths();
    Number(mem[at..at + 4])
  }

  function Load64(mem: seq<Byte>, at: nat): U64
    requires at + 8 <= |mem|
  {
    Pow256Widths();
    Number(mem[at..at + 8])
  }

  // ---------------------------------------------------------------- one entry

  predicate InIdentityMap(phys: U32) {
    phys != 0 && phys < IDENTITY_MAP_LIMIT
  }

  function ParseEntry(mem: seq<Byte>, phys: U32): (entry: Option<MmapEntry>)
    requires |mem| >= IDENTITY_MAP_LIMIT + 24
    ensures entry.Some? ==> InIdentityMap(phys)
  {
    if !InIdentityMap(phys) then None
    else if Load32(mem, phys) < 20 then None
    else Some(MmapEntry(Load64(mem, phys + 4), Load64(mem, phys + 12), Load32(mem, phys + 20)))
  }

  // ---------------------------------------------------------------- the walk

  function NextOffset(mem: seq<Byte>, phys: U32, offset: U32): U32
    requires phys + 4 <= |mem|
  {
    Add32(offset, Add32(Load32(mem, phys), 4))
  }

  // The entries met from `offset` on, when `room` storage slots are left. Both the
  // entry address and the running offset wrap at 32 bits.
  ghost function EntriesFrom(mem: seq<Byte>, base: U32, length: U32, offset: U32, room: nat): seq<MmapEntry>
    requires Readable(mem)
    decreases room
  {
    var phys := Add32(base, offset);
    if offset >= length || room == 0 || ParseEntry(mem, phys).None? then []
    else
      [ParseEntry(mem, phys).value] + EntriesFrom(mem, base, length, NextOffset(mem, phys, offset), room - 1)
  }

  class MemoryMap {
    var valid: bool
    var count: nat
    const storage: array<MmapEntry>

    ghost predicate Valid()
      reads this, storage
    {
      storage.Length == MAX_MMAP_ENTRIES && count <= MAX_MMAP_ENTRIES
    }

    ghost function Entries(): seq<MmapEntry>
      reads this, storage
      requires Valid()
    {
      storage[..count]
    }

    constructor ()
      ensures Valid() && fresh(storage) && Entries() == [] && !valid
    {
      valid, count := false, 0;
      storage := new MmapEntry[MAX_MMAP_ENTRIES](_ => MmapEntry(0, 0, 0));
    }

    // The tail of multiboot_early_init, from a map whose address and length were read
    // from the boot information. Ends on arbitrary bytes: `count` grows on every turn.
    method Walk(mem: seq<Byte>, mmapAddr: U32, mmapLength: U32)
      requires Valid() && Readable(mem)
      modifies this, storage
      ensures Valid()
      ensures Entries() == if InIdentityMap(mmapAddr)
                           then EntriesFrom(mem, mmapAddr, mmapLength, 0, MAX_MMAP_ENTRIES) else []
      ensures valid == (Entries() != [])
    {
      hide ParseEntry, NextOffset, EntriesFrom;
      valid, count := false, 0;
      if !InIdentityMap(mmapAddr) {
        return;
      }
      var offset: U32 := 0;
      ghost var all := EntriesFrom(mem, mmapAddr, mmapLength, 0, MAX_MMAP_ENTRIES);
      while offset < mmapLength && count < MAX_MMAP_ENTRIES
        invariant Valid()
        invariant all == Entries() + EntriesFrom(mem, mmapAddr, mmapLength, offset, MAX_MMAP_ENTRIES - count)
        decreases MAX_MMAP_ENTRIES - count
      {
        var phys := Add32(mmapAddr, offset);
        var parsed := ParseEntry(mem, phys);
        EntriesStep(mem, mmapAddr, mmapLength, offset, MAX_MMAP_ENTRIES - count);
        if parsed.None? {
          break;
        }
        OneMore(Entries(), parsed.value, EntriesFrom(mem, mmapAddr, mmapLength, NextOffset(mem, phys, offset),
                                                     MAX_MMAP_ENTRIES - count - 1));
        ghost var before := Entries();
        storage[count] := parsed.value;
        count := count + 1;
        assert Entries() == before + [parsed.value];
        offset := NextOffset(mem, phys, offset);
      }
      if offset >= mmapLength || count == MAX_MMAP_ENTRIES {
        EntriesEnd(mem, mmapAddr, mmapLength, offset, MAX_MMAP_ENTRIES - count);
      }
      valid := count > 0;
    }
  }

  lemma EntriesStep(mem: seq<Byte>, base: U32, length: U32, offset: U32, room: nat)
    requires Readable(mem) && offset < length && room > 0
    ensures var phys := Add32(base, offset);
            EntriesFrom(mem, base, length, offset, room)
            == match ParseEntry(mem, phys)
               case None => []
               case Some(e) => [e] + EntriesFrom(mem, base, length, NextOffset(mem, phys, offset), room - 1)
  {
    hide ParseEntry, NextOffset;
  }

  lemma EntriesEnd(mem: seq<Byte>, base: U32, length: U32, offset: U32, room: nat)
    requires Readable(mem) && (offset >= length || room == 0)
    ensures EntriesFrom(mem, base, length, offset, room) == []
  {
  }

  lemma OneMore(front: seq<MmapEntry>, e: MmapEntry, rest: seq<MmapEntry>)
    ensures front + ([e] + rest) == (front + [e]) + rest
  {
  }

  // ---------------------------------------------------------------- the encoder

  // A map record as a boot loader lays it out: `size` counts the bytes after itself.
  datatype Record = Record(entry: MmapEntry, padding: seq<Byte>)

  ghost predicate Encodable(r: Record) {
    20 + |r.padding| < TWO32 - 4
  }

  ghost function Encode(r: Record): (bytes: seq<Byte>)
    ensures |bytes| == 24 + |r.padding|
  {
    Bytes(20 + |r.padding|, 4) + Bytes(r.entry.addr, 8) + Bytes(r.entry.len, 8) + Bytes(r.entry.kind, 4)
    + r.padding
  }

  ghost function EncodeAll(rs: seq<Record>): seq<Byte> {
    if rs == [] then [] else Encode(rs[0]) + EncodeAll(rs[1..])
  }

  ghost predicate LaidOutAt(mem: seq<Byte>, at: nat, bytes: seq<Byte>) {
    at + |bytes| <= |mem| && mem[at..at + |bytes|] == bytes
  }

  // The records that fit in `room` slots and precede the first one that starts outside
  // the identity map.
  ghost function Visible(rs: seq<Record>, at: nat, room: nat): seq<MmapEntry> {
    if rs == [] || room == 0 || at >= IDENTITY_MAP_LIMIT then []
    else [rs[0].entry] + Visible(rs[1..], at + |Encode(rs[0])|, room - 1)
  }

  lemma LaidOutSlice(mem: seq<Byte>, at: nat, a: seq<Byte>, b: seq<Byte>)
    requires LaidOutAt(mem, at, a + b)
    ensures LaidOutAt(mem, at, a) && LaidOutAt(mem, at + |a|, b)
  {
    var m := mem[at..at + |a + b|];
    assert mem[at..at + |a|] == m[..|a|];
    assert mem[at + |a|..at + |a| + |b|] == m[|a|..];
  }

  lemma ParseEncoded(mem: seq<Byte>, phys: U32, r: Record)
    requires Readable(mem) && Encodable(r)
    requires LaidOutAt(mem, phys, Encode(r))
    ensures NextOffset(mem, phys, 0) == |Encode(r)|
    ensures ParseEntry(mem, phys) == if InIdentityMap(phys) then Some(r.entry) else None
  {
    var s, a, l, k := Bytes(20 + |r.padding|, 4), Bytes(r.entry.addr, 8), Bytes(r.entry.len, 8), Bytes(r.entry.kind, 4);
    LaidOutSlice(mem, phys, s + a + l + k, r.padding);
    LaidOutSlice(mem, phys, s + a + l, k);
    LaidOutSlice(mem, phys, s + a, l);
    LaidOutSlice(mem, phys, s, a);
    Pow256Widths();
    NumberOfBytes(20 + |r.padding|, 4);
    NumberOfBytes(r.entry.addr, 8);
    NumberOfBytes(r.entry.len, 8);
    NumberOfBytes(r.entry.kind, 4);
  }

  // The walk inverts the encoder, from any record boundary on.
  lemma {:induction false} WalkDecodes(mem: seq<Byte>, base: U32, length: U32, offset: U32, rs: seq<Record>, room: nat)
    requires Readable(mem) && base != 0 && base + length <= TWO32
    requires forall i :: 0 <= i < |rs| ==> Encodable(rs[i])
    requires length == offset + |EncodeAll(rs)|
    requires rs != [] ==> base + offset < TWO32
    requires LaidOutAt(mem, base + offset, EncodeAll(rs))
    ensures EntriesFrom(mem, base, length, offset, room) == Visible(rs, base + offset, room)
    decreases room
  {
    hide ParseEntry, Load32;
    if rs != [] && room > 0 {
      var first, rest := Encode(rs[0]), EncodeAll(rs[1..]);
      LaidOutSlice(mem, base + offset, first, rest);
      ParseEncoded(mem, base + offset, rs[0]);
      if base + offset < IDENTITY_MAP_LIMIT {
        WalkDecodes(mem, base, length, offset + |first|, rs[1..], room - 1);
      }
    }
  }

  // A record whose size field is below 20 ends the map, whatever follows it.
  lemma {:induction false} ShortRecordEnds(mem: seq<Byte>, base: U32, length: U32, offset: U32, rs: seq<Record>,
                                           short: nat, room: nat)
    requires Readable(mem) && base != 0 && base + length <= TWO32
    requires forall i :: 0 <= i < |rs| ==> Encodable(rs[i])
    requires short < 20 && offset + |EncodeAll(rs)| < length
    requires LaidOutAt(mem, base + offset, EncodeAll(rs) + Bytes(short, 4))
    ensures EntriesFrom(mem, base, length, offset, room) == Visible(rs, base + offset, room)
    decreases room
  {
    hide ParseEntry, Load32, Load64, LaidOutAt, Encode, Bytes, Number;
    if rs != [] && room > 0 {
      var first, rest := Encode(rs[0]), EncodeAll(rs[1..]) + Bytes(short, 4);
      assert EncodeAll(rs) + Bytes(short, 4) == first + rest;
      LaidOutSlice(mem, base + offset, first, rest);
      ParseEncoded(mem, base + offset, rs[0]);
      if base + offset < IDENTITY_MAP_LIMIT {
        ShortRecordEnds(mem, base, length, offset + |first|, rs[1..], short, room - 1);
      }
    } else if room > 0 {
      assert EncodeAll(rs) + Bytes(short, 4) == Bytes(short, 4);
      ParseShort(mem, base + offset, short);
    }
  }

  lemma ParseShort(mem: seq<Byte>, phys: U32, short: nat)
    requires Readable(mem) && short < 20 && LaidOutAt(mem, phys, Bytes(short, 4))
    ensures ParseEntry(mem, phys) == None
  {
    Pow256Widths();
    NumberOfBytes(short, 4);
  }

  ghost function EntriesOf(rs: seq<Record>): seq<MmapEntry> {
    if rs == [] then [] else [rs[0].entry] + EntriesOf(rs[1..])
  }

  ghost predicate AllStartInside(rs: seq<Record>, at: nat) {
    rs == [] || (at < IDENTITY_MAP_LIMIT && AllStartInside(rs[1..], at + |Encode(rs[0])|))
  }

  lemma {:induction false} VisibleIsAll(rs: seq<Record>, at: nat, room: nat)
    ensures Visible(rs, at, room) == EntriesOf(rs) <==> |rs| <= room && AllStartInside(rs, at)
    ensures |Visible(rs, at, room)| <= |EntriesOf(rs)| == |rs|
  {
    if rs != [] && room > 0 && at < IDENTITY_MAP_LIMIT {
      VisibleIsAll(rs[1..], at + |Encode(rs[0])|, room - 1);
      assert Visible(rs, at, room)[1..] == Visible(rs[1..], at + |Encode(rs[0])|, room - 1);
      assert EntriesOf(rs)[1..] == EntriesOf(rs[1..]);
    } else if rs != [] {
      VisibleIsAll(rs[1..], at, 0);
    }
  }

  // Reading back a map that a boot loader encoded gives the whole map, exactly when it
  // fits the storage and no entry starts outside the identity map.
  lemma WalkInvertsEncoder(mem: seq<Byte>, base: U32, length: U32, rs: seq<Record>)
    requires Readable(mem) && InIdentityMap(base) && base + length <= TWO32
    requires forall i :: 0 <= i < |rs| ==> Encodable(rs[i])
    requires length == |EncodeAll(rs)| && LaidOutAt(mem, base, EncodeAll(rs))
    ensures EntriesFrom(mem, base, length, 0, MAX_MMAP_ENTRIES) == EntriesOf(rs)
            <==> |rs| <= MAX_MMAP_ENTRIES && AllStartInside(rs, base)
  {
    WalkDecodes(mem, base, length, 0, rs, MAX_MMAP_ENTRIES);
    VisibleIsAll(rs, base, MAX_MMAP_ENTRIES);
  }
}
