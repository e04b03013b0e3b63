/** The arena manager: values stored in regions that are added as they fill up,
    read back and freed by handle, next to a prefix kept for persistence. */
module Arena {
  import opened Bytes
  import opened Allocators
  import opened AllocatorRuns
  import Superblocks

  const MAX_OBJECT := 0x400_0000
  const MAX_REGIONS := 256

  /** A region's bytes, its allocator and its meta cells, one per eight bytes. */
  datatype Region = Region(data: seq<Byte>, heap: Heap, meta: seq<nat>)

  function NewRegion(size: U32, start: nat): Region {
    Region(seq(size, _ => 0), Heap(start, size, start, seq(LARGE, _ => []), [], map[]), seq(size / ALIGN, _ => 0))
  }

  predicate RegionOk(r: Region, size: U32) {
    |r.data| == size && |r.meta| == size / ALIGN && r.heap.limit == size && Sound(r.heap)
  }

  function CellOf(h: Handle): nat {
    h.offset / ALIGN
  }

  /** `h` names a live block of `r` of its own class. */
  predicate Owns(r: Region, h: Handle) {
    && IsLive(r.heap, h.offset) && r.heap.info[h.offset].cls == SizeClass(h.size)
    && h.size <= r.heap.info[h.offset].size && h.offset + h.size <= |r.data|
  }

  /** The bytes that `h` names are `bytes`. */
  predicate Reads(r: Region, h: Handle, bytes: seq<Byte>) {
    |bytes| == h.size && h.offset + h.size <= |r.data| && r.data[h.offset..h.offset + h.size] == bytes
  }

  /** The region with `bytes` placed in the block `off` that the allocator gave. */
  function Place(r: Region, heap: Heap, off: nat, bytes: seq<Byte>): Region
    requires off + |bytes| <= |r.data| && off / ALIGN < |r.meta|
  {
    Region(Overwrite(r.data, off, bytes), heap, r.meta[off / ALIGN := 0])
  }

  lemma GaveFits(r: Region, size: U32, heap: Heap, off: nat, n: U32, m: U32)
    requires RegionOk(r, size) && Sound(heap) && Gave(r.heap, heap, off, m) && n <= m
    ensures off + n <= |r.data| && off / ALIGN < |r.meta| && off < size && heap.start == r.heap.start <= off
    ensures Aligned(off)
  {
    hide Sound, Gave;
    GaveParts(r.heap, heap, off, m);
    Apart(heap, off, off);
  }

  lemma GaveParts(h: Heap, h': Heap, off: nat, m: U32)
    requires Sound(h) && Sound(h') && Gave(h, h', off, m)
    ensures Tiled(h') && off in h'.info && m <= h'.info[off].size && h'.info[off].size > 0
    ensures h'.start == h.start && h'.limit == h.limit && h'.offset <= h'.limit
  {
    hide Listed;
  }

  /** Placing a value leaves every block already given where it was, and its bytes. */
  lemma PlaceKeeps(r: Region, size: U32, heap: Heap, off: nat, m: U32, bytes: seq<Byte>, h: Handle)
    requires RegionOk(r, size) && Sound(heap) && Gave(r.heap, heap, off, m) && |bytes| <= m
    requires off + |bytes| <= |r.data| && off / ALIGN < |r.meta| && Owns(r, h)
    ensures h.offset != off && Owns(Place(r, heap, off, bytes), h)
    ensures Place(r, heap, off, bytes).data[h.offset..h.offset + h.size] == r.data[h.offset..h.offset + h.size]
  {
    GaveParts(r.heap, heap, off, m);
    Apart(heap, h.offset, off);
    OverwriteElsewhere(r.data, off, bytes, h.offset, h.offset + h.size);
    hide Sound, Tiled, Overwrite, SizeClass;
  }

  lemma ReleaseKeeps(r: Region, size: U32, off: nat, h: Handle)
    requires RegionOk(r, size) && IsLive(r.heap, off) && Owns(r, h) && h.offset != off
    ensures Owns(r.(heap := Release(r.heap, off)), h)
  {
    ReleaseSound(r.heap, off);
    hide Sound, SizeClass;
  }

  /** Writing below the skipped prefix, rounded up to where blocks can start,
      touches no value. */
  lemma PrefixKeeps(r: Region, size: U32, at: nat, b: seq<Byte>, h: Handle, bytes: seq<Byte>)
    requires RegionOk(r, size) && at + |b| <= Align8(r.heap.start) && at + |b| <= |r.data| && Owns(r, h)
    requires Reads(r, h, bytes)
    ensures Reads(r.(data := Overwrite(r.data, at, b)), h, bytes)
  {
    Apart(r.heap, h.offset, h.offset);
    AlignedAbove(r.heap.start, h.offset);
    OverwriteElsewhere(r.data, at, b, h.offset, h.offset + h.size);
    hide Sound, SizeClass, Overwrite;
  }

  lemma AlignedAbove(x: nat, y: nat)
    requires Aligned(y) && x <= y
    ensures Align8(x) <= y
  {
  }

  /** In a region too small for its prefix, a checkpoint can hit an object. */
  lemma CheckpointHits(size: U32) returns (r: Region, h: Handle, b: seq<Byte>)
    requires 2 * Superblocks.SUPERBLOCK_SIZE <= size < Superblocks.CLEAR_FROM
    ensures RegionOk(r, size) && r.heap.start == Superblocks.ReservedBytes(size) && Owns(r, h) && Reads(r, h, [1])
    ensures |b| == Superblocks.CheckpointMax(size) && Superblocks.SUPERBLOCK_SIZE + |b| <= |r.data|
    ensures !Reads(r.(data := Overwrite(r.data, Superblocks.SUPERBLOCK_SIZE, b)), h, [1])
  {
    var body, n, start := Superblocks.SUPERBLOCK_SIZE, Superblocks.CheckpointMax(size), Superblocks.ReservedBytes(size);
    var new_ := NewRegion(size, start);
    NewRegionOk(size, start);
    AllocateGives(new_.heap, 1);
    var (heap, given) := Allocate(new_.heap, 1);
    FirstBlock(size);
    var off := given.value;
    GaveFits(new_, size, heap, off, 1, 1);
    r, h, b := Place(new_, heap, off, [1]), Handle(off, 1, 0, 0), seq(n, _ => 0);
    PlacedHolds(new_, size, heap, off, [1], h);
    hide Sound, Gave, RegionOk, Allocate;
    var after := Overwrite(r.data, body, b);
    assert after[off..off + 1][0] == after[off] == b[off - body] == 0;
  }

  /** There, the first block lies inside the checkpoint area. */
  lemma FirstBlock(size: U32)
    requires 2 * Superblocks.SUPERBLOCK_SIZE <= size < Superblocks.CLEAR_FROM
    ensures var body, start := Superblocks.SUPERBLOCK_SIZE, Superblocks.ReservedBytes(size);
            && Superblocks.CheckpointMax(size) == body && body <= Align8(start) < 2 * body
            && Allocate(NewRegion(size, start).heap, 1).1 == Some(Align8(start))
  {
    var start := Superblocks.ReservedBytes(size);
    assert SizeClass(1) == 0 && AllocSize(1) == CLASS_SIZES[0];
    assert Align8(start) + CLASS_SIZES[0] <= size;
  }

  // ----- All regions -----

  /** Every live handle names a live block, and no two the same. */
  predicate AllOwned(regions: seq<Region>, live: map<Handle, seq<Byte>>) {
    && (forall h :: h in live ==> h.region < |regions| && Owns(regions[h.region], h))
    && (forall g, h :: g in live && h in live && g.region == h.region && g.offset == h.offset ==> g == h)
  }

  /** Every live handle reads as stored. */
  predicate AllRead(regions: seq<Region>, live: map<Handle, seq<Byte>>) {
    forall h :: h in live ==> h.region < |regions| && Reads(regions[h.region], h, live[h])
  }

  predicate AllOk(regions: seq<Region>, size: U32) {
    0 < |regions| <= MAX_REGIONS && forall i :: 0 <= i < |regions| ==> RegionOk(regions[i], size)
  }

  lemma PlaceAll(regions: seq<Region>, size: U32, live: map<Handle, seq<Byte>>, i: Byte, heap: Heap, off: U32,
                 bytes: seq<Byte>)
    requires AllOk(regions, size) && AllOwned(regions, live) && i < |regions| && |bytes| <= MAX_OBJECT
    requires Sound(heap) && Gave(regions[i].heap, heap, off, AtLeastOne(|bytes|))
    requires off + |bytes| <= |regions[i].data| && off / ALIGN < |regions[i].meta|
    ensures var h := Handle(off, |bytes|, 0, i);
            var after := regions[i := Place(regions[i], heap, off, bytes)];
            && h !in live && AllOk(after, size) && AllOwned(after, live[h := bytes])
            && (AllRead(regions, live) ==> AllRead(after, live[h := bytes]))
  {
    var h := Handle(off, |bytes|, 0, i);
    var after := regions[i := Place(regions[i], heap, off, bytes)];
    hide Owns, Reads, Sound, Gave, Place, AllOwned, AllRead;
    PlacedHolds(regions[i], size, heap, off, bytes, h);
    PlaceOthers(regions, size, live, i, heap, off, bytes);
    AddOwned(after, live, h, bytes);
    if AllRead(regions, live) { AddRead(after, live, h, bytes); }
  }

  lemma AddOwned(regions: seq<Region>, live: map<Handle, seq<Byte>>, h: Handle, bytes: seq<Byte>)
    requires AllOwned(regions, live) && h.region < |regions| && Owns(regions[h.region], h)
    requires forall g :: g in live && g.region == h.region ==> g.offset != h.offset
    ensures h !in live && AllOwned(regions, live[h := bytes])
  {
    hide Owns;
  }

  lemma AddRead(regions: seq<Region>, live: map<Handle, seq<Byte>>, h: Handle, bytes: seq<Byte>)
    requires AllRead(regions, live) && h.region < |regions| && Reads(regions[h.region], h, bytes)
    ensures AllRead(regions, live[h := bytes])
  {
    hide Reads;
  }

  lemma PlaceOthers(regions: seq<Region>, size: U32, live: map<Handle, seq<Byte>>, i: Byte, heap: Heap, off: U32,
                    bytes: seq<Byte>)
    requires AllOk(regions, size) && AllOwned(regions, live) && i < |regions| && |bytes| <= MAX_OBJECT
    requires Sound(heap) && Gave(regions[i].heap, heap, off, AtLeastOne(|bytes|))
    requires off + |bytes| <= |regions[i].data| && off / ALIGN < |regions[i].meta|
    ensures AllOwned(regions[i := Place(regions[i], heap, off, bytes)], live)
    ensures AllRead(regions, live) ==> AllRead(regions[i := Place(regions[i], heap, off, bytes)], live)
    ensures forall g :: g in live && g.region == i ==> g.offset != off
  {
    hide Owns, Sound, Gave;
    var after := regions[i := Place(regions[i], heap, off, bytes)];
    forall g | g in live
      ensures g.region == i ==> g.offset != off
      ensures g.region < |after| && Owns(after[g.region], g)
      ensures AllRead(regions, live) ==> Reads(after[g.region], g, live[g])
    {
      if g.region == i { PlaceKeeps(regions[i], size, heap, off, AtLeastOne(|bytes|), bytes, g); }
    }
  }

  lemma PlacedHolds(r: Region, size: U32, heap: Heap, off: U32, bytes: seq<Byte>, h: Handle)
    requires RegionOk(r, size) && Sound(heap) && |bytes| <= MAX_OBJECT && Gave(r.heap, heap, off, AtLeastOne(|bytes|))
    requires off + |bytes| <= |r.data| && off / ALIGN < |r.meta|
    requires h.offset == off && h.size == |bytes|
    ensures Owns(Place(r, heap, off, bytes), h) && Reads(Place(r, heap, off, bytes), h, bytes)
    ensures RegionOk(Place(r, heap, off, bytes), size)
  {
    hide Sound;
    assert Overwrite(r.data, off, bytes)[off..off + |bytes|] == bytes;
  }

  lemma OwnedAt(regions: seq<Region>, size: U32, live: map<Handle, seq<Byte>>, h: Handle)
    requires AllOk(regions, size) && AllOwned(regions, live) && h in live
    ensures h.region < |regions| && Owns(regions[h.region], h) && h.offset + h.size <= |regions[h.region].data|
    ensures RegionOk(regions[h.region], size) && Listed(regions[h.region].heap) && IsLive(regions[h.region].heap, h.offset)
  {
    hide Tiled, Listed, SizeClass;
  }

  /** The regions after the block of `h` was given back. */
  function Freed(regions: seq<Region>, h: Handle): seq<Region>
    requires h.region < |regions| && Listed(regions[h.region].heap) && h.offset in regions[h.region].heap.info
  {
    regions[h.region := regions[h.region].(heap := Release(regions[h.region].heap, h.offset))]
  }

  lemma ReleaseAll(regions: seq<Region>, size: U32, live: map<Handle, seq<Byte>>, h: Handle)
    requires AllOk(regions, size) && AllOwned(regions, live) && h in live
    ensures h.region < |regions| && Listed(regions[h.region].heap) && h.offset in regions[h.region].heap.info
    ensures h.offset + h.size <= |regions[h.region].data|
    ensures AllOk(Freed(regions, h), size) && AllOwned(Freed(regions, h), live - {h})
    ensures AllRead(regions, live) ==> AllRead(Freed(regions, h), live - {h})
    ensures DataKept(regions, Freed(regions, h))
  {
    hide Sound, Owns, Listed, Release;
    OwnedAt(regions, size, live, h);
    var r := regions[h.region];
    ReleaseSound(r.heap, h.offset);
    ReleasedLimit(r.heap, h.offset);
    var after := Freed(regions, h);
    forall g | g in live - {h}
      ensures g.region < |after| && Owns(after[g.region], g)
    {
      if g.region == h.region { ReleaseKeeps(r, size, h.offset, g); }
    }
  }

  lemma ReleasedLimit(h: Heap, off: nat)
    requires Listed(h) && off in h.info
    ensures Release(h, off).limit == h.limit && Release(h, off).start == h.start
  {
  }

  lemma SoundParts(h: Heap)
    requires Sound(h)
    ensures Listed(h) && h.start <= h.limit
  {
  }

  lemma StartsInside(regions: seq<Region>, size: U32)
    requires AllOk(regions, size)
    ensures forall j :: 0 <= j < |regions| ==> regions[j].heap.start <= |regions[j].data| && Listed(regions[j].heap)
  {
    hide Sound, Listed;
    forall j | 0 <= j < |regions|
      ensures regions[j].heap.start <= |regions[j].data| && Listed(regions[j].heap)
    {
      SoundParts(regions[j].heap);
    }
  }

  function Written(regions: seq<Region>, at: nat, b: seq<Byte>): seq<Region>
    requires regions != [] && at + |b| <= |regions[0].data|
  {
    regions[0 := regions[0].(data := Overwrite(regions[0].data, at, b))]
  }

  lemma WrittenKeeps(regions: seq<Region>, size: U32, live: map<Handle, seq<Byte>>, at: nat, b: seq<Byte>)
    requires AllOk(regions, size) && AllOwned(regions, live) && at + |b| <= |regions[0].data|
    ensures AllOk(Written(regions, at, b), size) && AllOwned(Written(regions, at, b), live)
    ensures AllRead(regions, live) && at + |b| <= Align8(regions[0].heap.start) ==> AllRead(Written(regions, at, b), live)
  {
    hide Reads, Sound, AllRead, Align8, SizeClass;
    if AllRead(regions, live) && at + |b| <= Align8(regions[0].heap.start) { PrefixAll(regions, size, live, at, b); }
  }

  lemma PrefixAll(regions: seq<Region>, size: U32, live: map<Handle, seq<Byte>>, at: nat, b: seq<Byte>)
    requires AllOk(regions, size) && AllOwned(regions, live) && AllRead(regions, live)
    requires at + |b| <= Align8(regions[0].heap.start) && at + |b| <= |regions[0].data|
    ensures AllRead(Written(regions, at, b), live)
  {
    var after := Written(regions, at, b);
    forall g | g in live
      ensures g.region < |after| && Reads(after[g.region], g, live[g])
    {
      if g.region == 0 { PrefixKeeps(regions[0], size, at, b, g, live[g]); }
    }
    hide Owns, Reads, Sound, Overwrite, Align8;
  }

  lemma NewRegionOk(size: U32, start: nat)
    requires start <= size
    ensures RegionOk(NewRegion(size, start), size)
  {
    EmptyIsSound(start, size);
    hide Sound;
  }

  lemma AppendAll(regions: seq<Region>, size: U32, live: map<Handle, seq<Byte>>)
    requires AllOk(regions, size) && |regions| < MAX_REGIONS
    ensures var after := regions + [NewRegion(size, 0)];
            && AllOk(after, size) && (AllOwned(regions, live) ==> AllOwned(after, live))
            && (AllRead(regions, live) ==> AllRead(after, live))
  {
    NewRegionOk(size, 0);
    hide Owns, Reads, RegionOk, NewRegion;
  }

  /** The skipped prefix of every region is what it was. */
  predicate PrefixesKept(before: seq<Region>, after: seq<Region>) {
    && |before| <= |after|
    && forall i :: 0 <= i < |before| ==>
         && before[i].heap.start == after[i].heap.start <= |before[i].data| == |after[i].data|
         && after[i].data[..before[i].heap.start] == before[i].data[..before[i].heap.start]
  }

  /** No byte of any region, and no prefix length, has changed. */
  predicate DataKept(before: seq<Region>, after: seq<Region>) {
    && |before| == |after|
    && forall i :: 0 <= i < |before| ==> before[i].data == after[i].data && before[i].heap.start == after[i].heap.start
  }

  /** The first region, the one on file, after `bytes` were placed under `h`. */
  predicate Filed(before: seq<Region>, after: seq<Region>, h: Handle, bytes: seq<Byte>) {
    && before != [] && h.region < |after| && after[0].heap.start == before[0].heap.start
    && after[h.region].heap.start <= h.offset && Aligned(h.offset) && h.offset + |bytes| <= |after[h.region].data|
    && if h.region != 0 then after[0].data == before[0].data
       else h.offset + |bytes| <= |before[0].data| && after[0].data == Overwrite(before[0].data, h.offset, bytes)
  }

  lemma PlaceFiled(regions: seq<Region>, i: Byte, heap: Heap, off: U32, bytes: seq<Byte>)
    requires i < |regions| && off + |bytes| <= |regions[i].data| && off / ALIGN < |regions[i].meta|
    requires |bytes| < TWO32 && heap.start == regions[i].heap.start <= off && Aligned(off)
    ensures Filed(regions, regions[i := Place(regions[i], heap, off, bytes)], Handle(off, |bytes|, 0, i), bytes)
  {
    hide Overwrite;
  }

  lemma PlacePrefix(regions: seq<Region>, i: nat, heap: Heap, off: nat, bytes: seq<Byte>)
    requires i < |regions| && off + |bytes| <= |regions[i].data| && off / ALIGN < |regions[i].meta|
    requires forall j :: 0 <= j < |regions| ==> regions[j].heap.start <= |regions[j].data|
    requires heap.start == regions[i].heap.start <= off
    ensures PrefixesKept(regions, regions[i := Place(regions[i], heap, off, bytes)])
  {
    OverwriteElsewhere(regions[i].data, off, bytes, 0, heap.start);
    hide Overwrite;
  }

  /** Whether the allocator can serve a request. */
  predicate HasRoom(h: Heap, n: U32) {
    var c := SizeClass(AtLeastOne(n));
    (c < LARGE && c < |h.fl| && h.fl[c] != []) || Room(h, AtLeastOne(n))
  }

  lemma RoomIsAllocate(h: Heap, n: U32)
    requires Listed(h)
    ensures Allocate(h, n).1.Some? <==> HasRoom(h, n)
  {
    hide Align8, AllocSize, SizeClass;
  }

  /** Two live handles of a region never share a meta cell. */
  lemma CellsDistinct(regions: seq<Region>, size: U32, live: map<Handle, seq<Byte>>, g: Handle, h: Handle)
    requires AllOk(regions, size) && AllOwned(regions, live)
    requires g in live && h in live && g != h && g.region == h.region
    ensures CellOf(g) != CellOf(h)
    ensures CellOf(h) < |regions[h.region].meta|
  {
    var r := regions[h.region];
    assert Owns(r, g) && Owns(r, h);
    Apart(r.heap, g.offset, h.offset);
    Apart(r.heap, h.offset, g.offset);
    hide Sound, Tiled;
  }

  lemma AtLeastOneRegion(regions: seq<Region>, size: U32)
    requires AllOk(regions, size)
    ensures 0 < |regions| <= MAX_REGIONS
  {
  }

  lemma AllocFits(regions: seq<Region>, size: U32, i: Byte, bytes: seq<Byte>)
    requires AllOk(regions, size) && i < |regions| && |bytes| <= MAX_OBJECT
    ensures Listed(regions[i].heap)
    ensures Allocate(regions[i].heap, |bytes|).1.Some? <==> HasRoom(regions[i].heap, |bytes|)
    ensures var (heap, off) := Allocate(regions[i].heap, |bytes|);
            off.Some? ==>
              && off.value < size && off.value + |bytes| <= |regions[i].data| && off.value / ALIGN < |regions[i].meta|
              && Sound(heap) && Gave(regions[i].heap, heap, off.value, AtLeastOne(|bytes|))
              && heap.start == regions[i].heap.start <= off.value && Aligned(off.value)
  {
    StartsInside(regions, size);
    hide Sound, Gave, Listed, Allocate;
    AllocateGives(regions[i].heap, |bytes|);
    RoomIsAllocate(regions[i].heap, |bytes|);
    var (heap, off) := Allocate(regions[i].heap, |bytes|);
    if off.Some? { GaveFits(regions[i], size, heap, off.value, |bytes|, AtLeastOne(|bytes|)); }
  }

  /** `bytes` stored in region `i`, if its allocator has room, and their handle. */
  function TryIn(regions: seq<Region>, size: U32, i: Byte, bytes: seq<Byte>): (r: Option<(seq<Region>, Handle)>)
    requires AllOk(regions, size) && i < |regions| && |bytes| <= MAX_OBJECT
    ensures r.Some? <==> HasRoom(regions[i].heap, |bytes|)
    ensures r.Some? ==> |r.value.0| == |regions| && r.value.1.size == |bytes| && r.value.1.region == i && r.value.1.meta == 0
  {
    AllocFits(regions, size, i, bytes);
    var (heap, off) := Allocate(regions[i].heap, |bytes|);
    if off.None? then None
    else Some((regions[i := Place(regions[i], heap, off.value, bytes)], Handle(off.value, |bytes|, 0, i)))
  }

  /** What a stored value leaves alone. */
  lemma TryKeeps(regions: seq<Region>, size: U32, live: map<Handle, seq<Byte>>, i: Byte, bytes: seq<Byte>)
    requires AllOk(regions, size) && i < |regions| && |bytes| <= MAX_OBJECT && TryIn(regions, size, i, bytes).Some?
    ensures var (after, h) := TryIn(regions, size, i, bytes).value;
            && AllOk(after, size) && PrefixesKept(regions, after) && Filed(regions, after, h, bytes)
            && (AllOwned(regions, live) ==> h !in live && AllOwned(after, live[h := bytes]))
            && (AllOwned(regions, live) && AllRead(regions, live) ==> AllRead(after, live[h := bytes]))
  {
    StartsInside(regions, size);
    hide Sound, Gave, Owns, AllOwned, AllRead, Overwrite, Listed, Allocate, Place, PrefixesKept, Filed;
    AllocFits(regions, size, i, bytes);
    var (heap, off) := Allocate(regions[i].heap, |bytes|);
    PlaceOk(regions, size, i, heap, off.value, bytes);
    PlacePrefix(regions, i, heap, off.value, bytes);
    PlaceFiled(regions, i, heap, off.value, bytes);
    if AllOwned(regions, live) { PlaceAll(regions, size, live, i, heap, off.value, bytes); }
  }

  lemma PlaceOk(regions: seq<Region>, size: U32, i: Byte, heap: Heap, off: U32, bytes: seq<Byte>)
    requires AllOk(regions, size) && i < |regions| && |bytes| <= MAX_OBJECT
    requires Sound(heap) && Gave(regions[i].heap, heap, off, AtLeastOne(|bytes|))
    requires off + |bytes| <= |regions[i].data| && off / ALIGN < |regions[i].meta|
    ensures AllOk(regions[i := Place(regions[i], heap, off, bytes)], size)
  {
    hide Sound, Gave, Owns, Reads, Place;
    PlacedHolds(regions[i], size, heap, off, bytes, Handle(off, |bytes|, 0, i));
  }

  lemma NothingPlaced(regions: seq<Region>)
    requires forall j :: 0 <= j < |regions| ==> regions[j].heap.start <= |regions[j].data|
    ensures PrefixesKept(regions, regions)
  {
  }

  lemma PrefixesSame(regions: seq<Region>, size: U32)
    requires AllOk(regions, size)
    ensures PrefixesKept(regions, regions)
  {
    StartsInside(regions, size);
    hide Listed, RegionOk;
    NothingPlaced(regions);
  }

  lemma PrefixesTwice(regions: seq<Region>, size: U32, after: seq<Region>)
    requires PrefixesKept(regions + [NewRegion(size, 0)], after)
    ensures PrefixesKept(regions, after)
  {
    hide NewRegion;
    var mid := regions + [NewRegion(size, 0)];
    assert forall i :: 0 <= i < |regions| ==> mid[i] == regions[i];
  }

  lemma FiledTwice(regions: seq<Region>, size: U32, after: seq<Region>, h: Handle, bytes: seq<Byte>)
    requires regions != [] && Filed(regions + [NewRegion(size, 0)], after, h, bytes)
    ensures Filed(regions, after, h, bytes)
  {
    hide NewRegion, Overwrite;
  }

  /** What a Put keeps of a value: its length is taken modulo 32 bits. */
  function Stored(value: seq<Byte>): (b: seq<Byte>)
    ensures |b| < TWO32 && (|value| < TWO32 ==> b == value)
  {
    value[..|value| % TWO32]
  }

  predicate LastIsFull(regions: seq<Region>, value: seq<Byte>) {
    regions != [] && !HasRoom(regions[|regions| - 1].heap, |Stored(value)|)
  }

  datatype PutResult = Placed(h: Handle) | TooLarge | Full

  /** The whole of a Put: in the current region, or in a new one when that is full. */
  function PutInto(regions: seq<Region>, size: U32, value: seq<Byte>): (seq<Region>, PutResult)
    requires AllOk(regions, size)
  {
    var bytes := Stored(value);
    if |bytes| > MAX_OBJECT then (regions, TooLarge)
    else
      var r := TryIn(regions, size, |regions| - 1, bytes);
      if r.Some? then (r.value.0, Placed(r.value.1))
      else if |regions| == MAX_REGIONS then (regions, Full)
      else
        AppendAll(regions, size, map[]);
        var more := regions + [NewRegion(size, 0)];
        var r := TryIn(more, size, |regions|, bytes);
        if r.Some? then (r.value.0, Placed(r.value.1)) else (more, Full)
  }

  /** The arena refuses exactly a value that is too large, or that neither the
      current region nor a new one has room for. */
  predicate Refuses(regions: seq<Region>, size: U32, value: seq<Byte>) {
    || |Stored(value)| > 67108864
    || (LastIsFull(regions, value) && (|regions| == 256 || LastIsFull([NewRegion(size, 0)], value)))
  }

  /** A region is added exactly when the current one is full and there may be more. */
  predicate Rotates(regions: seq<Region>, value: seq<Byte>) {
    |Stored(value)| <= 67108864 && LastIsFull(regions, value) && |regions| < 256
  }

  lemma PutExact(regions: seq<Region>, size: U32, value: seq<Byte>)
    requires AllOk(regions, size)
    ensures var (after, r) := PutInto(regions, size, value);
            && (r.TooLarge? <==> |Stored(value)| > MAX_OBJECT)
            && (!r.Placed? <==> Refuses(regions, size, value))
            && |after| == |regions| + (if Rotates(regions, value) then 1 else 0)
            && (r.Placed? ==> r.h.size == |Stored(value)| && r.h.meta == 0 && r.h.region == |after| - 1)
  {
    hide HasRoom, NewRegion, TryIn, Stored;
    AtLeastOneRegion(regions, size);
    if Rotates(regions, value) { AppendAll(regions, size, map[]); }
  }

  /** A Put keeps every live value, and of the file changes only the new block. */
  lemma PutKeeps(regions: seq<Region>, size: U32, live: map<Handle, seq<Byte>>, value: seq<Byte>)
    requires AllOk(regions, size)
    ensures var (after, r) := PutInto(regions, size, value);
            && AllOk(after, size) && PrefixesKept(regions, after)
            && (r.Placed? ==> Filed(regions, after, r.h, Stored(value)))
            && (!r.Placed? ==> after[0].data == regions[0].data && after[0].heap.start == regions[0].heap.start)
            && (AllOwned(regions, live) && r.Placed? ==> r.h !in live && AllOwned(after, live[r.h := Stored(value)]))
            && (AllOwned(regions, live) && !r.Placed? ==> AllOwned(after, live))
            && (AllOwned(regions, live) && AllRead(regions, live) ==>
                  AllRead(after, if r.Placed? then live[r.h := Stored(value)] else live))
  {
    hide HasRoom, NewRegion, TryIn, Stored, AllOwned, AllRead, PrefixesKept, Filed;
    var bytes, more := Stored(value), regions + [NewRegion(size, 0)];
    AtLeastOneRegion(regions, size);
    PrefixesSame(regions, size);
    if |bytes| <= MAX_OBJECT {
      if TryIn(regions, size, |regions| - 1, bytes).Some? {
        TryKeeps(regions, size, live, |regions| - 1, bytes);
      } else if |regions| < MAX_REGIONS {
        AppendAll(regions, size, live);
        PrefixesSame(more, size);
        PrefixesTwice(regions, size, more);
        var r := TryIn(more, size, |regions|, bytes);
        if r.Some? {
          TryKeeps(more, size, live, |regions|, bytes);
          PrefixesTwice(regions, size, r.value.0);
          FiledTwice(regions, size, r.value.0, r.value.1, bytes);
        }
      }
    }
  }

  /** All cells but `c`, if that is `used`, are the same. */
  predicate CellsKept(a: seq<nat>, b: seq<nat>, used: bool, c: nat) {
    |a| == |b| && forall x :: 0 <= x < |a| && !(used && x == c) ==> b[x] == a[x]
  }

  /** The meta cell of `h` is 0, and no other cell has changed. */
  predicate MetaReset(before: seq<Region>, after: seq<Region>, h: Handle) {
    && |before| <= |after| && h.region < |after|
    && h.offset / 8 < |after[h.region].meta| && after[h.region].meta[h.offset / 8] == 0
    && forall i :: 0 <= i < |before| ==> CellsKept(before[i].meta, after[i].meta, i == h.region, h.offset / 8)
  }

  lemma TryResets(regions: seq<Region>, size: U32, i: Byte, bytes: seq<Byte>)
    requires AllOk(regions, size) && i < |regions| && |bytes| <= MAX_OBJECT && TryIn(regions, size, i, bytes).Some?
    ensures var (after, h) := TryIn(regions, size, i, bytes).value; MetaReset(regions, after, h)
  {
    hide AllOk, Sound, Gave, Listed, Allocate, Overwrite;
    AllocFits(regions, size, i, bytes);
  }

  /** A put clears the meta cell of its block, which may be used for the second time:
      frequency and queue tag start at 0.  The cells of other blocks stay. */
  lemma PutResets(regions: seq<Region>, size: U32, value: seq<Byte>)
    requires AllOk(regions, size)
    ensures var (after, r) := PutInto(regions, size, value);
            r.Placed? ==> MetaReset(regions, after, r.h)
  {
    hide HasRoom, NewRegion, TryIn, Stored, MetaReset;
    var bytes, more := Stored(value), regions + [NewRegion(size, 0)];
    AtLeastOneRegion(regions, size);
    if |bytes| <= MAX_OBJECT {
      if TryIn(regions, size, |regions| - 1, bytes).Some? {
        TryResets(regions, size, |regions| - 1, bytes);
      } else if |regions| < MAX_REGIONS {
        AppendAll(regions, size, map[]);
        var r := TryIn(more, size, |regions|, bytes);
        if r.Some? {
          TryResets(more, size, |regions|, bytes);
          ResetsOld(regions, NewRegion(size, 0), r.value.0, r.value.1);
        }
      }
    }
  }

  lemma ResetsOld(before: seq<Region>, new_: Region, after: seq<Region>, h: Handle)
    requires MetaReset(before + [new_], after, h)
    ensures MetaReset(before, after, h)
  {
    hide CellsKept;
    var mid := before + [new_];
    assert forall i :: 0 <= i < |before| ==> mid[i] == before[i];
  }

  class Manager {
    var regions: seq<Region>
    var currentIdx: nat
    const size: U32
    const reserved: nat
    var liveObjs: nat
    ghost var Live: map<Handle, seq<Byte>>

    /** Regions and allocators are sound, every live handle has its block, and the
        first region skips the reserved prefix. */
    ghost predicate Shaped()
      reads this
    {
      && AllOk(regions, size) && currentIdx == |regions| - 1
      && 0 < |regions| && |regions[0].data| == size && regions[0].heap.start == reserved <= size
      && liveObjs == |Live| && AllOwned(regions, Live)
    }

    /** And every live handle reads as stored. */
    ghost predicate Valid()
      reads this
    {
      Shaped() && AllRead(regions, Live)
    }

    /** An anonymous arena. */
    constructor (regionSize: U32)
      ensures Valid() && Live == map[] && size == regionSize && regions == [NewRegion(regionSize, 0)] && reserved == 0
    {
      size, reserved, liveObjs, currentIdx := regionSize, 0, 0, 0;
      regions, Live := [NewRegion(regionSize, 0)], map[];
      new;
      NewRegionOk(regionSize, 0);
    }

    /** A file-backed arena: allocation skips the prefix kept for persistence. */
    constructor OpenFile(regionSize: U32)
      ensures Valid() && Live == map[] && size == regionSize && reserved == Superblocks.ReservedBytes(regionSize)
      ensures regions == [NewRegion(regionSize, Superblocks.ReservedBytes(regionSize))]
    {
      size, reserved, liveObjs, currentIdx := regionSize, Superblocks.ReservedBytes(regionSize), 0, 0;
      regions, Live := [NewRegion(regionSize, Superblocks.ReservedBytes(regionSize))], map[];
      new;
      NewRegionOk(regionSize, Superblocks.ReservedBytes(regionSize));
    }

    /** Stores a value in the current region if its allocator has room. */
    method TryPlace(bytes: seq<Byte>) returns (h: Option<Handle>)
      requires AllOk(regions, size) && currentIdx == |regions| - 1 && |bytes| <= MAX_OBJECT
      modifies this
      ensures var r := TryIn(old(regions), size, old(currentIdx), bytes);
              if r.Some? then (regions, h) == (r.value.0, Some(r.value.1)) && liveObjs == old(liveObjs) + 1
              else h.None? && regions == old(regions) && liveObjs == old(liveObjs)
      ensures currentIdx == old(currentIdx) && Live == old(Live)
    {
      AllocFits(regions, size, currentIdx, bytes);
      hide Allocate, AllOk, Sound, Gave;
      var (heap, off) := Allocate(regions[currentIdx].heap, |bytes|);
      if off.None? { return None; }
      regions := regions[currentIdx := Place(regions[currentIdx], heap, off.value, bytes)];
      liveObjs := liveObjs + 1;
      h := Some(Handle(off.value, |bytes|, 0, currentIdx));
    }

    /** Stores a value: in the current region, or in a new one when that is full. */
    method Put(value: seq<Byte>) returns (r: PutResult)
      requires Shaped()
      modifies this
      ensures Shaped() && (old(Valid()) ==> Valid()) && PrefixesKept(old(regions), regions)
      ensures (regions, r) == PutInto(old(regions), size, value)
      ensures r.TooLarge? <==> |Stored(value)| > MAX_OBJECT
      ensures !r.Placed? <==> Refuses(old(regions), size, value)
      ensures |regions| == |old(regions)| + (if Rotates(old(regions), value) then 1 else 0)
      ensures r.Placed? ==> r.h !in old(Live) && Live == old(Live)[r.h := Stored(value)]
      ensures r.Placed? ==> r.h.size == |Stored(value)| && r.h.meta == 0 && r.h.region == currentIdx
      ensures r.Placed? ==> Filed(old(regions), regions, r.h, Stored(value))
      ensures !r.Placed? ==> Live == old(Live) && regions[0].data == old(regions)[0].data
    {
      hide AllOwned, AllRead, AllOk, PrefixesKept, NewRegion, Filed, Refuses, Rotates, TryIn, PutInto, Stored;
      PutExact(regions, size, value);
      PutKeeps(regions, size, Live, value);
      r := PutAnywhere(value);
      if r.Placed? { Live := Live[r.h := Stored(value)]; }
      if r.Placed? { FiledShape(old(regions), regions, r.h, Stored(value)); } else { KeptShape(old(regions), regions); }
    }

    method PutAnywhere(value: seq<Byte>) returns (r: PutResult)
      requires AllOk(regions, size) && currentIdx == |regions| - 1
      modifies this
      ensures (regions, r) == PutInto(old(regions), size, value) && currentIdx == |regions| - 1 && Live == old(Live)
      ensures liveObjs == old(liveObjs) + (if r.Placed? then 1 else 0)
    {
      hide AllOk, NewRegion, TryIn;
      AtLeastOneRegion(regions, size);
      var n := |value| % TWO32;
      if n > MAX_OBJECT { return TooLarge; }
      var h := TryPlace(value[..n]);
      if h.Some? { return Placed(h.value); }
      if |regions| >= MAX_REGIONS { return Full; }
      AppendAll(regions, size, map[]);
      regions := regions + [NewRegion(size, 0)];
      currentIdx := |regions| - 1;
      h := TryPlace(value[..n]);
      return if h.Some? then Placed(h.value) else Full;
    }

    /** The bytes a handle names; for a live handle, the bytes that were put. */
    method View(h: Handle) returns (r: Option<seq<Byte>>)
      requires Shaped()
      ensures r == if h.region < |regions| && h.offset + h.size <= |regions[h.region].data|
                   then Some(regions[h.region].data[h.offset..h.offset + h.size]) else None
      ensures Valid() && h in Live ==> r == Some(Live[h])
    {
      hide AllOk, AllOwned;
      if h.region >= |regions| { return None; }
      var reg := regions[h.region];
      var end := h.offset + h.size;
      if end > |reg.data| { return None; }
      return Some(reg.data[h.offset..end]);
    }

    predicate InBounds(h: Handle)
      reads this
    {
      h.region < |regions| && h.offset + h.size <= |regions[h.region].data|
    }

    /** Gives a block back.  The caller frees each handle once. */
    method Free(h: Handle) returns (ok: bool)
      requires Shaped() && (h in Live || !InBounds(h))
      modifies this
      ensures Shaped() && (old(Valid()) ==> Valid()) && ok == old(InBounds(h)) && (old(h in Live) ==> ok)
      ensures Live == if ok then old(Live) - {h} else old(Live)
      ensures DataKept(old(regions), regions)
      ensures if !ok then regions == old(regions)
              else && old(h.region < |regions| && Listed(regions[h.region].heap) && h.offset in regions[h.region].heap.info)
                   && regions == Freed(old(regions), h)
    {
      hide AllOk, AllOwned, AllRead, Listed, Release;
      if h in Live { ReleaseAll(regions, size, Live, h); }
      if h.region >= |regions| { return false; }
      var reg := regions[h.region];
      if h.offset + h.size > |reg.data| { return false; }
      regions := regions[h.region := reg.(heap := Release(reg.heap, h.offset))];
      liveObjs := liveObjs - 1;
      Live := Live - {h};
      ok := true;
    }

    /** The persistence layer's raw write into the first region.  Below where
        objects start it changes no stored value. */
    method CopyToArena(off: nat, buf: seq<Byte>) returns (ok: bool)
      requires Shaped()
      modifies this`regions
      ensures Shaped() && (ok <==> off + |buf| <= size)
      ensures regions == if ok then Written(old(regions), off, buf) else old(regions)
      ensures old(Valid()) && off + |buf| <= Align8(reserved) ==> Valid()
    {
      hide AllOk, AllOwned, AllRead, Overwrite, Align8;
      if off + |buf| > |regions[0].data| { return false; }
      WrittenKeeps(regions, size, Live, off, buf);
      regions := Written(regions, off, buf);
      ok := true;
    }

    /** The persistence layer's raw read from the first region. */
    method CopyArenaTo(off: nat, n: nat) returns (r: Option<seq<Byte>>)
      requires Shaped()
      ensures r == if off + n <= size then Some(regions[0].data[off..off + n]) else None
    {
      hide AllOk, AllOwned;
      if off + n > |regions[0].data| { return None; }
      return Some(regions[0].data[off..off + n]);
    }

    /** From 14 bytes below 16 KiB on, superblock and checkpoint writes stay below
        where the objects of a file arena start, and only from there on. */
    lemma PersistenceFits()
      requires Shaped() && reserved == Superblocks.ReservedBytes(size)
      ensures Superblocks.SUPERBLOCK_SIZE + Superblocks.CheckpointMax(size) <= Align8(reserved)
              <==> size >= Superblocks.CLEAR_FROM
    {
      hide AllOk, AllOwned;
      Superblocks.ObjectsClear(size);
    }
  }

  lemma FiledShape(before: seq<Region>, after: seq<Region>, h: Handle, bytes: seq<Byte>)
    requires Filed(before, after, h, bytes)
    ensures 0 < |after| && after[0].heap.start == before[0].heap.start && |after[0].data| == |before[0].data|
  {
    hide Overwrite;
  }

  lemma KeptShape(before: seq<Region>, after: seq<Region>)
    requires PrefixesKept(before, after) && before != []
    ensures 0 < |after| && after[0].heap.start == before[0].heap.start && |after[0].data| == |before[0].data|
  {
  }
}
