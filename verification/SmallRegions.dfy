/** How small a region may be.  Below 16 KiB, less 14 bytes, a store that only puts
    and checkpoints can lose a key: its allocator places a value over the checkpoint. */
module SmallRegions {
  import opened Bytes
  import opened ShardIndexes
  import opened Wal
  import opened Recovery
  import opened Machines
  import opened Allocators
  import AllocatorRuns
  import HashIndexes
  import Persist
  import Arena
  import Checkpoint
  import Superblocks

  /** At every point of every run from a new store, a restart finds exactly the
      handles of the index. */
  ghost predicate Durable(size: U32)
    requires BODY <= size
  {
    forall trace: seq<Machine>, ops: seq<Op>, outs: seq<Outcome> ::
      Machines.IsRun(trace, ops, outs, size) && trace[0] == Fresh(size) && AllKeyed(ops) ==>
        Finds(DiskOf(trace[|ops|].files), size, Handles(trace[|ops|].idx))
  }

  predicate AllKeyed(ops: seq<Op>) {
    forall i :: 0 <= i < |ops| ==> Keyed(ops[i])
  }

  /** The store is durable exactly from there on. */
  lemma DurableExactly(size: U32)
    requires BODY <= size
    ensures Durable(size) <==> size >= Superblocks.CLEAR_FROM
  {
    hide Machines.IsRun, Fresh, Finds, AllKeyed, DiskOf;
    if size >= Superblocks.CLEAR_FROM {
      forall trace: seq<Machine>, ops: seq<Op>, outs: seq<Outcome> |
          Machines.IsRun(trace, ops, outs, size) && trace[0] == Fresh(size) && AllKeyed(ops)
        ensures Finds(DiskOf(trace[|ops|].files), size, Handles(trace[|ops|].idx))
      {
        Keys(ops);
        RunsAreSafe(trace, ops, outs, size);
        assert Safe(trace[|ops|], size);
      }
    } else if size >= 2 * BODY {
      var trace, outs := LosingRun(size, 0);
    } else {
      NotEvenLoaded(size);
    }
  }

  lemma Keys(ops: seq<Op>)
    requires AllKeyed(ops)
    ensures forall i :: 0 <= i < |ops| ==> Keyed(ops[i])
  {
  }

  /** Below 8 KiB the checkpoint area does not fit into the file. */
  lemma NotEvenLoaded(size: U32)
    requires BODY <= size < 2 * BODY
    ensures Machines.IsRun([Fresh(size)], [], [], size) && AllKeyed([])
    ensures !Finds(DiskOf(Fresh(size).files), size, Handles(Fresh(size).idx))
  {
    hide Superblocks.Encode;
    assert |FreshDisk(size).arena| == size;
  }

  // ----- The losing run -----

  predicate Small(size: U32) {
    2 * BODY <= size < Superblocks.CLEAR_FROM
  }

  lemma SmallIs(size: U32)
    requires Small(size)
    ensures 2 * BODY <= size < Superblocks.CLEAR_FROM
  {
  }

  /** Where the first object goes. */
  function First(size: U32): nat {
    Align8(Superblocks.ReservedBytes(size))
  }

  lemma FirstInside(size: U32)
    requires Small(size)
    ensures Superblocks.CheckpointMax(size) == BODY && WalMax(size) == 4096
    ensures BODY <= First(size) <= 2 * BODY - 8 && Aligned(First(size)) && First(size) + 24 <= size
    ensures Superblocks.ReservedBytes(size) <= First(size)
  {
  }

  /** So many zeros; the file of a new store holds nothing else behind its superblock. */
  function Zeros(n: nat): (z: seq<Byte>)
    ensures |z| == n && forall i :: 0 <= i < n ==> z[i] == 0
  {
    seq(n, _ => 0)
  }

  lemma ZerosOver(a: seq<Byte>, off: nat, n: nat)
    requires BODY <= off && off + n <= |a| && forall i :: BODY <= i < |a| ==> a[i] == 0
    ensures Overwrite(a, off, Zeros(n)) == a
  {
  }

  /** A key with which a checkpoint of one entry fills its area. */
  const LONG := BODY - 32

  function LongKey(): (k: Key)
    ensures |k| == LONG && forall i :: 0 <= i < LONG ==> k[i] == 1
  {
    seq(LONG, _ => 1)
  }

  // ----- What the allocator does -----

  function Heap0(size: U32): Heap {
    var start := Superblocks.ReservedBytes(size);
    Heap(start, size, start, seq(LARGE, _ => []), [], map[])
  }

  /** After a value of eight bytes came and went. */
  function Heap1(size: U32): Heap {
    var off := First(size);
    Heap0(size).(offset := off + 8, order := [off], info := map[off := Info(8, 0, Free)], fl := seq(LARGE, _ => [])[0 := [off]])
  }

  /** After one of twelve bytes, which takes a block of the next class. */
  function Heap2(size: U32): Heap {
    var off := First(size);
    Heap1(size).(offset := off + 24, order := [off, off + 8], info := map[off := Info(8, 0, Free), off + 8 := Info(16, 1, Live)])
  }

  lemma FirstAlloc(size: U32)
    requires Small(size)
    ensures Listed(Heap0(size))
    ensures var (h, off) := AllocatorRuns.Allocate(Heap0(size), 8);
            off == Some(First(size)) && Listed(h) && First(size) in h.info && Release(h, First(size)) == Heap1(size)
  {
    FirstInside(size);
    hide Superblocks.ReservedBytes;
    assert SizeClass(8) == 0 && AllocSize(8) == 8;
    var h := AllocatorRuns.Allocate(Heap0(size), 8).0;
    assert [First(size)] + [] == [First(size)];
    assert Release(h, First(size)).order == [First(size)];
  }

  lemma SecondAlloc(size: U32)
    requires Small(size)
    ensures Listed(Heap1(size)) && AllocatorRuns.Allocate(Heap1(size), 12) == (Heap2(size), Some(First(size) + 8))
  {
    FirstInside(size);
    hide Superblocks.ReservedBytes;
    var off := First(size);
    assert SizeClass(12) == 1 && AllocSize(12) == 16;
    assert Align8(off + 8) == off + 8;
    assert [off] + [off + 8] == [off, off + 8];
  }

  lemma ThirdAlloc(size: U32)
    requires Small(size)
    ensures Listed(Heap2(size)) && AllocatorRuns.Allocate(Heap2(size), 8).1 == Some(First(size))
  {
    FirstInside(size);
    hide Superblocks.ReservedBytes;
    assert SizeClass(8) == 0;
  }

  // ----- The states -----

  function One(size: U32, data: seq<Byte>, heap: Heap): seq<Arena.Region> {
    [Arena.Region(data, heap, seq(size / ALIGN, _ => 0))]
  }

  function Second(size: U32): Handle
    requires Small(size)
  {
    FirstInside(size);
    Handle(First(size) + 8, 12, 0, 0)
  }

  function Again(size: U32): Handle
    requires Small(size)
  {
    FirstInside(size);
    Handle(First(size), 8, 0, 0)
  }

  /** One put into the first region, by what the allocator gives. */
  lemma OnePut(size: U32, data: seq<Byte>, heap: Heap, n: U32, heap': Heap, off: U32)
    requires n <= 16 && Arena.AllOk(One(size, data, heap), size) && Listed(heap)
    requires AllocatorRuns.Allocate(heap, n) == (heap', Some(off))
    ensures off + n <= |data|
    ensures Arena.PutInto(One(size, data, heap), size, Zeros(n))
         == (One(size, Overwrite(data, off, Zeros(n)), heap'), Arena.Placed(Handle(off, n, 0, 0)))
  {
    hide AllocatorRuns.Allocate, Arena.AllOk, Overwrite;
    var rs, meta := One(size, data, heap), One(size, data, heap)[0].meta;
    Arena.AllocFits(rs, size, 0, Zeros(n));
    assert meta[off / ALIGN := 0] == meta;
    assert Arena.Stored(Zeros(n)) == Zeros(n);
    Arena.RoomIsAllocate(heap, n);
    var r := Arena.Place(rs[0], heap', off, Zeros(n));
    assert rs[0 := r] == [r] == One(size, Overwrite(data, off, Zeros(n)), heap');
  }

  lemma RecordSize(key: Key, value: seq<Byte>, h: Handle)
    ensures |Encode(RecordOf(key, value, h, None))| == 20 + |key| + |value|
  {
  }

  function Data0(size: U32): seq<Byte>
    requires Small(size)
  {
    FreshDisk(size).arena
  }

  lemma Data0Is(size: U32)
    requires Small(size)
    ensures |Data0(size)| == size && forall i :: BODY <= i < size ==> Data0(size)[i] == 0
    ensures Fresh(size) == Machine(Files(One(size, Data0(size), Heap0(size)), [], map[]), map[])
    ensures Laid(Fresh(size).files, size)
  {
    FreshInv(size);
    hide Superblocks.Encode, Superblocks.ReservedBytes, Laid, Inv;
    assert Inv(Fresh(size), size);
    InvLaid(Fresh(size), size);
  }

  lemma InvLaid(m: Machine, size: U32)
    requires Inv(m, size)
    ensures Laid(m.files, size)
  {
    hide Laid, Good, Arena.AllRead;
  }

  function State1(size: U32): Machine
    requires Small(size)
  {
    Machine(Files(One(size, Data0(size), Heap1(size)), [], map[]), map[])
  }

  function Record1(size: U32): Record
    requires Small(size)
  {
    RecordOf(LongKey(), Zeros(12), Second(size), None)
  }

  function State2(size: U32): Machine
    requires Small(size)
  {
    Machine(Files(One(size, Data0(size), Heap2(size)), Encode(Record1(size)), map[Second(size) := Zeros(12)]),
            map[LongKey() := Entry(Second(size), 0)])
  }

  /** A put that the log refuses: its block is given back. */
  lemma RefusedPut(size: U32)
    requires Small(size)
    ensures Step(Fresh(size), DoPut(Zeros(4096), Zeros(8), None), Outcome.Put(LogFull(Again(size))), State1(size), size)
    ensures Laid(State1(size).files, size)
  {
    hide Laid, Arena.AllOk, Arena.PutInto, Superblocks.Encode, Superblocks.ReservedBytes, Overwrite, AllocatorRuns.Allocate, Data0, Fresh,
      Heap0, Heap1, Listed, Release, First;
    FirstInside(size);
    Data0Is(size);
    LaidOk(Fresh(size).files, size);
    FirstAlloc(size);
    var off := First(size);
    var h := AllocatorRuns.Allocate(Heap0(size), 8).0;
    OnePut(size, Data0(size), Heap0(size), 8, h, off);
    ZerosOver(Data0(size), off, 8);
    var f, f' := Fresh(size).files, State1(size).files;
    assert Arena.Freed(One(size, Data0(size), h), Again(size)) == One(size, Data0(size), Heap1(size));
    assert PutStep(f, f', size, Zeros(4096), Zeros(8), None, LogFull(Again(size)));
    PutLaid(f, f', size, Zeros(4096), Zeros(8), None, LogFull(Again(size)));
  }

  lemma LaidOk(f: Files, size: U32)
    requires Laid(f, size)
    ensures Arena.AllOk(f.regions, size) && f.regions != [] && |f.regions[0].data| == size
  {
    hide Arena.AllOk, Arena.AllOwned;
  }

  lemma KeptIndex(size: U32)
    requires Small(size)
    ensures Apply(map[], Record1(size)) == map[LongKey() := Entry(Second(size), 0)]
  {
    hide First, LongKey, Zeros;
  }

  lemma SecondPlaced(size: U32)
    requires Small(size)
    ensures Arena.AllOk(State1(size).files.regions, size)
    ensures Arena.PutInto(State1(size).files.regions, size, Zeros(12))
         == (State2(size).files.regions, Arena.Placed(Second(size)))
  {
    hide Laid, Arena.AllOk, Arena.PutInto, Overwrite, AllocatorRuns.Allocate, Data0, Heap1, Heap2, Listed, First, LongKey,
      Encode, Zeros, RecordOf, One;
    FirstInside(size);
    State1Ok(size);
    SecondAlloc(size);
    OnePut(size, Data0(size), Heap1(size), 12, Heap2(size), First(size) + 8);
    ZerosOver(Data0(size), First(size) + 8, 12);
  }

  lemma State1Ok(size: U32)
    requires Small(size)
    ensures Arena.AllOk(One(size, Data0(size), Heap1(size)), size)
    ensures |Data0(size)| == size && forall i :: BODY <= i < size ==> Data0(size)[i] == 0
  {
    hide Step, Laid, Arena.AllOk, Data0, Heap1, Fresh;
    RefusedPut(size);
    LaidOk(State1(size).files, size);
    Data0Is(size);
  }

  lemma LongFits(size: U32)
    requires Small(size)
    ensures LogTakes(State1(size).files, Record1(size), size)
  {
    hide Encode, LongKey, Zeros, RecordOf, First, WalMax;
    FirstInside(size);
    RecordSize(LongKey(), Zeros(12), Second(size));
  }

  lemma KeptFiles(size: U32)
    requires Small(size)
    ensures PutStep(State1(size).files, State2(size).files, size, LongKey(), Zeros(12), None, Kept(Second(size)))
    ensures Laid(State2(size).files, size)
  {
    hide Laid, Arena.AllOk, Arena.PutInto, Data0, Heap1, Heap2, First, LongKey, Encode, Zeros, RecordOf, One, LogTakes;
    SecondPlaced(size);
    LongFits(size);
    RefusedPut(size);
    var f, f' := State1(size).files, State2(size).files;
    assert f.live[Second(size) := Zeros(12)] == f'.live;
    assert [] + Encode(Record1(size)) == Encode(Record1(size));
    PutLaid(f, f', size, LongKey(), Zeros(12), None, Kept(Second(size)));
  }

  /** The put of the long key, in the next block; its record fills the log. */
  lemma KeptPut(size: U32)
    requires Small(size)
    ensures Step(State1(size), DoPut(LongKey(), Zeros(12), None), Outcome.Put(Kept(Second(size))), State2(size), size)
    ensures Laid(State2(size).files, size) && State2(size).idx == map[LongKey() := Entry(Second(size), 0)]
  {
    hide Laid, PutStep, Data0, Heap1, Heap2, First, LongKey, Encode, Zeros, RecordOf, One, Apply;
    KeptFiles(size);
    KeptIndex(size);
  }

  // ----- The checkpoint -----

  function Entry1(size: U32, hash: U64): Checkpoint.SnapEntry
    requires Small(size)
  {
    Checkpoint.SnapEntry(hash, LongKey(), Second(size), 0)
  }

  function Image(size: U32, hash: U64): seq<Byte>
    requires Small(size)
  {
    Checkpoint.EncodeSnapshot([Entry1(size, hash)])
  }

  lemma ImageIs(size: U32, hash: U64)
    requires Small(size)
    ensures Image(size, hash) == Checkpoint.Preamble(1) + Checkpoint.Fields(Entry1(size, hash)) + LongKey()
    ensures |Image(size, hash)| == BODY && Checkpoint.KeysFit([Entry1(size, hash)], 1)
  {
    hide Checkpoint.Preamble, Checkpoint.Fields, First;
    var e := Entry1(size, hash);
    assert Checkpoint.EncodeEntries([e]) == Checkpoint.EncodeEntry(e) + Checkpoint.EncodeEntries([e][1..]);
    assert Checkpoint.Padded(e.key) == e.key;
  }

  lemma OneEntry(size: U32, hash: U64)
    requires Small(size)
    ensures IsSnapshot([Entry1(size, hash)], State2(size).idx) && Fitting([Entry1(size, hash)], size)
  {
    hide LongKey, Checkpoint.EncodeSnapshot, Superblocks.CheckpointMax, First, Encode;
    FirstInside(size);
    ImageIs(size, hash);
    assert [Entry1(size, hash)][0].key == LongKey();
  }

  lemma State2Good(size: U32)
    requires Small(size)
    ensures Good(SysOf(State2(size), [Record1(size)]), size)
  {
    FreshIsGood(size);
    hide Good, Data0, Encode, LongKey, First, FreshDisk, Handles, Apply, Zeros;
    KeptIndex(size);
    var r := Record1(size);
    var s, s' := FreshSys(size), SysOf(State2(size), [r]);
    assert [] + [r] == [r] && [] + Encode(r) == Encode(r);
    WantIsApply(map[], r);
    NoHandles();
    ShortLong(size);
    LogKeepsGood(s, s', size, r);
  }

  lemma NoHandles()
    ensures Handles(map[]) == map[]
  {
  }

  lemma ShortLong(size: U32)
    requires Small(size)
    ensures Fits(Record1(size)) && Record1(size).key != []
  {
    hide First;
  }

  /** The disk once the checkpoint is done holds the image, and keeps its size. */
  lemma ImageWritten(d: Disk, size: U32, hash: U64)
    requires Small(size) && Sized(d, size) && Fitting([Entry1(size, hash)], size)
    requires SuperblockOk(AfterBody(d, [Entry1(size, hash)], size), size)
    ensures var d2 := AfterSuperblock(AfterBody(d, [Entry1(size, hash)], size), 1, size);
            && Body(d2, size) == Image(size, hash) && |d2.arena| == |d.arena| && SuperblockOk(d2, size)
  {
    hide Checkpoint.EncodeSnapshot, Superblocks.Decode, Superblocks.Encode, Superblocks.CheckpointMax, Fitting, Entry1;
    FirstInside(size);
    ImageIs(size, hash);
    var d1 := AfterBody(d, [Entry1(size, hash)], size);
    BodyAfterSuperblock(d1, 1, size);
    assert Body(d1, size) == Image(size, hash);
  }

  lemma CheckpointDone(size: U32, hash: U64) returns (m: Machine)
    requires Small(size)
    ensures Step(State2(size), DoCheckpoint, Checked(true, [Entry1(size, hash)]), m, size) && Laid(m.files, size)
    ensures m.idx == State2(size).idx && m.files.wal == [] && m.files.regions != []
    ensures m.files.regions == One(size, m.files.regions[0].data, Heap2(size))
    ensures Sized(DiskOf(m.files), size) && Body(DiskOf(m.files), size) == Image(size, hash) && SuperblockOk(DiskOf(m.files), size)
  {
    hide Laid, Good, Data0, Heap2, Encode, LongKey, First, Finds, OneByteMeta, IsSnapshot, Fitting, AfterBody, AfterSuperblock,
      SuperblockOk, Body, Image, Entry1, Handles, Zeros;
    var f, snap := State2(size).files, [Entry1(size, hash)];
    OneEntry(size, hash);
    State2Good(size);
    GoodParts(SysOf(State2(size), [Record1(size)]), size);
    CheckpointSafe(DiskOf(f), size, State2(size).idx, snap);
    ImageWritten(DiskOf(f), size, hash);
    var d := AfterSuperblock(AfterBody(DiskOf(f), snap, size), 1, size);
    var f' := Files(One(size, d.arena, Heap2(size)), [], f.live);
    m := Machine(f', State2(size).idx);
    BodySame(d, DiskOf(f'), size);
    SuperblockSame(d, DiskOf(f'), size);
    KeptPut(size);
    assert f'.regions == f.regions[0 := f.regions[0].(data := d.arena)];
    assert CheckStep(f, f', size, snap, true);
    CheckLaid(f, f', size, snap, true);
  }

  // ----- The value over the checkpoint -----

  /** Eight zeros in the image: what is decoded has no longer the key with its handle. */
  lemma ImageSpoilt(size: U32, hash: U64, i: nat, b: seq<Byte>)
    requires Small(size) && i % 8 == 0 && i <= BODY - 8 && |Image(size, hash)| == BODY && b == Overwrite(Image(size, hash), i, Zeros(8))
    ensures var l := Checkpoint.Decode(b);
            l.Entries? ==> l.es == [] || (|l.es| == 1 && (l.es[0].key != LongKey() || l.es[0].handle != Second(size)))
  {
    hide Checkpoint.DecodeEntries, Checkpoint.DecodeEntry, Image, First, Get32;
    var l := Checkpoint.Decode(b);
    Poked(Image(size, hash), i, Zeros(8));
    if i == 0 {
      assert b[0] == b[0..8][0] == 0;
      NoMagic(b);
    } else if l.Entries? {
      if i == 8 {
        Subslice(b, 8, 16, 0, 4);
        assert b[8..12] == Zeros(4);
        NoneCounted(b);
      } else {
        ImageHead(size, hash);
        OverwriteElsewhere(Image(size, hash), i, Zeros(8), 8, 12);
        OneDecoded(b[Checkpoint.HEADER..]);
        EntrySpoilt(size, hash, i, b);
      }
    }
  }

  lemma Poked(a: seq<Byte>, i: nat, z: seq<Byte>)
    requires i + |z| <= |a|
    ensures Overwrite(a, i, z)[i..i + |z|] == z
  {
  }

  lemma NoneCounted(b: seq<Byte>)
    requires |b| >= Checkpoint.HEADER && b[8..12] == Zeros(4)
    ensures Get32(b[8..12]) == 0 && Checkpoint.DecodeEntries(b[Checkpoint.HEADER..], 0) == Some(([], 0))
  {
  }

  lemma OneDecoded(d: seq<Byte>)
    ensures Checkpoint.DecodeEntries(d, 1).Some? ==>
              && Checkpoint.DecodeEntry(d).Some?
              && Checkpoint.DecodeEntries(d, 1).value.0 == [Checkpoint.DecodeEntry(d).value.0]
  {
    hide Checkpoint.DecodeEntry;
    var r := Checkpoint.DecodeEntry(d);
    if r.Some? { assert Checkpoint.DecodeEntries(d[r.value.1..], 0) == Some(([], 0)); }
  }

  /** The count in the image. */
  lemma ImageHead(size: U32, hash: U64)
    requires Small(size)
    ensures |Image(size, hash)| == BODY && Get32(Image(size, hash)[8..12]) == 1
  {
    hide Le32, Get32, Checkpoint.Fields, First, LongKey;
    ImageIs(size, hash);
    var rest := Checkpoint.Fields(Entry1(size, hash)) + LongKey();
    assert Image(size, hash) == Checkpoint.Preamble(1) + rest;
    SliceFront(Checkpoint.Preamble(1), rest, 8, 12);
    assert Checkpoint.Preamble(1)[8..12] == Le32(1);
  }

  lemma EntrySpoilt(size: U32, hash: U64, i: nat, b: seq<Byte>)
    requires Small(size) && i % 8 == 0 && 16 <= i <= BODY - 8
    requires |Image(size, hash)| == BODY && b == Overwrite(Image(size, hash), i, Zeros(8))
    ensures var r := Checkpoint.DecodeEntry(b[Checkpoint.HEADER..]);
            r.Some? ==> r.value.0.key != LongKey() || r.value.0.handle != Second(size)
  {
    hide Image, First, Overwrite, Get64;
    var d := b[Checkpoint.HEADER..];
    var r := Checkpoint.DecodeEntry(d);
    Poked(Image(size, hash), i, Zeros(8));
    if r.Some? {
      if i == 16 {
        SubsliceFrom(b, 12, 8, 10);
        Subslice(b, 16, 24, 4, 6);
        assert Zeros(8)[4..6] == Zeros(2);
      } else if i == 24 {
        SubsliceFrom(b, 12, 14, 18);
        Subslice(b, 24, 32, 2, 6);
        assert Zeros(8)[2..6] == Zeros(4);
        ZeroIs(d[14..18]);
      } else {
        var k := r.value.0.key;
        assert b[i] == b[i..i + 8][0] == 0;
        assert i - 32 < |k| ==> k[i - 32] == d[i - 12];
        NotLong(k, i - 32);
      }
    }
  }

  lemma ZeroIs(b: seq<Byte>)
    requires b == Zeros(4)
    ensures Get32(b) == 0
  {
  }

  lemma NotLong(k: Key, j: nat)
    requires j < LONG
    ensures j < |k| && k[j] == 0 ==> k != LongKey()
    ensures |k| <= j ==> k != LongKey()
  {
  }

  lemma ThirdPlaced(size: U32, data: seq<Byte>)
    requires Small(size) && Arena.AllOk(One(size, data, Heap2(size)), size)
    ensures First(size) + 8 <= |data| && Listed(Heap2(size))
    ensures var heap := AllocatorRuns.Allocate(Heap2(size), 8).0;
            Arena.PutInto(One(size, data, Heap2(size)), size, Zeros(8))
            == (One(size, Overwrite(data, First(size), Zeros(8)), heap), Arena.Placed(Again(size)))
  {
    hide Arena.AllOk, Arena.PutInto, Overwrite, AllocatorRuns.Allocate, Heap2, Listed, First, Zeros, One;
    FirstInside(size);
    ThirdAlloc(size);
    OnePut(size, data, Heap2(size), 8, AllocatorRuns.Allocate(Heap2(size), 8).0, First(size));
  }

  function Record3(size: U32): Record
    requires Small(size)
  {
    RecordOf([9], Zeros(8), Again(size), None)
  }

  /** The last put takes the block that came back, inside the checkpoint. */
  lemma LastPut(size: U32, m: Machine) returns (m': Machine)
    requires Small(size) && Laid(m.files, size) && m.files.wal == []
    requires m.files.regions != [] && m.files.regions == One(size, m.files.regions[0].data, Heap2(size))
    ensures Step(m, DoPut([9], Zeros(8), None), Outcome.Put(Kept(Again(size))), m', size)
    ensures First(size) + 8 <= |DiskOf(m.files).arena| && m'.idx == Apply(m.idx, Record3(size))
    ensures DiskOf(m'.files) == Disk(Overwrite(DiskOf(m.files).arena, First(size), Zeros(8)), Encode(Record3(size)))
  {
    hide Laid, Arena.AllOk, Arena.PutInto, Overwrite, Heap2, Listed, First, Zeros, Encode, RecordOf, WalMax, Apply;
    LaidOk(m.files, size);
    FirstInside(size);
    var data := m.files.regions[0].data;
    ThirdPlaced(size, data);
    RecordSize([9], Zeros(8), Again(size));
    var heap := AllocatorRuns.Allocate(Heap2(size), 8).0;
    assert [] + Encode(Record3(size)) == Encode(Record3(size));
    var f' := Files(One(size, Overwrite(data, First(size), Zeros(8)), heap), Encode(Record3(size)),
                    m.files.live[Again(size) := Zeros(8)]);
    assert PutStep(m.files, f', size, [9], Zeros(8), None, Kept(Again(size)));
    m' := Machine(f', Apply(m.idx, Record3(size)));
  }

  lemma BodySpoilt(size: U32, hash: U64, d: Disk, d': Disk)
    requires Small(size) && Sized(d, size) && Body(d, size) == Image(size, hash) && SuperblockOk(d, size)
    requires First(size) + 8 <= |d.arena| && d'.arena == Overwrite(d.arena, First(size), Zeros(8))
    ensures Sized(d', size) && SuperblockOk(d', size) && |Image(size, hash)| == BODY && BODY <= First(size) <= 2 * BODY - 8
    ensures Body(d', size) == Overwrite(Image(size, hash), First(size) - BODY, Zeros(8))
  {
    hide Image, Superblocks.Decode, First, Superblocks.CheckpointMax;
    FirstInside(size);
    var a, off := d.arena, First(size);
    OverwriteElsewhere(a, off, Zeros(8), 0, BODY);
    assert d'.arena[..BODY] == d'.arena[0..BODY] && a[..BODY] == a[0..BODY];
    OverwriteInside(a, BODY, BODY + Superblocks.CheckpointMax(size), off, Zeros(8));
  }

  /** A restart no longer finds the long key where it was put. */
  lemma KeyLost(size: U32, hash: U64, m: Machine, m': Machine)
    requires Small(size) && m.idx == State2(size).idx && m'.idx == Apply(m.idx, Record3(size))
    requires Sized(DiskOf(m.files), size) && Body(DiskOf(m.files), size) == Image(size, hash) && SuperblockOk(DiskOf(m.files), size)
    requires First(size) + 8 <= |DiskOf(m.files).arena|
    requires DiskOf(m'.files) == Disk(Overwrite(DiskOf(m.files).arena, First(size), Zeros(8)), Encode(Record3(size)))
    ensures !Finds(DiskOf(m'.files), size, Handles(m'.idx))
  {
    hide Checkpoint.Decode, Encode, Handles, LongKey, Image, First, Overwrite, SuperblockOk, Zeros, Replay, ReadAll,
      WholeLength, Body, Apply, State2, Record3, Lookup, AddAll, Fits, EncodeAll, AllFit, Last, DiskOf, Small, Second, Base;
    var d := DiskOf(m'.files);
    StillWanted(size);
    FirstInside(size);
    BodySpoilt(size, hash, DiskOf(m.files), d);
    ImageSpoilt(size, hash, First(size) - BODY, Body(d, size));
    var base := Base(Checkpoint.Decode(Body(d, size)));
    if base.Some? {
      BaseMisses(size, Checkpoint.Decode(Body(d, size)));
      var r := Record3(size);
      ShortRecord3(size);
      RecoverLog(d, size, [r]);
      ReplayLooksUp(base.value, [r], LongKey());
    }
  }

  lemma StillWanted(size: U32)
    requires Small(size)
    ensures Lookup(Handles(Apply(State2(size).idx, Record3(size))), LongKey()) == Some(Second(size))
  {
    hide First, Encode;
    assert LongKey() != [9];
  }

  lemma ShortRecord3(size: U32)
    requires Small(size)
    ensures Fits(Record3(size)) && Record3(size).key == [9] && LongKey() != [9] && !Record3(size).Del?
    ensures EncodeAll([Record3(size)]) == Encode(Record3(size)) && AllFit([Record3(size)])
    ensures Last([Record3(size)], LongKey()) == None
  {
    hide First, Encode;
    var r := Record3(size);
    assert EncodeAll([r][1..]) == [];
    assert [r][..0] == [];
  }

  lemma BaseMisses(size: U32, l: Checkpoint.Loaded)
    requires Small(size) && Base(l).Some?
    requires l.Entries? ==> l.es == [] || (|l.es| == 1 && (l.es[0].key != LongKey() || l.es[0].handle != Second(size)))
    ensures Lookup(Handles(Base(l).value), LongKey()) != Some(Second(size))
  {
    hide First, LongKey;
    if l.Entries? && l.es != [] {
      assert l.es[..0] == [];
      assert AddAll(l.es[..|l.es| - 1]) == map[];
    }
  }

  /** A put the log refuses, a long key, a checkpoint, and a short value into the
      block that the refused put gave back. */
  function LosingOps(): (ops: seq<Op>)
    ensures |ops| == 4 && AllKeyed(ops)
  {
    [DoPut(Zeros(4096), Zeros(8), None), DoPut(LongKey(), Zeros(12), None), DoCheckpoint, DoPut([9], Zeros(8), None)]
  }

  /** A store can run them, and the restart then misses the long key. */
  lemma LosingRun(size: U32, hash: U64) returns (trace: seq<Machine>, outs: seq<Outcome>)
    requires Small(size)
    ensures Machines.IsRun(trace, LosingOps(), outs, size) && trace[0] == Fresh(size)
    ensures trace[2].idx == map[LongKey() := Entry(Second(size), 0)] && outs[2].Checked? && outs[2].snap == [Entry1(size, hash)]
    ensures !Finds(DiskOf(trace[4].files), size, Handles(trace[4].idx))
  {
    hide Step, Fresh, State1, State2, Finds, DiskOf, Laid, LongKey, Image, First, Zeros, Body, SuperblockOk, Sized, Apply,
      Record3;
    RefusedPut(size);
    KeptPut(size);
    var m3 := CheckpointDone(size, hash);
    var m4 := LastPut(size, m3);
    KeyLost(size, hash, m3, m4);
    trace := [Fresh(size), State1(size), State2(size), m3, m4];
    outs := [Outcome.Put(LogFull(Again(size))), Outcome.Put(Kept(Second(size))), Checked(true, [Entry1(size, hash)]),
             Outcome.Put(Kept(Again(size)))];
  }

  lemma OnlySnapshot(snap: seq<Checkpoint.SnapEntry>, key: Key, h: Handle)
    requires IsSnapshot(snap, map[key := Entry(h, 0)])
    ensures |snap| == 1 && snap[0] == Checkpoint.SnapEntry(snap[0].hash, key, h, 0)
  {
    Persist.SnapshotSize(snap, map[key := Entry(h, 0)]);
  }

  /** And whoever runs them loses the key. */
  lemma AlwaysLost(size: U32, trace: seq<Machine>, outs: seq<Outcome>)
    requires Small(size) && Machines.IsRun(trace, LosingOps(), outs, size) && trace[0] == Fresh(size)
    ensures !Finds(DiskOf(trace[4].files), size, Handles(trace[4].idx))
  {
    hide Fresh, Finds, DiskOf, First, Zeros, LongKey, PutStep, CheckStep, IsSnapshot, Apply, RecordOf;
    var ops := LosingOps();
    var t, os := LosingRun(size, 0);
    assert !ops[0].DoCheckpoint? && !ops[1].DoCheckpoint? && ops[2].DoCheckpoint? && !ops[3].DoCheckpoint?;
    Determined(size, ops, trace, outs, t, os, 2);
    assert Step(trace[2], ops[2], outs[2], trace[3], size);
    var snap := outs[2].snap;
    OnlySnapshot(snap, LongKey(), Second(size));
    assert snap == [snap[0]];
    t, os := LosingRun(size, snap[0].hash);
    Determined(size, ops, trace, outs, t, os, 4);
  }

  /** The losing run through the manager itself, over an index of its own. */
  method LoseKey(size: U32, hash: HashIndexes.Hash)
    returns (pm: Persist.PersistentManager, idx: HashIndexes.HashIndex, held: set<Handle>, outs: seq<Outcome>)
    requires Small(size)
    ensures Persist.Running(pm, idx, held) && pm.mgr.size == size
    ensures !Finds(pm.OnDisk(), size, Handles(idx.Contents))
  {
    hide Fresh, Finds, LosingOps, AllKeyed, Small, Machines.IsRun, Inv, Safe, Persist.Running;
    assert 2 * BODY <= size by { SmallIs(size); }
    pm, idx := Persist.NewStore(size, hash);
    ghost var trace;
    outs, held, trace := Persist.Session(pm, idx, {}, LosingOps());
    AlwaysLost(size, trace, outs);
  }
}
