/** A persistent store at work: every put, deletion, free and checkpoint, with the
    placements the allocator makes and the limits of the log, over whole runs. */
module Machines {
  import opened Bytes
  import opened Wal
  import opened Recovery
  import Allocators
  import Arena
  import Checkpoint
  import ShardIndexes
  import Superblocks

  const MAX_LOG := 0x400_0000

  /** How long the log may get. */
  function WalMax(regionSize: nat): (n: nat)
    ensures 4096 <= n <= MAX_LOG
  {
    var v := if regionSize / 4 > MAX_LOG then MAX_LOG else regionSize / 4;
    if v < 4096 then 4096 else v
  }

  /** A quarter of the region, from 16 KiB up to 256 MiB regions; less is rounded up to
      4 KiB, and more cut off at 64 MiB. */
  lemma LogSizes(regionSize: nat)
    ensures regionSize <= 16384 ==> WalMax(regionSize) == 4096
    ensures 16384 <= regionSize <= 268435456 ==> WalMax(regionSize) == regionSize / 4
    ensures 268435456 <= regionSize ==> WalMax(regionSize) == 67108864
  {
  }

  datatype PutOutcome = Kept(h: Handle) | ArenaFull | LogFull(h: Handle)

  /** The record of a put: with an expiry or without. */
  function RecordOf(key: Key, value: seq<Byte>, h: Handle, expires: Option<U32>): Record {
    var at := Location(h.offset, h.size, h.region);
    if expires.None? then Set(key, value, at) else SetEx(key, value, at, expires.value)
  }

  /** The regions, the log, and the values put and not freed. */
  datatype Files = Files(regions: seq<Arena.Region>, wal: seq<Byte>, live: map<Handle, seq<Byte>>)

  function DiskOf(f: Files): Disk {
    Disk(if f.regions == [] then [] else f.regions[0].data, f.wal)
  }

  predicate LogTakes(f: Files, r: Record, size: U32) {
    |f.wal| + |Encode(r)| <= WalMax(size)
  }

  // ----- Steps -----

  /** A put: the arena first, then the log, which if full gives the block back. */
  predicate PutStep(f: Files, f': Files, size: U32, key: Key, value: seq<Byte>, expires: Option<U32>, o: PutOutcome) {
    && Arena.AllOk(f.regions, size)
    && var (regions, r) := Arena.PutInto(f.regions, size, value);
       match o
       case ArenaFull => !r.Placed? && f' == f.(regions := regions)
       case Kept(h) =>
         && r == Arena.Placed(h) && LogTakes(f, RecordOf(key, value, h, expires), size)
         && f' == Files(regions, f.wal + Encode(RecordOf(key, value, h, expires)), f.live[h := value])
       case LogFull(h) =>
         && r == Arena.Placed(h) && !LogTakes(f, RecordOf(key, value, h, expires), size)
         && FreesTo(regions, f'.regions, h) && f' == f.(regions := f'.regions)
  }

  predicate FreesTo(before: seq<Arena.Region>, after: seq<Arena.Region>, h: Handle) {
    && h.region < |before| && Allocators.Listed(before[h.region].heap) && h.offset in before[h.region].heap.info
    && after == Arena.Freed(before, h)
  }

  predicate DeleteStep(f: Files, f': Files, size: U32, key: Key, ok: bool) {
    && (ok <==> LogTakes(f, Del(key), size))
    && f' == if ok then f.(wal := f.wal + Encode(Del(key))) else f
  }

  /** A free, of a value that is still there. */
  predicate FreeStep(f: Files, f': Files, h: Handle) {
    if h in f.live then FreesTo(f.regions, f'.regions, h) && f' == f.(regions := f'.regions, live := f.live - {h})
    else f' == f
  }

  /** A checkpoint: body, superblock, then an empty log. */
  predicate CheckStep(f: Files, f': Files, size: U32, snap: seq<Checkpoint.SnapEntry>, ok: bool) {
    && f.regions != [] && f'.regions != [] && f'.live == f.live && |snap| < TWO64 && Sized(DiskOf(f), size)
    && f'.regions == f.regions[0 := f.regions[0].(data := f'.regions[0].data)]
    && if !Fitting(snap, size) then !ok && DiskOf(f') == DiskOf(f)
       else
         var d1 := AfterBody(DiskOf(f), snap, size);
         if !SuperblockOk(d1, size) then !ok && DiskOf(f') == d1
         else ok && DiskOf(f') == AfterSuperblock(d1, |snap|, size).(wal := [])
  }

  /** The superblock on disk counts the entries of a checkpoint that was written. */
  lemma CheckCounts(f: Files, f': Files, size: U32, snap: seq<Checkpoint.SnapEntry>, ok: bool)
    requires CheckStep(f, f', size, snap, ok) && ok
    ensures Sized(DiskOf(f'), size) && SuperblockOk(DiskOf(f'), size)
    ensures SuperblockOf(DiskOf(f'), size).checkpointCount == |snap|
  {
    hide Fitting, AfterBody, AfterSuperblock, SuperblockOk, Body, SuperblockOf;
    var d1 := AfterBody(DiskOf(f), snap, size);
    var d2 := AfterSuperblock(d1, |snap|, size);
    BodyAfterSuperblock(d1, |snap|, size);
    SuperblockSame(d2, DiskOf(f'), size);
    SameSuperblock(d2, DiskOf(f'), size);
  }

  lemma SameSuperblock(d: Disk, d': Disk, size: nat)
    requires Sized(d, size) && Sized(d', size) && d.arena == d'.arena && SuperblockOk(d, size)
    ensures SuperblockOk(d', size) && SuperblockOf(d, size) == SuperblockOf(d', size)
  {
    hide Superblocks.Decode;
  }

  // ----- Runs -----

  /** The files, and the index that the caller keeps beside them. */
  datatype Machine = Machine(files: Files, idx: Index)

  datatype Op =
    | DoPut(key: Key, value: seq<Byte>, expires: Option<U32>)
    | DoDelete(key: Key)
    | DoFree(h: Handle)
    | DoCheckpoint

  datatype Outcome =
    | Put(o: PutOutcome)
    | Deleted(ok: bool)
    | Freed
    | Checked(ok: bool, snap: seq<Checkpoint.SnapEntry>)

  /** The index after an operation that came out as `o`. */
  function IndexAfter(idx: Index, op: Op, o: Outcome): Index {
    if op.DoPut? && o.Put? && o.o.Kept? then Apply(idx, RecordOf(op.key, op.value, o.o.h, op.expires))
    else if op.DoDelete? && o == Deleted(true) then Apply(idx, Del(op.key))
    else idx
  }

  predicate Step(m: Machine, op: Op, o: Outcome, m': Machine, size: U32) {
    && m'.idx == IndexAfter(m.idx, op, o)
    && match op
       case DoPut(key, value, expires) => o.Put? && PutStep(m.files, m'.files, size, key, value, expires, o.o)
       case DoDelete(key) => o.Deleted? && DeleteStep(m.files, m'.files, size, key, o.ok)
       case DoFree(h) => o.Freed? && FreeStep(m.files, m'.files, h)
       case DoCheckpoint => o.Checked? && IsSnapshot(o.snap, m.idx) && CheckStep(m.files, m'.files, size, o.snap, o.ok)
  }

  ghost predicate IsRun(trace: seq<Machine>, ops: seq<Op>, outs: seq<Outcome>, size: U32): (b: bool)
    ensures b ==> |trace| == |ops| + 1 == |outs| + 1
  {
    && |trace| == |ops| + 1 == |outs| + 1
    && forall i :: 0 <= i < |ops| ==> Step(trace[i], ops[i], outs[i], trace[i + 1], size)
  }

  /** Keys that the log can carry. */
  predicate Keyed(op: Op) {
    op.DoPut? || op.DoDelete? ==> 0 < |op.key| < TWO16
  }

  // ----- Outcomes are determined -----

  lemma PutDetermined(f: Files, size: U32, key: Key, value: seq<Byte>, expires: Option<U32>,
                      f1: Files, o1: PutOutcome, f2: Files, o2: PutOutcome)
    requires PutStep(f, f1, size, key, value, expires, o1) && PutStep(f, f2, size, key, value, expires, o2)
    ensures o1 == o2 && f1 == f2
  {
    hide Arena.AllOk, Arena.PutInto, LogTakes, Arena.Freed, Encode, RecordOf;
  }

  lemma CheckDetermined(f: Files, size: U32, snap: seq<Checkpoint.SnapEntry>, f1: Files, ok1: bool, f2: Files, ok2: bool)
    requires CheckStep(f, f1, size, snap, ok1) && CheckStep(f, f2, size, snap, ok2)
    ensures ok1 == ok2 && f1 == f2
  {
    hide Fitting, AfterBody, AfterSuperblock, SuperblockOk, Sized;
    assert DiskOf(f1) == DiskOf(f2);
  }

  /** The machine has no choice but the order, and the hashes, of a snapshot. */
  lemma StepDetermined(m: Machine, op: Op, size: U32, o1: Outcome, m1: Machine, o2: Outcome, m2: Machine)
    requires Step(m, op, o1, m1, size) && Step(m, op, o2, m2, size)
    requires o1.Checked? && o2.Checked? ==> o1.snap == o2.snap
    ensures o1 == o2 && m1 == m2
  {
    hide PutStep, CheckStep, Arena.Freed, Encode, LogTakes, Apply, RecordOf, IsSnapshot;
    match op
    case DoPut(key, value, expires) =>
      PutDetermined(m.files, size, key, value, expires, m1.files, o1.o, m2.files, o2.o);
    case DoDelete(_) =>
    case DoFree(_) =>
    case DoCheckpoint => CheckDetermined(m.files, size, o1.snap, m1.files, o1.ok, m2.files, o2.ok);
  }

  lemma {:induction false} Determined(size: U32, ops: seq<Op>, t1: seq<Machine>, outs1: seq<Outcome>,
                                      t2: seq<Machine>, outs2: seq<Outcome>, n: nat)
    requires IsRun(t1, ops, outs1, size) && IsRun(t2, ops, outs2, size) && t1[0] == t2[0] && n <= |ops|
    requires forall i :: 0 <= i < n && outs1[i].Checked? && outs2[i].Checked? ==> outs1[i].snap == outs2[i].snap
    ensures t1[n] == t2[n] && forall i :: 0 <= i < n ==> outs1[i] == outs2[i]
  {
    hide Step;
    if n > 0 {
      Determined(size, ops, t1, outs1, t2, outs2, n - 1);
      StepDetermined(t1[n - 1], ops[n - 1], size, outs1[n - 1], t1[n], outs2[n - 1], t2[n]);
    }
  }

  // ----- Every run is safe -----

  /** Every value put and not freed reads as it was put, and a restart finds exactly
      the handles of the index. */
  predicate Safe(m: Machine, size: U32) {
    Arena.AllRead(m.files.regions, m.files.live) && Finds(DiskOf(m.files), size, Handles(m.idx))
  }

  predicate Laid(f: Files, size: U32) {
    && Arena.AllOk(f.regions, size) && Arena.AllOwned(f.regions, f.live)
    && f.regions != [] && |f.regions[0].data| == size && f.regions[0].heap.start == Superblocks.ReservedBytes(size)
  }

  function SysOf(m: Machine, log: seq<Record>): Sys {
    Sys(DiskOf(m.files), log, m.idx, Handles(m.idx))
  }

  ghost predicate Inv(m: Machine, size: U32) {
    && Laid(m.files, size) && Arena.AllRead(m.files.regions, m.files.live)
    && exists log :: Good(SysOf(m, log), size)
  }

  lemma InvIsSafe(m: Machine, size: U32)
    requires Inv(m, size)
    ensures Safe(m, size)
  {
    hide Finds, Arena.AllRead, Arena.AllOwned, Arena.AllOk;
    var log :| Good(SysOf(m, log), size);
  }

  /** What the arena does to its first region is what a write does to the file. */
  lemma FiledIsStored(before: seq<Arena.Region>, after: seq<Arena.Region>, h: Handle, key: Key, bytes: seq<Byte>,
                      expires: Option<U32>, size: nat)
    requires Arena.Filed(before, after, h, bytes) && |before[0].data| == size && |bytes| == h.size
    requires before[0].heap.start == Superblocks.ReservedBytes(size)
    ensures before != [] && h.region < |after| && h.offset + h.size <= |after[h.region].data|
    ensures var rec := RecordOf(key, bytes, h, expires);
            Placeable(rec, before[0].data, size) && after[0].data == StoredIn(before[0].data, rec, size)
  {
    hide Superblocks.ReservedBytes, Overwrite;
  }

  /** The layout after a put, and the values it keeps. */
  lemma PutLaid(f: Files, f': Files, size: U32, key: Key, value: seq<Byte>, expires: Option<U32>, o: PutOutcome)
    requires Laid(f, size) && PutStep(f, f', size, key, value, expires, o)
    ensures Laid(f', size) && (Arena.AllRead(f.regions, f.live) ==> Arena.AllRead(f'.regions, f'.live))
    ensures o.ArenaFull? ==> DiskOf(f') == DiskOf(f)
    ensures o.Kept? ==>
              var rec := RecordOf(key, value, o.h, expires);
              Placeable(rec, DiskOf(f).arena, size) && DiskOf(f') == AfterWrite(DiskOf(f), rec, size)
    ensures o.LogFull? ==>
              var rec := RecordOf(key, Arena.Stored(value), o.h, expires);
              && Placeable(rec, DiskOf(f).arena, size)
              && DiskOf(f') == DiskOf(f).(arena := StoredIn(DiskOf(f).arena, rec, size))
  {
    hide Arena.AllOk, Arena.AllOwned, Arena.AllRead, Arena.PutInto, Arena.Filed, Arena.PrefixesKept, Arena.Refuses,
      Arena.Rotates, Superblocks.ReservedBytes, Encode, Placeable, StoredIn, Arena.Stored, Arena.Freed, Allocators.Listed;
    var (regions, r) := Arena.PutInto(f.regions, size, value);
    var bytes := Arena.Stored(value);
    Arena.PutKeeps(f.regions, size, f.live, value);
    Arena.PutExact(f.regions, size, value);
    if r.Placed? {
      var h := r.h;
      Arena.FiledShape(f.regions, regions, h, bytes);
      FiledIsStored(f.regions, regions, h, key, bytes, expires, size);
      if o.Kept? {
        ShortRecord(f, RecordOf(key, value, h, expires), value, size);
      } else {
        Arena.ReleaseAll(regions, size, f.live[h := bytes], h);
        assert f.live[h := bytes] - {h} == f.live;
        FreedShape(regions, f'.regions, h);
      }
    } else {
      Arena.KeptShape(f.regions, regions);
    }
  }

  lemma ShortRecord(f: Files, r: Record, value: seq<Byte>, size: U32)
    requires LogTakes(f, r, size) && ValueOf(r) == value
    ensures |value| < TWO32 && Arena.Stored(value) == value
  {
  }

  lemma FreedShape(before: seq<Arena.Region>, after: seq<Arena.Region>, h: Handle)
    requires FreesTo(before, after, h) && before != [] && Arena.DataKept(before, after)
    ensures after != [] && after[0].data == before[0].data && after[0].heap.start == before[0].heap.start
  {
    hide Allocators.Listed, Arena.Freed;
  }

  lemma PutKeepsInv(m: Machine, op: Op, o: Outcome, m': Machine, size: U32)
    requires size >= Superblocks.CLEAR_FROM && Inv(m, size) && Step(m, op, o, m', size) && Keyed(op) && op.DoPut?
    ensures Inv(m', size)
  {
    hide Laid, Arena.AllRead, Good, PutStep, Encode, Placeable, StoredIn, Handles, Apply, RecordOf;
    PutLaid(m.files, m'.files, size, op.key, op.value, op.expires, o.o);
    var log :| Good(SysOf(m, log), size);
    if o.o.Kept? {
      var rec := RecordOf(op.key, op.value, o.o.h, op.expires);
      RecordFits(m.files, m'.files, op.key, op.value, op.expires, o.o, size);
      WantIsApply(m.idx, rec);
      WriteKeepsGood(SysOf(m, log), SysOf(m', log + [rec]), size, rec);
    } else if o.o.LogFull? {
      var rec := RecordOf(op.key, Arena.Stored(op.value), o.o.h, op.expires);
      RefuseKeepsGood(SysOf(m, log), SysOf(m', log), size, rec);
    } else {
      assert SysOf(m', log) == SysOf(m, log);
    }
  }

  lemma RecordFits(f: Files, f': Files, key: Key, value: seq<Byte>, expires: Option<U32>, o: PutOutcome, size: U32)
    requires PutStep(f, f', size, key, value, expires, o) && o.Kept? && 0 < |key| < TWO16
    ensures var rec := RecordOf(key, value, o.h, expires); Fits(rec) && rec.key != [] && !rec.Del?
  {
    hide Arena.PutInto, Arena.AllOk;
    ShortRecord(f, RecordOf(key, value, o.h, expires), value, size);
  }

  lemma DeleteKeepsInv(m: Machine, op: Op, o: Outcome, m': Machine, size: U32)
    requires size >= Superblocks.CLEAR_FROM && Inv(m, size) && Step(m, op, o, m', size) && Keyed(op) && op.DoDelete?
    ensures Inv(m', size)
  {
    hide Arena.AllRead, Arena.AllOk, Arena.AllOwned, Good, Encode, Handles, Apply, WalMax;
    var log :| Good(SysOf(m, log), size);
    if o.ok {
      WantIsApply(m.idx, Del(op.key));
      WriteKeepsGood(SysOf(m, log), SysOf(m', log + [Del(op.key)]), size, Del(op.key));
    } else {
      assert SysOf(m', log) == SysOf(m, log);
    }
  }

  lemma FreeKeepsInv(m: Machine, op: Op, o: Outcome, m': Machine, size: U32)
    requires Inv(m, size) && Step(m, op, o, m', size) && op.DoFree?
    ensures Inv(m', size)
  {
    hide Arena.AllRead, Arena.AllOk, Arena.AllOwned, Good, Arena.Freed, Allocators.Listed;
    var log :| Good(SysOf(m, log), size);
    if op.h in m.files.live {
      Arena.ReleaseAll(m.files.regions, size, m.files.live, op.h);
      FreedShape(m.files.regions, m'.files.regions, op.h);
    }
    assert SysOf(m', log) == SysOf(m, log);
  }

  /** A checkpoint stays below where objects start. */
  lemma CheckLaid(f: Files, f': Files, size: U32, snap: seq<Checkpoint.SnapEntry>, ok: bool)
    requires Laid(f, size) && CheckStep(f, f', size, snap, ok)
    ensures Laid(f', size)
    ensures size >= Superblocks.CLEAR_FROM && Arena.AllRead(f.regions, f.live) ==> Arena.AllRead(f'.regions, f'.live)
  {
    hide Arena.AllRead, Arena.AllOk, Arena.AllOwned, Overwrite, Superblocks.ReservedBytes, Superblocks.CheckpointMax,
      Superblocks.Encode, Superblocks.Decode, Checkpoint.EncodeSnapshot, Allocators.Align8;
    Superblocks.ObjectsClear(size);
    if Fitting(snap, size) {
      var body := Checkpoint.EncodeSnapshot(snap);
      Arena.WrittenKeeps(f.regions, size, f.live, BODY, body);
      var mid := Arena.Written(f.regions, BODY, body);
      var d1 := AfterBody(DiskOf(f), snap, size);
      assert mid[0].data == d1.arena;
      if SuperblockOk(d1, size) {
        var sb := Superblocks.Encode(Superblocks.Decode(d1.arena[..BODY]).sb.(checkpointCount := |snap|, walOffset := 0));
        Arena.WrittenKeeps(mid, size, f.live, 0, sb);
        assert f'.regions == Arena.Written(mid, 0, sb);
      } else {
        assert f'.regions == mid;
      }
    } else {
      assert f'.regions == f.regions;
    }
  }

  lemma CheckKeepsInv(m: Machine, op: Op, o: Outcome, m': Machine, size: U32)
    requires size >= Superblocks.CLEAR_FROM && Inv(m, size) && Step(m, op, o, m', size) && op.DoCheckpoint?
    ensures Inv(m', size)
  {
    hide Laid, Arena.AllRead, Good, Handles, Fitting, IsSnapshot, AfterBody, AfterSuperblock, SuperblockOk;
    CheckLaid(m.files, m'.files, size, o.snap, o.ok);
    var log :| Good(SysOf(m, log), size);
    if Fitting(o.snap, size) {
      GoodParts(SysOf(m, log), size);
      CheckpointSafe(DiskOf(m.files), size, m.idx, o.snap);
      CheckKeepsGood(SysOf(m, log), SysOf(m', []), size, o.snap, 3);
    } else {
      assert SysOf(m', log) == SysOf(m, log);
    }
  }

  lemma GoodParts(s: Sys, regionSize: nat)
    requires Good(s, regionSize)
    ensures Finds(s.disk, regionSize, Handles(s.idx)) && OneByteMeta(s.idx) && Sized(s.disk, regionSize)
  {
    hide Recover, Handles;
  }

  lemma StepKeepsInv(m: Machine, op: Op, o: Outcome, m': Machine, size: U32)
    requires size >= Superblocks.CLEAR_FROM && Inv(m, size) && Step(m, op, o, m', size) && Keyed(op)
    ensures Inv(m', size)
  {
    hide Inv, Step;
    match op
    case DoPut(_, _, _) => PutKeepsInv(m, op, o, m', size);
    case DoDelete(_) => DeleteKeepsInv(m, op, o, m', size);
    case DoFree(_) => FreeKeepsInv(m, op, o, m', size);
    case DoCheckpoint => CheckKeepsInv(m, op, o, m', size);
  }

  /** A new store. */
  function Fresh(size: U32): Machine
    requires BODY <= size
  {
    var start := Superblocks.ReservedBytes(size);
    Machine(Files([Arena.NewRegion(size, start).(data := FreshDisk(size).arena)], [], map[]), map[])
  }

  lemma FreshInv(size: U32)
    requires 2 * BODY <= size
    ensures Inv(Fresh(size), size)
  {
    hide Superblocks.Encode, Good, FreshSuperblock, Superblocks.ReservedBytes;
    Arena.NewRegionOk(size, Superblocks.ReservedBytes(size));
    FreshIsGood(size);
    hide Allocators.Sound;
    assert Handles(map[]) == map[];
    assert SysOf(Fresh(size), []) == FreshSys(size);
  }

  lemma {:induction false} RunKeepsInv(trace: seq<Machine>, ops: seq<Op>, outs: seq<Outcome>, size: U32, n: nat)
    requires size >= Superblocks.CLEAR_FROM && IsRun(trace, ops, outs, size) && Inv(trace[0], size) && n <= |ops|
    requires forall i :: 0 <= i < |ops| ==> Keyed(ops[i])
    ensures Inv(trace[n], size)
  {
    hide Inv, Step;
    if n > 0 {
      RunKeepsInv(trace, ops, outs, size, n - 1);
      StepKeepsInv(trace[n - 1], ops[n - 1], outs[n - 1], trace[n], size);
    }
  }

  lemma RunStarts(m: Machine, size: U32)
    ensures IsRun([m], [], [], size)
  {
  }

  lemma RunGrows(trace: seq<Machine>, ops: seq<Op>, k: nat, outs: seq<Outcome>, size: U32, o: Outcome, m: Machine)
    requires k < |ops| && IsRun(trace, ops[..k], outs, size) && Step(trace[k], ops[k], o, m, size)
    ensures IsRun(trace + [m], ops[..k + 1], outs + [o], size)
  {
    hide Step;
  }

  lemma SafeAlong(trace: seq<Machine>, ops: seq<Op>, outs: seq<Outcome>, size: U32)
    requires IsRun(trace, ops, outs, size)
    ensures size >= Superblocks.CLEAR_FROM && Inv(trace[0], size) && (forall i :: 0 <= i < |ops| ==> Keyed(ops[i])) ==>
              forall i :: 0 <= i < |trace| ==> Safe(trace[i], size)
  {
    hide Inv, Step, Safe;
    if size >= Superblocks.CLEAR_FROM && Inv(trace[0], size) && forall i :: 0 <= i < |ops| ==> Keyed(ops[i]) {
      forall i | 0 <= i < |trace|
        ensures Safe(trace[i], size)
      {
        RunKeepsInv(trace, ops, outs, size, i);
        InvIsSafe(trace[i], size);
      }
    }
  }

  /** Over every run of puts, deletions, frees and checkpoints from a new store,
      every value put and not freed reads as it was put, and a restart finds exactly
      the handles of the index. */
  lemma RunsAreSafe(trace: seq<Machine>, ops: seq<Op>, outs: seq<Outcome>, size: U32)
    requires size >= Superblocks.CLEAR_FROM && IsRun(trace, ops, outs, size) && trace[0] == Fresh(size)
    requires forall i :: 0 <= i < |ops| ==> Keyed(ops[i])
    ensures forall i :: 0 <= i < |trace| ==> Safe(trace[i], size)
  {
    hide Inv, Step, Safe, Fresh;
    FreshInv(size);
    SafeAlong(trace, ops, outs, size);
  }

  // ----- Expiry times across a restart -----

  /** Whether the operation was an acknowledged put or deletion of `k`. */
  predicate Changes(op: Op, o: Outcome, k: Key) {
    || (op.DoPut? && op.key == k && o.Put? && o.o.Kept?)
    || (op.DoDelete? && op.key == k && o == Deleted(true))
  }

  predicate Saved(op: Op, o: Outcome) {
    op.DoCheckpoint? && o.Checked? && o.ok
  }

  /** The keys put since the last checkpoint that was written. */
  function PutSince(ops: seq<Op>, outs: seq<Outcome>, n: nat): set<Key>
    requires n <= |ops| == |outs|
  {
    if n == 0 then {}
    else
      var op, o, before := ops[n - 1], outs[n - 1], PutSince(ops, outs, n - 1);
      if Saved(op, o) then {} else if op.DoPut? && Changes(op, o, op.key) then before + {op.key} else before
  }

  /** The index, with the expiry times of the keys `since` alone. */
  function Remembered(idx: Index, since: set<Key>): Index {
    map k | k in idx :: ShardIndexes.Entry(idx[k].handle, if k in since then idx[k].expiresAt else 0)
  }

  ghost predicate Recalls(m: Machine, size: U32, since: set<Key>) {
    && Inv(m, size) && Sized(DiskOf(m.files), size)
    && Recover(DiskOf(m.files), size) == Some(Remembered(m.idx, since))
  }

  lemma RememberedPut(idx: Index, since: set<Key>, r: Record)
    requires !r.Del?
    ensures Apply(Remembered(idx, since), r) == Remembered(Apply(idx, r), since + {r.key})
  {
  }

  lemma RememberedDelete(idx: Index, since: set<Key>, k: Key)
    ensures Apply(Remembered(idx, since), Del(k)) == Remembered(Apply(idx, Del(k)), since)
  {
  }

  lemma PutRecalls(m: Machine, op: Op, o: Outcome, m': Machine, size: U32, since: set<Key>)
    requires size >= Superblocks.CLEAR_FROM && Recalls(m, size, since) && Step(m, op, o, m', size) && Keyed(op) && op.DoPut?
    ensures Sized(DiskOf(m'.files), size)
    ensures Recover(DiskOf(m'.files), size) == Some(Remembered(m'.idx, if o.o.Kept? then since + {op.key} else since))
  {
    hide Laid, Arena.AllRead, Good, PutStep, Encode, Placeable, StoredIn, Handles, Apply, RecordOf, Recover, Remembered, DiskOf;
    PutLaid(m.files, m'.files, size, op.key, op.value, op.expires, o.o);
    var log :| Good(SysOf(m, log), size);
    if o.o.Kept? {
      var rec := RecordOf(op.key, op.value, o.o.h, op.expires);
      RecordFits(m.files, m'.files, op.key, op.value, op.expires, o.o, size);
      RecordKey(op.key, op.value, o.o.h, op.expires);
      WantIsApply(m.idx, rec);
      WriteRecovers(SysOf(m, log), SysOf(m', log + [rec]), size, rec);
      RememberedPut(m.idx, since, rec);
    } else if o.o.LogFull? {
      var rec := RecordOf(op.key, Arena.Stored(op.value), o.o.h, op.expires);
      RefuseRecovers(SysOf(m, log), SysOf(m', log), size, rec);
    }
  }

  lemma RecordKey(key: Key, value: seq<Byte>, h: Handle, expires: Option<U32>)
    ensures RecordOf(key, value, h, expires).key == key && !RecordOf(key, value, h, expires).Del?
  {
  }

  lemma DeleteRecalls(m: Machine, op: Op, o: Outcome, m': Machine, size: U32, since: set<Key>)
    requires size >= Superblocks.CLEAR_FROM && Recalls(m, size, since) && Step(m, op, o, m', size) && Keyed(op) && op.DoDelete?
    ensures Sized(DiskOf(m'.files), size) && Recover(DiskOf(m'.files), size) == Some(Remembered(m'.idx, since))
  {
    hide Arena.AllRead, Laid, Good, Encode, Handles, Apply, WalMax, Recover, Remembered;
    var log :| Good(SysOf(m, log), size);
    if o.ok {
      WantIsApply(m.idx, Del(op.key));
      WriteRecovers(SysOf(m, log), SysOf(m', log + [Del(op.key)]), size, Del(op.key));
      RememberedDelete(m.idx, since, op.key);
    }
  }

  lemma FreeRecalls(m: Machine, op: Op, o: Outcome, m': Machine, size: U32, since: set<Key>)
    requires Recalls(m, size, since) && Step(m, op, o, m', size) && op.DoFree?
    ensures Sized(DiskOf(m'.files), size) && Recover(DiskOf(m'.files), size) == Some(Remembered(m'.idx, since))
  {
    hide Arena.AllRead, Arena.AllOk, Arena.AllOwned, Good, Arena.Freed, Allocators.Listed, Recover, Remembered;
    if op.h in m.files.live {
      Arena.ReleaseAll(m.files.regions, size, m.files.live, op.h);
      FreedShape(m.files.regions, m'.files.regions, op.h);
    }
  }

  lemma CheckRecalls(m: Machine, op: Op, o: Outcome, m': Machine, size: U32, since: set<Key>)
    requires size >= Superblocks.CLEAR_FROM && Recalls(m, size, since) && Step(m, op, o, m', size) && op.DoCheckpoint?
    ensures Sized(DiskOf(m'.files), size)
    ensures Recover(DiskOf(m'.files), size) == Some(Remembered(m'.idx, if o.ok then {} else since))
  {
    hide Laid, Arena.AllRead, Good, Fitting, IsSnapshot, AfterBody, AfterSuperblock, Recover, Remembered, Faded;
    if Fitting(o.snap, size) {
      var log :| Good(SysOf(m, log), size);
      GoodParts(SysOf(m, log), size);
      RecoverOk(DiskOf(m.files), size);
      CheckpointRecovers(DiskOf(m.files), size, m.idx, o.snap);
      FadedIsForgotten(m.idx);
    }
  }

  lemma RecoverOk(d: Disk, regionSize: nat)
    requires Sized(d, regionSize) && Recover(d, regionSize).Some?
    ensures SuperblockOk(d, regionSize)
  {
    hide SuperblockOk, Body, Replay, ReadAll, Checkpoint.Decode;
  }

  lemma FadedIsForgotten(m: Index)
    ensures Faded(m) == Remembered(m, {})
  {
  }

  lemma StepRecalls(m: Machine, op: Op, o: Outcome, m': Machine, size: U32, since: set<Key>, since': set<Key>)
    requires size >= Superblocks.CLEAR_FROM && Recalls(m, size, since) && Step(m, op, o, m', size) && Keyed(op)
    requires since' == if Saved(op, o) then {} else if op.DoPut? && Changes(op, o, op.key) then since + {op.key} else since
    ensures Recalls(m', size, since')
  {
    StepKeepsInv(m, op, o, m', size);
    match op
    case DoPut(_, _, _) => PutRecalls(m, op, o, m', size, since);
    case DoDelete(_) => DeleteRecalls(m, op, o, m', size, since);
    case DoFree(_) => FreeRecalls(m, op, o, m', size, since);
    case DoCheckpoint => CheckRecalls(m, op, o, m', size, since);
    hide Inv, Recover, Remembered, PutStep, CheckStep, DeleteStep, FreeStep, Sized;
  }

  /** Over every run from a new store, a restart recovers the index exactly, but that
      keys not put since the last checkpoint have lost their expiry time. */
  lemma {:induction false} RunsRecall(trace: seq<Machine>, ops: seq<Op>, outs: seq<Outcome>, size: U32, n: nat)
    requires size >= Superblocks.CLEAR_FROM && IsRun(trace, ops, outs, size) && trace[0] == Fresh(size) && n <= |ops|
    requires forall i :: 0 <= i < |ops| ==> Keyed(ops[i])
    ensures Recalls(trace[n], size, PutSince(ops, outs, n))
  {
    hide Recalls, Step, Fresh, Keyed;
    if n == 0 {
      FreshRecalls(size);
    } else {
      RunsRecall(trace, ops, outs, size, n - 1);
      StepRecalls(trace[n - 1], ops[n - 1], outs[n - 1], trace[n], size, PutSince(ops, outs, n - 1), PutSince(ops, outs, n));
    }
  }

  lemma FreshRecalls(size: U32)
    requires 2 * BODY <= size
    ensures Recalls(Fresh(size), size, {})
  {
    FreshInv(size);
    FreshParts(size);
    hide Inv, Superblocks.Encode, Checkpoint.Decode, Superblocks.Decode, Superblocks.ReservedBytes, Superblocks.CheckpointMax;
    EmptyLog(map[]);
    assert DiskOf(Fresh(size).files) == FreshDisk(size);
    assert Remembered(map[], {}) == map[];
  }

  // ----- What the index says -----

  /** An acknowledged put is in the index with its own expiry time, 0 for none; an
      acknowledged deletion is not; nothing else about the index changes. */
  lemma StepEnters(m: Machine, op: Op, o: Outcome, m': Machine, size: U32, k: Key)
    requires Step(m, op, o, m', size)
    ensures Changes(op, o, k) && op.DoPut? ==>
              && o.o.h.meta == 0 && k in m'.idx && m'.idx[k].handle == o.o.h
              && m'.idx[k].expiresAt == (match op.expires case None => 0 case Some(e) => e)
    ensures Changes(op, o, k) && op.DoDelete? ==> k !in m'.idx
    ensures !Changes(op, o, k) ==> (k in m'.idx <==> k in m.idx) && (k in m.idx ==> m'.idx[k] == m.idx[k])
  {
    hide Arena.AllOk, Arena.PutInto, Arena.Freed, LogTakes, Arena.Refuses, Arena.Rotates, CheckStep, IsSnapshot;
    if op.DoPut? { Arena.PutExact(m.files.regions, size, op.value); }
  }

  /** From the last acknowledged change of `k` on, the index keeps what that said. */
  lemma {:induction false} EntryStays(trace: seq<Machine>, ops: seq<Op>, outs: seq<Outcome>, size: U32, k: Key, i: nat, n: nat)
    requires IsRun(trace, ops, outs, size) && i <= n <= |ops|
    requires forall j :: i <= j < n ==> !Changes(ops[j], outs[j], k)
    ensures k in trace[n].idx <==> k in trace[i].idx
    ensures k in trace[i].idx ==> trace[n].idx[k] == trace[i].idx[k]
    decreases n
  {
    hide Step;
    if i < n {
      EntryStays(trace, ops, outs, size, k, i, n - 1);
      StepEnters(trace[n - 1], ops[n - 1], outs[n - 1], trace[n], size, k);
    }
  }

  lemma {:induction false} StillSince(ops: seq<Op>, outs: seq<Outcome>, k: Key, i: nat, n: nat)
    requires i < n <= |ops| == |outs| && ops[i].DoPut? && Changes(ops[i], outs[i], k)
    requires forall j :: i < j < n ==> !Saved(ops[j], outs[j])
    ensures k in PutSince(ops, outs, n)
    decreases n
  {
    if i < n - 1 { StillSince(ops, outs, k, i, n - 1); }
  }

  lemma {:induction false} NoLongerSince(ops: seq<Op>, outs: seq<Outcome>, k: Key, c: nat, n: nat)
    requires c < n <= |ops| == |outs| && Saved(ops[c], outs[c])
    requires forall j :: c < j < n ==> !Changes(ops[j], outs[j], k)
    ensures k !in PutSince(ops, outs, n)
    decreases n
  {
    if c < n - 1 { NoLongerSince(ops, outs, k, c, n - 1); }
  }

  /** The value under `k` and its time: put in operation `i`, acknowledged, and the key
      not changed since. */
  predicate StandsSince(ops: seq<Op>, outs: seq<Outcome>, k: Key, i: nat) {
    && i < |ops| == |outs| && ops[i].DoPut? && Changes(ops[i], outs[i], k)
    && forall j :: i < j < |ops| ==> !Changes(ops[j], outs[j], k)
  }

  /** A restart that recovers `r` finds `k` with the handle `h`, exactly before
      `until`, or always when that is 0. */
  ghost predicate FoundUntil(r: Option<Index>, k: Key, h: Handle, until: nat) {
    r.Some? && k in r.value && r.value[k].handle == h && forall now: nat :: r.value[k].Live(now) <==> until == 0 || now < until
  }

  /** The time that the put of operation `i` gave, unless a checkpoint was written
      since: none is kept there. */
  ghost function TimeLeft(ops: seq<Op>, outs: seq<Outcome>, i: nat): nat
    requires i < |ops| == |outs| && ops[i].DoPut?
  {
    if ops[i].expires.None? || exists j :: i < j < |ops| && Saved(ops[j], outs[j]) then 0 else ops[i].expires.value
  }

  /** After any run of the store, a restart finds a key that was put and not changed
      since, with its handle and for its time. */
  lemma RestartKeepsExpiry(trace: seq<Machine>, ops: seq<Op>, outs: seq<Outcome>, size: U32, k: Key, i: nat)
    requires size >= Superblocks.CLEAR_FROM && IsRun(trace, ops, outs, size) && trace[0] == Fresh(size)
    requires (forall j :: 0 <= j < |ops| ==> Keyed(ops[j])) && StandsSince(ops, outs, k, i)
    ensures Sized(DiskOf(trace[|ops|].files), size)
    ensures FoundUntil(Recover(DiskOf(trace[|ops|].files), size), k, outs[i].o.h, TimeLeft(ops, outs, i))
  {
    hide Step, Fresh, Keyed, Inv, Recover, Sized, DiskOf;
    var n := |ops|;
    RunsRecall(trace, ops, outs, size, n);
    StepEnters(trace[i], ops[i], outs[i], trace[i + 1], size, k);
    EntryStays(trace, ops, outs, size, k, i + 1, n);
    if c :| i < c < n && Saved(ops[c], outs[c]) {
      NoLongerSince(ops, outs, k, c, n);
    } else {
      StillSince(ops, outs, k, i, n);
    }
  }
}
