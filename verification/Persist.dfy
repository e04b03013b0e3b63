/** The persistent manager: loading the index, logging writes, checkpointing. */
module Persist {
  import opened Bytes
  import opened HashIndexes
  import opened Wal
  import opened WalLog
  import opened Recovery
  import opened Machines
  import opened Probing
  import Allocators
  import Arena
  import Checkpoint
  import Superblocks

  // ----- Replay into an index -----

  /** Replaying `r` into an index of `slots` slots that holds `m` ends and keeps it
      whole: a full index has to have the key it deletes, and an empty key, which
      the log reads as nil, must not be stored twice. */
  predicate Applicable(m: Index, r: Record, slots: nat) {
    if r.Del? then |m| < slots || r.key in m else r.key != [] || [] !in m
  }

  /** The slots an index has after it. */
  function SlotsAfter(m: Index, r: Record, slots: nat): nat {
    if !r.Del? && |m| * 4 >= slots * 3 then 2 * slots else slots
  }

  predicate Replayable(m: Index, rs: seq<Record>, slots: nat)
    decreases |rs|
  {
    rs == [] || (Applicable(m, rs[0], slots) && Replayable(Apply(m, rs[0]), rs[1..], SlotsAfter(m, rs[0], slots)))
  }

  /** With four slots, one of them free, and no empty keys, any log can be replayed. */
  lemma {:induction false} RoomyReplays(m: Index, rs: seq<Record>, slots: nat)
    requires |m| < slots && 4 <= slots && forall i :: 0 <= i < |rs| ==> rs[i].key != []
    ensures Replayable(m, rs, slots)
    decreases |rs|
  {
    if rs != [] {
      GrowsByOne(m, rs[0]);
      RoomyReplays(Apply(m, rs[0]), rs[1..], SlotsAfter(m, rs[0], slots));
    }
  }

  lemma GrowsByOne(m: Index, r: Record)
    ensures |Apply(m, r)| <= |m| + if r.Del? then 0 else 1
  {
    if r.Del? {
      assert Apply(m, r).Keys <= m.Keys;
      Smaller(Apply(m, r).Keys, m.Keys);
    } else {
      assert Apply(m, r).Keys == m.Keys + {r.key};
    }
    assert |m| == |m.Keys| && |Apply(m, r)| == |Apply(m, r).Keys|;
  }

  lemma Smaller(a: set<Key>, b: set<Key>)
    requires a <= b
    ensures |a| <= |b|
  {
    assert b == a + (b - a);
  }

  /** Walks the log and applies every record to the index. */
  method ReplayTo(file: seq<Byte>, idx: HashIndex)
    requires idx.Valid() && Replayable(idx.Contents, ReadAll(file), |idx.keys|)
    modifies idx
    ensures idx.Valid() && idx.Contents == Replay(old(idx.Contents), ReadAll(file))
    ensures forall i: nat :: LastMention(ReadAll(file), i) ==> Leaves(idx.Contents, ReadAll(file)[i])
  {
    hide Leaves, LastMention, Replay, Read, ReadAll, Replaying, Replayable, Applicable, Apply, SlotsAfter, Searchable, Distinct, Occupied, PowerOfTwo,
      Stores;
    var it := new Iterator(file);
    ghost var start, done: seq<Record> := idx.Contents, [];
    ReplayingStart(file, start, |idx.keys|);
    while true
      invariant it.data == file && it.off <= |file| && fresh(it) && idx.Valid()
      invariant Replaying(file, it.off, start, done, idx.Contents, |idx.keys|)
      decreases |file| - it.off
    {
      ReplayingStep(file, it.off, start, done, idx.Contents, |idx.keys|);
      var item := it.Next();
      if !item.Found? { break; }
      ApplyTo(idx, item.record);
      done := done + [item.record];
    }
    EachLeaves(start, ReadAll(file));
  }

  lemma EachLeaves(m: Index, rs: seq<Record>)
    ensures forall i: nat :: LastMention(rs, i) ==> i < |rs| && Leaves(Replay(m, rs), rs[i])
  {
    hide Leaves, Replay;
    forall i: nat | LastMention(rs, i)
      ensures i < |rs| && Leaves(Replay(m, rs), rs[i])
    {
      ReplayLeaves(m, rs, i);
    }
  }

  /** A replay of `file` that has come to `off`, with the records `done`. */
  ghost predicate Replaying(file: seq<Byte>, off: nat, start: Index, done: seq<Record>, m: Index, slots: nat) {
    && off <= |file| && ReadAll(file) == done + ReadAll(file[off..])
    && m == Replay(start, done) && Replayable(m, ReadAll(file[off..]), slots)
  }

  lemma ReplayingStart(file: seq<Byte>, start: Index, slots: nat)
    requires Replayable(start, ReadAll(file), slots)
    ensures Replaying(file, 0, start, [], start, slots)
  {
    hide ReadAll, Replayable;
    assert file[0..] == file;
    ReplayNothing(start);
  }

  lemma ReplayingStep(file: seq<Byte>, off: nat, start: Index, done: seq<Record>, m: Index, slots: nat)
    requires Replaying(file, off, start, done, m, slots)
    ensures off <= |file|
    ensures var item := Read(file[off..]);
            if item.Found? then
              && COMMON <= item.length <= |file| - off && Applicable(m, item.record, slots)
              && Replaying(file, off + item.length, start, done + [item.record], Apply(m, item.record),
                           SlotsAfter(m, item.record, slots))
            else m == Replay(start, ReadAll(file))
  {
    hide Read, ReadAll, Replayable, Applicable, Apply, SlotsAfter, Replay;
    var left := file[off..];
    var item := Read(left);
    ReadAllStep(left);
    if item.Found? {
      var rest := ReadAll(left[item.length..]);
      assert left[item.length..] == file[off + item.length..];
      ReplayOne(start, done, item.record);
      ReplayableStep(m, item.record, rest, slots);
      assert done + ([item.record] + rest) == done + [item.record] + rest;
    } else {
      assert done + [] == done;
    }
  }

  lemma ReplayableStep(m: Index, r: Record, rest: seq<Record>, slots: nat)
    requires Replayable(m, [r] + rest, slots)
    ensures Applicable(m, r, slots) && Replayable(Apply(m, r), rest, SlotsAfter(m, r, slots))
  {
    assert ([r] + rest)[1..] == rest;
  }

  /** One record: a set puts its handle, a delete removes. */
  method ApplyTo(idx: HashIndex, r: Record)
    requires idx.Valid() && Applicable(idx.Contents, r, |idx.keys|)
    modifies idx
    ensures idx.Valid() && idx.Contents == Apply(old(idx.Contents), r)
    ensures |idx.keys| == SlotsAfter(old(idx.Contents), r, old(|idx.keys|))
  {
    hide Searchable, Occupied, PowerOfTwo, Distinct;
    var key := if r.key == [] then None else Some(r.key);
    match r
    case Set(_, _, l) => var _ := idx.Put(key, At(l), 0);
    case SetEx(_, _, l, e) => var _ := idx.Put(key, At(l), e);
    case Del(k) => var _, _ := idx.Delete(k);
  }

  lemma ReplayNothing(m: Index)
    ensures Replay(m, []) == m
  {
  }

  lemma ReplayOne(m: Index, rs: seq<Record>, r: Record)
    ensures Replay(m, rs + [r]) == Apply(Replay(m, rs), r)
  {
    assert (rs + [r])[..|rs|] == rs;
  }

  // ----- Loading a checkpoint into an index -----

  function KeysOf(es: seq<Checkpoint.SnapEntry>): set<Key> {
    set i | 0 <= i < |es| :: es[i].key
  }

  /** Every entry finds a slot: one is free, or its key is there already. */
  predicate AllPlaced(es: seq<Checkpoint.SnapEntry>, slots: nat) {
    forall i :: 0 <= i < |es| ==> |AddAll(es[..i])| < slots || es[i].key in AddAll(es[..i])
  }

  lemma KeysLast(es: seq<Checkpoint.SnapEntry>)
    requires es != []
    ensures KeysOf(es) == KeysOf(es[..|es| - 1]) + {es[|es| - 1].key}
  {
    var init := es[..|es| - 1];
    assert forall i :: 0 <= i < |init| ==> init[i] == es[i];
  }

  lemma {:induction false} AddAllKeys(es: seq<Checkpoint.SnapEntry>)
    ensures AddAll(es).Keys == KeysOf(es) && |AddAll(es)| == |KeysOf(es)|
  {
    hide KeysOf;
    if es == [] {
      NoKeys();
    } else {
      AddAllKeys(es[..|es| - 1]);
      KeysLast(es);
    }
    assert |AddAll(es)| == |AddAll(es).Keys|;
  }

  lemma NoKeys()
    ensures KeysOf([]) == {}
  {
  }

  /** Loading a checkpoint ends exactly when the index has a slot for each of its
      keys; absent keys can be searched for afterwards exactly when one is left. */
  lemma LoadEndsExactly(es: seq<Checkpoint.SnapEntry>, slots: nat)
    requires slots > 0
    ensures AllPlaced(es, slots) <==> |KeysOf(es)| <= slots
    ensures |AddAll(es)| < slots <==> |KeysOf(es)| < slots
  {
    hide AddAll;
    AddAllKeys(es);
    assert es[..|es|] == es;
    if AllPlaced(es, slots) { PlacedFit(es, slots, |es|); }
    if |KeysOf(es)| <= slots {
      forall i | 0 <= i < |es|
        ensures |AddAll(es[..i])| < slots || es[i].key in AddAll(es[..i])
      {
        AddAllKeys(es[..i]);
        AddAllKeys(es[..i + 1]);
        Fewer(es, i);
      }
    }
  }

  lemma Fewer(es: seq<Checkpoint.SnapEntry>, i: nat)
    requires i < |es|
    ensures |KeysOf(es[..i + 1])| <= |KeysOf(es)|
    ensures es[i].key !in KeysOf(es[..i]) ==> |KeysOf(es[..i + 1])| == |KeysOf(es[..i])| + 1
  {
    assert KeysOf(es[..i + 1]) == KeysOf(es[..i]) + {es[i].key} by {
      assert es[..i + 1] == es[..i] + [es[i]];
      assert forall j :: 0 <= j < i ==> es[..i + 1][j] == es[..i][j];
      assert es[..i + 1][i] == es[i];
    }
    assert forall j :: 0 <= j < i + 1 ==> es[..i + 1][j] == es[j];
    Smaller(KeysOf(es[..i + 1]), KeysOf(es));
  }

  lemma {:induction false} PlacedFit(es: seq<Checkpoint.SnapEntry>, slots: nat, n: nat)
    requires n <= |es| && AllPlaced(es, slots)
    ensures |AddAll(es[..n])| <= slots
  {
    if n > 0 {
      PlacedFit(es, slots, n - 1);
      assert es[..n][..n - 1] == es[..n - 1];
    }
  }

  // ----- The persistent manager -----

  lemma Emptied()
    ensures WholeLength([]) == 0
  {
  }

  lemma PutBack(live: map<Handle, seq<Byte>>, h: Handle, bytes: seq<Byte>)
    requires h !in live
    ensures live[h := bytes] - {h} == live
  {
  }

  lemma FreshFront(sb: seq<Byte>, size: nat)
    requires |sb| == BODY <= size
    ensures Overwrite(seq(size, _ => 0), 0, sb) == sb + seq(size - BODY, _ => 0)
  {
  }

  /** How a checkpoint comes out, and the disks a crash can leave on the way. */
  ghost predicate CrashesOf(d: Disk, d': Disk, size: U32, snap: seq<Checkpoint.SnapEntry>, ok: bool, crashes: seq<Disk>)
    requires Sized(d, size) && |snap| < TWO64
  {
    if !Fitting(snap, size) then !ok && d' == d && crashes == [d]
    else
      var d1 := AfterBody(d, snap, size);
      if !SuperblockOk(d1, size) then !ok && d' == d1 && crashes == [d, d1]
      else
        var d2 := AfterSuperblock(d1, |snap|, size);
        ok && d' == d2.(wal := []) && crashes == [d, d1, d2, d']
  }

  /** With a good superblock and a repaired log, `r` is what a cold start recovers. */
  predicate LoadsAs(d: Disk, size: U32, r: Option<Index>) {
    Sized(d, size) && (SuperblockOk(d, size) && WholeLength(d.wal) == |d.wal| ==> Recover(d, size) == r)
  }

  class PersistentManager {
    const mgr: Arena.Manager
    const log: Log

    ghost predicate Valid()
      reads this, mgr, log
    {
      && log.Valid() && log.maxOff == WalMax(mgr.size)
      && mgr.Shaped() && mgr.reserved == Superblocks.ReservedBytes(mgr.size) && 2 * BODY <= mgr.size
    }

    ghost function AsFiles(): (f: Files)
      requires Valid()
      reads this, mgr, log
      ensures Laid(f, mgr.size) && Sized(DiskOf(f), mgr.size)
    {
      hide Arena.AllOk, Arena.AllOwned;
      Files(mgr.regions, log.file, mgr.Live)
    }

    /** The two files. */
    ghost function OnDisk(): (d: Disk)
      requires Valid()
      reads this, mgr, log
      ensures Sized(d, mgr.size) && |d.arena| == mgr.size
    {
      hide Arena.AllOk, Arena.AllOwned;
      DiskOf(AsFiles())
    }

    /** A new store: an arena file with a superblock, an empty log. */
    constructor Create(regionSize: U32)
      requires 2 * BODY <= regionSize
      ensures Valid() && mgr.Valid() && mgr.size == regionSize && mgr.Live == map[] && fresh(mgr) && fresh(log)
      ensures AsFiles() == Machines.Fresh(regionSize).files && OnDisk() == FreshDisk(regionSize)
    {
      mgr := new Arena.Manager.OpenFile(regionSize);
      log := new Log.Open([], WalMax(regionSize));
      new;
      hide Superblocks.Encode, Arena.AllOk, Arena.AllRead, Arena.AllOwned, Overwrite, WholeLength;
      var sb := Superblocks.Encode(FreshSuperblock(regionSize));
      FreshFront(sb, regionSize);
      var ok := mgr.CopyToArena(0, sb);
      assert log.file == [] by { Emptied(); }
    }

    /** Stores a value in the arena and its record in the log.  When the log is full
        the block is given back; the bytes stay where they were written. */
    method Put(key: Key, value: seq<Byte>, expires: Option<U32>) returns (r: PutOutcome)
      requires Valid()
      modifies mgr, log
      ensures Valid() && (old(mgr.Valid()) ==> mgr.Valid())
      ensures PutStep(old(AsFiles()), AsFiles(), mgr.size, key, value, expires, r)
      ensures r.ArenaFull? <==> Arena.Refuses(old(mgr.regions), mgr.size, value)
      ensures r.ArenaFull? ==> OnDisk() == old(OnDisk()) && mgr.Live == old(mgr.Live)
      ensures r.Kept? ==>
                var rec := RecordOf(key, value, r.h, expires);
                && Placeable(rec, old(OnDisk()).arena, mgr.size) && (Fits(rec) <==> |key| < TWO16)
                && OnDisk() == AfterWrite(old(OnDisk()), rec, mgr.size)
                && r.h !in old(mgr.Live) && r.h.meta == 0 && mgr.Live == old(mgr.Live)[r.h := value]
      ensures r.LogFull? ==>
                var rec := RecordOf(key, Arena.Stored(value), r.h, expires);
                && Placeable(rec, old(OnDisk()).arena, mgr.size) && mgr.Live == old(mgr.Live)
                && OnDisk() == old(OnDisk()).(arena := StoredIn(old(OnDisk()).arena, rec, mgr.size))
    {
      hide Laid, PutStep, Arena.AllOk, Arena.AllOwned, Arena.AllRead, Arena.Refuses, Arena.PutInto, Encode, Placeable, StoredIn;
      ghost var f := AsFiles();
      r := PutFiles(key, value, expires);
      PutLaid(f, AsFiles(), mgr.size, key, value, expires, r);
      KeptFits(f, AsFiles(), mgr.size, key, value, expires, r);
    }

    method PutFiles(key: Key, value: seq<Byte>, expires: Option<U32>) returns (r: PutOutcome)
      requires Valid()
      modifies mgr, log
      ensures Valid() && (old(mgr.Valid()) ==> mgr.Valid())
      ensures PutStep(old(AsFiles()), AsFiles(), mgr.size, key, value, expires, r)
      ensures r.ArenaFull? <==> Arena.Refuses(old(mgr.regions), mgr.size, value)
      ensures r.Kept? ==> r.h !in old(mgr.Live) && r.h.meta == 0
    {
      hide Arena.AllOk, Arena.AllOwned, Arena.AllRead, Arena.PrefixesKept, Arena.Filed, Arena.Refuses, Arena.Rotates,
        Arena.PutInto, Arena.Stored, Superblocks.ReservedBytes, Encode, FreesTo, WalMax, Laid, Sized;
      ghost var f := AsFiles();
      var placed := mgr.Put(value);
      if !placed.Placed? { return ArenaFull; }
      r := LogPut(key, value, placed.h, expires);
      PutBack(f.live, placed.h, Arena.Stored(value));
      if r.Kept? { ShortRecord(f, RecordOf(key, value, placed.h, expires), value, mgr.size); }
    }

    /** The second half of a put: the record, or the block back. */
    method LogPut(key: Key, value: seq<Byte>, h: Handle, expires: Option<U32>) returns (r: PutOutcome)
      requires Valid() && h in mgr.Live
      modifies mgr, log
      ensures Valid() && (old(mgr.Valid()) ==> mgr.Valid())
      ensures var f, rec := old(AsFiles()), RecordOf(key, value, h, expires);
              if LogTakes(f, rec, mgr.size) then r == Kept(h) && AsFiles() == f.(wal := f.wal + Encode(rec))
              else && r == LogFull(h) && FreesTo(f.regions, mgr.regions, h)
                   && AsFiles() == f.(regions := mgr.regions, live := f.live - {h})
    {
      hide Arena.AllOk, Arena.AllOwned, Arena.AllRead, Superblocks.ReservedBytes, Encode, Arena.Freed, Allocators.Listed, WalMax,
        Arena.DataKept, WholeLength, Partial, Sized, RecordOf;
      var at, _ := log.AppendRecord(RecordOf(key, value, h, expires));
      if at.Some? { return Kept(h); }
      var freed := mgr.Free(h);
      return LogFull(h);
    }

    /** Gives the block of a live value back; no byte on disk changes. */
    method FreeHeld(h: Handle) returns (ok: bool)
      requires Valid() && h in mgr.Live
      modifies mgr
      ensures Valid() && (old(mgr.Valid()) ==> mgr.Valid()) && ok && OnDisk() == old(OnDisk())
      ensures FreeStep(old(AsFiles()), AsFiles(), h)
    {
      hide Arena.AllOk, Arena.AllOwned, Arena.AllRead, Superblocks.ReservedBytes, Arena.Freed, Allocators.Listed;
      ok := mgr.Free(h);
    }

    /** Logs a deletion; refuses when the log is full. */
    method Delete(key: Key) returns (ok: bool)
      requires Valid()
      modifies log
      ensures Valid() && DeleteStep(old(AsFiles()), AsFiles(), mgr.size, key, ok)
      ensures OnDisk() == if ok then AfterWrite(old(OnDisk()), Del(key), mgr.size) else old(OnDisk())
    {
      hide Arena.AllOk, Arena.AllOwned, Encode;
      var at, _ := log.AppendRecord(Del(key));
      ok := at.Some?;
    }

    /** What the index needs of the disk: a slot for every checkpointed key, and a
        log that can be replayed over them. */
    ghost predicate Loadable(slots: nat)
      requires Valid()
      reads this, mgr, log
    {
      var loaded := Checkpoint.Decode(Body(OnDisk(), mgr.size));
      && (loaded.Entries? ==> |KeysOf(loaded.es)| <= slots)
      && (Base(loaded).Some? ==> Replayable(Base(loaded).value, ReadAll(log.file), slots))
    }

    /** Loads the checkpoint, if there is one, into the empty index and replays the
        log over it.  On a repaired log this is what a cold start recovers. */
    method LoadIndex(idx: HashIndex) returns (ok: bool)
      requires Valid() && idx.Valid() && idx.Contents == map[] && Loadable(|idx.keys|)
      modifies idx
      ensures idx.Valid()
      ensures LoadsAs(OnDisk(), mgr.size, if ok then Some(idx.Contents) else None)
    {
      hide Checkpoint.Decode, Superblocks.Decode, Superblocks.CheckpointMax, Replay, ReadAll, WholeLength, AddAll,
        Replayable, KeysOf, Arena.AllOk, Arena.AllOwned, Searchable, Distinct, Occupied, PowerOfTwo;
      var n := Superblocks.CheckpointMax(mgr.size);
      var body := mgr.CopyArenaTo(BODY, n);
      var loaded := Checkpoint.DecodeCheckpoint(body.value);
      assert log.file[..|log.file|] == log.file;
      match loaded
      case BadMagic =>
        ReplayTo(log.file, idx);
        ok := true;
      case Entries(es, _) =>
        AddEntries(es, idx);
        ReplayTo(log.file, idx);
        ok := true;
      case _ => ok := false;
    }

    /** Adds the entries; the index has a slot for each key. */
    method AddEntries(es: seq<Checkpoint.SnapEntry>, idx: HashIndex)
      requires idx.Valid() && idx.Contents == map[] && |KeysOf(es)| <= |idx.keys|
      modifies idx
      ensures idx.Valid() && idx.Contents == AddAll(es) && |idx.keys| == old(|idx.keys|)
    {
      hide Searchable, Distinct, Occupied, PowerOfTwo, KeysOf;
      ghost var slots := |idx.keys|;
      LoadEndsExactly(es, slots);
      for i := 0 to |es|
        invariant idx.Valid() && |idx.keys| == slots && idx.Contents == AddAll(es[..i])
      {
        assert es[..i + 1][..i] == es[..i];
        var _ := idx.Add(es[i].key, es[i].handle, es[i].expiresAt);
      }
      assert es[..|es|] == es;
    }

    /** Writes the checkpoint body, then the superblock, then empties the log.
        `crashes` are the disks a crash can leave on the way.  In a region that is
        not too small, every stored object reads as before. */
    method WriteCheckpoint(snap: seq<Checkpoint.SnapEntry>) returns (ok: bool, ghost crashes: seq<Disk>)
      requires Valid() && |snap| < TWO64
      modifies mgr`regions, log
      ensures Valid() && mgr.Live == old(mgr.Live)
      ensures old(mgr.Valid()) && mgr.size >= Superblocks.CLEAR_FROM ==> mgr.Valid()
      ensures CheckStep(old(AsFiles()), AsFiles(), mgr.size, snap, ok)
      ensures CrashesOf(old(OnDisk()), OnDisk(), mgr.size, snap, ok, crashes)
    {
      hide AfterBody, AfterSuperblock, SuperblockOk, Fitting, Arena.AllOk, Arena.AllOwned, Arena.AllRead,
        Superblocks.ReservedBytes;
      ok, crashes := WriteFiles(snap);
    }

    method WriteFiles(snap: seq<Checkpoint.SnapEntry>) returns (ok: bool, ghost crashes: seq<Disk>)
      requires Valid() && |snap| < TWO64
      modifies mgr`regions, log
      ensures Valid() && mgr.Live == old(mgr.Live)
      ensures old(mgr.Valid()) && mgr.size >= Superblocks.CLEAR_FROM ==> mgr.Valid()
      ensures mgr.regions == old(mgr.regions)[0 := old(mgr.regions)[0].(data := mgr.regions[0].data)]
      ensures CrashesOf(old(OnDisk()), OnDisk(), mgr.size, snap, ok, crashes)
    {
      hide Checkpoint.EncodeSnapshot, Superblocks.Decode, Superblocks.Encode, Arena.AllOk, Arena.AllOwned, Arena.AllRead, Overwrite,
        Superblocks.CheckpointMax, Superblocks.ReservedBytes, Allocators.Align8, WalMax, WholeLength, Laid;
      mgr.PersistenceFits();
      ghost var d := OnDisk();
      ok, crashes := false, [d];
      var n := Superblocks.CheckpointMax(mgr.size);
      var buf := new Byte[n];
      var len := Checkpoint.EncodeCheckpoint(buf, snap);
      if len.None? { return; }
      var written := mgr.CopyToArena(BODY, buf[..len.value]);
      ghost var d1 := OnDisk();
      crashes := [d, d1];
      var front := mgr.CopyArenaTo(0, BODY);
      var sb := Superblocks.Decode(front.value);
      if !sb.Ok? { return; }
      written := mgr.CopyToArena(0, Superblocks.Encode(sb.sb.(checkpointCount := |snap|, walOffset := 0)));
      ghost var d2 := OnDisk();
      log.Rotate();
      ok, crashes := true, [d, d1, d2, OnDisk()];
    }

    /** Checkpoints the index.  Wherever a crash strikes, a restart finds the
        handles the index had. */
    method CheckpointIndex(idx: HashIndex) returns (ok: bool, ghost crashes: seq<Disk>, snap: seq<Checkpoint.SnapEntry>)
      requires Valid() && idx.Valid() && |idx.keys| < TWO64 && OneByteMeta(idx.Contents)
      requires Finds(OnDisk(), mgr.size, Handles(idx.Contents))
      modifies mgr`regions, log
      ensures Valid() && mgr.Live == old(mgr.Live)
      ensures old(mgr.Valid()) && mgr.size >= Superblocks.CLEAR_FROM ==> mgr.Valid()
      ensures CheckStep(old(AsFiles()), AsFiles(), mgr.size, snap, ok)
      ensures forall i :: 0 <= i < |crashes| ==> Finds(crashes[i], mgr.size, Handles(idx.Contents))
      ensures Finds(OnDisk(), mgr.size, Handles(idx.Contents))
      ensures IsSnapshot(snap, idx.Contents) && (ok <==> Fitting(snap, mgr.size))
      ensures log.file == if ok then [] else old(log.file)
      ensures ok ==> SuperblockOk(OnDisk(), mgr.size)
                     && SuperblockOf(OnDisk(), mgr.size).checkpointCount == |idx.Contents|
    {
      hide SuperblockOf, Finds, AfterBody, AfterSuperblock, SuperblockOk, Handles, IsSnapshot, Fitting, OneByteMeta,
        Searchable, Distinct, Occupied, PowerOfTwo, Stores, Arena.AllOk, Arena.AllOwned, Arena.AllRead, CheckStep;
      snap := idx.Snapshot();
      ghost var m := idx.Contents;
      if Fitting(snap, mgr.size) { CheckpointSafe(OnDisk(), mgr.size, m, snap); }
      ghost var f := AsFiles();
      ok, crashes := WriteCheckpoint(snap);
      SnapshotSize(snap, m);
      if ok { CheckCounts(f, AsFiles(), mgr.size, snap, ok); }
    }
  }

  lemma KeptFits(f: Files, f': Files, size: U32, key: Key, value: seq<Byte>, expires: Option<U32>, o: PutOutcome)
    requires PutStep(f, f', size, key, value, expires, o)
    ensures o.Kept? ==> (Fits(RecordOf(key, value, o.h, expires)) <==> |key| < TWO16) && f'.live == f.live[o.h := value]
    ensures !o.Kept? ==> f'.live == f.live
  {
    hide Arena.AllOk, Arena.PutInto;
    if o.Kept? { ShortRecord(f, RecordOf(key, value, o.h, expires), value, size); }
  }

  // ----- Runs -----

  /** The store and its index, as a machine. */
  ghost function AsMachine(pm: PersistentManager, idx: HashIndex): Machine
    requires pm.Valid()
    reads pm, pm.mgr, pm.log, idx
  {
    Machine(pm.AsFiles(), idx.Contents)
  }

  /** The index has a free slot, so that every search in it ends, and the caller
      knows which handles are live. */
  ghost predicate Running(pm: PersistentManager, idx: HashIndex, held: set<Handle>): (b: bool)
    reads pm, pm.mgr, pm.log, idx
    ensures b ==> pm.Valid()
  {
    pm.Valid() && Roomy(idx) && held == pm.mgr.Live.Keys
  }

  ghost predicate Roomy(idx: HashIndex)
    reads idx
  {
    idx.Valid() && idx.count < |idx.keys| && 4 <= |idx.keys|
  }

  /** A new store and an empty index. */
  method NewStore(size: U32, hash: Hash) returns (pm: PersistentManager, idx: HashIndex)
    requires 2 * BODY <= size
    ensures fresh(pm) && fresh(pm.mgr) && fresh(pm.log) && fresh(idx) && pm.mgr.size == size
    ensures Running(pm, idx, {}) && idx.Contents == map[] && AsMachine(pm, idx) == Machines.Fresh(size)
  {
    hide Arena.AllOk, Arena.AllOwned, Arena.AllRead, Searchable, Distinct, Occupied, PowerOfTwo, Stores, Laid, FreshDisk, WalMax,
      Superblocks.ReservedBytes, Arena.NewRegion;
    pm := new PersistentManager.Create(size);
    idx := new HashIndex(hash, 16);
  }

  lemma {:induction false} OneEntryEach(es: seq<Checkpoint.SnapEntry>)
    requires forall i, j :: 0 <= i < j < |es| ==> es[i].key != es[j].key
    ensures |KeysOf(es)| == |es|
  {
    if es != [] {
      OneEntryEach(es[..|es| - 1]);
      Fewer(es, |es| - 1);
      assert es[..|es|] == es;
    }
  }

  /** A snapshot has as many entries as the index has keys. */
  lemma SnapshotSize(snap: seq<Checkpoint.SnapEntry>, m: Index)
    requires IsSnapshot(snap, m)
    ensures |snap| == |m|
  {
    OneEntryEach(snap);
    assert KeysOf(snap) == m.Keys;
  }

  /** The index learns of a put that was kept. */
  method Enter(idx: HashIndex, key: Key, ghost value: seq<Byte>, h: Handle, expires: Option<U32>)
    requires Roomy(idx) && h.meta == 0
    modifies idx
    ensures Roomy(idx) && idx.Contents == Apply(old(idx.Contents), RecordOf(key, value, h, expires))
    ensures |idx.Contents| <= old(|idx.Contents|) + 1
  {
    hide Searchable, Distinct, Occupied, PowerOfTwo, Stores;
    GrowsByOne(idx.Contents, RecordOf(key, value, h, expires));
    var _ := idx.Put(Some(key), h, if expires.None? then 0 else expires.value);
  }

  method Leave(idx: HashIndex, key: Key)
    requires Roomy(idx)
    modifies idx
    ensures Roomy(idx) && idx.Contents == Apply(old(idx.Contents), Del(key)) && |idx.Contents| <= old(|idx.Contents|)
  {
    hide Searchable, Distinct, Occupied, PowerOfTwo, Stores;
    GrowsByOne(idx.Contents, Del(key));
    var _, _ := idx.Delete(key);
  }

  method DoPutting(pm: PersistentManager, idx: HashIndex, held: set<Handle>, op: Op) returns (o: Outcome, held': set<Handle>)
    requires Running(pm, idx, held) && op.DoPut?
    modifies pm.mgr, pm.log, idx
    ensures Running(pm, idx, held') && Step(old(AsMachine(pm, idx)), op, o, AsMachine(pm, idx), pm.mgr.size)
    ensures |idx.Contents| <= old(|idx.Contents|) + 1
  {
    hide PutStep, Arena.AllOk, Arena.AllOwned, Arena.Refuses, AfterWrite, Placeable, StoredIn, Encode, Roomy, Apply;
    var r := pm.Put(op.key, op.value, op.expires);
    o, held' := Put(r), held;
    if r.Kept? {
      held' := held + {r.h};
      Enter(idx, op.key, op.value, r.h, op.expires);
    }
  }

  method DoDeleting(pm: PersistentManager, idx: HashIndex, held: set<Handle>, op: Op) returns (o: Outcome)
    requires Running(pm, idx, held) && op.DoDelete?
    modifies pm.log, idx
    ensures Running(pm, idx, held) && Step(old(AsMachine(pm, idx)), op, o, AsMachine(pm, idx), pm.mgr.size)
    ensures |idx.Contents| <= old(|idx.Contents|) + 1
  {
    hide DeleteStep, Arena.AllOk, Arena.AllOwned, AfterWrite, Encode, Roomy, Apply;
    var ok := pm.Delete(op.key);
    o := Deleted(ok);
    if ok { Leave(idx, op.key); }
  }

  method DoFreeing(pm: PersistentManager, idx: HashIndex, held: set<Handle>, op: Op) returns (o: Outcome, held': set<Handle>)
    requires Running(pm, idx, held) && op.DoFree?
    modifies pm.mgr
    ensures Running(pm, idx, held') && Step(old(AsMachine(pm, idx)), op, o, AsMachine(pm, idx), pm.mgr.size)
  {
    hide FreesTo, Arena.AllOk, Arena.AllOwned, Roomy;
    o, held' := Outcome.Freed, held;
    if op.h in held {
      var _ := pm.FreeHeld(op.h);
      held' := held - {op.h};
    }
  }

  method DoChecking(pm: PersistentManager, idx: HashIndex, held: set<Handle>, op: Op) returns (o: Outcome)
    requires Running(pm, idx, held) && op.DoCheckpoint? && |idx.Contents| < TWO64
    modifies pm.mgr, pm.log
    ensures Running(pm, idx, held) && Step(old(AsMachine(pm, idx)), op, o, AsMachine(pm, idx), pm.mgr.size)
  {
    hide CheckStep, CrashesOf, IsSnapshot, Arena.AllOk, Arena.AllOwned, Searchable, Distinct, Occupied, PowerOfTwo, Stores;
    var snap := idx.Snapshot();
    SnapshotSize(snap, idx.Contents);
    var ok, _ := pm.WriteCheckpoint(snap);
    o := Checked(ok, snap);
  }

  method Do(pm: PersistentManager, idx: HashIndex, held: set<Handle>, op: Op) returns (o: Outcome, held': set<Handle>)
    requires Running(pm, idx, held) && |idx.Contents| < TWO64
    modifies pm.mgr, pm.log, idx
    ensures Running(pm, idx, held') && Step(old(AsMachine(pm, idx)), op, o, AsMachine(pm, idx), pm.mgr.size)
    ensures |idx.Contents| <= old(|idx.Contents|) + 1
  {
    hide Step, Running;
    match op
    case DoPut(_, _, _) => o, held' := DoPutting(pm, idx, held, op);
    case DoDelete(_) =>
      o := DoDeleting(pm, idx, held, op);
      held' := held;
    case DoFree(_) => o, held' := DoFreeing(pm, idx, held, op);
    case DoCheckpoint =>
      o := DoChecking(pm, idx, held, op);
      held' := held;
  }

  /** Runs a store with its index: every put, deletion, free and checkpoint is done
      and comes out as `Step` says.  In a region that is not too small every value
      put and not freed then reads as it was put, and a restart finds the handles of
      the index, after every operation. */
  method Session(pm: PersistentManager, idx: HashIndex, held: set<Handle>, ops: seq<Op>)
    returns (outs: seq<Outcome>, held': set<Handle>, ghost trace: seq<Machine>)
    requires Running(pm, idx, held) && |idx.Contents| + |ops| < TWO64
    modifies pm.mgr, pm.log, idx
    ensures Running(pm, idx, held') && Machines.IsRun(trace, ops, outs, pm.mgr.size)
    ensures trace[0] == old(AsMachine(pm, idx)) && trace[|ops|] == AsMachine(pm, idx)
    ensures pm.mgr.size >= Superblocks.CLEAR_FROM && Inv(trace[0], pm.mgr.size)
            && (forall i :: 0 <= i < |ops| ==> Keyed(ops[i])) ==>
              forall i :: 0 <= i < |trace| ==> Safe(trace[i], pm.mgr.size)
  {
    hide Running, AsMachine, Step, Inv, Safe, Machines.IsRun, Keyed;
    outs, held', trace := [], held, [AsMachine(pm, idx)];
    RunStarts(trace[0], pm.mgr.size);
    for k := 0 to |ops|
      invariant Running(pm, idx, held') && |idx.Contents| + |ops| - k < TWO64
      invariant Machines.IsRun(trace, ops[..k], outs, pm.mgr.size)
      invariant trace[0] == old(AsMachine(pm, idx)) && trace[k] == AsMachine(pm, idx)
    {
      var o;
      o, held' := Do(pm, idx, held', ops[k]);
      RunGrows(trace, ops, k, outs, pm.mgr.size, o, AsMachine(pm, idx));
      outs, trace := outs + [o], trace + [AsMachine(pm, idx)];
    }
    assert ops[..|ops|] == ops;
    SafeAlong(trace, ops, outs, pm.mgr.size);
  }
}
