/** Cold start and the checkpoint-then-rotate protocol: what a restart recovers
    after a crash at any point, over whole runs. */
module Recovery {
  import opened Bytes
  import opened ShardIndexes
  import opened Wal
  import Allocators
  import Checkpoint
  import Superblocks

  type Index = map<Key, Entry>
  type HandleMap = map<Key, Handle>

  // ----- Replay -----

  function At(l: Location): Handle {
    Handle(l.offset, l.size, 0, l.region)
  }

  function Apply(m: Index, r: Record): Index {
    match r
    case Set(k, _, l) => m[k := Entry(At(l), 0)]
    case SetEx(k, _, l, e) => m[k := Entry(At(l), e)]
    case Del(k) => m - {k}
  }

  function Replay(m: Index, rs: seq<Record>): Index
    decreases |rs|
  {
    if rs == [] then m else Apply(Replay(m, rs[..|rs| - 1]), rs[|rs| - 1])
  }

  /** The index without expiry times. */
  function Handles(m: Index): HandleMap {
    map k | k in m :: m[k].handle
  }

  /** What the log says about `k` last: nothing, deleted, or a handle. */
  function Last(rs: seq<Record>, k: Key): Option<Option<Handle>>
    decreases |rs|
  {
    if rs == [] then None
    else
      var r := rs[|rs| - 1];
      if r.key != k then Last(rs[..|rs| - 1], k)
      else if r.Del? then Some(None) else Some(Some(At(r.at)))
  }

  function Lookup(h: HandleMap, k: Key): Option<Handle> {
    if k in h then Some(h[k]) else None
  }

  /** Replay leaves each key as the log last mentions it, and others alone. */
  lemma {:induction false} ReplayLooksUp(m: Index, rs: seq<Record>, k: Key)
    ensures Lookup(Handles(Replay(m, rs)), k)
         == match Last(rs, k) case None => Lookup(Handles(m), k) case Some(h) => h
    decreases |rs|
  {
    if rs != [] { ReplayLooksUp(m, rs[..|rs| - 1], k); }
  }

  /** What the key of `r` has after it: its handle, and expiry 0 or the record's own,
      or nothing. */
  predicate Leaves(m: Index, r: Record) {
    match r
    case Set(k, _, l) => k in m && m[k] == Entry(Handle(l.offset, l.size, 0, l.region), 0)
    case SetEx(k, _, l, e) => k in m && m[k] == Entry(Handle(l.offset, l.size, 0, l.region), e)
    case Del(k) => k !in m
  }

  /** No later record has the key of record `i`. */
  predicate LastMention(rs: seq<Record>, i: nat) {
    i < |rs| && forall j :: i < j < |rs| ==> rs[j].key != rs[i].key
  }

  /** Replay leaves each key, its expiry time included, as the last record with that
      key says. */
  lemma {:induction false} ReplayLeaves(m: Index, rs: seq<Record>, i: nat)
    requires LastMention(rs, i)
    ensures Leaves(Replay(m, rs), rs[i])
    decreases |rs|
  {
    var n := |rs| - 1;
    if i < n {
      assert LastMention(rs[..n], i);
      ReplayLeaves(m, rs[..n], i);
      assert rs[n].key != rs[i].key;
    }
  }

  /** And leaves alone the keys it does not mention. */
  lemma {:induction false} ReplayIgnores(m: Index, rs: seq<Record>, k: Key)
    requires forall i :: 0 <= i < |rs| ==> rs[i].key != k
    ensures k in Replay(m, rs) <==> k in m
    ensures k in m ==> Replay(m, rs)[k] == m[k]
    decreases |rs|
  {
    if rs != [] { ReplayIgnores(m, rs[..|rs| - 1], k); }
  }

  lemma SameHandles(a: HandleMap, b: HandleMap)
    requires forall k :: Lookup(a, k) == Lookup(b, k)
    ensures a == b
  {
    forall k
      ensures k in a <==> k in b
      ensures k in a ==> a[k] == b[k]
    {
      assert Lookup(a, k) == Lookup(b, k);
    }
  }

  /** Replaying a log over a map that already has its effect changes nothing. */
  lemma ReplayAgain(a: Index, b: Index, rs: seq<Record>)
    requires Handles(a) == Handles(Replay(b, rs))
    ensures Handles(Replay(a, rs)) == Handles(a)
  {
    hide Handles, Replay, Last;
    forall k
      ensures Lookup(Handles(Replay(a, rs)), k) == Lookup(Handles(a), k)
    {
      ReplayLooksUp(a, rs, k);
      ReplayLooksUp(b, rs, k);
    }
    SameHandles(Handles(Replay(a, rs)), Handles(a));
  }

  // ----- Snapshots -----

  /** Loading entries into an empty index; a repeated key is ignored. */
  function AddAll(es: seq<Checkpoint.SnapEntry>): Index
    decreases |es|
  {
    if es == [] then map[]
    else
      var m, e := AddAll(es[..|es| - 1]), es[|es| - 1];
      if e.key in m then m else m[e.key := Entry(e.handle, e.expiresAt)]
  }

  /** `snap` lists the index, each key once. */
  predicate IsSnapshot(snap: seq<Checkpoint.SnapEntry>, m: Index) {
    && (forall i, j :: 0 <= i < j < |snap| ==> snap[i].key != snap[j].key)
    && (forall i :: 0 <= i < |snap| ==> snap[i].key in m && m[snap[i].key] == Entry(snap[i].handle, snap[i].expiresAt))
    && (forall k :: k in m ==> HasKey(snap, k))
  }

  predicate HasKey(es: seq<Checkpoint.SnapEntry>, k: Key) {
    exists i :: 0 <= i < |es| && es[i].key == k
  }

  lemma HasKeyLast(es: seq<Checkpoint.SnapEntry>, k: Key)
    requires es != []
    ensures HasKey(es, k) <==> HasKey(es[..|es| - 1], k) || es[|es| - 1].key == k
  {
    if HasKey(es[..|es| - 1], k) {
      var i :| 0 <= i < |es| - 1 && es[..|es| - 1][i].key == k;
      assert es[i].key == k;
    }
  }

  /** With distinct keys, the loaded index has each entry's handle. */
  lemma {:induction false} AddAllHolds(es: seq<Checkpoint.SnapEntry>, k: Key)
    requires forall i, j :: 0 <= i < j < |es| ==> es[i].key != es[j].key
    ensures k in AddAll(es) <==> HasKey(es, k)
    ensures forall i :: 0 <= i < |es| && es[i].key == k ==> k in AddAll(es) && AddAll(es)[k].handle == es[i].handle
    decreases |es|
  {
    if es != [] {
      AddAllHolds(es[..|es| - 1], es[|es| - 1].key);
      AddAllHolds(es[..|es| - 1], k);
      HasKeyLast(es, k);
    }
  }

  predicate OneByteMeta(m: Index) {
    forall k :: k in m ==> m[k].handle.meta < 256
  }

  /** A checkpoint keeps the handles of an index whose Meta fits one byte. */
  lemma SurvivorsKeepHandles(snap: seq<Checkpoint.SnapEntry>, m: Index)
    requires IsSnapshot(snap, m) && OneByteMeta(m)
    ensures Handles(AddAll(Checkpoint.Survivors(snap))) == Handles(m)
  {
    hide AddAll, Checkpoint.Survivors;
    var es := Checkpoint.Survivors(snap);
    forall k
      ensures Lookup(Handles(AddAll(es)), k) == Lookup(Handles(m), k)
    {
      SurvivorLooksUp(snap, m, k);
    }
    hide Lookup, Handles;
    SameHandles(Handles(AddAll(es)), Handles(m));
  }

  lemma SurvivorLooksUp(snap: seq<Checkpoint.SnapEntry>, m: Index, k: Key)
    requires IsSnapshot(snap, m) && OneByteMeta(m)
    ensures Lookup(Handles(AddAll(Checkpoint.Survivors(snap))), k) == Lookup(Handles(m), k)
  {
    hide AddAll, Checkpoint.Survivors, IsSnapshot, OneByteMeta;
    var es := Checkpoint.Survivors(snap);
    SnapshotAt(snap, m, k);
    AddAllHolds(es, k);
    if k in m {
      var i :| 0 <= i < |snap| && snap[i].key == k;
      assert es[i] == Checkpoint.Survivor(snap[i]);
    }
  }

  /** The survivors mention the keys of the index, each with its handle. */
  lemma SnapshotAt(snap: seq<Checkpoint.SnapEntry>, m: Index, k: Key)
    requires IsSnapshot(snap, m) && OneByteMeta(m)
    ensures var es := Checkpoint.Survivors(snap); forall i, j :: 0 <= i < j < |es| ==> es[i].key != es[j].key
    ensures k in m <==> HasKey(Checkpoint.Survivors(snap), k)
    ensures k in m <==> HasKey(snap, k)
    ensures forall i :: 0 <= i < |snap| && snap[i].key == k ==> m[k].handle == snap[i].handle && snap[i].handle.meta < 256
  {
    hide Checkpoint.Survivors;
    var es := Checkpoint.Survivors(snap);
    assert forall i :: 0 <= i < |es| ==> es[i].key == snap[i].key;
    if HasKey(snap, k) {
      var i :| 0 <= i < |snap| && snap[i].key == k;
      assert es[i].key == k;
    }
  }

  // ----- The disk -----

  /** The arena file and the log file. */
  datatype Disk = Disk(arena: seq<Byte>, wal: seq<Byte>)

  const BODY := Superblocks.SUPERBLOCK_SIZE

  predicate Sized(d: Disk, regionSize: nat) {
    BODY + Superblocks.CheckpointMax(regionSize) <= |d.arena|
  }

  function Body(d: Disk, regionSize: nat): seq<Byte>
    requires Sized(d, regionSize)
  {
    d.arena[BODY..BODY + Superblocks.CheckpointMax(regionSize)]
  }

  /** The index a checkpoint body stands for; without the magic there is none yet. */
  function Base(loaded: Checkpoint.Loaded): Option<Index> {
    match loaded
    case Entries(es, _) => Some(AddAll(es))
    case BadMagic => Some(map[])
    case _ => None
  }

  predicate SuperblockOk(d: Disk, regionSize: nat)
    requires Sized(d, regionSize)
  {
    Superblocks.Decode(d.arena[..BODY]).Ok?
  }

  function SuperblockOf(d: Disk, regionSize: nat): Superblocks.Superblock
    requires Sized(d, regionSize) && SuperblockOk(d, regionSize)
  {
    Superblocks.Decode(d.arena[..BODY]).sb
  }

  /** What a cold start makes of the disk: the checkpoint, then the whole records
      of the log on top. */
  function Recover(d: Disk, regionSize: nat): Option<Index>
    requires Sized(d, regionSize)
  {
    if !SuperblockOk(d, regionSize) then None
    else match Base(Checkpoint.Decode(Body(d, regionSize)))
      case None => None
      case Some(m) => Some(Replay(m, ReadAll(d.wal[..WholeLength(d.wal)])))
  }

  /** A restart fails exactly on a bad superblock, or a checkpoint with the magic whose
      version is wrong or whose entries break off.  Without the magic there is no
      checkpoint, and the log alone counts. */
  lemma RecoverExactly(d: Disk, regionSize: nat)
    requires Sized(d, regionSize)
    ensures var l := Checkpoint.Decode(Body(d, regionSize));
            && (Recover(d, regionSize).None? <==> !SuperblockOk(d, regionSize) || l.BadVersion? || l.Truncated?)
            && (SuperblockOk(d, regionSize) && l.BadMagic? ==>
                  Recover(d, regionSize) == Some(Replay(map[], ReadAll(d.wal[..WholeLength(d.wal)]))))
  {
    hide Superblocks.Decode, Replay, ReadAll, WholeLength, Checkpoint.DecodeEntries, Get32;
  }

  /** A restart finds the handles of `want`. */
  predicate Finds(d: Disk, regionSize: nat, want: HandleMap) {
    Sized(d, regionSize) && Recover(d, regionSize).Some? && Handles(Recover(d, regionSize).value) == want
  }

  // ----- Checkpointing, step by step -----

  predicate Fitting(snap: seq<Checkpoint.SnapEntry>, regionSize: nat) {
    Checkpoint.KeysFit(snap, |snap|) && |Checkpoint.EncodeSnapshot(snap)| <= Superblocks.CheckpointMax(regionSize)
  }

  function AfterBody(d: Disk, snap: seq<Checkpoint.SnapEntry>, regionSize: nat): (d': Disk)
    requires Sized(d, regionSize) && Fitting(snap, regionSize)
    ensures Sized(d', regionSize)
  {
    d.(arena := Overwrite(d.arena, BODY, Checkpoint.EncodeSnapshot(snap)))
  }

  function AfterSuperblock(d: Disk, count: U64, regionSize: nat): (d': Disk)
    requires Sized(d, regionSize) && SuperblockOk(d, regionSize)
    ensures Sized(d', regionSize)
  {
    var sb := Superblocks.Decode(d.arena[..BODY]).sb;
    d.(arena := Overwrite(d.arena, 0, Superblocks.Encode(sb.(checkpointCount := count, walOffset := 0))))
  }

  lemma {:induction false} SnapshotCount(es: seq<Checkpoint.SnapEntry>)
    ensures |Checkpoint.EncodeEntries(es)| >= |es|
  {
    if es == [] {
    } else {
      SnapshotCount(es[1..]);
    }
  }

  lemma BodyAfterBody(d: Disk, snap: seq<Checkpoint.SnapEntry>, regionSize: nat)
    requires Sized(d, regionSize) && Fitting(snap, regionSize)
    ensures var d' := AfterBody(d, snap, regionSize);
            && d'.arena[..BODY] == d.arena[..BODY] && d'.wal == d.wal
            && Checkpoint.Decode(Body(d', regionSize)).Entries?
            && Checkpoint.Decode(Body(d', regionSize)).es == Checkpoint.Survivors(snap)
  {
    hide Checkpoint.Decode, Checkpoint.EncodeSnapshot, Checkpoint.Survivors, Superblocks.CheckpointMax;
    var b, d' := Checkpoint.EncodeSnapshot(snap), AfterBody(d, snap, regionSize);
    var n := Superblocks.CheckpointMax(regionSize);
    assert Body(d', regionSize) == b + d.arena[BODY + |b|..BODY + n] by { OverwrittenBody(d.arena, b, n); }
    assert |snap| < TWO32 by { SmallSnapshot(snap, regionSize); }
    Checkpoint.SnapshotBack(snap, d.arena[BODY + |b|..BODY + n]);
  }

  lemma OverwrittenBody(arena: seq<Byte>, b: seq<Byte>, n: nat)
    requires |b| <= n && BODY + n <= |arena|
    ensures Overwrite(arena, BODY, b)[BODY..BODY + n] == b + arena[BODY + |b|..BODY + n]
  {
    var a := Overwrite(arena, BODY, b);
    assert a[BODY..BODY + |b|] == b;
    assert a[BODY + |b|..BODY + n] == arena[BODY + |b|..BODY + n];
    assert a[BODY..BODY + n] == a[BODY..BODY + |b|] + a[BODY + |b|..BODY + n];
  }

  lemma SmallSnapshot(snap: seq<Checkpoint.SnapEntry>, regionSize: nat)
    requires Fitting(snap, regionSize)
    ensures |snap| < TWO32
  {
    SnapshotCount(snap);
  }

  lemma BodyAfterSuperblock(d: Disk, count: U64, regionSize: nat)
    requires Sized(d, regionSize) && SuperblockOk(d, regionSize)
    ensures var d' := AfterSuperblock(d, count, regionSize);
            && SuperblockOk(d', regionSize) && Body(d', regionSize) == Body(d, regionSize) && d'.wal == d.wal
            && SuperblockOf(d', regionSize) == SuperblockOf(d, regionSize).(checkpointCount := count, walOffset := 0)
  {
    var sb := Superblocks.Decode(d.arena[..BODY]).sb.(checkpointCount := count, walOffset := 0);
    assert sb.version == Superblocks.VERSION;
    Superblocks.RoundTrip(sb);
    hide Superblocks.Decode, Superblocks.Encode, Superblocks.CheckpointMax;
    var d' := AfterSuperblock(d, count, regionSize);
    var n := BODY + Superblocks.CheckpointMax(regionSize);
    assert d'.arena[..BODY] == Superblocks.Encode(sb);
    assert d'.arena[BODY..] == d.arena[BODY..];
    SubsliceFrom(d'.arena, BODY, 0, n - BODY);
    SubsliceFrom(d.arena, BODY, 0, n - BODY);
  }

  // ----- Every crash point recovers the same handles -----

  /** The body on disk: the old checkpoint, or the new one. */
  lemma CheckpointSafe(d: Disk, regionSize: nat, idx: Index, snap: seq<Checkpoint.SnapEntry>)
    requires Finds(d, regionSize, Handles(idx)) && OneByteMeta(idx)
    requires IsSnapshot(snap, idx) && Fitting(snap, regionSize) && |snap| < TWO64
    ensures var d1 := AfterBody(d, snap, regionSize);
            && Finds(d1, regionSize, Handles(idx)) && SuperblockOk(d1, regionSize)
            && var d2 := AfterSuperblock(d1, |snap|, regionSize);
               && Finds(d2, regionSize, Handles(idx))
               && Finds(d2.(wal := []), regionSize, Handles(idx))
  {
    hide Checkpoint.Decode, Body, SuperblockOk, AfterBody, AfterSuperblock, Handles, Replay, ReadAll, WholeLength,
      IsSnapshot, OneByteMeta, Fitting, AddAll, Checkpoint.Survivors, Superblocks.CheckpointMax;
    var rs := ReadAll(d.wal[..WholeLength(d.wal)]);
    var d1 := AfterBody(d, snap, regionSize);
    BodyAfterBody(d, snap, regionSize);
    SuperblockSame(d, d1, regionSize);
    SurvivorsKeepHandles(snap, idx);
    var new_ := AddAll(Checkpoint.Survivors(snap));
    var old_ := Base(Checkpoint.Decode(Body(d, regionSize))).value;
    ReplayAgain(new_, old_, rs);
    var d2 := AfterSuperblock(d1, |snap|, regionSize);
    BodyAfterSuperblock(d1, |snap|, regionSize);
    var d3 := d2.(wal := []);
    SuperblockSame(d2, d3, regionSize);
    BodySame(d2, d3, regionSize);
    EmptyLog(new_);
  }

  lemma SuperblockSame(d: Disk, d': Disk, regionSize: nat)
    requires Sized(d, regionSize) && Sized(d', regionSize) && d.arena[..BODY] == d'.arena[..BODY]
    ensures SuperblockOk(d, regionSize) == SuperblockOk(d', regionSize)
  {
  }

  lemma BodySame(d: Disk, d': Disk, regionSize: nat)
    requires Sized(d, regionSize) && Sized(d', regionSize) && d.arena == d'.arena
    ensures Body(d, regionSize) == Body(d', regionSize)
  {
  }

  lemma EmptyLog(m: Index)
    ensures WholeLength([]) == 0 && ReadAll([]) == [] && Replay(m, []) == m
  {
  }

  // ----- Whole runs -----

  /** A running store: its disk, the records in its log, the index it serves, and
      the handles its acknowledged writes add up to. */
  datatype Sys = Sys(disk: Disk, log: seq<Record>, idx: Index, want: HandleMap)

  function Want(h: HandleMap, r: Record): HandleMap {
    match r
    case Set(k, _, l) => h[k := At(l)]
    case SetEx(k, _, l, _) => h[k := At(l)]
    case Del(k) => h - {k}
  }

  predicate Good(s: Sys, regionSize: nat) {
    && s.disk.wal == EncodeAll(s.log) && AllFit(s.log)
    && Finds(s.disk, regionSize, s.want) && Handles(s.idx) == s.want && OneByteMeta(s.idx)
  }

  /** The arena may place the value of `r` where `r` says: in the first region, the
      one on file, that is a multiple of eight above the reserved prefix. */
  predicate Placeable(r: Record, arena: seq<Byte>, regionSize: nat) {
    !r.Del? && r.at.region == 0 ==>
      && Allocators.Aligned(r.at.offset) && Superblocks.ReservedBytes(regionSize) <= r.at.offset
      && r.at.offset + |r.value| <= |arena|
  }

  /** The arena file with the value of `r` stored. */
  function StoredIn(arena: seq<Byte>, r: Record, regionSize: nat): seq<Byte>
    requires Placeable(r, arena, regionSize)
  {
    if r.Del? || r.at.region != 0 then arena else Overwrite(arena, r.at.offset, r.value)
  }

  /** What a crash can leave of it: any bytes where the value goes. */
  predicate Spilled(arena: seq<Byte>, arena': seq<Byte>, r: Record, regionSize: nat)
    requires Placeable(r, arena, regionSize)
  {
    if r.Del? || r.at.region != 0 then arena' == arena
    else
      var off, end := r.at.offset, r.at.offset + |r.value|;
      |arena'| == |arena| && arena'[..off] == arena[..off] && arena'[end..] == arena[end..]
  }

  /** A write: the value into the arena, then the record onto the log. */
  function AfterWrite(d: Disk, r: Record, regionSize: nat): Disk
    requires Placeable(r, d.arena, regionSize)
  {
    Disk(StoredIn(d.arena, r, regionSize), d.wal + Encode(r))
  }

  /** A write that the log has taken. */
  predicate Writes(s: Sys, s': Sys, regionSize: nat, r: Record) {
    && Fits(r) && r.key != [] && Placeable(r, s.disk.arena, regionSize)
    && s' == Sys(AfterWrite(s.disk, r, regionSize), s.log + [r], Apply(s.idx, r), Want(s.want, r))
  }

  /** A write that the log has refused: the value is in the arena all the same. */
  predicate Refused(s: Sys, s': Sys, regionSize: nat, r: Record) {
    && Placeable(r, s.disk.arena, regionSize)
    && s' == s.(disk := s.disk.(arena := StoredIn(s.disk.arena, r, regionSize)))
  }

  /** A crash while `r` was being written, `q` bytes of its record on disk, and the
      restart: the tail is repaired and the index loaded. */
  predicate TearsAndRestarts(s: Sys, s': Sys, regionSize: nat, r: Record, q: nat) {
    && Fits(r) && r.key != [] && q <= |Encode(r)| && Sized(s.disk, regionSize)
    && Placeable(r, s.disk.arena, regionSize) && Spilled(s.disk.arena, s'.disk.arena, r, regionSize)
    && var torn := s.disk.wal + Encode(r)[..q];
       && s'.disk.wal == torn[..WholeLength(torn)]
       && Sized(s'.disk, regionSize) && Some(s'.idx) == Recover(s'.disk, regionSize)
       && s'.log == (if q == |Encode(r)| then s.log + [r] else s.log)
       && s'.want == (if q == |Encode(r)| then Want(s.want, r) else s.want)
  }

  /** A checkpoint that gets as far as `stage`: 1 the body, 2 the superblock, 3
      the emptied log.  Short of 3 the store restarts. */
  predicate Checkpoints(s: Sys, s': Sys, regionSize: nat, snap: seq<Checkpoint.SnapEntry>, stage: nat) {
    && 1 <= stage <= 3 && s'.want == s.want
    && Sized(s.disk, regionSize) && IsSnapshot(snap, s.idx) && Fitting(snap, regionSize) && |snap| < TWO64
    && var d1 := AfterBody(s.disk, snap, regionSize);
       && SuperblockOk(d1, regionSize)
       && var d2 := AfterSuperblock(d1, |snap|, regionSize);
          && (stage == 1 ==> s'.disk == d1 && s'.log == s.log && Some(s'.idx) == Recover(d1, regionSize))
          && (stage == 2 ==> s'.disk == d2 && s'.log == s.log && Some(s'.idx) == Recover(d2, regionSize))
          && (stage == 3 ==> s'.disk == d2.(wal := []) && s'.log == [] && s'.idx == s.idx)
  }

  datatype Event =
    | Write(r: Record)
    | Refuse(r: Record)
    | Tear(r: Record, q: nat)
    | Check(snap: seq<Checkpoint.SnapEntry>, stage: nat)
    | Restart

  predicate Next(s: Sys, e: Event, s': Sys, regionSize: nat) {
    match e
    case Write(r) => Writes(s, s', regionSize, r)
    case Refuse(r) => Refused(s, s', regionSize, r)
    case Tear(r, q) => TearsAndRestarts(s, s', regionSize, r, q)
    case Check(snap, stage) => Checkpoints(s, s', regionSize, snap, stage)
    case Restart => Sized(s.disk, regionSize) && Some(s'.idx) == Recover(s.disk, regionSize) && s' == s.(idx := s'.idx)
  }

  lemma WholeAll(rs: seq<Record>)
    requires AllFit(rs)
    ensures WholeLength(EncodeAll(rs)) == |EncodeAll(rs)|
  {
    hide WholeLength, EncodeAll;
    var n := |EncodeAll(rs)|;
    RepairExact(rs, n);
    KeptIsLongest(rs, n, |rs|);
    assert rs[..|rs|] == rs && EncodeAll(rs)[..n] == EncodeAll(rs);
  }

  /** Recovery from an intact log is a replay of its records. */
  lemma RecoverLog(d: Disk, regionSize: nat, rs: seq<Record>)
    requires Sized(d, regionSize) && d.wal == EncodeAll(rs) && AllFit(rs)
    requires SuperblockOk(d, regionSize) && Base(Checkpoint.Decode(Body(d, regionSize))).Some?
    ensures Recover(d, regionSize) == Some(Replay(Base(Checkpoint.Decode(Body(d, regionSize))).value, rs))
  {
    hide Checkpoint.Decode, Replay, WholeLength, ReadAll, SuperblockOk;
    WholeAll(rs);
    assert d.wal[..|d.wal|] == d.wal;
    ReadAllBack(rs);
  }

  lemma WantIsApply(m: Index, r: Record)
    ensures Handles(Apply(m, r)) == Want(Handles(m), r)
  {
  }

  // ----- Values stay clear of the checkpoint -----

  /** The superblock and the checkpoint area are what they were. */
  predicate FrontKept(a: seq<Byte>, b: seq<Byte>, regionSize: nat) {
    var n := BODY + Superblocks.CheckpointMax(regionSize);
    n <= |a| == |b| && a[..n] == b[..n]
  }

  lemma SpillKeepsFront(a: seq<Byte>, b: seq<Byte>, r: Record, regionSize: nat)
    requires regionSize >= Superblocks.CLEAR_FROM && BODY + Superblocks.CheckpointMax(regionSize) <= |a|
    requires Placeable(r, a, regionSize) && Spilled(a, b, r, regionSize)
    ensures FrontKept(a, b, regionSize)
  {
    if !r.Del? && r.at.region == 0 {
      Superblocks.ObjectsClear(regionSize);
      hide Superblocks.CheckpointMax, Superblocks.ReservedBytes;
      var n, off := BODY + Superblocks.CheckpointMax(regionSize), r.at.offset;
      assert n <= off;
      assert a[..n] == a[..off][..n] && b[..n] == b[..off][..n];
    }
  }

  lemma StoredIsSpilled(a: seq<Byte>, r: Record, regionSize: nat)
    requires Placeable(r, a, regionSize)
    ensures Spilled(a, StoredIn(a, r, regionSize), r, regionSize)
  {
  }

  lemma FrontRecovers(d: Disk, arena: seq<Byte>, regionSize: nat)
    requires Sized(d, regionSize) && FrontKept(d.arena, arena, regionSize)
    ensures var d' := d.(arena := arena);
            && Sized(d', regionSize) && Recover(d', regionSize) == Recover(d, regionSize)
            && (SuperblockOk(d', regionSize) <==> SuperblockOk(d, regionSize)) && Body(d', regionSize) == Body(d, regionSize)
  {
    hide Superblocks.CheckpointMax, Superblocks.Decode, Checkpoint.Decode, Replay, ReadAll, WholeLength;
    var n := BODY + Superblocks.CheckpointMax(regionSize);
    assert d.arena[..BODY] == d.arena[..n][..BODY] && arena[..BODY] == arena[..n][..BODY];
    assert d.arena[BODY..n] == d.arena[..n][BODY..] && arena[BODY..n] == arena[..n][BODY..];
  }

  lemma FrontKeepsGood(s: Sys, arena: seq<Byte>, regionSize: nat)
    requires Good(s, regionSize) && FrontKept(s.disk.arena, arena, regionSize)
    ensures Good(s.(disk := s.disk.(arena := arena)), regionSize)
  {
    hide Recover, Handles, EncodeAll, FrontKept;
    FrontRecovers(s.disk, arena, regionSize);
  }

  lemma WriteKeepsGood(s: Sys, s': Sys, regionSize: nat, r: Record)
    requires regionSize >= Superblocks.CLEAR_FROM && Good(s, regionSize) && Writes(s, s', regionSize, r)
    ensures Good(s', regionSize)
  {
    hide Recover, Handles, EncodeAll, FrontKept, Fits, Encode, StoredIn, Spilled, Placeable;
    var arena := StoredIn(s.disk.arena, r, regionSize);
    StoredIsSpilled(s.disk.arena, r, regionSize);
    SpillKeepsFront(s.disk.arena, arena, r, regionSize);
    FrontKeepsGood(s, arena, regionSize);
    LogKeepsGood(s.(disk := s.disk.(arena := arena)), s', regionSize, r);
  }

  lemma RefuseKeepsGood(s: Sys, s': Sys, regionSize: nat, r: Record)
    requires regionSize >= Superblocks.CLEAR_FROM && Good(s, regionSize) && Refused(s, s', regionSize, r)
    ensures Good(s', regionSize)
  {
    hide Recover, Handles, EncodeAll, FrontKept, StoredIn, Spilled, Placeable;
    StoredIsSpilled(s.disk.arena, r, regionSize);
    SpillKeepsFront(s.disk.arena, s'.disk.arena, r, regionSize);
    FrontKeepsGood(s, s'.disk.arena, regionSize);
  }

  /** The append alone. */
  predicate Logs(s: Sys, s': Sys, r: Record) {
    && Fits(r) && r.key != []
    && s' == Sys(s.disk.(wal := s.disk.wal + Encode(r)), s.log + [r], Apply(s.idx, r), Want(s.want, r))
  }

  lemma LogKeepsGood(s: Sys, s': Sys, regionSize: nat, r: Record)
    requires Good(s, regionSize) && Logs(s, s', r)
    ensures Good(s', regionSize)
  {
    hide Checkpoint.Decode, WholeLength, ReadAll, SuperblockOk, Encode, Fits, Handles, Want, EncodeAll;
    EncodeAllAppend(s.log, r);
    RecoverLog(s.disk, regionSize, s.log);
    BodySame(s.disk, s'.disk, regionSize);
    SuperblockSame(s.disk, s'.disk, regionSize);
    RecoverLog(s'.disk, regionSize, s'.log);
    var m := Recover(s.disk, regionSize).value;
    assert s'.log[..|s.log|] == s.log;
    WantIsApply(m, r);
    WantIsApply(s.idx, r);
  }

  /** One more record in the log is one more record replayed. */
  lemma LogRecovers(s: Sys, s': Sys, regionSize: nat, r: Record)
    requires Good(s, regionSize) && Logs(s, s', r)
    ensures Sized(s'.disk, regionSize)
    ensures Recover(s'.disk, regionSize) == Some(Apply(Recover(s.disk, regionSize).value, r))
  {
    hide Checkpoint.Decode, WholeLength, ReadAll, SuperblockOk, Encode, Fits, Handles, Want, EncodeAll, Apply;
    EncodeAllAppend(s.log, r);
    RecoverLog(s.disk, regionSize, s.log);
    BodySame(s.disk, s'.disk, regionSize);
    SuperblockSame(s.disk, s'.disk, regionSize);
    RecoverLog(s'.disk, regionSize, s'.log);
    assert s'.log[..|s.log|] == s.log;
  }

  lemma WriteRecovers(s: Sys, s': Sys, regionSize: nat, r: Record)
    requires regionSize >= Superblocks.CLEAR_FROM && Good(s, regionSize) && Writes(s, s', regionSize, r)
    ensures Sized(s'.disk, regionSize)
    ensures Recover(s'.disk, regionSize) == Some(Apply(Recover(s.disk, regionSize).value, r))
  {
    hide Recover, Handles, EncodeAll, FrontKept, Fits, Encode, StoredIn, Spilled, Placeable, Apply;
    var arena := StoredIn(s.disk.arena, r, regionSize);
    StoredIsSpilled(s.disk.arena, r, regionSize);
    SpillKeepsFront(s.disk.arena, arena, r, regionSize);
    FrontKeepsGood(s, arena, regionSize);
    FrontRecovers(s.disk, arena, regionSize);
    LogRecovers(s.(disk := s.disk.(arena := arena)), s', regionSize, r);
  }

  lemma RefuseRecovers(s: Sys, s': Sys, regionSize: nat, r: Record)
    requires regionSize >= Superblocks.CLEAR_FROM && Good(s, regionSize) && Refused(s, s', regionSize, r)
    ensures Sized(s'.disk, regionSize) && Recover(s'.disk, regionSize) == Recover(s.disk, regionSize)
  {
    hide Recover, Handles, EncodeAll, FrontKept, StoredIn, Spilled, Placeable;
    StoredIsSpilled(s.disk.arena, r, regionSize);
    SpillKeepsFront(s.disk.arena, s'.disk.arena, r, regionSize);
    FrontRecovers(s.disk, s'.disk.arena, regionSize);
  }

  /** What a checkpoint keeps of an index: the handles, without expiry times. */
  function Faded(m: Index): Index {
    map k | k in m :: Entry(m[k].handle, 0)
  }

  lemma {:induction false} AddAllTimeless(es: seq<Checkpoint.SnapEntry>)
    requires forall i :: 0 <= i < |es| ==> es[i].expiresAt == 0
    ensures forall k :: k in AddAll(es) ==> AddAll(es)[k].expiresAt == 0
    decreases |es|
  {
    if es != [] { AddAllTimeless(es[..|es| - 1]); }
  }

  lemma SurvivorsAreFaded(snap: seq<Checkpoint.SnapEntry>, m: Index)
    requires IsSnapshot(snap, m) && OneByteMeta(m)
    ensures AddAll(Checkpoint.Survivors(snap)) == Faded(m)
  {
    hide AddAll, Checkpoint.Survivors, IsSnapshot, OneByteMeta;
    var es := Checkpoint.Survivors(snap);
    var loaded := AddAll(es);
    SurvivorsKeepHandles(snap, m);
    AddAllTimeless(es);
    assert loaded.Keys == Handles(loaded).Keys == Handles(m).Keys == m.Keys;
    forall k | k in m
      ensures loaded[k] == Entry(m[k].handle, 0)
    {
      assert Handles(loaded)[k] == Handles(m)[k];
    }
  }

  /** A finished checkpoint recovers to the index it was taken from, without expiry
      times. */
  lemma CheckpointRecovers(d: Disk, regionSize: nat, m: Index, snap: seq<Checkpoint.SnapEntry>)
    requires Sized(d, regionSize) && SuperblockOk(d, regionSize) && OneByteMeta(m)
    requires IsSnapshot(snap, m) && Fitting(snap, regionSize) && |snap| < TWO64
    ensures var d1 := AfterBody(d, snap, regionSize);
            && SuperblockOk(d1, regionSize)
            && Recover(AfterSuperblock(d1, |snap|, regionSize).(wal := []), regionSize) == Some(Faded(m))
  {
    hide Checkpoint.Decode, Body, SuperblockOk, AfterBody, AfterSuperblock, Replay, ReadAll, WholeLength,
      IsSnapshot, OneByteMeta, Fitting, AddAll, Checkpoint.Survivors, Superblocks.CheckpointMax, Faded;
    var d1 := AfterBody(d, snap, regionSize);
    BodyAfterBody(d, snap, regionSize);
    SuperblockSame(d, d1, regionSize);
    var d2 := AfterSuperblock(d1, |snap|, regionSize);
    BodyAfterSuperblock(d1, |snap|, regionSize);
    var d3 := d2.(wal := []);
    SuperblockSame(d2, d3, regionSize);
    BodySame(d2, d3, regionSize);
    SurvivorsAreFaded(snap, m);
    EmptyLog(Faded(m));
  }

  /** After a torn append the log holds its old records, or all of them. */
  lemma TornLog(log: seq<Record>, r: Record, q: nat)
    requires AllFit(log) && Fits(r) && q <= |Encode(r)|
    ensures var torn := EncodeAll(log) + Encode(r)[..q];
            torn[..WholeLength(torn)] == EncodeAll(if q == |Encode(r)| then log + [r] else log)
  {
    hide WholeLength, EncodeAll, Encode, Fits, Kept;
    EncodeAllAppend(log, r);
    var all, p := log + [r], |EncodeAll(log)| + q;
    CutAppend(EncodeAll(log), Encode(r), p);
    RepairExact(all, p);
    KeptIsLongest(all, p, |log|);
    KeptIsLongest(all, p, |log| + 1);
    assert all[..|log|] == log && all[..|log| + 1] == all;
    assert EncodeAll(log) + Encode(r)[..q] == EncodeAll(all)[..p];
  }

  lemma LoadedMeta(m: Index, n: Index)
    requires Handles(m) == Handles(n) && OneByteMeta(n)
    ensures OneByteMeta(m)
  {
    forall k | k in m
      ensures m[k].handle.meta < 256
    {
      assert k in Handles(m) && k in Handles(n);
    }
  }

  lemma RestartKeepsGood(s: Sys, s': Sys, regionSize: nat)
    requires Good(s, regionSize) && Sized(s'.disk, regionSize)
    requires s'.disk.wal == EncodeAll(s'.log) && AllFit(s'.log)
    requires Finds(s'.disk, regionSize, s'.want) && Some(s'.idx) == Recover(s'.disk, regionSize)
    requires s'.want == s.want
    ensures Good(s', regionSize)
  {
    hide Recover, Handles, EncodeAll;
    LoadedMeta(s'.idx, s.idx);
  }

  lemma TearKeepsGood(s: Sys, s': Sys, regionSize: nat, r: Record, q: nat)
    requires regionSize >= Superblocks.CLEAR_FROM && Good(s, regionSize) && TearsAndRestarts(s, s', regionSize, r, q)
    ensures Good(s', regionSize)
  {
    hide Recover, Handles, EncodeAll, Encode, WholeLength, Fits, Want, FrontKept, Spilled, Placeable, Apply;
    TornLog(s.log, r, q);
    SpillKeepsFront(s.disk.arena, s'.disk.arena, r, regionSize);
    FrontKeepsGood(s, s'.disk.arena, regionSize);
    var mid := s.(disk := s.disk.(arena := s'.disk.arena));
    if q == |Encode(r)| {
      var end := Sys(mid.disk.(wal := mid.disk.wal + Encode(r)), s.log + [r], Apply(s.idx, r), Want(s.want, r));
      LogKeepsGood(mid, end, regionSize, r);
      EncodeAllAppend(s.log, r);
      RestartKeepsGood(end, s', regionSize);
    } else {
      RestartKeepsGood(mid, s', regionSize);
    }
  }

  lemma CheckKeepsGood(s: Sys, s': Sys, regionSize: nat, snap: seq<Checkpoint.SnapEntry>, stage: nat)
    requires Good(s, regionSize) && Checkpoints(s, s', regionSize, snap, stage)
    ensures Good(s', regionSize)
  {
    CheckpointSafe(s.disk, regionSize, s.idx, snap);
    WalKept(s.disk, snap, regionSize);
    hide Recover, Handles, EncodeAll, AfterBody, AfterSuperblock, SuperblockOk, IsSnapshot, Fitting;
    if stage < 3 {
      RestartKeepsGood(s, s', regionSize);
    } else {
      assert EncodeAll([]) == [] by { NothingLogged(); }
    }
  }

  lemma WalKept(d: Disk, snap: seq<Checkpoint.SnapEntry>, regionSize: nat)
    requires Sized(d, regionSize) && Fitting(snap, regionSize) && |snap| < TWO64
    requires SuperblockOk(AfterBody(d, snap, regionSize), regionSize)
    ensures var d1 := AfterBody(d, snap, regionSize);
            d1.wal == d.wal && AfterSuperblock(d1, |snap|, regionSize).wal == d.wal
  {
  }

  lemma NothingLogged()
    ensures EncodeAll([]) == []
  {
  }

  lemma NextKeepsGood(s: Sys, e: Event, s': Sys, regionSize: nat)
    requires regionSize >= Superblocks.CLEAR_FROM && Good(s, regionSize) && Next(s, e, s', regionSize)
    ensures Good(s', regionSize)
  {
    hide Good, Writes, Refused, TearsAndRestarts, Checkpoints;
    match e
    case Write(r) => WriteKeepsGood(s, s', regionSize, r);
    case Refuse(r) => RefuseKeepsGood(s, s', regionSize, r);
    case Tear(r, q) => TearKeepsGood(s, s', regionSize, r, q);
    case Check(snap, stage) => CheckKeepsGood(s, s', regionSize, snap, stage);
    case Restart => JustRestart(s, s', regionSize);
  }

  lemma JustRestart(s: Sys, s': Sys, regionSize: nat)
    requires Good(s, regionSize) && Next(s, Restart, s', regionSize)
    ensures Good(s', regionSize)
  {
    hide Recover, Handles, EncodeAll;
    RestartKeepsGood(s, s', regionSize);
  }

  /** Each state follows from the one before by its event. */
  ghost predicate IsRun(run: seq<Sys>, events: seq<Event>, regionSize: nat): (b: bool)
    ensures b ==> |run| == |events| + 1
  {
    |run| == |events| + 1 && forall i :: 0 <= i < |events| ==> Next(run[i], events[i], run[i + 1], regionSize)
  }

  /** Over every run of writes, refused and torn writes, checkpoints cut off
      anywhere and restarts, a cold start finds exactly the handles the writes add
      up to, although values and checkpoint share a file. */
  lemma {:induction false} RunsAreDurable(run: seq<Sys>, events: seq<Event>, regionSize: nat)
    requires regionSize >= Superblocks.CLEAR_FROM && IsRun(run, events, regionSize) && Good(run[0], regionSize)
    ensures forall i :: 0 <= i < |run| ==> Good(run[i], regionSize)
    decreases |events|
  {
    hide Good, Next;
    var n := |events|;
    if n > 0 {
      assert IsRun(run[..n], events[..n - 1], regionSize) by {
        forall i | 0 <= i < n - 1
          ensures Next(run[..n][i], events[..n - 1][i], run[..n][i + 1], regionSize)
        {
          assert Next(run[i], events[i], run[i + 1], regionSize);
        }
      }
      RunsAreDurable(run[..n], events[..n - 1], regionSize);
      assert run[..n][n - 1] == run[n - 1];
      NextKeepsGood(run[n - 1], events[n - 1], run[n], regionSize);
      forall i | 0 <= i < |run|
        ensures Good(run[i], regionSize)
      {
        if i < n { assert run[..n][i] == run[i]; }
      }
    }
  }

  // ----- A fresh store -----

  function FreshSuperblock(regionSize: U64): Superblocks.Superblock {
    var n := Superblocks.CheckpointMax(regionSize);
    Superblocks.Superblock(Superblocks.VERSION, regionSize, BODY, n, BODY + n, 0, 0)
  }

  function FreshDisk(regionSize: U64): Disk
    requires regionSize >= BODY
  {
    Disk(Superblocks.Encode(FreshSuperblock(regionSize)) + seq(regionSize - BODY, _ => 0), [])
  }

  function FreshSys(regionSize: U64): Sys
    requires regionSize >= 2 * BODY
  {
    Sys(FreshDisk(regionSize), [], map[], map[])
  }

  lemma FreshParts(regionSize: U64)
    requires regionSize >= 2 * BODY
    ensures var d := FreshDisk(regionSize);
            && Sized(d, regionSize) && SuperblockOk(d, regionSize)
            && Checkpoint.Decode(Body(d, regionSize)) == Checkpoint.BadMagic
  {
    var sb, d := FreshSuperblock(regionSize), FreshDisk(regionSize);
    Superblocks.RoundTrip(sb);
    hide Superblocks.Decode, Superblocks.Encode, Checkpoint.Decode;
    assert d.arena[..BODY] == Superblocks.Encode(sb);
    assert Body(d, regionSize)[0] == 0;
    NoMagic(Body(d, regionSize));
  }

  /** What the superblock of a new store says. */
  lemma FreshFields(regionSize: U64)
    requires regionSize >= 2 * BODY
    ensures var n := Superblocks.CheckpointMax(regionSize);
            Superblocks.Decode(FreshDisk(regionSize).arena[..BODY])
            == Superblocks.Ok(Superblocks.Superblock(1, regionSize, 4096, n, 4096 + n, 0, 0))
  {
    var sb, d := FreshSuperblock(regionSize), FreshDisk(regionSize);
    Superblocks.RoundTrip(sb);
    hide Superblocks.Decode, Superblocks.Encode, Superblocks.CheckpointMax;
    assert d.arena[..BODY] == Superblocks.Encode(sb);
  }

  /** A newly created store is a good start: it recovers to nothing. */
  lemma FreshIsGood(regionSize: U64)
    requires regionSize >= 2 * BODY
    ensures Good(FreshSys(regionSize), regionSize)
  {
    FreshParts(regionSize);
    NothingLogged();
    EmptyLog(map[]);
    assert FreshDisk(regionSize).wal == [];
    hide SuperblockOk, Checkpoint.Decode, Body, WholeLength, ReadAll, Replay, EncodeAll, FreshDisk;
  }

  lemma NoMagic(b: seq<Byte>)
    requires |b| >= Checkpoint.HEADER && b[0] == 0
    ensures Checkpoint.Decode(b) == Checkpoint.BadMagic
  {
    assert b[..4][0] == 0;
  }
}
