/** The on-disk image of the index: a header and its entries. */
module Checkpoint {
  import opened Bytes

  datatype SnapEntry = SnapEntry(hash: U64, key: Key, handle: Handle, expiresAt: U32)

  const MAGIC: seq<Byte> := [0x49, 0x44, 0x58, 0x00]
  const VERSION := 1
  const HEADER := 12
  /** Fixed part of an entry, the first four key bytes included. */
  const FIXED := 24
  const INLINE := 4

  // ----- Writing -----

  /** The key, padded to the four bytes every entry holds. */
  function Padded(key: Key): (p: seq<Byte>)
    ensures |p| == if |key| < INLINE then INLINE else |key|
    ensures key <= p
  {
    if |key| < INLINE then key + seq(INLINE - |key|, _ => 0) else key
  }

  function Fields(e: SnapEntry): (b: seq<Byte>)
    ensures |b| == FIXED - INLINE
  {
    Le64(e.hash) + Le16(|e.key|) + Le32(e.handle.offset) + Le32(e.handle.size) + [e.handle.region, e.handle.meta % 256]
  }

  function EncodeEntry(e: SnapEntry): (b: seq<Byte>)
    ensures |b| == FIXED + if |e.key| > INLINE then |e.key| - INLINE else 0
  {
    Fields(e) + Padded(e.key)
  }

  function EncodeEntries(es: seq<SnapEntry>): seq<Byte> {
    if es == [] then [] else EncodeEntry(es[0]) + EncodeEntries(es[1..])
  }

  function Preamble(count: nat): (b: seq<Byte>)
    ensures |b| == HEADER
  {
    MAGIC + Le32(VERSION) + Le32(count)
  }

  function EncodeSnapshot(es: seq<SnapEntry>): seq<Byte> {
    Preamble(|es|) + EncodeEntries(es)
  }

  /** What survives a checkpoint: the expiry and the high byte of Meta do not. */
  function Survivor(e: SnapEntry): SnapEntry {
    e.(handle := e.handle.(meta := e.handle.meta % 256), expiresAt := 0)
  }

  function Survivors(es: seq<SnapEntry>): (r: seq<SnapEntry>)
    ensures |r| == |es| && forall i :: 0 <= i < |es| ==> r[i] == Survivor(es[i])
  {
    if es == [] then [] else [Survivor(es[0])] + Survivors(es[1..])
  }

  // ----- Reading -----

  function DecodeEntry(d: seq<Byte>): (r: Option<(SnapEntry, nat)>)
    ensures r.Some? ==> FIXED <= r.value.1 <= |d|
  {
    if |d| < FIXED then None
    else
      var k := Get16(d[8..10]);
      var n := FIXED + if k > INLINE then k - INLINE else 0;
      if |d| < n then None
      else
        var h := Handle(Get32(d[10..14]), Get32(d[14..18]), d[19], d[18]);
        Some((SnapEntry(Get64(d[..8]), d[20..20 + k], h, 0), n))
  }

  function DecodeEntries(d: seq<Byte>, count: nat): Option<(seq<SnapEntry>, nat)> {
    if count == 0 then Some(([], 0))
    else match DecodeEntry(d)
      case None => None
      case Some((e, n)) =>
        match DecodeEntries(d[n..], count - 1)
        case None => None
        case Some((es, m)) => Some(([e] + es, n + m))
  }

  datatype Loaded = Entries(es: seq<SnapEntry>, consumed: nat) | TooSmall | BadMagic | BadVersion | Truncated

  function Decode(d: seq<Byte>): Loaded {
    if |d| < HEADER then TooSmall
    else if d[..4] != MAGIC then BadMagic
    else if Get32(d[4..8]) != VERSION then BadVersion
    else match DecodeEntries(d[HEADER..], Get32(d[8..12]))
      case None => Truncated
      case Some((es, n)) => Entries(es, HEADER + n)
  }

  /** Which error comes when; without one, as many entries as the header counts. */
  lemma DecodeExactly(d: seq<Byte>)
    ensures Decode(d) == TooSmall <==> |d| < 12
    ensures Decode(d) == BadMagic <==> |d| >= 12 && d[..4] != [0x49, 0x44, 0x58, 0x00]
    ensures Decode(d) == BadVersion <==> |d| >= 12 && d[..4] == [0x49, 0x44, 0x58, 0x00] && Get32(d[4..8]) != 1
    ensures Decode(d).Entries? ==> |Decode(d).es| == Get32(d[8..12]) && 12 <= Decode(d).consumed <= |d|
  {
    hide Get32, DecodeEntry;
    if |d| >= 12 { DecodeEntriesCount(d[12..], Get32(d[8..12])); }
  }

  lemma {:induction false} DecodeEntriesCount(d: seq<Byte>, count: nat)
    ensures DecodeEntries(d, count).Some? ==>
              |DecodeEntries(d, count).value.0| == count && DecodeEntries(d, count).value.1 <= |d|
    decreases count
  {
    hide DecodeEntry;
    if count > 0 && DecodeEntry(d).Some? { DecodeEntriesCount(d[DecodeEntry(d).value.1..], count - 1); }
  }

  // ----- Decoding inverts encoding -----

  lemma FieldBytes(e: SnapEntry)
    ensures var f := Fields(e);
            && f[..8] == Le64(e.hash) && f[8..10] == Le16(|e.key|)
            && f[10..14] == Le32(e.handle.offset) && f[14..18] == Le32(e.handle.size)
            && f[18] == e.handle.region && f[19] == e.handle.meta % 256
  {
    hide Le64, Le32, Le16;
    var a, b, c, d, m := Le64(e.hash), Le16(|e.key|), Le32(e.handle.offset), Le32(e.handle.size),
                         [e.handle.region, e.handle.meta % 256];
    assert Fields(e) == a + b + c + d + m;
  }

  lemma EntryBack(e: SnapEntry, rest: seq<Byte>)
    requires |e.key| < TWO16
    ensures DecodeEntry(EncodeEntry(e) + rest) == Some((Survivor(e), |EncodeEntry(e)|))
  {
    FieldBytes(e);
    hide Le64, Le32, Le16, Get64, Get32, Get16, Fields, Padded;
    var f, p, k := Fields(e), Padded(e.key), |e.key|;
    var d := EncodeEntry(e) + rest;
    assert d == f + (p + rest);
    SliceFront(f, p + rest, 0, 8);
    SliceFront(f, p + rest, 8, 10);
    SliceFront(f, p + rest, 10, 14);
    SliceFront(f, p + rest, 14, 18);
    assert d[20..20 + k] == e.key;
  }

  lemma {:induction false} EntriesBack(es: seq<SnapEntry>, rest: seq<Byte>)
    requires forall i :: 0 <= i < |es| ==> |es[i].key| < TWO16
    ensures DecodeEntries(EncodeEntries(es) + rest, |es|) == Some((Survivors(es), |EncodeEntries(es)|))
  {
    hide EncodeEntry, DecodeEntry, Survivor;
    if es != [] {
      var b, tail := EncodeEntry(es[0]), EncodeEntries(es[1..]) + rest;
      assert EncodeEntries(es) + rest == b + tail;
      EntryBack(es[0], tail);
      assert (b + tail)[|b|..] == tail;
      EntriesBack(es[1..], rest);
    }
  }

  /** A snapshot is read back, whatever stale bytes follow it, up to what a
      checkpoint does not carry. */
  lemma SnapshotBack(es: seq<SnapEntry>, rest: seq<Byte>)
    requires |es| < TWO32 && forall i :: 0 <= i < |es| ==> |es[i].key| < TWO16
    ensures Decode(EncodeSnapshot(es) + rest) == Entries(Survivors(es), |EncodeSnapshot(es)|)
  {
    hide Le32, Get32, EncodeEntries, DecodeEntries, Survivors;
    var p, body := Preamble(|es|), EncodeEntries(es) + rest;
    var d := EncodeSnapshot(es) + rest;
    assert d == p + body;
    assert p[..4] == MAGIC && p[4..8] == Le32(VERSION) && p[8..12] == Le32(|es|);
    SliceFront(p, body, 0, 4);
    SliceFront(p, body, 4, 8);
    SliceFront(p, body, 8, 12);
    assert d[HEADER..] == body;
    EntriesBack(es, rest);
  }

  predicate Carried(e: SnapEntry) {
    e.expiresAt == 0 && e.handle.meta < 256
  }

  lemma SurvivorIs(e: SnapEntry)
    ensures Survivor(e) == e <==> Carried(e)
  {
  }

  /** The round trip is exact just for entries without expiry and with a
      one-byte Meta. */
  lemma {:induction false} SnapshotExact(es: seq<SnapEntry>)
    ensures Survivors(es) == es <==> forall i :: 0 <= i < |es| ==> Carried(es[i])
  {
    hide Survivors, Survivor, Carried;
    forall i | 0 <= i < |es|
      ensures Survivors(es)[i] == es[i] <==> Carried(es[i])
    {
      SurvivorIs(es[i]);
    }
  }

  // ----- The codec's loops -----

  /** Writes a snapshot; fails just when a key is too long for its length field
      or the buffer is too short. */
  method EncodeCheckpoint(buf: array<Byte>, snap: seq<SnapEntry>) returns (n: Option<nat>)
    modifies buf
    ensures n.Some? <==> HEADER <= buf.Length && KeysFit(snap, |snap|) && |EncodeSnapshot(snap)| <= buf.Length
    ensures n.Some? ==> n.value == |EncodeSnapshot(snap)| && buf[..n.value] == EncodeSnapshot(snap)
  {
    hide EncodeEntry, Preamble;
    if buf.Length < HEADER { return None; }
    CopyInto(buf, 0, Preamble(|snap|));
    var pos := HEADER;
    ghost var done: seq<Byte> := [];
    for i := 0 to |snap|
      invariant HEADER <= pos <= buf.Length && KeysFit(snap, i)
      invariant buf[..pos] == Preamble(|snap|) + done
      invariant EncodeEntries(snap) == done + EncodeEntries(snap[i..])
    {
      var e := snap[i];
      assert EncodeEntries(snap[i..]) == EncodeEntry(e) + EncodeEntries(snap[i + 1..]);
      if |e.key| > 0xFFFF { return None; }
      var size := FIXED + if |e.key| > INLINE then |e.key| - INLINE else 0;
      if pos + size > buf.Length { return None; }
      WriteEntry(buf, pos, e);
      done := done + EncodeEntry(e);
      pos := pos + size;
    }
    assert EncodeEntries(snap[|snap|..]) == [];
    return Some(pos);
  }

  predicate KeysFit(snap: seq<SnapEntry>, n: nat) {
    forall i :: 0 <= i < n && i < |snap| ==> |snap[i].key| < TWO16
  }

  method WriteEntry(buf: array<Byte>, pos: nat, e: SnapEntry)
    requires pos + |EncodeEntry(e)| <= buf.Length
    modifies buf
    ensures buf[..pos + |EncodeEntry(e)|] == old(buf[..pos]) + EncodeEntry(e)
  {
    hide Fields, Padded;
    WriteFields(buf, pos, e);
    WriteKey(buf, pos + FIXED - INLINE, e.key);
  }

  method WriteFields(buf: array<Byte>, pos: nat, e: SnapEntry)
    requires pos + FIXED <= buf.Length
    modifies buf
    ensures buf[..pos + FIXED - INLINE] == old(buf[..pos]) + Fields(e)
  {
    hide Le64, Le32, Le16;
    CopyInto(buf, pos, Le64(e.hash));
    CopyInto(buf, pos + 8, Le16(|e.key|));
    CopyInto(buf, pos + 10, Le32(e.handle.offset));
    CopyInto(buf, pos + 14, Le32(e.handle.size));
    CopyInto(buf, pos + 18, [e.handle.region, e.handle.meta % 256]);
  }

  /** The first four bytes, zero-padded, then the rest. */
  method WriteKey(buf: array<Byte>, pos: nat, key: Key)
    requires pos + |Padded(key)| <= buf.Length
    modifies buf
    ensures buf[..pos + |Padded(key)|] == old(buf[..pos]) + Padded(key)
  {
    var inline := if |key| < INLINE then |key| else INLINE;
    CopyInto(buf, pos, key[..inline]);
    if |key| < INLINE {
      CopyInto(buf, pos + inline, seq(INLINE - |key|, _ => 0));
    } else if |key| > INLINE {
      CopyInto(buf, pos + inline, key[INLINE..]);
    }
  }

  method DecodeCheckpoint(buf: seq<Byte>) returns (r: Loaded)
    ensures r == Decode(buf)
  {
    hide DecodeEntry;
    if |buf| < HEADER { return TooSmall; }
    if buf[..4] != MAGIC { return BadMagic; }
    if Get32(buf[4..8]) != VERSION { return BadVersion; }
    var count, pos, out := Get32(buf[8..12]), HEADER, [];
    ghost var want := DecodeEntries(buf[HEADER..], count);
    assert buf[pos..] == buf[HEADER..];
    ContinueStart(want);
    for i := 0 to count
      invariant HEADER <= pos <= |buf|
      invariant want == Continue(out, pos - HEADER, DecodeEntries(buf[pos..], count - i))
    {
      var e := DecodeEntry(buf[pos..]);
      if e.None? { return Truncated; }
      ContinueStep(out, pos - HEADER, buf[pos..], count - i);
      assert buf[pos..][e.value.1..] == buf[pos + e.value.1..];
      out := out + [e.value.0];
      pos := pos + e.value.1;
    }
    return Entries(out, pos);
  }

  /** Entries read so far, followed by the outcome for the rest. */
  function Continue(out: seq<SnapEntry>, n: nat, rest: Option<(seq<SnapEntry>, nat)>): Option<(seq<SnapEntry>, nat)> {
    match rest case None => None case Some((es, m)) => Some((out + es, n + m))
  }

  lemma ContinueStart(rest: Option<(seq<SnapEntry>, nat)>)
    ensures Continue([], 0, rest) == rest
  {
    match rest
    case None =>
    case Some((es, m)) => assert [] + es == es;
  }

  lemma ContinueStep(out: seq<SnapEntry>, n: nat, d: seq<Byte>, count: nat)
    requires count > 0 && DecodeEntry(d).Some?
    ensures var (e, m) := DecodeEntry(d).value;
            Continue(out, n, DecodeEntries(d, count)) == Continue(out + [e], n + m, DecodeEntries(d[m..], count - 1))
  {
    hide DecodeEntry;
    var (e, m) := DecodeEntry(d).value;
    match DecodeEntries(d[m..], count - 1)
    case None =>
    case Some((es, k)) => assert out + ([e] + es) == out + [e] + es;
  }
}
