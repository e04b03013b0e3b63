/** The log file itself: opening with tail repair, appending, rotating and
    iterating. */
module WalLog {
  import opened Bytes
  import opened Wal

  /** The file after writing `b` at `pos`. */
  function WriteAt(file: seq<Byte>, pos: nat, b: seq<Byte>): (r: seq<Byte>)
    requires pos <= |file|
    ensures |r| >= pos + |b|
    ensures pos == |file| ==> r == file + b
  {
    file[..pos] + b + if pos + |b| < |file| then file[pos + |b|..] else []
  }

  /** The length of the record at `pos`, by its header, if it is all there. */
  method RecordAt(data: seq<Byte>, pos: nat) returns (n: Option<nat>)
    requires pos <= |data|
    ensures n == WholeRecord(data[pos..])
  {
    hide Get16, Get32, HeaderSize;
    var rem := |data| - pos;
    if rem < COMMON { return None; }
    var hdr := HeaderSize(data[pos + 4]);
    if hdr.None? || rem < hdr.value { return None; }
    SubsliceFrom(data, pos, 5, 7);
    SubsliceFrom(data, pos, 7, 11);
    var recLen := hdr.value + Get16(data[pos + 5..pos + 7]) + Get32(data[pos + 7..pos + 11]);
    if rem < recLen { return None; }
    return Some(recLen);
  }

  /** The walk over the records, by the lengths in their headers. */
  method WholeBytes(data: seq<Byte>) returns (pos: nat)
    ensures pos == WholeLength(data)
  {
    hide WholeRecord;
    pos := 0;
    while pos < |data|
      invariant pos <= |data| && WholeLength(data) == pos + WholeLength(data[pos..])
      decreases |data| - pos
    {
      var n := RecordAt(data, pos);
      if n.None? { break; }
      assert data[pos..][n.value..] == data[pos + n.value..];
      pos := pos + n.value;
    }
  }

  /** What a crash can leave of an append: the old file and part of the record. */
  predicate Partial(old_: seq<Byte>, r: Record, s: seq<Byte>) {
    exists q :: 0 <= q <= |Encode(r)| && s == old_ + Encode(r)[..q]
  }

  lemma PartialStates(f: seq<Byte>, r: Record)
    ensures Partial(f, r, f + Header(r)) && Partial(f, r, f + Header(r) + r.key)
    ensures f + Header(r) + r.key + ValueOf(r) == f + Encode(r) && Partial(f, r, f + Encode(r))
  {
    hide Header;
    var e, h, k := Encode(r), Header(r), r.key;
    assert e[..|h|] == h && e[..|h| + |k|] == h + k && e[..|e|] == e;
    assert f + (h + k) == f + h + k;
  }

  class Log {
    var file: seq<Byte>
    var off: nat
    const maxOff: nat

    predicate Valid()
      reads this
    {
      off == |file|
    }

    constructor Open(file: seq<Byte>, maxLen: nat)
      ensures Valid() && maxOff == maxLen && this.file == file[..WholeLength(file)]
    {
      this.file, off, maxOff := file, |file|, maxLen;
      new;
      RepairTail();
    }

    /** Cuts the file behind its last whole record. */
    method RepairTail()
      requires Valid()
      modifies this
      ensures Valid() && file == old(file)[..WholeLength(old(file))]
    {
      if off == 0 { return; }
      var pos := WholeBytes(file);
      if pos < |file| {
        file, off := file[..pos], pos;
      }
    }

    /** Appends one record in up to three writes. */
    method AppendRecord(r: Record) returns (at: Option<nat>, ghost crashes: seq<seq<Byte>>)
      requires Valid()
      modifies this
      ensures Valid()
      ensures at == if old(off) + |Encode(r)| > maxOff then None else Some(old(off))
      ensures file == if at.None? then old(file) else old(file) + Encode(r)
      ensures |crashes| == if at.None? then 0 else 3
      ensures forall i :: 0 <= i < |crashes| ==> Partial(old(file), r, crashes[i])
    {
      hide Header, Partial, Encode;
      var recLen := |Header(r)| + |r.key| + |ValueOf(r)|;
      if off + recLen > maxOff { return None, []; }
      PartialStates(file, r);
      file := WriteAt(file, off, Header(r));
      crashes := [file];
      var pos := off + |Header(r)|;
      if |r.key| > 0 {
        file := WriteAt(file, pos, r.key);
        pos := pos + |r.key|;
      }
      crashes := crashes + [file];
      if !r.Del? && |r.value| > 0 {
        file := WriteAt(file, pos, r.value);
        pos := pos + |r.value|;
      }
      crashes := crashes + [file];
      off := off + recLen;
      at := Some(off - recLen);
    }

    /** Empties the log after a checkpoint. */
    method Rotate()
      modifies this
      ensures Valid() && file == []
    {
      file, off := [], 0;
    }
  }

  class Iterator {
    const data: seq<Byte>
    var off: nat

    constructor (data: seq<Byte>)
      ensures this.data == data && off == 0
    {
      this.data, off := data, 0;
    }

    method Next() returns (item: Item)
      requires off <= |data|
      modifies this
      ensures item == Read(data[old(off)..])
      ensures off == old(off) + (if item.Found? then item.length else 0) <= |data|
    {
      hide Get16, Get32;
      if off >= |data| { return End; }
      var left := data[off..];
      if |left| < COMMON { return End; }
      if left[..4] != MAGIC { return Bad; }
      var op := left[4];
      var hdr := HeaderSize(op);
      if hdr.None? || |left| < hdr.value { return Bad; }
      var h, k, v := hdr.value, Get16(left[5..7]), Get32(left[7..11]);
      var recLen := h + k + v;
      if recLen > |left| { return End; }
      item := Found(Rebuild(left, h, k, v), recLen);
      off := off + recLen;
    }
  }
}
