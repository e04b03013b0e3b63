/** The write-ahead log: its record format, the repair of a torn tail, and the
    iterator that reads it back. */
module Wal {
  import opened Bytes

  /** Where a value lies in the arena. */
  datatype Location = Location(offset: U32, size: U32, region: Byte)

  datatype Record =
    | Set(key: Key, value: seq<Byte>, at: Location)
    | SetEx(key: Key, value: seq<Byte>, at: Location, expiresAt: U32)
    | Del(key: Key)

  const MAGIC: seq<Byte> := [0x57, 0x41, 0x4C, 0x00]
  const OP_SET: Byte := 1
  const OP_DEL: Byte := 2
  const OP_SETEX: Byte := 3

  /** Bytes every header has: magic, op, key length, value length. */
  const COMMON := 11

  function HeaderSize(op: Byte): Option<nat> {
    if op == OP_SET then Some(20)
    else if op == OP_SETEX then Some(24)
    else if op == OP_DEL then Some(COMMON)
    else None
  }

  function OpOf(r: Record): Byte {
    match r case Set(_, _, _) => OP_SET case SetEx(_, _, _, _) => OP_SETEX case Del(_) => OP_DEL
  }

  function ValueOf(r: Record): seq<Byte> {
    if r.Del? then [] else r.value
  }

  /** The part of a header behind the common bytes. */
  function Extra(r: Record): (x: seq<Byte>)
    ensures HeaderSize(OpOf(r)) == Some(COMMON + |x|)
  {
    match r
    case Set(_, _, at) => Le32(at.offset) + Le32(at.size) + [at.region]
    case SetEx(_, _, at, e) => Le32(at.offset) + Le32(at.size) + [at.region] + Le32(e)
    case Del(_) => []
  }

  function Header(r: Record): (h: seq<Byte>)
    ensures HeaderSize(OpOf(r)) == Some(|h|)
  {
    MAGIC + [OpOf(r)] + Le16(|r.key|) + Le32(|ValueOf(r)|) + Extra(r)
  }

  function Encode(r: Record): (b: seq<Byte>)
    ensures |b| == |Header(r)| + |r.key| + |ValueOf(r)|
  {
    Header(r) + r.key + ValueOf(r)
  }

  function EncodeAll(rs: seq<Record>): seq<Byte> {
    if rs == [] then [] else Encode(rs[0]) + EncodeAll(rs[1..])
  }

  /** Lengths that the two length fields can carry. */
  predicate Fits(r: Record) {
    |r.key| < TWO16 && |ValueOf(r)| < TWO32
  }

  // ----- Reading -----

  /** The length of the whole record at the front, by the lengths in its header;
      the magic is not looked at. */
  function WholeRecord(data: seq<Byte>): (n: Option<nat>)
    ensures n.Some? ==> COMMON <= n.value <= |data|
  {
    if |data| < COMMON then None
    else match HeaderSize(data[4])
      case None => None
      case Some(h) =>
        if |data| < h then None
        else
          var n := h + Get16(data[5..7]) + Get32(data[7..11]);
          if |data| < n then None else Some(n)
  }

  /** How far whole records reach. */
  function WholeLength(data: seq<Byte>): (n: nat)
    ensures n <= |data|
  {
    match WholeRecord(data)
    case None => 0
    case Some(n) => n + WholeLength(data[n..])
  }

  /** What the iterator finds at the front of the remaining log. */
  datatype Item = Found(record: Record, length: nat) | End | Bad

  function Read(data: seq<Byte>): Item {
    if |data| < COMMON then End
    else if data[..4] != MAGIC then Bad
    else match HeaderSize(data[4])
      case None => Bad
      case Some(h) =>
        if |data| < h then Bad
        else
          var k, v := Get16(data[5..7]), Get32(data[7..11]);
          if |data| < h + k + v then End
          else Found(Rebuild(data, h, k, v), h + k + v)
  }

  function Rebuild(data: seq<Byte>, h: nat, k: nat, v: nat): Record
    requires COMMON <= h && h + k + v <= |data| && HeaderSize(data[4]) == Some(h)
  {
    var key := data[h..h + k];
    if data[4] == OP_DEL then Del(key)
    else
      var value := data[h + k..h + k + v];
      var at := Location(Get32(data[11..15]), Get32(data[15..19]), data[19]);
      if data[4] == OP_SET then Set(key, value, at) else SetEx(key, value, at, Get32(data[20..24]))
  }

  /** Repair and iteration agree on a record whose magic is right.  Repair does not look
      at the magic; iteration stops at a wrong one, also before whole records. */
  lemma ReadOrRepair(data: seq<Byte>)
    requires |data| >= 11
    ensures data[..4] == [0x57, 0x41, 0x4C, 0x00] ==>
              if Read(data).Found? then WholeRecord(data) == Some(Read(data).length) else WholeRecord(data) == None
    ensures data[..4] != [0x57, 0x41, 0x4C, 0x00] ==> Read(data) == Bad
    ensures forall m: seq<Byte> :: |m| == 4 ==> WholeRecord(m + data[4..]) == WholeRecord(data)
  {
    hide Get16, Get32;
    forall m: seq<Byte> | |m| == 4
      ensures WholeRecord(m + data[4..]) == WholeRecord(data)
    {
      var d := m + data[4..];
      assert d[4] == data[4] && d[5..7] == data[5..7] && d[7..11] == data[7..11];
    }
  }

  /** All records up to the first that cannot be read. */
  function ReadAll(data: seq<Byte>): seq<Record> {
    match Read(data)
    case Found(r, n) => if n == 0 then [] else [r] + ReadAll(data[n..])
    case _ => []
  }

  // ----- One record -----

  lemma CommonBytes(r: Record)
    ensures var b := Encode(r);
            && b[..4] == MAGIC && b[4] == OpOf(r)
            && b[5..7] == Le16(|r.key|) && b[7..11] == Le32(|ValueOf(r)|)
  {
    hide Le16, Le32, Extra;
    var b := Encode(r);
    var l16, l32, rest := Le16(|r.key|), Le32(|ValueOf(r)|), Extra(r) + r.key + ValueOf(r);
    assert b == MAGIC + [OpOf(r)] + l16 + l32 + rest;
  }

  lemma PayloadBytes(r: Record)
    ensures var b, h := Encode(r), |Header(r)|;
            && b[COMMON..h] == Extra(r) && b[h..h + |r.key|] == r.key && b[h + |r.key|..] == ValueOf(r)
  {
    hide Le16, Le32, Extra;
    var h := Header(r);
    assert Encode(r)[..|h|] == h;
    assert h[COMMON..] == Extra(r);
    assert Encode(r)[COMMON..|h|] == Encode(r)[..|h|][COMMON..];
  }

  /** A record that has been cut short is not taken for a whole one. */
  lemma WholeCut(r: Record, q: nat)
    requires q < |Encode(r)| && Fits(r)
    ensures WholeRecord(Encode(r)[..q]) == None
  {
    CommonBytes(r);
    hide Encode, Header, Le16, Le32, Get16, Get32;
    var b, d := Encode(r), Encode(r)[..q];
    if q >= COMMON {
      assert d[4] == b[4] && d[5..7] == b[5..7] && d[7..11] == b[7..11];
    }
  }

  lemma WholeFull(r: Record, rest: seq<Byte>)
    requires Fits(r)
    ensures WholeRecord(Encode(r) + rest) == Some(|Encode(r)|)
  {
    CommonBytes(r);
    hide Encode, Header, Le16, Le32, Get16, Get32;
    var b, d := Encode(r), Encode(r) + rest;
    assert d[4] == b[4] && d[5..7] == b[5..7] && d[7..11] == b[7..11];
  }

  lemma ExtraBytes(r: Record, d: seq<Byte>)
    requires !r.Del? && |d| >= |Header(r)| && d[COMMON..|Header(r)|] == Extra(r)
    ensures Location(Get32(d[11..15]), Get32(d[15..19]), d[19]) == r.at
    ensures r.SetEx? ==> Get32(d[20..24]) == r.expiresAt
  {
    hide Le32, Get32, Header;
    var h, x := |Header(r)|, Extra(r);
    assert x[..4] == Le32(r.at.offset) && x[4..8] == Le32(r.at.size) && x[8] == r.at.region;
    Subslice(d, COMMON, h, 0, 4);
    Subslice(d, COMMON, h, 4, 8);
    if r.SetEx? {
      assert x[9..13] == Le32(r.expiresAt);
      Subslice(d, COMMON, h, 9, 13);
    }
  }

  lemma ReadsWhole(r: Record, rest: seq<Byte>)
    requires Fits(r)
    ensures Read(Encode(r) + rest) == Found(r, |Encode(r)|)
  {
    CommonBytes(r);
    PayloadBytes(r);
    hide Encode, Le16, Le32, Get16, Get32, Header, Extra;
    var b, d, h, k, v := Encode(r), Encode(r) + rest, |Header(r)|, |r.key|, |ValueOf(r)|;
    SliceFront(b, rest, 0, 4);
    SliceFront(b, rest, 5, 7);
    SliceFront(b, rest, 7, 11);
    SliceFront(b, rest, COMMON, h);
    SliceFront(b, rest, h, h + k);
    SliceFront(b, rest, h + k, h + k + v);
    if !r.Del? { ExtraBytes(r, d); }
  }

  /** Nothing the iterator returns exceeds its length fields. */
  lemma ReadFits(data: seq<Byte>)
    ensures Read(data).Found? ==> Fits(Read(data).record)
  {
    hide Get16, Get32;
  }

  /** A record reads back, whatever follows it, exactly when its lengths fit
      their fields. */
  lemma ReadsBack(r: Record, rest: seq<Byte>)
    ensures Read(Encode(r) + rest) == Found(r, |Encode(r)|) <==> Fits(r)
  {
    hide Encode, Read;
    if Fits(r) { ReadsWhole(r, rest); }
    ReadFits(Encode(r) + rest);
  }

  // ----- Whole logs -----

  predicate AllFit(rs: seq<Record>) {
    forall i :: 0 <= i < |rs| ==> Fits(rs[i])
  }

  /** How many whole records the first `p` bytes of the log hold. */
  function Kept(rs: seq<Record>, p: nat): (k: nat)
    ensures k <= |rs|
  {
    if rs == [] || p < |Encode(rs[0])| then 0 else 1 + Kept(rs[1..], p - |Encode(rs[0])|)
  }

  /** Cut anywhere, the log is repaired to its longest run of whole records. */
  lemma {:induction false} RepairExact(rs: seq<Record>, p: nat)
    requires AllFit(rs) && p <= |EncodeAll(rs)|
    ensures var d, k := EncodeAll(rs)[..p], Kept(rs, p);
            d[..WholeLength(d)] == EncodeAll(rs[..k])
  {
    hide Encode, Fits, WholeRecord;
    var d := EncodeAll(rs)[..p];
    if rs == [] {
      NothingWhole();
    } else if p < |Encode(rs[0])| {
      CutAppend(Encode(rs[0]), EncodeAll(rs[1..]), p);
      WholeCut(rs[0], p);
    } else {
      CutAppend(Encode(rs[0]), EncodeAll(rs[1..]), p);
      var q := p - |Encode(rs[0])|;
      var d' := EncodeAll(rs[1..])[..q];
      WholeFull(rs[0], d');
      RepairExact(rs[1..], q);
      assert rs[..Kept(rs, p)][1..] == rs[1..][..Kept(rs[1..], q)];
      WholeAppend(Encode(rs[0]), d');
    }
  }

  lemma WholeAppend(b: seq<Byte>, d: seq<Byte>)
    requires WholeRecord(b + d) == Some(|b|)
    ensures WholeLength(b + d) == |b| + WholeLength(d)
    ensures (b + d)[..WholeLength(b + d)] == b + d[..WholeLength(d)]
  {
    hide WholeRecord;
    assert (b + d)[|b|..] == d;
  }

  lemma NothingWhole()
    ensures WholeLength([]) == 0
  {
  }

  /** The records kept are those that end within the cut. */
  lemma {:induction false} KeptIsLongest(rs: seq<Record>, p: nat, k: nat)
    requires k <= |rs|
    ensures |EncodeAll(rs[..k])| <= p <==> k <= Kept(rs, p)
  {
    hide Encode, EncodeAll, Kept;
    Unfolded(rs, p, k);
    if k > 0 && p >= |Encode(rs[0])| { KeptIsLongest(rs[1..], p - |Encode(rs[0])|, k - 1); }
  }

  lemma Unfolded(rs: seq<Record>, p: nat, k: nat)
    requires k <= |rs|
    ensures k == 0 ==> EncodeAll(rs[..k]) == []
    ensures k > 0 ==> |EncodeAll(rs[..k])| == |Encode(rs[0])| + |EncodeAll(rs[1..][..k - 1])|
    ensures Kept(rs, p) == if rs == [] || p < |Encode(rs[0])| then 0 else 1 + Kept(rs[1..], p - |Encode(rs[0])|)
  {
    hide Encode;
    if k > 0 { assert rs[..k][1..] == rs[1..][..k - 1]; }
  }

  lemma ReadAllStep(d: seq<Byte>)
    ensures Read(d).Found? ==>
              COMMON <= Read(d).length <= |d| && ReadAll(d) == [Read(d).record] + ReadAll(d[Read(d).length..])
    ensures !Read(d).Found? ==> ReadAll(d) == []
  {
  }

  /** Iterating a log yields the appended records, in order. */
  lemma {:induction false} ReadAllBack(rs: seq<Record>)
    requires AllFit(rs)
    ensures ReadAll(EncodeAll(rs)) == rs
  {
    hide Encode, Read, Fits, ReadAll;
    if rs == [] {
      NothingRead();
    } else {
      var b := Encode(rs[0]);
      ReadsBack(rs[0], EncodeAll(rs[1..]));
      assert EncodeAll(rs)[|b|..] == EncodeAll(rs[1..]);
      ReadAllBack(rs[1..]);
      ReadAllStep(EncodeAll(rs));
    }
  }

  lemma NothingRead()
    ensures ReadAll([]) == []
  {
  }

  lemma {:induction false} EncodeAllAppend(rs: seq<Record>, r: Record)
    ensures EncodeAll(rs + [r]) == EncodeAll(rs) + Encode(r)
  {
    hide Encode;
    if rs == [] {
      assert EncodeAll([r]) == Encode(r) + EncodeAll([]);
      assert [] + [r] == [r];
    } else {
      assert (rs + [r])[1..] == rs[1..] + [r];
      EncodeAllAppend(rs[1..], r);
    }
  }

  /** Repair is stable: a repaired file has nothing more to cut, whatever bytes
      it was made from. */
  lemma {:induction false} RepairTwice(data: seq<Byte>)
    ensures var d := data[..WholeLength(data)]; WholeLength(d) == |d|
    decreases |data|
  {
    hide HeaderSize, Get16, Get32;
    match WholeRecord(data)
    case None =>
      assert data[..0] == [];
    case Some(n) =>
      var rest := data[n..];
      RepairTwice(rest);
      var d := data[..n + WholeLength(rest)];
      assert d[n..] == rest[..WholeLength(rest)];
      assert d[5..7] == data[5..7] && d[7..11] == data[7..11];
      assert WholeRecord(d) == Some(n);
  }
}
