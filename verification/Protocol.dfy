/** The wire protocol: request frames and the streaming parser, which gives the
    same frames however the stream is cut into reads. */
module Protocol {
  import opened Bytes

  const MAGIC := 0x4848
  const HEADER := 10
  const MAX_FRAME := 0x400_0000
  const LAST_OP: Byte := 21

  datatype Frame = Frame(op: Byte, flags: Byte, key: Key, value: seq<Byte>)

  datatype Error = BadMagic | TooLarge | UnknownOp

  datatype Parsed = Got(frame: Frame, length: nat) | Short | Bad(error: Error)

  /** What the fixed part of a frame says: magic, operation, flags, key length, value length. */
  function HeadOf(work: seq<Byte>): (int, Byte, Byte, nat, nat)
    requires |work| >= HEADER
  {
    (Get16(work[0..2]), work[2], work[3], Get16(work[4..6]), Get32(work[6..10]))
  }

  /** One frame from the front of `work`. */
  function ParseIn(work: seq<Byte>): (p: Parsed)
    ensures p.Got? ==> HEADER <= p.length <= |work|
  {
    if |work| < HEADER then Short
    else
      var (magic, op, flags, k, v) := HeadOf(work);
      var total := HEADER + k + v;
      if magic != MAGIC then Bad(BadMagic) else
      if total > MAX_FRAME then Bad(TooLarge)
      else if |work| < total then Short
      else if !(1 <= op <= LAST_OP) then Bad(UnknownOp)
      else Got(Frame(op, flags, work[HEADER..HEADER + k], work[HEADER + k..total]), total)
  }

  /** Two bytes from `i` on, the low one first. */
  function Two(b: seq<Byte>, i: nat): nat
    requires i + 2 <= |b|
  {
    var low: nat, high: nat := b[i], b[i + 1];
    low + 256 * high
  }

  /** Byte by byte: what a frame is made of, when more bytes are needed, and which
      error comes when; the magic is looked at first and the operation last. */
  lemma ParseExactly(work: seq<Byte>)
    ensures |work| < 10 ==> ParseIn(work) == Short
    ensures |work| >= 10 ==>
              var k, v := Two(work, 4), Two(work, 6) + 65536 * Two(work, 8);
              ParseIn(work) == (
                if work[0] != 0x48 || work[1] != 0x48 then Bad(BadMagic)
                else if 10 + k + v > 67108864 then Bad(TooLarge)
                else if |work| < 10 + k + v then Short
                else if work[2] == 0 || work[2] > 21 then Bad(UnknownOp)
                else Got(Frame(work[2], work[3], work[10..10 + k], work[10 + k..10 + k + v]), 10 + k + v))
  {
    if |work| >= 10 {
      assert Get16(work[0..2]) == Two(work, 0) && Get16(work[4..6]) == Two(work, 4);
      var v := work[6..10];
      assert v[..2] == work[6..8] && v[2..4] == work[8..10];
      assert Get32(v) == Two(work, 6) + 65536 * Two(work, 8);
      hide Get16, Get32;
    }
  }

  /** What a run of the parser yields: frames, the bytes it keeps for later, and
      the error that ended it, if any. */
  datatype Outcome = Outcome(frames: seq<Frame>, pending: seq<Byte>, error: Option<Error>)

  function Prepend(fs: seq<Frame>, o: Outcome): Outcome {
    o.(frames := fs + o.frames)
  }

  function ParseAll(stream: seq<Byte>): Outcome {
    match ParseIn(stream)
    case Short => Outcome([], stream, None)
    case Bad(e) => Outcome([], [], Some(e))
    case Got(f, n) => Prepend([f], ParseAll(stream[n..]))
  }

  // ----- Chunking does not matter -----

  /** More bytes do not change a frame or an error already seen. */
  lemma ParseStable(a: seq<Byte>, b: seq<Byte>)
    ensures !ParseIn(a).Short? ==> ParseIn(a + b) == ParseIn(a)
  {
    hide Get16, Get32;
    if |a| >= HEADER {
      SliceFront(a, b, 0, 2);
      SliceFront(a, b, 4, 6);
      SliceFront(a, b, 6, 10);
      var k, v := Get16(a[4..6]), Get32(a[6..10]);
      if |a| >= HEADER + k + v {
        SliceFront(a, b, HEADER, HEADER + k);
        SliceFront(a, b, HEADER + k, HEADER + k + v);
      }
    }
  }

  lemma PrependTwice(fs: seq<Frame>, gs: seq<Frame>, o: Outcome)
    ensures Prepend(fs, Prepend(gs, o)) == Prepend(fs + gs, o) && Prepend([], o) == o
  {
    assert fs + (gs + o.frames) == fs + gs + o.frames;
    assert [] + o.frames == o.frames;
  }

  /** Parsing a longer stream goes on where parsing its beginning stopped. */
  lemma {:induction false} ParseAllAppend(a: seq<Byte>, b: seq<Byte>)
    ensures var o := ParseAll(a);
            ParseAll(a + b) == if o.error.Some? then o else Prepend(o.frames, ParseAll(o.pending + b))
    decreases |a|
  {
    hide ParseIn, Prepend;
    ParseStable(a, b);
    match ParseIn(a)
    case Short => PrependTwice([], [], ParseAll(a + b));
    case Bad(e) =>
    case Got(f, n) =>
      ParseAllAppend(a[n..], b);
      assert (a + b)[n..] == a[n..] + b;
      var o := ParseAll(a[n..]);
      PrependFields([f], o);
      if o.error.None? { PrependTwice([f], o.frames, ParseAll(o.pending + b)); }
  }

  lemma PrependFields(fs: seq<Frame>, o: Outcome)
    ensures Prepend(fs, o).error == o.error && Prepend(fs, o).pending == o.pending
    ensures Prepend(fs, o).frames == fs + o.frames
  {
  }

  function Concat(chunks: seq<seq<Byte>>): seq<Byte> {
    if chunks == [] then [] else chunks[0] + Concat(chunks[1..])
  }

  /** Feeding chunks one after the other, up to the first error. */
  function FeedAll(pending: seq<Byte>, chunks: seq<seq<Byte>>): Outcome
    decreases |chunks|
  {
    if chunks == [] then Outcome([], pending, None)
    else
      var o := ParseAll(pending + chunks[0]);
      if o.error.Some? then o else Prepend(o.frames, FeedAll(o.pending, chunks[1..]))
  }

  /** What is left pending holds no whole frame. */
  lemma {:induction false} PendingIsShort(s: seq<Byte>)
    ensures ParseAll(s).error.None? ==> ParseAll(ParseAll(s).pending) == Outcome([], ParseAll(s).pending, None)
    decreases |s|
  {
    hide ParseIn;
    match ParseIn(s)
    case Got(f, n) => PendingIsShort(s[n..]);
    case _ =>
  }

  /** However the stream is cut, frames, pending bytes and first error are those
      of feeding it whole. */
  lemma {:induction false} ChunkingIsInvisible(pending: seq<Byte>, chunks: seq<seq<Byte>>)
    requires ParseAll(pending) == Outcome([], pending, None)
    ensures FeedAll(pending, chunks) == ParseAll(pending + Concat(chunks))
    decreases |chunks|
  {
    hide ParseAll, Prepend;
    if chunks == [] {
      assert pending + Concat([]) == pending;
    } else {
      var a, rest := pending + chunks[0], Concat(chunks[1..]);
      assert pending + Concat(chunks) == a + rest;
      ParseAllAppend(a, rest);
      var o := ParseAll(a);
      if o.error.None? {
        PendingIsShort(a);
        ChunkingIsInvisible(o.pending, chunks[1..]);
      }
    }
  }

  // ----- Encoding -----

  function EncodeHeader(op: Byte, k: nat, v: nat): (h: seq<Byte>)
    ensures |h| == HEADER
  {
    Le16(MAGIC) + [op, 0] + Le16(k) + Le32(v)
  }

  /** The bytes a request appends to its buffer. */
  function EncodeRequest(op: Byte, key: Key, value: seq<Byte>): (b: seq<Byte>)
    ensures |b| == HEADER + |key| + |value|
  {
    EncodeHeader(op, |key|, |value|) + key + value
  }

  predicate Sendable(op: Byte, key: Key, value: seq<Byte>) {
    1 <= op <= LAST_OP && |key| < TWO16 && HEADER + |key| + |value| <= MAX_FRAME
  }

  lemma HeaderBytes(op: Byte, k: nat, v: nat)
    ensures HeadOf(EncodeHeader(op, k, v)) == (MAGIC, op, 0, k % TWO16, v % TWO32)
  {
    hide Le16, Le32, Get16, Get32;
    var a, b, c := Le16(MAGIC), Le16(k), Le32(v);
    var h := EncodeHeader(op, k, v);
    assert h == a + [op, 0] + b + c;
    assert h[0..2] == a && h[4..6] == b && h[6..10] == c;
  }

  /** A frame is read off `w` when its head and its fields are those of the frame. */
  lemma ParsesFields(w: seq<Byte>, op: Byte, key: Key, value: seq<Byte>)
    requires Sendable(op, key, value) && HEADER + |key| + |value| <= |w|
    requires HeadOf(w) == (MAGIC, op, 0, |key|, |value|)
    requires w[HEADER..HEADER + |key|] == key && w[HEADER + |key|..HEADER + |key| + |value|] == value
    ensures ParseIn(w) == Got(Frame(op, 0, key, value), HEADER + |key| + |value|)
  {
    hide HeadOf;
  }

  lemma FieldsAt(h: seq<Byte>, key: Key, value: seq<Byte>, rest: seq<Byte>)
    requires |h| == HEADER
    ensures var w := h + key + value + rest;
            && HeadOf(w) == HeadOf(h)
            && w[|h|..|h| + |key|] == key && w[|h| + |key|..|h| + |key| + |value|] == value
  {
    hide HeadOf;
    assert h + key + value + rest == h + (key + value + rest);
    HeadKept(h, key + value + rest);
  }

  lemma HeadKept(h: seq<Byte>, rest: seq<Byte>)
    requires |h| == HEADER
    ensures HeadOf(h + rest) == HeadOf(h)
  {
    hide Get16, Get32;
    SliceFront(h, rest, 0, 2);
    SliceFront(h, rest, 4, 6);
    SliceFront(h, rest, 6, 10);
  }

  lemma ParsesSendable(op: Byte, key: Key, value: seq<Byte>, rest: seq<Byte>)
    requires Sendable(op, key, value)
    ensures ParseIn(EncodeRequest(op, key, value) + rest)
         == Got(Frame(op, 0, key, value), |EncodeRequest(op, key, value)|)
  {
    hide EncodeHeader, HeadOf, ParseIn;
    HeaderBytes(op, |key|, |value|);
    FieldsAt(EncodeHeader(op, |key|, |value|), key, value, rest);
    ParsesFields(EncodeRequest(op, key, value) + rest, op, key, value);
  }

  /** What the parser returns can have been sent. */
  lemma ParsedIsSendable(w: seq<Byte>)
    ensures ParseIn(w).Got? ==> var f := ParseIn(w).frame; Sendable(f.op, f.key, f.value)
  {
    hide Get16, Get32;
  }

  /** A request is parsed back, whatever follows, exactly when its operation is
      known and its lengths are within the protocol's limits. */
  lemma RequestRoundTrip(op: Byte, key: Key, value: seq<Byte>, rest: seq<Byte>)
    ensures var b := EncodeRequest(op, key, value);
            ParseIn(b + rest) == Got(Frame(op, 0, key, value), |b|) <==> Sendable(op, key, value)
  {
    hide ParseIn, EncodeRequest;
    if Sendable(op, key, value) { ParsesSendable(op, key, value, rest); }
    ParsedIsSendable(EncodeRequest(op, key, value) + rest);
  }

  /** Appends a request to `dst`, field by field, in a buffer of the size it needs. */
  method AppendRequest(dst: seq<Byte>, op: Byte, key: Key, value: seq<Byte>) returns (r: seq<Byte>)
    ensures r == dst + EncodeRequest(op, key, value)
  {
    hide EncodeHeader, EncodeRequest;
    var off := |dst|;
    var buf := new Byte[off + HEADER + |key| + |value|];
    CopyInto(buf, 0, dst);
    WriteHeader(buf, off, op, |key|, |value|);
    CopyInto(buf, off + HEADER, key);
    CopyInto(buf, off + HEADER + |key|, value);
    r := buf[..];
    assert r == dst + EncodeHeader(op, |key|, |value|) + key + value;
    Regroup(dst, op, key, value);
  }

  lemma Regroup(dst: seq<Byte>, op: Byte, key: Key, value: seq<Byte>)
    ensures dst + EncodeHeader(op, |key|, |value|) + key + value == dst + EncodeRequest(op, key, value)
  {
  }

  method WriteHeader(buf: array<Byte>, off: nat, op: Byte, k: nat, v: nat)
    requires off + HEADER <= buf.Length
    modifies buf
    ensures buf[..off + HEADER] == old(buf[..off]) + EncodeHeader(op, k, v)
  {
    hide Le16, Le32;
    CopyInto(buf, off, Le16(MAGIC));
    CopyInto(buf, off + 2, [op, 0]);
    CopyInto(buf, off + 4, Le16(k));
    CopyInto(buf, off + 6, Le32(v));
  }

  datatype Request = Request(op: Byte, key: Key, value: seq<Byte>)

  function EncodeAll(rs: seq<Request>): seq<Byte> {
    if rs == [] then [] else EncodeRequest(rs[0].op, rs[0].key, rs[0].value) + EncodeAll(rs[1..])
  }

  function FramesOf(rs: seq<Request>): (fs: seq<Frame>)
    ensures |fs| == |rs| && forall i :: 0 <= i < |rs| ==> fs[i] == Frame(rs[i].op, 0, rs[i].key, rs[i].value)
  {
    if rs == [] then [] else [Frame(rs[0].op, 0, rs[0].key, rs[0].value)] + FramesOf(rs[1..])
  }

  lemma {:induction false} ParsesRequests(rs: seq<Request>)
    requires forall i :: 0 <= i < |rs| ==> Sendable(rs[i].op, rs[i].key, rs[i].value)
    ensures ParseAll(EncodeAll(rs)) == Outcome(FramesOf(rs), [], None)
  {
    hide ParseIn, EncodeRequest;
    if rs == [] {
      NothingShort();
    } else {
      var r := rs[0];
      var b := EncodeRequest(r.op, r.key, r.value);
      ParsesSendable(r.op, r.key, r.value, EncodeAll(rs[1..]));
      assert EncodeAll(rs)[|b|..] == EncodeAll(rs[1..]);
      ParsesRequests(rs[1..]);
    }
  }

  lemma NothingShort()
    ensures ParseIn([]) == Short
  {
  }

  /** Requests sent over a stream arrive as sent, in any chunking. */
  lemma {:induction false} RequestsArrive(rs: seq<Request>, chunks: seq<seq<Byte>>)
    requires forall i :: 0 <= i < |rs| ==> Sendable(rs[i].op, rs[i].key, rs[i].value)
    requires Concat(chunks) == EncodeAll(rs)
    ensures FeedAll([], chunks) == Outcome(FramesOf(rs), [], None)
  {
    hide FeedAll, FramesOf, Concat, EncodeAll;
    assert ParseAll([]) == Outcome([], [], None) by { NothingShort(); }
    ChunkingIsInvisible([], chunks);
    assert [] + Concat(chunks) == Concat(chunks);
    ParsesRequests(rs);
  }

  // ----- The parser -----

  class Parser {
    var pending: seq<Byte>

    constructor ()
      ensures pending == []
    {
      pending := [];
    }

    /** Parses all whole frames of the pending bytes and `buf`, and keeps the rest. */
    method Feed(buf: seq<Byte>) returns (frames: seq<Frame>, error: Option<Error>)
      modifies this
      ensures Outcome(frames, pending, error) == ParseAll(old(pending) + buf)
    {
      if |pending| == 0 {
        assert pending + buf == buf;
        var work;
        frames, work, error := ParseLoop(buf);
        if error.Some? {
          pending := [];
        } else if |work| > 0 {
          pending := work;
        }
      } else {
        pending := pending + buf;
        var work;
        frames, work, error := ParseLoop(pending);
        pending := if error.Some? then [] else work;
      }
    }

    method ParseLoop(stream: seq<Byte>) returns (frames: seq<Frame>, work: seq<Byte>, error: Option<Error>)
      ensures error.None? ==> ParseAll(stream) == Outcome(frames, work, None)
      ensures error.Some? ==> ParseAll(stream) == Outcome(frames, [], error)
    {
      hide ParseIn;
      frames, work, error := [], stream, None;
      while true
        invariant ParseAll(stream) == Prepend(frames, ParseAll(work)) && error.None?
        decreases |work|
      {
        var p := ParseIn(work);
        if p.Short? { return; }
        if p.Bad? { return frames, [], Some(p.error); }
        PrependTwice(frames, [p.frame], ParseAll(work[p.length..]));
        work := work[p.length..];
        frames := frames + [p.frame];
      }
    }
  }
}
