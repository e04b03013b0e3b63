/** The LZ4 block format: what a block of sequences means, the bytes it is
    written as, and how long those bytes can get. */
module Lz4Format {
  import opened Bytes

  const MIN_MATCH := 4

  /** Literals followed by a back-reference of `extra + MIN_MATCH` bytes. */
  datatype Sequence = Sequence(literals: seq<Byte>, offset: nat, extra: nat)

  /** Sequences, then the literals that end the block. */
  datatype Block = Block(sequences: seq<Sequence>, last: seq<Byte>)

  // ----- Meaning -----

  /** `len` times, append the byte that lies `offset` back; the copy may read
      bytes it wrote itself. */
  function CopyMatch(out: seq<Byte>, offset: nat, len: nat): (r: seq<Byte>)
    requires 0 < offset <= |out|
    ensures |r| == |out| + len && out <= r
    ensures forall i :: |out| <= i < |r| ==> r[i] == r[i - offset]
  {
    if len == 0 then out
    else
      var r := CopyMatch(out, offset, len - 1);
      r + [r[|r| - offset]]
  }

  function Advance(s: Sequence): nat {
    |s.literals| + MIN_MATCH + s.extra
  }

  /** Every back-reference starts inside the output produced so far. */
  predicate WellFormed(produced: nat, ss: seq<Sequence>)
    decreases ss
  {
    ss != [] ==>
      && 0 < ss[0].offset < TWO16
      && ss[0].offset <= produced + |ss[0].literals|
      && WellFormed(produced + Advance(ss[0]), ss[1..])
  }

  /** The output that `ss` turns `out` into. */
  function Expand(out: seq<Byte>, ss: seq<Sequence>): (r: seq<Byte>)
    requires WellFormed(|out|, ss)
    ensures out <= r
    decreases ss
  {
    if ss == [] then out
    else Expand(CopyMatch(out + ss[0].literals, ss[0].offset, ss[0].extra + MIN_MATCH), ss[1..])
  }

  function Meaning(b: Block): seq<Byte>
    requires WellFormed(0, b.sequences)
  {
    Expand([], b.sequences) + b.last
  }

  /** A window of `src` that repeats `offset` later is what CopyMatch rebuilds. */
  lemma {:induction false} CopyMatchRebuilds(src: seq<Byte>, at: nat, offset: nat, len: nat)
    requires 0 < offset <= at && at + len <= |src|
    requires forall i :: at <= i < at + len ==> src[i] == src[i - offset]
    ensures CopyMatch(src[..at], offset, len) == src[..at + len]
  {
    if len > 0 {
      CopyMatchRebuilds(src, at, offset, len - 1);
      assert src[..at + len] == src[..at + len - 1] + [src[at + len - 1]];
    }
  }

  // ----- Bytes -----

  /** Length bytes past a full nibble: 255s, then a byte below 255. */
  function Extension(n: nat): (r: seq<Byte>)
    ensures |r| == n / 255 + 1
  {
    if n >= 255 then [255] + Extension(n - 255) else [n]
  }

  function Nibble(n: nat): (r: nat)
    ensures r < 16
  {
    if n >= 15 then 15 else n
  }

  function Tail(n: nat): seq<Byte> {
    if n >= 15 then Extension(n - 15) else []
  }

  function EncodeSequence(s: Sequence): seq<Byte> {
    [Nibble(|s.literals|) * 16 + Nibble(s.extra)] + Tail(|s.literals|) + s.literals + Le16(s.offset) + Tail(s.extra)
  }

  function EncodeAll(ss: seq<Sequence>): seq<Byte> {
    if ss == [] then [] else EncodeSequence(ss[0]) + EncodeAll(ss[1..])
  }

  function EncodeLast(last: seq<Byte>): seq<Byte> {
    [Nibble(|last|) * 16] + Tail(|last|) + last
  }

  function EncodeBlock(b: Block): (r: seq<Byte>)
    ensures r != []
  {
    EncodeAll(b.sequences) + EncodeLast(b.last)
  }

  lemma {:induction false} EncodeAllAppend(ss: seq<Sequence>, s: Sequence)
    ensures EncodeAll(ss + [s]) == EncodeAll(ss) + EncodeSequence(s)
  {
    if ss == [] {
      assert ss + [s] == [s];
      assert EncodeAll([s]) == EncodeSequence(s) + EncodeAll([]);
    } else {
      assert (ss + [s])[1..] == ss[1..] + [s];
      EncodeAllAppend(ss[1..], s);
    }
  }

  // ----- Size -----

  function AdvanceAll(ss: seq<Sequence>): nat {
    if ss == [] then 0 else Advance(ss[0]) + AdvanceAll(ss[1..])
  }

  lemma {:induction false} AdvanceAllAppend(ss: seq<Sequence>, s: Sequence)
    ensures AdvanceAll(ss + [s]) == AdvanceAll(ss) + Advance(s)
  {
    if ss == [] {
      assert (ss + [s])[1..] == [];
    } else {
      assert (ss + [s])[1..] == ss[1..] + [s];
      AdvanceAllAppend(ss[1..], s);
    }
  }

  lemma {:induction false} ExpandLength(out: seq<Byte>, ss: seq<Sequence>)
    requires WellFormed(|out|, ss)
    ensures |Expand(out, ss)| == |out| + AdvanceAll(ss)
    decreases ss
  {
    if ss != [] {
      ExpandLength(CopyMatch(out + ss[0].literals, ss[0].offset, ss[0].extra + MIN_MATCH), ss[1..]);
    }
  }

  /** One sequence pays for its token, offset and length bytes with the four or
      more bytes its match saves; only the literal length bytes can be left over. */
  lemma SequenceSize(s: Sequence)
    ensures |EncodeSequence(s)| <= Advance(s) + Advance(s) / 255
  {
    var l, m := |s.literals|, s.extra;
    assert |Tail(m)| <= m;
    if l >= 15 {
      assert |Tail(l)| <= l / 255 + 1;
    }
    assert l / 255 <= Advance(s) / 255;
  }

  /** The amortised bound: over any number of sequences the excess stays below
      one byte in 255. */
  lemma {:induction false} SequencesSize(ss: seq<Sequence>)
    ensures |EncodeAll(ss)| <= AdvanceAll(ss) + AdvanceAll(ss) / 255
  {
    if ss != [] {
      SequenceSize(ss[0]);
      SequencesSize(ss[1..]);
    }
  }

  /** The worst case that callers reserve room for. */
  lemma BlockSize(b: Block)
    ensures |EncodeBlock(b)| <= BlockLength(b) + BlockLength(b) / 255 + 2
  {
    SequencesSize(b.sequences);
    if |b.last| >= 15 {
      assert |Tail(|b.last|)| <= |b.last| / 255 + 1;
    }
  }

  function BlockLength(b: Block): nat {
    AdvanceAll(b.sequences) + |b.last|
  }
}
