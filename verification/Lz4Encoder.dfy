/** The greedy match finder and the block writer, for an arbitrary hash. */
module Lz4Encoder {
  import opened Bytes
  import opened Lz4Format
  import opened Lz4Decoder

  const MAX_INPUT := 0x7E00_0000
  const HASH_SIZE := 0x1_0000
  const LAST_LITERALS := 5
  const WINDOW := 0x1_0000
  /** No match search starts this close to the end. */
  const MARGIN := LAST_LITERALS + MIN_MATCH

  // ----- The parse the match finder makes -----

  function MatchLength(src: seq<Byte>, ref: nat, cur: nat): (n: nat)
    requires ref < cur <= |src|
    ensures cur + n <= |src|
    decreases |src| - cur
  {
    if cur < |src| && src[ref] == src[cur] then 1 + MatchLength(src, ref + 1, cur + 1) else 0
  }

  /** The match is a match, and it is as long as it can be. */
  lemma {:induction false} MatchIsMaximal(src: seq<Byte>, ref: nat, cur: nat)
    requires ref < cur <= |src|
    ensures var n := MatchLength(src, ref, cur);
            && (forall i :: cur <= i < cur + n ==> src[i] == src[i - (cur - ref)])
            && (cur + n < |src| ==> src[cur + n] != src[ref + n])
    decreases |src| - cur
  {
    if cur < |src| && src[ref] == src[cur] {
      MatchIsMaximal(src, ref + 1, cur + 1);
    }
  }

  function Window(src: seq<Byte>, at: nat): nat
    requires at + 4 <= |src|
  {
    Get32(src[at..at + 4])
  }

  /** The match finder between two turns: the next position to look at, the
      first byte not yet written, and the hash table. */
  datatype Finder = Finder(sp: nat, anchor: nat, table: seq<nat>)

  /** A table slot holds an earlier position, or 0 for none. */
  predicate Earlier(table: seq<nat>, sp: nat) {
    |table| == HASH_SIZE && forall h :: 0 <= h < HASH_SIZE ==> table[h] == 0 || table[h] < sp
  }

  predicate Valid(src: seq<Byte>, f: Finder) {
    f.anchor <= f.sp <= |src| && Earlier(f.table, f.sp)
  }

  predicate Searching(src: seq<Byte>, f: Finder) {
    Valid(src, f) && f.sp + MARGIN <= |src|
  }

  function Slot(src: seq<Byte>, hash: nat -> nat, at: nat): (h: nat)
    requires at + 4 <= |src|
    ensures h < HASH_SIZE
  {
    hash(Window(src, at)) % HASH_SIZE
  }

  predicate Matches(src: seq<Byte>, ref: nat, sp: nat)
    requires (ref == 0 || ref < sp) && sp + 4 <= |src|
  {
    ref != 0 && sp - ref < WINDOW && Window(src, ref) == Window(src, sp)
  }

  function Candidate(src: seq<Byte>, hash: nat -> nat, f: Finder): (ref: nat)
    requires Searching(src, f)
    ensures ref == 0 || ref < f.sp
  {
    f.table[Slot(src, hash, f.sp)]
  }

  predicate Hit(src: seq<Byte>, hash: nat -> nat, f: Finder)
    requires Searching(src, f)
  {
    Matches(src, Candidate(src, hash, f), f.sp)
  }

  /** The finder after a position without a match. */
  function Skip(src: seq<Byte>, hash: nat -> nat, f: Finder): (f': Finder)
    requires Searching(src, f)
    ensures Valid(src, f') && f'.sp == f.sp + 1 && f'.anchor == f.anchor
  {
    Finder(f.sp + 1, f.anchor, f.table[Slot(src, hash, f.sp) := f.sp])
  }

  function Extra(src: seq<Byte>, ref: nat, sp: nat): (n: nat)
    requires ref < sp && sp + MIN_MATCH <= |src|
    ensures sp + MIN_MATCH + n <= |src|
  {
    MatchLength(src, ref + MIN_MATCH, sp + MIN_MATCH)
  }

  /** The finder after a match, its table refreshed from inside the match. */
  function Take(src: seq<Byte>, hash: nat -> nat, f: Finder): (f': Finder)
    requires Searching(src, f) && Hit(src, hash, f)
    ensures Valid(src, f') && f'.anchor == f'.sp == f.sp + MIN_MATCH + Extra(src, Candidate(src, hash, f), f.sp)
  {
    var sp := f.sp + MIN_MATCH + Extra(src, Candidate(src, hash, f), f.sp);
    var t := f.table[Slot(src, hash, f.sp) := f.sp];
    Finder(sp, sp, if sp + MARGIN <= |src| then t[Slot(src, hash, sp - 2) := sp - 2] else t)
  }

  function Emitted(src: seq<Byte>, hash: nat -> nat, f: Finder): (s: Sequence)
    requires Searching(src, f) && Hit(src, hash, f)
    ensures f.anchor + Advance(s) == Take(src, hash, f).anchor
  {
    var ref := Candidate(src, hash, f);
    Sequence(src[f.anchor..f.sp], f.sp - ref, Extra(src, ref, f.sp))
  }

  function Parse(src: seq<Byte>, hash: nat -> nat, f: Finder): Block
    requires Valid(src, f)
    decreases |src| - f.sp
  {
    if !Searching(src, f) then Block([], src[f.anchor..])
    else if !Hit(src, hash, f) then Parse(src, hash, Skip(src, hash, f))
    else Prepend([Emitted(src, hash, f)], Parse(src, hash, Take(src, hash, f)))
  }

  function Prepend(done: seq<Sequence>, b: Block): Block {
    Block(done + b.sequences, b.last)
  }

  function Start(): (f: Finder)
    ensures forall src :: Valid(src, f)
  {
    Finder(0, 0, seq(HASH_SIZE, _ => 0))
  }

  function ParseAll(src: seq<Byte>, hash: nat -> nat): Block {
    Parse(src, hash, Start())
  }

  lemma MatchRebuilds(src: seq<Byte>, ref: nat, sp: nat)
    requires ref < sp && sp + MIN_MATCH <= |src| && Matches(src, ref, sp)
    ensures var n := MIN_MATCH + Extra(src, ref, sp);
            CopyMatch(src[..sp], sp - ref, n) == src[..sp + n]
  {
    var n := MIN_MATCH + Extra(src, ref, sp);
    Get32Injective(src[ref..ref + 4], src[sp..sp + 4]);
    MatchIsMaximal(src, ref + MIN_MATCH, sp + MIN_MATCH);
    forall i | sp <= i < sp + n
      ensures src[i] == src[i - (sp - ref)]
    {
      if i < sp + 4 {
        assert src[sp..sp + 4][i - sp] == src[ref..ref + 4][i - sp];
      }
    }
    CopyMatchRebuilds(src, sp, sp - ref, n);
  }

  /** The sequence of a match, put in front of sequences that continue behind it. */
  lemma EmittedMeans(src: seq<Byte>, hash: nat -> nat, f: Finder, rest: seq<Sequence>)
    requires Searching(src, f) && Hit(src, hash, f)
    requires WellFormed(Take(src, hash, f).anchor, rest)
    ensures var ss := [Emitted(src, hash, f)] + rest;
            && WellFormed(f.anchor, ss)
            && Expand(src[..f.anchor], ss) == Expand(src[..Take(src, hash, f).anchor], rest)
  {
    hide CopyMatch, Extra, Window, Take, Candidate;
    MatchRebuilds(src, Candidate(src, hash, f), f.sp);
    assert ([Emitted(src, hash, f)] + rest)[1..] == rest;
    assert src[..f.anchor] + src[f.anchor..f.sp] == src[..f.sp];
  }

  /** Whatever the hash, the parse from any point is well formed and means the
      rest of the input. */
  lemma {:induction false} ParseMeans(src: seq<Byte>, hash: nat -> nat, f: Finder)
    requires Valid(src, f)
    ensures var b := Parse(src, hash, f);
            && WellFormed(f.anchor, b.sequences)
            && Expand(src[..f.anchor], b.sequences) + b.last == src
    decreases |src| - f.sp
  {
    hide Expand, WellFormed, Skip, Take, Emitted, Hit;
    if !Searching(src, f) {
      NothingMeans(src, f.anchor);
    } else if !Hit(src, hash, f) {
      ParseMeans(src, hash, Skip(src, hash, f));
    } else {
      ParseMeans(src, hash, Take(src, hash, f));
      EmittedMeans(src, hash, f, Parse(src, hash, Take(src, hash, f)).sequences);
    }
  }

  lemma NothingMeans(src: seq<Byte>, anchor: nat)
    requires anchor <= |src|
    ensures WellFormed(anchor, []) && Expand(src[..anchor], []) + src[anchor..] == src
  {
  }

  /** Compressing and decoding is the identity, and the block fits the room
      that is reserved for it. */
  lemma RoundTrip(src: seq<Byte>, hash: nat -> nat)
    ensures DecodeFrom(EncodeBlock(ParseAll(src, hash)), 0, |src|, []) == Ok(src)
    ensures |EncodeBlock(ParseAll(src, hash))| <= |src| + |src| / 255 + 16
  {
    hide Parse, Expand, DecodeFrom, EncodeBlock;
    var b := ParseAll(src, hash);
    ParseMeans(src, hash, Start());
    assert src[..0] == [];
    ExpandLength([], b.sequences);
    DecodesBlock(b, |src|);
    BlockSize(b);
  }

  // ----- The writer -----

  method AppendByte(dst: array<Byte>, dp: nat, b: Byte) returns (dp': nat)
    requires dp < dst.Length
    modifies dst
    ensures dp' == dp + 1 && dst[..dp'] == old(dst[..dp]) + [b]
  {
    dst[dp] := b;
    dp' := dp + 1;
  }

  method AppendBytes(dst: array<Byte>, dp: nat, src: seq<Byte>) returns (dp': nat)
    requires dp + |src| <= dst.Length
    modifies dst
    ensures dp' == dp + |src| && dst[..dp'] == old(dst[..dp]) + src
  {
    if |src| == 0 { return dp; }
    CopyInto(dst, dp, src);
    dp' := dp + |src|;
  }

  method AppendLen(dst: array<Byte>, dp: nat, length: nat) returns (dp': nat)
    requires dp + |Extension(length)| <= dst.Length
    modifies dst
    ensures dp' == dp + |Extension(length)| && dst[..dp'] == old(dst[..dp]) + Extension(length)
  {
    var left := length;
    dp' := dp;
    while left >= 255
      invariant dp <= dp' && dp' + |Extension(left)| == dp + |Extension(length)|
      invariant dst[..dp'] + Extension(left) == old(dst[..dp]) + Extension(length)
    {
      ghost var was := dst[..dp'];
      assert was + Extension(left) == (was + [255]) + Extension(left - 255);
      dp' := AppendByte(dst, dp', 255);
      left := left - 255;
    }
    dp' := AppendByte(dst, dp', left);
  }

  method AppendTail(dst: array<Byte>, dp: nat, n: nat) returns (dp': nat)
    requires dp + |Tail(n)| <= dst.Length
    modifies dst
    ensures dp' == dp + |Tail(n)| && dst[..dp'] == old(dst[..dp]) + Tail(n)
  {
    dp' := dp;
    if n >= 15 { dp' := AppendLen(dst, dp, n - 15); }
  }

  method EmitSequence(dst: array<Byte>, dp: nat, s: Sequence) returns (dp': nat)
    requires s.offset < TWO16 && dp + |EncodeSequence(s)| <= dst.Length
    modifies dst
    ensures dp' == dp + |EncodeSequence(s)| && dst[..dp'] == old(dst[..dp]) + EncodeSequence(s)
  {
    hide Tail, Le16;
    var l, m := |s.literals|, s.extra;
    dp' := AppendByte(dst, dp, (if l >= 15 then 0xF0 else l * 16) + (if m >= 15 then 0x0F else m));
    dp' := AppendTail(dst, dp', l);
    dp' := AppendBytes(dst, dp', s.literals);
    dp' := AppendOffset(dst, dp', s.offset);
    dp' := AppendTail(dst, dp', m);
  }

  /** The offset, low byte first. */
  method AppendOffset(dst: array<Byte>, dp: nat, offset: nat) returns (dp': nat)
    requires offset < TWO16 && dp + 2 <= dst.Length
    modifies dst
    ensures dp' == dp + 2 && dst[..dp'] == old(dst[..dp]) + Le16(offset)
  {
    dp' := AppendByte(dst, dp, offset % 256);
    dp' := AppendByte(dst, dp', offset / 256);
  }

  method EmitLast(dst: array<Byte>, dp: nat, last: seq<Byte>) returns (dp': nat)
    requires dp + |EncodeLast(last)| <= dst.Length
    modifies dst
    ensures dp' == dp + |EncodeLast(last)| && dst[..dp'] == old(dst[..dp]) + EncodeLast(last)
  {
    hide Tail;
    dp' := AppendByte(dst, dp, if |last| >= 15 then 0xF0 else |last| * 16);
    dp' := AppendTail(dst, dp', |last|);
    dp' := AppendBytes(dst, dp', last);
  }

  /** Counts the matching bytes behind the first four, which already match. */
  method CountMatch(src: seq<Byte>, from: nat, sp: nat) returns (n: nat)
    requires from < sp && sp + MIN_MATCH <= |src|
    ensures n == Extra(src, from, sp)
  {
    var ref, cur := from + MIN_MATCH, sp + MIN_MATCH;
    n := 0;
    while cur + n < |src| && ref + n < |src| && src[ref + n] == src[cur + n]
      invariant cur + n <= |src|
      invariant MatchLength(src, ref, cur) == n + MatchLength(src, ref + n, cur + n)
    {
      n := n + 1;
    }
  }

  /** `done` is what has been written when the finder is at `f`. */
  predicate Written(src: seq<Byte>, hash: nat -> nat, done: seq<Sequence>, f: Finder) {
    Valid(src, f) && AdvanceAll(done) == f.anchor && ParseAll(src, hash) == Prepend(done, Parse(src, hash, f))
  }

  lemma WrittenStart(src: seq<Byte>, hash: nat -> nat)
    ensures Written(src, hash, [], Start())
  {
    var b := Parse(src, hash, Start());
    assert [] + b.sequences == b.sequences;
  }

  lemma WrittenSkip(src: seq<Byte>, hash: nat -> nat, done: seq<Sequence>, f: Finder)
    requires Searching(src, f) && Written(src, hash, done, f) && !Hit(src, hash, f)
    ensures Written(src, hash, done, Skip(src, hash, f))
  {
    hide Skip, Earlier, Hit;
  }

  lemma PrependTwice(done: seq<Sequence>, e: Sequence, b: Block)
    ensures Prepend(done, Prepend([e], b)) == Prepend(done + [e], b)
  {
    assert done + ([e] + b.sequences) == done + [e] + b.sequences;
  }

  lemma WrittenTake(src: seq<Byte>, hash: nat -> nat, done: seq<Sequence>, f: Finder)
    requires Searching(src, f) && Written(src, hash, done, f) && Hit(src, hash, f)
    ensures var e := Emitted(src, hash, f);
            && Written(src, hash, done + [e], Take(src, hash, f))
            && EncodeAll(done + [e]) == EncodeAll(done) + EncodeSequence(e)
            && |EncodeAll(done + [e])| <= |src| + |src| / 255
  {
    hide Take, Emitted, Earlier, Hit, EncodeSequence, EncodeAll, AdvanceAll, Prepend;
    var e := Emitted(src, hash, f);
    EncodeAllAppend(done, e);
    AdvanceAllAppend(done, e);
    SequencesSize(done + [e]);
    PrependTwice(done, e, Parse(src, hash, Take(src, hash, f)));
  }

  lemma WrittenLast(src: seq<Byte>, hash: nat -> nat, done: seq<Sequence>, f: Finder)
    requires Valid(src, f) && !Searching(src, f) && Written(src, hash, done, f)
    ensures EncodeBlock(ParseAll(src, hash)) == EncodeAll(done) + EncodeLast(src[f.anchor..])
    ensures |EncodeBlock(ParseAll(src, hash))| <= |src| + |src| / 255 + 16
  {
    hide EncodeSequence, EncodeLast, Earlier;
    assert ParseAll(src, hash) == Block(done, src[f.anchor..]);
    BlockSize(ParseAll(src, hash));
  }

  /** Looks up and replaces the table entry for the bytes at `sp`. */
  method Probe(src: seq<Byte>, hash: nat -> nat, sp: nat, anchor: nat, table: array<nat>) returns (ref: nat)
    requires Searching(src, Finder(sp, anchor, table[..]))
    modifies table
    ensures ref == old(Candidate(src, hash, Finder(sp, anchor, table[..])))
    ensures table[..] == old(table[..])[Slot(src, hash, sp) := sp]
  {
    var h := Slot(src, hash, sp);
    ref := table[h];
    table[h] := sp;
  }

  /** One turn of the loop: skip a position, or write a sequence and move past
      its match. */
  method Turn(dst: array<Byte>, at: nat, src: seq<Byte>, hash: nat -> nat, from: nat, start: nat, table: array<nat>)
    returns (dp: nat, sp: nat, anchor: nat)
    requires Searching(src, Finder(from, start, table[..]))
    requires Hit(src, hash, Finder(from, start, table[..])) ==>
               at + |EncodeSequence(Emitted(src, hash, Finder(from, start, table[..])))| <= dst.Length
    requires at <= dst.Length
    modifies dst, table
    ensures var f := old(Finder(from, start, table[..]));
            if Hit(src, hash, f) then
              && Finder(sp, anchor, table[..]) == Take(src, hash, f)
              && dp == at + |EncodeSequence(Emitted(src, hash, f))|
              && dst[..dp] == old(dst[..at]) + EncodeSequence(Emitted(src, hash, f))
            else
              && Finder(sp, anchor, table[..]) == Skip(src, hash, f)
              && dp == at && dst[..dp] == old(dst[..at])
  {
    hide EncodeSequence, Candidate, Extra, MatchLength, Slot, Window;
    ghost var f := Finder(from, start, table[..]);
    var ref := Probe(src, hash, from, start, table);
    dp, sp, anchor := at, from, start;
    if !Matches(src, ref, sp) {
      sp := sp + 1;
      return;
    }
    var extra := CountMatch(src, ref, sp);
    dp := EmitSequence(dst, dp, Sequence(src[anchor..sp], sp - ref, extra));
    sp := sp + MIN_MATCH + extra;
    anchor := sp;
    ghost var t: seq<int> := table[..];
    if sp + MARGIN <= |src| {
      var h := Slot(src, hash, sp - 2);
      table[h] := sp - 2;
      assert table[..] == t[h := sp - 2];
    }
  }

  /** Writes the block for `src` at `base`, or nothing for an input too short to
      hold a match.  `dst` needs only the room that the size bound promises. */
  method CompressBlock(dst: array<Byte>, base: nat, src: seq<Byte>, hash: nat -> nat) returns (n: nat)
    requires |src| <= MAX_INPUT
    requires base + |src| + |src| / 255 + 16 <= dst.Length
    modifies dst
    ensures |src| < MARGIN ==> n == 0 && dst[..base] == old(dst[..base])
    ensures |src| >= MARGIN ==>
              && n == |EncodeBlock(ParseAll(src, hash))| && base + n <= dst.Length
              && dst[..base + n] == old(dst[..base]) + EncodeBlock(ParseAll(src, hash))
  {
    hide EncodeSequence, EncodeLast, EncodeBlock, ParseAll, Hit, Take, Skip, Candidate, Extra, Earlier, Emitted, Written;
    if |src| < MARGIN { return 0; }
    var table := new nat[HASH_SIZE](_ => 0);
    var dp: nat, sp: nat, anchor: nat := base, 0, 0;
    ghost var done: seq<Sequence> := [];
    assert table[..] == seq(HASH_SIZE, _ => 0);
    WrittenStart(src, hash);
    while sp + MARGIN <= |src|
      invariant Valid(src, Finder(sp, anchor, table[..])) && Written(src, hash, done, Finder(sp, anchor, table[..]))
      invariant dp == base + |EncodeAll(done)| <= dst.Length
      invariant dst[..dp] == old(dst[..base]) + EncodeAll(done)
      decreases |src| - sp
    {
      ghost var f := Finder(sp, anchor, table[..]);
      if Hit(src, hash, f) { WrittenTake(src, hash, done, f); } else { WrittenSkip(src, hash, done, f); }
      dp, sp, anchor := Turn(dst, dp, src, hash, sp, anchor, table);
      if Hit(src, hash, f) { done := done + [Emitted(src, hash, f)]; }
    }
    WrittenLast(src, hash, done, Finder(sp, anchor, table[..]));
    dp := EmitLast(dst, dp, src[anchor..]);
    n := dp - base;
  }
}
