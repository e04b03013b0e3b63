/** The block decoder: total on every byte string, blind to what the output
    buffer held before, and inverse to the format's encoding. */
module Lz4Decoder {
  import opened Bytes
  import opened Lz4Format

  datatype Result<T> = Ok(value: T) | Corrupt

  // ----- What a byte string decodes to -----

  /** The length after reading extension bytes at `sp`, and where reading
      stopped; running off the end of the input just stops. */
  function ReadLength(src: seq<Byte>, sp: nat, length: nat): (r: (nat, nat))
    requires sp <= |src|
    ensures length <= r.0 && sp <= r.1 <= |src|
    decreases |src| - sp
  {
    if sp == |src| then (length, sp)
    else if src[sp] < 255 then (length + src[sp], sp + 1)
    else ReadLength(src, sp + 1, length + 255)
  }

  function LengthAt(src: seq<Byte>, sp: nat, nibble: nat): (r: (nat, nat))
    requires sp <= |src|
    ensures nibble <= r.0 && sp <= r.1 <= |src|
  {
    if nibble == 15 then ReadLength(src, sp, 15) else (nibble, sp)
  }

  /** Decode from input position `sp` with `out` produced so far and room for
      `dn` bytes in all. */
  function DecodeFrom(src: seq<Byte>, sp: nat, dn: nat, out: seq<Byte>): (r: Result<seq<Byte>>)
    requires sp <= |src| && |out| <= dn
    ensures r.Ok? ==> out <= r.value && |r.value| <= dn
    decreases |src| - sp
  {
    if sp == |src| then Ok(out)
    else
      var (lit, sp1) := LengthAt(src, sp + 1, src[sp] / 16);
      if sp1 + lit > |src| || |out| + lit > dn then Corrupt
      else MatchFrom(src, sp, sp1 + lit, dn, out + src[sp1..sp1 + lit])
  }

  /** The part of a sequence after its literals; `token` is the position of the
      sequence's token byte. */
  function MatchFrom(src: seq<Byte>, token: nat, sp: nat, dn: nat, out: seq<Byte>): (r: Result<seq<Byte>>)
    requires token < sp <= |src| && |out| <= dn
    ensures r.Ok? ==> out <= r.value && |r.value| <= dn
    decreases |src| - sp
  {
    if sp == |src| then Ok(out)
    else if sp + 2 > |src| then Corrupt
    else
      var offset := Get16(src[sp..sp + 2]);
      if offset == 0 then Corrupt
      else
        var (m, sp1) := LengthAt(src, sp + 2, src[token] % 16);
        if |out| < offset || |out| + m + MIN_MATCH > dn then Corrupt
        else DecodeFrom(src, sp1, dn, CopyMatch(out, offset, m + MIN_MATCH))
  }

  // ----- The decoder inverts the encoding -----

  lemma {:induction false} ReadsExtension(src: seq<Byte>, sp: nat, n: nat, length: nat)
    requires sp <= |src| && Extension(n) <= src[sp..]
    ensures ReadLength(src, sp, length) == (length + n, sp + |Extension(n)|)
    decreases n
  {
    assert src[sp] == Extension(n)[0];
    if n >= 255 {
      assert Extension(n)[1..] == Extension(n - 255);
      assert src[sp..][1..] == src[sp + 1..];
      ReadsExtension(src, sp + 1, n - 255, length + 255);
    }
  }

  lemma ReadsTail(src: seq<Byte>, sp: nat, n: nat)
    requires sp <= |src| && Tail(n) <= src[sp..]
    ensures LengthAt(src, sp, Nibble(n)) == (n, sp + |Tail(n)|)
  {
    if n >= 15 { ReadsExtension(src, sp, n - 15, 15); }
  }

  /** A slice of a slice of the input. */
  lemma Piece(src: seq<Byte>, sp: nat, pre: seq<Byte>, mid: seq<Byte>, post: seq<Byte>)
    requires sp <= |src| && pre + mid + post <= src[sp..]
    ensures sp + |pre| + |mid| + |post| <= |src|
    ensures mid <= src[sp + |pre|..] && src[sp + |pre|..sp + |pre| + |mid|] == mid
  {
    var all := pre + mid + post;
    assert all[|pre|..|pre| + |mid|] == mid;
    assert src[sp..][|pre|..|pre| + |mid|] == mid;
    assert src[sp..][|pre|..] == src[sp + |pre|..];
  }

  /** Where the parts of a written sequence lie. */
  lemma {:induction false} SequenceParts(src: seq<Byte>, sp: nat, s: Sequence)
    requires sp <= |src| && EncodeSequence(s) <= src[sp..]
    ensures var l, sp1 := |s.literals|, sp + 1 + |Tail(|s.literals|)|;
            && sp1 + l + 2 + |Tail(s.extra)| == sp + |EncodeSequence(s)| <= |src|
            && src[sp] == Nibble(l) * 16 + Nibble(s.extra)
            && Tail(l) <= src[sp + 1..]
            && src[sp1..sp1 + l] == s.literals
            && src[sp1 + l..sp1 + l + 2] == Le16(s.offset)
            && Tail(s.extra) <= src[sp1 + l + 2..]
  {
    hide Le16, Tail;
    var l := |s.literals|;
    var token, tl, off, tm := [Nibble(l) * 16 + Nibble(s.extra)], Tail(l), Le16(s.offset), Tail(s.extra);
    assert EncodeSequence(s) == [] + token + (tl + s.literals + off + tm);
    Piece(src, sp, [], token, tl + s.literals + off + tm);
    assert src[sp] == src[sp..sp + 1][0];
    assert EncodeSequence(s) == token + tl + (s.literals + off + tm);
    Piece(src, sp, token, tl, s.literals + off + tm);
    assert EncodeSequence(s) == (token + tl) + s.literals + (off + tm);
    Piece(src, sp, token + tl, s.literals, off + tm);
    assert EncodeSequence(s) == (token + tl + s.literals) + off + tm;
    Piece(src, sp, token + tl + s.literals, off, tm);
    assert EncodeSequence(s) == (token + tl + s.literals + off) + tm + [];
    Piece(src, sp, token + tl + s.literals + off, tm, []);
  }

  /** One turn of the decoder, from the positions it visits. */
  lemma DecodeStep(src: seq<Byte>, sp: nat, dn: nat, out: seq<Byte>, sp1: nat, l: nat, sp2: nat, m: nat)
    requires sp < |src| && sp1 + l + 2 <= |src| && |out| + l + m + MIN_MATCH <= dn
    requires LengthAt(src, sp + 1, src[sp] / 16) == (l, sp1)
    requires LengthAt(src, sp1 + l + 2, src[sp] % 16) == (m, sp2)
    requires 0 < Get16(src[sp1 + l..sp1 + l + 2]) <= |out| + l
    ensures DecodeFrom(src, sp, dn, out)
         == DecodeFrom(src, sp2, dn, CopyMatch(out + src[sp1..sp1 + l], Get16(src[sp1 + l..sp1 + l + 2]), m + MIN_MATCH))
  {
    hide CopyMatch, LengthAt, Get16;
    assert DecodeFrom(src, sp, dn, out) == MatchFrom(src, sp, sp1 + l, dn, out + src[sp1..sp1 + l]);
  }

  /** One written sequence is read back as its literals and its match. */
  lemma DecodesSequence(src: seq<Byte>, sp: nat, dn: nat, out: seq<Byte>, s: Sequence)
    requires sp <= |src| && |out| + Advance(s) <= dn
    requires EncodeSequence(s) <= src[sp..]
    requires 0 < s.offset < TWO16 && s.offset <= |out| + |s.literals|
    ensures sp + |EncodeSequence(s)| <= |src|
    ensures DecodeFrom(src, sp, dn, out)
         == DecodeFrom(src, sp + |EncodeSequence(s)|, dn, CopyMatch(out + s.literals, s.offset, s.extra + MIN_MATCH))
  {
    hide EncodeSequence, DecodeFrom, CopyMatch, Tail, Le16, Get16, Nibble, LengthAt;
    SequenceParts(src, sp, s);
    var l, sp1 := |s.literals|, sp + 1 + |Tail(|s.literals|)|;
    ReadsTail(src, sp + 1, l);
    ReadsTail(src, sp1 + l + 2, s.extra);
    DecodeStep(src, sp, dn, out, sp1, l, sp1 + l + 2 + |Tail(s.extra)|, s.extra);
  }

  lemma LastParts(src: seq<Byte>, sp: nat, last: seq<Byte>)
    requires sp <= |src| && EncodeLast(last) == src[sp..]
    ensures var sp1 := sp + 1 + |Tail(|last|)|;
            && sp1 + |last| == |src|
            && src[sp] == Nibble(|last|) * 16
            && Tail(|last|) <= src[sp + 1..]
            && src[sp1..] == last
  {
    var token, tl := [Nibble(|last|) * 16], Tail(|last|);
    assert src[sp] == src[sp..][0] && src[sp + 1..] == src[sp..][1..];
    assert src[sp + 1..] == tl + last;
    assert src[sp + 1 + |tl|..] == src[sp + 1..][|tl|..];
  }

  lemma DecodesLast(src: seq<Byte>, sp: nat, dn: nat, out: seq<Byte>, last: seq<Byte>)
    requires sp <= |src| && |out| + |last| <= dn
    requires EncodeLast(last) == src[sp..]
    ensures DecodeFrom(src, sp, dn, out) == Ok(out + last)
  {
    hide EncodeLast;
    LastParts(src, sp, last);
    ReadsTail(src, sp + 1, |last|);
    hide Tail, LengthAt, CopyMatch;
    assert src[|src| - |last|..|src|] == last;
  }

  lemma EncodeBlockSplit(b: Block)
    requires b.sequences != []
    ensures EncodeBlock(b) == EncodeSequence(b.sequences[0]) + EncodeBlock(Block(b.sequences[1..], b.last))
  {
    assert EncodeAll(b.sequences) == EncodeSequence(b.sequences[0]) + EncodeAll(b.sequences[1..]);
  }

  lemma {:induction false} DecodesBlockFrom(src: seq<Byte>, sp: nat, dn: nat, out: seq<Byte>, b: Block)
    requires sp <= |src| && src[sp..] == EncodeBlock(b)
    requires WellFormed(|out|, b.sequences)
    requires |out| + BlockLength(b) <= dn
    ensures DecodeFrom(src, sp, dn, out) == Ok(Expand(out, b.sequences) + b.last)
    decreases b.sequences
  {
    hide EncodeSequence, EncodeLast, DecodeFrom, CopyMatch;
    if b.sequences == [] {
      assert EncodeBlock(b) == EncodeLast(b.last);
      DecodesLast(src, sp, dn, out, b.last);
    } else {
      var s, rest := b.sequences[0], Block(b.sequences[1..], b.last);
      EncodeBlockSplit(b);
      DecodesSequence(src, sp, dn, out, s);
      var sp' := sp + |EncodeSequence(s)|;
      assert src[sp'..] == src[sp..][|EncodeSequence(s)|..];
      DecodesBlockFrom(src, sp', dn, CopyMatch(out + s.literals, s.offset, s.extra + MIN_MATCH), rest);
    }
  }

  /** Every well-formed block decodes to its meaning, in any buffer that can hold it. */
  lemma DecodesBlock(b: Block, dn: nat)
    requires WellFormed(0, b.sequences) && BlockLength(b) <= dn
    ensures DecodeFrom(EncodeBlock(b), 0, dn, []) == Ok(Meaning(b))
  {
    assert EncodeBlock(b)[0..] == EncodeBlock(b);
    DecodesBlockFrom(EncodeBlock(b), 0, dn, [], b);
  }

  // ----- The decoder itself -----

  method ReadLengthBytes(src: seq<Byte>, start: nat, nibble: nat) returns (length: nat, sp: nat)
    requires start <= |src|
    ensures (length, sp) == LengthAt(src, start, nibble)
  {
    length, sp := nibble, start;
    if nibble == 15 {
      while sp < |src|
        invariant start <= sp <= |src|
        invariant ReadLength(src, start, 15) == ReadLength(src, sp, length)
      {
        var extra := src[sp];
        sp := sp + 1;
        length := length + extra;
        if extra < 255 { return; }
      }
    }
  }

  /** Byte by byte, so that a copy reaching into itself repeats its pattern. */
  method CopyOverlapping(dst: array<Byte>, dp: nat, offset: nat, len: nat)
    requires 0 < offset <= dp && dp + len <= dst.Length
    modifies dst
    ensures dst[..dp + len] == CopyMatch(old(dst[..dp]), offset, len)
  {
    hide CopyMatch;
    ghost var out := dst[..dp];
    CopyNext(out, offset, 0);
    for i := 0 to len
      invariant dst[..dp + i] == CopyMatch(out, offset, i)
    {
      CopyNext(out, offset, i);
      ghost var r := dst[..dp + i];
      dst[dp + i] := dst[dp - offset + i];
      assert dst[..dp + i + 1] == r + [r[dp - offset + i]];
    }
  }

  lemma CopyNext(out: seq<Byte>, offset: nat, len: nat)
    requires 0 < offset <= |out|
    ensures var r := CopyMatch(out, offset, len);
            CopyMatch(out, offset, len + 1) == r + [r[|r| - offset]] && CopyMatch(out, offset, 0) == out
  {
  }

  /** The literals of the sequence whose token is at `at`. */
  method DecodeLiterals(dst: array<Byte>, dp: nat, dn: nat, src: seq<Byte>, at: nat) returns (ok: bool, dp': nat, sp: nat)
    requires dp <= dn <= dst.Length && at < |src|
    modifies dst
    ensures var (lit, sp1) := LengthAt(src, at + 1, src[at] / 16);
            && (ok <==> sp1 + lit <= |src| && dp + lit <= dn)
            && (ok ==> dp' == dp + lit && sp == sp1 + lit && dst[..dp'] == old(dst[..dp]) + src[sp1..sp])
  {
    hide LengthAt;
    var litLen;
    litLen, sp := ReadLengthBytes(src, at + 1, src[at] / 16);
    dp' := dp;
    if litLen > 0 {
      if sp + litLen > |src| || dp + litLen > dn { return false, dp, sp; }
      CopyInto(dst, dp, src[sp..sp + litLen]);
      sp, dp' := sp + litLen, dp + litLen;
    }
    ok := true;
  }

  /** The match of the sequence whose token is at `at`, its offset at `start`. */
  method DecodeMatch(dst: array<Byte>, dp: nat, dn: nat, src: seq<Byte>, at: nat, start: nat)
    returns (ok: bool, dp': nat, sp: nat)
    requires dp <= dn <= dst.Length && at < start < |src|
    modifies dst
    ensures !ok ==> MatchFrom(src, at, start, dn, old(dst[..dp])) == Corrupt
    ensures ok ==> && dp <= dp' <= dn && start < sp <= |src|
                   && MatchFrom(src, at, start, dn, old(dst[..dp])) == DecodeFrom(src, sp, dn, dst[..dp'])
  {
    hide CopyMatch, LengthAt, Get16, DecodeFrom;
    ok, dp', sp := false, dp, start;
    if sp + 2 > |src| { return; }
    var offset := Get16(src[sp..sp + 2]);
    sp := sp + 2;
    if offset == 0 { return; }
    var matchLen;
    matchLen, sp := ReadLengthBytes(src, sp, src[at] % 16);
    matchLen := matchLen + MIN_MATCH;
    var matchPos := dp - offset;
    if matchPos < 0 || dp + matchLen > dn { return; }
    CopyOverlapping(dst, dp, offset, matchLen);
    ok, dp' := true, dp + matchLen;
  }

  /** Decodes `src` into the first `dn` bytes of `dst`.  The outcome is a
      function of `src` and `dn` alone: no byte of `dst` is read before it has
      been written. */
  method DecompressBlock(dst: array<Byte>, dn: nat, src: seq<Byte>) returns (r: Result<nat>)
    requires dn <= dst.Length
    modifies dst
    ensures match DecodeFrom(src, 0, dn, [])
            case Ok(bytes) => r == Ok(|bytes|) && dst[..|bytes|] == bytes
            case Corrupt => r == Corrupt
  {
    hide CopyMatch, LengthAt, Get16, MatchFrom;
    var sp, dp, ok := 0, 0, true;
    ghost var want := DecodeFrom(src, 0, dn, []);
    while sp < |src|
      invariant 0 <= sp <= |src| && 0 <= dp <= dn
      invariant DecodeFrom(src, sp, dn, dst[..dp]) == want
      decreases |src| - sp
    {
      var at := sp;
      ok, dp, sp := DecodeLiterals(dst, dp, dn, src, at);
      if !ok { return Corrupt; }
      assert MatchFrom(src, at, sp, dn, dst[..dp]) == want;
      if sp >= |src| { break; }
      ok, dp, sp := DecodeMatch(dst, dp, dn, src, at, sp);
      if !ok { return Corrupt; }
    }
    LastSequence(src, dn, dst[..dp]);
    r := Ok(dp);
  }

  lemma LastSequence(src: seq<Byte>, dn: nat, out: seq<Byte>)
    requires |out| <= dn
    ensures DecodeFrom(src, |src|, dn, out) == Ok(out)
    ensures forall at :: 0 <= at < |src| ==> MatchFrom(src, at, |src|, dn, out) == Ok(out)
  {
  }
}
