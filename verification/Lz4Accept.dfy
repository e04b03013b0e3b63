/** Which byte strings the block decoder accepts, and what it makes of them: blocks of
    the format, with three liberties at the end. */
module Lz4Accept {
  import opened Bytes
  import opened Lz4Format
  import opened Lz4Decoder

  // ----- Length bytes -----

  /** The length bytes of `n`, which break off before the last one, a 0. */
  predicate BreaksOff(b: seq<Byte>, n: nat) {
    n >= 15 && b + [0] == Tail(n)
  }

  lemma {:induction false} ReadLengthMeans(src: seq<Byte>, sp: nat, length: nat)
    requires sp <= |src|
    ensures var (n, end) := ReadLength(src, sp, length);
            || src[sp..end] == Extension(n - length)
            || (end == |src| && src[sp..] + [0] == Extension(n - length))
    decreases |src| - sp
  {
    hide Extension;
    if sp < |src| && src[sp] == 255 {
      ReadLengthMeans(src, sp + 1, length + 255);
      var (n, end) := ReadLength(src, sp + 1, length + 255);
      ExtensionStep(n - length);
      OneMore(src, sp, end);
    } else if sp < |src| {
      ExtensionStep(src[sp]);
      assert src[sp..sp + 1] == [src[sp]];
    } else {
      ExtensionStep(0);
      assert src[sp..] + [0] == [0];
    }
  }

  lemma ExtensionStep(n: nat)
    ensures n >= 255 ==> Extension(n) == [255] + Extension(n - 255)
    ensures n < 255 ==> Extension(n) == [n]
  {
  }

  lemma OneMore(src: seq<Byte>, sp: nat, end: nat)
    requires sp < end <= |src|
    ensures src[sp..end] == [src[sp]] + src[sp + 1..end]
    ensures src[sp..] + [0] == [src[sp]] + (src[sp + 1..] + [0])
  {
  }

  /** What reading a length tells about the bytes it was read from. */
  lemma LengthMeans(src: seq<Byte>, sp: nat, nibble: nat)
    requires sp <= |src| && nibble < 16
    ensures var (n, end) := LengthAt(src, sp, nibble);
            && nibble == Nibble(n)
            && (src[sp..end] == Tail(n) || (end == |src| && BreaksOff(src[sp..], n)))
  {
    hide Extension;
    if nibble == 15 {
      ReadLengthMeans(src, sp, 15);
    } else {
      assert src[sp..sp] == [];
    }
  }

  lemma {:induction false} ReadBrokenOff(src: seq<Byte>, sp: nat, n: nat, length: nat)
    requires sp <= |src| && src[sp..] + [0] == Extension(n)
    ensures ReadLength(src, sp, length) == (length + n, |src|)
    decreases n
  {
    if sp < |src| {
      var b := src[sp..] + [0];
      assert b[0] == src[sp] && |b| >= 2;
      assert b[1..] == src[sp + 1..] + [0];
      assert Extension(n) == [255] + Extension(n - 255);
      ReadBrokenOff(src, sp + 1, n - 255, length + 255);
    } else {
      assert src[sp..] + [0] == [0];
    }
  }

  lemma BrokenOffLength(src: seq<Byte>, sp: nat, n: nat)
    requires sp <= |src| && BreaksOff(src[sp..], n)
    ensures LengthAt(src, sp, Nibble(n)) == (n, |src|)
  {
    hide Extension;
    ReadBrokenOff(src, sp, n - 15, 15);
  }

  // ----- Accepted bytes -----

  /** How accepted bytes can end: after a match; with literals, the lower half of whose
      token is not looked at; or in a match, `bytes`, whose length bytes break off. */
  datatype End = Nothing | Literals(last: seq<Byte>, low: Half) | CutMatch(s: Sequence, lengths: seq<Byte>)

  type Half = x: nat | x < 16

  predicate EndOk(produced: nat, e: End) {
    e.CutMatch? ==>
      && 0 < e.s.offset < 65536 && e.s.offset <= produced + |e.s.literals|
      && BreaksOff(e.lengths, e.s.extra)
  }

  /** Token, literals and offset of a sequence. */
  function Fore(s: Sequence): seq<Byte> {
    [Nibble(|s.literals|) * 16 + Nibble(s.extra)] + Tail(|s.literals|) + s.literals + Le16(s.offset)
  }

  function EndBytes(e: End): seq<Byte> {
    match e
    case Nothing => []
    case Literals(last, low) => [Nibble(|last|) * 16 + low] + Tail(|last|) + last
    case CutMatch(s, lengths) => Fore(s) + lengths
  }

  function Finish(out: seq<Byte>, e: End): (r: seq<Byte>)
    requires EndOk(|out|, e)
    ensures |out| <= |r|
  {
    match e
    case Nothing => out
    case Literals(last, _) => out + last
    case CutMatch(s, _) => CopyMatch(out + s.literals, s.offset, s.extra + 4)
  }

  /** `b` is the sequences `ss` and the end `e`, which turn `out` into `r`. */
  predicate Spells(b: seq<Byte>, ss: seq<Sequence>, e: End, out: seq<Byte>, r: seq<Byte>) {
    && WellFormed(|out|, ss) && EndOk(|Expand(out, ss)|, e)
    && b == EncodeAll(ss) + EndBytes(e) && r == Finish(Expand(out, ss), e)
  }

  /** The output after the sequence `s`. */
  predicate Follows(out: seq<Byte>, s: Sequence, next: seq<Byte>) {
    && 0 < s.offset < 65536 && s.offset <= |out| + |s.literals|
    && next == CopyMatch(out + s.literals, s.offset, s.extra + 4)
  }

  lemma FinishCut(out: seq<Byte>, s: Sequence, lengths: seq<Byte>, next: seq<Byte>)
    requires Follows(out, s, next) && BreaksOff(lengths, s.extra)
    ensures EndOk(|out|, CutMatch(s, lengths)) && Finish(out, CutMatch(s, lengths)) == next
  {
  }

  // ----- What is accepted is a block -----

  /** The bytes of one turn of the decoder that reads a whole sequence. */
  lemma SequenceBytes(src: seq<Byte>, sp: nat, s: Sequence, sp1: nat, sp2: nat)
    requires sp < |src| && sp + 1 <= sp1 && sp1 + |s.literals| + 2 <= sp2 <= |src| && s.offset < 65536
    requires src[sp] == Nibble(|s.literals|) * 16 + Nibble(s.extra) && src[sp + 1..sp1] == Tail(|s.literals|)
    requires src[sp1..sp1 + |s.literals|] == s.literals && Get16(src[sp1 + |s.literals|..sp1 + |s.literals| + 2]) == s.offset
    ensures src[sp..sp2] == Fore(s) + src[sp1 + |s.literals| + 2..sp2]
  {
    hide Tail, Get16, Le16, Nibble;
    var a := sp1 + |s.literals|;
    OffsetBytes(src[a..a + 2]);
    assert src[sp..sp + 1] == [src[sp]];
    Joined(src, sp, sp + 1, sp1);
    Joined(src, sp, sp1, a);
    Joined(src, sp, a, a + 2);
    Joined(src, sp, a + 2, sp2);
  }

  lemma Joined(src: seq<Byte>, i: nat, j: nat, k: nat)
    requires i <= j <= k <= |src|
    ensures src[i..k] == src[i..j] + src[j..k]
  {
  }

  lemma OffsetBytes(b: seq<Byte>)
    requires |b| == 2
    ensures b == Le16(Get16(b))
  {
  }

  lemma SpellsMore(b: seq<Byte>, s: Sequence, rest: seq<Byte>, ss: seq<Sequence>, e: End, out: seq<Byte>, next: seq<Byte>,
                   r: seq<Byte>)
    requires Follows(out, s, next) && b == EncodeSequence(s) + rest && Spells(rest, ss, e, next, r)
    ensures Spells(b, [s] + ss, e, out, r)
  {
    hide Follows, EncodeSequence, EndBytes, EndOk, Finish, Expand, WellFormed, EncodeAll;
    ExpandMore(s, ss, out, next);
    Regroup(EncodeSequence(s), EncodeAll(ss), EndBytes(e), rest);
  }

  lemma Regroup(a: seq<Byte>, b: seq<Byte>, c: seq<Byte>, bc: seq<Byte>)
    requires bc == b + c
    ensures a + bc == a + b + c
  {
  }

  lemma ExpandMore(s: Sequence, ss: seq<Sequence>, out: seq<Byte>, next: seq<Byte>)
    requires Follows(out, s, next) && WellFormed(|next|, ss)
    ensures WellFormed(|out|, [s] + ss) && Expand(out, [s] + ss) == Expand(next, ss)
    ensures EncodeAll([s] + ss) == EncodeSequence(s) + EncodeAll(ss)
  {
    hide EncodeSequence, CopyMatch;
    assert ([s] + ss)[1..] == ss;
  }

  lemma SpellsEnd(b: seq<Byte>, e: End, out: seq<Byte>)
    requires EndOk(|out|, e) && b == EndBytes(e)
    ensures Spells(b, [], e, out, Finish(out, e))
  {
    hide EndBytes, EndOk, Finish;
    assert [] + EndBytes(e) == EndBytes(e);
  }

  /** The end with literals. */
  lemma EndsInLiterals(src: seq<Byte>, sp: nat, dn: nat, out: seq<Byte>) returns (e: End)
    requires sp < |src| && |out| <= dn && DecodeFrom(src, sp, dn, out).Ok?
    requires var (lit, sp1) := LengthAt(src, sp + 1, src[sp] / 16); sp1 + lit == |src|
    ensures Spells(src[sp..], [], e, out, DecodeFrom(src, sp, dn, out).value)
  {
    hide LengthAt, CopyMatch, Tail, Nibble, Spells, BreaksOff;
    var (lit, sp1) := LengthAt(src, sp + 1, src[sp] / 16);
    LengthMeans(src, sp + 1, src[sp] / 16);
    LiteralsWhole(src, sp + 1, lit, sp1);
    var last := src[sp1..];
    e := Literals(last, src[sp] % 16);
    LiteralBytes(src, sp, sp1);
    SpellsEnd(src[sp..], e, out);
    assert src[sp1..sp1 + lit] == last;
  }

  lemma LiteralBytes(src: seq<Byte>, sp: nat, sp1: nat)
    requires sp < sp1 <= |src| && src[sp + 1..sp1] == Tail(|src| - sp1) && src[sp] / 16 == Nibble(|src| - sp1)
    ensures src[sp..] == EndBytes(Literals(src[sp1..], src[sp] % 16))
  {
    hide Tail, Nibble;
    assert src[sp..] == src[sp..sp + 1] + src[sp + 1..sp1] + src[sp1..];
    assert src[sp..sp + 1] == [src[sp]];
  }

  /** Length bytes that break off leave no room for literals. */
  lemma LiteralsWhole(src: seq<Byte>, sp: nat, lit: nat, sp1: nat)
    requires sp <= sp1 && sp1 + lit <= |src|
    requires src[sp..sp1] == Tail(lit) || (sp1 == |src| && BreaksOff(src[sp..], lit))
    ensures src[sp..sp1] == Tail(lit)
  {
  }

  /** Whatever the decoder accepts is a block, and it gives the block's meaning. */
  lemma {:induction false} AcceptedSpells(src: seq<Byte>, sp: nat, dn: nat, out: seq<Byte>)
    returns (ss: seq<Sequence>, e: End)
    requires sp <= |src| && |out| <= dn && DecodeFrom(src, sp, dn, out).Ok?
    ensures Spells(src[sp..], ss, e, out, DecodeFrom(src, sp, dn, out).value)
    decreases |src| - sp
  {
    hide LengthAt, DecodeFrom, Spells, Follows, Finish, BreaksOff, Tail, Nibble, EncodeSequence, Fore;
    if sp == |src| {
      ss, e := [], Nothing;
      AtEnd(src, dn, out);
      NothingSpelled(src, out);
    } else if LengthAt(src, sp + 1, src[sp] / 16).1 + LengthAt(src, sp + 1, src[sp] / 16).0 == |src| {
      ss := [];
      e := EndsInLiterals(src, sp, dn, out);
    } else {
      var s, next, sp1, sp2 := MatchAccepted(src, sp, dn, out);
      var a := sp1 + |s.literals| + 2;
      if src[a..sp2] == Tail(s.extra) {
        ss, e := AcceptedSpells(src, sp2, dn, next);
        WholeSequence(src, sp, s, sp1, sp2);
        SpellsMore(src[sp..], s, src[sp2..], ss, e, out, next, DecodeFrom(src, sp, dn, out).value);
        ss := [s] + ss;
      } else {
        ss, e := [], CutMatch(s, src[a..]);
        AtEnd(src, dn, next);
        CutSequence(src, sp, s, sp1);
        FinishCut(out, s, src[a..], next);
        SpellsEnd(src[sp..], e, out);
      }
    }
  }

  lemma NothingSpelled(src: seq<Byte>, out: seq<Byte>)
    ensures Spells(src[|src|..], [], Nothing, out, out)
  {
  }

  /** One turn that the decoder gets through, where its parts lie and what it makes. */
  lemma MatchAccepted(src: seq<Byte>, sp: nat, dn: nat, out: seq<Byte>)
    returns (s: Sequence, next: seq<Byte>, sp1: nat, sp2: nat)
    requires sp < |src| && |out| <= dn && DecodeFrom(src, sp, dn, out).Ok?
    requires LengthAt(src, sp + 1, src[sp] / 16).1 + LengthAt(src, sp + 1, src[sp] / 16).0 != |src|
    ensures Follows(out, s, next) && |next| <= dn && s.offset < 65536
    ensures sp + 1 <= sp1 && sp1 + |s.literals| + 2 <= sp2 <= |src|
    ensures DecodeFrom(src, sp, dn, out) == DecodeFrom(src, sp2, dn, next)
    ensures src[sp] == Nibble(|s.literals|) * 16 + Nibble(s.extra) && src[sp + 1..sp1] == Tail(|s.literals|)
    ensures src[sp1..sp1 + |s.literals|] == s.literals
    ensures Get16(src[sp1 + |s.literals|..sp1 + |s.literals| + 2]) == s.offset
    ensures var a := sp1 + |s.literals| + 2; src[a..sp2] == Tail(s.extra) || (sp2 == |src| && BreaksOff(src[a..], s.extra))
  {
    hide LengthAt, Tail, BreaksOff, Nibble, DecodeFrom, MatchFrom, Get16, Follows;
    s, next, sp1, sp2 := TurnAccepted(src, sp, dn, out);
    LengthMeans(src, sp + 1, src[sp] / 16);
    LengthMeans(src, sp1 + |s.literals| + 2, src[sp] % 16);
    LiteralsWhole(src, sp + 1, |s.literals|, sp1);
  }

  lemma TurnAccepted(src: seq<Byte>, sp: nat, dn: nat, out: seq<Byte>)
    returns (s: Sequence, next: seq<Byte>, sp1: nat, sp2: nat)
    requires sp < |src| && |out| <= dn && DecodeFrom(src, sp, dn, out).Ok?
    requires LengthAt(src, sp + 1, src[sp] / 16).1 + LengthAt(src, sp + 1, src[sp] / 16).0 != |src|
    ensures Follows(out, s, next) && |next| <= dn && s.offset < 65536
    ensures LengthAt(src, sp + 1, src[sp] / 16) == (|s.literals|, sp1)
    ensures sp + 1 <= sp1 && sp1 + |s.literals| + 2 <= sp2 <= |src|
    ensures LengthAt(src, sp1 + |s.literals| + 2, src[sp] % 16) == (s.extra, sp2)
    ensures src[sp1..sp1 + |s.literals|] == s.literals
    ensures Get16(src[sp1 + |s.literals|..sp1 + |s.literals| + 2]) == s.offset
    ensures DecodeFrom(src, sp, dn, out) == DecodeFrom(src, sp2, dn, next)
  {
    hide LengthAt, CopyMatch, Get16;
    var lit := LengthAt(src, sp + 1, src[sp] / 16).0;
    sp1 := LengthAt(src, sp + 1, src[sp] / 16).1;
    var a := sp1 + lit;
    assert DecodeFrom(src, sp, dn, out) == MatchFrom(src, sp, a, dn, out + src[sp1..a]);
    var m := LengthAt(src, a + 2, src[sp] % 16).0;
    sp2 := LengthAt(src, a + 2, src[sp] % 16).1;
    s := Sequence(src[sp1..a], Get16(src[a..a + 2]), m);
    next := CopyMatch(out + s.literals, s.offset, s.extra + 4);
  }

  lemma WholeSequence(src: seq<Byte>, sp: nat, s: Sequence, sp1: nat, sp2: nat)
    requires sp < |src| && sp + 1 <= sp1 && sp1 + |s.literals| + 2 <= sp2 <= |src| && s.offset < 65536
    requires src[sp] == Nibble(|s.literals|) * 16 + Nibble(s.extra) && src[sp + 1..sp1] == Tail(|s.literals|)
    requires src[sp1..sp1 + |s.literals|] == s.literals && Get16(src[sp1 + |s.literals|..sp1 + |s.literals| + 2]) == s.offset
    requires src[sp1 + |s.literals| + 2..sp2] == Tail(s.extra)
    ensures src[sp..] == EncodeSequence(s) + src[sp2..]
  {
    hide Tail, Le16, Nibble, Get16;
    SequenceBytes(src, sp, s, sp1, sp2);
    assert src[sp..] == src[sp..sp2] + src[sp2..];
  }

  lemma CutSequence(src: seq<Byte>, sp: nat, s: Sequence, sp1: nat)
    requires sp < |src| && sp + 1 <= sp1 && sp1 + |s.literals| + 2 <= |src| && s.offset < 65536
    requires src[sp] == Nibble(|s.literals|) * 16 + Nibble(s.extra) && src[sp + 1..sp1] == Tail(|s.literals|)
    requires src[sp1..sp1 + |s.literals|] == s.literals && Get16(src[sp1 + |s.literals|..sp1 + |s.literals| + 2]) == s.offset
    ensures src[sp..] == Fore(s) + src[sp1 + |s.literals| + 2..]
  {
    hide Fore, Tail, Nibble, Get16;
    SequenceBytes(src, sp, s, sp1, |src|);
    assert src[sp..|src|] == src[sp..] && src[sp1 + |s.literals| + 2..|src|] == src[sp1 + |s.literals| + 2..];
  }

  // ----- What is a block is accepted -----

  lemma AcceptsLiterals(src: seq<Byte>, sp: nat, dn: nat, out: seq<Byte>, last: seq<Byte>, low: Half)
    requires sp <= |src| && |out| + |last| <= dn && src[sp..] == EndBytes(Literals(last, low))
    ensures DecodeFrom(src, sp, dn, out) == Ok(out + last)
  {
    hide Tail, LengthAt, CopyMatch, Nibble;
    var token, tl := [Nibble(|last|) * 16 + low], Tail(|last|);
    assert src[sp..] == [] + token + (tl + last) && src[sp..] == token + tl + last && src[sp..] == (token + tl) + last + [];
    Piece(src, sp, [], token, tl + last);
    assert src[sp] == src[sp..sp + 1][0];
    Piece(src, sp, token, tl, last);
    Piece(src, sp, token + tl, last, []);
    ReadsTail(src, sp + 1, |last|);
  }

  /** Where the parts of a match whose length bytes break off lie. */
  lemma CutParts(src: seq<Byte>, sp: nat, s: Sequence, lengths: seq<Byte>)
    requires sp <= |src| && src[sp..] == Fore(s) + lengths
    ensures var l, sp1 := |s.literals|, sp + 1 + |Tail(|s.literals|)|;
            && sp1 + l + 2 + |lengths| == |src|
            && src[sp] == Nibble(l) * 16 + Nibble(s.extra) && Tail(l) <= src[sp + 1..]
            && src[sp1..sp1 + l] == s.literals && src[sp1 + l..sp1 + l + 2] == Le16(s.offset)
            && src[sp1 + l + 2..] == lengths
  {
    hide Le16, Tail;
    var l := |s.literals|;
    var token, tl, off := [Nibble(l) * 16 + Nibble(s.extra)], Tail(l), Le16(s.offset);
    var all := Fore(s) + lengths;
    assert all == [] + token + (tl + s.literals + off + lengths);
    Piece(src, sp, [], token, tl + s.literals + off + lengths);
    assert src[sp] == src[sp..sp + 1][0];
    assert all == token + tl + (s.literals + off + lengths);
    Piece(src, sp, token, tl, s.literals + off + lengths);
    assert all == (token + tl) + s.literals + (off + lengths);
    Piece(src, sp, token + tl, s.literals, off + lengths);
    assert all == (token + tl + s.literals) + off + lengths;
    Piece(src, sp, token + tl + s.literals, off, lengths);
    SubsliceFrom(src, sp, |Fore(s)|, |all|);
    assert src[sp + |Fore(s)|..] == src[sp..][|Fore(s)|..];
  }

  lemma AcceptsCut(src: seq<Byte>, sp: nat, dn: nat, out: seq<Byte>, s: Sequence, lengths: seq<Byte>)
    requires EndOk(|out|, CutMatch(s, lengths)) && sp <= |src| && src[sp..] == Fore(s) + lengths
    requires |out| + |s.literals| + s.extra + 4 <= dn
    ensures DecodeFrom(src, sp, dn, out) == Ok(CopyMatch(out + s.literals, s.offset, s.extra + 4))
  {
    hide Fore, CopyMatch, Tail, Le16, Get16, Nibble, LengthAt;
    CutParts(src, sp, s, lengths);
    var l, sp1 := |s.literals|, sp + 1 + |Tail(|s.literals|)|;
    ReadsTail(src, sp + 1, l);
    BrokenOffLength(src, sp1 + l + 2, s.extra);
    DecodeStep(src, sp, dn, out, sp1, l, |src|, s.extra);
  }

  lemma AcceptsEnd(src: seq<Byte>, sp: nat, dn: nat, out: seq<Byte>, e: End)
    requires EndOk(|out|, e) && sp <= |src| && src[sp..] == EndBytes(e) && |Finish(out, e)| <= dn
    ensures DecodeFrom(src, sp, dn, out) == Ok(Finish(out, e))
  {
    hide Fore, DecodeFrom, CopyMatch, BreaksOff, Tail;
    match e
    case Nothing => AtEnd(src, dn, out);
    case Literals(last, low) => AcceptsLiterals(src, sp, dn, out, last, low);
    case CutMatch(s, lengths) => AcceptsCut(src, sp, dn, out, s, lengths);
  }

  lemma AtEnd(src: seq<Byte>, dn: nat, out: seq<Byte>)
    requires |out| <= dn
    ensures DecodeFrom(src, |src|, dn, out) == Ok(out)
  {
  }

  lemma {:induction false} SpelledAccepted(src: seq<Byte>, sp: nat, dn: nat, out: seq<Byte>, ss: seq<Sequence>, e: End,
                                          r: seq<Byte>)
    requires sp <= |src| && Spells(src[sp..], ss, e, out, r) && |r| <= dn
    ensures |out| <= |r| && DecodeFrom(src, sp, dn, out) == Ok(r)
    decreases |ss|
  {
    hide EncodeSequence, EndBytes, EndOk, Finish, DecodeFrom, Follows, Spells, Expand, WellFormed, EncodeAll;
    if ss == [] {
      EndSpelled(src[sp..], e, out, r);
      AcceptsEnd(src, sp, dn, out, e);
    } else {
      var s, b := ss[0], EncodeSequence(ss[0]);
      var next := SpellsLess(src[sp..], ss, e, out, r);
      assert src[sp..][|b|..] == src[sp + |b|..];
      SpelledAccepted(src, sp + |b|, dn, next, ss[1..], e, r);
      SequenceAccepted(src, sp, dn, out, s, next);
    }
  }

  lemma EndSpelled(b: seq<Byte>, e: End, out: seq<Byte>, r: seq<Byte>)
    requires Spells(b, [], e, out, r)
    ensures EndOk(|out|, e) && b == EndBytes(e) && r == Finish(out, e)
  {
    hide EndBytes, EndOk, Finish;
    assert [] + EndBytes(e) == EndBytes(e);
  }

  lemma SpellsLess(b: seq<Byte>, ss: seq<Sequence>, e: End, out: seq<Byte>, r: seq<Byte>) returns (next: seq<Byte>)
    requires ss != [] && Spells(b, ss, e, out, r)
    ensures EncodeSequence(ss[0]) <= b && Follows(out, ss[0], next)
    ensures Spells(b[|EncodeSequence(ss[0])|..], ss[1..], e, next, r)
  {
    hide EncodeSequence, EndBytes, EndOk, Finish, Follows, Expand, WellFormed, EncodeAll;
    next := FirstFollows(ss, out);
    Regroup(EncodeSequence(ss[0]), EncodeAll(ss[1..]), EndBytes(e), EncodeAll(ss[1..]) + EndBytes(e));
    Dropped(EncodeSequence(ss[0]), EncodeAll(ss[1..]) + EndBytes(e));
  }

  lemma FirstFollows(ss: seq<Sequence>, out: seq<Byte>) returns (next: seq<Byte>)
    requires ss != [] && WellFormed(|out|, ss)
    ensures Follows(out, ss[0], next) && WellFormed(|next|, ss[1..]) && Expand(out, ss) == Expand(next, ss[1..])
    ensures EncodeAll(ss) == EncodeSequence(ss[0]) + EncodeAll(ss[1..])
  {
    hide EncodeSequence, CopyMatch;
    next := CopyMatch(out + ss[0].literals, ss[0].offset, ss[0].extra + 4);
  }

  lemma Dropped(a: seq<Byte>, b: seq<Byte>)
    ensures a <= a + b && (a + b)[|a|..] == b
  {
  }

  lemma SequenceAccepted(src: seq<Byte>, sp: nat, dn: nat, out: seq<Byte>, s: Sequence, next: seq<Byte>)
    requires sp <= |src| && EncodeSequence(s) <= src[sp..] && Follows(out, s, next) && |next| <= dn
    ensures sp + |EncodeSequence(s)| <= |src| && |out| <= |next|
    ensures DecodeFrom(src, sp, dn, out) == DecodeFrom(src, sp + |EncodeSequence(s)|, dn, next)
  {
    hide EncodeSequence, DecodeFrom, CopyMatch;
    DecodesSequence(src, sp, dn, out, s);
  }

  /** The decoder accepts exactly the blocks of the format, with those liberties, whose
      meaning fits the room it is given, and the result is that meaning. */
  lemma AcceptsExactly(src: seq<Byte>, dn: nat, r: seq<Byte>)
    ensures DecodeFrom(src, 0, dn, []) == Ok(r) <==> |r| <= dn && exists ss, e :: Spells(src, ss, e, [], r)
  {
    hide DecodeFrom, Spells;
    assert src[0..] == src;
    if DecodeFrom(src, 0, dn, []) == Ok(r) {
      var ss, e := AcceptedSpells(src, 0, dn, []);
    }
    if |r| <= dn && exists ss, e :: Spells(src, ss, e, [], r) {
      var ss, e :| Spells(src, ss, e, [], r);
      SpelledAccepted(src, 0, dn, [], ss, e, r);
    }
  }
}
