/** Which matches the match finder finds: at every position it looks at, the last one
    with the same hash that it has seen, whenever that is a match. */
module Lz4Greedy {
  import opened Bytes
  import opened Lz4Format
  import opened Lz4Encoder

  // ----- A parse, as the bytes it copies -----

  /** The bytes from `start` to `end` are a match, `offset` back. */
  datatype Span = Span(start: nat, end: nat, offset: nat)

  function SpanOf(at: nat, s: Sequence): Span {
    Span(at + |s.literals|, at + Advance(s), s.offset)
  }

  function Spans(at: nat, ss: seq<Sequence>): seq<Span>
    decreases |ss|
  {
    if ss == [] then [] else [SpanOf(at, ss[0])] + Spans(at + Advance(ss[0]), ss[1..])
  }

  /** The finder looks at `j`: no match runs over it, and it is not too near the end. */
  predicate Searched(n: nat, spans: seq<Span>, j: nat) {
    j + 9 <= n && forall k :: 0 <= k < |spans| ==> j <= spans[k].start || spans[k].end <= j
  }

  /** The finder remembers `i`: it looked at it, or a match ends two bytes behind it. */
  predicate Entered(n: nat, spans: seq<Span>, i: nat) {
    Searched(n, spans, i) || exists k :: 0 <= k < |spans| && spans[k].end == i + 2
  }

  predicate SameSlot(src: seq<Byte>, hash: nat -> nat, i: nat, j: nat)
    requires i + 4 <= |src| && j + 4 <= |src|
  {
    hash(Get32(src[i..i + 4])) % 65536 == hash(Get32(src[j..j + 4])) % 65536
  }

  /** Of the positions in front of `j` with its hash, `i` is the last remembered. */
  predicate LastInSlot(src: seq<Byte>, hash: nat -> nat, spans: seq<Span>, i: nat, j: nat) {
    && i < j && j + 4 <= |src| && Entered(|src|, spans, i) && SameSlot(src, hash, i, j)
    && forall m :: i < m < j && Entered(|src|, spans, m) ==> !SameSlot(src, hash, m, j)
  }

  /** A match at `j` can refer to `i`; position 0 stands for none. */
  predicate CanRefer(src: seq<Byte>, i: nat, j: nat) {
    0 < i < j && j - i < 65536 && j + 4 <= |src| && src[i..i + 4] == src[j..j + 4]
  }

  predicate StartsAt(spans: seq<Span>, j: nat, offset: nat) {
    exists k :: 0 <= k < |spans| && spans[k].start == j && spans[k].offset == offset
  }

  /** At `j` a match starts exactly when the last position with the same hash allows
      it, and then it refers to that. */
  ghost predicate GreedyAt(src: seq<Byte>, hash: nat -> nat, spans: seq<Span>, j: nat) {
    forall i: nat :: i < j ==> (StartsAt(spans, j, j - i) <==> LastInSlot(src, hash, spans, i, j) && CanRefer(src, i, j))
  }

  // ----- What the table holds -----

  /** The spans written when the finder is at `f`. */
  predicate Behind(spans: seq<Span>, anchor: nat) {
    forall k :: 0 <= k < |spans| ==> spans[k].start + 4 <= spans[k].end <= anchor
  }

  /** The positions in front of `sp` that are remembered. */
  function Remembered(n: nat, spans: seq<Span>, sp: nat): set<nat> {
    set i: nat | i < sp && Entered(n, spans, i)
  }

  /** Each table slot holds the largest position of its hash that is in `seen`, or 0. */
  predicate Recent(src: seq<Byte>, hash: nat -> nat, table: seq<nat>, seen: set<nat>) {
    && |table| == HASH_SIZE && (forall i :: i in seen ==> i + 4 <= |src|)
    && (forall h :: 0 <= h < HASH_SIZE && table[h] != 0 ==> table[h] in seen && Slot(src, hash, table[h]) == h)
    && (forall i :: i in seen && i != 0 ==> i <= table[Slot(src, hash, i)])
  }

  lemma RecentInsert(src: seq<Byte>, hash: nat -> nat, table: seq<nat>, seen: set<nat>, x: nat)
    requires Recent(src, hash, table, seen) && x + 4 <= |src| && forall i :: i in seen ==> i < x
    ensures Recent(src, hash, table[Slot(src, hash, x) := x], seen + {x})
  {
    hide Slot;
  }

  ghost predicate TableOk(src: seq<Byte>, hash: nat -> nat, f: Finder, spans: seq<Span>) {
    Searching(src, f) && Behind(spans, f.anchor) && Recent(src, hash, f.table, Remembered(|src|, spans, f.sp))
  }

  lemma SlotIsSame(src: seq<Byte>, hash: nat -> nat, i: nat, j: nat)
    requires i + 4 <= |src| && j + 4 <= |src|
    ensures SameSlot(src, hash, i, j) <==> Slot(src, hash, i) == Slot(src, hash, j)
  {
  }

  lemma EnteredHere(src: seq<Byte>, f: Finder, spans: seq<Span>)
    requires Searching(src, f) && Behind(spans, f.anchor)
    ensures Entered(|src|, spans, f.sp)
    ensures Remembered(|src|, spans, f.sp + 1) == Remembered(|src|, spans, f.sp) + {f.sp}
  {
    assert Searched(|src|, spans, f.sp);
  }

  lemma SkipTable(src: seq<Byte>, hash: nat -> nat, f: Finder, spans: seq<Span>)
    requires TableOk(src, hash, f, spans)
    ensures Searching(src, Skip(src, hash, f)) ==> TableOk(src, hash, Skip(src, hash, f), spans)
  {
    EnteredHere(src, f, spans);
    RecentInsert(src, hash, f.table, Remembered(|src|, spans, f.sp), f.sp);
    hide Entered, Slot, Earlier, Recent;
  }

  /** Once a match is written, the positions in front of its end that are remembered
      are those before, its start, and the one two bytes before its end. */
  lemma EnteredBehind(n: nat, spans: seq<Span>, s: Span)
    requires s.start + 4 <= s.end && s.end + 9 <= n && Behind(spans, s.start)
    ensures Remembered(n, spans + [s], s.end) == Remembered(n, spans, s.start + 1) + {s.end - 2}
  {
    var all := spans + [s];
    assert all[|spans|] == s;
    assert forall k :: 0 <= k < |spans| ==> all[k] == spans[k];
    forall i | 0 <= i < s.end
      ensures Entered(n, all, i) <==> i == s.end - 2 || (i <= s.start && Entered(n, spans, i))
    {
      if Searched(n, spans, i) && i <= s.start { assert Searched(n, all, i); }
      if Searched(n, all, i) { assert Searched(n, spans, i); }
    }
    hide Entered;
  }

  lemma TakeSpan(src: seq<Byte>, hash: nat -> nat, f: Finder, spans: seq<Span>)
    requires Searching(src, f) && Behind(spans, f.anchor) && Hit(src, hash, f)
    ensures var s, f' := SpanOf(f.anchor, Emitted(src, hash, f)), Take(src, hash, f);
            && s.start == f.sp && s.end == f'.sp == f'.anchor && s.start + 4 <= s.end
            && s.offset == f.sp - Candidate(src, hash, f) && Behind(spans + [s], s.end)
  {
    hide Matches, Earlier, Extra, Slot;
  }

  lemma TakeTable(src: seq<Byte>, hash: nat -> nat, f: Finder, spans: seq<Span>)
    requires TableOk(src, hash, f, spans) && Hit(src, hash, f)
    ensures var f', s := Take(src, hash, f), SpanOf(f.anchor, Emitted(src, hash, f));
            Searching(src, f') ==> TableOk(src, hash, f', spans + [s])
  {
    hide Hit, Entered, Searched, Slot, Recent, Emitted, Extra, Remembered;
    var f', s := Take(src, hash, f), SpanOf(f.anchor, Emitted(src, hash, f));
    TakeSpan(src, hash, f, spans);
    if Searching(src, f') {
      var seen := Remembered(|src|, spans, f.sp);
      EnteredHere(src, f, spans);
      EnteredBehind(|src|, spans, s);
      InFront(|src|, spans, f.sp);
      RecentInsert(src, hash, f.table, seen, f.sp);
      RecentInsert(src, hash, f.table[Slot(src, hash, f.sp) := f.sp], seen + {f.sp}, f'.sp - 2);
    }
  }

  lemma InFront(n: nat, spans: seq<Span>, sp: nat)
    ensures forall i :: i in Remembered(n, spans, sp) ==> i < sp
  {
  }

  // ----- The parse is greedy -----

  /** Later matches start where the finder has got to, or behind. */
  predicate Ahead(spans: seq<Span>, sp: nat) {
    forall k :: 0 <= k < |spans| ==> sp <= spans[k].start && spans[k].start + 4 <= spans[k].end
  }

  function Rest(src: seq<Byte>, hash: nat -> nat, f: Finder): seq<Span>
    requires Valid(src, f)
  {
    Spans(f.anchor, Parse(src, hash, f).sequences)
  }

  lemma RestStep(src: seq<Byte>, hash: nat -> nat, f: Finder)
    requires Valid(src, f)
    ensures !Searching(src, f) ==> Rest(src, hash, f) == []
    ensures Searching(src, f) && !Hit(src, hash, f) ==> Rest(src, hash, f) == Rest(src, hash, Skip(src, hash, f))
    ensures Searching(src, f) && Hit(src, hash, f) ==>
              Rest(src, hash, f) == [SpanOf(f.anchor, Emitted(src, hash, f))] + Rest(src, hash, Take(src, hash, f))
  {
    hide Hit, Skip, Take, Emitted, Earlier;
    if Searching(src, f) && Hit(src, hash, f) {
      var e, b := Emitted(src, hash, f), Parse(src, hash, Take(src, hash, f));
      assert ([e] + b.sequences)[1..] == b.sequences;
    }
  }

  lemma {:induction false} RestAhead(src: seq<Byte>, hash: nat -> nat, f: Finder)
    requires Valid(src, f)
    ensures Ahead(Rest(src, hash, f), f.sp)
    decreases |src| - f.sp
  {
    hide Hit, Rest, Earlier, Extra;
    RestStep(src, hash, f);
    if Searching(src, f) {
      if Hit(src, hash, f) {
        RestAhead(src, hash, Take(src, hash, f));
      } else {
        RestAhead(src, hash, Skip(src, hash, f));
      }
    }
  }

  /** What is remembered in front of `sp` does not depend on later matches. */
  lemma EnteredEarly(n: nat, spans: seq<Span>, rest: seq<Span>, sp: nat, i: nat)
    requires i < sp && Ahead(rest, sp)
    ensures Entered(n, spans + rest, i) <==> Entered(n, spans, i)
  {
    var all := spans + rest;
    assert forall k :: 0 <= k < |spans| ==> all[k] == spans[k];
    assert forall k :: |spans| <= k < |all| ==> all[k] == rest[k - |spans|];
    if Searched(n, spans, i) { assert Searched(n, all, i); }
    if Searched(n, all, i) { assert Searched(n, spans, i); }
  }

  /** The last position of the hash, by the table. */
  lemma LastIsCandidate(src: seq<Byte>, hash: nat -> nat, f: Finder, spans: seq<Span>, rest: seq<Span>, i: nat)
    requires TableOk(src, hash, f, spans) && Ahead(rest, f.sp) && 0 < i < f.sp
    ensures LastInSlot(src, hash, spans + rest, i, f.sp) <==> i == Candidate(src, hash, f)
  {
    var all := spans + rest;
    forall m: nat | m < f.sp
      ensures Entered(|src|, all, m) <==> Entered(|src|, spans, m)
      ensures SameSlot(src, hash, m, f.sp) <==> Slot(src, hash, m) == Slot(src, hash, f.sp)
    {
      EnteredEarly(|src|, spans, rest, f.sp, m);
      SlotIsSame(src, hash, m, f.sp);
    }
    hide Entered, SameSlot, Slot, Ahead;
  }

  lemma ReferIsMatch(src: seq<Byte>, ref: nat, sp: nat)
    requires 0 < ref < sp && sp + 4 <= |src|
    ensures CanRefer(src, ref, sp) <==> Matches(src, ref, sp)
  {
    Get32Injective(src[ref..ref + 4], src[sp..sp + 4]);
  }

  lemma HereGreedy(src: seq<Byte>, hash: nat -> nat, f: Finder, spans: seq<Span>, rest: seq<Span>)
    requires TableOk(src, hash, f, spans) && Ahead(rest, f.sp)
    requires forall offset :: StartsAt(spans + rest, f.sp, offset) <==>
               Hit(src, hash, f) && offset == f.sp - Candidate(src, hash, f)
    ensures GreedyAt(src, hash, spans + rest, f.sp)
  {
    forall i: nat | i < f.sp
      ensures StartsAt(spans + rest, f.sp, f.sp - i)
              <==> LastInSlot(src, hash, spans + rest, i, f.sp) && CanRefer(src, i, f.sp)
    {
      if i > 0 {
        LastIsCandidate(src, hash, f, spans, rest, i);
        ReferIsMatch(src, i, f.sp);
      }
      hide LastInSlot, StartsAt, Candidate, TableOk, Ahead;
    }
  }

  lemma NoStart(spans: seq<Span>, rest: seq<Span>, anchor: nat, sp: nat)
    requires Behind(spans, anchor) && anchor <= sp && Ahead(rest, sp + 1)
    ensures forall offset :: !StartsAt(spans + rest, sp, offset)
  {
    var all := spans + rest;
    assert forall k :: 0 <= k < |spans| ==> all[k] == spans[k];
    assert forall k :: |spans| <= k < |all| ==> all[k] == rest[k - |spans|];
  }

  lemma OneStart(spans: seq<Span>, s: Span, rest: seq<Span>, anchor: nat)
    requires Behind(spans, anchor) && anchor <= s.start && s.start + 4 <= s.end && Ahead(rest, s.end)
    ensures forall offset :: StartsAt(spans + ([s] + rest), s.start, offset) <==> offset == s.offset
    ensures Ahead([s] + rest, s.start)
  {
    var tail := [s] + rest;
    var all := spans + tail;
    assert forall k :: 0 <= k < |spans| ==> all[k] == spans[k];
    assert all[|spans|] == s;
    assert forall k :: 1 <= k < |tail| ==> tail[k] == rest[k - 1];
    assert forall k :: |spans| < k < |all| ==> all[k] == rest[k - |spans| - 1];
  }

  /** From any point on, every position the finder looks at is treated greedily. */
  ghost predicate GreedyFrom(src: seq<Byte>, hash: nat -> nat, spans: seq<Span>, sp: nat) {
    forall j: nat :: sp <= j && Searched(|src|, spans, j) ==> GreedyAt(src, hash, spans, j)
  }

  lemma {:induction false} ParseGreedy(src: seq<Byte>, hash: nat -> nat, f: Finder, spans: seq<Span>)
    requires Valid(src, f) && (Searching(src, f) ==> TableOk(src, hash, f, spans))
    ensures GreedyFrom(src, hash, spans + Rest(src, hash, f), f.sp)
    decreases |src| - f.sp
  {
    hide TableOk, Rest, Hit, Skip, Take, GreedyAt, Candidate, Earlier, Ahead, StartsAt, Emitted;
    RestStep(src, hash, f);
    if Searching(src, f) {
      if Hit(src, hash, f) {
        TakeTable(src, hash, f, spans);
        ParseGreedy(src, hash, Take(src, hash, f), spans + [SpanOf(f.anchor, Emitted(src, hash, f))]);
        GreedyTake(src, hash, f, spans);
      } else {
        SkipTable(src, hash, f, spans);
        ParseGreedy(src, hash, Skip(src, hash, f), spans);
        GreedySkip(src, hash, f, spans);
      }
    }
  }

  lemma GreedySkip(src: seq<Byte>, hash: nat -> nat, f: Finder, spans: seq<Span>)
    requires TableOk(src, hash, f, spans) && !Hit(src, hash, f)
    requires GreedyFrom(src, hash, spans + Rest(src, hash, Skip(src, hash, f)), f.sp + 1)
    ensures GreedyFrom(src, hash, spans + Rest(src, hash, f), f.sp)
  {
    hide Rest, Hit, GreedyAt, StartsAt, Entered, Slot, Candidate, Searched;
    var rest := Rest(src, hash, f);
    RestStep(src, hash, f);
    RestAhead(src, hash, Skip(src, hash, f));
    NoStart(spans, rest, f.anchor, f.sp);
    HereGreedy(src, hash, f, spans, rest);
  }

  lemma GreedyTake(src: seq<Byte>, hash: nat -> nat, f: Finder, spans: seq<Span>)
    requires TableOk(src, hash, f, spans) && Hit(src, hash, f)
    requires var f', s := Take(src, hash, f), SpanOf(f.anchor, Emitted(src, hash, f));
             GreedyFrom(src, hash, spans + [s] + Rest(src, hash, f'), f'.sp)
    ensures GreedyFrom(src, hash, spans + Rest(src, hash, f), f.sp)
  {
    hide Rest, GreedyAt, StartsAt, Entered, Slot, Earlier, LastInSlot, Ahead, Hit, Take, Emitted, Recent, Remembered;
    TakeSpan(src, hash, f, spans);
    var f', s := Take(src, hash, f), SpanOf(f.anchor, Emitted(src, hash, f));
    var after := Rest(src, hash, f');
    RestStep(src, hash, f);
    RestAhead(src, hash, f');
    OneStart(spans, s, after, f.anchor);
    var all := spans + ([s] + after);
    assert spans + [s] + after == all;
    HereGreedy(src, hash, f, spans, [s] + after);
    assert all[|spans|] == s;
  }

  /** The matches of the parse of `src`. */
  function Matched(src: seq<Byte>, hash: nat -> nat): seq<Span> {
    Spans(0, ParseAll(src, hash).sequences)
  }

  /** For every input and every hash: at each position that no match runs over, a
      match starts exactly when the last remembered position with the same hash is not
      0, less than 64 KiB back, and shows the same four bytes. */
  lemma FindsExactly(src: seq<Byte>, hash: nat -> nat, j: nat)
    requires Searched(|src|, Matched(src, hash), j)
    ensures GreedyAt(src, hash, Matched(src, hash), j)
  {
    hide Parse, GreedyAt, Searched;
    StartTable(src, hash);
    ParseGreedy(src, hash, Start(), []);
    assert [] + Matched(src, hash) == Matched(src, hash);
  }

  lemma StartTable(src: seq<Byte>, hash: nat -> nat)
    ensures Searching(src, Start()) ==> TableOk(src, hash, Start(), [])
  {
  }

  // ----- Matches are as long as can be -----

  /** The span repeats what is `offset` back, and could not be longer. */
  predicate Longest(src: seq<Byte>, s: Span) {
    && 0 < s.offset <= s.start < s.end <= |src|
    && (forall x :: s.start <= x < s.end ==> src[x] == src[x - s.offset])
    && (s.end < |src| ==> src[s.end] != src[s.end - s.offset])
  }

  lemma MatchLongest(src: seq<Byte>, ref: nat, sp: nat)
    requires 0 < ref < sp && sp + 4 <= |src| && Matches(src, ref, sp)
    ensures Longest(src, Span(sp, sp + 4 + Extra(src, ref, sp), sp - ref))
  {
    ReferIsMatch(src, ref, sp);
    MatchIsMaximal(src, ref + MIN_MATCH, sp + MIN_MATCH);
    hide Matches, MatchLength;
    forall x | sp <= x < sp + 4
      ensures src[x] == src[x - (sp - ref)]
    {
      assert src[sp..sp + 4][x - sp] == src[ref..ref + 4][x - sp];
    }
  }

  lemma EmittedLongest(src: seq<Byte>, hash: nat -> nat, f: Finder)
    requires Searching(src, f) && Hit(src, hash, f)
    ensures Longest(src, SpanOf(f.anchor, Emitted(src, hash, f)))
  {
    hide Earlier, Slot, Extra, Longest;
    MatchLongest(src, Candidate(src, hash, f), f.sp);
  }

  lemma {:induction false} RestLongest(src: seq<Byte>, hash: nat -> nat, f: Finder, k: nat)
    requires Valid(src, f) && k < |Rest(src, hash, f)|
    ensures Longest(src, Rest(src, hash, f)[k])
    decreases |src| - f.sp
  {
    hide Hit, Rest, Earlier, Emitted, Longest, Extra;
    RestStep(src, hash, f);
    if Hit(src, hash, f) {
      if k == 0 {
        EmittedLongest(src, hash, f);
      } else {
        RestLongest(src, hash, Take(src, hash, f), k - 1);
      }
    } else {
      RestLongest(src, hash, Skip(src, hash, f), k);
    }
  }

  lemma MatchesAreLongest(src: seq<Byte>, hash: nat -> nat, k: nat)
    requires k < |Matched(src, hash)|
    ensures Longest(src, Matched(src, hash)[k])
  {
    hide Parse, Longest;
    RestLongest(src, hash, Start(), k);
  }

  // ----- Repetitive inputs -----

  predicate HasPeriod(src: seq<Byte>, p: nat) {
    forall i :: 0 <= i && i + p < |src| ==> src[i] == src[i + p]
  }

  /** The windows of one period have hash slots of their own. */
  predicate OwnSlots(src: seq<Byte>, hash: nat -> nat, p: nat) {
    p + 4 <= |src| && forall i, j :: 1 <= i < j <= p ==> !SameSlot(src, hash, i, j)
  }

  lemma {:induction false} RunsToEnd(src: seq<Byte>, p: nat, ref: nat)
    requires 0 < p && HasPeriod(src, p) && ref + p <= |src|
    ensures MatchLength(src, ref, ref + p) == |src| - ref - p
    decreases |src| - ref
  {
    if ref + p < |src| { RunsToEnd(src, p, ref + 1); }
  }

  /** The windows at 1 and one period later are the same. */
  lemma WindowAgain(src: seq<Byte>, hash: nat -> nat, p: nat)
    requires HasPeriod(src, p) && p + 5 <= |src|
    ensures src[1..5] == src[p + 1..p + 5] && Slot(src, hash, 1) == Slot(src, hash, p + 1)
  {
    assert src[1] == src[p + 1] && src[2] == src[p + 2] && src[3] == src[p + 3] && src[4] == src[p + 4];
    assert src[1..5] == src[p + 1..p + 5];
  }

  /** In front of the second window of the second period nothing is found. */
  lemma FirstPeriodMisses(src: seq<Byte>, hash: nat -> nat, f: Finder, p: nat)
    requires TableOk(src, hash, f, []) && OwnSlots(src, hash, p) && f.sp <= p
    ensures !Hit(src, hash, f)
  {
    var c := Candidate(src, hash, f);
    hide Entered, Slot, Get32;
    if c != 0 {
      SlotIsSame(src, hash, c, f.sp);
      assert 1 <= c < f.sp;
    }
  }

  /** There, the window one period back is found. */
  lemma SecondPeriodHits(src: seq<Byte>, hash: nat -> nat, f: Finder, p: nat)
    requires 0 < p < 65536 && HasPeriod(src, p) && OwnSlots(src, hash, p)
    requires TableOk(src, hash, f, []) && f.sp == p + 1
    ensures Candidate(src, hash, f) == 1 && Hit(src, hash, f)
  {
    WindowAgain(src, hash, p);
    assert Searched(|src|, [], 1) && Entered(|src|, [], 1);
    var c := Candidate(src, hash, f);
    hide Entered, Slot, HasPeriod, SameSlot;
    assert 1 in Remembered(|src|, [], f.sp);
    SlotIsSame(src, hash, 1, c);
    ReferIsMatch(src, 1, p + 1);
  }

  lemma {:induction false} PeriodParse(src: seq<Byte>, hash: nat -> nat, f: Finder, p: nat)
    requires 0 < p < 65536 && HasPeriod(src, p) && OwnSlots(src, hash, p) && p + 10 <= |src|
    requires Valid(src, f) && f.anchor == 0 && f.sp <= p + 1 && TableOk(src, hash, f, [])
    ensures Parse(src, hash, f) == Block([Sequence(src[..p + 1], p, |src| - p - 5)], [])
    decreases p + 1 - f.sp
  {
    hide TableOk, Hit, HasPeriod, OwnSlots, Earlier, Slot, Candidate;
    if f.sp <= p {
      FirstPeriodMisses(src, hash, f, p);
      SkipTable(src, hash, f, []);
      PeriodParse(src, hash, Skip(src, hash, f), p);
    } else {
      SecondPeriodHits(src, hash, f, p);
      RunsToEnd(src, p, 5);
      var f' := Take(src, hash, f);
      assert f'.sp == |src| && src[|src|..] == [];
      assert Parse(src, hash, f') == Block([], []);
      assert src[0..p + 1] == src[..p + 1];
    }
  }

  /** An input of period `p` is one match: the first period and a byte, and the rest by
      reference. */
  lemma PeriodIsOneMatch(src: seq<Byte>, hash: nat -> nat, p: nat)
    requires 0 < p < 65536 && HasPeriod(src, p) && OwnSlots(src, hash, p) && p + 10 <= |src|
    ensures ParseAll(src, hash) == Block([Sequence(src[..p + 1], p, |src| - p - 5)], [])
  {
    hide Parse, HasPeriod, OwnSlots;
    StartTable(src, hash);
    PeriodParse(src, hash, Start(), p);
  }

  /** What is written is the period, and little more. */
  lemma PeriodSize(src: seq<Byte>, hash: nat -> nat, p: nat)
    requires 0 < p < 65536 && HasPeriod(src, p) && OwnSlots(src, hash, p) && p + 10 <= |src|
    ensures |EncodeBlock(ParseAll(src, hash))| <= p + 7 + |src| / 255
  {
    hide ParseAll, HasPeriod, OwnSlots, Le16;
    PeriodIsOneMatch(src, hash, p);
    var s := Sequence(src[..p + 1], p, |src| - p - 5);
    assert EncodeAll([s]) == EncodeSequence(s) + EncodeAll([s][1..]);
    TailSize(p + 1);
    TailSize(|src| - p - 5);
    assert |Le16(p)| == 2;
  }

  lemma TailSize(n: nat)
    ensures |Tail(n)| <= (n + 240) / 255
  {
  }
}
