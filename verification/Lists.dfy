/** Packed lists refine sequences of byte strings. */
module Lists {
  import opened Bytes
  import opened Packed

  function Element(e: seq<Byte>): Item { Item([], e) }

  function Values(items: seq<Item>): (vs: seq<seq<Byte>>)
    ensures |vs| == |items| && forall i :: 0 <= i < |vs| ==> vs[i] == items[i].value
  {
    seq(|items|, i requires 0 <= i < |items| => items[i].value)
  }

  function ListOf(raw: seq<Byte>): seq<seq<Byte>> {
    Values(Decode(Elements, raw))
  }

  predicate ProperList(raw: seq<Byte>) { Proper(Elements, raw) }

  predicate Room(raw: seq<Byte>, e: seq<Byte>) {
    |e| < TWO32 && Count(raw) + 1 < TWO32
  }

  // ----- Pushing -----

  function PushFront(raw: seq<Byte>, e: seq<Byte>): seq<Byte> {
    Le32(Count(raw) + 1) + EncodeItem(Elements, Element(e)) + if |raw| < 4 then [] else raw[4..]
  }

  lemma FrontBytes(raw: seq<Byte>, e: seq<Byte>)
    requires ProperList(raw)
    ensures PushFront(raw, e) == Encode(Elements, [Element(e)] + Decode(Elements, raw))
  {
    hide Le32, Body, EncodeItem, Fits, Decode, Count;
    var items, it := Decode(Elements, raw), Element(e);
    RepresentedDecodes(Elements, raw, items);
    BodyAppend(Elements, [it], items);
    BodyOne(Elements, it);
    if items == [] { EmptyBody(Elements); } else { assert raw[4..] == Body(Elements, items); }
    assert PushFront(raw, e) == Le32(|items| + 1) + (EncodeItem(Elements, it) + Body(Elements, items));
  }

  lemma FrontFits(raw: seq<Byte>, e: seq<Byte>)
    requires ProperList(raw)
    ensures Room(raw, e) <==> Fits(Elements, [Element(e)] + Decode(Elements, raw))
    ensures Room(raw, e) <==> Fits(Elements, Decode(Elements, raw) + [Element(e)])
  {
    hide Decode, Encode, Count;
    var items, it := Decode(Elements, raw), Element(e);
    RepresentedDecodes(Elements, raw, items);
    assert ([it] + items)[0] == it && (items + [it])[|items|] == it;
    assert forall i :: 0 <= i < |items| ==> ([it] + items)[i + 1] == items[i];
  }

  /** Pushing in front puts the element before the list exactly when there is room. */
  lemma PushFrontExact(raw: seq<Byte>, e: seq<Byte>)
    requires ProperList(raw)
    ensures Room(raw, e) ==> ProperList(PushFront(raw, e)) && ListOf(PushFront(raw, e)) == [e] + ListOf(raw)
    ensures Decode(Elements, PushFront(raw, e)) == [Element(e)] + Decode(Elements, raw) <==> Room(raw, e)
  {
    hide Decode, Encode, PushFront, Fits, Room;
    var items := [Element(e)] + Decode(Elements, raw);
    FrontBytes(raw, e);
    FrontFits(raw, e);
    DecodeExact(Elements, items);
    if Room(raw, e) {
      RepresentedDecodes(Elements, PushFront(raw, e), items);
      assert Values(items) == [e] + ListOf(raw);
    }
  }

  /** Pushing at the back is adding, and fails on the empty list: its buffer is
      then four bytes too short. */
  function PushBack(raw: seq<Byte>, e: seq<Byte>): Option<seq<Byte>> {
    if |raw| < 4 then None else Some(Added(Elements, raw, Element(e)))
  }

  /** Pushing at the back works exactly on the non-empty lists. */
  lemma PushBackExact(raw: seq<Byte>, e: seq<Byte>)
    requires ProperList(raw)
    ensures var r := PushBack(raw, e);
            && (r.Some? <==> ListOf(raw) != [])
            && (r.Some? && Room(raw, e) ==> ProperList(r.value) && ListOf(r.value) == ListOf(raw) + [e])
            && (r.Some? ==> (Decode(Elements, r.value) == Decode(Elements, raw) + [Element(e)] <==> Room(raw, e)))
  {
    hide Decode, Encode, Added, Fits, Room;
    var items := Decode(Elements, raw) + [Element(e)];
    LongIsSome(raw);
    AddedExact(Elements, raw, Element(e));
    FrontFits(raw, e);
    if Room(raw, e) {
      RepresentedDecodes(Elements, Added(Elements, raw, Element(e)), items);
      assert Values(items) == ListOf(raw) + [e];
    }
  }

  lemma LongIsSome(raw: seq<Byte>)
    requires ProperList(raw)
    ensures |raw| >= 4 <==> Decode(Elements, raw) != []
  {
    hide Decode, Fits, Body, Le32;
  }

  // ----- Popping -----

  /** The payload without its first element, and the element. */
  function PopFront(raw: seq<Byte>): Option<(seq<Byte>, seq<Byte>)> {
    var at := ItemAt(Elements, raw, 4);
    if Count(raw) == 0 || at.None? then None else Some((Cut(raw, 4, at.value.end), at.value.item.value))
  }

  /** On any bytes, popping in front gives the first decoded element. */
  lemma PopFrontFirst(raw: seq<Byte>)
    ensures PopFront(raw).Some? <==> ListOf(raw) != []
    ensures PopFront(raw).Some? ==> PopFront(raw).value.1 == ListOf(raw)[0]
  {
    hide ItemAt, Cut, Count;
  }

  /** On a list, it leaves the others. */
  lemma PopFrontRest(raw: seq<Byte>)
    requires ProperList(raw) && ListOf(raw) != []
    ensures PopFront(raw).Some? && ProperList(PopFront(raw).value.0)
    ensures ListOf(PopFront(raw).value.0) == ListOf(raw)[1..]
  {
    hide ItemAt, Cut, Decode, Encode, Fits, Count;
    var items := Decode(Elements, raw);
    PopFrontFirst(raw);
    EndOf(raw, 0);
    assert items[..0] == [];
    var rest := Without(items, 0);
    RepresentedDecodes(Elements, PopFront(raw).value.0, rest);
    assert Values(rest) == ListOf(raw)[1..];
  }

  /** Item `i` of a list lies at its place, and can be cut out. */
  lemma EndOf(raw: seq<Byte>, i: nat)
    requires ProperList(raw) && i < |Decode(Elements, raw)|
    ensures var items := Decode(Elements, raw);
            var s, e := Start(Elements, items, i), Start(Elements, items, i) + |EncodeItem(Elements, items[i])|;
            && Count(raw) == |items| && e <= |raw|
            && ItemAt(Elements, raw, s) == Some(At(s, items[i], e))
            && Represents(Elements, Cut(raw, s, e), Without(items, i))
  {
    hide ItemAt, Cut, Decode, Body, Le32, EncodeItem, ItemFits, Count;
    var items := Decode(Elements, raw);
    RepresentedDecodes(Elements, raw, items);
    CutRepresents(Elements, items, i);
    SplitAround(Elements, items, i);
    var pre, post := Le32(|items|) + Body(Elements, items[..i]), Body(Elements, items[i + 1..]);
    assert raw == pre + EncodeItem(Elements, items[i]) + post;
    ItemBack(Elements, pre, items[i], post);
  }

  /** The last of `n` items from `off` on, when all are whole. */
  function LastOf(raw: seq<Byte>, off: nat, n: nat): (r: Option<At>)
    ensures r.Some? ==> off <= r.value.start < r.value.end <= |raw|
    decreases n
  {
    var at := ItemAt(Elements, raw, off);
    if n == 0 || at.None? then None
    else if n == 1 then at
    else LastOf(raw, at.value.end, n - 1)
  }

  /** The payload cut off before its last element, and the element. */
  function PopBack(raw: seq<Byte>): Option<(seq<Byte>, seq<Byte>)> {
    var last := LastOf(raw, 4, Count(raw));
    if last.None? then None
    else if Count(raw) == 1 then Some(([], last.value.item.value))
    else Some((WithCount(raw[..last.value.start], Count(raw) - 1), last.value.item.value))
  }

  lemma {:induction false} LastWalks(raw: seq<Byte>, off: nat, n: nat)
    ensures var r, items := LastOf(raw, off, n), Walk(Elements, raw, off, n);
            && |items| <= n
            && (r.Some? <==> n > 0 && |items| == n)
            && (r.Some? ==> r.value.item == items[n - 1])
    decreases n
  {
    hide ItemAt;
    var at := ItemAt(Elements, raw, off);
    if n > 0 && at.Some? { LastWalks(raw, at.value.end, n - 1); }
  }

  /** On any bytes, popping at the back gives the last element, when as many are
      decoded as the count says. */
  lemma PopBackLast(raw: seq<Byte>)
    ensures PopBack(raw).Some? <==> ListOf(raw) != [] && |ListOf(raw)| == Count(raw)
    ensures PopBack(raw).Some? ==> PopBack(raw).value.1 == ListOf(raw)[|ListOf(raw)| - 1]
  {
    hide Walk, LastOf, Count;
    LastWalks(raw, 4, Count(raw));
  }

  lemma {:induction false} LastBack(pre: seq<Byte>, items: seq<Item>)
    requires AllFit(Elements, items) && items != []
    ensures var r := LastOf(pre + Body(Elements, items), |pre|, |items|);
            r.Some? && r.value.start == |pre| + |Body(Elements, items[..|items| - 1])|
    decreases |items|
  {
    hide ItemAt, EncodeItem, ItemFits;
    var b, rest := EncodeItem(Elements, items[0]), items[1..];
    assert pre + Body(Elements, items) == pre + b + Body(Elements, rest);
    ItemBack(Elements, pre, items[0], Body(Elements, rest));
    if rest != [] {
      LastBack(pre + b, rest);
      var front := items[..|items| - 1];
      assert front[0] == items[0] && front[1..] == rest[..|rest| - 1];
    }
  }

  lemma PopBackRest(raw: seq<Byte>)
    requires ProperList(raw) && ListOf(raw) != []
    ensures PopBack(raw).Some? && ProperList(PopBack(raw).value.0)
    ensures ListOf(PopBack(raw).value.0) == ListOf(raw)[..|ListOf(raw)| - 1]
  {
    hide Decode, Fits, Count, LastOf, Body, Le32;
    var items := Decode(Elements, raw);
    var n := |items| - 1;
    RepresentedDecodes(Elements, raw, items);
    assert Fits(Elements, items[..n]) by { FrontStillFits(items); }
    assert AllFit(Elements, items) by { FrontStillFits(items); }
    LastBack(Le32(|items|), items);
    assert items == items[..n] + [items[n]];
    BodyAppend(Elements, items[..n], [items[n]]);
    if n > 0 {
      var s := 4 + |Body(Elements, items[..n])|;
      assert raw[..s][4..] == Body(Elements, items[..n]);
    }
    RepresentedDecodes(Elements, PopBack(raw).value.0, items[..n]);
    assert Values(items[..n]) == ListOf(raw)[..n];
  }

  lemma FrontStillFits(items: seq<Item>)
    requires Fits(Elements, items) && items != []
    ensures Fits(Elements, items[..|items| - 1]) && AllFit(Elements, items)
  {
    hide ItemFits;
  }

  // ----- Runs -----

  datatype Op = LPush(e: seq<Byte>) | RPush(e: seq<Byte>) | LPop | RPop

  /** A run ends early, without a payload, when an operation fails. */
  function Run(raw: seq<Byte>, ops: seq<Op>): Option<seq<Byte>>
    decreases |ops|
  {
    if ops == [] then Some(raw)
    else match ops[0]
      case LPush(e) => Run(PushFront(raw, e), ops[1..])
      case RPush(e) =>
        var r := PushBack(raw, e);
        if r.None? then None else Run(r.value, ops[1..])
      case LPop =>
        var r := PopFront(raw);
        Run(if r.None? then raw else r.value.0, ops[1..])
      case RPop =>
        var r := PopBack(raw);
        Run(if r.None? then raw else r.value.0, ops[1..])
  }

  function RunList(l: seq<seq<Byte>>, ops: seq<Op>): Option<seq<seq<Byte>>>
    decreases |ops|
  {
    if ops == [] then Some(l)
    else match ops[0]
      case LPush(e) => RunList([e] + l, ops[1..])
      case RPush(e) => if l == [] then None else RunList(l + [e], ops[1..])
      case LPop => RunList(if l == [] then l else l[1..], ops[1..])
      case RPop => RunList(if l == [] then l else l[..|l| - 1], ops[1..])
  }

  lemma SizeOf(raw: seq<Byte>)
    requires ProperList(raw)
    ensures Count(raw) == |ListOf(raw)|
  {
    hide Decode, Represents, Count;
    RepresentedDecodes(Elements, raw, Decode(Elements, raw));
  }

  /** Over every run, the payload decodes to the sequence, and the run fails
      exactly where it pushes at the back of an empty one. */
  lemma {:induction false} RunsRefineSequences(raw: seq<Byte>, ops: seq<Op>)
    requires ProperList(raw) && |ListOf(raw)| + |ops| < TWO32
    requires forall i :: 0 <= i < |ops| && (ops[i].LPush? || ops[i].RPush?) ==> |ops[i].e| < TWO32
    ensures var r, l := Run(raw, ops), RunList(ListOf(raw), ops);
            && (r.Some? <==> l.Some?)
            && (r.Some? ==> ProperList(r.value) && ListOf(r.value) == l.value && Count(r.value) == |l.value|)
    decreases |ops|
  {
    hide ProperList, ListOf, PushFront, PushBack, PopFront, PopBack, Count;
    SizeOf(raw);
    if ops != [] {
      match ops[0]
      case LPush(e) =>
        PushFrontExact(raw, e);
        RunsRefineSequences(PushFront(raw, e), ops[1..]);
      case RPush(e) =>
        PushBackExact(raw, e);
        if ListOf(raw) != [] { RunsRefineSequences(PushBack(raw, e).value, ops[1..]); }
      case LPop =>
        PopFrontFirst(raw);
        if ListOf(raw) != [] { PopFrontRest(raw); }
        RunsRefineSequences(if ListOf(raw) == [] then raw else PopFront(raw).value.0, ops[1..]);
      case RPop =>
        PopBackLast(raw);
        if ListOf(raw) != [] { PopBackRest(raw); }
        RunsRefineSequences(if ListOf(raw) == [] then raw else PopBack(raw).value.0, ops[1..]);
    }
  }

  // ----- The operations -----

  method LeftPush(raw: seq<Byte>, e: seq<Byte>) returns (r: seq<Byte>)
    ensures r == PushFront(raw, e)
    ensures ProperList(raw) && Room(raw, e) ==> ProperList(r) && ListOf(r) == [e] + ListOf(raw)
  {
    hide ProperList, ListOf, Room, Le32;
    if ProperList(raw) { PushFrontExact(raw, e); }
    var count, body := 0, [];
    if |raw| >= 4 { count, body := Get32(raw[..4]), raw[4..]; }
    assert EncodeItem(Elements, Element(e)) == Le32(|e|) + e;
    return Le32(count + 1) + (Le32(|e|) + e) + body;
  }

  /** Fails when the buffer it made cannot be extended to hold a count. */
  method RightPush(raw: seq<Byte>, e: seq<Byte>) returns (r: Option<seq<Byte>>)
    ensures r == PushBack(raw, e)
    ensures ProperList(raw) ==> (r.Some? <==> ListOf(raw) != [])
    ensures ProperList(raw) && r.Some? && Room(raw, e) ==> ProperList(r.value) && ListOf(r.value) == ListOf(raw) + [e]
  {
    hide ProperList, ListOf, Room, Le32;
    if ProperList(raw) { PushBackExact(raw, e); }
    var capacity := |raw| + 4 + |e|;
    if |raw| < 4 {
      if 4 + 4 + |e| > capacity { return None; }
    }
    assert EncodeItem(Elements, Element(e)) == Le32(|e|) + e;
    return Some(Le32(Get32(raw[..4]) + 1) + raw[4..] + (Le32(|e|) + e));
  }

  method LeftPop(raw: seq<Byte>) returns (r: seq<Byte>, popped: seq<Byte>, ok: bool)
    ensures ok <==> ListOf(raw) != []
    ensures if ok then PopFront(raw) == Some((r, popped)) && popped == ListOf(raw)[0] else r == raw
    ensures ProperList(raw) && ok ==> ProperList(r) && ListOf(r) == ListOf(raw)[1..]
  {
    hide ProperList, ListOf, Le32, ItemAt;
    PopFrontFirst(raw);
    if ProperList(raw) && ListOf(raw) != [] { PopFrontRest(raw); }
    ItemAtFour(raw);
    if |raw| < 8 { return raw, [], false; }
    var count := Get32(raw[..4]);
    if count == 0 { return raw, [], false; }
    var first := Get32(raw[4..8]);
    if 8 + first > |raw| { return raw, [], false; }
    popped := raw[8..8 + first];
    if count == 1 { return [], popped, true; }
    assert (raw[..4] + raw[8 + first..])[4..] == raw[8 + first..];
    return Le32(count - 1) + raw[8 + first..], popped, true;
  }

  lemma ItemAtFour(raw: seq<Byte>)
    ensures ItemAt(Elements, raw, 4) ==
            if |raw| < 8 || 8 + Get32(raw[4..8]) > |raw| then None
            else Some(At(4, Item([], raw[8..8 + Get32(raw[4..8])]), 8 + Get32(raw[4..8])))
  {
    hide Get32;
  }

  /** Walks over all elements, remembering where the last one starts. */
  method RightPop(raw: seq<Byte>) returns (r: seq<Byte>, popped: seq<Byte>, ok: bool)
    ensures ok <==> ListOf(raw) != [] && |ListOf(raw)| == Count(raw)
    ensures if ok then PopBack(raw) == Some((r, popped)) && popped == ListOf(raw)[|ListOf(raw)| - 1] else r == raw
    ensures ProperList(raw) && ok ==> ProperList(r) && ListOf(r) == ListOf(raw)[..|ListOf(raw)| - 1]
  {
    hide ProperList, ListOf, Le32, ItemAt, LastOf, Get32;
    PopBackLast(raw);
    if ProperList(raw) && ListOf(raw) != [] { PopBackRest(raw); }
    var last := WalkToLast(raw);
    if last.None? { return raw, [], false; }
    var count, start := Count(raw), last.value.start;
    popped := last.value.item.value;
    if count == 1 { return [], popped, true; }
    return Le32(count - 1) + raw[..start][4..], popped, true;
  }

  method WalkToLast(raw: seq<Byte>) returns (last: Option<At>)
    ensures last == LastOf(raw, 4, Count(raw))
  {
    hide ItemAt, Count;
    var count, off := Count(raw), 4;
    last := None;
    for i := 0 to count
      invariant i == 0 ==> last.None? && off == 4
      invariant i > 0 ==> last.Some?
      invariant LastOf(raw, 4, count) == if i == count then last else LastOf(raw, off, count - i)
    {
      last := ItemAt(Elements, raw, off);
      if last.None? { return; }
      off := last.value.end;
    }
  }

  method Length(raw: seq<Byte>) returns (n: nat)
    ensures n == Count(raw)
    ensures ProperList(raw) ==> n == |ListOf(raw)|
  {
    hide ProperList, ListOf;
    if ProperList(raw) { SizeOf(raw); }
    if |raw| < 4 { return 0; }
    return Get32(raw[..4]);
  }
}
