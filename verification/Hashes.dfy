/** Packed hashes refine maps from field to value, except for deletion. */
module Hashes {
  import opened Bytes
  import opened Packed

  /** The map a sequence of items stands for: the first of equal fields counts. */
  function Table(items: seq<Item>): (m: map<seq<Byte>, seq<Byte>>)
    ensures m.Keys == Names(items)
    ensures forall k :: k in m ==> First(items, k) < |items| && m[k] == items[First(items, k)].value
  {
    map k | k in Names(items) :: items[First(items, k)].value
  }

  function TableOf(raw: seq<Byte>): map<seq<Byte>, seq<Byte>> {
    Table(Decode(Fields, raw))
  }

  predicate ProperHash(raw: seq<Byte>) {
    Proper(Fields, raw) && DistinctNames(Decode(Fields, raw))
  }

  /** On any bytes, a search finds the field's value in what they decode to. */
  lemma FindField(raw: seq<Byte>, field: seq<Byte>)
    ensures var at := Find(Fields, raw, field);
            && (at.Some? <==> field in TableOf(raw))
            && (at.Some? ==> at.value.item.value == TableOf(raw)[field])
  {
    hide Find, Decode, Names;
    SomeItem(Fields, raw, field);
    FirstIsIn(Decode(Fields, raw), field);
  }

  // ----- Setting a field -----

  /** The payload with the value of the item at `at` replaced. */
  function Replaced(raw: seq<Byte>, at: At, value: seq<Byte>): seq<Byte>
    requires 4 + |at.item.value| <= at.end <= |raw|
  {
    raw[..at.end - |at.item.value| - 4] + (Le32(|value|) + value) + raw[at.end..]
  }

  function Set(raw: seq<Byte>, field: seq<Byte>, value: seq<Byte>): seq<Byte> {
    var at := Find(Fields, raw, field);
    if at.None? then Added(Fields, raw, Item(field, value))
    else
      FoundBytes(raw, field);
      Replaced(raw, at.value, value)
  }

  /** Where the parts of a found field lie. */
  lemma FoundBytes(raw: seq<Byte>, field: seq<Byte>)
    ensures var at := Find(Fields, raw, field);
            at.Some? ==>
              var v := at.value.end - |at.value.item.value|;
              && 4 <= at.value.start <= v - 4
              && raw[at.value.start..v - 4] == Le16(|field|) + field
              && raw[v - 4..v] == Le32(|at.value.item.value|)
  {
    hide Le16, Le32, ItemAt, EncodeItem;
    var at := Find(Fields, raw, field);
    if at.Some? {
      ItemPins(Fields, raw, at.value.start);
      PartsAt(raw, at.value);
    }
  }

  lemma PartsAt(raw: seq<Byte>, at: At)
    requires at.start <= at.end <= |raw| && raw[at.start..at.end] == EncodeItem(Fields, at.item)
    ensures var v := at.end - |at.item.value|;
            && at.start <= v - 4
            && raw[at.start..v - 4] == Le16(|at.item.name|) + at.item.name
            && raw[v - 4..v] == Le32(|at.item.value|)
  {
    hide Le16, Le32;
    var n, len, b := Le16(|at.item.name|) + at.item.name, Le32(|at.item.value|), raw[at.start..at.end];
    assert b == n + len + at.item.value;
    assert b[0..|n|] == n && b[|n|..|n| + 4] == len;
    Subslice(raw, at.start, at.end, 0, |n|);
    Subslice(raw, at.start, at.end, |n|, |n| + 4);
  }

  /** Replacing a value of the same length changes only the value's own bytes. */
  lemma SameLength(raw: seq<Byte>, field: seq<Byte>, value: seq<Byte>)
    requires Find(Fields, raw, field).Some?
    requires |Find(Fields, raw, field).value.item.value| == |value|
    ensures var end := Find(Fields, raw, field).value.end;
            |value| <= end <= |raw| && Set(raw, field, value) == Overwrite(raw, end - |value|, value)
  {
    hide Find, Le16, Le32;
    FoundBytes(raw, field);
    var v := Find(Fields, raw, field).value.end - |value|;
    assert raw[..v] == raw[..v - 4] + raw[v - 4..v];
  }

  predicate Room(raw: seq<Byte>, field: seq<Byte>, value: seq<Byte>) {
    |value| < TWO32 && (field in TableOf(raw) || (|field| < TWO16 && Count(raw) + 1 < TWO32))
  }

  lemma {:induction false} BodySet(items: seq<Item>, i: nat, it: Item)
    requires i < |items|
    ensures Body(Fields, items[i := it])
         == Body(Fields, items[..i]) + EncodeItem(Fields, it) + Body(Fields, items[i + 1..])
  {
    hide EncodeItem, Body;
    var u := items[i := it];
    SplitAround(Fields, u, i);
    assert u[..i] == items[..i] && u[i + 1..] == items[i + 1..];
  }

  lemma ReplacedItem(raw: seq<Byte>, field: seq<Byte>, value: seq<Byte>)
    requires Proper(Fields, raw) && Find(Fields, raw, field).Some?
    ensures var items := Decode(Fields, raw);
            var i := First(items, field);
            i < |items| && Set(raw, field, value) == Encode(Fields, items[i := Item(field, value)])
  {
    hide Le16, Le32, Find, Body, Decode, Represents, Cut, Count, Replaced;
    var items, at := Decode(Fields, raw), Find(Fields, raw, field).value;
    CutFound(Fields, raw, field);
    FoundBytes(raw, field);
    var i := First(items, field);
    SplitAround(Fields, items, i);
    BodySet(items, i, Item(field, value));
    var a, c := Body(Fields, items[..i]), Body(Fields, items[i + 1..]);
    ReplaceMiddle(raw, Le32(|items|) + a, Le16(|field|) + field, items[i], c, at, value);
    var n, x := Le16(|field|) + field, Le32(|value|) + value;
    assert Le32(|items|) + a + n + x + c == Le32(|items|) + (a + (n + x) + c);
  }

  lemma ReplaceMiddle(raw: seq<Byte>, pre: seq<Byte>, n: seq<Byte>, it: Item, post: seq<Byte>, at: At, value: seq<Byte>)
    requires raw == pre + (n + (Le32(|it.value|) + it.value)) + post
    requires at.item == it && at.end == |pre| + |n| + 4 + |it.value|
    ensures Replaced(raw, at, value) == pre + n + (Le32(|value|) + value) + post
  {
    hide Le32;
    var was := Le32(|it.value|) + it.value;
    assert raw == pre + n + was + post;
    assert raw[..|pre| + |n|] == pre + n && raw[at.end..] == post;
  }

  lemma UpdatedNames(items: seq<Item>, i: nat, it: Item)
    requires i < |items| && items[i].name == it.name
    ensures Names(items[i := it]) == Names(items)
    ensures DistinctNames(items) ==> DistinctNames(items[i := it])
  {
    var u := items[i := it];
    assert forall k :: 0 <= k < |items| ==> u[k].name == items[k].name;
  }

  lemma UpdatedTable(items: seq<Item>, field: seq<Byte>, value: seq<Byte>)
    requires First(items, field) < |items|
    ensures Table(items[First(items, field) := Item(field, value)]) == Table(items)[field := value]
  {
    hide First, Names;
    var i, it := First(items, field), Item(field, value);
    var u := items[i := it];
    UpdatedNames(items, i, it);
    FirstIsIn(items, field);
    forall k | k in Names(items)
      ensures First(items, k) < |items| && First(u, k) == First(items, k)
    {
      FirstIsIn(items, k);
      FirstUpdated(items, i, it, k);
    }
  }

  lemma FirstUpdated(items: seq<Item>, i: nat, it: Item, name: seq<Byte>)
    requires i < |items| && items[i].name == it.name
    ensures First(items[i := it], name) == First(items, name)
  {
    hide First;
    var u := items[i := it];
    assert forall k :: 0 <= k < |items| ==> u[k].name == items[k].name;
    var x, y := First(u, name), First(items, name);
    assert x < |items| ==> items[x].name == name;
    assert y < |items| ==> u[y].name == name;
  }

  lemma AddedTable(items: seq<Item>, field: seq<Byte>, value: seq<Byte>)
    requires First(items, field) == |items|
    ensures Table(items + [Item(field, value)]) == Table(items)[field := value]
  {
    hide First;
    var it := Item(field, value);
    var u := items + [it];
    AddedNames(items, it);
    FirstIsIn(items, field);
    forall k | k in Names(u)
      ensures u[First(u, k)].value == Table(items)[field := value][k]
    {
      FirstIsIn(items, k);
      FirstAppend(items, it, k);
    }
  }

  lemma FirstAppend(items: seq<Item>, it: Item, name: seq<Byte>)
    requires First(items, name) < |items| || it.name == name
    ensures First(items + [it], name) == First(items, name)
  {
    hide First;
    var i, u := First(items, name), items + [it];
    assert u[i].name == name;
    assert forall k :: 0 <= k < i ==> u[k] == items[k];
  }

  /** Setting updates the map, and keeps the payload proper. */
  lemma SetUpdates(raw: seq<Byte>, field: seq<Byte>, value: seq<Byte>)
    requires ProperHash(raw) && Room(raw, field, value)
    ensures ProperHash(Set(raw, field, value)) && TableOf(Set(raw, field, value)) == TableOf(raw)[field := value]
  {
    hide Find, Decode, DistinctNames, Names, Added, Encode, Set, Table, Represents;
    var items, it := Decode(Fields, raw), Item(field, value);
    RepresentedDecodes(Fields, raw, items);
    ProperFits(raw);
    FindField(raw, field);
    SomeItem(Fields, raw, field);
    var i := First(items, field);
    if i < |items| {
      ReplacedItem(raw, field, value);
      UpdatedFits(items, i, it);
      RepresentedDecodes(Fields, Set(raw, field, value), items[i := it]);
      UpdatedNames(items, i, it);
      UpdatedTable(items, field, value);
    } else {
      SetAdds(raw, field, value);
      FirstIsIn(items, field);
      AddedNames(items, it);
      AddedTable(items, field, value);
    }
  }

  lemma UpdatedFits(items: seq<Item>, i: nat, it: Item)
    requires i < |items| && items[i].name == it.name && |it.value| < TWO32 && Fits(Fields, items)
    ensures Represents(Fields, Encode(Fields, items[i := it]), items[i := it])
  {
    hide Encode;
    assert ItemFits(Fields, items[i]);
  }

  lemma SetAdds(raw: seq<Byte>, field: seq<Byte>, value: seq<Byte>)
    requires Proper(Fields, raw) && Room(raw, field, value) && Find(Fields, raw, field).None?
    ensures Decode(Fields, Set(raw, field, value)) == Decode(Fields, raw) + [Item(field, value)]
    ensures Proper(Fields, Set(raw, field, value))
  {
    hide Find, Decode, Encode, Count;
    var items, it := Decode(Fields, raw), Item(field, value);
    FindField(raw, field);
    RepresentedDecodes(Fields, raw, items);
    assert Fits(Fields, items + [it]);
    AddedExact(Fields, raw, it);
    RepresentedDecodes(Fields, Set(raw, field, value), items + [it]);
  }

  // ----- Runs -----

  function Run(raw: seq<Byte>, puts: seq<(seq<Byte>, seq<Byte>)>): seq<Byte>
    decreases |puts|
  {
    if puts == [] then raw else Run(Set(raw, puts[0].0, puts[0].1), puts[1..])
  }

  function RunMap(m: map<seq<Byte>, seq<Byte>>, puts: seq<(seq<Byte>, seq<Byte>)>): map<seq<Byte>, seq<Byte>>
    decreases |puts|
  {
    if puts == [] then m else RunMap(m[puts[0].0 := puts[0].1], puts[1..])
  }

  lemma SizeOf(raw: seq<Byte>)
    requires ProperHash(raw)
    ensures Count(raw) == |TableOf(raw)|
  {
    hide Decode, Represents, Count;
    RepresentedDecodes(Fields, raw, Decode(Fields, raw));
    DistinctCount(Decode(Fields, raw));
    assert |TableOf(raw)| == |TableOf(raw).Keys|;
  }

  /** Over every run of sets, the payload decodes to the map, and its count is
      the number of fields. */
  lemma {:induction false} RunsRefineMaps(raw: seq<Byte>, puts: seq<(seq<Byte>, seq<Byte>)>)
    requires ProperHash(raw) && |TableOf(raw)| + |puts| < TWO32
    requires forall i :: 0 <= i < |puts| ==> |puts[i].0| < TWO16 && |puts[i].1| < TWO32
    ensures ProperHash(Run(raw, puts)) && TableOf(Run(raw, puts)) == RunMap(TableOf(raw), puts)
    ensures Count(Run(raw, puts)) == |RunMap(TableOf(raw), puts)|
    decreases |puts|
  {
    hide ProperHash, TableOf, Set, Count;
    SizeOf(raw);
    if puts != [] {
      var (f, v) := puts[0];
      SetUpdates(raw, f, v);
      GrowsByOne(TableOf(raw), f, v);
      RunsRefineMaps(Set(raw, f, v), puts[1..]);
    }
  }

  lemma GrowsByOne(m: map<seq<Byte>, seq<Byte>>, k: seq<Byte>, v: seq<Byte>)
    ensures |m[k := v]| <= |m| + 1
  {
    var u := m[k := v];
    assert |u| == |u.Keys| && |m| == |m.Keys| && u.Keys == m.Keys + {k};
  }

  // ----- Deleting a field -----

  /** The deletion cuts from the field's start to the start of its value: the
      value's own bytes stay behind. */
  function Delete(raw: seq<Byte>, field: seq<Byte>): seq<Byte> {
    var at := Find(Fields, raw, field);
    if at.None? then raw
    else
      SomeItem(Fields, raw, field);
      FoundBytes(raw, field);
      Cut(raw, at.value.start, at.value.end - |at.value.item.value|)
  }

  /** The packed items without item `i`, but with its value's bytes. */
  function Leftover(items: seq<Item>, i: nat): seq<Byte>
    requires i < |items|
  {
    if |items| == 1 then []
    else Le32(|items| - 1) + Body(Fields, items[..i]) + items[i].value + Body(Fields, items[i + 1..])
  }

  /** What deletion leaves of a payload with the field. */
  lemma DeleteLeaves(raw: seq<Byte>, field: seq<Byte>)
    requires Proper(Fields, raw) && Find(Fields, raw, field).Some?
    ensures var items := Decode(Fields, raw);
            var i := First(items, field);
            i < |items| && Fits(Fields, items) && raw == Encode(Fields, items) && Delete(raw, field) == Leftover(items, i)
  {
    hide Le16, Le32, Find, Body, Decode, Represents, Cut, Count, Encode, Start, EncodeItem;
    var items := Decode(Fields, raw);
    RepresentedDecodes(Fields, raw, items);
    CutFound(Fields, raw, field);
    var it := items[First(items, field)];
    var gone := Le16(|it.name|) + it.name + Le32(|it.value|);
    assert EncodeItem(Fields, it) == gone + it.value by { Parts(it); }
    ProperFits(raw);
    CutBytes(Fields, items, First(items, field), it.value, gone);
  }

  lemma Parts(it: Item)
    ensures EncodeItem(Fields, it) == Le16(|it.name|) + it.name + Le32(|it.value|) + it.value
  {
  }

  lemma ProperFits(raw: seq<Byte>)
    requires Proper(Fields, raw)
    ensures Fits(Fields, Decode(Fields, raw))
  {
    hide Decode, Fits;
  }

  /** Deletion leaves the packed form of the other fields exactly when the field
      was absent, alone, or had an empty value. */
  lemma DeleteExact(raw: seq<Byte>, field: seq<Byte>)
    requires Proper(Fields, raw)
    ensures field !in TableOf(raw) ==> Delete(raw, field) == raw
    ensures field in TableOf(raw) ==>
              var items := Decode(Fields, raw);
              && First(items, field) < |items|
              && (Represents(Fields, Delete(raw, field), Without(items, First(items, field)))
                  <==> |items| == 1 || TableOf(raw)[field] == [])
  {
    hide Find, Decode, Fits, Encode, Delete, Leftover, Represents;
    FindField(raw, field);
    if field in TableOf(raw) {
      DeleteLeaves(raw, field);
      LeftoverPacked(Decode(Fields, raw), First(Decode(Fields, raw), field));
    } else {
      Untouched(raw, field);
    }
  }

  lemma Untouched(raw: seq<Byte>, field: seq<Byte>)
    requires Find(Fields, raw, field).None?
    ensures Delete(raw, field) == raw
  {
    hide Find;
  }

  lemma WithoutFits(items: seq<Item>, i: nat)
    requires i < |items| && Fits(Fields, items)
    ensures Fits(Fields, Without(items, i)) && (Without(items, i) == [] <==> |items| == 1)
  {
    hide ItemFits;
  }

  lemma LeftoverPacked(items: seq<Item>, i: nat)
    requires i < |items| && Fits(Fields, items)
    ensures Represents(Fields, Leftover(items, i), Without(items, i)) <==> |items| == 1 || items[i].value == []
  {
    hide Le32, Body, Fits;
    WithoutFits(items, i);
    var a, c, v := Body(Fields, items[..i]), Body(Fields, items[i + 1..]), items[i].value;
    BodyAppend(Fields, items[..i], items[i + 1..]);
    assert Encode(Fields, Without(items, i)) == Le32(|items| - 1) + (a + c);
    if v == [] {
      assert Le32(|items| - 1) + a + v + c == Le32(|items| - 1) + (a + c);
    }
  }

  /** What is decoded after a deletion is right exactly when the packed bytes of
      the later fields begin the value's bytes followed by them. */
  lemma DeleteDecodes(raw: seq<Byte>, field: seq<Byte>)
    requires Proper(Fields, raw) && field in TableOf(raw)
    ensures var items := Decode(Fields, raw);
            var i := First(items, field);
            && i < |items|
            && (Decode(Fields, Delete(raw, field)) == Without(items, i)
                <==> |items| == 1 || Body(Fields, items[i + 1..]) <= items[i].value + Body(Fields, items[i + 1..]))
  {
    hide Find, Decode, Body, Delete, Leftover, Table, First, Fits, Encode;
    FindField(raw, field);
    DeleteLeaves(raw, field);
    LeftoverDecodes(Decode(Fields, raw), First(Decode(Fields, raw), field));
  }

  /** Deleting one of two fields loses the other: a payload where the condition fails. */
  lemma DeleteLoses()
    ensures var items := [Item([1], [9]), Item([2], [])];
            var raw := Encode(Fields, items);
            ProperHash(raw) && [1] in TableOf(raw) && Decode(Fields, Delete(raw, [1])) != items[1..]
  {
    hide Decode, Delete, Encode, Table, Represents, Body, EncodeItem, First, Fits;
    var items := [Item([1], [9]), Item([2], [])];
    var raw := Encode(Fields, items);
    TwoFields(items);
    Together(raw, items);
    RepresentedDecodes(Fields, raw, items);
    FirstIsIn(items, [1]);
    DeleteDecodes(raw, [1]);
    NotAPrefix(items[1]);
    assert items[1..] == [items[1]] && Without(items, 0) == items[1..];
  }

  lemma TwoFields(items: seq<Item>)
    requires items == [Item([1], [9]), Item([2], [])]
    ensures Fits(Fields, items) && DistinctNames(items) && First(items, [1]) == 0
  {
    hide Body, EncodeItem;
    assert items[0].name != items[1].name;
  }

  lemma NotAPrefix(it: Item)
    requires it == Item([2], [])
    ensures !(Body(Fields, [it]) <= [9] + Body(Fields, [it]))
  {
    hide Body;
    BodyOne(Fields, it);
    assert EncodeItem(Fields, it)[0] == 1;
  }

  lemma Together(raw: seq<Byte>, items: seq<Item>)
    requires items != [] && Fits(Fields, items) && raw == Encode(Fields, items)
    ensures Represents(Fields, raw, items)
  {
  }

  lemma SplitFits(items: seq<Item>, i: nat)
    requires i < |items| && Fits(Fields, items)
    ensures AllFit(Fields, items[..i]) && AllFit(Fields, items[i + 1..]) && |items| < TWO32
  {
    hide ItemFits;
  }

  lemma EmptyDecodes()
    ensures Decode(Fields, []) == []
  {
  }

  lemma LeftoverDecodes(items: seq<Item>, i: nat)
    requires i < |items| && Fits(Fields, items)
    ensures Decode(Fields, Leftover(items, i)) == Without(items, i) <==>
            |items| == 1 || Body(Fields, items[i + 1..]) <= items[i].value + Body(Fields, items[i + 1..])
  {
    hide Le32, Body, Decode, Fits;
    SplitFits(items, i);
    if |items| == 1 {
      EmptyDecodes();
    } else {
      TailDecodes(items[..i], items[i].value, items[i + 1..]);
    }
  }

  lemma TailDecodes(a: seq<Item>, v: seq<Byte>, c: seq<Item>)
    requires |a| + |c| < TWO32 && AllFit(Fields, a) && AllFit(Fields, c)
    ensures Decode(Fields, Le32(|a| + |c|) + Body(Fields, a) + v + Body(Fields, c)) == a + c
            <==> Body(Fields, c) <= v + Body(Fields, c)
  {
    hide Le32, Body, AllFit, Walk, Count;
    var head, tail := Le32(|a| + |c|), v + Body(Fields, c);
    var raw := head + Body(Fields, a) + tail;
    assert raw == head + Body(Fields, a) + v + Body(Fields, c);
    CountAhead(|a| + |c|, Body(Fields, a) + tail);
    assert raw == head + (Body(Fields, a) + tail);
    BodyAppend(Fields, a, c);
    if Walk(Fields, raw, 4, |a + c|) == a + c {
      WalkPins(Fields, raw, 4, |a + c|);
      PrefixOfTail(head, Body(Fields, a), Body(Fields, c), tail);
    }
    if Body(Fields, c) <= tail { TailWalks(head, a, c, tail); }
  }

  lemma CountAhead(n: nat, rest: seq<Byte>)
    requires n < TWO32
    ensures Count(Le32(n) + rest) == n
  {
    hide Le32, Get32;
    assert (Le32(n) + rest)[..4] == Le32(n);
  }

  lemma TailWalks(head: seq<Byte>, a: seq<Item>, c: seq<Item>, tail: seq<Byte>)
    requires |head| == 4 && AllFit(Fields, a) && AllFit(Fields, c) && Body(Fields, c) <= tail
    ensures Walk(Fields, head + Body(Fields, a) + tail, 4, |a + c|) == a + c
  {
    hide Body, Walk, AllFit;
    var post := tail[|Body(Fields, c)|..];
    assert tail == Body(Fields, c) + post;
    BodyAppend(Fields, a, c);
    assert head + Body(Fields, a) + tail == head + Body(Fields, a + c) + post;
    AllFitAppend(a, c);
    WalkBack(Fields, head, a + c, post);
  }

  lemma AllFitAppend(a: seq<Item>, c: seq<Item>)
    requires AllFit(Fields, a) && AllFit(Fields, c)
    ensures AllFit(Fields, a + c)
  {
  }

  lemma PrefixOfTail(head: seq<Byte>, a: seq<Byte>, c: seq<Byte>, tail: seq<Byte>)
    requires |head| == 4 && 4 + |a + c| <= |head + a + tail|
    requires (head + a + tail)[4..4 + |a + c|] == a + c
    ensures c <= tail
  {
    var raw := head + a + tail;
    assert forall k :: 0 <= k < |c| ==> c[k] == (a + c)[|a| + k] == raw[4..4 + |a + c|][|a| + k] == tail[k];
  }

  // ----- The operations -----

  /** Sets a field: in place when the length stays, in a new buffer otherwise. */
  method SetField(raw: array<Byte>, field: seq<Byte>, value: seq<Byte>) returns (r: array<Byte>, added: bool)
    modifies raw
    ensures r[..] == Set(old(raw[..]), field, value)
    ensures added <==> field !in TableOf(old(raw[..]))
    ensures ProperHash(old(raw[..])) && Room(old(raw[..]), field, value) ==>
              ProperHash(r[..]) && TableOf(r[..]) == TableOf(old(raw[..]))[field := value]
    ensures r == raw <==> !added && |TableOf(old(raw[..]))[field]| == |value|
    ensures r != raw ==> fresh(r) && raw[..] == old(raw[..])
  {
    hide ProperHash, TableOf, Find, Room, Set;
    ghost var was := raw[..];
    FindField(was, field);
    if ProperHash(was) && Room(was, field, value) { SetUpdates(was, field, value); }
    var at := Search(Fields, raw[..], field);
    if at.Some? && |at.value.item.value| == |value| {
      SameLength(was, field, value);
      WriteValue(raw, at.value.end - |value|, value);
      return raw, false;
    }
    var bytes := NewBytes(raw[..], at, field, value);
    r := new Byte[|bytes|](i requires 0 <= i < |bytes| => bytes[i]);
    assert r[..] == bytes;
    added := at.None?;
  }

  method WriteValue(raw: array<Byte>, off: nat, value: seq<Byte>)
    requires off + |value| <= raw.Length
    modifies raw
    ensures raw[..] == Overwrite(old(raw[..]), off, value)
  {
    forall i | 0 <= i < |value| { raw[off + i] := value[i]; }
  }

  method NewBytes(raw: seq<Byte>, at: Option<At>, field: seq<Byte>, value: seq<Byte>) returns (r: seq<Byte>)
    requires at == Find(Fields, raw, field)
    ensures r == Set(raw, field, value)
  {
    hide Find, Le16, Le32;
    FoundBytes(raw, field);
    var x := Le32(|value|) + value;
    if at.Some? {
      var vOff := at.value.end - |at.value.item.value|;
      return raw[..vOff - 4] + x + raw[at.value.end..];
    } else if |raw| < 4 {
      return Le32(1) + (Le16(|field|) + field + x);
    } else {
      return Le32(Count(raw) + 1) + raw[4..] + (Le16(|field|) + field + x);
    }
  }

  method GetField(raw: seq<Byte>, field: seq<Byte>) returns (value: seq<Byte>, ok: bool)
    ensures ok <==> field in TableOf(raw)
    ensures value == if ok then TableOf(raw)[field] else []
  {
    hide TableOf, Find;
    FindField(raw, field);
    var at := Search(Fields, raw, field);
    if at.None? { return [], false; }
    return at.value.item.value, true;
  }

  /** All fields and values, in payload order. */
  method GetAll(raw: seq<Byte>) returns (fields: seq<seq<Byte>>, values: seq<seq<Byte>>)
    ensures |fields| == |values| == |Decode(Fields, raw)|
    ensures forall i :: 0 <= i < |fields| ==> Item(fields[i], values[i]) == Decode(Fields, raw)[i]
  {
    hide Decode;
    var items := Collect(Fields, raw);
    fields := seq(|items|, i requires 0 <= i < |items| => items[i].name);
    values := seq(|items|, i requires 0 <= i < |items| => items[i].value);
  }

  method DeleteField(raw: seq<Byte>, field: seq<Byte>) returns (r: seq<Byte>, removed: bool)
    ensures r == Delete(raw, field) && (removed <==> field in TableOf(raw))
  {
    hide TableOf, Find, Count;
    FindField(raw, field);
    var at := Search(Fields, raw, field);
    if at.None? { return raw, false; }
    SomeItem(Fields, raw, field);
    FoundBytes(raw, field);
    var start, end := at.value.start, at.value.end - |at.value.item.value|;
    if Count(raw) == 1 { return [], true; }
    return Le32(Count(raw) - 1) + (raw[..start] + raw[end..])[4..], true;
  }
}
