/** Packed collections: a 32-bit count followed by the items.  A list item is a
    32-bit length and its bytes, a set item a 16-bit length and its bytes, a hash
    item a 16-bit field and a 32-bit value.  One codec serves all three. */
module Packed {
  import opened Bytes

  datatype Format = Elements | Members | Fields

  /** `name` is a set member or hash field, `value` a list element or hash value;
      the part a format does not have is empty. */
  datatype Item = Item(name: seq<Byte>, value: seq<Byte>)

  predicate Named(f: Format) { !f.Elements? }
  predicate Valued(f: Format) { !f.Members? }

  // ----- Writing -----

  function EncodeItem(f: Format, it: Item): seq<Byte> {
    (if Named(f) then Le16(|it.name|) + it.name else []) +
    (if Valued(f) then Le32(|it.value|) + it.value else [])
  }

  function Body(f: Format, items: seq<Item>): seq<Byte> {
    if items == [] then [] else EncodeItem(f, items[0]) + Body(f, items[1..])
  }

  function Encode(f: Format, items: seq<Item>): seq<Byte> {
    Le32(|items|) + Body(f, items)
  }

  predicate ItemFits(f: Format, it: Item) {
    && |it.name| < (if Named(f) then TWO16 else 1)
    && |it.value| < (if Valued(f) then TWO32 else 1)
  }

  predicate AllFit(f: Format, items: seq<Item>) {
    forall i :: 0 <= i < |items| ==> ItemFits(f, items[i])
  }

  /** The payloads that can be read back. */
  predicate Fits(f: Format, items: seq<Item>) {
    |items| < TWO32 && AllFit(f, items)
  }

  // ----- Reading -----

  /** Where the bytes after a length of `width` bytes at `off` end. */
  function ChunkEnd(raw: seq<Byte>, off: nat, width: nat): (e: Option<nat>)
    requires width == 2 || width == 4
    ensures e.Some? ==> off + width <= e.value <= |raw|
  {
    if off + width > |raw| then None
    else
      var n := if width == 2 then Get16(raw[off..off + 2]) else Get32(raw[off..off + 4]);
      if off + width + n > |raw| then None else Some(off + width + n)
  }

  /** An item found in a payload, with the range of its bytes. */
  datatype At = At(start: nat, item: Item, end: nat)

  function ItemAt(f: Format, raw: seq<Byte>, off: nat): (at: Option<At>)
    ensures at.Some? ==> at.value.start == off < at.value.end <= |raw|
    ensures at.Some? ==> at.value.start + |at.value.item.value| <= at.value.end
    ensures at.Some? ==> ItemFits(f, at.value.item)
  {
    var mid := if Named(f) then ChunkEnd(raw, off, 2) else Some(off);
    if mid.None? then None
    else
      var end := if Valued(f) then ChunkEnd(raw, mid.value, 4) else mid;
      if end.None? then None
      else Some(At(off,
                   Item(if Named(f) then raw[off + 2..mid.value] else [],
                        if Valued(f) then raw[mid.value + 4..end.value] else []),
                   end.value))
  }

  /** Up to `n` items from `off` on, as far as they are whole. */
  function Walk(f: Format, raw: seq<Byte>, off: nat, n: nat): seq<Item>
    decreases n
  {
    var at := ItemAt(f, raw, off);
    if n == 0 || at.None? then [] else [at.value.item] + Walk(f, raw, at.value.end, n - 1)
  }

  function Count(raw: seq<Byte>): (n: nat)
    ensures n < TWO32
  {
    if |raw| < 4 then 0 else Get32(raw[..4])
  }

  function Decode(f: Format, raw: seq<Byte>): seq<Item> {
    Walk(f, raw, 4, Count(raw))
  }

  // ----- The codec is a bijection on what fits -----

  lemma ChunkBack(pre: seq<Byte>, chunk: seq<Byte>, post: seq<Byte>, width: nat)
    requires (width == 2 && |chunk| < TWO16) || (width == 4 && |chunk| < TWO32)
    ensures var raw := pre + (if width == 2 then Le16(|chunk|) else Le32(|chunk|)) + chunk + post;
            && ChunkEnd(raw, |pre|, width) == Some(|pre| + width + |chunk|)
            && raw[|pre| + width..|pre| + width + |chunk|] == chunk
  {
    hide Le16, Le32, Get16, Get32;
    var len := if width == 2 then Le16(|chunk|) else Le32(|chunk|);
    assert (pre + len + chunk + post)[|pre|..|pre| + width] == len;
  }

  lemma FieldBack(pre: seq<Byte>, it: Item, post: seq<Byte>)
    requires ItemFits(Fields, it)
    ensures |EncodeItem(Fields, it)| == 6 + |it.name| + |it.value|
    ensures var raw, mid := pre + EncodeItem(Fields, it) + post, |pre| + 2 + |it.name|;
            && ChunkEnd(raw, |pre|, 2) == Some(mid) && raw[|pre| + 2..mid] == it.name
            && ChunkEnd(raw, mid, 4) == Some(mid + 4 + |it.value|) && raw[mid + 4..mid + 4 + |it.value|] == it.value
  {
    hide Le16, Le32, ChunkEnd;
    var raw := pre + EncodeItem(Fields, it) + post;
    var n, v := Le16(|it.name|) + it.name, Le32(|it.value|) + it.value;
    assert raw == pre + Le16(|it.name|) + it.name + (v + post);
    ChunkBack(pre, it.name, v + post, 2);
    assert raw == (pre + n) + Le32(|it.value|) + it.value + post;
    ChunkBack(pre + n, it.value, post, 4);
  }

  lemma OneChunkBack(f: Format, pre: seq<Byte>, it: Item, post: seq<Byte>)
    requires !f.Fields? && ItemFits(f, it)
    ensures var raw, w := pre + EncodeItem(f, it) + post, if f.Members? then 2 else 4;
            var chunk := if f.Members? then it.name else it.value;
            && |EncodeItem(f, it)| == w + |chunk|
            && ChunkEnd(raw, |pre|, w) == Some(|pre| + w + |chunk|)
            && raw[|pre| + w..|pre| + w + |chunk|] == chunk
  {
    hide Le16, Le32, ChunkEnd;
    var raw := pre + EncodeItem(f, it) + post;
    if f.Members? {
      assert raw == pre + Le16(|it.name|) + it.name + post;
      ChunkBack(pre, it.name, post, 2);
    } else {
      assert raw == pre + Le32(|it.value|) + it.value + post;
      ChunkBack(pre, it.value, post, 4);
    }
  }

  lemma ItemBack(f: Format, pre: seq<Byte>, it: Item, post: seq<Byte>)
    requires ItemFits(f, it)
    ensures ItemAt(f, pre + EncodeItem(f, it) + post, |pre|)
         == Some(At(|pre|, it, |pre| + |EncodeItem(f, it)|))
  {
    hide ChunkEnd, EncodeItem;
    match f
    case Elements => OneChunkBack(f, pre, it, post);
    case Members => OneChunkBack(f, pre, it, post);
    case Fields => FieldBack(pre, it, post);
  }

  lemma {:induction false} WalkBack(f: Format, pre: seq<Byte>, items: seq<Item>, post: seq<Byte>)
    requires AllFit(f, items)
    ensures Walk(f, pre + Body(f, items) + post, |pre|, |items|) == items
    decreases |items|
  {
    hide ItemAt, EncodeItem, ItemFits;
    if items != [] {
      var b, rest := EncodeItem(f, items[0]), Body(f, items[1..]);
      var raw := pre + Body(f, items) + post;
      assert raw == pre + b + (rest + post);
      ItemBack(f, pre, items[0], rest + post);
      assert raw == (pre + b) + rest + post;
      WalkBack(f, pre + b, items[1..], post);
    }
  }

  lemma {:induction false} WalkFits(f: Format, raw: seq<Byte>, off: nat, n: nat)
    ensures AllFit(f, Walk(f, raw, off, n)) && |Walk(f, raw, off, n)| <= n
    decreases n
  {
    hide ItemFits, ItemAt;
    var at := ItemAt(f, raw, off);
    if n > 0 && at.Some? { WalkFits(f, raw, at.value.end, n - 1); }
  }

  lemma CountBack(f: Format, items: seq<Item>)
    ensures Count(Encode(f, items)) == |items| % TWO32
  {
    hide Le32, Get32, Body;
    assert Encode(f, items)[..4] == Le32(|items|);
  }

  /** A payload gives back its items exactly when they fit. */
  lemma DecodeExact(f: Format, items: seq<Item>)
    ensures Decode(f, Encode(f, items)) == items <==> Fits(f, items)
  {
    hide Le32, Get32, Walk, Body, AllFit;
    var raw := Encode(f, items);
    WalkFits(f, raw, 4, Count(raw));
    if Fits(f, items) {
      CountBack(f, items);
      assert raw == Le32(|items|) + Body(f, items) + [];
      WalkBack(f, Le32(|items|), items, []);
    }
  }

  lemma ChunkPins(raw: seq<Byte>, off: nat, width: nat)
    requires width == 2 || width == 4
    ensures var e := ChunkEnd(raw, off, width);
            e.Some? ==>
              var chunk := raw[off + width..e.value];
              raw[off..e.value] == (if width == 2 then Le16(|chunk|) else Le32(|chunk|)) + chunk
  {
    hide Le16, Le32, Get16, Get32;
    var e := ChunkEnd(raw, off, width);
    if e.Some? {
      var len := raw[off..off + width];
      var n := e.value - off - width;
      if width == 2 { Unique16(len, n); } else { Unique32(len, n); }
      assert raw[off..e.value] == len + raw[off + width..e.value];
    }
  }

  lemma Unique16(b: seq<Byte>, n: nat)
    requires |b| == 2 && Get16(b) == n
    ensures b == Le16(n)
  {
    assert n < TWO16;
    assert b == [b[0], b[1]];
  }

  lemma Unique32(b: seq<Byte>, n: nat)
    requires |b| == 4 && Get32(b) == n
    ensures b == Le32(n)
  {
    hide Get32, Le32;
    Get32Injective(b, Le32(n));
  }

  /** What is read is what is written there. */
  lemma ItemPins(f: Format, raw: seq<Byte>, off: nat)
    ensures var at := ItemAt(f, raw, off);
            at.Some? ==> raw[off..at.value.end] == EncodeItem(f, at.value.item)
  {
    hide ChunkEnd, Le16, Le32;
    if ItemAt(f, raw, off).Some? {
      var mid := if Named(f) then ChunkEnd(raw, off, 2).value else off;
      var end := ItemAt(f, raw, off).value.end;
      assert raw[off..end] == raw[off..mid] + raw[mid..end];
      ChunkPins(raw, off, 2);
      ChunkPins(raw, mid, 4);
    }
  }

  lemma {:induction false} WalkPins(f: Format, raw: seq<Byte>, off: nat, n: nat)
    requires off <= |raw| && |Walk(f, raw, off, n)| == n
    ensures var b := Body(f, Walk(f, raw, off, n));
            off + |b| <= |raw| && raw[off..off + |b|] == b
    decreases n
  {
    hide ItemAt, EncodeItem;
    if n > 0 {
      var at := ItemAt(f, raw, off).value;
      var rest := Walk(f, raw, at.end, n - 1);
      assert Walk(f, raw, off, n)[1..] == rest;
      WalkPins(f, raw, at.end, n - 1);
      ItemPins(f, raw, off);
      Joined(raw, off, at.end, at.end + |Body(f, rest)|);
    }
  }

  lemma Joined(raw: seq<Byte>, i: nat, j: nat, k: nat)
    requires i <= j <= k <= |raw|
    ensures raw[i..k] == raw[i..j] + raw[j..k]
  {
  }

  // ----- Items in place -----

  lemma {:induction false} BodyAppend(f: Format, a: seq<Item>, b: seq<Item>)
    ensures Body(f, a + b) == Body(f, a) + Body(f, b)
  {
    hide EncodeItem;
    if a == [] {
      assert a + b == b;
    } else {
      assert (a + b)[1..] == a[1..] + b;
      BodyAppend(f, a[1..], b);
    }
  }

  lemma BodyOne(f: Format, it: Item)
    ensures Body(f, [it]) == EncodeItem(f, it)
  {
    hide EncodeItem;
    assert Body(f, [it][1..]) == [];
  }

  /** A payload cut around its item `i`. */
  lemma SplitAround(f: Format, items: seq<Item>, i: nat)
    requires i < |items|
    ensures Body(f, items) == Body(f, items[..i]) + EncodeItem(f, items[i]) + Body(f, items[i + 1..])
  {
    hide EncodeItem, Body;
    assert items == items[..i] + ([items[i]] + items[i + 1..]);
    BodyAppend(f, items[..i], [items[i]] + items[i + 1..]);
    BodyAppend(f, [items[i]], items[i + 1..]);
    BodyOne(f, items[i]);
  }

  /** The range of item `i` in the payload of `items`. */
  function Start(f: Format, items: seq<Item>, i: nat): nat
    requires i <= |items|
  {
    4 + |Body(f, items[..i])|
  }

  // ----- Finding a name -----

  /** The first of up to `n` items from `off` on that has the name. */
  function Locate(f: Format, raw: seq<Byte>, off: nat, n: nat, name: seq<Byte>): (r: Option<At>)
    ensures r.Some? ==> off <= r.value.start < r.value.end <= |raw| && r.value.item.name == name
    ensures r.Some? ==> ItemAt(f, raw, r.value.start) == r
    decreases n
  {
    var at := ItemAt(f, raw, off);
    if n == 0 || at.None? then None
    else if at.value.item.name == name then at
    else Locate(f, raw, at.value.end, n - 1, name)
  }

  function Find(f: Format, raw: seq<Byte>, name: seq<Byte>): (r: Option<At>)
    ensures r.Some? ==> 4 <= r.value.start < r.value.end <= |raw| && r.value.item.name == name
  {
    Locate(f, raw, 4, Count(raw), name)
  }

  /** The index of the first item with the name; `|items|` when there is none. */
  function First(items: seq<Item>, name: seq<Byte>): (i: nat)
    ensures i <= |items|
    ensures i < |items| ==> items[i].name == name
    ensures forall k :: 0 <= k < i ==> items[k].name != name
  {
    if items == [] || items[0].name == name then 0 else 1 + First(items[1..], name)
  }

  /** Searching bytes finds what searching the decoded items finds, on any bytes. */
  lemma {:induction false} LocateFirst(f: Format, raw: seq<Byte>, off: nat, n: nat, name: seq<Byte>)
    ensures var r, items := Locate(f, raw, off, n, name), Walk(f, raw, off, n);
            && (r.Some? <==> First(items, name) < |items|)
            && (r.Some? ==> r.value.item == items[First(items, name)])
    decreases n
  {
    hide ItemAt, First, Locate, Walk;
    LocateStep(f, raw, off, n, name);
    var at := ItemAt(f, raw, off);
    if n > 0 && at.Some? {
      FirstStep(at.value.item, Walk(f, raw, at.value.end, n - 1), name);
      LocateFirst(f, raw, at.value.end, n - 1, name);
    }
  }

  lemma LocateStep(f: Format, raw: seq<Byte>, off: nat, n: nat, name: seq<Byte>)
    ensures var at := ItemAt(f, raw, off);
            if n == 0 || at.None? then Locate(f, raw, off, n, name) == None && Walk(f, raw, off, n) == []
            else && Walk(f, raw, off, n) == [at.value.item] + Walk(f, raw, at.value.end, n - 1)
                 && Locate(f, raw, off, n, name)
                    == if at.value.item.name == name then at else Locate(f, raw, at.value.end, n - 1, name)
  {
    hide ItemAt;
  }

  lemma FirstStep(it: Item, rest: seq<Item>, name: seq<Byte>)
    ensures First([it] + rest, name) == if it.name == name then 0 else 1 + First(rest, name)
  {
    assert ([it] + rest)[1..] == rest;
  }

  /** In a payload of items that fit, the search ends at the item's own bytes. */
  lemma {:induction false} LocateBack(f: Format, pre: seq<Byte>, items: seq<Item>, name: seq<Byte>)
    requires AllFit(f, items)
    ensures var i, r := First(items, name), Locate(f, pre + Body(f, items), |pre|, |items|, name);
            && (r.Some? <==> i < |items|)
            && (r.Some? ==> r.value.start == |pre| + |Body(f, items[..i])|)
            && (r.Some? ==> r.value.item == items[i])
            && (r.Some? ==> r.value.end == r.value.start + |EncodeItem(f, items[i])|)
    decreases |items|
  {
    hide ItemAt, EncodeItem, ItemFits, Body, Named, Valued, First, Locate, Walk;
    BodyFirst(f, items, First(items, name));
    LocateStep(f, pre + Body(f, items), |pre|, |items|, name);
    if items != [] {
      assert items == [items[0]] + items[1..];
      FirstStep(items[0], items[1..], name);
      var b, rest := EncodeItem(f, items[0]), items[1..];
      assert pre + (b + Body(f, rest)) == pre + b + Body(f, rest);
      ItemBack(f, pre, items[0], Body(f, rest));
      LocateBack(f, pre + b, rest, name);
    }
  }

  lemma BodyFirst(f: Format, items: seq<Item>, i: nat)
    requires i <= |items|
    ensures items != [] ==> Body(f, items) == EncodeItem(f, items[0]) + Body(f, items[1..])
    ensures i == 0 ==> Body(f, items[..i]) == []
    ensures i > 0 ==> Body(f, items[..i]) == EncodeItem(f, items[0]) + Body(f, items[1..][..i - 1])
  {
    hide EncodeItem;
    if i > 0 { assert items[..i][1..] == items[1..][..i - 1]; }
  }

  lemma FindBack(f: Format, items: seq<Item>, name: seq<Byte>)
    requires Fits(f, items)
    ensures var i, r := First(items, name), Find(f, Encode(f, items), name);
            && (r.Some? <==> i < |items|)
            && (r.Some? ==> r.value == At(Start(f, items, i), items[i], Start(f, items, i) + |EncodeItem(f, items[i])|))
  {
    hide Le32, Locate, Body, AllFit, EncodeItem, Count, ItemAt, First;
    CountBack(f, items);
    LocateBack(f, Le32(|items|), items, name);
  }

  // ----- Changing a payload -----

  /** The bytes `raw` with another count in front. */
  function WithCount(raw: seq<Byte>, n: nat): seq<Byte>
    requires |raw| >= 4
  {
    Le32(n) + raw[4..]
  }

  /** An item added at the end. */
  function Added(f: Format, raw: seq<Byte>, it: Item): seq<Byte> {
    if |raw| < 4 then Le32(1) + EncodeItem(f, it)
    else WithCount(raw, Count(raw) + 1) + EncodeItem(f, it)
  }

  /** The bytes from `start` to `end` taken out; nothing left when it was the only item. */
  function Cut(raw: seq<Byte>, start: nat, end: nat): seq<Byte>
    requires 4 <= start <= end <= |raw| && Count(raw) > 0
  {
    if Count(raw) == 1 then [] else WithCount(raw[..start] + raw[end..], Count(raw) - 1)
  }

  /** A payload stands for its items; fewer than four bytes stand for none. */
  predicate Represents(f: Format, raw: seq<Byte>, items: seq<Item>) {
    Fits(f, items) && if items == [] then |raw| < 4 else raw == Encode(f, items)
  }

  /** The payloads that the operations build. */
  predicate Proper(f: Format, raw: seq<Byte>) {
    Represents(f, raw, Decode(f, raw))
  }

  /** A payload stands for its decoded items, and its count is their number. */
  lemma RepresentedDecodes(f: Format, raw: seq<Byte>, items: seq<Item>)
    requires Represents(f, raw, items)
    ensures Decode(f, raw) == items && Count(raw) == |items| && Proper(f, raw)
  {
    hide Encode, Fits, ItemAt, Get32;
    if items != [] { DecodeExact(f, items); CountBack(f, items); }
    assert |items| < TWO32 by { FitsCount(f, items); }
  }

  lemma FitsCount(f: Format, items: seq<Item>)
    requires Fits(f, items)
    ensures |items| < TWO32
  {
  }

  /** Adding writes the payload of the longer sequence, which can be read back
      exactly when the longer sequence fits. */
  lemma AddedExact(f: Format, raw: seq<Byte>, it: Item)
    requires Proper(f, raw)
    ensures var items := Decode(f, raw) + [it];
            && Added(f, raw, it) == Encode(f, items)
            && (Decode(f, Added(f, raw, it)) == items <==> Fits(f, items))
            && (Fits(f, items) ==> Represents(f, Added(f, raw, it), items))
  {
    hide Le32, Body, EncodeItem, Fits, Count, Decode;
    var items := Decode(f, raw);
    RepresentedDecodes(f, raw, items);
    BodyAppend(f, items, [it]);
    BodyOne(f, it);
    DecodeExact(f, items + [it]);
    if items == [] {
      EmptyBody(f);
    } else {
      assert raw[4..] == Body(f, items);
    }
    assert Added(f, raw, it) == Encode(f, items + [it]);
  }

  lemma EmptyBody(f: Format)
    ensures Body(f, []) == []
  {
  }

  /** `items` without item `i`. */
  function Without(items: seq<Item>, i: nat): seq<Item>
    requires i < |items|
  {
    items[..i] + items[i + 1..]
  }

  lemma CutBytes(f: Format, items: seq<Item>, i: nat, kept: seq<Byte>, gone: seq<Byte>)
    requires i < |items| && Fits(f, items) && EncodeItem(f, items[i]) == gone + kept
    ensures var raw, s := Encode(f, items), Start(f, items, i);
            && Count(raw) == |items| && s + |gone| <= |raw|
            && Cut(raw, s, s + |gone|) ==
               if |items| == 1 then []
               else Le32(|items| - 1) + Body(f, items[..i]) + kept + Body(f, items[i + 1..])
  {
    hide Le32, Body, EncodeItem, AllFit, Count;
    CountBack(f, items);
    SplitAround(f, items, i);
    var raw, s := Encode(f, items), Start(f, items, i);
    var a, c := Body(f, items[..i]), Body(f, items[i + 1..]);
    assert raw == Le32(|items|) + a + gone + kept + c;
    CutMiddle(Le32(|items|), Le32(|items| - 1), a, gone, kept + c);
    assert Le32(|items|) + a + gone + (kept + c) == raw;
    assert Le32(|items| - 1) + a + (kept + c) == Le32(|items| - 1) + a + kept + c;
  }

  lemma CutMiddle(head: seq<Byte>, head': seq<Byte>, a: seq<Byte>, gone: seq<Byte>, c: seq<Byte>)
    requires |head| == 4
    ensures var raw, s := head + a + gone + c, 4 + |a|;
            head' + (raw[..s] + raw[s + |gone|..])[4..] == head' + a + c
  {
    var raw, s := head + a + gone + c, 4 + |a|;
    assert raw[..s] == head + a && raw[s + |gone|..] == c;
    assert (head + a + c)[4..] == a + c;
  }

  /** Taking out an item's own bytes takes out the item. */
  lemma CutRepresents(f: Format, items: seq<Item>, i: nat)
    requires i < |items| && Fits(f, items)
    ensures var raw, s := Encode(f, items), Start(f, items, i);
            && Count(raw) == |items| && s + |EncodeItem(f, items[i])| <= |raw|
            && Represents(f, Cut(raw, s, s + |EncodeItem(f, items[i])|), Without(items, i))
  {
    hide Le32, Body, EncodeItem, Cut, ItemFits, Count;
    var b := EncodeItem(f, items[i]);
    assert b == b + [];
    CutBytes(f, items, i, [], b);
    BodyAppend(f, items[..i], items[i + 1..]);
    var rest := Without(items, i);
    if |items| > 1 {
      var a, c := Body(f, items[..i]), Body(f, items[i + 1..]);
      assert Le32(|items| - 1) + a + [] + c == Le32(|items| - 1) + (a + c);
    } else {
      assert rest == [];
    }
  }

  /** The same, for a name searched in a payload. */
  lemma CutFound(f: Format, raw: seq<Byte>, name: seq<Byte>)
    requires Proper(f, raw) && Find(f, raw, name).Some?
    ensures var items, at := Decode(f, raw), Find(f, raw, name).value;
            var i := First(items, name);
            && i < |items| && Count(raw) == |items| && raw == Encode(f, items) && 4 <= at.start
            && at == At(Start(f, items, i), items[i], Start(f, items, i) + |EncodeItem(f, items[i])|)
            && Represents(f, Cut(raw, at.start, at.end), Without(items, i))
  {
    hide Encode, EncodeItem, Fits, Count, Cut, Decode, Start;
    var items := Decode(f, raw);
    RepresentedDecodes(f, raw, items);
    SomeItem(f, raw, name);
    FindBack(f, items, name);
    CutRepresents(f, items, First(items, name));
  }

  /** A name is found in bytes exactly when a decoded item has it. */
  lemma SomeItem(f: Format, raw: seq<Byte>, name: seq<Byte>)
    ensures var items, at := Decode(f, raw), Find(f, raw, name);
            && (at.Some? <==> First(items, name) < |items|)
            && (at.Some? ==> Count(raw) > 0 && at.value.item == items[First(items, name)])
  {
    hide ItemAt;
    LocateFirst(f, raw, 4, Count(raw), name);
  }

  // ----- Names as keys -----

  predicate DistinctNames(items: seq<Item>) {
    forall i, j :: 0 <= i < j < |items| ==> items[i].name != items[j].name
  }

  function Names(items: seq<Item>): set<seq<Byte>> {
    set i | 0 <= i < |items| :: items[i].name
  }

  lemma FirstIsIn(items: seq<Item>, name: seq<Byte>)
    ensures First(items, name) < |items| <==> name in Names(items)
  {
  }

  lemma WithoutNames(items: seq<Item>, i: nat)
    requires i < |items| && DistinctNames(items)
    ensures DistinctNames(Without(items, i)) && Names(Without(items, i)) == Names(items) - {items[i].name}
  {
    var r := Without(items, i);
    forall k | 0 <= k < |items| && k != i
      ensures items[k].name in Names(r)
    {
      var j := if k < i then k else k - 1;
      assert r[j] == items[k];
    }
  }

  lemma AddedNames(items: seq<Item>, it: Item)
    ensures Names(items + [it]) == Names(items) + {it.name}
    ensures DistinctNames(items) && it.name !in Names(items) ==> DistinctNames(items + [it])
  {
    var r := items + [it];
    assert r[|items|] == it;
    forall k | 0 <= k < |items|
      ensures items[k].name in Names(r)
    {
      assert r[k] == items[k];
    }
  }

  /** Distinct names are as many as the items. */
  lemma {:induction false} DistinctCount(items: seq<Item>)
    requires DistinctNames(items)
    ensures |Names(items)| == |items|
  {
    if items != [] {
      var n := |items| - 1;
      DistinctCount(items[..n]);
      assert items == items[..n] + [items[n]];
      AddedNames(items[..n], items[n]);
    }
  }

  // ----- Loops over a payload -----

  /** Searches item by item; stops at the name, at the count, or where the bytes end. */
  method Search(f: Format, raw: seq<Byte>, name: seq<Byte>) returns (found: Option<At>)
    ensures found == Find(f, raw, name)
  {
    hide ItemAt, Get32;
    var count, off := Count(raw), 4;
    for i := 0 to count
      invariant Find(f, raw, name) == Locate(f, raw, off, count - i, name)
    {
      var at := ItemAt(f, raw, off);
      if at.None? { return None; }
      if at.value.item.name == name { return at; }
      off := at.value.end;
    }
    return None;
  }

  /** Collects the items, as far as they are whole. */
  method Collect(f: Format, raw: seq<Byte>) returns (items: seq<Item>)
    ensures items == Decode(f, raw)
  {
    hide ItemAt, Count;
    var count, off := Count(raw), 4;
    items := [];
    assert Decode(f, raw) == [] + Walk(f, raw, 4, count);
    for i := 0 to count
      invariant Decode(f, raw) == items + Walk(f, raw, off, count - i)
    {
      var at := ItemAt(f, raw, off);
      if at.None? { return; }
      Regroup(items, at.value.item, Walk(f, raw, at.value.end, count - i - 1));
      items := items + [at.value.item];
      off := at.value.end;
    }
  }

  lemma Regroup(items: seq<Item>, it: Item, rest: seq<Item>)
    ensures items + ([it] + rest) == items + [it] + rest
  {
  }
}
