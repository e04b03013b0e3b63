/** The region allocator: size classes, a bump pointer and size-class free lists,
    and what every allocation and release keeps. */
module Allocators {
  import opened Bytes

  const ALIGN := 8
  /** Classes 0 to 10 have free lists; class 11 is bump only. */
  const LARGE := 11

  const CLASS_SIZES: seq<nat> := [8, 16, 32, 64, 128, 256, 512, 1024, 2048, 4096, 8192]

  function SizeClass(n: U32): (c: nat)
    ensures c <= LARGE
  {
    if n <= 8 then 0 else if n <= 16 then 1 else if n <= 32 then 2 else if n <= 64 then 3
    else if n <= 128 then 4 else if n <= 256 then 5 else if n <= 512 then 6 else if n <= 1024 then 7
    else if n <= 2048 then 8 else if n <= 4096 then 9 else if n <= 8192 then 10 else 11
  }

  predicate Aligned(x: nat) {
    x % ALIGN == 0
  }

  function Align8(x: nat): (y: nat)
    ensures x <= y < x + ALIGN && Aligned(y) && (Aligned(x) ==> y == x)
  {
    (x + ALIGN - 1) / ALIGN * ALIGN
  }

  lemma AlignedSum(x: nat, y: nat)
    requires Aligned(x) && Aligned(y)
    ensures Aligned(x + y)
  {
  }

  /** Bytes taken for a request; the rounding of large ones wraps at 32 bits. */
  function AllocSize(n: U32): (s: nat)
    ensures Aligned(s)
  {
    var c := SizeClass(n);
    if c < LARGE then CLASS_SIZES[c] else (n + ALIGN - 1) % TWO32 / ALIGN * ALIGN
  }

  /** The class is the smallest that holds the request. */
  lemma SizeClassIsSmallest(n: U32)
    ensures var c := SizeClass(n);
            && (c < LARGE ==> n <= CLASS_SIZES[c])
            && (c > 0 ==> CLASS_SIZES[c - 1] < n)
  {
  }

  /** A block is as large as the request, exactly up to where rounding wraps. */
  lemma AllocSizeCovers(n: U32)
    ensures n <= AllocSize(n) && 0 < AllocSize(n) <==> n <= TWO32 - ALIGN
  {
    SizeClassIsSmallest(n);
  }

  /** And not much larger: small blocks are less than twice the request, or the
      smallest there are; large ones only round up to a multiple of eight. */
  lemma AllocSizeTight(n: U32)
    requires 0 < n <= TWO32 - 8
    ensures n <= 8 ==> AllocSize(n) == 8
    ensures 8 < n <= 8192 ==> AllocSize(n) < 2 * n
    ensures 8192 < n ==> AllocSize(n) < n + 8
  {
  }

  // ----- The region -----

  datatype Status = Live | Free | Dead

  /** What the model remembers of a block: its size, class and status. */
  datatype Info = Info(size: nat, cls: nat, status: Status)

  /** The allocator's bump offset and free lists, over a region of `limit` bytes
      whose first `start` are skipped, with every block ever bumped, in order. */
  datatype Heap = Heap(start: nat, limit: nat, offset: nat, fl: seq<seq<nat>>, order: seq<nat>, info: map<nat, Info>)

  /** Where the first `i` blocks end. */
  function EndOf(h: Heap, i: nat): nat
    requires i <= |h.order| && forall k :: 0 <= k < |h.order| ==> h.order[k] in h.info
  {
    if i == 0 then h.start else h.order[i - 1] + h.info[h.order[i - 1]].size
  }

  /** Blocks follow each other without gaps, from the aligned start to the bump offset. */
  predicate Tiled(h: Heap) {
    && (forall i :: 0 <= i < |h.order| ==> h.order[i] in h.info)
    && (forall i {:trigger EndOf(h, i)} :: 0 <= i < |h.order| ==> h.order[i] == Align8(EndOf(h, i)))
    && (forall o :: o in h.info ==> o in h.order && h.info[o].size > 0 && Aligned(h.info[o].size))
    && h.offset == EndOf(h, |h.order|)
  }

  /** The free lists hold exactly the free blocks, each once, by class. */
  predicate Listed(h: Heap) {
    && |h.fl| == LARGE
    && (forall c, x :: 0 <= c < LARGE && 0 <= x < |h.fl[c]| ==>
          h.fl[c][x] in h.info && h.info[h.fl[c][x]].status == Free && h.info[h.fl[c][x]].cls == c)
    && (forall c, x, y :: 0 <= c < LARGE && 0 <= x < y < |h.fl[c]| ==> h.fl[c][x] != h.fl[c][y])
    && (forall o :: o in h.info && h.info[o].status == Free ==> h.info[o].cls < LARGE && o in h.fl[h.info[o].cls])
  }

  predicate Sound(h: Heap) {
    && h.start <= h.offset <= h.limit < TWO32
    && Tiled(h) && Listed(h)
    && (forall o :: o in h.info && h.info[o].cls < LARGE ==> h.info[o].size == CLASS_SIZES[h.info[o].cls])
  }

  // ----- Consequences -----

  /** The start of block `j`, or the bump offset behind the last. */
  function StartOf(h: Heap, j: nat): nat
    requires j <= |h.order|
  {
    if j < |h.order| then h.order[j] else h.offset
  }

  lemma BlockAt(h: Heap, i: nat)
    requires Tiled(h) && i < |h.order|
    ensures h.order[i] in h.info && EndOf(h, i) <= h.order[i] && Aligned(h.order[i])
    ensures h.order[i] + h.info[h.order[i]].size == EndOf(h, i + 1) <= StartOf(h, i + 1)
    ensures Aligned(EndOf(h, i + 1))
  {
    hide Align8, Aligned;
    assert h.order[i] == Align8(EndOf(h, i));
    assert i + 1 < |h.order| ==> h.order[i + 1] == Align8(EndOf(h, i + 1));
    AlignedSum(h.order[i], h.info[h.order[i]].size);
  }

  /** Blocks lie in bump order, one behind the other. */
  lemma {:induction false} InOrder(h: Heap, i: nat, j: nat)
    requires Tiled(h) && i < j <= |h.order|
    ensures h.order[i] in h.info && h.order[i] + h.info[h.order[i]].size <= StartOf(h, j)
    decreases j
  {
    hide Tiled;
    BlockAt(h, j - 1);
    if i < j - 1 {
      InOrder(h, i, j - 1);
    }
  }

  lemma {:induction false} AboveStart(h: Heap, i: nat)
    requires Tiled(h) && i <= |h.order|
    ensures (forall k :: 0 <= k < |h.order| ==> h.order[k] in h.info) && h.start <= EndOf(h, i)
  {
    if i > 0 {
      AboveStart(h, i - 1);
      BlockAt(h, i - 1);
    }
  }

  /** Any two blocks are disjoint; each is aligned, above the skipped prefix and
      below the bump offset. */
  lemma Apart(h: Heap, a: nat, b: nat)
    requires Tiled(h) && a in h.info && b in h.info
    ensures Aligned(a) && h.start <= a && a + h.info[a].size <= h.offset
    ensures a == b || a + h.info[a].size <= b || b + h.info[b].size <= a
  {
    var i :| 0 <= i < |h.order| && h.order[i] == a;
    var j :| 0 <= j < |h.order| && h.order[j] == b;
    hide Tiled, Aligned;
    AboveStart(h, i);
    BlockAt(h, i);
    InOrder(h, i, |h.order|);
    if i < j { InOrder(h, i, j); }
    if j < i { InOrder(h, j, i); }
  }

  /** Bytes in blocks of one status, among the first `n` blocks. */
  function BytesOf(h: Heap, s: Status, n: nat): nat
    requires n <= |h.order| && forall k :: 0 <= k < |h.order| ==> h.order[k] in h.info
  {
    if n == 0 then 0
    else BytesOf(h, s, n - 1) + if h.info[h.order[n - 1]].status == s then h.info[h.order[n - 1]].size else 0
  }

  /** Nothing is lost: the bump offset is the aligned start plus the live, free
      and abandoned bytes. */
  lemma {:induction false} Conserved(h: Heap, n: nat)
    requires Tiled(h) && 0 < n <= |h.order|
    ensures EndOf(h, n) == Align8(h.start) + BytesOf(h, Live, n) + BytesOf(h, Free, n) + BytesOf(h, Dead, n)
  {
    hide Aligned, Align8, BytesOf;
    BlockAt(h, n - 1);
    Statuses(h, n);
    if n > 1 {
      Conserved(h, n - 1);
      BlockAt(h, n - 2);
    } else {
      NoBytes(h);
    }
    assert h.order[n - 1] == Align8(EndOf(h, n - 1));
  }

  lemma NoBytes(h: Heap)
    requires Tiled(h)
    ensures BytesOf(h, Live, 0) == BytesOf(h, Free, 0) == BytesOf(h, Dead, 0) == 0
  {
  }

  lemma Statuses(h: Heap, n: nat)
    requires Tiled(h) && 0 < n <= |h.order|
    ensures BytesOf(h, Live, n) + BytesOf(h, Free, n) + BytesOf(h, Dead, n)
         == BytesOf(h, Live, n - 1) + BytesOf(h, Free, n - 1) + BytesOf(h, Dead, n - 1) + h.info[h.order[n - 1]].size
  {
  }

  // ----- Operations -----

  /** Takes the first free block of class `c`. */
  function Pop(h: Heap, c: nat): Heap
    requires Listed(h) && c < LARGE && h.fl[c] != []
  {
    var off := h.fl[c][0];
    h.(fl := h.fl[c := h.fl[c][1..]], info := h.info[off := h.info[off].(status := Live)])
  }

  predicate Room(h: Heap, n: U32) {
    Align8(h.offset) + AllocSize(n) <= h.limit
  }

  /** Advances the bump offset past a new block for `n` bytes. */
  function Bump(h: Heap, n: U32): Heap {
    var off := Align8(h.offset);
    h.(offset := off + AllocSize(n), order := h.order + [off],
       info := h.info[off := Info(AllocSize(n), SizeClass(n), Live)])
  }

  /** Gives a block back; a large one is abandoned. */
  function Release(h: Heap, off: nat): Heap
    requires Listed(h) && off in h.info
  {
    var b := h.info[off];
    if b.cls < LARGE
    then h.(fl := h.fl[b.cls := [off] + h.fl[b.cls]], info := h.info[off := b.(status := Free)])
    else h.(info := h.info[off := b.(status := Dead)])
  }

  /** Only the status of one block differs. */
  predicate Relabelled(h: Heap, h': Heap, off: nat) {
    && h' == h.(fl := h'.fl, info := h'.info)
    && off in h.info && h'.info.Keys == h.info.Keys
    && (forall o :: o in h.info ==> h'.info[o].size == h.info[o].size && h'.info[o].cls == h.info[o].cls)
    && (forall o :: o in h.info && o != off ==> h'.info[o] == h.info[o])
  }

  lemma RelabelledTiled(h: Heap, h': Heap, off: nat)
    requires Tiled(h) && Relabelled(h, h', off)
    ensures Tiled(h')
  {
    hide Align8, Aligned;
    forall i | 0 <= i <= |h.order|
      ensures EndOf(h', i) == EndOf(h, i)
    {
    }
  }

  lemma PopSound(h: Heap, c: nat)
    requires Sound(h) && c < LARGE && h.fl[c] != []
    ensures Sound(Pop(h, c)) && Relabelled(h, Pop(h, c), h.fl[c][0])
    ensures h.info[h.fl[c][0]].status == Free && Pop(h, c).info[h.fl[c][0]].status == Live
  {
    var h', off := Pop(h, c), h.fl[c][0];
    assert Relabelled(h, h', off);
    RelabelledTiled(h, h', off);
    PopListed(h, c);
    hide Tiled, Listed;
  }

  lemma PopListed(h: Heap, c: nat)
    requires Listed(h) && c < LARGE && h.fl[c] != []
    ensures Listed(Pop(h, c))
  {
    var h', off := Pop(h, c), h.fl[c][0];
    forall o | o in h'.info && h'.info[o].status == Free
      ensures h'.info[o].cls < LARGE && o in h'.fl[h'.info[o].cls]
    {
      assert o != off && o in h.fl[h.info[o].cls];
    }
  }

  lemma ReleaseSound(h: Heap, off: nat)
    requires Sound(h) && off in h.info && h.info[off].status == Live
    ensures Sound(Release(h, off)) && Relabelled(h, Release(h, off), off)
    ensures Release(h, off).info[off].status == if h.info[off].cls < LARGE then Free else Dead
  {
    var h' := Release(h, off);
    assert Relabelled(h, h', off);
    RelabelledTiled(h, h', off);
    ReleaseListed(h, off);
    hide Tiled, Listed;
  }

  lemma ReleaseListed(h: Heap, off: nat)
    requires Listed(h) && off in h.info && h.info[off].status == Live
    ensures Listed(Release(h, off))
  {
    var h', c := Release(h, off), h.info[off].cls;
    if c < LARGE {
      assert h'.fl[c] == [off] + h.fl[c];
      assert off !in h.fl[c];
    }
    forall o | o in h'.info && h'.info[o].status == Free
      ensures h'.info[o].cls < LARGE && o in h'.fl[h'.info[o].cls]
    {
      assert o != off ==> o in h.fl[h.info[o].cls];
    }
  }

  lemma BumpSound(h: Heap, n: U32)
    requires Sound(h) && Room(h, n) && AllocSize(n) > 0
    ensures Sound(Bump(h, n)) && Align8(h.offset) !in h.info
  {
    hide Align8, AllocSize, SizeClass, Aligned;
    BumpIsNew(h);
    BumpTiled(h, n);
    BumpListed(h, n);
    assert SizeClass(n) < LARGE ==> AllocSize(n) == CLASS_SIZES[SizeClass(n)] by { ClassSizeIs(n); }
    hide Tiled, Listed;
  }

  lemma ClassSizeIs(n: U32)
    ensures SizeClass(n) < LARGE ==> AllocSize(n) == CLASS_SIZES[SizeClass(n)]
  {
  }

  lemma BumpIsNew(h: Heap)
    requires Tiled(h)
    ensures forall o :: o in h.info ==> o < h.offset
  {
    forall o | o in h.info
      ensures o < h.offset
    {
      Apart(h, o, o);
    }
  }

  lemma BumpTiled(h: Heap, n: U32)
    requires Tiled(h) && AllocSize(n) > 0 && forall o :: o in h.info ==> o < h.offset
    ensures Tiled(Bump(h, n))
  {
    hide Align8, AllocSize, SizeClass, Aligned;
    var h', off := Bump(h, n), Align8(h.offset);
    forall i | 0 <= i <= |h.order|
      ensures EndOf(h', i) == EndOf(h, i)
    {
    }
    assert h'.order[|h.order|] == off;
  }

  lemma BumpListed(h: Heap, n: U32)
    requires Listed(h) && forall o :: o in h.info ==> o < h.offset
    ensures Listed(Bump(h, n))
  {
    hide Align8, AllocSize, SizeClass;
  }
}
