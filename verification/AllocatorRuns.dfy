/** The allocator in use: one call at a time, and any number of threads whose
    free-list pops, offset loads and compare-and-swaps interleave. */
module AllocatorRuns {
  import opened Bytes
  import opened Allocators

  // ----- One call -----

  /** A request of no bytes is treated as one byte. */
  function AtLeastOne(n: U32): U32 {
    if n == 0 then 1 else n
  }

  /** Largest request whose rounding does not wrap. */
  const MAX_REQUEST := TWO32 - ALIGN

  /** The whole of Alloc, run alone: a freed block of the class, else a new one. */
  function Allocate(h: Heap, n: U32): (Heap, Option<nat>)
    requires Listed(h)
  {
    var c := SizeClass(AtLeastOne(n));
    if c < LARGE && h.fl[c] != [] then (Pop(h, c), Some(h.fl[c][0]))
    else if Room(h, AtLeastOne(n)) then (Bump(h, AtLeastOne(n)), Some(Align8(h.offset)))
    else (h, None)
  }

  predicate IsLive(h: Heap, off: nat) {
    off in h.info && h.info[off].status == Live
  }

  /** `off` became live, is large enough for `n`, and no other block changed. */
  predicate Gave(h: Heap, h': Heap, off: nat, n: U32) {
    && !IsLive(h, off) && IsLive(h', off)
    && n <= h'.info[off].size && h'.info[off].cls == SizeClass(n)
    && h'.start == h.start && h'.limit == h.limit
    && h'.info.Keys == h.info.Keys + {off}
    && (forall o :: o in h.info && o != off ==> h'.info[o] == h.info[o])
  }

  lemma PopGives(h: Heap, n: U32)
    requires Sound(h) && n <= MAX_REQUEST && SizeClass(n) < LARGE && h.fl[SizeClass(n)] != []
    ensures Sound(Pop(h, SizeClass(n))) && Gave(h, Pop(h, SizeClass(n)), h.fl[SizeClass(n)][0], n)
  {
    SizeClassIsSmallest(n);
    hide SizeClass, Tiled;
    PopSound(h, SizeClass(n));
  }

  lemma BumpGives(h: Heap, n: U32)
    requires Sound(h) && 0 < n <= MAX_REQUEST && Room(h, n)
    ensures Sound(Bump(h, n)) && Gave(h, Bump(h, n), Align8(h.offset), n)
  {
    AllocSizeCovers(n);
    hide SizeClass, AllocSize, Align8, Sound;
    BumpSound(h, n);
  }

  lemma AllocateGives(h: Heap, n: U32)
    requires Sound(h) && n <= MAX_REQUEST
    ensures var (h', r) := Allocate(h, n);
            && Sound(h')
            && (r.Some? ==> Gave(h, h', r.value, AtLeastOne(n)))
            && (r.None? ==> h' == h && !Room(h, AtLeastOne(n)))
  {
    hide SizeClass, Room, Pop, Bump, Align8, Gave;
    var m := AtLeastOne(n);
    if SizeClass(m) < LARGE && h.fl[SizeClass(m)] != [] {
      PopGives(h, m);
    } else if Room(h, m) {
      BumpGives(h, m);
    }
  }

  /** A block of class `c` has been freed and not been given out again. */
  predicate HasFree(h: Heap, c: nat) {
    exists o :: o in h.info && h.info[o].status == Status.Free && h.info[o].cls == c
  }

  /** No multiple of eight from `from` on leaves room for a block for `n` bytes. */
  ghost predicate NoPlace(from: nat, limit: nat, n: U32) {
    forall off: nat :: from <= off && Aligned(off) ==> limit < off + AllocSize(n)
  }

  lemma NoPlaceExact(from: nat, limit: nat, n: U32)
    ensures NoPlace(from, limit, n) <==> limit < Align8(from) + AllocSize(n)
  {
    hide AllocSize;
    if limit < Align8(from) + AllocSize(n) {
      forall off: nat | from <= off && Aligned(off)
        ensures Align8(from) <= off
      {
        LeastAligned(from, off);
      }
    }
  }

  lemma LeastAligned(from: nat, off: nat)
    requires from <= off && Aligned(off)
    ensures Align8(from) <= off
  {
  }

  lemma HasFreeExact(h: Heap, c: nat)
    requires Listed(h)
    ensures HasFree(h, c) <==> c < LARGE && h.fl[c] != []
  {
    if c < LARGE && h.fl[c] != [] { assert h.fl[c][0] in h.info; }
  }

  /** An allocation is refused exactly when no block of the class is free and no
      place is left; a free block is used again before a new one is made, and a new
      one starts at the next multiple of eight. */
  lemma AllocateExact(h: Heap, n: U32)
    requires Sound(h) && n <= MAX_REQUEST
    ensures var (h', r), m := Allocate(h, n), AtLeastOne(n);
            && (r.None? <==> !HasFree(h, SizeClass(m)) && NoPlace(h.offset, h.limit, m))
            && (HasFree(h, SizeClass(m)) ==> r.Some? && r.value in h.info && h'.offset == h.offset)
            && (!HasFree(h, SizeClass(m)) && r.Some? ==> Aligned(r.value) && h.offset <= r.value < h.offset + 8)
  {
    var m := AtLeastOne(n);
    HasFreeExact(h, SizeClass(m));
    NoPlaceExact(h.offset, h.limit, m);
    hide SizeClass, AllocSize, HasFree, NoPlace, Tiled;
  }

  /** What a request does whose rounding wraps to zero bytes. */
  function Wrapped(h: Heap): (Heap, Option<nat>) {
    var off := Align8(h.offset);
    if off > h.limit then (h, None)
    else (h.(offset := off, start := if h.order == [] then off else h.start), Some(off))
  }

  /** It changes no block, and the place it gives is none. */
  lemma WrappedKeeps(h: Heap, n: U32)
    requires Sound(h) && n > MAX_REQUEST
    ensures var (h', r) := Wrapped(h);
            && Sound(h') && h'.info == h.info && h'.fl == h.fl && (r.Some? ==> r.value !in h'.info)
            && r == (if Align8(h.offset) > h.limit then None else Some(Align8(h.offset)))
            && (r.Some? ==> h' == h.(offset := r.value, start := if h.order == [] then r.value else h.start))
            && (r.None? ==> h' == h)
    ensures SizeClass(n) == LARGE && (n + ALIGN - 1) % TWO32 / ALIGN * ALIGN == 0
  {
    BumpIsNew(h);
    if h.order != [] { BlockAt(h, |h.order| - 1); }
    assert (n + ALIGN - 1) % TWO32 < ALIGN;
  }

  class Allocator {
    var offset: nat
    const size: U32
    var fl: seq<seq<nat>>
    ghost var start: nat
    ghost var order: seq<nat>
    ghost var info: map<nat, Info>

    ghost function AsHeap(): Heap
      reads this
    {
      Heap(start, size, offset, fl, order, info)
    }

    constructor (size: U32)
      ensures Sound(AsHeap()) && AsHeap() == Heap(0, size, 0, seq(LARGE, _ => []), [], map[])
    {
      this.size := size;
      offset, fl := 0, seq(LARGE, _ => []);
      start, order, info := 0, [], map[];
    }

    /** Reserves a prefix before the first allocation. */
    method Skip(n: nat)
      requires order == [] && info == map[] && n <= size && Sound(AsHeap())
      modifies this
      ensures Sound(AsHeap()) && AsHeap() == old(AsHeap()).(start := n, offset := n)
    {
      offset := n;
      start := n;
    }

    /** Serves a request.  One so large that its rounding wraps is given a place for
        no bytes at all, and nothing is recorded of it. */
    method Alloc(n: U32) returns (r: Option<nat>)
      requires Sound(AsHeap())
      modifies this
      ensures Sound(AsHeap())
      ensures n <= MAX_REQUEST ==> (AsHeap(), r) == Allocate(old(AsHeap()), n)
      ensures n <= MAX_REQUEST && r.Some? ==> Gave(old(AsHeap()), AsHeap(), r.value, AtLeastOne(n))
      ensures n > MAX_REQUEST ==> (AsHeap(), r) == Wrapped(old(AsHeap()))
    {
      hide Align8, Tiled, Gave, Wrapped;
      if n <= MAX_REQUEST { AllocateGives(AsHeap(), n); } else { WrappedKeeps(AsHeap(), n); }
      var m := if n == 0 then 1 else n;
      var cls := SizeClass(m);
      if cls < LARGE && fl[cls] != [] {
        var head := fl[cls][0];
        fl := fl[cls := fl[cls][1..]];
        info := info[head := info[head].(status := Live)];
        return Some(head);
      }
      var allocSize := if cls < LARGE then CLASS_SIZES[cls] else (m + ALIGN - 1) % TWO32 / ALIGN * ALIGN;
      var aligned := Align8(offset);
      if aligned + allocSize > size { return None; }
      if n <= MAX_REQUEST {
        order := order + [aligned];
        info := info[aligned := Info(allocSize, cls, Live)];
      } else if order == [] {
        start := aligned;
      }
      offset := aligned + allocSize;
      return Some(aligned);
    }

    /** Puts a block on the free list of its class; the caller frees each block
        once, with the size it asked for. */
    method Free(off: nat, sz: U32)
      requires Sound(AsHeap()) && IsLive(AsHeap(), off) && info[off].cls == SizeClass(sz)
      modifies this
      ensures Sound(AsHeap()) && AsHeap() == Release(old(AsHeap()), off)
    {
      hide Tiled;
      ReleaseSound(AsHeap(), off);
      var cls := SizeClass(sz);
      info := info[off := info[off].(status := if cls < LARGE then Status.Free else Dead)];
      if cls >= LARGE { return; }
      fl := fl[cls := [off] + fl[cls]];
    }
  }

  // ----- Interleaved calls -----

  /** Where a thread is inside Alloc. */
  datatype Pc =
    | Idle
    | Asked(n: U32)             // about to lock the free list
    | Bumping(n: U32)           // found the free list empty
    | Loaded(n: U32, cur: nat)  // has read the bump offset
    | Returned(r: Option<nat>)

  datatype State = State(heap: Heap, threads: map<nat, Pc>)

  datatype Step =
    | Call(t: nat, n: U32)
    | TryFreeList(t: nat)
    | Load(t: nat)
    | CompareAndSwap(t: nat)
    | Collect(t: nat)
    | FreeBlock(off: nat, size: U32)

  function At(s: State, t: nat): Pc {
    if t in s.threads then s.threads[t] else Idle
  }

  function Goes(s: State, t: nat, pc: Pc): State {
    s.(threads := s.threads[t := pc])
  }

  /** Whether a step can be taken. */
  predicate Enabled(s: State, a: Step) {
    match a
    case Call(t, n) => At(s, t).Idle? && n <= MAX_REQUEST
    case TryFreeList(t) => At(s, t).Asked?
    case Load(t) => At(s, t).Bumping?
    case CompareAndSwap(t) => At(s, t).Loaded?
    case Collect(t) => At(s, t).Returned?
    case FreeBlock(off, size) => IsLive(s.heap, off) && s.heap.info[off].cls == SizeClass(size)
  }

  /** What a step does.  The locked free-list operations are single steps; the
      bump is a load and a compare-and-swap that other threads can get between. */
  function Take(s: State, a: Step): State
    requires Enabled(s, a) && Listed(s.heap)
  {
    match a
    case Call(t, n) => Goes(s, t, Asked(AtLeastOne(n)))
    case TryFreeList(t) =>
      var n := At(s, t).n;
      var c := SizeClass(n);
      if c < LARGE && s.heap.fl[c] != []
      then Goes(s.(heap := Pop(s.heap, c)), t, Returned(Some(s.heap.fl[c][0])))
      else Goes(s, t, Bumping(n))
    case Load(t) => Goes(s, t, Loaded(At(s, t).n, s.heap.offset))
    case CompareAndSwap(t) =>
      var Loaded(n, cur) := At(s, t);
      if Align8(cur) + AllocSize(n) > s.heap.limit then Goes(s, t, Returned(None))
      else if s.heap.offset == cur then Goes(s.(heap := Bump(s.heap, n)), t, Returned(Some(Align8(cur))))
      else Goes(s, t, Bumping(n))
    case Collect(t) => Goes(s, t, Idle)
    case FreeBlock(off, _) => s.(heap := Release(s.heap, off))
  }

  predicate ThreadOk(pc: Pc, offset: nat) {
    match pc
    case Asked(n) => 0 < n <= MAX_REQUEST
    case Bumping(n) => 0 < n <= MAX_REQUEST
    case Loaded(n, cur) => 0 < n <= MAX_REQUEST && cur <= offset
    case _ => true
  }

  predicate Inv(s: State) {
    Sound(s.heap) && forall t :: t in s.threads ==> ThreadOk(s.threads[t], s.heap.offset)
  }

  /** The thread a step belongs to and the block it hands out, if any. */
  function Given(s: State, a: Step): Option<nat>
    requires Enabled(s, a) && Listed(s.heap)
  {
    if a.TryFreeList? || a.CompareAndSwap?
    then (var pc := At(Take(s, a), a.t); if pc.Returned? then pc.r else None)
    else None
  }

  /** Every step of every thread keeps the region sound; a block handed out was
      not live, is large enough, and nothing else about the blocks changes. */
  lemma StepKeeps(s: State, a: Step)
    requires Inv(s) && Enabled(s, a)
    ensures Inv(Take(s, a))
    ensures Given(s, a).Some? ==> Gave(s.heap, Take(s, a).heap, Given(s, a).value, At(s, a.t).n)
    ensures Given(s, a).None? && !a.FreeBlock? ==> Take(s, a).heap == s.heap
    ensures s.heap.offset <= Take(s, a).heap.offset && Take(s, a).heap.limit == s.heap.limit
  {
    hide SizeClass, Align8, AllocSize, Tiled, Gave;
    match a
    case TryFreeList(t) =>
      var n := At(s, t).n;
      if SizeClass(n) < LARGE && s.heap.fl[SizeClass(n)] != [] { PopGives(s.heap, n); }
    case CompareAndSwap(t) =>
      var Loaded(n, cur) := At(s, t);
      if Room(s.heap, n) { BumpGives(s.heap, n); }
    case FreeBlock(off, _) => ReleaseSound(s.heap, off);
    case _ =>
  }

  /** A compare-and-swap that fails does so because another thread's succeeded. */
  lemma FailureIsProgress(s: State, t: nat)
    requires Inv(s) && Enabled(s, CompareAndSwap(t))
    ensures At(Take(s, CompareAndSwap(t)), t).Bumping? ==> At(s, t).cur < s.heap.offset
  {
    hide Sound, Align8, AllocSize;
  }

  /** A look at the free list goes on to the bump exactly when no block of the class
      is free; otherwise it takes one. */
  lemma ListExact(s: State, t: nat)
    requires Inv(s) && Enabled(s, TryFreeList(t))
    ensures var n, pc := At(s, t).n, At(Take(s, TryFreeList(t)), t);
            if !HasFree(s.heap, SizeClass(n)) then pc == Bumping(n)
            else && pc.Returned? && pc.r.Some? && pc.r.value in s.heap.info
                 && s.heap.info[pc.r.value].status == Status.Free && s.heap.info[pc.r.value].cls == SizeClass(n)
  {
    HasFreeExact(s.heap, SizeClass(At(s, t).n));
    hide SizeClass, HasFree, Tiled;
  }

  /** A compare-and-swap refuses only when no place is left, and does so for good: the
      offset only grows.  One that was overtaken while a place is left above what the
      thread has read tries again; one that was not, and finds a place, takes it. */
  lemma SwapExact(s: State, t: nat)
    requires Inv(s) && Enabled(s, CompareAndSwap(t))
    ensures var Loaded(n, cur), s' := At(s, t), Take(s, CompareAndSwap(t));
            && (At(s', t) == Returned(None) <==> NoPlace(cur, s.heap.limit, n))
            && (At(s', t) == Returned(None) ==> NoPlace(s.heap.offset, s.heap.limit, n))
            && (!NoPlace(cur, s.heap.limit, n) && cur != s.heap.offset ==> At(s', t) == Bumping(n) && s'.heap == s.heap)
            && (!NoPlace(cur, s.heap.limit, n) && cur == s.heap.offset ==>
                  At(s', t).Returned? && At(s', t).r.Some? && cur <= At(s', t).r.value < cur + 8
                  && s'.heap.offset == At(s', t).r.value + AllocSize(n))
  {
    var Loaded(n, cur) := At(s, t);
    NoPlaceExact(cur, s.heap.limit, n);
    hide AllocSize, Sound, SizeClass;
    assert cur <= s.heap.offset;
  }

  lemma InvListed(s: State)
    requires Inv(s)
    ensures Listed(s.heap)
  {
  }

  /** Each state follows from the one before by its step. */
  ghost predicate IsRun(run: seq<State>, steps: seq<Step>): (b: bool)
    ensures b ==> |run| == |steps| + 1
  {
    && |run| == |steps| + 1
    && forall i :: 0 <= i < |steps| ==>
         Enabled(run[i], steps[i]) && (Listed(run[i].heap) ==> run[i + 1] == Take(run[i], steps[i]))
  }

  lemma {:induction false} RunKeeps(run: seq<State>, steps: seq<Step>, n: nat)
    requires IsRun(run, steps) && Inv(run[0]) && n <= |steps|
    ensures Inv(run[n]) && Listed(run[n].heap)
  {
    hide Inv, Take, Enabled, Listed;
    if n > 0 {
      RunKeeps(run, steps, n - 1);
      StepKeeps(run[n - 1], steps[n - 1]);
    }
    InvListed(run[n]);
  }

  /** In every interleaving, from an empty region on, every state is sound. */
  lemma RunsAreSound(run: seq<State>, steps: seq<Step>)
    requires IsRun(run, steps) && Inv(run[0])
    ensures forall i :: 0 <= i < |run| ==> Inv(run[i])
  {
    hide Inv, IsRun;
    forall i | 0 <= i < |run|
      ensures Inv(run[i])
    {
      RunKeeps(run, steps, i);
    }
  }

  lemma {:induction false} OffsetGrows(run: seq<State>, steps: seq<Step>, i: nat, j: nat)
    requires IsRun(run, steps) && Inv(run[0]) && i <= j <= |steps|
    ensures run[i].heap.offset <= run[j].heap.offset && run[i].heap.limit == run[j].heap.limit
    decreases j
  {
    hide Inv, Take, Enabled, Listed;
    if i < j {
      OffsetGrows(run, steps, i, j - 1);
      RunKeeps(run, steps, j - 1);
      StepKeeps(run[j - 1], steps[j - 1]);
    }
  }

  /** Over every interleaving: once a thread is refused, no place for its request is
      left in any later state. */
  lemma RefusedForGood(run: seq<State>, steps: seq<Step>, i: nat, j: nat)
    requires IsRun(run, steps) && Inv(run[0]) && i < j <= |steps| && steps[i].CompareAndSwap?
    requires At(run[i], steps[i].t).Loaded? && At(run[i + 1], steps[i].t) == Returned(None)
    ensures NoPlace(run[j].heap.offset, run[j].heap.limit, At(run[i], steps[i].t).n)
  {
    hide Inv, Take, Listed, NoPlace, AllocSize;
    RunKeeps(run, steps, i);
    SwapExact(run[i], steps[i].t);
    OffsetGrows(run, steps, i, j);
    NoPlaceLater(run[i].heap.offset, run[j].heap.offset, run[i].heap.limit, At(run[i], steps[i].t).n);
  }

  lemma NoPlaceLater(from: nat, later: nat, limit: nat, n: U32)
    requires NoPlace(from, limit, n) && from <= later
    ensures NoPlace(later, limit, n)
  {
  }

  /** The thread whose step it is; frees belong to none. */
  predicate IsOf(a: Step, t: nat) {
    !a.FreeBlock? && a.t == t
  }

  /** A compare-and-swap of another thread that got a block. */
  predicate Wins(s: State, a: Step) {
    Enabled(s, a) && Listed(s.heap) && a.CompareAndSwap? && Given(s, a).Some?
  }

  lemma OnlyWinsMove(s: State, a: Step)
    requires Inv(s) && Enabled(s, a)
    ensures Take(s, a).heap.offset != s.heap.offset ==> Wins(s, a)
  {
    hide SizeClass, Align8, AllocSize, Tiled;
  }

  lemma {:induction false} SomeoneWon(run: seq<State>, steps: seq<Step>, i: nat, j: nat) returns (k: nat)
    requires IsRun(run, steps) && Inv(run[0]) && i <= j <= |steps| && run[i].heap.offset != run[j].heap.offset
    ensures i <= k < j && Wins(run[k], steps[k])
    decreases j
  {
    hide Inv, Take, Enabled, Listed, Wins;
    RunKeeps(run, steps, j - 1);
    if run[j - 1].heap.offset != run[j].heap.offset {
      OnlyWinsMove(run[j - 1], steps[j - 1]);
      k := j - 1;
    } else {
      k := SomeoneWon(run, steps, i, j - 1);
    }
  }

  lemma {:induction false} StaysLoaded(run: seq<State>, steps: seq<Step>, t: nat, i: nat, j: nat)
    requires IsRun(run, steps) && Inv(run[0]) && i < j <= |steps| && steps[i] == Load(t)
    requires forall k :: i < k < j ==> !IsOf(steps[k], t)
    ensures At(run[j], t).Loaded? && At(run[j], t).cur == run[i].heap.offset
    decreases j
  {
    hide Inv, Listed;
    RunKeeps(run, steps, j - 1);
    if i < j - 1 {
      StaysLoaded(run, steps, t, i, j - 1);
      OthersKeep(run[j - 1], steps[j - 1], t);
    }
  }

  lemma OthersKeep(s: State, a: Step, t: nat)
    requires Enabled(s, a) && Listed(s.heap) && !IsOf(a, t)
    ensures At(Take(s, a), t) == At(s, t)
  {
    hide SizeClass, Align8, AllocSize;
  }

  /** Whoever has to try again was overtaken since it read the offset: another thread
      got a block in between, so all of them together always get on. */
  lemma LostRace(run: seq<State>, steps: seq<Step>, t: nat, i: nat, j: nat) returns (k: nat)
    requires IsRun(run, steps) && Inv(run[0]) && i < j < |steps| && steps[i] == Load(t) && steps[j] == CompareAndSwap(t)
    requires forall k :: i < k < j ==> !IsOf(steps[k], t)
    requires At(run[j + 1], t).Bumping?
    ensures i < k < j && !IsOf(steps[k], t) && Wins(run[k], steps[k])
  {
    hide Inv, Listed, Wins, Take;
    StaysLoaded(run, steps, t, i, j);
    RunKeeps(run, steps, j);
    FailureIsProgress(run[j], t);
    k := SomeoneWon(run, steps, i, j);
    if k == i { NotALoad(run[k], steps[k]); }
  }

  lemma NotALoad(s: State, a: Step)
    ensures Wins(s, a) ==> !a.Load?
  {
  }

  /** What soundness means for a caller: blocks apart, aligned, in bounds and
      above the skipped prefix. */
  lemma SoundApart(h: Heap, a: nat, b: nat)
    requires Sound(h) && a in h.info && b in h.info
    ensures a != b ==> a + h.info[a].size <= b || b + h.info[b].size <= a
    ensures Aligned(a) && h.start <= a && a + h.info[a].size <= h.limit
  {
    Apart(h, a, b);
  }

  /** No byte below the bump offset is unaccounted for. */
  lemma SoundConserves(h: Heap)
    requires Sound(h)
    ensures h.offset == if h.order == [] then h.start
                        else Align8(h.start) + BytesOf(h, Live, |h.order|) + BytesOf(h, Status.Free, |h.order|)
                             + BytesOf(h, Dead, |h.order|)
  {
    hide Listed, Align8, Aligned, BytesOf;
    if h.order != [] { Conserved(h, |h.order|); }
  }

  lemma EmptyIsSound(start: nat, limit: nat)
    requires start <= limit < TWO32
    ensures Inv(State(Heap(start, limit, start, seq(LARGE, _ => []), [], map[]), map[]))
  {
  }
}
