/** The S3-FIFO eviction policy over its two rings: nothing enters or leaves the
    queues unaccounted for, and second chances run out. */
module S3Fifo {
  import opened Bytes
  import opened Rings
  import Probing

  // ----- Meta cells -----

  /** A handle's meta cell: one per eight bytes of its region. */
  datatype Cell = Cell(region: nat, index: nat)

  /** Two bits of frequency, two of queue tag, and the remaining flags. */
  datatype Meta = Meta(freq: nat, tag: nat, flags: nat)

  /** Cells outside the arena are absent; reading them gives 0, writing is ignored. */
  type Metas = map<Cell, Meta>

  const TAG_NONE := 0
  const TAG_S := 1
  const TAG_M := 2

  function CellOf(h: Handle): Cell {
    Cell(h.region, h.offset / 8)
  }

  function Freq(ms: Metas, h: Handle): nat {
    if CellOf(h) in ms then ms[CellOf(h)].freq % 4 else 0
  }

  function TagOf(ms: Metas, h: Handle): nat {
    if CellOf(h) in ms then ms[CellOf(h)].tag else TAG_NONE
  }

  function SetFreq(ms: Metas, h: Handle, f: nat): Metas {
    if CellOf(h) in ms then ms[CellOf(h) := ms[CellOf(h)].(freq := f % 4)] else ms
  }

  function IncFreq(ms: Metas, h: Handle): Metas {
    SetFreq(ms, h, Freq(ms, h) + 1)
  }

  /** Bitwise or of two two-bit tags. */
  function OrBits(a: nat, b: nat): nat {
    (if a % 2 == 1 || b % 2 == 1 then 1 else 0) + (if a / 2 % 2 == 1 || b / 2 % 2 == 1 then 2 else 0)
  }

  function OrTag(ms: Metas, h: Handle, tag: nat): Metas {
    if CellOf(h) in ms then ms[CellOf(h) := ms[CellOf(h)].(tag := OrBits(ms[CellOf(h)].tag, tag))] else ms
  }

  function ClearTag(ms: Metas, h: Handle): Metas {
    if CellOf(h) in ms then ms[CellOf(h) := ms[CellOf(h)].(tag := TAG_NONE)] else ms
  }

  // ----- What each operation does to the queues -----

  datatype Queues = Queues(s: seq<Slot>, m: seq<Slot>, metas: Metas)

  /** Queues after an operation, and the handles it hands back to be freed. */
  datatype Outcome = Outcome(q: Queues, evicted: seq<Handle>)

  function Enqueue(q: seq<Slot>, h: Handle): seq<Slot> {
    q + [Slot(h, true)]
  }

  function EvictM(q: Queues): Outcome {
    if q.m == [] then Outcome(q, [])
    else
      var h := q.m[0].h;
      var f := Freq(q.metas, h);
      if f >= 1 then Outcome(q.(m := Enqueue(q.m[1..], h), metas := SetFreq(q.metas, h, f - 1)), [])
      else Outcome(q.(m := q.m[1..], metas := ClearTag(q.metas, h)), [h])
  }

  function IntoM(q: Queues, h: Handle): Queues {
    q.(m := Enqueue(q.m, h), metas := OrTag(SetFreq(q.metas, h, 0), h, TAG_M))
  }

  function Promote(q: Queues, h: Handle, capM: nat): Outcome {
    if |q.m| < capM then Outcome(IntoM(q, h), [])
    else
      var o := EvictM(q);
      if |o.q.m| < capM then Outcome(IntoM(o.q, h), o.evicted)
      else Outcome(o.q.(metas := SetFreq(o.q.metas, h, 0)), o.evicted + [h])
  }

  function EvictS(q: Queues, capM: nat): Outcome {
    if q.s == [] then Outcome(q, [])
    else
      var h := q.s[0].h;
      if Freq(q.metas, h) >= 2
      then Promote(q.(s := q.s[1..], metas := ClearTag(q.metas, h)), h, capM)
      else Outcome(q.(s := q.s[1..]), [h])
  }

  /** `known` is whether the ghost index remembers the key. */
  function Added(q: Queues, h: Handle, known: bool, capS: nat, capM: nat): Outcome {
    if known then
      if |q.m| < capM then Outcome(IntoM(q, h), []) else EvictM(q)
    else if |q.s| < capS then
      Outcome(q.(s := Enqueue(q.s, h), metas := OrTag(SetFreq(q.metas, h, 0), h, TAG_S)), [])
    else EvictS(q, capM)
  }

  // ----- Conservation -----

  function Handles(q: seq<Slot>): (hs: seq<Handle>)
    ensures |hs| == |q| && forall i :: 0 <= i < |q| ==> hs[i] == q[i].h
  {
    seq(|q|, i requires 0 <= i < |q| => q[i].h)
  }

  /** Handles queued, tombstones included. */
  function Queued(q: Queues): multiset<Handle> {
    multiset(Handles(q.s)) + multiset(Handles(q.m))
  }

  lemma DequeueBag(q: seq<Slot>)
    requires q != []
    ensures multiset(Handles(q)) == multiset{q[0].h} + multiset(Handles(q[1..]))
  {
    assert Handles(q) == [q[0].h] + Handles(q[1..]);
  }

  lemma EnqueueBag(q: seq<Slot>, h: Handle)
    ensures multiset(Handles(Enqueue(q, h))) == multiset(Handles(q)) + multiset{h}
  {
    assert Handles(Enqueue(q, h)) == Handles(q) + [h];
  }

  lemma EvictMConserves(q: Queues)
    ensures var o := EvictM(q);
            Queued(q) == Queued(o.q) + multiset(o.evicted) && |o.q.m| <= |q.m| && o.q.s == q.s
  {
    hide Handles, SetFreq, ClearTag, Freq;
    if q.m != [] {
      DequeueBag(q.m);
      EnqueueBag(q.m[1..], q.m[0].h);
    }
  }

  lemma PromoteConserves(q: Queues, h: Handle, capM: nat)
    requires |q.m| <= capM
    ensures var o := Promote(q, h, capM);
            Queued(q) + multiset{h} == Queued(o.q) + multiset(o.evicted) && |o.q.m| <= capM && o.q.s == q.s
  {
    hide Handles, SetFreq, OrTag, EvictM;
    EvictMConserves(q);
    EnqueueBag(q.m, h);
    EnqueueBag(EvictM(q).q.m, h);
  }

  lemma EvictSConserves(q: Queues, capM: nat)
    requires |q.m| <= capM
    ensures var o := EvictS(q, capM);
            Queued(q) == Queued(o.q) + multiset(o.evicted) && |o.q.m| <= capM && |o.q.s| <= |q.s|
  {
    hide Handles, SetFreq, ClearTag, Freq, Promote;
    if q.s != [] {
      DequeueBag(q.s);
      var h := q.s[0].h;
      PromoteConserves(q.(s := q.s[1..], metas := ClearTag(q.metas, h)), h, capM);
    }
  }

  /** Whether the queue an addition goes to has room. */
  predicate HasRoom(q: Queues, known: bool, capS: nat, capM: nat) {
    if known then |q.m| < capM else |q.s| < capS
  }

  /** Handles before, and the new one exactly when its ring had room, are the
      handles after and those handed back; no ring exceeds its capacity. */
  lemma AddConserves(q: Queues, h: Handle, known: bool, capS: nat, capM: nat)
    requires |q.s| <= capS && |q.m| <= capM
    ensures var o := Added(q, h, known, capS, capM);
            && Queued(q) + (if HasRoom(q, known, capS, capM) then multiset{h} else multiset{})
               == Queued(o.q) + multiset(o.evicted)
            && |o.q.s| <= capS && |o.q.m| <= capM
  {
    hide Handles, SetFreq, OrTag, EvictM, EvictS;
    EnqueueBag(q.m, h);
    EnqueueBag(q.s, h);
    EvictMConserves(q);
    EvictSConserves(q, capM);
  }

  // ----- Second chances -----

  /** No two queued handles share a meta cell, and each has one. */
  predicate DistinctCells(q: seq<Slot>, ms: Metas) {
    && (forall i :: 0 <= i < |q| ==> CellOf(q[i].h) in ms)
    && (forall i, j :: 0 <= i < j < |q| ==> CellOf(q[i].h) != CellOf(q[j].h))
  }

  function TotalFreq(q: seq<Slot>, ms: Metas): nat {
    if q == [] then 0 else Freq(ms, q[0].h) + TotalFreq(q[1..], ms)
  }

  lemma {:induction false} TotalBound(q: seq<Slot>, ms: Metas)
    ensures TotalFreq(q, ms) <= 3 * |q|
  {
    if q != [] { TotalBound(q[1..], ms); }
  }

  lemma {:induction false} TotalAppend(q: seq<Slot>, s: Slot, ms: Metas)
    ensures TotalFreq(q + [s], ms) == TotalFreq(q, ms) + Freq(ms, s.h)
  {
    hide Freq;
    if q == [] {
      assert [] + [s] == [s];
      assert TotalFreq([s], ms) == Freq(ms, s.h) + TotalFreq([], ms);
    } else {
      assert (q + [s])[1..] == q[1..] + [s];
      TotalAppend(q[1..], s, ms);
    }
  }

  lemma {:induction false} TotalElsewhere(q: seq<Slot>, ms: Metas, h: Handle, f: nat)
    requires forall i :: 0 <= i < |q| ==> CellOf(q[i].h) != CellOf(h)
    ensures TotalFreq(q, SetFreq(ms, h, f)) == TotalFreq(q, ms)
  {
    if q != [] { TotalElsewhere(q[1..], ms, h, f); }
  }

  /** An eviction from a non-empty main queue frees its oldest handle exactly when
      that has no second chance left; otherwise it lowers the total frequency by one
      and keeps the queue's size. */
  lemma EvictMProgress(q: Queues)
    requires q.m != [] && DistinctCells(q.m, q.metas)
    ensures var o := EvictM(q);
            if Freq(q.metas, q.m[0].h) == 0 then o.evicted == [q.m[0].h] && o.q.m == q.m[1..]
            else
              && o.evicted == [] && |o.q.m| == |q.m| && DistinctCells(o.q.m, o.q.metas)
              && TotalFreq(o.q.m, o.q.metas) == TotalFreq(q.m, q.metas) - 1
  {
    var h := q.m[0].h;
    var f := Freq(q.metas, h);
    if f >= 1 {
      var rest, ms := q.m[1..], SetFreq(q.metas, h, f - 1);
      forall i | 0 <= i < |rest|
        ensures CellOf(rest[i].h) != CellOf(h) && CellOf(rest[i].h) in q.metas
      {
        assert rest[i] == q.m[i + 1];
      }
      TotalElsewhere(rest, q.metas, h, f - 1);
      TotalAppend(rest, Slot(h, true), ms);
      Rotated(q.m, q.metas, f - 1);
    }
  }

  lemma Rotated(q: seq<Slot>, ms: Metas, f: nat)
    requires q != [] && DistinctCells(q, ms)
    ensures DistinctCells(Enqueue(q[1..], q[0].h), SetFreq(ms, q[0].h, f))
  {
    var r := Enqueue(q[1..], q[0].h);
    forall i | 0 <= i < |r|
      ensures r[i].h == (if i + 1 < |q| then q[i + 1].h else q[0].h)
    {
    }
  }

  /** Whether one of the next `n` evictions, without touches between, frees a handle. */
  predicate FreesWithin(q: Queues, n: nat)
    decreases n
  {
    n > 0 && (EvictM(q).evicted != [] || FreesWithin(EvictM(q).q, n - 1))
  }

  lemma {:induction false} FreesAfterTotal(q: Queues, n: nat)
    requires q.m != [] && DistinctCells(q.m, q.metas) && TotalFreq(q.m, q.metas) < n
    ensures FreesWithin(q, n)
    decreases n
  {
    hide EvictM, DistinctCells, TotalFreq;
    EvictMProgress(q);
    if EvictM(q).evicted == [] { FreesAfterTotal(EvictM(q).q, n - 1); }
  }

  /** At most 3 times the queue's length evictions in a row free nothing. */
  lemma SecondChancesRunOut(q: Queues)
    requires q.m != [] && DistinctCells(q.m, q.metas)
    ensures FreesWithin(q, 3 * |q.m| + 1)
  {
    hide EvictM, FreesWithin, DistinctCells, TotalFreq;
    TotalBound(q.m, q.metas);
    FreesAfterTotal(q, 3 * |q.m| + 1);
  }

  // ----- Who goes and who stays -----

  /** The queue `m` with `h` behind it, alive, its frequency 0 and its tag that of
      the main queue. */
  predicate IsLastInMain(q: Queues, h: Handle, m: seq<Slot>) {
    && q.m == m + [Slot(h, true)]
    && (CellOf(h) in q.metas ==> q.metas[CellOf(h)].freq == 0 && q.metas[CellOf(h)].tag == 2)
  }

  /** A new key that finds the small queue full pushes its oldest handle out.  Touched
      less than twice, that handle is given back and the main queue stays; otherwise
      it goes to the end of the main queue, if that has room. */
  lemma SmallOverflow(q: Queues, h: Handle, capS: nat, capM: nat)
    requires 0 < capS == |q.s| && |q.m| <= capM
    ensures var o, oldest := Added(q, h, false, capS, capM), q.s[0].h;
            && o.q.s == q.s[1..]
            && (Freq(q.metas, oldest) < 2 ==> o.evicted == [oldest] && o.q.m == q.m && o.q.metas == q.metas)
            && (Freq(q.metas, oldest) >= 2 && |q.m| < capM ==> o.evicted == [] && IsLastInMain(o.q, oldest, q.m))
  {
  }

  /** In a full main queue a promoted handle takes the place of the oldest one, when
      that has no second chance left; otherwise the oldest one uses a chance up and
      the promoted handle is given back. */
  lemma FullMain(q: Queues, h: Handle, capS: nat, capM: nat)
    requires 0 < capS == |q.s| && 0 < capM == |q.m| && Freq(q.metas, q.s[0].h) >= 2
    requires CellOf(q.s[0].h) != CellOf(q.m[0].h) && CellOf(q.m[0].h) in q.metas
    ensures var o, up, first := Added(q, h, false, capS, capM), q.s[0].h, q.m[0].h;
            && o.q.s == q.s[1..]
            && if Freq(q.metas, first) == 0 then o.evicted == [first] && IsLastInMain(o.q, up, q.m[1..])
               else
                 && o.evicted == [up] && o.q.m == q.m[1..] + [Slot(first, true)]
                 && Freq(o.q.metas, first) == Freq(q.metas, first) - 1
  {
  }

  /** A key the ghost index knows, when the main queue is full: the oldest handle is
      given back, or queued again with one chance less. */
  lemma MainOverflow(q: Queues, h: Handle, capS: nat, capM: nat)
    requires 0 < capM == |q.m| && CellOf(q.m[0].h) in q.metas
    ensures var o, first := Added(q, h, true, capS, capM), q.m[0].h;
            && o.q.s == q.s
            && if Freq(q.metas, first) == 0 then o.evicted == [first] && o.q.m == q.m[1..]
               else
                 && o.evicted == [] && o.q.m == q.m[1..] + [Slot(first, true)]
                 && Freq(o.q.metas, first) == Freq(q.metas, first) - 1
  {
  }

  /** Into a queue with room: last, untouched, with the tag of its queue; nothing is
      given back. */
  lemma RoomyAdd(q: Queues, h: Handle, known: bool, capS: nat, capM: nat)
    requires HasRoom(q, known, capS, capM) && CellOf(h) in q.metas
    requires q.metas[CellOf(h)].tag == 0
    ensures var o := Added(q, h, known, capS, capM);
            && o.evicted == [] && o.q.metas[CellOf(h)].freq == 0
            && if known then o.q.s == q.s && o.q.m == q.m + [Slot(h, true)] && o.q.metas[CellOf(h)].tag == 2
               else o.q.m == q.m && o.q.s == q.s + [Slot(h, true)] && o.q.metas[CellOf(h)].tag == 1
  {
  }

  /** Two touches while it is the oldest of a full small queue save a handle, one does
      not. */
  lemma TouchesSave(q: Queues, h: Handle, capS: nat, capM: nat)
    requires 0 < capS == |q.s| && |q.m| < capM && CellOf(q.s[0].h) in q.metas && Freq(q.metas, q.s[0].h) == 0
    ensures var oldest := q.s[0].h;
            var once := q.(metas := IncFreq(q.metas, oldest));
            var twice := once.(metas := IncFreq(once.metas, oldest));
            && Added(once, h, false, capS, capM).evicted == [oldest]
            && Added(twice, h, false, capS, capM).evicted == []
            && oldest in Handles(Added(twice, h, false, capS, capM).q.m)
  {
    var oldest := q.s[0].h;
    var once := q.(metas := IncFreq(q.metas, oldest));
    var twice := once.(metas := IncFreq(once.metas, oldest));
    SmallOverflow(once, h, capS, capM);
    SmallOverflow(twice, h, capS, capM);
    var m := Added(twice, h, false, capS, capM).q.m;
    assert Handles(m)[|q.m|] == oldest;
  }

  // ----- Touching -----

  /** A touch raises the frequency exactly below the top; at 3 the two bits wrap
      to 0. */
  lemma TouchRaises(ms: Metas, h: Handle)
    requires CellOf(h) in ms
    ensures Freq(IncFreq(ms, h), h) > Freq(ms, h) <==> Freq(ms, h) < 3
    ensures Freq(ms, h) == 3 ==> Freq(IncFreq(ms, h), h) == 0
  {
  }

  // ----- The policy -----

  class Eviction {
    const sq: RingBuffer
    const mq: RingBuffer
    var metas: Metas
    /** Handles that entered a queue, and handles handed back, so far. */
    ghost var entered: multiset<Handle>
    ghost var returned: multiset<Handle>

    ghost predicate Shaped()
      reads this, sq, sq.data, mq, mq.data
    {
      && sq.Valid() && mq.Valid() && sq != mq && sq.data != mq.data
      && |sq.Contents()| <= sq.Capacity() && |mq.Contents()| <= mq.Capacity()
    }

    /** What has entered is still queued or has been handed back. */
    ghost predicate Valid()
      reads this, sq, sq.data, mq, mq.data
    {
      Shaped() && entered == Queued(State()) + returned
    }

    ghost function State(): Queues
      requires Shaped()
      reads this, sq, sq.data, mq, mq.data
    {
      Queues(sq.Contents(), mq.Contents(), metas)
    }

    /** A tenth of the capacity for the small queue, the rest for the main one. */
    constructor (capacity: nat, metas: Metas)
      requires capacity > 0
      ensures Valid() && State() == Queues([], [], metas) && fresh(sq) && fresh(mq) && fresh(sq.data) && fresh(mq.data)
      ensures entered == returned == multiset{}
      ensures var small := if capacity < 10 then 1 else capacity / 10;
              && Probing.PowerOfTwo(sq.Capacity()) && small <= sq.Capacity() < 2 * small
              && Probing.PowerOfTwo(mq.Capacity())
              && if capacity <= 2 then mq.Capacity() == 1
                 else capacity - small <= mq.Capacity() < 2 * (capacity - small)
    {
      var sCap := if capacity * 10 / 100 == 0 then 1 else capacity * 10 / 100;
      var mCap := if capacity - sCap == 0 then 1 else capacity - sCap;
      sq := new RingBuffer(sCap);
      mq := new RingBuffer(mCap);
      this.metas, entered, returned := metas, multiset{}, multiset{};
      new;
      TenthIs(capacity);
      assert Handles([]) == [];
    }

    method Add(h: Handle, known: bool) returns (evicted: seq<Handle>)
      requires Valid()
      modifies this, sq, sq.data, mq, mq.data
      ensures Valid()
      ensures Outcome(State(), evicted) == Added(old(State()), h, known, sq.Capacity(), mq.Capacity())
      ensures returned == old(returned) + multiset(evicted)
      ensures entered == old(entered) + if old(HasRoom(State(), known, sq.Capacity(), mq.Capacity()))
                                        then multiset{h} else multiset{}
    {
      hide Handles, SetFreq, OrTag, EvictM, EvictS, Queued;
      ghost var before := State();
      AddConserves(before, h, known, sq.Capacity(), mq.Capacity());
      ghost var news := if HasRoom(before, known, sq.Capacity(), mq.Capacity()) then multiset{h} else multiset{};
      evicted := AddToQueue(h, known);
      Balance(entered, Queued(before), returned, news, Queued(State()), multiset(evicted));
      returned := returned + multiset(evicted);
      entered := entered + news;
    }

    method AddToQueue(h: Handle, known: bool) returns (evicted: seq<Handle>)
      requires Shaped()
      modifies this`metas, sq, sq.data, mq, mq.data
      ensures Shaped()
      ensures Outcome(State(), evicted) == Added(old(State()), h, known, sq.Capacity(), mq.Capacity())
    {
      hide SetFreq, OrTag, EvictM, EvictS;
      evicted := [];
      if known {
        var ok := mq.Push(h);
        if !ok {
          evicted := EvictMain();
          return;
        }
        metas := OrTag(SetFreq(metas, h, 0), h, TAG_M);
        return;
      }
      var ok := sq.Push(h);
      if !ok {
        evicted := EvictSmall();
        return;
      }
      metas := OrTag(SetFreq(metas, h, 0), h, TAG_S);
    }

    method EvictMain() returns (evicted: seq<Handle>)
      requires Shaped()
      modifies this`metas, mq, mq.data
      ensures Shaped() && Outcome(State(), evicted) == EvictM(old(State()))
    {
      var h, ok := mq.Pop();
      if !ok { return []; }
      var f := Freq(metas, h);
      if f >= 1 {
        var _ := mq.Push(h);
        metas := SetFreq(metas, h, f - 1);
        return [];
      }
      metas := ClearTag(metas, h);
      return [h];
    }

    method EvictSmall() returns (evicted: seq<Handle>)
      requires Shaped()
      modifies this`metas, sq, sq.data, mq, mq.data
      ensures Shaped() && Outcome(State(), evicted) == EvictS(old(State()), mq.Capacity())
    {
      hide SetFreq, OrTag, ClearTag, Freq, EvictM;
      var h, ok := sq.Pop();
      if !ok { return []; }
      if Freq(metas, h) < 2 { return [h]; }
      metas := ClearTag(metas, h);
      evicted := PromoteToMain(h);
    }

    method PromoteToMain(h: Handle) returns (evicted: seq<Handle>)
      requires Shaped()
      modifies this`metas, mq, mq.data
      ensures Shaped() && Outcome(State(), evicted) == Promote(old(State()), h, mq.Capacity())
    {
      hide SetFreq, OrTag, EvictM;
      evicted := [];
      var ok := mq.Push(h);
      if !ok {
        evicted := EvictMain();
        ok := mq.Push(h);
        if !ok {
          metas := SetFreq(metas, h, 0);
          return evicted + [h];
        }
      }
      metas := OrTag(SetFreq(metas, h, 0), h, TAG_M);
    }

    /** A hit raises the frequency of a handle that is alive in its tagged queue. */
    method Touch(h: Handle)
      requires Valid()
      modifies this`metas
      ensures Valid() && State().s == old(State().s) && State().m == old(State().m)
      ensures metas == if || (TagOf(old(metas), h) == TAG_S && Slot(h, true) in State().s)
                          || (TagOf(old(metas), h) == TAG_M && Slot(h, true) in State().m)
                       then IncFreq(old(metas), h) else old(metas)
    {
      var tag, found := TagOf(metas, h), false;
      if tag == TAG_S {
        found := sq.ScanFromHead(h);
      } else if tag == TAG_M {
        found := mq.ScanFromHead(h);
      }
      if found { metas := IncFreq(metas, h); }
    }

    /** Marks the handle dead in the queue that holds it; its slot stays counted. */
    method Remove(h: Handle) returns (ghost k: nat)
      requires Valid()
      modifies this`metas, sq.data, mq.data
      ensures Valid() && Alive(old(State()), h, k) && State() == Removed(old(State()), h, k)
    {
      hide Handles, ClearTag, Queued, Removed, Alive;
      k := RemoveFromQueue(h);
      RemovedBag(old(State()), h, k);
    }

    method RemoveFromQueue(h: Handle) returns (ghost k: nat)
      requires Shaped()
      modifies this`metas, sq.data, mq.data
      ensures Shaped() && Alive(old(State()), h, k) && State() == Removed(old(State()), h, k)
    {
      hide ClearTag, Idx, Queue, AliveInside;
      var found;
      found, k := sq.Remove(h);
      if found {
        metas := ClearTag(metas, h);
        return;
      }
      found, k := mq.Remove(h);
      if found { metas := ClearTag(metas, h); }
    }
  }

  lemma TenthIs(n: nat)
    ensures n * 10 / 100 == n / 10
  {
  }

  lemma Balance(entered: multiset<Handle>, before: multiset<Handle>, returned: multiset<Handle>,
                news: multiset<Handle>, after: multiset<Handle>, evicted: multiset<Handle>)
    requires entered == before + returned && before + news == after + evicted
    ensures entered + news == after + (returned + evicted)
  {
    forall h
      ensures (entered + news)[h] == (after + (returned + evicted))[h]
    {
      assert (before + news)[h] == (after + evicted)[h];
    }
  }

  /** The queue with its entry `k`, an alive one for `h`, marked dead. */
  function Killed(q: seq<Slot>, h: Handle, k: nat): seq<Slot> {
    if k < |q| && q[k] == Slot(h, true) then q[k := Slot(h, false)] else q
  }

  /** The queues after removing `h`: the small queue is looked at first. */
  function Removed(q: Queues, h: Handle, k: nat): Queues {
    if Slot(h, true) in q.s then q.(s := Killed(q.s, h, k), metas := ClearTag(q.metas, h))
    else if Slot(h, true) in q.m then q.(m := Killed(q.m, h, k), metas := ClearTag(q.metas, h))
    else q
  }

  /** Entry `k` of the queue that a removal looks at is an alive one of `h`, if there is
      any. */
  predicate Alive(q: Queues, h: Handle, k: nat) {
    && (Slot(h, true) in q.s ==> k < |q.s| && q.s[k] == Slot(h, true))
    && (Slot(h, true) !in q.s && Slot(h, true) in q.m ==> k < |q.m| && q.m[k] == Slot(h, true))
  }

  /** A removal marks one alive entry dead, and does nothing exactly when there is none;
      a small queue's entry goes before one of the main queue. */
  lemma RemovalKills(q: Queues, h: Handle, k: nat)
    requires Alive(q, h, k)
    ensures var q', one := Removed(q, h, k), multiset{Slot(h, true)};
            && (Slot(h, true) in q.s ==>
                  q'.m == q.m && multiset(q'.s) == multiset(q.s) - one + multiset{Slot(h, false)})
            && (Slot(h, true) !in q.s && Slot(h, true) in q.m ==>
                  q'.s == q.s && multiset(q'.m) == multiset(q.m) - one + multiset{Slot(h, false)})
            && (Slot(h, true) !in q.s && Slot(h, true) !in q.m ==> q' == q)
            && (Slot(h, true) in q.s || Slot(h, true) in q.m ==> TagOf(q'.metas, h) == 0)
  {
    if Slot(h, true) in q.s {
      KilledCounts(q.s, h, k);
    } else if Slot(h, true) in q.m {
      KilledCounts(q.m, h, k);
    }
  }

  lemma KilledCounts(q: seq<Slot>, h: Handle, k: nat)
    requires k < |q| && q[k] == Slot(h, true)
    ensures multiset(Killed(q, h, k)) == multiset(q) - multiset{Slot(h, true)} + multiset{Slot(h, false)}
  {
    assert q == q[..k] + [Slot(h, true)] + q[k + 1..];
    assert Killed(q, h, k) == q[..k] + [Slot(h, false)] + q[k + 1..];
  }

  /** Removal frees no slot: the handles queued stay the same. */
  lemma RemovedBag(q: Queues, h: Handle, k: nat)
    ensures Queued(Removed(q, h, k)) == Queued(q)
  {
    KilledBag(q.s, h, k);
    KilledBag(q.m, h, k);
  }

  lemma KilledBag(q: seq<Slot>, h: Handle, k: nat)
    ensures multiset(Handles(Killed(q, h, k))) == multiset(Handles(q)) && |Killed(q, h, k)| == |q|
  {
    assert Handles(Killed(q, h, k)) == Handles(q);
  }

  // ----- What a removal does to later evictions -----

  /** The same handles in the same order with the same frequencies; only the alive
      marks and the tags may differ. */
  predicate Alike(a: Queues, b: Queues) {
    && Handles(a.s) == Handles(b.s) && Handles(a.m) == Handles(b.m) && a.metas.Keys == b.metas.Keys
    && forall c :: c in a.metas ==> a.metas[c].freq == b.metas[c].freq
  }

  lemma RemovedAlike(q: Queues, h: Handle, k: nat)
    ensures Alike(Removed(q, h, k), q)
  {
    assert Handles(Killed(q.s, h, k)) == Handles(q.s);
    assert Handles(Killed(q.m, h, k)) == Handles(q.m);
  }

  lemma EvictMAlike(a: Queues, b: Queues)
    requires Alike(a, b)
    ensures EvictM(a).evicted == EvictM(b).evicted && Alike(EvictM(a).q, EvictM(b).q)
  {
    assert |a.m| == |Handles(a.m)| == |Handles(b.m)| == |b.m|;
    if a.m != [] {
      assert Handles(a.m)[0] == Handles(b.m)[0];
      TailAlike(a.m, b.m);
      EnqueueAlike(a.m[1..], b.m[1..], a.m[0].h);
    }
  }

  lemma TailAlike(a: seq<Slot>, b: seq<Slot>)
    requires Handles(a) == Handles(b) && a != []
    ensures b != [] && a[0].h == b[0].h && Handles(a[1..]) == Handles(b[1..])
  {
    assert Handles(a)[0] == Handles(b)[0];
    assert Handles(a[1..]) == Handles(a)[1..] && Handles(b[1..]) == Handles(b)[1..];
  }

  lemma EnqueueAlike(a: seq<Slot>, b: seq<Slot>, h: Handle)
    requires Handles(a) == Handles(b)
    ensures |a| == |b| && Handles(Enqueue(a, h)) == Handles(Enqueue(b, h))
  {
    assert Handles(Enqueue(a, h)) == Handles(a) + [h] && Handles(Enqueue(b, h)) == Handles(b) + [h];
  }

  lemma PromoteAlike(a: Queues, b: Queues, h: Handle, capM: nat)
    requires Alike(a, b)
    ensures Promote(a, h, capM).evicted == Promote(b, h, capM).evicted
    ensures Alike(Promote(a, h, capM).q, Promote(b, h, capM).q)
  {
    hide EvictM, Handles, Enqueue;
    EnqueueAlike(a.m, b.m, h);
    EvictMAlike(a, b);
    EnqueueAlike(EvictM(a).q.m, EvictM(b).q.m, h);
  }

  lemma EvictSAlike(a: Queues, b: Queues, capM: nat)
    requires Alike(a, b)
    ensures EvictS(a, capM).evicted == EvictS(b, capM).evicted && Alike(EvictS(a, capM).q, EvictS(b, capM).q)
  {
    hide Promote, Handles;
    assert |a.s| == |Handles(a.s)| == |Handles(b.s)| == |b.s|;
    if a.s != [] {
      TailAlike(a.s, b.s);
      var h := a.s[0].h;
      var a', b' := a.(s := a.s[1..], metas := ClearTag(a.metas, h)), b.(s := b.s[1..], metas := ClearTag(b.metas, h));
      PromoteAlike(a', b', h, capM);
    }
  }

  lemma AddedAlike(a: Queues, b: Queues, h: Handle, known: bool, capS: nat, capM: nat)
    requires Alike(a, b)
    ensures Added(a, h, known, capS, capM).evicted == Added(b, h, known, capS, capM).evicted
    ensures Alike(Added(a, h, known, capS, capM).q, Added(b, h, known, capS, capM).q)
  {
    hide EvictM, EvictS, Handles, Enqueue;
    EnqueueAlike(a.m, b.m, h);
    EnqueueAlike(a.s, b.s, h);
    EvictMAlike(a, b);
    EvictSAlike(a, b, capM);
  }

  /** What each addition of a run hands back. */
  function Evictions(q: Queues, adds: seq<(Handle, bool)>, capS: nat, capM: nat): seq<seq<Handle>>
    decreases |adds|
  {
    if adds == [] then []
    else
      var o := Added(q, adds[0].0, adds[0].1, capS, capM);
      [o.evicted] + Evictions(o.q, adds[1..], capS, capM)
  }

  lemma {:induction false} EvictionsAlike(a: Queues, b: Queues, adds: seq<(Handle, bool)>, capS: nat, capM: nat)
    requires Alike(a, b)
    ensures Evictions(a, adds, capS, capM) == Evictions(b, adds, capS, capM)
    decreases |adds|
  {
    hide Alike, Added;
    if adds != [] {
      AddedAlike(a, b, adds[0].0, adds[0].1, capS, capM);
      EvictionsAlike(Added(a, adds[0].0, adds[0].1, capS, capM).q, Added(b, adds[0].0, adds[0].1, capS, capM).q,
                     adds[1..], capS, capM);
    }
  }

  /** Additions do not see that a handle was removed: each hands back what it would
      have handed back otherwise.  So a removed handle comes back exactly when, and
      in the same addition as, it would have been evicted had it stayed. */
  lemma RemovalUnseen(q: Queues, h: Handle, k: nat, adds: seq<(Handle, bool)>, capS: nat, capM: nat)
    ensures Evictions(Removed(q, h, k), adds, capS, capM) == Evictions(q, adds, capS, capM)
  {
    hide Alike, Removed;
    RemovedAlike(q, h, k);
    EvictionsAlike(Removed(q, h, k), q, adds, capS, capM);
  }

  /** A removed handle does come back: added to a small queue of one slot, removed,
      and handed back by the next addition. */
  lemma RemovedHandedBack(ms: Metas, h: Handle, other: Handle, capM: nat)
    ensures var q := Added(Queues([], [], ms), h, false, 1, capM).q;
            && Removed(q, h, 0).s == [Slot(h, false)]
            && Added(Removed(q, h, 0), other, false, 1, capM).evicted == [h]
  {
    var q := Added(Queues([], [], ms), h, false, 1, capM).q;
    assert q.s == [Slot(h, true)] && q.s[0] in q.s;
    assert Freq(q.metas, h) == 0;
  }

  /** Or is queued as alive again: in a full main queue, when it had been touched. */
  lemma RemovedAlive(ms: Metas, h: Handle, other: Handle, capS: nat)
    requires Freq(ms, h) >= 1
    ensures var q := Queues([], [Slot(h, true)], ms);
            && Removed(q, h, 0).m == [Slot(h, false)]
            && Added(Removed(q, h, 0), other, true, capS, 1).q.m == [Slot(h, true)]
  {
    var q := Queues([], [Slot(h, true)], ms);
    assert q.m[0] in q.m;
    assert [Slot(h, false)][1..] == [];
  }
}
