/** The fixed-capacity ring of the eviction queues: a bounded first-in-first-out
    queue whose entries can be marked dead in place. */
module Rings {
  import opened Bytes
  import opened Probing

  datatype Slot = Slot(h: Handle, alive: bool)

  /** The slot of position `p`; masking by a power-of-two capacity. */
  function Idx(p: nat, n: nat): (i: nat)
    requires n > 0
    ensures i < n
  {
    p % n
  }

  lemma IdxApart(p: nat, q: nat, n: nat)
    requires p < q < p + n
    ensures Idx(p, n) != Idx(q, n)
  {
    assert p == p / n * n + p % n && q == q / n * n + q % n;
    assert q - p == (q / n - p / n) * n + (q % n - p % n);
    NotBetween(q / n - p / n, n);
  }

  lemma NotBetween(k: int, n: nat)
    ensures !(0 < k * n < n)
  {
    if k <= 0 { assert k * n <= 0; } else { assert k * n >= n; }
  }

  /** The queue a ring stands for, oldest first. */
  function Queue(data: seq<Slot>, head: nat, tail: nat): (q: seq<Slot>)
    requires |data| > 0 && head <= tail
    ensures |q| == tail - head
    ensures forall k :: 0 <= k < |q| ==> q[k] == data[Idx(head + k, |data|)]
  {
    seq(tail - head, k requires 0 <= k < tail - head => data[Idx(head + k, |data|)])
  }

  /** Alive slots lie between head and tail. */
  predicate AliveInside(data: seq<Slot>, head: nat, tail: nat)
    requires |data| > 0
  {
    forall i :: 0 <= i < |data| && data[i].alive ==> Within(i, head, tail, |data|)
  }

  predicate Within(i: nat, head: nat, tail: nat, n: nat)
    requires n > 0
  {
    exists p :: head <= p < tail && Idx(p, n) == i
  }

  lemma PushQueue(data: seq<Slot>, head: nat, tail: nat, s: Slot)
    requires |data| > 0 && head <= tail < head + |data| && AliveInside(data, head, tail)
    ensures var data' := data[Idx(tail, |data|) := s];
            && Queue(data', head, tail + 1) == Queue(data, head, tail) + [s]
            && AliveInside(data', head, tail + 1)
  {
    hide Idx;
    var n := |data|;
    var data' := data[Idx(tail, n) := s];
    forall k | 0 <= k < tail - head
      ensures Queue(data', head, tail + 1)[k] == Queue(data, head, tail)[k]
    {
      IdxApart(head + k, tail, n);
    }
    forall i | 0 <= i < n && data'[i].alive
      ensures Within(i, head, tail + 1, n)
    {
      if i == Idx(tail, n) {
        assert head <= tail < tail + 1;
      } else {
        var p :| head <= p < tail && Idx(p, n) == i;
        assert head <= p < tail + 1;
      }
    }
  }

  lemma PopQueue(data: seq<Slot>, head: nat, tail: nat)
    requires |data| > 0 && head < tail <= head + |data| && AliveInside(data, head, tail)
    ensures var i := Idx(head, |data|);
            var data' := data[i := data[i].(alive := false)];
            && Queue(data, head, tail)[0].h == data[i].h
            && Queue(data', head + 1, tail) == Queue(data, head, tail)[1..]
            && AliveInside(data', head + 1, tail)
  {
    hide Idx;
    var n, i := |data|, Idx(head, |data|);
    var data' := data[i := data[i].(alive := false)];
    forall k | 0 <= k < tail - head - 1
      ensures Queue(data', head + 1, tail)[k] == Queue(data, head, tail)[1..][k]
    {
      IdxApart(head, head + 1 + k, n);
      assert head + 1 + k == head + (1 + k);
    }
    forall j | 0 <= j < n && data'[j].alive
      ensures Within(j, head + 1, tail, n)
    {
      var p :| head <= p < tail && Idx(p, n) == j;
      assert head + 1 <= p < tail && Idx(p, n) == j;
    }
  }

  /** Killing the entry in slot `i` marks one entry of the queue dead. */
  lemma KillQueue(data: seq<Slot>, head: nat, tail: nat, i: nat) returns (k: nat)
    requires i < |data| && head <= tail <= head + |data| && AliveInside(data, head, tail) && data[i].alive
    ensures k < tail - head && Queue(data, head, tail)[k] == data[i]
    ensures var data' := data[i := data[i].(alive := false)];
            && Queue(data', head, tail) == Queue(data, head, tail)[k := data[i].(alive := false)]
            && AliveInside(data', head, tail)
  {
    hide Idx;
    var n := |data|;
    var data' := data[i := data[i].(alive := false)];
    var p :| head <= p < tail && Idx(p, n) == i;
    k := p - head;
    assert head + k == p;
    forall j | 0 <= j < tail - head
      ensures Queue(data', head, tail)[j] == Queue(data, head, tail)[k := data[i].(alive := false)][j]
    {
      if j < k { IdxApart(head + j, p, n); }
      if j > k { IdxApart(p, head + j, n); }
    }
    forall j | 0 <= j < n && data'[j].alive
      ensures Within(j, head, tail, n)
    {
      assert data[j].alive;
    }
  }

  /** An alive entry is queued exactly when some slot holds it alive. */
  lemma AliveQueued(data: seq<Slot>, head: nat, tail: nat, s: Slot)
    requires |data| > 0 && head <= tail <= head + |data| && AliveInside(data, head, tail) && s.alive
    ensures s in data <==> s in Queue(data, head, tail)
  {
    hide Idx;
    if s in data {
      var i :| 0 <= i < |data| && data[i] == s;
      var p :| head <= p < tail && Idx(p, |data|) == i;
      assert head + (p - head) == p;
      assert Queue(data, head, tail)[p - head] == s;
    }
  }

  class RingBuffer {
    const data: array<Slot>
    var head: nat
    var tail: nat

    ghost predicate Valid()
      reads this, data
    {
      data.Length > 0 && head <= tail <= head + data.Length && AliveInside(data[..], head, tail)
    }

    ghost function Contents(): seq<Slot>
      requires Valid()
      reads this, data
    {
      Queue(data[..], head, tail)
    }

    function Capacity(): nat {
      data.Length
    }

    /** Capacity is the next power of two. */
    constructor (capacity: nat)
      ensures Valid() && Contents() == [] && fresh(data)
      ensures PowerOfTwo(Capacity()) && capacity <= Capacity()
      ensures if capacity <= 1 then Capacity() == 1 else Capacity() < 2 * capacity
    {
      var c := 1;
      while c < capacity
        invariant 1 <= c && (c == 1 || c < 2 * capacity) && PowerOfTwo(c)
        decreases capacity - c
      {
        DoublePower(c);
        c := 2 * c;
      }
      data := new Slot[c](_ => Slot(NO_HANDLE, false));
      head, tail := 0, 0;
    }

    predicate Full()
      reads this
    {
      tail - head >= data.Length
    }

    method Push(h: Handle) returns (ok: bool)
      requires Valid()
      modifies this`tail, data
      ensures Valid() && ok == (|old(Contents())| < Capacity())
      ensures Contents() == if ok then old(Contents()) + [Slot(h, true)] else old(Contents())
    {
      hide Idx, AliveInside, Queue;
      if Full() { return false; }
      PushQueue(data[..], head, tail, Slot(h, true));
      ghost var was := data[..];
      var i := Idx(tail, data.Length);
      data[i] := Slot(h, true);
      assert data[..] == was[i := Slot(h, true)];
      tail := tail + 1;
      ok := true;
    }

    method Pop() returns (h: Handle, ok: bool)
      requires Valid()
      modifies this`head, data
      ensures Valid() && ok == (old(Contents()) != [])
      ensures !ok ==> h == NO_HANDLE && Contents() == old(Contents())
      ensures ok ==> h == old(Contents())[0].h && Contents() == old(Contents())[1..]
    {
      hide Idx, AliveInside, Queue;
      if tail == head { return NO_HANDLE, false; }
      PopQueue(data[..], head, tail);
      ghost var was := data[..];
      var i := Idx(head, data.Length);
      h := data[i].h;
      data[i] := Slot(h, false);
      assert data[..] == was[i := Slot(h, false)];
      head := head + 1;
      ok := true;
    }

    /** Whether an alive entry for `h` is queued. */
    method ScanFromHead(h: Handle) returns (found: bool)
      requires Valid()
      ensures found <==> Slot(h, true) in Contents()
    {
      AliveQueued(data[..], head, tail, Slot(h, true));
      hide AliveInside, Queue;
      for i := 0 to data.Length
        invariant Slot(h, true) !in data[..i]
      {
        if data[i].alive && data[i].h == h { return true; }
      }
      assert data[..data.Length] == data[..];
      return false;
    }

    /** Marks the first alive entry for `h`, by slot, dead; it stays queued. */
    method Remove(h: Handle) returns (found: bool, ghost k: nat)
      requires Valid()
      modifies data
      ensures Valid() && (found <==> Slot(h, true) in old(Contents()))
      ensures found ==> k < |old(Contents())| && old(Contents())[k] == Slot(h, true)
      ensures Contents() == if found then old(Contents())[k := Slot(h, false)] else old(Contents())
    {
      AliveQueued(data[..], head, tail, Slot(h, true));
      hide AliveInside, Queue;
      for i := 0 to data.Length
        invariant Slot(h, true) !in data[..i] && data[..] == old(data[..])
      {
        if data[i].alive && data[i].h == h {
          k := KillQueue(data[..], head, tail, i);
          data[i] := Slot(h, false);
          assert data[..] == old(data[..])[i := Slot(h, false)];
          return true, k;
        }
      }
      assert data[..data.Length] == data[..];
      return false, 0;
    }
  }
}
