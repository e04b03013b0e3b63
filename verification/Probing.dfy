/** Open addressing with linear probing: when a table can be searched, and how
    insertion and backward-shift deletion keep it searchable, for an arbitrary
    hash.  A slot index is taken modulo the capacity; `MaskIsRemainder` is why
    the program's masking gives the same. */
module Probing {
  import opened Bytes

  type Slots = seq<Option<Key>>

  // ----- Masking by a power of two -----

  predicate PowerOfTwo(n: nat) {
    n == 1 || (n > 0 && n % 2 == 0 && PowerOfTwo(n / 2))
  }

  lemma DoublePower(n: nat)
    requires PowerOfTwo(n)
    ensures PowerOfTwo(2 * n)
  {
    assert 2 * n / 2 == n;
  }

  /** Bitwise and. */
  function And(x: nat, y: nat): nat {
    if x == 0 || y == 0 then 0 else (if x % 2 == 1 && y % 2 == 1 then 1 else 0) + 2 * And(x / 2, y / 2)
  }

  /** Masking with one less than a power of two is the remainder. */
  lemma {:induction false} MaskIsRemainder(p: nat, n: nat)
    requires PowerOfTwo(n)
    ensures And(p, n - 1) == p % n
    decreases n
  {
    if n > 1 {
      var m := n / 2;
      MaskIsRemainder(p / 2, m);
      assert (n - 1) % 2 == 1 && (n - 1) / 2 == m - 1;
      assert p > 0 ==> And(p, n - 1) == p % 2 + 2 * And(p / 2, m - 1);
      HalfRemainder(p, m);
    }
  }

  lemma HalfRemainder(p: nat, m: nat)
    requires m > 0
    ensures p % (2 * m) == p % 2 + 2 * (p / 2 % m)
  {
    var q, r := p / 2 / m, p / 2 % m;
    assert p / 2 == m * q + r;
    assert p == 2 * m * q + (p % 2 + 2 * r);
    RemainderIs(p, 2 * m, q, p % 2 + 2 * r);
  }

  lemma RemainderIs(p: nat, n: nat, q: nat, r: nat)
    requires r < n && p == n * q + r
    ensures p % n == r
  {
    var d := p / n - q;
    assert n * d == r - p % n;
    Multiple(n, d);
  }

  lemma Multiple(n: int, d: int)
    requires n > 0
    ensures (d >= 1 ==> n * d >= n) && (d <= -1 ==> n * d <= -n)
  {
    if d >= 1 { assert n * (d - 1) >= 0; }
    if d <= -1 { assert n * (d + 1) <= 0; }
  }

  // ----- Slots on a ring -----

  function Home(hash: Key -> nat, k: Key, n: nat): (i: nat)
    requires n > 0
    ensures i < n
  {
    hash(k) % n
  }

  function Next(i: nat, n: nat): (j: nat)
    requires i < n
    ensures j < n
  {
    if i + 1 == n then 0 else i + 1
  }

  lemma NextIsRemainder(x: nat, n: nat)
    requires n > 0
    ensures Next(x % n, n) == (x + 1) % n
  {
    var q, r := x / n, x % n;
    assert x == n * q + r;
    if r + 1 == n {
      assert n * (q + 1) == n * q + n;
      RemainderIs(x + 1, n, q + 1, 0);
    } else {
      RemainderIs(x + 1, n, q, r + 1);
    }
  }

  /** How many steps forward, around the end, lead from `a` to `b`. */
  function Steps(a: nat, b: nat, n: nat): (d: nat)
    requires a < n && b < n
    ensures d < n
  {
    if a <= b then b - a else b - a + n
  }

  /** Walking forward from `a` to `b`, `m` is passed (ends included). */
  predicate OnPath(a: nat, m: nat, b: nat, n: nat)
    requires a < n && m < n && b < n
  {
    Steps(a, m, n) <= Steps(a, b, n)
  }

  lemma StepsNext(i: nat, curr: nat, e: nat, n: nat)
    requires i < n && curr < n && e < n && curr != e && (curr == i || Steps(i, curr, n) <= Steps(i, e, n))
    ensures Steps(i, Next(curr, n), n) == Steps(i, curr, n) + 1 <= Steps(i, e, n)
    ensures Steps(i, i, n) == 0
  {
  }

  predicate Distinct(keys: Slots) {
    forall i, j :: 0 <= i < |keys| && 0 <= j < |keys| && keys[i].Some? && keys[i] == keys[j] ==> i == j
  }

  /** From the home of the key in slot `i` up to `i`, no slot is empty except
      perhaps `hole`. */
  predicate Chained(keys: Slots, hash: Key -> nat, i: nat, hole: Option<nat>)
    requires i < |keys|
  {
    keys[i].Some? ==>
      forall m :: 0 <= m < |keys| && OnPath(Home(hash, keys[i].value, |keys|), m, i, |keys|) ==>
        keys[m].Some? || hole == Some(m)
  }

  /** Every key is found by walking forward from its home. */
  predicate Searchable(keys: Slots, hash: Key -> nat) {
    forall i :: 0 <= i < |keys| ==> Chained(keys, hash, i, None)
  }

  // ----- Searching and inserting -----

  /** An empty slot reached over slots that hold other keys proves the key absent. */
  lemma AbsentAt(keys: Slots, hash: Key -> nat, k: Key, i: nat)
    requires i < |keys| && Searchable(keys, hash) && keys[i].None?
    requires forall m :: 0 <= m < |keys| && OnPath(Home(hash, k, |keys|), m, i, |keys|) ==> keys[m] != Some(k)
    ensures Some(k) !in keys
  {
    if Some(k) in keys {
      var j :| 0 <= j < |keys| && keys[j] == Some(k);
      assert Chained(keys, hash, j, None);
      assert !OnPath(Home(hash, k, |keys|), j, i, |keys|);
      assert OnPath(Home(hash, k, |keys|), i, j, |keys|);
      assert false;
    }
  }

  lemma InsertKeeps(keys: Slots, hash: Key -> nat, k: Key, i: nat)
    requires i < |keys| && Searchable(keys, hash) && Distinct(keys) && keys[i].None? && Some(k) !in keys
    requires forall m :: 0 <= m < |keys| && m != i && OnPath(Home(hash, k, |keys|), m, i, |keys|) ==> keys[m].Some?
    ensures Searchable(keys[i := Some(k)], hash) && Distinct(keys[i := Some(k)])
  {
    var after := keys[i := Some(k)];
    forall j | 0 <= j < |after|
      ensures Chained(after, hash, j, None)
    {
      assert Chained(keys, hash, j, None);
    }
  }

  // ----- Backward-shift deletion -----

  /** While a deletion shifts entries back: only keys from `curr` on, once
      around, may still depend on the empty slot `gap`. */
  predicate Shifting(keys: Slots, hash: Key -> nat, gap: nat, curr: nat) {
    && gap < |keys| && curr < |keys| && gap != curr && keys[gap].None?
    && forall i :: 0 <= i < |keys| ==>
         Chained(keys, hash, i, if Steps(gap, curr, |keys|) <= Steps(gap, i, |keys|) then Some(gap) else None)
  }

  lemma ShiftStart(keys: Slots, hash: Key -> nat, i: nat)
    requires 1 < |keys| && i < |keys| && Searchable(keys, hash)
    ensures Shifting(keys[i := None], hash, i, Next(i, |keys|))
  {
    var after := keys[i := None];
    forall j | 0 <= j < |after|
      ensures Chained(after, hash, j, if Steps(i, Next(i, |keys|), |keys|) <= Steps(i, j, |keys|) then Some(i) else None)
    {
      assert Chained(keys, hash, j, None);
    }
  }

  /** The test the program makes, on plain indices. */
  predicate MustMove(desired: nat, gap: nat, curr: nat) {
    || (curr > gap && (desired <= gap || desired > curr))
    || (curr < gap && desired <= gap && desired > curr)
  }

  lemma MustMoveIsOnPath(desired: nat, gap: nat, curr: nat, n: nat)
    requires desired < n && gap < n && curr < n && gap != curr
    ensures MustMove(desired, gap, curr) <==> OnPath(desired, gap, curr, n)
  {
  }

  lemma ShiftingApart(keys: Slots, hash: Key -> nat, gap: nat, curr: nat)
    requires Shifting(keys, hash, gap, curr)
    ensures gap < |keys| && curr < |keys| && gap != curr && keys[gap].None?
  {
  }

  lemma ShiftSkip(keys: Slots, hash: Key -> nat, gap: nat, curr: nat)
    requires Shifting(keys, hash, gap, curr) && keys[curr].Some?
    requires Next(curr, |keys|) != gap
    requires !OnPath(Home(hash, keys[curr].value, |keys|), gap, curr, |keys|)
    ensures Shifting(keys, hash, gap, Next(curr, |keys|))
  {
    var next := Next(curr, |keys|);
    forall i | 0 <= i < |keys|
      ensures Chained(keys, hash, i, if Steps(gap, next, |keys|) <= Steps(gap, i, |keys|) then Some(gap) else None)
    {
      assert Chained(keys, hash, i, if Steps(gap, curr, |keys|) <= Steps(gap, i, |keys|) then Some(gap) else None);
    }
  }

  function Moved(keys: Slots, gap: nat, curr: nat): (r: Slots)
    requires gap < |keys| && curr < |keys|
    ensures |r| == |keys|
  {
    keys[gap := keys[curr]][curr := None]
  }

  lemma ShiftMove(keys: Slots, hash: Key -> nat, gap: nat, curr: nat)
    requires Shifting(keys, hash, gap, curr) && keys[curr].Some?
    requires OnPath(Home(hash, keys[curr].value, |keys|), gap, curr, |keys|)
    ensures Shifting(Moved(keys, gap, curr), hash, curr, Next(curr, |keys|))
  {
    var after, next, n := Moved(keys, gap, curr), Next(curr, |keys|), |keys|;
    forall i | 0 <= i < n
      ensures Chained(after, hash, i, if Steps(curr, next, n) <= Steps(curr, i, n) then Some(curr) else None)
    {
      var from := if i == gap then curr else i;
      assert Chained(keys, hash, from, if Steps(gap, curr, n) <= Steps(gap, from, n) then Some(gap) else None);
    }
  }

  lemma PathThrough(h: nat, gap: nat, curr: nat, i: nat, n: nat)
    requires h < n && gap < n && curr < n && i < n
    ensures OnPath(h, gap, i, n) && Steps(gap, curr, n) <= Steps(gap, i, n) ==> OnPath(h, curr, i, n)
  {
  }

  /** At the next empty slot nothing depends on the gap any more. */
  lemma ShiftEnd(keys: Slots, hash: Key -> nat, gap: nat, curr: nat)
    requires Shifting(keys, hash, gap, curr) && keys[curr].None?
    ensures Searchable(keys, hash)
  {
    var n := |keys|;
    forall i | 0 <= i < n
      ensures Chained(keys, hash, i, None)
    {
      if keys[i].Some? { PathThrough(Home(hash, keys[i].value, n), gap, curr, i, n); }
      assert Chained(keys, hash, i, if Steps(gap, curr, n) <= Steps(gap, i, n) then Some(gap) else None);
    }
  }

  /** Slots before `i` hold only keys that were before `i`. */
  predicate NoneInFront(keys: Slots, was: Slots, i: nat) {
    i <= |keys| == |was| && forall j :: 0 <= j < i && keys[j].Some? ==> keys[j] in was[..i]
  }

  /** A deletion at slot `i` that has come to slot `curr`, before the empty slot `e`. */
  predicate Detour(keys: Slots, was: Slots, hash: Key -> nat, i: nat, gap: nat, curr: nat, e: nat) {
    && i < |keys| && gap < |keys| && curr < |keys| && e < |keys| && keys[e].None? && Distinct(keys)
    && Steps(i, gap, |keys|) < Steps(i, curr, |keys|) <= Steps(i, e, |keys|)
    && Shifting(keys, hash, gap, curr) && NoneInFront(keys, was, i)
  }

  lemma DetourStart(keys: Slots, hash: Key -> nat, i: nat, e: nat)
    requires i < |keys| && keys[i].Some? && e < |keys| && keys[e].None?
    requires Searchable(keys, hash) && Distinct(keys)
    ensures Detour(keys[i := None], keys, hash, i, i, Next(i, |keys|), e)
  {
    ShiftStart(keys, hash, i);
    StepsNext(i, i, e, |keys|);
    assert forall j :: 0 <= j < i ==> keys[i := None][j] == keys[..i][j];
    hide Shifting, Searchable;
  }

  lemma DetourSkip(keys: Slots, was: Slots, hash: Key -> nat, i: nat, gap: nat, curr: nat, e: nat)
    requires Detour(keys, was, hash, i, gap, curr, e) && keys[curr].Some?
    requires !MustMove(Home(hash, keys[curr].value, |keys|), gap, curr)
    ensures Detour(keys, was, hash, i, gap, Next(curr, |keys|), e)
  {
    StepsNext(i, curr, e, |keys|);
    ShiftingApart(keys, hash, gap, curr);
    MustMoveIsOnPath(Home(hash, keys[curr].value, |keys|), gap, curr, |keys|);
    ShiftSkip(keys, hash, gap, curr);
  }

  lemma DetourMove(keys: Slots, was: Slots, hash: Key -> nat, i: nat, gap: nat, curr: nat, e: nat)
    requires Detour(keys, was, hash, i, gap, curr, e) && keys[curr].Some?
    requires MustMove(Home(hash, keys[curr].value, |keys|), gap, curr)
    ensures gap != curr && keys[gap].None?
    ensures Detour(Moved(keys, gap, curr), was, hash, i, curr, Next(curr, |keys|), e)
  {
    StepsNext(i, curr, e, |keys|);
    ShiftingApart(keys, hash, gap, curr);
    MustMoveIsOnPath(Home(hash, keys[curr].value, |keys|), gap, curr, |keys|);
    ShiftMove(keys, hash, gap, curr);
    MovedDistinct(keys, gap, curr);
    FrontMove(keys, was, i, gap, curr);
    hide Distinct, Shifting, NoneInFront, MustMove, Home;
  }

  lemma MovedDistinct(keys: Slots, gap: nat, curr: nat)
    requires gap < |keys| && curr < |keys| && gap != curr && Distinct(keys) && keys[gap].None?
    ensures Distinct(Moved(keys, gap, curr))
  {
  }

  lemma FrontMove(keys: Slots, was: Slots, i: nat, gap: nat, curr: nat)
    requires i < |keys| && gap < |keys| && curr < |keys|
    requires Steps(i, gap, |keys|) < Steps(i, curr, |keys|) && NoneInFront(keys, was, i)
    ensures NoneInFront(Moved(keys, gap, curr), was, i)
  {
    assert gap < i ==> curr < i;
  }

  // ----- Keys only move towards home -----

  /** Every key of `keys` was in `was`, in the same slot or further from its home. */
  predicate Nearer(keys: Slots, was: Slots, hash: Key -> nat) {
    && |keys| == |was|
    && (forall j :: 0 <= j < |keys| && keys[j].Some? ==> keys[j] in was)
    && (forall i, j :: 0 <= i < |keys| && 0 <= j < |keys| && keys[j].Some? && was[i] == keys[j] ==>
          OnPath(Home(hash, keys[j].value, |keys|), j, i, |keys|))
  }

  lemma NearerCleared(keys: Slots, hash: Key -> nat, i: nat)
    requires Distinct(keys) && i < |keys|
    ensures Nearer(keys, keys, hash) && Nearer(keys[i := None], keys, hash)
  {
  }

  lemma NearerMoved(keys: Slots, was: Slots, hash: Key -> nat, gap: nat, curr: nat)
    requires gap < |keys| && curr < |keys| && gap != curr && keys[curr].Some? && Nearer(keys, was, hash)
    requires MustMove(Home(hash, keys[curr].value, |keys|), gap, curr)
    ensures Nearer(Moved(keys, gap, curr), was, hash)
  {
    hide Home;
    var after, n := Moved(keys, gap, curr), |keys|;
    MustMoveIsOnPath(Home(hash, keys[curr].value, n), gap, curr, n);
    forall i, j | 0 <= i < n && 0 <= j < n && after[j].Some? && was[i] == after[j]
      ensures OnPath(Home(hash, after[j].value, n), j, i, n)
    {
      var from := if j == gap then curr else j;
      assert keys[from] == after[j];
    }
  }

  lemma NearerTwice(keys: Slots, mid: Slots, was: Slots, hash: Key -> nat)
    requires Nearer(keys, mid, hash) && Nearer(mid, was, hash)
    ensures Nearer(keys, was, hash)
  {
    hide Home;
    forall i, j | 0 <= i < |keys| && 0 <= j < |keys| && keys[j].Some? && was[i] == keys[j]
      ensures OnPath(Home(hash, keys[j].value, |keys|), j, i, |keys|)
    {
      var m :| 0 <= m < |mid| && mid[m] == keys[j];
      assert OnPath(Home(hash, keys[j].value, |keys|), m, i, |keys|);
    }
  }

  /** A key that has left its slot never comes back to it. */
  lemma NeverBack(keys: Slots, mid: Slots, was: Slots, hash: Key -> nat, i: nat)
    requires Nearer(keys, mid, hash) && Nearer(mid, was, hash) && i < |was| && was[i].Some?
    ensures |keys| == |mid| == |was| && (keys[i] == was[i] ==> mid[i] == was[i])
  {
    hide Home;
    if keys[i] == was[i] {
      var m :| 0 <= m < |mid| && mid[m] == keys[i];
      var home := Home(hash, keys[i].value, |keys|);
      assert OnPath(home, m, i, |keys|) && OnPath(home, i, m, |keys|);
    }
  }

  // ----- Deletion from a table that may be full -----

  /** A deletion whose gap is at `gap` and that has come to `curr`; back at the
      gap it is done. */
  predicate Closing(keys: Slots, hash: Key -> nat, gap: nat, curr: nat) {
    && gap < |keys| && curr < |keys| && keys[gap].None? && Distinct(keys)
    && if gap == curr then Searchable(keys, hash) else Shifting(keys, hash, gap, curr)
  }

  lemma ClosingStart(keys: Slots, hash: Key -> nat, i: nat)
    requires i < |keys| && Searchable(keys, hash) && Distinct(keys)
    ensures Closing(keys[i := None], hash, i, Next(i, |keys|))
  {
    if |keys| > 1 { ShiftStart(keys, hash, i); }
    hide Shifting;
  }

  lemma ClosingSkip(keys: Slots, hash: Key -> nat, gap: nat, curr: nat)
    requires Closing(keys, hash, gap, curr) && keys[curr].Some?
    requires !MustMove(Home(hash, keys[curr].value, |keys|), gap, curr)
    ensures Closing(keys, hash, gap, Next(curr, |keys|))
    ensures Steps(Next(curr, |keys|), gap, |keys|) < Steps(curr, gap, |keys|)
  {
    MustMoveIsOnPath(Home(hash, keys[curr].value, |keys|), gap, curr, |keys|);
    if Next(curr, |keys|) == gap {
      ShiftAround(keys, hash, gap, curr);
    } else {
      ShiftSkip(keys, hash, gap, curr);
    }
    hide Shifting, Searchable, Distinct;
  }

  /** Once around, nothing depends on the gap. */
  lemma ShiftAround(keys: Slots, hash: Key -> nat, gap: nat, curr: nat)
    requires Shifting(keys, hash, gap, curr) && keys[curr].Some? && Next(curr, |keys|) == gap
    requires !OnPath(Home(hash, keys[curr].value, |keys|), gap, curr, |keys|)
    ensures Searchable(keys, hash)
  {
    forall i | 0 <= i < |keys|
      ensures Chained(keys, hash, i, None)
    {
      assert Chained(keys, hash, i, if Steps(gap, curr, |keys|) <= Steps(gap, i, |keys|) then Some(gap) else None);
    }
  }

  lemma ClosingMove(keys: Slots, hash: Key -> nat, gap: nat, curr: nat)
    requires Closing(keys, hash, gap, curr) && keys[curr].Some?
    requires MustMove(Home(hash, keys[curr].value, |keys|), gap, curr)
    ensures gap != curr && keys[gap].None? && Distinct(keys)
    ensures Closing(Moved(keys, gap, curr), hash, curr, Next(curr, |keys|))
    ensures Displaced(Moved(keys, gap, curr), hash, |keys|) < Displaced(keys, hash, |keys|)
  {
    MustMoveIsOnPath(Home(hash, keys[curr].value, |keys|), gap, curr, |keys|);
    ShiftMove(keys, hash, gap, curr);
    MovedDistinct(keys, gap, curr);
    DisplacedUpdate(keys, hash, gap, keys[curr], |keys|);
    DisplacedUpdate(keys[gap := keys[curr]], hash, curr, None, |keys|);
    hide Shifting, Distinct, Displaced;
  }

  lemma ClosingEnd(keys: Slots, hash: Key -> nat, gap: nat, curr: nat)
    requires Closing(keys, hash, gap, curr) && keys[curr].None?
    ensures Searchable(keys, hash) && Distinct(keys)
  {
    hide Shifting, Searchable;
    if gap != curr { ShiftEnd(keys, hash, gap, curr); }
  }

  /** How far the key in slot `i` is from its home. */
  function Distance(k: Option<Key>, hash: Key -> nat, i: nat, n: nat): nat
    requires i < n
  {
    if k.None? then 0 else Steps(Home(hash, k.value, n), i, n)
  }

  /** How far all keys below slot `upto` are from home, together. */
  function Displaced(keys: Slots, hash: Key -> nat, upto: nat): nat
    requires upto <= |keys|
  {
    if upto == 0 then 0
    else Displaced(keys, hash, upto - 1) + Distance(keys[upto - 1], hash, upto - 1, |keys|)
  }

  lemma {:induction false} DisplacedUpdate(keys: Slots, hash: Key -> nat, i: nat, x: Option<Key>, upto: nat)
    requires i < |keys| && upto <= |keys|
    ensures Displaced(keys[i := x], hash, upto) == Displaced(keys, hash, upto)
              + (if i < upto then Distance(x, hash, i, |keys|) - Distance(keys[i], hash, i, |keys|) else 0)
    decreases upto
  {
    hide Distance;
    if upto > 0 { DisplacedUpdate(keys, hash, i, x, upto - 1); }
  }

  // ----- Counting -----

  function Occupied(keys: Slots): (c: nat)
    ensures c <= |keys|
  {
    if keys == [] then 0 else Occupied(keys[..|keys| - 1]) + (if keys[|keys| - 1].Some? then 1 else 0)
  }

  lemma {:induction false} OccupiedUpdate(keys: Slots, i: nat, x: Option<Key>)
    requires i < |keys|
    ensures Occupied(keys[i := x]) == Occupied(keys) - (if keys[i].Some? then 1 else 0) + (if x.Some? then 1 else 0)
  {
    var last := |keys| - 1;
    if i == last {
      assert keys[i := x][..last] == keys[..last];
    } else {
      assert keys[i := x][..last] == keys[..last][i := x];
      OccupiedUpdate(keys[..last], i, x);
    }
  }

  lemma {:induction false} OccupiedEmpty(keys: Slots)
    requires forall i :: 0 <= i < |keys| ==> keys[i].None?
    ensures Occupied(keys) == 0
  {
    if keys != [] { OccupiedEmpty(keys[..|keys| - 1]); }
  }

  lemma {:induction false} OccupiedZero(keys: Slots, i: nat)
    requires i < |keys| && Occupied(keys) == 0
    ensures keys[i].None?
  {
    if i < |keys| - 1 { OccupiedZero(keys[..|keys| - 1], i); }
  }

  /** A table that is not full has an empty slot. */
  lemma {:induction false} EmptySlot(keys: Slots) returns (e: nat)
    requires Occupied(keys) < |keys|
    ensures e < |keys| && keys[e].None?
  {
    if keys[|keys| - 1].None? {
      e := |keys| - 1;
    } else {
      e := EmptySlot(keys[..|keys| - 1]);
    }
  }

  lemma {:induction false} FullTable(keys: Slots, i: nat)
    requires i < |keys| && Occupied(keys) == |keys|
    ensures keys[i].Some?
  {
    var last := |keys| - 1;
    if i < last { FullTable(keys[..last], i); }
  }
}
