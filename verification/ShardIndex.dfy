/** The shard's key index: three parallel slot arrays that behave as one map
    from keys to handles with an expiry time, for an arbitrary hash. */
module ShardIndexes {
  import opened Bytes
  import opened Probing

  datatype Entry = Entry(handle: Handle, expiresAt: nat) {
    predicate Live(now: nat) {
      expiresAt == 0 || now < expiresAt
    }
  }

  const INITIAL_SLOTS := 64

  /** The slots hold exactly the entries of `m`, and empty slots hold nothing. */
  predicate Holds(keys: Slots, handles: seq<Handle>, expiresAt: seq<nat>, m: map<Key, Entry>) {
    && |handles| == |expiresAt| == |keys|
    && (forall i :: 0 <= i < |keys| ==>
          if keys[i].Some?
          then keys[i].value in m && m[keys[i].value] == Entry(handles[i], expiresAt[i])
          else handles[i] == NO_HANDLE && expiresAt[i] == 0)
    && (forall k :: k in m ==> Some(k) in keys)
  }

  lemma HoldsUpdate(keys: Slots, handles: seq<Handle>, expiresAt: seq<nat>, m: map<Key, Entry>, i: nat, k: Key, e: Entry)
    requires i < |keys| && Holds(keys, handles, expiresAt, m) && Distinct(keys)
    requires keys[i] == Some(k) || (keys[i].None? && k !in m)
    ensures Holds(keys[i := Some(k)], handles[i := e.handle], expiresAt[i := e.expiresAt], m[k := e])
  {
    var after := keys[i := Some(k)];
    forall k' | k' in m[k := e]
      ensures Some(k') in after
    {
      if k' == k {
        assert after[i] == Some(k);
      } else {
        var j :| 0 <= j < |keys| && keys[j] == Some(k');
        assert after[j] == Some(k');
      }
    }
  }

  /** Writing an entry into the slot a probe found for its key. */
  lemma StoreKeeps(keys: Slots, handles: seq<Handle>, expiresAt: seq<nat>, m: map<Key, Entry>, hash: Key -> nat,
                   i: nat, k: Key, e: Entry)
    requires i < |keys| && Holds(keys, handles, expiresAt, m) && Distinct(keys) && Searchable(keys, hash)
    requires if Some(k) in keys then keys[i] == Some(k)
             else keys[i].None? && Searchable(keys[i := Some(k)], hash) && Distinct(keys[i := Some(k)])
    ensures keys[i].Some? <==> k in m
    ensures handles[i] == if k in m then m[k].handle else NO_HANDLE
    ensures var keys' := keys[i := Some(k)];
            && Searchable(keys', hash) && Distinct(keys')
            && Holds(keys', handles[i := e.handle], expiresAt[i := e.expiresAt], m[k := e])
            && Occupied(keys') == Occupied(keys) + (if k in m then 0 else 1)
  {
    HoldsAt(keys, handles, expiresAt, m, i);
    HoldsUpdate(keys, handles, expiresAt, m, i, k, e);
    OccupiedUpdate(keys, i, Some(k));
    hide Holds, Searchable, Distinct, Occupied;
    if keys[i].Some? { assert keys[i := Some(k)] == keys; }
  }

  lemma HoldsClear(keys: Slots, handles: seq<Handle>, expiresAt: seq<nat>, m: map<Key, Entry>, i: nat)
    requires i < |keys| && Holds(keys, handles, expiresAt, m) && Distinct(keys) && keys[i].Some?
    ensures Holds(keys[i := None], handles[i := NO_HANDLE], expiresAt[i := 0], m - {keys[i].value})
    ensures Distinct(keys[i := None])
  {
    var after := keys[i := None];
    forall k | k in m - {keys[i].value}
      ensures Some(k) in after
    {
      var j :| 0 <= j < |keys| && keys[j] == Some(k);
      assert after[j] == Some(k);
    }
  }

  lemma HoldsMove(keys: Slots, handles: seq<Handle>, expiresAt: seq<nat>, m: map<Key, Entry>, gap: nat, curr: nat)
    requires gap < |keys| && curr < |keys| && gap != curr
    requires Holds(keys, handles, expiresAt, m) && Distinct(keys) && keys[gap].None? && keys[curr].Some?
    ensures Holds(Moved(keys, gap, curr), handles[gap := handles[curr]][curr := NO_HANDLE],
                  expiresAt[gap := expiresAt[curr]][curr := 0], m)
  {
    var after := Moved(keys, gap, curr);
    hide Distinct;
    forall k | k in m
      ensures Some(k) in after
    {
      var j :| 0 <= j < |keys| && keys[j] == Some(k);
      assert after[if j == curr then gap else j] == Some(k);
    }
  }

  lemma MoveCounts(keys: Slots, gap: nat, curr: nat)
    requires gap < |keys| && curr < |keys| && gap != curr && keys[gap].None? && keys[curr].Some?
    ensures Occupied(Moved(keys, gap, curr)) == Occupied(keys)
  {
    OccupiedUpdate(keys, gap, keys[curr]);
    OccupiedUpdate(keys[gap := keys[curr]], curr, None);
    hide Occupied;
  }

  lemma HoldsAt(keys: Slots, handles: seq<Handle>, expiresAt: seq<nat>, m: map<Key, Entry>, i: nat)
    requires i < |keys| && Holds(keys, handles, expiresAt, m)
    ensures |keys| == |handles| == |expiresAt|
    ensures keys[i].Some? ==> keys[i].value in m && m[keys[i].value] == Entry(handles[i], expiresAt[i])
    ensures keys[i].None? ==> handles[i] == NO_HANDLE && expiresAt[i] == 0
    ensures forall k :: k in m <==> Some(k) in keys
  {
  }

  function Restrict(m: map<Key, Entry>, keys: Slots): map<Key, Entry> {
    map k | k in m && Some(k) in keys :: m[k]
  }

  lemma RestrictStep(keys: Slots, handles: seq<Handle>, expiresAt: seq<nat>, m: map<Key, Entry>, i: nat)
    requires i < |keys| && Holds(keys, handles, expiresAt, m) && Distinct(keys)
    ensures Restrict(m, keys[..i + 1])
         == if keys[i].Some? then Restrict(m, keys[..i])[keys[i].value := Entry(handles[i], expiresAt[i])]
            else Restrict(m, keys[..i])
    ensures |Restrict(m, keys[..i])| <= i
  {
    assert keys[..i + 1] == keys[..i] + [keys[i]];
    RestrictSize(m, keys[..i]);
  }

  lemma RestrictNone(m: map<Key, Entry>)
    ensures Restrict(m, []) == map[]
  {
  }

  lemma {:induction false} RestrictSize(m: map<Key, Entry>, keys: Slots)
    ensures |Restrict(m, keys)| <= |keys|
  {
    if keys == [] {
      assert Restrict(m, keys) == map[];
    } else {
      var init, last := keys[..|keys| - 1], keys[|keys| - 1];
      RestrictSize(m, init);
      assert keys == init + [last];
      if last.Some? && last.value in m {
        assert Restrict(m, keys) == Restrict(m, init)[last.value := m[last.value]];
      } else {
        assert Restrict(m, keys) == Restrict(m, init);
      }
    }
  }

  lemma RestrictAll(keys: Slots, handles: seq<Handle>, expiresAt: seq<nat>, m: map<Key, Entry>)
    requires Holds(keys, handles, expiresAt, m)
    ensures Restrict(m, keys[..|keys|]) == m
  {
    assert keys[..|keys|] == keys;
  }

  lemma FreshTable(keys: Slots, handles: seq<Handle>, expiresAt: seq<nat>, hash: Key -> nat)
    requires |keys| == |handles| == |expiresAt|
    requires forall i :: 0 <= i < |keys| ==> keys[i].None? && handles[i] == NO_HANDLE && expiresAt[i] == 0
    ensures Searchable(keys, hash) && Distinct(keys) && Holds(keys, handles, expiresAt, map[]) && Occupied(keys) == 0
  {
    OccupiedEmpty(keys);
  }

  predicate HasPrefix(k: Key, prefix: Key) {
    prefix <= k
  }

  /** The probe loop: the slot of `key`, or the empty slot where it belongs. */
  method Probe(keys: Slots, hash: Key -> nat, key: Key) returns (i: nat)
    requires Occupied(keys) < |keys| && Searchable(keys, hash) && Distinct(keys)
    ensures i < |keys|
    ensures Some(key) in keys ==> keys[i] == Some(key)
    ensures Some(key) !in keys ==>
              keys[i].None? && Searchable(keys[i := Some(key)], hash) && Distinct(keys[i := Some(key)])
  {
    var n := |keys|;
    i := Home(hash, key, n);
    ghost var e := EmptySlot(keys);
    while keys[i].Some? && keys[i].value != key
      invariant i < n && OnPath(Home(hash, key, n), i, e, n)
      invariant forall m :: 0 <= m < n && m != i && OnPath(Home(hash, key, n), m, i, n) ==>
                  keys[m].Some? && keys[m].value != key
      decreases Steps(i, e, n)
    {
      i := Next(i, n);
    }
    if keys[i].None? {
      AbsentAt(keys, hash, key, i);
      InsertKeeps(keys, hash, key, i);
    }
  }

  /** `after` is `before` without the keys `gone`, and `freed` lists their handles. */
  predicate Drained(before: map<Key, Entry>, after: map<Key, Entry>, gone: seq<Key>, freed: seq<Handle>) {
    && |gone| == |freed|
    && (forall i, j :: 0 <= i < j < |gone| ==> gone[i] != gone[j])
    && (forall i :: 0 <= i < |gone| ==> gone[i] in before && freed[i] == before[gone[i]].handle)
    && after == before - set k | k in gone
  }

  predicate AllExpired(m: map<Key, Entry>, gone: seq<Key>, now: nat) {
    forall k :: k in gone ==> k in m && !m[k].Live(now)
  }

  lemma DrainNone(m: map<Key, Entry>, now: nat)
    ensures Drained(m, m, [], []) && AllExpired(m, [], now)
  {
  }

  lemma DrainOne(before: map<Key, Entry>, after: map<Key, Entry>, gone: seq<Key>, freed: seq<Handle>, k: Key)
    requires Drained(before, after, gone, freed) && k in after
    ensures Drained(before, after - {k}, gone + [k], freed + [after[k].handle])
    ensures k in before && before[k] == after[k]
  {
    assert (set k' | k' in gone + [k]) == (set k' | k' in gone) + {k};
  }

  lemma ExpireOne(before: map<Key, Entry>, after: map<Key, Entry>, gone: seq<Key>, freed: seq<Handle>, k: Key, now: nat)
    requires Drained(before, after, gone, freed) && AllExpired(before, gone, now) && k in after && !after[k].Live(now)
    ensures Drained(before, after - {k}, gone + [k], freed + [after[k].handle])
    ensures AllExpired(before, gone + [k], now)
  {
    DrainOne(before, after, gone, freed, k);
    hide Drained;
  }

  predicate NoPrefixBefore(keys: Slots, prefix: Key, idx: nat) {
    forall j :: 0 <= j < idx && j < |keys| && keys[j].Some? ==> !HasPrefix(keys[j].value, prefix)
  }

  lemma DrainEnd(before: map<Key, Entry>, after: map<Key, Entry>, gone: seq<Key>, freed: seq<Handle>,
                 keys: Slots, handles: seq<Handle>, expiresAt: seq<nat>, prefix: Key)
    requires Drained(before, after, gone, freed) && Holds(keys, handles, expiresAt, after)
    requires NoPrefixBefore(keys, prefix, |keys|) && forall k :: k in gone ==> HasPrefix(k, prefix)
    ensures forall k :: k in gone <==> k in before && HasPrefix(k, prefix)
  {
    forall k | k in before && HasPrefix(k, prefix)
      ensures k in gone
    {
      assert k in after ==> Some(k) in keys;
    }
  }

  /** The slot `steps` further on than `i`, around the end. */
  function Ahead(i: nat, steps: nat, n: nat): (j: nat)
    requires i < n
    ensures j < n
  {
    if steps == 0 then i else Next(Ahead(i, steps - 1, n), n)
  }

  lemma AheadNext(i: nat, steps: nat, n: nat)
    requires i < n
    ensures Ahead(i, steps + 1, n) == Next(Ahead(i, steps, n), n) && Ahead(i, 0, n) == i
  {
  }

  lemma {:induction false} AheadIsRemainder(i: nat, steps: nat, n: nat)
    requires i < n
    ensures Ahead(i, steps, n) == (i + steps) % n
  {
    hide Next;
    if steps == 0 {
      RemainderIs(i, n, 0, i);
    } else {
      AheadIsRemainder(i, steps - 1, n);
      NextIsRemainder(i + steps - 1, n);
    }
  }

  lemma AheadReaches(i: nat, j: nat, n: nat)
    requires i < n && j < n
    ensures Ahead(i, Steps(i, j, n), n) == j
  {
    AheadIsRemainder(i, Steps(i, j, n), n);
    RemainderIs(i + Steps(i, j, n), n, if i <= j then 0 else 1, j);
  }

  /** Slot `i` holds an entry whose time has come. */
  predicate ExpiredAt(keys: Slots, expiresAt: seq<nat>, i: nat, now: nat) {
    i < |keys| == |expiresAt| && keys[i].Some? && expiresAt[i] != 0 && now >= expiresAt[i]
  }

  /** None of the `steps` slots from `from` on holds an expired entry. */
  predicate NoneExpired(keys: Slots, expiresAt: seq<nat>, from: nat, steps: nat, now: nat) {
    from < |keys| && forall t :: 0 <= t < steps ==> !ExpiredAt(keys, expiresAt, Ahead(from, t, |keys|), now)
  }

  /** `k` is in the first of those slots that holds one. */
  ghost predicate FirstExpired(keys: Slots, expiresAt: seq<nat>, from: nat, steps: nat, now: nat, k: Key) {
    && from < |keys|
    && exists t ::
         && 0 <= t < steps && NoneExpired(keys, expiresAt, from, t, now)
         && ExpiredAt(keys, expiresAt, Ahead(from, t, |keys|), now) && keys[Ahead(from, t, |keys|)] == Some(k)
  }

  lemma FirstIsSome(keys: Slots, expiresAt: seq<nat>, from: nat, steps: nat, now: nat, k: Key)
    requires FirstExpired(keys, expiresAt, from, steps, now, k)
    ensures !NoneExpired(keys, expiresAt, from, steps, now)
    ensures FirstExpired(keys, expiresAt, from, steps + 1, now, k)
  {
    hide ExpiredAt, Ahead;
    var t :| 0 <= t < steps && NoneExpired(keys, expiresAt, from, t, now)
      && ExpiredAt(keys, expiresAt, Ahead(from, t, |keys|), now) && keys[Ahead(from, t, |keys|)] == Some(k);
  }

  /** What an expiry scan says of its window: nothing is gone exactly when nothing
      in it had expired, and the first to go is the first that had. */
  ghost predicate Windowed(keys: Slots, expiresAt: seq<nat>, from: nat, steps: nat, now: nat, gone: seq<Key>) {
    && (gone == [] <==> NoneExpired(keys, expiresAt, from, steps, now))
    && (gone != [] ==> FirstExpired(keys, expiresAt, from, steps, now, gone[0]))
  }

  /** Every slot of the window has lost the expired key it held at first. */
  predicate Vacated(keys: Slots, was: Slots, expiry: seq<nat>, from: nat, steps: nat, now: nat) {
    && from < |was| == |keys|
    && forall t :: 0 <= t < steps && ExpiredAt(was, expiry, Ahead(from, t, |was|), now) ==>
         keys[Ahead(from, t, |was|)] != was[Ahead(from, t, |was|)]
  }

  /** Slot `i` holds a key that has expired by the entries of `m`. */
  predicate Due(keys: Slots, m: map<Key, Entry>, i: nat, now: nat) {
    i < |keys| && keys[i].Some? && keys[i].value in m && !m[keys[i].value].Live(now)
  }

  /** `after` is a searchable table of the other keys, each in its slot or nearer home. */
  ghost predicate Removes(keys: Slots, after: Slots, hash: Key -> nat, i: nat) {
    && i < |keys| && keys[i].Some? && Searchable(after, hash) && Distinct(after) && Nearer(after, keys, hash)
    && forall k :: Some(k) in after <==> Some(k) in keys && Some(k) != keys[i]
  }

  /** One turn of an expiry scan, at slot `i`. */
  ghost predicate Turn(keys: Slots, after: Slots, hash: Key -> nat, m: map<Key, Entry>, i: nat, now: nat) {
    if Due(keys, m, i, now) then Removes(keys, after, hash, i) else after == keys
  }

  /** The keys removed in the first `n` turns, in order. */
  function GoneBy(tables: seq<Slots>, m: map<Key, Entry>, from: nat, now: nat, n: nat): seq<Key>
    requires n < |tables| && forall t :: 0 <= t < |tables| ==> from < |tables[t]|
  {
    if n == 0 then []
    else
      var keys, before := tables[n - 1], GoneBy(tables, m, from, now, n - 1);
      var i := Ahead(from, n - 1, |keys|);
      if Due(keys, m, i, now) then before + [keys[i].value] else before
  }

  /** Turn by turn: the tables an expiry scan goes through, and what goes. */
  ghost predicate Turns(tables: seq<Slots>, hash: Key -> nat, m: map<Key, Entry>, from: nat, now: nat, gone: seq<Key>)
  {
    && tables != [] && (forall t :: 0 <= t < |tables| ==> from < |tables[t]| == |tables[0]|)
    && (forall t :: 0 <= t < |tables| - 1 ==>
          Turn(tables[t], tables[t + 1], hash, m, Ahead(from, t, |tables[0]|), now))
    && gone == GoneBy(tables, m, from, now, |tables| - 1)
  }

  lemma TurnsStart(keys: Slots, hash: Key -> nat, m: map<Key, Entry>, from: nat, now: nat)
    requires from < |keys|
    ensures Turns([keys], hash, m, from, now, [])
  {
  }

  lemma {:induction false} GoneSame(tables: seq<Slots>, more: Slots, m: map<Key, Entry>, from: nat, now: nat, n: nat)
    requires n < |tables| && from < |more| && forall t :: 0 <= t < |tables| ==> from < |tables[t]|
    ensures GoneBy(tables + [more], m, from, now, n) == GoneBy(tables, m, from, now, n)
  {
    hide Due, Ahead;
    if n > 0 { GoneSame(tables, more, m, from, now, n - 1); }
  }

  lemma TurnsStep(tables: seq<Slots>, after: Slots, hash: Key -> nat, m: map<Key, Entry>, from: nat, now: nat,
                  gone: seq<Key>, gone': seq<Key>)
    requires Turns(tables, hash, m, from, now, gone) && |after| == |tables[0]|
    requires var keys := tables[|tables| - 1];
             var i := Ahead(from, |tables| - 1, |keys|);
             && Turn(keys, after, hash, m, i, now)
             && gone' == if Due(keys, m, i, now) then gone + [keys[i].value] else gone
    ensures Turns(tables + [after], hash, m, from, now, gone')
  {
    hide Due, Turn, Ahead;
    GoneSame(tables, after, m, from, now, |tables| - 1);
  }

  /** Two expired keys of the same home, the second behind the first: removing the first
      moves the second into the slot just left, and the scan passes over it. */
  lemma PassedOver(tables: seq<Slots>, hash: Key -> nat, m: map<Key, Entry>, now: nat, gone: seq<Key>, a: Key, b: Key)
    requires Turns(tables, hash, m, 0, now, gone) && 2 <= |tables| <= |tables[0]| && a != b
    requires tables[0] == [Some(a), Some(b)] + seq(|tables[0]| - 2, _ => None)
    requires Home(hash, a, |tables[0]|) == Home(hash, b, |tables[0]|) == 0
    requires a in m && b in m && !m[a].Live(now) && !m[b].Live(now)
    ensures gone == [a] && Some(b) in tables[|tables| - 1]
  {
    hide Home;
    var n, t1 := |tables[0]|, tables[1];
    assert Ahead(0, 0, n) == 0 && Due(tables[0], m, 0, now);
    assert Turn(tables[0], t1, hash, m, 0, now);
    assert Removes(tables[0], t1, hash, 0);
    OnlyAtHome(t1, hash, b);
    NothingMore(tables, hash, m, now, gone, b, |tables| - 1);
    hide Turns;
  }

  /** In a searchable table, an only key is at home. */
  lemma OnlyAtHome(keys: Slots, hash: Key -> nat, k: Key)
    requires keys != [] && Searchable(keys, hash) && forall x :: Some(x) in keys <==> x == k
    ensures keys[Home(hash, k, |keys|)] == Some(k)
    ensures Distinct(keys) ==> forall i :: 0 <= i < |keys| && i != Home(hash, k, |keys|) ==> keys[i].None?
  {
    var i :| 0 <= i < |keys| && keys[i] == Some(k);
    var home := Home(hash, k, |keys|);
    assert Chained(keys, hash, i, None);
    assert OnPath(home, home, i, |keys|);
    assert keys[home].Some? && keys[home] in keys;
    forall j | 0 <= j < |keys| && keys[j].Some?
      ensures keys[j] == Some(k)
    {
      assert keys[j] in keys;
    }
  }

  lemma {:induction false} NothingMore(tables: seq<Slots>, hash: Key -> nat, m: map<Key, Entry>, now: nat, gone: seq<Key>,
                                      b: Key, n: nat)
    requires Turns(tables, hash, m, 0, now, gone) && 1 <= n < |tables| <= |tables[0]|
    requires tables[1][0] == Some(b) && forall i :: 0 < i < |tables[1]| ==> tables[1][i].None?
    ensures tables[n] == tables[1] && GoneBy(tables, m, 0, now, n) == GoneBy(tables, m, 0, now, 1)
  {
    hide Ahead, Removes;
    if n > 1 {
      NothingMore(tables, hash, m, now, gone, b, n - 1);
      AheadOfZero(n - 1, |tables[0]|);
      assert !Due(tables[n - 1], m, n - 1, now);
      assert Turn(tables[n - 1], tables[n], hash, m, Ahead(0, n - 1, |tables[0]|), now);
    }
  }

  lemma AheadOfZero(t: nat, n: nat)
    requires t < n
    ensures Ahead(0, t, n) == t
  {
    AheadIsRemainder(0, t, n);
    RemainderIs(t, n, 0, t);
  }

  lemma NothingVacated(keys: Slots, expiry: seq<nat>, from: nat, steps: nat, now: nat)
    requires from < |keys| && (steps == 0 || Occupied(keys) == 0)
    ensures Vacated(keys, keys, expiry, from, steps, now)
  {
    hide Ahead, Occupied;
    forall t | 0 <= t < steps
      ensures !ExpiredAt(keys, expiry, Ahead(from, t, |keys|), now)
    {
      OccupiedZero(keys, Ahead(from, t, |keys|));
    }
  }

  /** The slots' expiry times are those of the map. */
  predicate Dated(keys: Slots, expiry: seq<nat>, m: map<Key, Entry>) {
    && |keys| == |expiry|
    && forall i :: 0 <= i < |keys| && keys[i].Some? ==> keys[i].value in m && m[keys[i].value].expiresAt == expiry[i]
  }

  lemma HoldsDates(keys: Slots, handles: seq<Handle>, expiry: seq<nat>, m: map<Key, Entry>)
    requires Holds(keys, handles, expiry, m)
    ensures Dated(keys, expiry, m)
  {
  }

  /** A key that is still in its slot has the expiry time it had; what has expired by
      the slots has expired by the map. */
  lemma SameDate(was: Slots, expiry: seq<nat>, before: map<Key, Entry>, keys: Slots, handles: seq<Handle>,
                 expiresAt: seq<nat>, after: map<Key, Entry>, gone: seq<Key>, freed: seq<Handle>, i: nat, now: nat)
    requires Dated(was, expiry, before) && Drained(before, after, gone, freed) && Holds(keys, handles, expiresAt, after)
    requires i < |keys| == |was|
    ensures keys[i] == was[i] && ExpiredAt(was, expiry, i, now) ==> ExpiredAt(keys, expiresAt, i, now)
    ensures ExpiredAt(keys, expiresAt, i, now) <==> Due(keys, before, i, now)
  {
    HoldsAt(keys, handles, expiresAt, after, i);
    hide Holds;
  }

  lemma Left(keys: Slots, mid: Slots, was: Slots, expiry: seq<nat>, hash: Key -> nat, i: nat, now: nat)
    requires Nearer(keys, mid, hash) && Nearer(mid, was, hash) && i < |was|
    requires |mid| == |was| && (mid[i] == was[i] && ExpiredAt(was, expiry, i, now) ==> mid[i] !in keys)
    ensures |keys| == |was| && (ExpiredAt(was, expiry, i, now) ==> keys[i] != was[i])
  {
    assert |keys| == |mid|;
    hide Nearer;
    if was[i].Some? { NeverBack(keys, mid, was, hash, i); }
  }

  lemma RemovesParts(keys: Slots, after: Slots, hash: Key -> nat, i: nat)
    ensures Removes(keys, after, hash, i) ==> i < |keys| && Nearer(after, keys, hash) && keys[i] !in after
  {
    hide Nearer;
  }

  lemma VacatedStep(keys: Slots, mid: Slots, was: Slots, expiry: seq<nat>, hash: Key -> nat, from: nat, steps: nat, now: nat)
    requires Vacated(mid, was, expiry, from, steps, now) && Nearer(keys, mid, hash) && Nearer(mid, was, hash)
    requires var i := Ahead(from, steps, |was|); ExpiredAt(was, expiry, i, now) ==> keys[i] != was[i]
    ensures Vacated(keys, was, expiry, from, steps + 1, now)
  {
    assert |keys| == |mid|;
    hide Ahead, Nearer;
    forall t | 0 <= t <= steps && ExpiredAt(was, expiry, Ahead(from, t, |was|), now)
      ensures keys[Ahead(from, t, |was|)] != was[Ahead(from, t, |was|)]
    {
      if t < steps { NeverBack(keys, mid, was, hash, Ahead(from, t, |was|)); }
    }
  }

  lemma WindowStart(keys: Slots, expiresAt: seq<nat>, from: nat, now: nat)
    requires from < |keys|
    ensures Windowed(keys, expiresAt, from, 0, now, [])
  {
  }

  lemma WindowStep(keys: Slots, expiresAt: seq<nat>, from: nat, steps: nat, now: nat, gone: seq<Key>, gone': seq<Key>)
    requires from < |keys| == |expiresAt| && Windowed(keys, expiresAt, from, steps, now, gone)
    requires gone <= gone'
    requires var i := Ahead(from, steps, |keys|);
             gone == [] ==> gone' == if ExpiredAt(keys, expiresAt, i, now) then [keys[i].value] else []
    ensures Windowed(keys, expiresAt, from, steps + 1, now, gone')
  {
    hide Ahead, ExpiredAt, FirstExpired;
    if gone != [] {
      FirstIsSome(keys, expiresAt, from, steps, now, gone[0]);
      FirstIsSome(keys, expiresAt, from, steps + 1, now, gone[0]);
    } else {
      var i := Ahead(from, steps, |keys|);
      if ExpiredAt(keys, expiresAt, i, now) { FirstAt(keys, expiresAt, from, steps, now); }
    }
  }

  lemma FirstAt(keys: Slots, expiresAt: seq<nat>, from: nat, steps: nat, now: nat)
    requires NoneExpired(keys, expiresAt, from, steps, now)
    requires ExpiredAt(keys, expiresAt, Ahead(from, steps, |keys|), now)
    ensures keys[Ahead(from, steps, |keys|)].Some?
    ensures FirstExpired(keys, expiresAt, from, steps + 1, now, keys[Ahead(from, steps, |keys|)].value)
  {
  }

  lemma EmptyWindow(keys: Slots, expiresAt: seq<nat>, from: nat, steps: nat, now: nat)
    requires from < |keys| && Occupied(keys) == 0
    ensures Windowed(keys, expiresAt, from, steps, now, [])
  {
    hide Ahead, Occupied;
    forall t | 0 <= t < steps
      ensures !ExpiredAt(keys, expiresAt, Ahead(from, t, |keys|), now)
    {
      OccupiedZero(keys, Ahead(from, t, |keys|));
    }
  }

  class ShardIndex {
    const hash: Key -> nat
    var keys: Slots
    var handles: seq<Handle>
    var expiresAt: seq<nat>
    var count: nat
    var mask: nat
    var scanCursor: nat
    ghost var Contents: map<Key, Entry>

    /** At least a quarter of the slots is empty, so every probe ends. */
    ghost predicate Valid()
      reads this
    {
      && Shaped() && count * 4 <= |keys| * 3
      && Searchable(keys, hash) && Distinct(keys)
      && Holds(keys, handles, expiresAt, Contents)
    }

    ghost predicate Shaped()
      reads this
    {
      && |keys| == |handles| == |expiresAt| == mask + 1 && INITIAL_SLOTS <= |keys| && |keys| % 4 == 0 && PowerOfTwo(|keys|)
      && scanCursor < |keys|
      && count == Occupied(keys) == |Contents|
    }

    constructor (hash: Key -> nat)
      ensures Valid() && Contents == map[] && this.hash == hash && |keys| == 64
    {
      this.hash := hash;
      keys, handles, expiresAt := seq(INITIAL_SLOTS, _ => None), seq(INITIAL_SLOTS, _ => NO_HANDLE), seq(INITIAL_SLOTS, _ => 0);
      count, mask, scanCursor := 0, INITIAL_SLOTS - 1, 0;
      Contents := map[];
      new;
      OccupiedEmpty(keys);
    }

    /** Adds or replaces; grows first when three quarters of the slots are used. */
    method Put(key: Key, h: Handle, expires: nat) returns (old_: Handle, replaced: bool)
      requires Valid()
      modifies this
      ensures Valid() && Contents == old(Contents)[key := Entry(h, expires)]
      ensures replaced <==> key in old(Contents)
      ensures old_ == if replaced then old(Contents)[key].handle else NO_HANDLE
      ensures if old(count * 4 >= |keys| * 3)
              then |keys| == 2 * old(|keys|) && scanCursor == 0
              else |keys| == old(|keys|) && scanCursor == old(scanCursor)
      decreases if count * 4 >= |keys| * 3 then 2 else 0
    {
      if count * 4 >= |keys| * 3 { Grow(); }
      old_, replaced := Store(key, h, expires);
    }

    method Store(key: Key, h: Handle, expires: nat) returns (old_: Handle, replaced: bool)
      requires Valid() && count * 4 < |keys| * 3
      modifies this
      ensures Valid() && Contents == old(Contents)[key := Entry(h, expires)]
      ensures replaced <==> key in old(Contents)
      ensures old_ == if replaced then old(Contents)[key].handle else NO_HANDLE
      ensures |keys| == old(|keys|) && scanCursor == old(scanCursor)
    {
      hide Searchable, Holds, Distinct, Occupied, PowerOfTwo;
      var i := Probe(keys, hash, key);
      StoreKeeps(keys, handles, expiresAt, Contents, hash, i, key, Entry(h, expires));
      replaced := keys[i].Some?;
      old_ := handles[i];
      keys := keys[i := Some(key)];
      handles := handles[i := h];
      expiresAt := expiresAt[i := expires];
      Contents := Contents[key := Entry(h, expires)];
      if !replaced { count := count + 1; }
    }

    /** Fresh slot arrays of `nc` empty slots. */
    method Clear(nc: nat)
      requires INITIAL_SLOTS <= nc && nc % 4 == 0 && PowerOfTwo(nc)
      modifies this
      ensures Valid() && Contents == map[] && |keys| == nc && scanCursor == 0
    {
      keys, handles, expiresAt := seq(nc, _ => None), seq(nc, _ => NO_HANDLE), seq(nc, _ => 0);
      mask, count, scanCursor := nc - 1, 0, 0;
      Contents := map[];
      FreshTable(keys, handles, expiresAt, hash);
    }

    /** Re-inserts every entry into twice the room; no insertion grows again. */
    method Grow()
      requires Valid() && count * 4 >= |keys| * 3
      modifies this
      ensures Valid() && Contents == old(Contents) && |keys| == 2 * old(|keys|) && scanCursor == 0
      decreases 1
    {
      hide Searchable, Occupied, Holds, Restrict, PowerOfTwo, Distinct;
      var oldKeys, oldHandles, oldExpires := keys, handles, expiresAt;
      var nc := 2 * |oldKeys|;
      DoublePower(|oldKeys|);
      Clear(nc);
      RestrictNone(old(Contents));
      for i := 0 to |oldKeys|
        invariant Valid() && |keys| == nc && scanCursor == 0
        invariant Contents == Restrict(old(Contents), oldKeys[..i])
      {
        Reinsert(oldKeys, oldHandles, oldExpires, i, old(Contents));
      }
      RestrictAll(oldKeys, oldHandles, oldExpires, old(Contents));
    }

    method Reinsert(oldKeys: Slots, oldHandles: seq<Handle>, oldExpires: seq<nat>, i: nat, ghost was: map<Key, Entry>)
      requires Valid() && i < |oldKeys| == |oldHandles| == |oldExpires| && |keys| == 2 * |oldKeys| && scanCursor == 0
      requires Holds(oldKeys, oldHandles, oldExpires, was) && Distinct(oldKeys)
      requires Contents == Restrict(was, oldKeys[..i])
      modifies this
      ensures Valid() && |keys| == old(|keys|) && scanCursor == 0 && Contents == Restrict(was, oldKeys[..i + 1])
      decreases 1, 0
    {
      hide Searchable, Occupied, Holds, Restrict, PowerOfTwo, Distinct;
      RestrictStep(oldKeys, oldHandles, oldExpires, was, i);
      if oldKeys[i].Some? {
        var _, _ := Put(oldKeys[i].value, oldHandles[i], oldExpires[i]);
      }
    }

    /** The handle and expiry of a key that is present and not expired. */
    method Get(key: Key, now: nat) returns (h: Handle, ok: bool, expires: nat)
      requires Valid()
      ensures ok <==> key in Contents && Contents[key].Live(now)
      ensures if ok then Entry(h, expires) == Contents[key] else h == NO_HANDLE && expires == 0
    {
      if count == 0 {
        assert key !in Contents;
        return NO_HANDLE, false, 0;
      }
      hide Searchable, Holds, Distinct, Occupied;
      var i := Probe(keys, hash, key);
      HoldsAt(keys, handles, expiresAt, Contents, i);
      if keys[i].None? { return NO_HANDLE, false, 0; }
      if expiresAt[i] != 0 && now >= expiresAt[i] { return NO_HANDLE, false, 0; }
      return handles[i], true, expiresAt[i];
    }

    /** Moves the entry in slot `curr` into the empty slot `gap`. */
    method MoveBack(gap: nat, curr: nat)
      requires Shaped() && gap < |keys| && curr < |keys| && gap != curr && keys[gap].None? && keys[curr].Some?
      requires Distinct(keys) && Holds(keys, handles, expiresAt, Contents)
      modifies this`keys, this`handles, this`expiresAt
      ensures keys == Moved(old(keys), gap, curr)
      ensures Shaped() && Holds(keys, handles, expiresAt, Contents)
    {
      HoldsMove(keys, handles, expiresAt, Contents, gap, curr);
      MoveCounts(keys, gap, curr);
      hide Holds, Distinct, Occupied, PowerOfTwo;
      keys, handles, expiresAt := keys[gap := keys[curr]], handles[gap := handles[curr]], expiresAt[gap := expiresAt[curr]];
      keys, handles, expiresAt := keys[curr := None], handles[curr := NO_HANDLE], expiresAt[curr := 0];
    }

    /** Removes the entry in slot `i` and shifts later entries back, around the
        end of the table too.  No key gets in front of `i` that was not there. */
    method DeleteAt(i: nat)
      requires Valid() && i < |keys| && keys[i].Some?
      modifies this
      ensures Valid() && Contents == old(Contents) - {old(keys[i].value)}
      ensures |keys| == old(|keys|) && scanCursor == old(scanCursor)
      ensures NoneInFront(keys, old(keys), i) && Removes(old(keys), keys, hash, i)
    {
      hide Searchable, Holds, Distinct, Occupied, PowerOfTwo, NoneInFront, Detour, Nearer;
      ghost var e := EmptySlot(keys);
      NearerCleared(keys, hash, i);
      HoldsAt(keys, handles, expiresAt, Contents, i);
      HoldsClear(keys, handles, expiresAt, Contents, i);
      OccupiedUpdate(keys, i, None);
      DetourStart(keys, hash, i, e);
      Contents := Contents - {keys[i].value};
      keys, handles, expiresAt := keys[i := None], handles[i := NO_HANDLE], expiresAt[i := 0];
      count := count - 1;
      ShiftBack(i, e, old(keys));
      HoldsAt(keys, handles, expiresAt, Contents, i);
      assert forall x :: Some(x) in keys <==> x in Contents;
      assert forall x :: Some(x) in old(keys) <==> x in old(Contents);
    }

    /** One turn of the shifting loop. */
    method ShiftOne(i: nat, gap: nat, curr: nat, ghost e: nat, ghost was: Slots) returns (gap': nat)
      requires Shaped() && Holds(keys, handles, expiresAt, Contents)
      requires Detour(keys, was, hash, i, gap, curr, e) && keys[curr].Some? && Nearer(keys, was, hash)
      modifies this`keys, this`handles, this`expiresAt
      ensures Shaped() && Holds(keys, handles, expiresAt, Contents) && |keys| == old(|keys|)
      ensures Detour(keys, was, hash, i, gap', Next(curr, |keys|), e) && Nearer(keys, was, hash)
    {
      hide Nearer;
      var desired := Home(hash, keys[curr].value, |keys|);
      if MustMove(desired, gap, curr) {
        DetourMove(keys, was, hash, i, gap, curr, e);
        NearerMoved(keys, was, hash, gap, curr);
        MoveBack(gap, curr);
        gap' := curr;
      } else {
        DetourSkip(keys, was, hash, i, gap, curr, e);
        gap' := gap;
      }
    }

    /** The shifting loop, over the slots from behind `i` to the next empty one. */
    method ShiftBack(i: nat, ghost e: nat, ghost was: Slots)
      requires Shaped() && Holds(keys, handles, expiresAt, Contents) && i < |keys|
      requires Detour(keys, was, hash, i, i, Next(i, |keys|), e) && Nearer(keys, was, hash)
      modifies this`keys, this`handles, this`expiresAt
      ensures Shaped() && Holds(keys, handles, expiresAt, Contents) && |keys| == old(|keys|)
      ensures Searchable(keys, hash) && Distinct(keys) && NoneInFront(keys, was, i) && Nearer(keys, was, hash)
    {
      hide Nearer;
      var gap, curr := i, Next(i, |keys|);
      while keys[curr].Some?
        invariant Shaped() && Holds(keys, handles, expiresAt, Contents) && |keys| == old(|keys|)
        invariant Detour(keys, was, hash, i, gap, curr, e) && Nearer(keys, was, hash)
        decreases Steps(i, e, |keys|) - Steps(i, curr, |keys|)
      {
        StepsNext(i, curr, e, |keys|);
        hide Detour, Holds, Steps, Next, Occupied, PowerOfTwo;
        gap := ShiftOne(i, gap, curr, e, was);
        curr := Next(curr, |keys|);
      }
      ShiftEnd(keys, hash, gap, curr);
    }

    method Delete(key: Key) returns (old_: Handle, found: bool)
      requires Valid()
      modifies this
      ensures Valid() && Contents == old(Contents) - {key}
      ensures |keys| == old(|keys|) && scanCursor == old(scanCursor)
      ensures found <==> key in old(Contents)
      ensures old_ == if found then old(Contents)[key].handle else NO_HANDLE
    {
      if count == 0 {
        assert key !in Contents;
        return NO_HANDLE, false;
      }
      hide Searchable, Holds, Distinct, Occupied;
      var i := Probe(keys, hash, key);
      HoldsAt(keys, handles, expiresAt, Contents, i);
      if keys[i].None? { return NO_HANDLE, false; }
      old_, found := handles[i], true;
      DeleteAt(i);
    }

    /** After `scanned` slots of an expiry scan that began at slot `from`. */
    ghost predicate Expiring(now: nat, before: map<Key, Entry>, n: nat, from: nat, scanned: nat,
                             gone: seq<Key>, freed: seq<Handle>)
      reads this
    {
      && Valid() && |keys| == n && from < n && scanCursor == Ahead(from, scanned, n)
      && Drained(before, Contents, gone, freed) && AllExpired(before, gone, now) && |gone| <= scanned
    }

    /** Moves the scan cursor on and deletes the entry it left, if that has expired. */
    method ExpireNext(now: nat, freed: seq<Handle>, ghost before: map<Key, Entry>, ghost from: nat, ghost scanned: nat,
                      ghost gone: seq<Key>)
      returns (freed': seq<Handle>, ghost gone': seq<Key>)
      requires Valid() && Expiring(now, before, |keys|, from, scanned, gone, freed)
      modifies this
      ensures Expiring(now, before, old(|keys|), from, scanned + 1, gone', freed')
      ensures var idx := old(scanCursor);
              gone' == if ExpiredAt(old(keys), old(expiresAt), idx, now) then gone + [old(keys)[idx].value] else gone
      ensures gone' == gone ==> keys == old(keys) && expiresAt == old(expiresAt)
      ensures ExpiredAt(old(keys), old(expiresAt), old(scanCursor), now) ==>
                Removes(old(keys), keys, hash, old(scanCursor))
    {
      hide Searchable, Distinct, PowerOfTwo, Drained, AllExpired, NoneInFront, Next, Ahead, Occupied, Holds, Removes;
      AheadNext(from, scanned, |keys|);
      var idx := scanCursor;
      HoldsAt(keys, handles, expiresAt, Contents, idx);
      scanCursor := Next(scanCursor, |keys|);
      freed', gone' := freed, gone;
      if keys[idx].None? { return; }
      if expiresAt[idx] != 0 && now >= expiresAt[idx] {
        ExpireOne(before, Contents, gone, freed, keys[idx].value, now);
        freed' := freed + [handles[idx]];
        gone' := gone + [keys[idx].value];
        DeleteAt(idx);
      }
    }

    /** Looks at up to `limit` slots from the scan cursor on and deletes what has
        expired there, turn by turn through the tables `tables`.  A deletion can move
        an entry past the cursor; no slot keeps the expired entry it had. */
    method DeleteExpired(now: nat, limit: int) returns (freed: seq<Handle>, ghost gone: seq<Key>, ghost tables: seq<Slots>)
      requires Valid()
      modifies this
      ensures Expiring(now, old(Contents), old(|keys|), old(scanCursor),
                       if old(count) == 0 || limit <= 0 then 0 else limit, gone, freed)
      ensures Windowed(old(keys), old(expiresAt), old(scanCursor), if limit <= 0 then 0 else limit, now, gone)
      ensures Vacated(keys, old(keys), old(expiresAt), old(scanCursor), if limit <= 0 then 0 else limit, now)
      ensures Turns(tables, hash, old(Contents), old(scanCursor), now, gone)
      ensures |tables| == (if old(count) == 0 || limit <= 0 then 0 else limit) + 1
      ensures tables[0] == old(keys) && tables[|tables| - 1] == keys
    {
      hide Windowed, Ahead, ExpiredAt, Drained, AllExpired, Searchable, Distinct, Holds, Occupied, PowerOfTwo, Vacated, Turns;
      if count == 0 || limit <= 0 {
        freed, gone, tables := [], [], [keys];
        DrainNone(Contents, now);
        AheadNext(scanCursor, 0, |keys|);
        WindowStart(keys, expiresAt, scanCursor, now);
        TurnsStart(keys, hash, Contents, scanCursor, now);
        NothingVacated(keys, expiresAt, scanCursor, if limit <= 0 then 0 else limit, now);
        if count == 0 { EmptyWindow(keys, expiresAt, scanCursor, if limit <= 0 then 0 else limit, now); }
        return;
      }
      freed, gone, tables := ScanSlots(now, limit);
    }

    method ScanSlots(now: nat, limit: nat) returns (freed: seq<Handle>, ghost gone: seq<Key>, ghost tables: seq<Slots>)
      requires Valid()
      modifies this
      ensures Scanning(now, old(Contents), old(keys), old(expiresAt), old(scanCursor), limit, gone, freed)
      ensures Turns(tables, hash, old(Contents), old(scanCursor), now, gone) && |tables| == limit + 1
      ensures tables[0] == old(keys) && tables[limit] == keys
    {
      freed, gone, tables := [], [], [keys];
      DrainNone(Contents, now);
      AheadNext(scanCursor, 0, |keys|);
      WindowStart(keys, expiresAt, scanCursor, now);
      NearerCleared(keys, hash, scanCursor);
      TurnsStart(keys, hash, Contents, scanCursor, now);
      NothingVacated(keys, expiresAt, scanCursor, 0, now);
      HoldsDates(keys, handles, expiresAt, Contents);
      hide Windowed, Ahead, ExpiredAt, Drained, AllExpired, Searchable, Distinct, Holds, Occupied, PowerOfTwo, Nearer, Vacated,
        Turns, Dated;
      var scanned := 0;
      while scanned < limit
        invariant scanned <= limit
        invariant Scanning(now, old(Contents), old(keys), old(expiresAt), old(scanCursor), scanned, gone, freed)
        invariant Turns(tables, hash, old(Contents), old(scanCursor), now, gone) && |tables| == scanned + 1
        invariant tables[0] == old(keys) && tables[scanned] == keys
      {
        hide Scanning;
        freed, gone, tables :=
          ScanOne(now, freed, old(Contents), old(keys), old(expiresAt), old(scanCursor), scanned, gone, tables);
        scanned := scanned + 1;
      }
    }

    /** The same, with what the scan says of the slots `was` it went over. */
    ghost predicate Scanning(now: nat, before: map<Key, Entry>, was: Slots, expiry: seq<nat>, from: nat, scanned: nat,
                             gone: seq<Key>, freed: seq<Handle>)
      reads this
    {
      && Expiring(now, before, |was|, from, scanned, gone, freed) && |was| == |expiry| && Dated(was, expiry, before)
      && Windowed(was, expiry, from, scanned, now, gone)
      && (gone == [] ==> keys == was && expiresAt == expiry)
      && Nearer(keys, was, hash) && Vacated(keys, was, expiry, from, scanned, now)
    }

    method ScanOne(now: nat, freed: seq<Handle>, ghost before: map<Key, Entry>, ghost was: Slots, ghost expiry: seq<nat>,
                   ghost from: nat, ghost scanned: nat, ghost gone: seq<Key>, ghost tables: seq<Slots>)
      returns (freed': seq<Handle>, ghost gone': seq<Key>, ghost tables': seq<Slots>)
      requires Scanning(now, before, was, expiry, from, scanned, gone, freed)
      requires Turns(tables, hash, before, from, now, gone) && |tables| == scanned + 1
      requires tables[0] == was && tables[scanned] == keys
      modifies this
      ensures Scanning(now, before, was, expiry, from, scanned + 1, gone', freed')
      ensures Turns(tables', hash, before, from, now, gone') && tables' == tables + [keys]
    {
      hide Windowed, Ahead, ExpiredAt, Drained, AllExpired, Searchable, Distinct, Holds, Occupied, PowerOfTwo, Nearer, Vacated,
        Turns, Dated, Due, Removes;
      ghost var mid, idx := keys, scanCursor;
      SameDate(was, expiry, before, keys, handles, expiresAt, Contents, gone, freed, idx, now);
      NearerCleared(keys, hash, idx);
      freed', gone' := ExpireNext(now, freed, before, from, scanned, gone);
      RemovesParts(mid, keys, hash, idx);
      tables' := tables + [keys];
      TurnsStep(tables, keys, hash, before, from, now, gone, gone');
      WindowStep(was, expiry, from, scanned, now, gone, gone');
      assert ExpiredAt(was, expiry, idx, now) ==> keys[idx] != was[idx] by { Left(keys, mid, was, expiry, hash, idx, now); }
      VacatedStep(keys, mid, was, expiry, hash, from, scanned, now);
      NearerTwice(keys, mid, was, hash);
    }

    /** Deletes exactly the keys with the prefix and returns each one's handle
        once, although every deletion moves other entries. */
    method DeletePrefix(prefix: Key) returns (freed: seq<Handle>, deleted: seq<Key>)
      requires Valid()
      modifies this
      ensures Valid() && Drained(old(Contents), Contents, deleted, freed)
      ensures forall k :: k in deleted <==> k in old(Contents) && prefix <= k
      ensures |keys| == old(|keys|) && scanCursor == old(scanCursor)
    {
      freed, deleted := [], [];
      DrainNone(Contents, 0);
      if count == 0 { return; }
      hide Searchable, Holds, Distinct, Occupied, PowerOfTwo, Drained;
      var idx := 0;
      while idx < |keys|
        invariant 0 <= idx <= |keys| && Valid() && |keys| == old(|keys|) && scanCursor == old(scanCursor)
        invariant Drained(old(Contents), Contents, deleted, freed)
        invariant forall k :: k in deleted ==> HasPrefix(k, prefix)
        invariant NoPrefixBefore(keys, prefix, idx)
        decreases count, |keys| - idx
      {
        if keys[idx].Some? && HasPrefix(keys[idx].value, prefix) {
          HoldsAt(keys, handles, expiresAt, Contents, idx);
          DrainOne(old(Contents), Contents, deleted, freed, keys[idx].value);
          freed := freed + [handles[idx]];
          deleted := deleted + [keys[idx].value];
          DeleteAt(idx);
        } else {
          idx := idx + 1;
        }
      }
      DrainEnd(old(Contents), Contents, deleted, freed, keys, handles, expiresAt, prefix);
    }
  }
}
