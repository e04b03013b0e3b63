/** The index that the persistence layer fills and snapshots: open addressing
    over buckets that remember their key's hash and length. */
module HashIndexes {
  import opened Bytes
  import opened Probing
  import opened ShardIndexes
  import opened Powers
  import Recovery
  import Checkpoint

  type Index = Recovery.Index

  datatype Bucket = Bucket(hash: U64, keyLen: U16, handle: Handle, expiresAt: U32)

  const NO_BUCKET := Bucket(0, 0, NO_HANDLE, 0)

  type Hash = h: Key -> nat | forall k :: h(k) < TWO64 witness (k => 0)

  // ----- Buckets as entries -----

  function HandlesOf(bs: seq<Bucket>): (hs: seq<Handle>)
    ensures |hs| == |bs| && forall i :: 0 <= i < |bs| ==> hs[i] == bs[i].handle
  {
    seq(|bs|, i requires 0 <= i < |bs| => bs[i].handle)
  }

  function ExpiryOf(bs: seq<Bucket>): (es: seq<nat>)
    ensures |es| == |bs| && forall i :: 0 <= i < |bs| ==> es[i] == bs[i].expiresAt
  {
    seq(|bs|, i requires 0 <= i < |bs| => bs[i].expiresAt)
  }

  /** Each used bucket remembers its key's hash and length. */
  predicate Tagged(keys: Slots, bs: seq<Bucket>, hash: Hash) {
    && |keys| == |bs|
    && forall i :: 0 <= i < |keys| && keys[i].Some? ==>
         bs[i].hash == hash(keys[i].value) && bs[i].keyLen == |keys[i].value| % TWO16
  }

  /** The table holds exactly the entries of `m`. */
  predicate Stores(keys: Slots, bs: seq<Bucket>, hash: Hash, m: Index) {
    Tagged(keys, bs, hash) && Holds(keys, HandlesOf(bs), ExpiryOf(bs), m)
  }

  lemma Updated(bs: seq<Bucket>, i: nat, b: Bucket)
    requires i < |bs|
    ensures HandlesOf(bs[i := b]) == HandlesOf(bs)[i := b.handle]
    ensures ExpiryOf(bs[i := b]) == ExpiryOf(bs)[i := b.expiresAt]
  {
  }

  function MakeBucket(hash: Hash, key: Key, h: Handle, expires: U32): Bucket {
    Bucket(hash(key), |key| % TWO16, h, expires)
  }

  /** Whether slot `i` is used by `key`: by hash, by length, then by bytes. */
  predicate Same(keys: Slots, bs: seq<Bucket>, hash: Hash, i: nat, key: Key)
    requires i < |keys| == |bs| && keys[i].Some?
  {
    bs[i].hash == hash(key) && bs[i].keyLen == |key| % TWO16 && keys[i].value == key
  }

  /** A probe for `key` ends in slot `i`. */
  predicate Stops(keys: Slots, key: Key, i: nat) {
    i < |keys| && (keys[i].None? || keys[i].value == key)
  }

  /** A probe ends somewhere exactly when a slot is empty or the key is there: in a
      full table the search for an absent key goes round for ever. */
  lemma ProbeEndsExactly(keys: Slots, hash: Hash, key: Key)
    requires keys != []
    ensures (exists t: nat :: Stops(keys, key, Ahead(Home(hash, key, |keys|), t, |keys|)))
            <==> Occupied(keys) < |keys| || Some(key) in keys
  {
    hide Occupied, Ahead, Home;
    var n, home := |keys|, Home(hash, key, |keys|);
    if Occupied(keys) < n || Some(key) in keys {
      var i := if Some(key) in keys then SlotOf(keys, key) else EmptySlotOf(keys);
      AheadReaches(home, i, n);
      assert Stops(keys, key, Ahead(home, Steps(home, i, n), n));
    } else {
      forall t: nat
        ensures !Stops(keys, key, Ahead(home, t, n))
      {
        FullTable(keys, Ahead(home, t, n));
        assert keys[Ahead(home, t, n)] in keys;
      }
    }
  }

  ghost function SlotOf(keys: Slots, key: Key): (i: nat)
    requires Some(key) in keys
    ensures i < |keys| && keys[i] == Some(key)
  {
    var i :| 0 <= i < |keys| && keys[i] == Some(key);
    i
  }

  ghost function EmptySlotOf(keys: Slots): (i: nat)
    requires Occupied(keys) < |keys|
    ensures i < |keys| && keys[i].None?
  {
    assert exists i :: 0 <= i < |keys| && keys[i].None? by { var e := EmptySlot(keys); }
    var i :| 0 <= i < |keys| && keys[i].None?;
    i
  }

  /** The probe loop: the slot of `key`, or the empty slot where it belongs. */
  method ProbeBuckets(keys: Slots, bs: seq<Bucket>, hash: Hash, key: Key) returns (i: nat)
    requires Occupied(keys) < |keys| || Some(key) in keys
    requires Searchable(keys, hash) && Distinct(keys) && Tagged(keys, bs, hash)
    ensures i < |keys|
    ensures Some(key) in keys ==> keys[i] == Some(key)
    ensures Some(key) !in keys ==>
              keys[i].None? && Searchable(keys[i := Some(key)], hash) && Distinct(keys[i := Some(key)])
  {
    hide Occupied;
    var n := |keys|;
    i := Home(hash, key, n);
    ghost var e := if Some(key) in keys then SlotOf(keys, key) else EmptySlotOf(keys);
    while keys[i].Some? && !Same(keys, bs, hash, i, key)
      invariant i < n && OnPath(Home(hash, key, n), i, e, n)
      invariant forall m :: 0 <= m < n && m != i && OnPath(Home(hash, key, n), m, i, n) ==>
                  keys[m].Some? && keys[m].value != key
      decreases Steps(i, e, n)
    {
      i := Next(i, n);
    }
    if keys[i].None? {
      AbsentAt(keys, hash, key, i);
      InsertKeeps(keys, hash, key, i);
    }
  }

  /** The bytes of a slice that may be nil. */
  function Content(key: Option<Key>): Key {
    if key.None? then [] else key.value
  }

  /** Storing over an entry keeps the caller's slice, and a nil slice marks the
      slot empty: it goes well exactly when it is not nil. */
  lemma NilKeyExact(keys: Slots, bs: seq<Bucket>, hash: Hash, m: Index, i: nat, key: Option<Key>, h: Handle, expires: U32)
    requires i < |keys| && Stores(keys, bs, hash, m) && Distinct(keys) && Searchable(keys, hash)
    requires keys[i] == Some(Content(key))
    ensures var b := MakeBucket(hash, Content(key), h, expires);
            Stores(keys[i := key], bs[i := b], hash, m[Content(key) := Entry(h, expires)]) <==> key.Some?
  {
    hide Searchable, Occupied, HandlesOf, ExpiryOf;
    if key.Some? {
      assert keys[i := Some(Content(key))] == keys;
      StoreBucket(keys, bs, hash, m, i, Content(key), h, expires);
    } else {
      assert forall j :: 0 <= j < |keys| && j != i ==> keys[j] != Some([]);
      assert Some([]) !in keys[i := None];
    }
  }

  /** Storing under `key` where a probe ended. */
  lemma StoreBucket(keys: Slots, bs: seq<Bucket>, hash: Hash, m: Index, i: nat, key: Key, h: Handle, expires: U32)
    requires i < |keys| && Stores(keys, bs, hash, m) && Distinct(keys) && Searchable(keys, hash)
    requires if Some(key) in keys then keys[i] == Some(key)
             else keys[i].None? && Searchable(keys[i := Some(key)], hash) && Distinct(keys[i := Some(key)])
    ensures keys[i].Some? <==> key in m
    ensures var keys', bs' := keys[i := Some(key)], bs[i := MakeBucket(hash, key, h, expires)];
            && Searchable(keys', hash) && Distinct(keys')
            && Stores(keys', bs', hash, m[key := Entry(h, expires)])
            && Occupied(keys') == Occupied(keys) + (if key in m then 0 else 1)
  {
    hide Searchable, Distinct, Holds, Occupied, HandlesOf, ExpiryOf;
    StoreKeeps(keys, HandlesOf(bs), ExpiryOf(bs), m, hash, i, key, Entry(h, expires));
    Updated(bs, i, MakeBucket(hash, key, h, expires));
  }

  lemma ClearBucket(keys: Slots, bs: seq<Bucket>, hash: Hash, m: Index, i: nat)
    requires i < |keys| && Stores(keys, bs, hash, m) && Distinct(keys) && keys[i].Some?
    ensures Stores(keys[i := None], bs[i := NO_BUCKET], hash, m - {keys[i].value}) && keys[i].value in m
  {
    hide Distinct, Holds, HandlesOf, ExpiryOf;
    HoldsAt(keys, HandlesOf(bs), ExpiryOf(bs), m, i);
    HoldsClear(keys, HandlesOf(bs), ExpiryOf(bs), m, i);
    Updated(bs, i, NO_BUCKET);
  }

  lemma MoveBucket(keys: Slots, bs: seq<Bucket>, hash: Hash, m: Index, gap: nat, curr: nat)
    requires gap < |keys| && curr < |keys| && gap != curr && keys[gap].None? && keys[curr].Some?
    requires Stores(keys, bs, hash, m) && Distinct(keys)
    ensures Stores(Moved(keys, gap, curr), bs[gap := bs[curr]][curr := NO_BUCKET], hash, m)
  {
    hide Distinct, Holds, HandlesOf, ExpiryOf;
    HoldsMove(keys, HandlesOf(bs), ExpiryOf(bs), m, gap, curr);
    Updated(bs, gap, bs[curr]);
    Updated(bs[gap := bs[curr]], curr, NO_BUCKET);
  }

  lemma AtSlot(keys: Slots, bs: seq<Bucket>, hash: Hash, m: Index, i: nat)
    requires i < |keys| && Stores(keys, bs, hash, m)
    ensures |bs| == |keys| && Tagged(keys, bs, hash)
    ensures keys[i].Some? ==> keys[i].value in m && m[keys[i].value] == Entry(bs[i].handle, bs[i].expiresAt)
    ensures forall k :: k in m <==> Some(k) in keys
  {
    hide Holds;
    HoldsAt(keys, HandlesOf(bs), ExpiryOf(bs), m, i);
  }

  class HashIndex {
    const hash: Hash
    var keys: Slots
    var buckets: seq<Bucket>
    var count: nat
    var mask: nat
    ghost var Contents: Index

    ghost predicate Shaped()
      reads this
    {
      && |keys| == |buckets| == mask + 1 && PowerOfTwo(|keys|)
      && count == Occupied(keys) == |Contents| && Stores(keys, buckets, hash, Contents)
    }

    ghost predicate Valid()
      reads this
    {
      Shaped() && Searchable(keys, hash) && Distinct(keys)
    }

    /** A search for `key` ends. */
    ghost predicate Ends(key: Key)
      reads this
    {
      count < |keys| || key in Contents
    }

    /** An empty table; the number of slots is rounded up to a power of two. */
    constructor (hash: Hash, initialBuckets: nat)
      requires initialBuckets <= TOP
      ensures Valid() && Contents == map[] && this.hash == hash
      ensures initialBuckets <= |keys| && if initialBuckets == 0 then |keys| == 1 else |keys| < 2 * initialBuckets
    {
      var capacity := NextPowerOfTwo(initialBuckets);
      NextPowerIsNext(initialBuckets);
      hide NextPowerOfTwo, PowerOfTwo;
      PowerPositive(capacity);
      this.hash := hash;
      keys, buckets := seq(capacity, _ => None), seq(capacity, _ => NO_BUCKET);
      count, mask, Contents := 0, capacity - 1, map[];
      new;
      FreshTable(keys, HandlesOf(buckets), ExpiryOf(buckets), hash);
    }

    /** Adds or replaces; grows first when three quarters of the slots are used. */
    method Put(key: Option<Key>, h: Handle, expires: U32) returns (replaced: bool)
      requires Valid() && (key.None? ==> [] !in Contents)
      modifies this
      ensures Valid() && Contents == old(Contents)[Content(key) := Entry(h, expires)]
      ensures replaced <==> Content(key) in old(Contents)
      ensures |keys| == if old(count * 4 >= |keys| * 3) then 2 * old(|keys|) else old(|keys|)
      decreases if count * 4 >= |keys| * 3 then 2 else 0
    {
      if count * 4 >= |keys| * 3 { Grow(); }
      hide Searchable, Stores, Distinct, Occupied, PowerOfTwo;
      replaced := Store(key, h, expires);
    }

    method Store(key: Option<Key>, h: Handle, expires: U32) returns (replaced: bool)
      requires Valid() && (key.None? ==> [] !in Contents) && count < |keys|
      modifies this
      ensures Valid() && Contents == old(Contents)[Content(key) := Entry(h, expires)]
      ensures (replaced <==> Content(key) in old(Contents)) && |keys| == old(|keys|)
    {
      hide Searchable, Stores, Distinct, Occupied, PowerOfTwo;
      var k := Content(key);
      var i := ProbeFor(k);
      StoreBucket(keys, buckets, hash, Contents, i, k, h, expires);
      replaced := keys[i].Some?;
      buckets := buckets[i := MakeBucket(hash, k, h, expires)];
      keys := keys[i := if replaced then key else Some(k)];
      Contents := Contents[k := Entry(h, expires)];
      if !replaced { count := count + 1; }
    }

    method ProbeFor(key: Key) returns (i: nat)
      requires Valid() && Ends(key)
      ensures i < |keys|
      ensures Some(key) in keys ==> keys[i] == Some(key)
      ensures Some(key) !in keys ==>
                keys[i].None? && Searchable(keys[i := Some(key)], hash) && Distinct(keys[i := Some(key)])
    {
      hide Searchable, Distinct, Occupied, Holds, PowerOfTwo;
      Listed(keys, buckets, hash, Contents, key);
      i := ProbeBuckets(keys, buckets, hash, key);
    }

    /** Adds without growing; leaves a key alone that is there already. */
    method Add(key: Key, h: Handle, expires: U32) returns (added: bool)
      requires Valid() && Ends(key)
      modifies this
      ensures Valid() && |keys| == old(|keys|) && (added <==> key !in old(Contents))
      ensures Contents == if added then old(Contents)[key := Entry(h, expires)] else old(Contents)
    {
      hide Searchable, Stores, Distinct, Occupied, PowerOfTwo;
      var i := ProbeFor(key);
      StoreBucket(keys, buckets, hash, Contents, i, key, h, expires);
      if keys[i].Some? { return false; }
      keys, buckets := keys[i := Some(key)], buckets[i := MakeBucket(hash, key, h, expires)];
      Contents := Contents[key := Entry(h, expires)];
      count := count + 1;
      return true;
    }

    /** Empty slots, `capacity` of them. */
    method Clear(capacity: nat)
      requires PowerOfTwo(capacity) && capacity >= 1
      modifies this
      ensures Valid() && Contents == map[] && |keys| == capacity && count == 0
    {
      keys, buckets := seq(capacity, _ => None), seq(capacity, _ => NO_BUCKET);
      count, mask, Contents := 0, capacity - 1, map[];
      FreshTable(keys, HandlesOf(buckets), ExpiryOf(buckets), hash);
    }

    /** Re-inserts every entry into twice the room; no insertion grows again. */
    method Grow()
      requires Valid() && count * 4 >= |keys| * 3
      modifies this
      ensures Valid() && Contents == old(Contents) && |keys| == 2 * old(|keys|)
      decreases 1
    {
      hide Searchable, Occupied, Stores, Restrict, PowerOfTwo, Distinct;
      var oldKeys, oldBuckets := keys, buckets;
      ghost var was := Contents;
      DoublePower(|oldKeys|);
      Clear(2 * |oldKeys|);
      RestrictNone(was);
      for i := 0 to |oldKeys|
        invariant Valid() && |keys| == 2 * |oldKeys|
        invariant Contents == Restrict(was, oldKeys[..i])
      {
        Reinsert(oldKeys, oldBuckets, i, was);
      }
      ReinsertEnd(oldKeys, oldBuckets, hash, was);
    }

    method Reinsert(oldKeys: Slots, oldBuckets: seq<Bucket>, i: nat, ghost was: Index)
      requires Valid() && i < |oldKeys| && |keys| == 2 * |oldKeys|
      requires Stores(oldKeys, oldBuckets, hash, was) && Distinct(oldKeys)
      requires Contents == Restrict(was, oldKeys[..i])
      modifies this
      ensures Valid() && |keys| == old(|keys|) && Contents == Restrict(was, oldKeys[..i + 1])
      decreases 1, 0
    {
      hide Searchable, Occupied, Stores, Restrict, PowerOfTwo, Distinct;
      ReinsertStep(oldKeys, oldBuckets, hash, was, i);
      if oldKeys[i].Some? {
        var _ := Put(oldKeys[i], oldBuckets[i].handle, oldBuckets[i].expiresAt);
      }
    }

    /** The handle of a key that is present and not expired. */
    method Get(key: Key, now: nat) returns (h: Handle, ok: bool)
      requires Valid() && Ends(key)
      ensures ok <==> key in Contents && Contents[key].Live(now)
      ensures h == if ok then Contents[key].handle else NO_HANDLE
    {
      hide Searchable, Stores, Distinct, Occupied, PowerOfTwo;
      var i := ProbeFor(key);
      AtSlot(keys, buckets, hash, Contents, i);
      if keys[i].None? { return NO_HANDLE, false; }
      if buckets[i].expiresAt != 0 && now >= buckets[i].expiresAt { return NO_HANDLE, false; }
      return buckets[i].handle, true;
    }

    method Delete(key: Key) returns (h: Handle, found: bool)
      requires Valid() && Ends(key)
      modifies this
      ensures Valid() && Contents == old(Contents) - {key} && |keys| == old(|keys|)
      ensures found <==> key in old(Contents)
      ensures h == if found then old(Contents)[key].handle else NO_HANDLE
    {
      hide Searchable, Stores, Distinct, Occupied, PowerOfTwo;
      var i := ProbeFor(key);
      AtSlot(keys, buckets, hash, Contents, i);
      if keys[i].None? { return NO_HANDLE, false; }
      h, found := buckets[i].handle, true;
      DeleteAt(i);
    }

    /** Removes the entry in slot `i` and shifts later entries back. */
    method DeleteAt(i: nat)
      requires Valid() && i < |keys| && keys[i].Some?
      modifies this
      ensures Valid() && Contents == old(Contents) - {old(keys[i].value)} && |keys| == old(|keys|)
    {
      hide Searchable, Stores, Distinct, Occupied, PowerOfTwo, Closing;
      ClearBucket(keys, buckets, hash, Contents, i);
      OccupiedUpdate(keys, i, None);
      ClosingStart(keys, hash, i);
      Contents := Contents - {keys[i].value};
      keys, buckets := keys[i := None], buckets[i := NO_BUCKET];
      count := count - 1;
      ShiftBack(i);
    }

    /** The shifting loop.  In a full table it can go round more than once; every
        move brings keys closer to home. */
    method ShiftBack(i: nat)
      requires Shaped() && i < |keys| && Closing(keys, hash, i, Next(i, |keys|))
      modifies this`keys, this`buckets
      ensures Shaped() && |keys| == old(|keys|) && Searchable(keys, hash) && Distinct(keys)
    {
      hide Closing, Stores, Steps, Next, Occupied, PowerOfTwo, Displaced;
      var gap: nat, curr: nat := i, Next(i, |keys|);
      while keys[curr].Some?
        invariant Shaped() && |keys| == old(|keys|) && gap < |keys| && curr < |keys| && Closing(keys, hash, gap, curr)
        decreases Displaced(keys, hash, |keys|), Steps(curr, gap, |keys|)
      {
        gap := ShiftOne(gap, curr);
        curr := Next(curr, |keys|);
      }
      ClosingEnd(keys, hash, gap, curr);
    }

    /** One turn of the shifting loop; the home slot comes from the remembered hash. */
    method ShiftOne(gap: nat, curr: nat) returns (gap': nat)
      requires Shaped() && gap < |keys| && curr < |keys| && Closing(keys, hash, gap, curr) && keys[curr].Some?
      modifies this`keys, this`buckets
      ensures Shaped() && |keys| == old(|keys|) && gap' < |keys| && Closing(keys, hash, gap', Next(curr, |keys|))
      ensures || Displaced(keys, hash, |keys|) < old(Displaced(keys, hash, |keys|))
              || (&& keys == old(keys) && gap' == gap
                  && Steps(Next(curr, |keys|), gap, |keys|) < Steps(curr, gap, |keys|))
    {
      hide Stores, Occupied, PowerOfTwo, Closing, Distinct, Displaced, Moved, Steps, Next;
      AtSlot(keys, buckets, hash, Contents, curr);
      var desired := buckets[curr].hash % |keys|;
      if MustMove(desired, gap, curr) {
        ClosingMove(keys, hash, gap, curr);
        MoveBucket(keys, buckets, hash, Contents, gap, curr);
        MoveCounts(keys, gap, curr);
        keys, buckets := Moved(keys, gap, curr), buckets[gap := buckets[curr]][curr := NO_BUCKET];
        gap' := curr;
      } else {
        ClosingSkip(keys, hash, gap, curr);
        gap' := gap;
      }
    }

    /** Lists every entry once, by slot. */
    method Snapshot() returns (snap: seq<Checkpoint.SnapEntry>)
      requires Valid()
      ensures Recovery.IsSnapshot(snap, Contents) && |snap| <= |keys|
      ensures forall i :: 0 <= i < |snap| ==> snap[i].hash == hash(snap[i].key)
    {
      hide Searchable, Stores, Occupied, PowerOfTwo;
      snap := [];
      for i := 0 to |keys|
        invariant Listing(snap, keys, Contents, i)
        invariant forall j :: 0 <= j < |snap| ==> snap[j].hash == hash(snap[j].key)
      {
        AtSlot(keys, buckets, hash, Contents, i);
        if keys[i].Some? {
          var b := buckets[i];
          ListingStep(snap, keys, Contents, i, b);
          snap := snap + [Checkpoint.SnapEntry(b.hash, keys[i].value, b.handle, b.expiresAt)];
        }
      }
      AtSlot(keys, buckets, hash, Contents, 0);
      ListingEnd(snap, keys, Contents);
    }
  }

  lemma PowerPositive(p: nat)
    requires PowerOfTwo(p)
    ensures p >= 1
  {
  }

  lemma Listed(keys: Slots, bs: seq<Bucket>, hash: Hash, m: Index, key: Key)
    requires Stores(keys, bs, hash, m)
    ensures key in m ==> Some(key) in keys
    ensures Tagged(keys, bs, hash)
  {
  }

  lemma ReinsertStep(keys: Slots, bs: seq<Bucket>, hash: Hash, m: Index, i: nat)
    requires i < |keys| && Stores(keys, bs, hash, m) && Distinct(keys)
    ensures Restrict(m, keys[..i + 1])
         == if keys[i].Some? then Restrict(m, keys[..i])[keys[i].value := Entry(bs[i].handle, bs[i].expiresAt)]
            else Restrict(m, keys[..i])
    ensures |Restrict(m, keys[..i])| <= i && |bs| == |keys|
    ensures keys[i].Some? ==> keys[i].value in m
  {
    hide Holds, Restrict;
    AtSlot(keys, bs, hash, m, i);
    RestrictStep(keys, HandlesOf(bs), ExpiryOf(bs), m, i);
  }

  lemma ReinsertEnd(keys: Slots, bs: seq<Bucket>, hash: Hash, m: Index)
    requires Stores(keys, bs, hash, m)
    ensures Restrict(m, keys[..|keys|]) == m
  {
    hide Holds;
    RestrictAll(keys, HandlesOf(bs), ExpiryOf(bs), m);
  }

  /** `snap` lists the entries of the first `n` slots. */
  ghost predicate Listing(snap: seq<Checkpoint.SnapEntry>, keys: Slots, m: Index, n: nat) {
    && n <= |keys| && |snap| <= n
    && (forall i, j :: 0 <= i < j < |snap| ==> snap[i].key != snap[j].key)
    && (forall i :: 0 <= i < |snap| ==> Some(snap[i].key) in keys[..n])
    && (forall i :: 0 <= i < |snap| ==> snap[i].key in m && m[snap[i].key] == Entry(snap[i].handle, snap[i].expiresAt))
    && (forall k :: Some(k) in keys[..n] ==> Recovery.HasKey(snap, k))
  }

  lemma ListingStep(snap: seq<Checkpoint.SnapEntry>, keys: Slots, m: Index, i: nat, b: Bucket)
    requires i < |keys| && Listing(snap, keys, m, i) && Distinct(keys) && keys[i].Some?
    requires keys[i].value in m && m[keys[i].value] == Entry(b.handle, b.expiresAt)
    ensures Listing(snap + [Checkpoint.SnapEntry(b.hash, keys[i].value, b.handle, b.expiresAt)], keys, m, i + 1)
  {
    var e := Checkpoint.SnapEntry(b.hash, keys[i].value, b.handle, b.expiresAt);
    var snap' := snap + [e];
    assert keys[..i + 1] == keys[..i] + [keys[i]];
    assert keys[i] !in keys[..i];
    forall k | Some(k) in keys[..i + 1]
      ensures Recovery.HasKey(snap', k)
    {
      assert snap'[..|snap'| - 1] == snap;
      Recovery.HasKeyLast(snap', k);
    }
  }

  lemma ListingEnd(snap: seq<Checkpoint.SnapEntry>, keys: Slots, m: Index)
    requires Listing(snap, keys, m, |keys|) && forall k :: k in m <==> Some(k) in keys
    ensures Recovery.IsSnapshot(snap, m) && |snap| <= |keys|
  {
    assert keys[..|keys|] == keys;
  }
}
