/** Listing keys by cursor, within one index and across a shard set, and whole
    runs of index operations against a plain map. */
module ShardScan {
  import opened Bytes
  import opened Probing
  import opened ShardIndexes

  // ----- Runs -----

  datatype Op = Put(key: Key, handle: Handle, expiresAt: nat) | Get(key: Key, now: nat) | Delete(key: Key)


  function MapStep(m: map<Key, Entry>, op: Op): (map<Key, Entry>, Option<Handle>) {
    match op
    case Put(k, h, e) => (m[k := Entry(h, e)], if k in m then Some(m[k].handle) else None)
    case Get(k, now) => (m, if k in m && m[k].Live(now) then Some(m[k].handle) else None)
    case Delete(k) => (m - {k}, if k in m then Some(m[k].handle) else None)
  }

  function MapRun(m: map<Key, Entry>, ops: seq<Op>): (map<Key, Entry>, seq<Option<Handle>>)
    decreases |ops|
  {
    if ops == [] then (m, [])
    else
      var (before, answers) := MapRun(m, ops[..|ops| - 1]);
      var (after, answer) := MapStep(before, ops[|ops| - 1]);
      (after, answers + [answer])
  }

  /** Over every run of operations the index answers as the map does. */
  method Run(index: ShardIndex, ops: seq<Op>) returns (answers: seq<Option<Handle>>)
    requires index.Valid()
    modifies index
    ensures index.Valid() && (index.Contents, answers) == MapRun(old(index.Contents), ops)
  {
    answers := [];
    for i := 0 to |ops|
      invariant index.Valid() && (index.Contents, answers) == MapRun(old(index.Contents), ops[..i])
    {
      assert ops[..i + 1][..i] == ops[..i];
      var answer := Perform(index, ops[i]);
      answers := answers + [answer];
    }
    assert ops[..|ops|] == ops;
  }

  method Perform(index: ShardIndex, op: Op) returns (answer: Option<Handle>)
    requires index.Valid()
    modifies index
    ensures index.Valid() && (index.Contents, answer) == MapStep(old(index.Contents), op)
  {
    match op
    case Put(k, h, e) =>
      var old_, replaced := index.Put(k, h, e);
      answer := if replaced then Some(old_) else None;
    case Get(k, now) =>
      var h, ok, _ := index.Get(k, now);
      answer := if ok then Some(h) else None;
    case Delete(k) =>
      var old_, found := index.Delete(k);
      answer := if found then Some(old_) else None;
  }

  // ----- Scanning one index -----

  /** What a scan sees of an index. */
  datatype View = View(keys: Slots, expiresAt: seq<nat>)

  predicate Listed(v: View, prefix: Key, now: nat, i: nat)
    requires i < |v.keys| == |v.expiresAt|
  {
    v.keys[i].Some? && (v.expiresAt[i] == 0 || now < v.expiresAt[i]) && HasPrefix(v.keys[i].value, prefix)
  }

  /** The matching keys of the slots from `from` up to `upto`, in slot order. */
  function Between(v: View, prefix: Key, now: nat, from: nat, upto: nat): (ks: seq<Key>)
    requires from <= upto <= |v.keys| == |v.expiresAt|
    decreases upto
  {
    if from == upto then []
    else Between(v, prefix, now, from, upto - 1) + if Listed(v, prefix, now, upto - 1) then [v.keys[upto - 1].value] else []
  }

  function ViewOf(index: ShardIndex): View
    reads index
  {
    View(index.keys, index.expiresAt)
  }

  lemma {:induction false} BetweenEmpty(v: View, prefix: Key, now: nat, from: nat, upto: nat)
    requires from <= upto <= |v.keys| == |v.expiresAt|
    requires forall i :: from <= i < upto ==> v.keys[i].None?
    ensures Between(v, prefix, now, from, upto) == []
    decreases upto
  {
    if from < upto { BetweenEmpty(v, prefix, now, from, upto - 1); }
  }

  lemma {:induction false} BetweenSplit(v: View, prefix: Key, now: nat, from: nat, mid: nat, upto: nat)
    requires from <= mid <= upto <= |v.keys| == |v.expiresAt|
    ensures Between(v, prefix, now, from, upto) == Between(v, prefix, now, from, mid) + Between(v, prefix, now, mid, upto)
    decreases upto
  {
    if mid < upto { BetweenSplit(v, prefix, now, from, mid, upto - 1); }
  }

  lemma NothingListed(index: ShardIndex, prefix: Key, now: nat, cursor: nat)
    requires index.Valid() && index.count == 0 && cursor < |index.keys|
    ensures Between(ViewOf(index), prefix, now, cursor, |index.keys|) == []
  {
    forall i | 0 <= i < |index.keys|
      ensures index.keys[i].None?
    {
      OccupiedZero(index.keys, i);
    }
    BetweenEmpty(ViewOf(index), prefix, now, cursor, |index.keys|);
  }

  /** Where a scan stopped: at its cursor, or at the end for cursor 0. */
  function Stop(next: nat, n: nat): nat {
    if next == 0 then n else next
  }

  /** One page: from `cursor`, up to `limit` matching keys.  A non-zero cursor
      comes back only with a full page, and points just behind its last key. */
  method ScanPrefix(index: ShardIndex, prefix: Key, cursor: nat, limit: int, now: nat) returns (results: seq<Key>, next: nat)
    requires index.Valid()
    ensures limit <= 0 || cursor >= |index.keys| ==> results == [] && next == 0
    ensures limit > 0 && cursor < |index.keys| ==>
              && cursor < Stop(next, |index.keys|) <= |index.keys| && next < |index.keys|
              && results == Between(ViewOf(index), prefix, now, cursor, Stop(next, |index.keys|))
              && |results| <= limit
              && (next != 0 ==> |results| == limit && Listed(ViewOf(index), prefix, now, next - 1))
  {
    hide Searchable, Holds, Distinct, Occupied, PowerOfTwo;
    if cursor < |index.keys| && index.count == 0 { NothingListed(index, prefix, now, cursor); }
    if index.count == 0 || limit <= 0 { return [], 0; }
    var cap := |index.keys|;
    if cursor >= cap { return [], 0; }
    results := [];
    var idx := cursor;
    while idx < cap
      invariant cursor <= idx <= cap
      invariant results == Between(ViewOf(index), prefix, now, cursor, idx) && |results| < limit
    {
      if index.keys[idx].Some? && (index.expiresAt[idx] == 0 || now < index.expiresAt[idx])
         && HasPrefix(index.keys[idx].value, prefix) {
        results := results + [index.keys[idx].value];
        if |results| >= limit {
          next := idx + 1;
          if next >= cap { next := 0; }
          return;
        }
      }
      idx := idx + 1;
    }
    next := 0;
  }

  // ----- Scanning a shard set -----

  /** Shards a cursor can name: its upper 16 bits hold the shard. */
  const CURSOR_SHARDS := TWO64 / TWO48

  function Visible(n: nat): nat {
    if n <= CURSOR_SHARDS then n else CURSOR_SHARDS
  }

  predicate Regular(vs: seq<View>) {
    forall j :: 0 <= j < |vs| ==> 0 < |vs[j].keys| == |vs[j].expiresAt| <= TWO48
  }

  /** All matching keys of the first `j` shards. */
  function Upto(vs: seq<View>, prefix: Key, now: nat, j: nat): seq<Key>
    requires j <= |vs| && Regular(vs)
  {
    if j == 0 then [] else Upto(vs, prefix, now, j - 1) + Between(vs[j - 1], prefix, now, 0, |vs[j - 1].keys|)
  }

  /** `all` lists what lies before the cursor. */
  predicate ListedBefore(vs: seq<View>, prefix: Key, now: nat, cursor: nat, all: seq<Key>)
    requires Regular(vs)
  {
    var j, c := cursor / TWO48, cursor % TWO48;
    && cursor < TWO64 && j < |vs| && c < |vs[j].keys|
    && all == Upto(vs, prefix, now, j) + Between(vs[j], prefix, now, 0, c)
  }

  /** The cursor that follows a page which left shard `j` at `inner`. */
  function NextCursor(j: nat, inner: nat, n: nat): nat {
    if inner == 0 then (if j + 1 >= n then 0 else (j + 1) * TWO48 % TWO64)
    else j * TWO48 + inner
  }

  lemma PageStep(vs: seq<View>, prefix: Key, now: nat, cursor: nat, all: seq<Key>, page: seq<Key>, inner: nat)
    requires Regular(vs) && ListedBefore(vs, prefix, now, cursor, all)
    requires var j, c := cursor / TWO48, cursor % TWO48;
             && inner < |vs[j].keys| && c < Stop(inner, |vs[j].keys|)
             && page == Between(vs[j], prefix, now, c, Stop(inner, |vs[j].keys|))
    ensures var next := NextCursor(cursor / TWO48, inner, |vs|);
            if next == 0 then all + page == Upto(vs, prefix, now, Visible(|vs|))
            else cursor < next && ListedBefore(vs, prefix, now, next, all + page)
  {
    hide Between, Upto;
    var j, c := cursor / TWO48, cursor % TWO48;
    BetweenSplit(vs[j], prefix, now, 0, c, Stop(inner, |vs[j].keys|));
    var here := Upto(vs, prefix, now, j);
    assert all + page == here + Between(vs[j], prefix, now, 0, Stop(inner, |vs[j].keys|));
    if inner == 0 {
      UptoNext(vs, prefix, now, j);
    }
  }

  lemma ListedStart(vs: seq<View>, prefix: Key, now: nat)
    requires Regular(vs) && vs != []
    ensures ListedBefore(vs, prefix, now, 0, [])
  {
    assert Between(vs[0], prefix, now, 0, 0) == [];
  }

  lemma ListedInside(vs: seq<View>, prefix: Key, now: nat, cursor: nat, all: seq<Key>)
    requires Regular(vs) && ListedBefore(vs, prefix, now, cursor, all)
    ensures cursor < TWO64 && cursor / TWO48 < |vs| && cursor % TWO48 < |vs[cursor / TWO48].keys|
  {
  }

  lemma UptoNext(vs: seq<View>, prefix: Key, now: nat, j: nat)
    requires j < |vs| && Regular(vs)
    ensures Upto(vs, prefix, now, j + 1) == Upto(vs, prefix, now, j) + Between(vs[j], prefix, now, 0, |vs[j].keys|)
    ensures j + 1 < |vs| ==> Between(vs[j + 1], prefix, now, 0, 0) == []
  {
  }

  // ----- The listing is exact -----

  predicate NoDuplicates(ks: seq<Key>) {
    forall i, j :: 0 <= i < j < |ks| ==> ks[i] != ks[j]
  }

  /** `k` is in the map, unexpired, and has the prefix. */
  predicate Matching(m: map<Key, Entry>, prefix: Key, now: nat, k: Key) {
    k in m && m[k].Live(now) && prefix <= k
  }

  /** The slots show the map `m`. */
  predicate Shows(v: View, m: map<Key, Entry>) {
    && |v.keys| == |v.expiresAt| && Distinct(v.keys)
    && (forall i :: 0 <= i < |v.keys| && v.keys[i].Some? ==>
          v.keys[i].value in m && m[v.keys[i].value].expiresAt == v.expiresAt[i])
    && (forall k :: k in m ==> Some(k) in v.keys)
  }

  lemma {:induction false} BetweenExact(v: View, m: map<Key, Entry>, prefix: Key, now: nat, upto: nat)
    requires upto <= |v.keys| && Shows(v, m)
    ensures var ks := Between(v, prefix, now, 0, upto);
            && NoDuplicates(ks)
            && (forall k :: k in ks <==> Matching(m, prefix, now, k) && Some(k) in v.keys[..upto])
  {
    if upto > 0 {
      BetweenExact(v, m, prefix, now, upto - 1);
      assert v.keys[..upto] == v.keys[..upto - 1] + [v.keys[upto - 1]];
      assert v.keys[upto - 1].Some? ==> v.keys[upto - 1] !in v.keys[..upto - 1];
    }
  }

  lemma ShardExact(v: View, m: map<Key, Entry>, prefix: Key, now: nat)
    requires Shows(v, m)
    ensures var ks := Between(v, prefix, now, 0, |v.keys|);
            NoDuplicates(ks) && forall k :: k in ks <==> Matching(m, prefix, now, k)
  {
    BetweenExact(v, m, prefix, now, |v.keys|);
    assert v.keys[..|v.keys|] == v.keys;
  }

  lemma {:induction false} UptoExact(vs: seq<View>, ms: seq<map<Key, Entry>>, prefix: Key, now: nat, n: nat)
    requires n <= |vs| == |ms| && Regular(vs)
    requires forall j :: 0 <= j < |vs| ==> Shows(vs[j], ms[j])
    ensures forall k :: k in Upto(vs, prefix, now, n) <==> exists j :: 0 <= j < n && Matching(ms[j], prefix, now, k)
    ensures Separate(ms) ==> NoDuplicates(Upto(vs, prefix, now, n))
  {
    hide Between, Shows, NoDuplicates, Matching, Separate;
    if n == 0 {
      NothingTwice();
    } else {
      UptoExact(vs, ms, prefix, now, n - 1);
      ShardExact(vs[n - 1], ms[n - 1], prefix, now);
      var front, back := Upto(vs, prefix, now, n - 1), Between(vs[n - 1], prefix, now, 0, |vs[n - 1].keys|);
      if Separate(ms) {
        forall k | k in front
          ensures k !in back
        {
          var j :| 0 <= j < n - 1 && Matching(ms[j], prefix, now, k);
          SeparateShards(ms, j, n - 1, prefix, now, k);
        }
        AppendNoDuplicates(front, back);
      }
    }
  }

  lemma NothingTwice()
    ensures NoDuplicates([])
  {
  }

  lemma SeparateShards(ms: seq<map<Key, Entry>>, i: nat, j: nat, prefix: Key, now: nat, k: Key)
    requires Separate(ms) && i < |ms| && j < |ms| && i != j && Matching(ms[i], prefix, now, k)
    ensures !Matching(ms[j], prefix, now, k)
  {
  }

  /** No key is in two shards. */
  predicate Separate(ms: seq<map<Key, Entry>>) {
    forall i, j, k :: 0 <= i < |ms| && 0 <= j < |ms| && k in ms[i] && k in ms[j] ==> i == j
  }

  lemma AppendNoDuplicates(a: seq<Key>, b: seq<Key>)
    requires NoDuplicates(a) && NoDuplicates(b) && forall k :: k in a ==> k !in b
    ensures NoDuplicates(a + b)
  {
    forall i, j | 0 <= i < j < |a + b|
      ensures (a + b)[i] != (a + b)[j]
    {
      if i < |a| <= j { assert a[i] in a && b[j - |a|] in b; }
    }
  }

  class ShardSet {
    const shards: seq<ShardIndex>

    constructor (shards: seq<ShardIndex>)
      ensures this.shards == shards
    {
      this.shards := shards;
    }

    ghost predicate Valid()
      reads this, shards
    {
      forall s :: s in shards ==> s.Valid() && |s.keys| <= TWO48
    }

    ghost function Views(): (vs: seq<View>)
      reads this, shards
      requires Valid()
      ensures |vs| == |shards| && Regular(vs)
      ensures forall j :: 0 <= j < |vs| ==> vs[j] == ViewOf(shards[j])
    {
      var vs := seq(|shards|, j requires 0 <= j < |shards| reads shards => ViewOf(shards[j]));
      assert forall j :: 0 <= j < |shards| ==> shards[j].Valid();
      vs
    }

    /** One page of the set: the upper 16 bits of the cursor are the shard, the
        lower 48 the slot. */
    method Scan(prefix: Key, cursor: nat, count: int, now: nat) returns (keys: seq<Key>, next: nat, ghost inner: nat)
      requires Valid() && cursor < TWO64
      ensures cursor / TWO48 >= |shards| ==> keys == [] && next == 0
      ensures var j, c := cursor / TWO48, cursor % TWO48;
              j < |shards| ==>
                && next == NextCursor(j, inner, |shards|)
                && (count <= 0 ==> keys == [] && inner == 0)
                && (count > 0 && c < |shards[j].keys| ==>
                      && inner < |shards[j].keys| && c < Stop(inner, |shards[j].keys|)
                      && keys == Between(ViewOf(shards[j]), prefix, now, c, Stop(inner, |shards[j].keys|))
                      && |keys| <= count && (inner != 0 ==> |keys| == count))
    {
      var shardIdx, innerCursor := cursor / TWO48, cursor % TWO48;
      inner := 0;
      if shardIdx >= |shards| { return [], 0, 0; }
      var nextInner;
      keys, nextInner := ScanPrefix(shards[shardIdx], prefix, innerCursor, count, now);
      inner := nextInner;
      if nextInner == 0 {
        var nextShard := shardIdx + 1;
        next := if nextShard >= |shards| then 0 else nextShard * TWO48 % TWO64;
      } else {
        next := shardIdx * TWO48 + nextInner;
      }
    }

    ghost function Maps(): (ms: seq<map<Key, Entry>>)
      reads this, shards
      ensures |ms| == |shards| && forall j :: 0 <= j < |ms| ==> ms[j] == shards[j].Contents
    {
      seq(|shards|, j requires 0 <= j < |shards| reads shards => shards[j].Contents)
    }

    /** Every key lives in the shard its hash names. */
    ghost predicate Routed(hash: Key -> nat)
      reads this, shards
    {
      forall j, k :: 0 <= j < |shards| && k in shards[j].Contents ==> Home(hash, k, |shards|) == j
    }

    /** The whole listing: each matching key of each shard a cursor can name, and
        with routed keys each exactly once. */
    method ScanEverything(prefix: Key, count: int, now: nat, ghost hash: Key -> nat) returns (all: seq<Key>)
      requires Valid() && count > 0
      ensures forall k :: k in all <==>
                exists j :: 0 <= j < Visible(|shards|) && Matching(shards[j].Contents, prefix, now, k)
      ensures Routed(hash) ==> NoDuplicates(all)
    {
      hide Upto, Shows, Matching, Searchable, Distinct, ShardIndexes.Holds, Occupied, PowerOfTwo, Visible, Separate;
      all := ScanAll(prefix, count, now);
      VisibleInside(|shards|);
      ViewsShow();
      UptoExact(Views(), Maps(), prefix, now, Visible(|shards|));
      if Routed(hash) { RoutedSeparate(hash); }
    }

    lemma VisibleInside(n: nat)
      ensures Visible(n) <= n
    {
    }

    lemma ViewsShow()
      requires Valid()
      ensures forall j :: 0 <= j < |shards| ==> Shows(Views()[j], Maps()[j])
    {
      forall j | 0 <= j < |shards|
        ensures Shows(Views()[j], Maps()[j])
      {
        assert shards[j].Valid();
        hide Searchable, Occupied, PowerOfTwo;
      }
    }

    lemma RoutedSeparate(hash: Key -> nat)
      requires Routed(hash)
      ensures Separate(Maps())
    {
      forall i, j, k | 0 <= i < |shards| && 0 <= j < |shards| && k in Maps()[i] && k in Maps()[j]
        ensures i == j
      {
        assert Home(hash, k, |shards|) == i && Home(hash, k, |shards|) == j;
      }
    }

    /** Appends one page to the listing. */
    method NextPage(prefix: Key, count: int, now: nat, cursor: nat, all: seq<Key>, ghost vs: seq<View>)
      returns (all': seq<Key>, next: nat)
      requires Valid() && count > 0 && vs == Views() && ListedBefore(vs, prefix, now, cursor, all)
      ensures if next == 0 then all' == Upto(vs, prefix, now, Visible(|vs|))
              else cursor < next && ListedBefore(vs, prefix, now, next, all')
    {
      hide Between, Upto, NextCursor, Stop, Visible, ListedBefore;
      ListedInside(vs, prefix, now, cursor, all);
      var page;
      ghost var inner;
      page, next, inner := Scan(prefix, cursor, count, now);
      PageStep(vs, prefix, now, cursor, all, page, inner);
      all' := all + page;
    }

    lemma NothingVisible(vs: seq<View>, prefix: Key, now: nat)
      requires Regular(vs) && vs == []
      ensures Upto(vs, prefix, now, Visible(0)) == []
    {
    }

    /** Following the cursor from 0 until it is 0 again ends, and lists the
        matching keys of all visible shards in order. */
    method ScanAll(prefix: Key, count: int, now: nat) returns (all: seq<Key>)
      requires Valid() && count > 0
      ensures all == Upto(Views(), prefix, now, Visible(|shards|))
    {
      hide Between, Upto, Visible, ListedBefore, Regular, Searchable, Distinct, ShardIndexes.Holds, Occupied, PowerOfTwo;
      ghost var vs := Views();
      if |shards| == 0 {
        NothingVisible(vs, prefix, now);
        return [];
      }
      var cursor := 0;
      all := [];
      ListedStart(vs, prefix, now);
      while true
        invariant ListedBefore(vs, prefix, now, cursor, all)
        decreases TWO64 - cursor
      {
        ListedInside(vs, prefix, now, cursor, all);
        all, cursor := NextPage(prefix, count, now, cursor, all, vs);
        if cursor == 0 { break; }
      }
    }
  }
}
