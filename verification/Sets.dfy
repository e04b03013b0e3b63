/** Packed sets refine sets of byte strings. */
module Sets {
  import opened Bytes
  import opened Packed

  function MembersOf(raw: seq<Byte>): set<seq<Byte>> {
    Names(Decode(Members, raw))
  }

  /** A set payload: proper, without duplicates. */
  predicate ProperSet(raw: seq<Byte>) {
    Proper(Members, raw) && DistinctNames(Decode(Members, raw))
  }

  function Add(raw: seq<Byte>, member: seq<Byte>): seq<Byte> {
    if Find(Members, raw, member).Some? then raw else Added(Members, raw, Item(member, []))
  }

  function Remove(raw: seq<Byte>, member: seq<Byte>): seq<Byte> {
    var at := Find(Members, raw, member);
    if at.None? then raw else
      SomeItem(Members, raw, member);
      Cut(raw, at.value.start, at.value.end)
  }

  /** On any bytes, a search decides membership in what they decode to. */
  lemma FindMember(raw: seq<Byte>, member: seq<Byte>)
    ensures Find(Members, raw, member).Some? <==> member in MembersOf(raw)
  {
    hide Find, Decode, First, Names;
    SomeItem(Members, raw, member);
    FirstIsIn(Decode(Members, raw), member);
  }

  predicate Room(raw: seq<Byte>, member: seq<Byte>) {
    |member| < TWO16 && Count(raw) + 1 < TWO32
  }

  lemma RoomFits(raw: seq<Byte>, member: seq<Byte>)
    requires Proper(Members, raw)
    ensures Fits(Members, Decode(Members, raw) + [Item(member, [])]) <==> Room(raw, member)
  {
    hide Decode, Encode, Count;
    var items := Decode(Members, raw);
    RepresentedDecodes(Members, raw, items);
    var all := items + [Item(member, [])];
    assert all[|items|] == Item(member, []);
  }

  /** Adding inserts into the set, and keeps the payload proper. */
  lemma AddInserts(raw: seq<Byte>, member: seq<Byte>)
    requires ProperSet(raw) && (member in MembersOf(raw) || Room(raw, member))
    ensures ProperSet(Add(raw, member)) && MembersOf(Add(raw, member)) == MembersOf(raw) + {member}
  {
    hide Find, Decode, DistinctNames, Names, Added, Proper, Room, Fits;
    FindMember(raw, member);
    if member !in MembersOf(raw) {
      var items, it := Decode(Members, raw), Item(member, []);
      RoomFits(raw, member);
      AddedExact(Members, raw, it);
      RepresentedDecodes(Members, Add(raw, member), items + [it]);
      AddedNames(items, it);
    }
  }

  /** Adding a new member that the format has no room for is not read back. */
  lemma AddExact(raw: seq<Byte>, member: seq<Byte>)
    requires ProperSet(raw) && member !in MembersOf(raw)
    ensures Decode(Members, Add(raw, member)) == Decode(Members, raw) + [Item(member, [])] <==> Room(raw, member)
  {
    hide Find, Decode, DistinctNames, Names, Added, Proper, Room, Fits;
    FindMember(raw, member);
    RoomFits(raw, member);
    AddedExact(Members, raw, Item(member, []));
  }

  /** Removing deletes from the set, and keeps the payload proper. */
  lemma RemoveDeletes(raw: seq<Byte>, member: seq<Byte>)
    requires ProperSet(raw)
    ensures ProperSet(Remove(raw, member)) && MembersOf(Remove(raw, member)) == MembersOf(raw) - {member}
  {
    hide Find, Decode, DistinctNames, Names, Cut, Represents, Encode, EncodeItem, Start;
    FindMember(raw, member);
    if member in MembersOf(raw) {
      var items := Decode(Members, raw);
      CutFound(Members, raw, member);
      var i := First(items, member);
      RepresentedDecodes(Members, Remove(raw, member), Without(items, i));
      WithoutNames(items, i);
    }
  }

  // ----- Runs -----

  datatype Op = SAdd(member: seq<Byte>) | SRem(member: seq<Byte>)

  function Run(raw: seq<Byte>, ops: seq<Op>): seq<Byte>
    decreases |ops|
  {
    if ops == [] then raw
    else Run(match ops[0] case SAdd(m) => Add(raw, m) case SRem(m) => Remove(raw, m), ops[1..])
  }

  function RunSet(s: set<seq<Byte>>, ops: seq<Op>): set<seq<Byte>>
    decreases |ops|
  {
    if ops == [] then s
    else RunSet(match ops[0] case SAdd(m) => s + {m} case SRem(m) => s - {m}, ops[1..])
  }

  lemma SizeOf(raw: seq<Byte>)
    requires ProperSet(raw)
    ensures Count(raw) == |MembersOf(raw)|
  {
    hide Decode, Represents, Count;
    RepresentedDecodes(Members, raw, Decode(Members, raw));
    DistinctCount(Decode(Members, raw));
  }

  /** Over every run, the payload decodes to the set, without duplicates, and its
      count is the set's size. */
  lemma {:induction false} RunsRefineSets(raw: seq<Byte>, ops: seq<Op>)
    requires ProperSet(raw) && |MembersOf(raw)| + |ops| < TWO32
    requires forall i :: 0 <= i < |ops| && ops[i].SAdd? ==> |ops[i].member| < TWO16
    ensures ProperSet(Run(raw, ops)) && MembersOf(Run(raw, ops)) == RunSet(MembersOf(raw), ops)
    ensures Count(Run(raw, ops)) == |RunSet(MembersOf(raw), ops)|
    decreases |ops|
  {
    hide ProperSet, MembersOf, Add, Remove, Count;
    SizeOf(raw);
    if ops != [] {
      var m := ops[0].member;
      match ops[0]
      case SAdd(_) =>
        AddInserts(raw, m);
        RunsRefineSets(Add(raw, m), ops[1..]);
      case SRem(_) =>
        RemoveDeletes(raw, m);
        RunsRefineSets(Remove(raw, m), ops[1..]);
    }
  }

  // ----- The operations -----

  method AddMember(raw: seq<Byte>, member: seq<Byte>) returns (r: seq<Byte>, added: bool)
    ensures r == Add(raw, member) && (added <==> member !in MembersOf(raw))
    ensures ProperSet(raw) && Room(raw, member) ==>
              ProperSet(r) && MembersOf(r) == MembersOf(raw) + {member}
  {
    hide ProperSet, MembersOf, Find, Room, Count;
    FindMember(raw, member);
    if ProperSet(raw) && (member in MembersOf(raw) || Room(raw, member)) { AddInserts(raw, member); }
    if |raw| < 4 {
      assert Find(Members, raw, member).None? by { ShortIsEmpty(raw, member); }
      return Le32(1) + (Le16(|member|) + member), true;
    }
    var at := Search(Members, raw, member);
    if at.Some? { return raw, false; }
    return Le32(Count(raw) + 1) + raw[4..] + (Le16(|member|) + member), true;
  }

  lemma ShortIsEmpty(raw: seq<Byte>, member: seq<Byte>)
    requires |raw| < 4
    ensures Find(Members, raw, member).None?
  {
  }

  method RemoveMember(raw: seq<Byte>, member: seq<Byte>) returns (r: seq<Byte>, removed: bool)
    ensures r == Remove(raw, member) && (removed <==> member in MembersOf(raw))
    ensures ProperSet(raw) ==> ProperSet(r) && MembersOf(r) == MembersOf(raw) - {member}
  {
    hide ProperSet, MembersOf, Find, Count;
    FindMember(raw, member);
    if ProperSet(raw) { RemoveDeletes(raw, member); }
    var at := Search(Members, raw, member);
    if at.None? { return raw, false; }
    SomeItem(Members, raw, member);
    var start, end := at.value.start, at.value.end;
    if Count(raw) == 1 { return [], true; }
    return Le32(Count(raw) - 1) + (raw[..start] + raw[end..])[4..], true;
  }

  method IsMember(raw: seq<Byte>, member: seq<Byte>) returns (yes: bool)
    ensures yes <==> member in MembersOf(raw)
  {
    FindMember(raw, member);
    var at := Search(Members, raw, member);
    return at.Some?;
  }

  /** The members in the order they were added. */
  method ListMembers(raw: seq<Byte>) returns (ms: seq<seq<Byte>>)
    ensures |ms| == |Decode(Members, raw)| && forall i :: 0 <= i < |ms| ==> ms[i] == Decode(Members, raw)[i].name
    ensures (set m | m in ms) == MembersOf(raw)
  {
    hide Decode;
    var items := Collect(Members, raw);
    ms := seq(|items|, i requires 0 <= i < |items| => items[i].name);
    forall i | 0 <= i < |ms|
      ensures items[i].name in ms
    {
      assert ms[i] == items[i].name;
    }
  }
}
