/**
 * GroupModel: creating a group, adding, removing and listing members,
 * finding a group by its code and joining it, and the per-user list of
 * groups sorted by name. A group lives at `groups/{id}`; each member keeps a
 * reference at `users/{userId}/groups/{groupId}`.
 */
module Groups {
  import opened Optional
  import opened Strings
  import opened Php
  import opened Sorting
  import opened Records
  import Store
  import Codec

  // ---------------------------------------------------------------- paths

  /** `groups/{id}`, the path a push into `groups` creates. */
  function GroupPath(groupId: string): string {
    "groups" + "/" + groupId
  }

  function UserGroupsPath(userId: string): string {
    "users/" + userId + "/groups"
  }

  function UserGroupPath(userId: string, groupId: string): string {
    UserGroupsPath(userId) + "/" + groupId
  }

  /** A group document and a user's group reference never share a path. */
  lemma PathsDiffer(groupId: string, userId: string, ref: string)
    ensures GroupPath(groupId) != UserGroupPath(userId, ref)
  {
    assert GroupPath(groupId)[0] == 'g';
    assert UserGroupPath(userId, ref)[0] == 'u';
  }

  // -------------------------------------------------------------- members

  /** `$group['members'] ?? []`, as the array `in_array` and `$members[] =` work on. */
  function Members(group: Value): Entries {
    match Coalesce(group, "members", Arr([]))
    case Arr(es) => es
    case _ => []
  }

  /** The update `['members' => $members]`. */
  function MembersRecord(ms: Entries): Entries {
    Record([("members", Arr(ms))])
  }

  /** A one-field update is never an empty mask. */
  lemma MembersRecordNotEmpty(ms: Entries)
    ensures MembersRecord(ms) != []
  {
    assert |Pairs([("members", Arr(ms))])| > 0;
  }

  /** No two members are `==` to each other. */
  predicate NoDuplicates(ms: Entries) {
    forall i, j :: 0 <= i < j < |ms| ==> !LooseEq(ms[i].1, ms[j].1)
  }

  /** Appending someone who is not yet a member keeps the list free of duplicates. */
  lemma AppendKeepsNoDuplicates(ms: Entries, v: Value)
    requires NoDuplicates(ms) && !InArray(v, ms)
    ensures NoDuplicates(Push(ms, v))
  {
    var r := Push(ms, v);
    forall i, j | 0 <= i < j < |r| ensures !LooseEq(r[i].1, r[j].1) {
      if j == |ms| {
        LooseEqSymmetric(v, ms[i].1);
      }
    }
  }

  /** After `$members[] = $v`, `in_array($v, $members)` holds. */
  lemma PushedIsMember(ms: Entries, v: Value)
    ensures InArray(v, Push(ms, v))
  {
    assert Push(ms, v)[|ms|].1 == v;
    LooseEqReflexive(v);
  }

  /** `array_filter($members, fn($m) => $m !== $userId)`, values only. */
  function Others(vs: seq<Value>, userId: string): (r: seq<Value>)
    ensures multiset(r) == multiset(vs)[Str(userId) := 0]
    decreases |vs|
  {
    if |vs| == 0 then []
    else
      var init := vs[..|vs| - 1];
      var last := vs[|vs| - 1];
      assert vs == init + [last];
      if last == Str(userId) then Others(init, userId) else Others(init, userId) + [last]
  }

  /** Filtering keeps the remaining members in their order: it distributes over concatenation. */
  lemma {:induction false} OthersAppend(a: seq<Value>, b: seq<Value>, userId: string)
    ensures Others(a + b, userId) == Others(a, userId) + Others(b, userId)
    decreases |b|
  {
    if |b| > 0 {
      var b' := b[..|b| - 1];
      assert a + b == (a + b') + [b[|b| - 1]];
      assert (a + b)[..|a + b| - 1] == a + b';
      OthersAppend(a, b', userId);
    } else {
      assert a + b == a;
    }
  }

  /** Removing a user who is not a member changes nothing; removing twice is removing once. */
  lemma OthersIdentity(vs: seq<Value>, userId: string)
    ensures Str(userId) !in vs ==> Others(vs, userId) == vs
    ensures Others(Others(vs, userId), userId) == Others(vs, userId)
  {
    if Str(userId) !in vs {
      OthersAbsent(vs, userId);
    }
    var r := Others(vs, userId);
    assert multiset(r)[Str(userId)] == 0;
    OthersAbsent(r, userId);
  }

  lemma {:induction false} OthersAbsent(vs: seq<Value>, userId: string)
    requires Str(userId) !in vs
    ensures Others(vs, userId) == vs
    decreases |vs|
  {
    if |vs| > 0 {
      var init := vs[..|vs| - 1];
      assert vs == init + [vs[|vs| - 1]];
      assert Str(userId) !in init;
      OthersAbsent(init, userId);
    }
  }

  // --------------------------------------------------------------- create

  datatype Created = Created(id: string, groupCode: string)

  /** The group `createGroup` stores; the clock reading `now` is in seconds. */
  function GroupFields(creatorId: string, groupData: Value, code: string, now: int): seq<(string, Value)> {
    Named(GroupFieldNames, [
      Field(groupData, "name"),
      Coalesce(groupData, "description", Null),
      Coalesce(groupData, "avatar", Null),
      Str(creatorId),
      Coalesce(groupData, "members", Arr(ListOf([Str(creatorId)]))),
      Str(code),
      Int(now * 1000)])
  }

  lemma GroupNamesDistinct(creatorId: string, groupData: Value, code: string, now: int)
    ensures DistinctNames(GroupFields(creatorId, groupData, code, now))
  {
    var fs := GroupFields(creatorId, groupData, code, now);
    GroupFieldNamesDistinct();
    DistinctByNames(fs, GroupFieldNames);
  }

  const GroupFieldNames: seq<string> := ["name", "description", "avatar", "creator_id", "members", "group_code", "created_at"]

  lemma GroupFieldNamesDistinct()
    ensures Distinct(GroupFieldNames)
  {
    var ns := GroupFieldNames;
    forall i, j | 0 <= i < j < |ns| ensures ns[i] != ns[j] {
      assert |ns[i]| != |ns[j]| || ns[i][0] != ns[j][0] || ns[i][5] != ns[j][5];
    }
  }

  /** The reference `addGroupToUser` writes. */
  function JoinedAt(now: int): Entries {
    Record([("joined_at", Int(now * 1000))])
  }

  /** `addGroupToUser`: `http` is the status of the update, whose outcome is returned. */
  function AddGroupToUser(db: Store.Db, userId: string, groupId: string, now: int, http: int): (r: (bool, Store.Db))
    ensures r.0 == Codec.WriteSucceeded(http)
    ensures !r.0 ==> r.1 == db
    ensures forall p :: p != UserGroupPath(userId, groupId) ==> Store.Stored(r.1, p) == Store.Stored(db, p)
  {
    assert |Pairs([("joined_at", Int(now * 1000))])| > 0;
    Store.Update(db, UserGroupPath(userId, groupId), JoinedAt(now), http)
  }

  /**
   * The two writes that make `userId` a member of a group whose members are
   * `ms`: the extended list, then the user's reference. Each has its own
   * status, and the caller goes on whatever the first one returned.
   */
  function Enrol(db: Store.Db, userId: string, groupId: string, ms: Entries, now: int, http1: int, http2: int): Store.Db {
    MembersRecordNotEmpty(Push(ms, Str(userId)));
    var db1 := Store.Update(db, GroupPath(groupId), MembersRecord(Push(ms, Str(userId))), http1).1;
    AddGroupToUser(db1, userId, groupId, now, http2).1
  }

  /**
   * `createGroup`: push the group (its code drawn from `hash`), then record
   * it in the creator's list, that update answering `http`; null, and no
   * write, when the push fails. The reference's outcome does not change the
   * answer.
   */
  function CreateGroup(db: Store.Db, creatorId: string, groupData: Value, hash: string, now: int, newId: Option<string>, http: int)
    : (r: (Option<Created>, Store.Db))
    ensures r.0.None? <==> Store.Push(db, "groups", Record(GroupFields(creatorId, groupData, CodeFrom(hash), now)), newId).0.None?
    ensures r.0.None? ==> r.1 == db
    ensures r.0.Some? ==> Some(r.0.value.id) == newId && r.0.value.groupCode == CodeFrom(hash)
  {
    var code := CodeFrom(hash);
    var pushed := Store.Push(db, "groups", Record(GroupFields(creatorId, groupData, code, now)), newId);
    match pushed.0
    case None => (None, db)
    case Some(id) => (Some(Created(id, code)), AddGroupToUser(pushed.1, creatorId, id, now, http).1)
  }

  /**
   * A created group is stored under its id with the creator recorded,
   * members defaulting to the creator alone, and the code returned; the
   * creator's list references it when that update succeeds.
   */
  lemma CreatedGroupStored(db: Store.Db, creatorId: string, groupData: Value, hash: string, now: int, newId: Option<string>, http: int)
    requires CreateGroup(db, creatorId, groupData, hash, now, newId, http).0.Some?
    ensures var res := CreateGroup(db, creatorId, groupData, hash, now, newId, http);
      var id := res.0.value.id;
      var g := Arr(Store.Stored(res.1, GroupPath(id)));
      && Field(g, "creator_id") == Str(creatorId)
      && Field(g, "group_code") == Str(res.0.value.groupCode)
      && (!Isset(groupData, "members") ==> Field(g, "members") == Arr(ListOf([Str(creatorId)])))
      && (Codec.WriteSucceeded(http) ==>
            Field(Arr(Store.Stored(res.1, UserGroupPath(creatorId, id))), "joined_at") == Int(now * 1000))
  {
    var code := CodeFrom(hash);
    var rec := Record(GroupFields(creatorId, groupData, code, now));
    var pushed := Store.Push(db, "groups", rec, newId);
    var id := pushed.0.value;
    var db' := AddGroupToUser(pushed.1, creatorId, id, now, http).1;
    assert CreateGroup(db, creatorId, groupData, hash, now, newId, http) == (Some(Created(id, code)), db');
    GroupRecord(creatorId, groupData, code, now);
    assert Store.Stored(pushed.1, GroupPath(id)) == rec;
    PathsDiffer(id, creatorId, id);
    assert Store.Stored(db', GroupPath(id)) == rec;
    MergeRecord(Store.Stored(pushed.1, UserGroupPath(creatorId, id)), [("joined_at", Int(now * 1000))], 0);
  }

  /** The group as a stored document: seven fields, which a push stores unchanged. */
  lemma GroupRecord(creatorId: string, groupData: Value, code: string, now: int)
    ensures var rec := Record(GroupFields(creatorId, groupData, code, now));
      && SetAll([], rec) == rec
      && Field(Arr(rec), "creator_id") == Str(creatorId)
      && Field(Arr(rec), "group_code") == Str(code)
      && Field(Arr(rec), "members") == Coalesce(groupData, "members", Arr(ListOf([Str(creatorId)])))
  {
    var fs := GroupFields(creatorId, groupData, code, now);
    GroupNamesDistinct(creatorId, groupData, code, now);
    RecordIsPairs(fs);
    assert [] + Record(fs) == Record(fs);
    SetAllFresh([], Record(fs));
    RecordField(fs, 3);
    RecordField(fs, 4);
    RecordField(fs, 5);
  }

  // ------------------------------------------------------------- reading

  /** `getGroup`: the group with its id attached, or null. */
  function GetGroup(db: Store.Db, groupId: string): (r: Option<Value>)
    ensures r.Some? <==> Store.Read(db, GroupPath(groupId)).Some?
    ensures r.Some? ==> r.value.Arr? && Field(r.value, "id") == Str(groupId)
  {
    match Store.Read(db, GroupPath(groupId))
    case None => None
    case Some(es) => Some(WithField(Arr(es), "id", Str(groupId)))
  }

  /** The members of a found group are those of the stored document. */
  lemma GroupMembers(db: Store.Db, groupId: string)
    requires Store.Stored(db, GroupPath(groupId)) != []
    ensures GetGroup(db, groupId).Some?
    ensures Coalesce(GetGroup(db, groupId).value, "members", Arr([]))
         == Coalesce(Arr(Store.Stored(db, GroupPath(groupId))), "members", Arr([]))
  {
    Store.ReadStored(db, GroupPath(groupId));
    WithFieldOthers(Arr(Store.Stored(db, GroupPath(groupId))), "id", Str(groupId), "members");
  }

  /** `getMembers`: the group's members, `[]` when there is no such group. */
  function GetMembers(db: Store.Db, groupId: string): (r: Value)
    ensures GetGroup(db, groupId).None? ==> r == Arr([])
    ensures GetGroup(db, groupId).Some? ==> r == Arr(Members(GetGroup(db, groupId).value)) || !Field(GetGroup(db, groupId).value, "members").Arr?
  {
    match GetGroup(db, groupId)
    case None => Arr([])
    case Some(g) => Coalesce(g, "members", Arr([]))
  }

  /** A referenced group as `getGroups` collects it: read, then tagged with the reference's key. */
  function GroupOf(db: Store.Db, ref: Key): Option<Value> {
    match Store.Read(db, GroupPath(KeyName(ref)))
    case None => None
    case Some(es) => Some(WithField(Arr(es), "id", KeyValue(ref)))
  }

  /** The `foreach` of `getGroups`: every referenced group that still exists, in reference order. */
  function Collect(db: Store.Db, refs: Entries): (gs: seq<Value>)
    ensures |gs| <= |refs|
    decreases |refs|
  {
    if |refs| == 0 then []
    else
      var rest := Collect(db, refs[..|refs| - 1]);
      match GroupOf(db, refs[|refs| - 1].0)
      case None => rest
      case Some(g) => rest + [g]
  }

  /** Exactly the referenced groups that exist are collected. */
  lemma CollectSpec(db: Store.Db, refs: Entries)
    ensures forall i :: 0 <= i < |refs| && GroupOf(db, refs[i].0).Some? ==> GroupOf(db, refs[i].0).value in Collect(db, refs)
    ensures forall g :: g in Collect(db, refs) ==> exists i :: 0 <= i < |refs| && GroupOf(db, refs[i].0) == Some(g)
  {
    forall i | 0 <= i < |refs| && GroupOf(db, refs[i].0).Some? ensures GroupOf(db, refs[i].0).value in Collect(db, refs) {
      CollectHas(db, refs, i);
    }
    forall g | g in Collect(db, refs) ensures exists i :: 0 <= i < |refs| && GroupOf(db, refs[i].0) == Some(g) {
      CollectOnlyRefs(db, refs, g);
    }
  }

  /** One more reference adds its group, if it exists, after the others. */
  lemma CollectStep(db: Store.Db, refs: Entries, g: Value)
    requires |refs| > 0
    ensures g in Collect(db, refs)
        <==> g in Collect(db, refs[..|refs| - 1]) || GroupOf(db, refs[|refs| - 1].0) == Some(g)
  {
  }

  lemma {:induction false} CollectHas(db: Store.Db, refs: Entries, i: int)
    requires 0 <= i < |refs| && GroupOf(db, refs[i].0).Some?
    ensures GroupOf(db, refs[i].0).value in Collect(db, refs)
    decreases |refs|
  {
    var g := GroupOf(db, refs[i].0).value;
    var init := refs[..|refs| - 1];
    CollectStep(db, refs, g);
    if i < |refs| - 1 {
      assert init[i] == refs[i];
      CollectHas(db, init, i);
    }
  }

  lemma {:induction false} CollectOnlyRefs(db: Store.Db, refs: Entries, g: Value)
    requires g in Collect(db, refs)
    ensures exists i :: 0 <= i < |refs| && GroupOf(db, refs[i].0) == Some(g)
    decreases |refs|
  {
    var init := refs[..|refs| - 1];
    CollectStep(db, refs, g);
    if g in Collect(db, init) {
      CollectOnlyRefs(db, init, g);
      var i :| 0 <= i < |init| && GroupOf(db, init[i].0) == Some(g);
      assert refs[i] == init[i];
    } else {
      assert GroupOf(db, refs[|refs| - 1].0) == Some(g);
    }
  }

  /** `getGroups`: the user's groups, sorted by name case-insensitively; `[]` when the user has none. */
  function GetGroups(db: Store.Db, userId: string): seq<Value> {
    match Store.Read(db, UserGroupsPath(userId))
    case None => []
    case Some(refs) => SortBy(Collect(db, refs), NameKey)
  }

  /** The list holds exactly the collected groups, and names never decrease along it. */
  lemma GetGroupsSpec(db: Store.Db, userId: string)
    ensures Store.Read(db, UserGroupsPath(userId)).None? ==> GetGroups(db, userId) == []
    ensures Store.Read(db, UserGroupsPath(userId)).Some? ==>
      multiset(GetGroups(db, userId)) == multiset(Collect(db, Store.Read(db, UserGroupsPath(userId)).value))
    ensures SortedBy(GetGroups(db, userId), NameKey)
  {
    match Store.Read(db, UserGroupsPath(userId))
    case None =>
    case Some(refs) => SortByCorrect(Collect(db, refs), NameKey);
  }

  // ------------------------------------------------------------ membership

  /**
   * `addMember`: append the user unless already a member (loose `in_array`);
   * false when there is no such group. `http1` and `http2` are the statuses
   * of the two writes, which the answer ignores.
   */
  function AddMember(db: Store.Db, groupId: string, userId: string, now: int, http1: int, http2: int): (r: (bool, Store.Db))
    ensures r.0 <==> GetGroup(db, groupId).Some?
    ensures !r.0 ==> r.1 == db
    ensures r.0 && InArray(Str(userId), Members(GetGroup(db, groupId).value)) ==> r.1 == db
  {
    match GetGroup(db, groupId)
    case None => (false, db)
    case Some(g) =>
      var ms := Members(g);
      if InArray(Str(userId), ms) then (true, db)
      else (true, Enrol(db, userId, groupId, ms, now, http1, http2))
  }

  /**
   * A new member is appended once to the stored list when the first write
   * succeeds, and the group is untouched when it fails; no other field of
   * the group changes either way, the list stays free of duplicates, and the
   * user's list references the group when the second write succeeds.
   */
  lemma AddedMemberIsListed(db: Store.Db, groupId: string, userId: string, now: int, http1: int, http2: int, name: string)
    requires GetGroup(db, groupId).Some?
    requires !InArray(Str(userId), Members(GetGroup(db, groupId).value))
    requires name != "members"
    ensures var db' := AddMember(db, groupId, userId, now, http1, http2).1;
      var ms := Members(GetGroup(db, groupId).value);
      var g := Arr(Store.Stored(db', GroupPath(groupId)));
      && (Codec.WriteSucceeded(http1) ==> Field(g, "members") == Arr(Push(ms, Str(userId))))
      && (!Codec.WriteSucceeded(http1) ==> Store.Stored(db', GroupPath(groupId)) == Store.Stored(db, GroupPath(groupId)))
      && InArray(Str(userId), Push(ms, Str(userId)))
      && (NoDuplicates(ms) ==> NoDuplicates(Push(ms, Str(userId))))
      && Field(g, name) == Field(Arr(Store.Stored(db, GroupPath(groupId))), name)
      && (Codec.WriteSucceeded(http2) ==>
            Field(Arr(Store.Stored(db', UserGroupPath(userId, groupId))), "joined_at") == Int(now * 1000))
  {
    var ms := Members(GetGroup(db, groupId).value);
    assert AddMember(db, groupId, userId, now, http1, http2).1 == Enrol(db, userId, groupId, ms, now, http1, http2);
    JoinWrites(db, userId, groupId, ms, now, http1, http2);
    JoinKeeps(db, userId, groupId, ms, now, http1, http2, name);
    PushedIsMember(ms, Str(userId));
    if NoDuplicates(ms) {
      AppendKeepsNoDuplicates(ms, Str(userId));
    }
  }

  /** The writes of a join leave every other field of the group as it was, whether or not they succeed. */
  lemma JoinKeeps(db: Store.Db, userId: string, groupId: string, ms: Entries, now: int, http1: int, http2: int, name: string)
    requires name != "members"
    ensures var db' := Enrol(db, userId, groupId, ms, now, http1, http2);
      Field(Arr(Store.Stored(db', GroupPath(groupId))), name) == Field(Arr(Store.Stored(db, GroupPath(groupId))), name)
  {
    StoredAfterJoin(db, userId, groupId, ms, now, http1, http2);
    if Codec.WriteSucceeded(http1) {
      MergeKeepsOne(Store.Stored(db, GroupPath(groupId)), "members", Arr(Push(ms, Str(userId))), name);
    }
  }

  /** The group document after a join: merged with the new list when the first write succeeds, as before otherwise. */
  lemma StoredAfterJoin(db: Store.Db, userId: string, groupId: string, ms: Entries, now: int, http1: int, http2: int)
    ensures Store.Stored(Enrol(db, userId, groupId, ms, now, http1, http2), GroupPath(groupId))
        == if Codec.WriteSucceeded(http1)
           then SetAll(Store.Stored(db, GroupPath(groupId)), Record([("members", Arr(Push(ms, Str(userId))))]))
           else Store.Stored(db, GroupPath(groupId))
  {
    PathsDiffer(groupId, userId, groupId);
  }

  /**
   * `removeMember`: drop every member identical to the user (strict `!==`),
   * renumber the rest, and delete the user's reference; false when there is
   * no such group. `http1` and `http2` are the statuses of the update and
   * the delete, which the answer ignores.
   */
  function RemoveMember(db: Store.Db, groupId: string, userId: string, http1: int, http2: int): (r: (bool, Store.Db))
    ensures r.0 <==> GetGroup(db, groupId).Some?
    ensures !r.0 ==> r.1 == db
  {
    match GetGroup(db, groupId)
    case None => (false, db)
    case Some(g) => (true, Unenrol(db, userId, groupId, Others(Values(Members(g)), userId), http1, http2))
  }

  /** The two writes of a removal: the kept members, renumbered, then the deletion of the user's reference. */
  function Unenrol(db: Store.Db, userId: string, groupId: string, kept: seq<Value>, http1: int, http2: int): Store.Db {
    MembersRecordNotEmpty(ListOf(kept));
    var db1 := Store.Update(db, GroupPath(groupId), MembersRecord(ListOf(kept)), http1).1;
    Store.Delete(db1, UserGroupPath(userId, groupId), http2).1
  }

  /**
   * After a successful update the stored list is the other members in
   * order, numbered from 0, with the user gone, and after a failed one the
   * group is as it was; no other field changes. The user's reference is
   * deleted when the delete succeeds and kept when it fails.
   */
  lemma RemovedMemberIsGone(db: Store.Db, groupId: string, userId: string, http1: int, http2: int, name: string)
    requires GetGroup(db, groupId).Some?
    requires name != "members"
    ensures var db' := RemoveMember(db, groupId, userId, http1, http2).1;
      var vs := Values(Members(GetGroup(db, groupId).value));
      var g := Arr(Store.Stored(db', GroupPath(groupId)));
      && (Codec.WriteSucceeded(http1) ==> Field(g, "members") == Arr(ListOf(Others(vs, userId))))
      && (!Codec.WriteSucceeded(http1) ==> Store.Stored(db', GroupPath(groupId)) == Store.Stored(db, GroupPath(groupId)))
      && Field(g, name) == Field(Arr(Store.Stored(db, GroupPath(groupId))), name)
      && (Codec.WriteSucceeded(http2) ==> Store.Stored(db', UserGroupPath(userId, groupId)) == [])
      && (!Codec.WriteSucceeded(http2) ==>
            Store.Stored(db', UserGroupPath(userId, groupId)) == Store.Stored(db, UserGroupPath(userId, groupId)))
  {
    var vs := Values(Members(GetGroup(db, groupId).value));
    assert RemoveMember(db, groupId, userId, http1, http2).1 == Unenrol(db, userId, groupId, Others(vs, userId), http1, http2);
    RemoveWrites(db, userId, groupId, Others(vs, userId), http1, http2, name);
  }

  /** The effect of the two writes of a removal, each taking effect when its status is a success. */
  lemma RemoveWrites(db: Store.Db, userId: string, groupId: string, kept: seq<Value>, http1: int, http2: int, name: string)
    requires name != "members"
    ensures var db' := Unenrol(db, userId, groupId, kept, http1, http2);
      var g := Arr(Store.Stored(db', GroupPath(groupId)));
      && (Codec.WriteSucceeded(http1) ==> Field(g, "members") == Arr(ListOf(kept)))
      && (!Codec.WriteSucceeded(http1) ==> Store.Stored(db', GroupPath(groupId)) == Store.Stored(db, GroupPath(groupId)))
      && Field(g, name) == Field(Arr(Store.Stored(db, GroupPath(groupId))), name)
      && (Codec.WriteSucceeded(http2) ==> Store.Stored(db', UserGroupPath(userId, groupId)) == [])
      && (!Codec.WriteSucceeded(http2) ==>
            Store.Stored(db', UserGroupPath(userId, groupId)) == Store.Stored(db, UserGroupPath(userId, groupId)))
  {
    var fs := [("members", Arr(ListOf(kept)))];
    PathsDiffer(groupId, userId, groupId);
    if Codec.WriteSucceeded(http1) {
      MergeRecord(Store.Stored(db, GroupPath(groupId)), fs, 0);
      MergeKeeps(Store.Stored(db, GroupPath(groupId)), fs, name);
    }
  }

  /** The members kept: the user is gone, everyone else keeps their count, and they are numbered 0, 1, ... */
  lemma KeptMembers(vs: seq<Value>, userId: string)
    ensures Str(userId) !in Others(vs, userId)
    ensures forall v :: v != Str(userId) ==> multiset(Others(vs, userId))[v] == multiset(vs)[v]
    ensures Others(vs, userId) != [] ==> KeysAreRange(ListOf(Others(vs, userId)))
  {
    assert Str(userId) !in multiset(Others(vs, userId));
    KeysAreRangeIsList(ListOf(Others(vs, userId)));
  }

  // ---------------------------------------------------------------- codes

  /** `getGroupByCode`: the first listed group whose code is the upper-cased input, with its id. */
  function GetGroupByCode(db: Store.Db, code: string): Option<Value> {
    FindByCode(Store.Read(db, "groups"), "group_code", code)
  }

  /** A group found by code carries that code, upper-cased, and its id; none is found in an empty store. */
  lemma GroupByCodeFound(db: Store.Db, code: string)
    ensures Store.Read(db, "groups").None? ==> GetGroupByCode(db, code).None?
    ensures GetGroupByCode(db, code).Some? ==>
      var g := GetGroupByCode(db, code).value;
      g.Arr? && Field(g, "group_code") == Str(Upper(code)) && Isset(g, "id")
  {
    if GetGroupByCode(db, code).Some? {
      FoundHasCode(Store.Read(db, "groups"), "group_code", code);
    }
  }

  // ----------------------------------------------------------------- join

  const NotFound: string := "Kode grup tidak ditemukan"
  const AlreadyMember: string := "Anda sudah menjadi anggota grup ini"
  const Joined: string := "Berhasil bergabung ke grup"

  /**
   * `joinGroup`: find the group by code, refuse an existing member,
   * otherwise append the user and reference the group from the user's list.
   * The reply's data is the group found, before the append; `http1` and
   * `http2` are the statuses of the two writes, which the reply ignores.
   */
  function JoinGroup(db: Store.Db, userId: string, code: string, now: int, http1: int, http2: int): (r: (Reply, Store.Db))
    ensures r.0.success <==> r.0.message == Joined
    ensures !r.0.success ==> r.1 == db && r.0.data.None?
  {
    match GetGroupByCode(db, code)
    case None => (Reply(false, NotFound, None), db)
    case Some(g) =>
      var groupId := AsString(Field(g, "id"));
      var ms := Members(g);
      if InArray(Str(userId), ms) then (Reply(false, AlreadyMember, None), db)
      else (Reply(true, Joined, Some(g)), Enrol(db, userId, groupId, ms, now, http1, http2))
  }

  /** Which of the three answers `joinGroup` gives; the write statuses do not change it. */
  lemma JoinGroupOutcome(db: Store.Db, userId: string, code: string, now: int, http1: int, http2: int)
    ensures var r := JoinGroup(db, userId, code, now, http1, http2).0;
      && (GetGroupByCode(db, code).None? <==> r.message == NotFound)
      && (r.message == AlreadyMember <==>
            GetGroupByCode(db, code).Some? && InArray(Str(userId), Members(GetGroupByCode(db, code).value)))
      && (r.success <==>
            GetGroupByCode(db, code).Some? && !InArray(Str(userId), Members(GetGroupByCode(db, code).value)))
      && (r.success ==> r.data == GetGroupByCode(db, code))
  {
  }

  /**
   * A successful join appends the user to the group's stored members when
   * the first write succeeds, and references the group from the user when
   * the second one does.
   */
  lemma JoinedMemberIsListed(db: Store.Db, userId: string, code: string, now: int, http1: int, http2: int)
    requires JoinGroup(db, userId, code, now, http1, http2).0.success
    ensures var g := GetGroupByCode(db, code).value;
      var groupId := AsString(Field(g, "id"));
      var db' := JoinGroup(db, userId, code, now, http1, http2).1;
      && (Codec.WriteSucceeded(http1) ==>
            Field(Arr(Store.Stored(db', GroupPath(groupId))), "members") == Arr(Push(Members(g), Str(userId))))
      && InArray(Str(userId), Push(Members(g), Str(userId)))
      && (Codec.WriteSucceeded(http2) ==>
            Field(Arr(Store.Stored(db', UserGroupPath(userId, groupId))), "joined_at") == Int(now * 1000))
  {
    var g := GetGroupByCode(db, code).value;
    var groupId := AsString(Field(g, "id"));
    var ms := Members(g);
    JoinSucceeded(db, userId, code, now, http1, http2);
    JoinWrites(db, userId, groupId, ms, now, http1, http2);
    PushedIsMember(ms, Str(userId));
  }

  /** A successful join found the group and made its two writes. */
  lemma JoinSucceeded(db: Store.Db, userId: string, code: string, now: int, http1: int, http2: int)
    requires JoinGroup(db, userId, code, now, http1, http2).0.success
    ensures GetGroupByCode(db, code).Some?
    ensures var g := GetGroupByCode(db, code).value;
      var groupId := AsString(Field(g, "id"));
      JoinGroup(db, userId, code, now, http1, http2).1 == Enrol(db, userId, groupId, Members(g), now, http1, http2)
  {
    JoinGroupOutcome(db, userId, code, now, http1, http2);
    var g := GetGroupByCode(db, code).value;
    assert !InArray(Str(userId), Members(g));
  }

  /**
   * The two writes of a join, each taking effect when its status is a
   * success: the extended member list, then the user's reference. A failed
   * first write leaves the group as it was.
   */
  lemma JoinWrites(db: Store.Db, userId: string, groupId: string, ms: Entries, now: int, http1: int, http2: int)
    ensures var db' := Enrol(db, userId, groupId, ms, now, http1, http2);
      && (Codec.WriteSucceeded(http1) ==>
            Field(Arr(Store.Stored(db', GroupPath(groupId))), "members") == Arr(Push(ms, Str(userId))))
      && (!Codec.WriteSucceeded(http1) ==> Store.Stored(db', GroupPath(groupId)) == Store.Stored(db, GroupPath(groupId)))
      && (Codec.WriteSucceeded(http2) ==>
            Field(Arr(Store.Stored(db', UserGroupPath(userId, groupId))), "joined_at") == Int(now * 1000))
  {
    MembersRecordNotEmpty(Push(ms, Str(userId)));
    var db1 := Store.Update(db, GroupPath(groupId), MembersRecord(Push(ms, Str(userId))), http1).1;
    StoredAfterJoin(db, userId, groupId, ms, now, http1, http2);
    if Codec.WriteSucceeded(http1) {
      MergeRecord(Store.Stored(db, GroupPath(groupId)), [("members", Arr(Push(ms, Str(userId))))], 0);
    }
    if Codec.WriteSucceeded(http2) {
      MergeRecord(Store.Stored(db1, UserGroupPath(userId, groupId)), [("joined_at", Int(now * 1000))], 0);
    }
  }
}
