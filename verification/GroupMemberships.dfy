/** The members of a group, which never loses its last administrator. */
module GroupMemberships {
  import opened Wrappers
  import opened Votes
  import opened Roles
  import RoleTheorems

  datatype Entity = UserEntity(id: string, roles: seq<Role>) | AgentEntity(id: string)

  datatype Membership = Membership(entity: Entity, createdAt: int, updatedAt: int)

  datatype MembershipError = DuplicatedMembership | EntityAlreadyInGroup | NotFound | NoAdmin

  function RefOf(e: Entity): EntityRef {
    match e
    case UserEntity(id, _) => EntityRef(EntityType.User, id)
    case AgentEntity(id) => EntityRef(EntityType.Agent, id)
  }

  function KeyOf(m: Membership): string {
    NormalizedId(RefOf(m.entity))
  }

  // Only users administer groups; agents cannot.
  predicate IsAdmin(m: Membership, groupId: string) {
    m.entity.UserEntity? && HasPermission(m.entity.roles, GroupScope(groupId), "manage")
  }

  type Members = map<string, Membership>

  predicate Keyed(ms: Members) {
    forall k | k in ms :: k == KeyOf(ms[k])
  }

  predicate HasAdmin(ms: Members, groupId: string) {
    exists k | k in ms :: IsAdmin(ms[k], groupId)
  }

  // ---- What the operations do to the members ----

  function Added(ms: Members, m: Membership): Members {
    if KeyOf(m) in ms then ms else ms[KeyOf(m) := m]
  }

  // The traversal adds whatever it can, even after it has met a member it cannot add.
  function AllAdded(ms: Members, list: seq<Membership>): Members {
    if list == [] then ms else Added(AllAdded(ms, list[..|list| - 1]), list[|list| - 1])
  }

  predicate Refuses(ms: Members, groupId: string, ref: EntityRef) {
    var k := NormalizedId(ref);
    k !in ms || (IsAdmin(ms[k], groupId) && !HasAdmin(ms - {k}, groupId))
  }

  function Removed(ms: Members, groupId: string, ref: EntityRef): Members {
    if Refuses(ms, groupId, ref) then ms else ms - {NormalizedId(ref)}
  }

  function KeysOf(list: seq<Membership>): set<string> {
    set m | m in list :: KeyOf(m)
  }

  predicate DistinctKeys(list: seq<Membership>) {
    forall i, j | 0 <= i < j < |list| :: KeyOf(list[i]) != KeyOf(list[j])
  }

  // Everybody can be added: the new members are different people and none is a member yet.
  predicate Addable(ms: Members, list: seq<Membership>) {
    DistinctKeys(list) && KeysOf(list) !! ms.Keys
  }

  lemma KeysOfAppend(list: seq<Membership>, m: Membership)
    ensures KeysOf(list + [m]) == KeysOf(list) + {KeyOf(m)}
  {
    hide KeyOf;
    forall x ensures x in list + [m] <==> x in list || x == m { }
  }

  lemma KeysOfEach(list: seq<Membership>, i: nat)
    requires i < |list|
    ensures KeyOf(list[i]) in KeysOf(list)
  {
    hide KeyOf;
    assert list[i] in list;
  }

  lemma DistinctNext(list: seq<Membership>, m: Membership)
    ensures DistinctKeys(list + [m]) <==> DistinctKeys(list) && KeyOf(m) !in KeysOf(list)
  {
    hide KeyOf;
    var b := list + [m];
    if DistinctKeys(b) {
      forall x | x in list ensures KeyOf(x) != KeyOf(m) {
        var i :| 0 <= i < |list| && list[i] == x;
        assert b[i] == x && b[|list|] == m;
      }
      forall i, j | 0 <= i < j < |list| ensures KeyOf(list[i]) != KeyOf(list[j]) {
        assert b[i] == list[i] && b[j] == list[j];
      }
    }
    if DistinctKeys(list) && KeyOf(m) !in KeysOf(list) {
      forall i, j | 0 <= i < j < |b| ensures KeyOf(b[i]) != KeyOf(b[j]) {
        KeysOfEach(list, i);
      }
    }
  }

  lemma AddableNext(ms: Members, list: seq<Membership>, n: nat)
    requires n < |list|
    ensures Addable(ms, list[..n + 1]) <==>
      Addable(ms, list[..n]) && KeyOf(list[n]) !in ms && KeyOf(list[n]) !in KeysOf(list[..n])
  {
    assert list[..n + 1] == list[..n] + [list[n]];
    DistinctNext(list[..n], list[n]);
    KeysOfAppend(list[..n], list[n]);
    hide KeyOf, KeysOf, DistinctKeys;
  }

  lemma {:induction false} AllAddedKeys(ms: Members, list: seq<Membership>)
    ensures AllAdded(ms, list).Keys == ms.Keys + KeysOf(list)
  {
    hide KeyOf;
    if list == [] {
      assert KeysOf(list) == {};
    } else {
      var init, last := list[..|list| - 1], list[|list| - 1];
      AllAddedKeys(ms, init);
      assert list == init + [last];
      KeysOfAppend(init, last);
      hide KeysOf;
    }
  }

  lemma {:induction false} AllAddedKeepsOld(ms: Members, list: seq<Membership>)
    ensures forall k | k in ms :: k in AllAdded(ms, list) && AllAdded(ms, list)[k] == ms[k]
  {
    hide KeyOf;
    if list != [] {
      AllAddedKeepsOld(ms, list[..|list| - 1]);
    }
  }

  predicate Holds(ms: Members, list: seq<Membership>) {
    forall m | m in list :: KeyOf(m) in ms && ms[KeyOf(m)] == m
  }

  lemma {:induction false} AllAddedHolds(ms: Members, list: seq<Membership>)
    requires Addable(ms, list)
    ensures Holds(AllAdded(ms, list), list)
    ensures |AllAdded(ms, list)| == |ms| + |list|
  {
    hide KeyOf;
    if list != [] {
      var n := |list| - 1;
      var init, last := list[..n], list[n];
      assert list[..n + 1] == list == init + [last];
      AddableNext(ms, list, n);
      AllAddedHolds(ms, init);
      AllAddedKeys(ms, init);
      forall i | 0 <= i < n { KeysOfEach(init, i); }
      hide KeysOf, DistinctKeys;
      AddedHolds(AllAdded(ms, init), init, last);
    }
  }

  lemma AddedHolds(ms: Members, list: seq<Membership>, m: Membership)
    requires Holds(ms, list) && KeyOf(m) !in ms
    ensures Holds(Added(ms, m), list + [m])
    ensures |Added(ms, m)| == |ms| + 1
  {
    hide KeyOf;
    forall x | x in list + [m] ensures KeyOf(x) in Added(ms, m) && Added(ms, m)[KeyOf(x)] == x {
      if x in list { assert KeyOf(x) in ms; }
    }
    assert Added(ms, m).Keys == ms.Keys + {KeyOf(m)};
    assert |Added(ms, m).Keys| == |ms.Keys| + 1;
  }

  // When everybody can be added, the outcome is the old members, the new members and nobody else.
  lemma {:induction false} AllAddedExactly(ms: Members, list: seq<Membership>)
    requires Addable(ms, list)
    ensures forall k | k in ms :: k in AllAdded(ms, list) && AllAdded(ms, list)[k] == ms[k]
    ensures forall m | m in list :: KeyOf(m) in AllAdded(ms, list) && AllAdded(ms, list)[KeyOf(m)] == m
    ensures AllAdded(ms, list).Keys == ms.Keys + KeysOf(list)
    ensures |AllAdded(ms, list)| == |ms| + |list|
  {
    AllAddedKeepsOld(ms, list);
    AllAddedHolds(ms, list);
    AllAddedKeys(ms, list);
    hide KeyOf, KeysOf, AllAdded;
  }

  // Each membership set under its key, one after the other.
  function Filed(list: seq<Membership>): Members {
    if list == [] then map[]
    else
      var last := list[|list| - 1];
      Filed(list[..|list| - 1])[KeyOf(last) := last]
  }

  predicate LastOfKey(list: seq<Membership>, i: nat)
    requires i < |list|
  {
    forall j | i < j < |list| :: KeyOf(list[j]) != KeyOf(list[i])
  }

  lemma {:induction false} FiledKeys(list: seq<Membership>)
    ensures Filed(list).Keys == KeysOf(list)
  {
    hide KeyOf;
    if list == [] {
      assert KeysOf(list) == {};
    } else {
      var init, last := list[..|list| - 1], list[|list| - 1];
      FiledKeys(init);
      assert list == init + [last];
      KeysOfAppend(init, last);
      hide KeysOf;
    }
  }

  lemma {:induction false} FiledLast(list: seq<Membership>)
    ensures forall i | 0 <= i < |list| && LastOfKey(list, i) ::
      KeyOf(list[i]) in Filed(list) && Filed(list)[KeyOf(list[i])] == list[i]
  {
    hide KeyOf;
    if list != [] {
      var n := |list| - 1;
      FiledLast(list[..n]);
      forall i | 0 <= i < n && LastOfKey(list, i)
        ensures KeyOf(list[i]) in Filed(list) && Filed(list)[KeyOf(list[i])] == list[i]
      {
        assert LastOfKey(list[..n], i);
        assert list[..n][i] == list[i];
      }
    }
  }

  lemma {:induction false} FiledDistinct(list: seq<Membership>)
    requires DistinctKeys(list)
    ensures Filed(list) == AllAdded(map[], list)
  {
    hide KeyOf;
    if list != [] {
      var init, last := list[..|list| - 1], list[|list| - 1];
      assert list == init + [last];
      DistinctNext(init, last);
      FiledDistinct(init);
      FiledKeys(init);
      hide KeysOf, DistinctKeys;
    }
  }

  class GroupManager {
    const groupId: string
    var memberships: Members

    // An entity that is given twice is filed once, as given last.
    constructor (groupId: string, list: seq<Membership>)
      ensures this.groupId == groupId
      ensures memberships.Keys == KeysOf(list)
      ensures forall i | 0 <= i < |list| && LastOfKey(list, i) :: memberships[KeyOf(list[i])] == list[i]
      ensures DistinctKeys(list) ==> memberships == AllAdded(map[], list)
    {
      this.groupId := groupId;
      var ms: Members := map[];
      hide KeyOf, KeysOf, DistinctKeys, LastOfKey;
      for i := 0 to |list|
        invariant ms == Filed(list[..i])
      {
        assert list[..i + 1][..i] == list[..i];
        ms := ms[KeyOf(list[i]) := list[i]];
      }
      assert list[..|list|] == list;
      FiledKeys(list);
      FiledLast(list);
      if DistinctKeys(list) { FiledDistinct(list); }
      memberships := ms;
    }

    static method CreateGroupManager(groupId: string, list: seq<Membership>)
      returns (r: Result<GroupManager, MembershipError>)
      ensures r.Ok? <==> DistinctKeys(list)
      ensures r.Ok? ==> fresh(r.value) && r.value.groupId == groupId && r.value.memberships == AllAdded(map[], list)
      ensures r.Err? ==> r.error == DuplicatedMembership
    {
      DistinctCount(list);
      var uniqueEntities := set m | m in list :: KeyOf(m);
      assert uniqueEntities == KeysOf(list);
      if |uniqueEntities| != |list| {
        return Err(DuplicatedMembership);
      }
      var manager := new GroupManager(groupId, list);
      r := Ok(manager);
    }

    method AddMembership(m: Membership) returns (r: Result<(), MembershipError>)
      modifies this
      ensures memberships == Added(old(memberships), m)
      ensures r == if KeyOf(m) in old(memberships) then Err(EntityAlreadyInGroup) else Ok(())
      ensures memberships == if r.Ok? then old(memberships)[KeyOf(m) := m] else old(memberships)
    {
      if KeyOf(m) in memberships {
        return Err(EntityAlreadyInGroup);
      }
      memberships := memberships[KeyOf(m) := m];
      r := Ok(());
    }

    method AddMemberships(list: seq<Membership>) returns (r: Result<(), MembershipError>)
      modifies this
      ensures memberships == AllAdded(old(memberships), list)
      ensures r == if Addable(old(memberships), list) then Ok(()) else Err(EntityAlreadyInGroup)
    {
      r := Ok(());
      for i := 0 to |list|
        invariant memberships == AllAdded(old(memberships), list[..i])
        invariant r == if Addable(old(memberships), list[..i]) then Ok(()) else Err(EntityAlreadyInGroup)
      {
        assert list[..i + 1][..i] == list[..i];
        AllAddedKeys(old(memberships), list[..i]);
        AddableNext(old(memberships), list, i);
        var added := AddMembership(list[i]);
        if r.Ok? {
          r := added;
        }
      }
      assert list[..|list|] == list;
    }

    method RemoveMembership(ref: EntityRef) returns (r: Result<(), MembershipError>)
      modifies this
      ensures memberships == Removed(old(memberships), groupId, ref)
      ensures r == if NormalizedId(ref) !in old(memberships) then Err(NotFound)
        else if Refuses(old(memberships), groupId, ref) then Err(NoAdmin)
        else Ok(())
      ensures memberships == if r.Ok? then old(memberships) - {NormalizedId(ref)} else old(memberships)
    {
      var k := NormalizedId(ref);
      if k !in memberships {
        return Err(NotFound);
      }
      if IsAdmin(memberships[k], groupId) && !HasAdmin(memberships - {k}, groupId) {
        return Err(NoAdmin);
      }
      memberships := memberships - {k};
      r := Ok(());
    }
  }

  lemma {:induction false} DistinctCount(list: seq<Membership>)
    ensures |KeysOf(list)| == |list| <==> DistinctKeys(list)
    ensures |KeysOf(list)| <= |list|
  {
    hide KeyOf;
    if list == [] {
      assert KeysOf(list) == {};
    } else {
      var init, last := list[..|list| - 1], list[|list| - 1];
      DistinctCount(init);
      assert list == init + [last];
      DistinctNext(init, last);
      KeysOfAppend(init, last);
      hide KeysOf, DistinctKeys;
    }
  }

  // ---- Over any sequence of operations ----

  datatype Op = Add(m: Membership) | AddMany(list: seq<Membership>) | Remove(ref: EntityRef)

  function Next(ms: Members, groupId: string, op: Op): Members {
    match op
    case Add(m) => Added(ms, m)
    case AddMany(list) => AllAdded(ms, list)
    case Remove(ref) => Removed(ms, groupId, ref)
  }

  function Run(ms: Members, groupId: string, ops: seq<Op>): Members {
    if ops == [] then ms else Next(Run(ms, groupId, ops[..|ops| - 1]), groupId, ops[|ops| - 1])
  }

  lemma {:induction false} AddingKeeps(ms: Members, groupId: string, list: seq<Membership>)
    ensures Keyed(ms) ==> Keyed(AllAdded(ms, list))
    ensures HasAdmin(ms, groupId) ==> HasAdmin(AllAdded(ms, list), groupId)
  {
    if list != [] {
      AddingKeeps(ms, groupId, list[..|list| - 1]);
      AddedKeeps(AllAdded(ms, list[..|list| - 1]), groupId, list[|list| - 1]);
    }
  }

  lemma AddedKeeps(ms: Members, groupId: string, m: Membership)
    ensures Keyed(ms) ==> Keyed(Added(ms, m))
    ensures HasAdmin(ms, groupId) ==> HasAdmin(Added(ms, m), groupId)
  {
    hide IsAdmin;
    if k :| k in ms && IsAdmin(ms[k], groupId) {
      assert k in Added(ms, m) && Added(ms, m)[k] == ms[k];
    }
  }

  lemma RemovedKeeps(ms: Members, groupId: string, ref: EntityRef)
    ensures Keyed(ms) ==> Keyed(Removed(ms, groupId, ref))
    ensures HasAdmin(ms, groupId) ==> HasAdmin(Removed(ms, groupId, ref), groupId)
  {
    hide IsAdmin;
    if k :| k in ms && IsAdmin(ms[k], groupId) {
      if k in Removed(ms, groupId, ref) { assert Removed(ms, groupId, ref)[k] == ms[k]; }
    }
  }

  // A group that was set up with an administrator has one after any additions and removals,
  // and every member stays filed under its own identifier.
  lemma {:induction false} AdminNeverLost(ms: Members, groupId: string, ops: seq<Op>)
    requires Keyed(ms) && HasAdmin(ms, groupId)
    ensures Keyed(Run(ms, groupId, ops)) && HasAdmin(Run(ms, groupId, ops), groupId)
  {
    if ops != [] {
      var before := Run(ms, groupId, ops[..|ops| - 1]);
      AdminNeverLost(ms, groupId, ops[..|ops| - 1]);
      match ops[|ops| - 1]
      case Add(m) => AddedKeeps(before, groupId, m);
      case AddMany(list) => AddingKeeps(before, groupId, list);
      case Remove(ref) => RemovedKeeps(before, groupId, ref);
    }
  }

  // A user who may manage the organization or this very group; managing another group does not count, and agents
  // never do.
  predicate Manages(m: Membership, groupId: string) {
    m.entity.UserEntity? && exists r | r in m.entity.roles ::
      "manage" in r.permissions && (r.scope == OrgScope() || r.scope == GroupScope(groupId))
  }

  predicate CanonicalMembers(ms: Members) {
    forall k | k in ms && ms[k].entity.UserEntity? :: RoleTheorems.CanonicalRoles(ms[k].entity.roles)
  }

  // With scopes as the code spells them, a member's removal is refused exactly if that member manages the group and no
  // other member does.
  lemma RefusedExactly(ms: Members, groupId: string, ref: EntityRef)
    requires NormalizedId(ref) in ms && CanonicalMembers(ms)
    ensures Refuses(ms, groupId, ref) <==>
      && Manages(ms[NormalizedId(ref)], groupId)
      && forall k | k in ms && k != NormalizedId(ref) :: !Manages(ms[k], groupId)
  {
    forall k | k in ms ensures IsAdmin(ms[k], groupId) <==> Manages(ms[k], groupId) {
      if ms[k].entity.UserEntity? { RoleTheorems.PermissionOnResource(ms[k].entity.roles, groupId, "manage"); }
    }
    hide IsAdmin, Manages;
    var rest := ms - {NormalizedId(ref)};
    forall k ensures k in rest <==> k in ms && k != NormalizedId(ref) { }
    forall k | k in rest ensures rest[k] == ms[k] { }
  }

  // A removal is refused for want of an administrator exactly when it would take the last one.
  lemma RefusedExactlyForLastAdmin(ms: Members, groupId: string, ref: EntityRef)
    requires NormalizedId(ref) in ms
    ensures Refuses(ms, groupId, ref) <==> HasAdmin(ms, groupId) && !HasAdmin(ms - {NormalizedId(ref)}, groupId)
  {
    hide IsAdmin;
    var k := NormalizedId(ref);
    if a :| a in ms && IsAdmin(ms[a], groupId) {
      if a != k { assert a in ms - {k} && (ms - {k})[a] == ms[a]; }
    }
  }
}
