/** What consolidating, assigning and removing roles preserves. */
module RoleTheorems {
  import opened Wrappers
  import opened JsonText
  import opened Roles

  // ---- What consolidation keeps ----

  predicate DistinctKeys(roles: seq<Role>) {
    forall i, j | 0 <= i < j < |roles| :: RoleKey(roles[i]) != RoleKey(roles[j])
  }

  // Nothing invented, nothing lost, no key twice.
  lemma {:induction false} ConsolidatedKeys(roles: seq<Role>)
    ensures forall r | r in Consolidated(roles) :: r in roles
    ensures Keys(Consolidated(roles)) == Keys(roles)
    ensures DistinctKeys(Consolidated(roles))
  {
    hide RoleKey, Keys;
    if roles == [] {
    } else {
      var init, last := roles[..|roles| - 1], roles[|roles| - 1];
      ConsolidatedKeys(init);
      assert roles == init + [last];
      KeysAppend(init, last);
      KeysAppend(Consolidated(init), last);
      if RoleKey(last) !in Keys(init) {
        DistinctAppend(Consolidated(init), last);
      }
    }
  }

  lemma DistinctAppend(roles: seq<Role>, r: Role)
    requires DistinctKeys(roles) && RoleKey(r) !in Keys(roles)
    ensures DistinctKeys(roles + [r])
  {
    forall i | 0 <= i < |roles| ensures RoleKey(roles[i]) in Keys(roles) {
      assert roles[i] in roles;
    }
    hide RoleKey, Keys;
  }

  // The first role of each name and spelled scope, said without any text key.
  function Firsts(roles: seq<Role>): seq<Role> {
    if roles == [] then []
    else
      var init, last := roles[..|roles| - 1], roles[|roles| - 1];
      if exists r | r in init :: r.name == last.name && r.scope == last.scope then Firsts(init)
      else Firsts(init) + [last]
  }

  lemma {:induction false} ConsolidatedIsFirsts(roles: seq<Role>)
    requires DashFree(roles)
    ensures Consolidated(roles) == Firsts(roles)
  {
    if roles != [] {
      var init, last := roles[..|roles| - 1], roles[|roles| - 1];
      assert last in roles;
      ConsolidatedIsFirsts(init);
      forall r | r in init ensures RoleKey(r) == RoleKey(last) <==> r.name == last.name && r.scope == last.scope {
        RoleKeyInjective(r, last);
      }
      hide RoleKey;
    }
  }

  // ---- The duplicate check after consolidation ----

  predicate Respelled(r: Role, s: Role) {
    SameRole(r, s) && r.scope != s.scope
  }

  // It fires exactly when two roles name the same scope in different spellings.
  lemma {:induction false} DuplicatesAfterConsolidation(roles: seq<Role>)
    requires DashFree(roles)
    ensures HasDuplicates(Consolidated(roles)) <==> exists r, s :: r in roles && s in roles && Respelled(r, s)
  {
    var kept := Consolidated(roles);
    if HasDuplicates(kept) {
      var i, j :| 0 <= i < j < |kept| && SameRole(kept[i], kept[j]);
      hide SameScope, Consolidated;
      KeptDiffer(roles, i, j);
      assert Respelled(kept[i], kept[j]);
    } else if r, s :| r in roles && s in roles && Respelled(r, s) {
      hide SameScope, Consolidated;
      RespelledStays(roles, r, s);
    }
  }

  lemma RespelledStays(roles: seq<Role>, r: Role, s: Role)
    requires DashFree(roles) && r in roles && s in roles && Respelled(r, s)
    ensures HasDuplicates(Consolidated(roles))
  {
    var kept := Consolidated(roles);
    var i := KeptAs(roles, r);
    var j := KeptAs(roles, s);
    SameScopeSymmetric(r.scope, s.scope);
    hide SameScope, Consolidated;
    assert if i < j then SameRole(kept[i], kept[j]) else SameRole(kept[j], kept[i]);
  }

  lemma KeptDiffer(roles: seq<Role>, i: nat, j: nat)
    requires DashFree(roles) && i < j < |Consolidated(roles)|
    requires SameRole(Consolidated(roles)[i], Consolidated(roles)[j])
    ensures Consolidated(roles)[i] in roles && Consolidated(roles)[j] in roles
    ensures Consolidated(roles)[i].scope != Consolidated(roles)[j].scope
  {
    ConsolidatedKeys(roles);
    var r, s := Consolidated(roles)[i], Consolidated(roles)[j];
    assert r in Consolidated(roles) && s in Consolidated(roles);
    hide Consolidated, SameScope, RoleKey, Keys;
    RoleKeyInjective(r, s);
  }

  lemma KeptAs(roles: seq<Role>, r: Role) returns (i: nat)
    requires DashFree(roles) && r in roles
    ensures i < |Consolidated(roles)| && Consolidated(roles)[i] in roles
    ensures Consolidated(roles)[i].name == r.name && Consolidated(roles)[i].scope == r.scope
  {
    ConsolidatedKeys(roles);
    assert RoleKey(r) in Keys(roles);
    var s :| s in Consolidated(roles) && RoleKey(s) == RoleKey(r);
    hide Consolidated, RoleKey, Keys;
    RoleKeyInjective(s, r);
    i :| 0 <= i < |Consolidated(roles)| && Consolidated(roles)[i] == s;
  }

  lemma SameScopeSymmetric(a: Scope, b: Scope)
    ensures SameScope(a, b) <==> SameScope(b, a)
  {
  }

  // With the spelling the code itself uses, it never fires.
  lemma {:induction false} CanonicalNeverDuplicates(roles: seq<Role>)
    requires DashFree(roles) && forall r | r in roles :: Canonical(r.scope)
    ensures !HasDuplicates(Consolidated(roles))
  {
    DuplicatesAfterConsolidation(roles);
    forall r, s | r in roles && s in roles ensures !Respelled(r, s) { CanonicalSpellsScope(r.scope, s.scope); }
  }

  // Another spelling of a scope slips past the text key and is caught by the pairwise check.
  lemma {:induction false} RespelledScopeIsDuplicate(name: string, id: string)
    requires 0 < |name| <= ROLE_NAME_MAX_LENGTH && forall c | c in name :: NameChar(c)
    ensures var a := Role(name, "space", [], SpaceScope(id));
      var b := Role(name, "space", [], [("spaceId", id), ("type", "space")]);
      AllValid([a, b]) && Consolidated([a, b]) == [a, b] && HasDuplicates([a, b])
  {
    var a := Role(name, "space", [], SpaceScope(id));
    var b := Role(name, "space", [], [("spaceId", id), ("type", "space")]);
    SpaceBothWays(id);
    assert a.scope[0] != b.scope[0];
    hide ScopeType, Property, Stringify, Consolidated, Keys;
    assert SameRole(a, b) && ValidScope(a.scope) && ValidScope(b.scope);
    ValidSpaceRole(a);
    ValidSpaceRole(b);
    ValidIsDashFree([a]);
    hide ValidateRole, ValidScope, SameScope, RoleKey;
    RoleKeyInjective(a, b);
    ConsolidatedPair(a, b);
    assert SameRole([a, b][0], [a, b][1]);
  }

  lemma ValidSpaceRole(r: Role)
    requires ValidScope(r.scope) && r.resourceType == "space" && r.permissions == []
    requires 0 < |r.name| <= ROLE_NAME_MAX_LENGTH && forall c | c in r.name :: NameChar(c)
    ensures ValidateRole(r).Ok?
  {
  }

  lemma SpaceBothWays(id: string)
    ensures var a := SpaceScope(id);
      ScopeType(a) == Some("space") && Property(a, "spaceId") == Some(id)
    ensures var b := [("spaceId", id), ("type", "space")];
      ScopeType(b) == Some("space") && Property(b, "spaceId") == Some(id)
  {
    assert |"type"| != |"spaceId"|;
    PropertyOfTwo(("type", "space"), ("spaceId", id), "type");
    PropertyOfTwo(("type", "space"), ("spaceId", id), "spaceId");
    PropertyOfTwo(("spaceId", id), ("type", "space"), "type");
    PropertyOfTwo(("spaceId", id), ("type", "space"), "spaceId");
  }

  lemma ConsolidatedPair(a: Role, b: Role)
    requires RoleKey(a) != RoleKey(b)
    ensures Consolidated([a, b]) == [a, b]
  {
    assert Keys([]) == {} && Keys([a]) == {RoleKey(a)};
    hide RoleKey, Keys;
    assert [a, b][..1] == [a] && [a][..0] == [];
    assert [] + [a] == [a] && [a] + [b] == [a, b];
    assert Consolidated([a]) == [a];
  }

  // ---- Permissions ----

  ghost predicate NameDeterminesPermissions(roles: seq<Role>) {
    forall r, s | r in roles && s in roles && r.name == s.name :: r.permissions == s.permissions
  }

  // Consolidating changes no answer to any permission question.
  lemma {:induction false} PermissionsPreserved(roles: seq<Role>, requested: Scope, permission: string)
    requires DashFree(roles) && NameDeterminesPermissions(roles)
    ensures HasPermission(Consolidated(roles), requested, permission) <==> HasPermission(roles, requested, permission)
  {
    ConsolidatedKeys(roles);
    hide Consolidated, DistinctKeys, Keys, ScopeMatches;
    if HasPermission(roles, requested, permission) {
      var r :| r in roles && permission in r.permissions && ScopeMatches(r.scope, requested);
      var i := KeptAs(roles, r);
      assert Consolidated(roles)[i] in Consolidated(roles);
    }
  }

  // ---- Assigning and then removing ----

  lemma {:induction false} FirstErrorMeaning(roles: seq<Role>)
    ensures FirstRoleError(roles).None? <==> AllValid(roles)
  {
    if roles != [] {
      FirstErrorMeaning(roles[1..]);
      assert roles == [roles[0]] + roles[1..];
    }
  }

  lemma {:induction false} NothingToConsolidate(roles: seq<Role>)
    requires AllValid(roles) && !HasDuplicates(roles)
    ensures Consolidated(roles) == roles
  {
    ValidIsDashFree(roles);
    if roles != [] {
      var n := |roles| - 1;
      var init, last := roles[..n], roles[n];
      assert roles == init + [last];
      NothingToConsolidate(init);
      assert last in roles;
      forall r | r in init ensures RoleKey(r) != RoleKey(last) {
        var i :| 0 <= i < n && roles[i] == r;
        RoleKeyInjective(r, last);
        assert !SameRole(roles[i], roles[n]);
      }
      hide RoleKey, SameRole, ValidateRole;
    }
  }

  // Assigning appends: the old roles stay, and everything added comes from the assigned roles.
  lemma {:induction false} ConsolidatedAppend(old_: seq<Role>, added: seq<Role>) returns (extra: seq<Role>)
    ensures Consolidated(old_ + added) == Consolidated(old_) + extra
    ensures forall r | r in extra :: r in added
  {
    hide RoleKey, Keys;
    if added == [] {
      assert old_ + added == old_;
      extra := [];
    } else {
      var init, last := added[..|added| - 1], added[|added| - 1];
      var before := ConsolidatedAppend(old_, init);
      var all := old_ + added;
      assert all[..|all| - 1] == old_ + init && all[|all| - 1] == last;
      extra := if RoleKey(last) in Keys(old_ + init) then before else before + [last];
      assert Consolidated(old_) + before + [last] == Consolidated(old_) + (before + [last]);
      assert added == init + [last];
    }
  }

  lemma {:induction false} WithoutAppend(a: seq<Role>, b: seq<Role>, removed: seq<Role>)
    ensures Without(a + b, removed) == Without(a, removed) + Without(b, removed)
  {
    hide SameRole;
    if a == [] {
      assert a + b == b;
    } else {
      assert (a + b)[1..] == a[1..] + b;
      WithoutAppend(a[1..], b, removed);
    }
  }

  lemma {:induction false} WithoutAll(extra: seq<Role>, removed: seq<Role>)
    requires AllValid(extra) && forall r | r in extra :: r in removed
    ensures Without(extra, removed) == []
  {
    if extra != [] {
      assert extra[0] in extra && SameRole(extra[0], extra[0]);
      WithoutAll(extra[1..], removed);
    }
  }

  // Taking away what was assigned is the same as taking it away without ever having assigned it.
  lemma AssignThenRemove(checkProfile: Profile -> Option<string>, u: User, roles: seq<Role>)
    requires CreateUser(checkProfile, u).Ok? && AssignRoles(checkProfile, u, roles).Ok?
    ensures RemoveRoles(checkProfile, AssignRoles(checkProfile, u, roles).value, roles)
      == RemoveRoles(checkProfile, u, roles)
  {
    FirstErrorMeaning(u.roles);
    NothingToConsolidate(u.roles);
    var extra := ConsolidatedAppend(u.roles, roles);
    FirstErrorMeaning(u.roles + extra);
    forall r | r in extra ensures r in u.roles + extra { }
    WithoutAppend(u.roles, extra, roles);
    WithoutAll(extra, roles);
    assert Without(u.roles, roles) + [] == Without(u.roles, roles);
  }

  // A valid user keeps every role through an assignment, and gains exactly the assigned ones not held yet.
  lemma {:induction false} AssignKeepsAndAdds(checkProfile: Profile -> Option<string>, u: User, roles: seq<Role>)
    requires CreateUser(checkProfile, u).Ok? && AssignRoles(checkProfile, u, roles).Ok?
    ensures var after := AssignRoles(checkProfile, u, roles).value.roles;
      && u.roles <= after
      && !HasDuplicates(after)
      && |after| <= MAX_ROLES_PER_ENTITY
      && (forall r | r in after :: r in u.roles || r in roles)
      && Keys(after) == Keys(u.roles + roles)
  {
    FirstErrorMeaning(u.roles);
    NothingToConsolidate(u.roles);
    var extra := ConsolidatedAppend(u.roles, roles);
    ConsolidatedKeys(u.roles + roles);
    hide Consolidated, Keys, DistinctKeys, HasDuplicates, AllValid;
  }

  // ---- What a role lets its holder do ----

  predicate CanonicalRoles(roles: seq<Role>) {
    forall r | r in roles :: Canonical(r.scope)
  }

  lemma CanonicalMatches(held: Scope, requested: Scope)
    requires Canonical(held) && Canonical(requested)
    ensures ScopeMatches(held, requested) <==> held == OrgScope() || held == requested
  {
    CanonicalSpellsScope(held, requested);
    assert ScopeType(OrgScope()) == Some("org");
    if held != OrgScope() { CanonicalProperties(held); }
    hide Property;
  }

  // A permission on one resource comes from a role of the organization or of that very resource, and from no other.
  lemma PermissionExactly(roles: seq<Role>, requested: Scope, permission: string)
    requires CanonicalRoles(roles) && Canonical(requested)
    ensures HasPermission(roles, requested, permission) <==>
      exists r | r in roles :: permission in r.permissions && (r.scope == OrgScope() || r.scope == requested)
  {
    forall r | r in roles ensures ScopeMatches(r.scope, requested) <==> r.scope == OrgScope() || r.scope == requested {
      CanonicalMatches(r.scope, requested);
    }
    hide ScopeMatches;
  }

  // A role on another group, space or template, or of another kind, gives no permission.
  lemma PermissionOnResource(roles: seq<Role>, id: string, permission: string)
    requires CanonicalRoles(roles)
    ensures HasPermission(roles, GroupScope(id), permission) <==>
      exists r | r in roles :: permission in r.permissions && (r.scope == OrgScope() || r.scope == GroupScope(id))
    ensures HasPermission(roles, SpaceScope(id), permission) <==>
      exists r | r in roles :: permission in r.permissions && (r.scope == OrgScope() || r.scope == SpaceScope(id))
    ensures HasPermission(roles, TemplateScope(id), permission) <==>
      exists r | r in roles :: permission in r.permissions && (r.scope == OrgScope() || r.scope == TemplateScope(id))
  {
    ResourceScopesAreCanonical(id);
    hide Canonical, HasPermission, GroupScope, SpaceScope, TemplateScope;
    PermissionExactly(roles, GroupScope(id), permission);
    PermissionExactly(roles, SpaceScope(id), permission);
    PermissionExactly(roles, TemplateScope(id), permission);
  }

  lemma ResourceScopesAreCanonical(id: string)
    ensures Canonical(GroupScope(id)) && Canonical(SpaceScope(id)) && Canonical(TemplateScope(id))
  {
  }

  // Which scopes are valid, and which two of them are one: by type, and by the identifier that goes with the type.
  lemma ScopesExactly(a: Scope, b: Scope)
    ensures ValidScope(a) <==>
      || ScopeType(a) == Some("org")
      || (ScopeType(a) == Some("space") && Property(a, "spaceId").Some?)
      || (ScopeType(a) == Some("group") && Property(a, "groupId").Some?)
      || (ScopeType(a) == Some("workflow_template") && Property(a, "templateName").Some?)
    ensures SameScope(a, b) <==>
      && ScopeType(a) == ScopeType(b)
      && (|| ScopeType(a) == Some("org")
          || (ScopeType(a) == Some("space") && Property(a, "spaceId") == Property(b, "spaceId"))
          || (ScopeType(a) == Some("group") && Property(a, "groupId") == Property(b, "groupId"))
          || (ScopeType(a) == Some("workflow_template") && Property(a, "templateName") == Property(b, "templateName")))
  {
    hide Property;
  }

  // ---- Removing ----

  // Exactly the roles named, with exactly their scope, are taken away; every other role stays as often as it was there.
  lemma WithoutExactly(roles: seq<Role>, removed: seq<Role>, r: Role)
    ensures multiset(Without(roles, removed))[r] ==
      if exists s | s in removed :: r.name == s.name && SameScope(r.scope, s.scope) then 0 else multiset(roles)[r]
  {
    WithoutCount(roles, removed, r);
    assert (exists s | s in removed :: SameRole(r, s))
      <==> exists s | s in removed :: r.name == s.name && SameScope(r.scope, s.scope);
    hide SameScope, Without;
  }

  lemma {:induction false} WithoutCount(roles: seq<Role>, removed: seq<Role>, r: Role)
    ensures multiset(Without(roles, removed))[r] ==
      if exists s | s in removed :: SameRole(r, s) then 0 else multiset(roles)[r]
  {
    hide SameRole;
    if roles != [] {
      var first, rest := roles[0], roles[1..];
      WithoutCount(rest, removed, r);
      var kept := if exists s | s in removed :: SameRole(first, s) then [] else [first];
      assert Without(roles, removed) == kept + Without(rest, removed);
      hide Without;
      CountFirst(first, rest, r);
      CountFirst(first, Without(rest, removed), r);
      assert roles == [first] + rest && [] + Without(rest, removed) == Without(rest, removed);
    }
  }

  lemma CountFirst(first: Role, rest: seq<Role>, r: Role)
    ensures multiset([first] + rest)[r] == multiset(rest)[r] + if r == first then 1 else 0
  {
  }

  lemma {:induction false} WithoutOnly(roles: seq<Role>, removed: seq<Role>)
    ensures forall r | r in Without(roles, removed) :: r in roles
    ensures HasDuplicates(Without(roles, removed)) ==> HasDuplicates(roles)
  {
    hide SameRole;
    if roles != [] {
      var rest := Without(roles[1..], removed);
      WithoutOnly(roles[1..], removed);
      if i, j :| 0 <= i < j < |roles[1..]| && SameRole(roles[1..][i], roles[1..][j]) {
        assert SameRole(roles[i + 1], roles[j + 1]);
      }
      if j :| 0 <= j < |rest| && SameRole(roles[0], rest[j]) {
        assert rest[j] in roles[1..];
        var k :| 0 <= k < |roles[1..]| && roles[1..][k] == rest[j];
        assert SameRole(roles[0], roles[k + 1]);
      }
    }
  }

  // A user is accepted exactly with a good profile and roles that are valid and pairwise different.
  lemma CreateUserExactly(checkProfile: Profile -> Option<string>, u: User)
    ensures CreateUser(checkProfile, u).Ok? <==>
      checkProfile(u.profile).None? && AllValid(u.roles) && !HasDuplicates(u.roles)
    ensures CreateUser(checkProfile, u).Ok? ==> CreateUser(checkProfile, u).value == u
  {
    FirstErrorMeaning(u.roles);
    hide AllValid, HasDuplicates;
  }

  // Roles can always be taken from a valid user; a user who is not valid with what is left is refused.
  lemma RemoveExactly(checkProfile: Profile -> Option<string>, u: User, removed: seq<Role>)
    ensures CreateUser(checkProfile, u).Ok? ==>
      RemoveRoles(checkProfile, u, removed) == Ok(User(u.profile, Without(u.roles, removed)))
    ensures RemoveRoles(checkProfile, u, removed).Ok? <==>
      && checkProfile(u.profile).None?
      && AllValid(Without(u.roles, removed)) && !HasDuplicates(Without(u.roles, removed))
  {
    WithoutOnly(u.roles, removed);
    hide HasDuplicates, Without, ValidateRole;
    CreateUserExactly(checkProfile, u);
    CreateUserExactly(checkProfile, User(u.profile, Without(u.roles, removed)));
  }

  // ---- Which assignments succeed ----

  // For a user and roles that are valid one by one: too many roles, or one scope in two spellings, and nothing else,
  // make an assignment fail.
  lemma AssignExactly(checkProfile: Profile -> Option<string>, u: User, roles: seq<Role>)
    requires checkProfile(u.profile).None? && AllValid(u.roles + roles)
    ensures var all := u.roles + roles;
      var kept := Consolidated(all);
      AssignRoles(checkProfile, u, roles) ==
      if |kept| > 128 then Err(TotalRolesExceedMaximum)
      else if exists r, s :: r in all && s in all && Respelled(r, s) then Err(DuplicateRoles)
      else Ok(User(u.profile, kept))
  {
    var all := u.roles + roles;
    ValidIsDashFree(all);
    ConsolidatedKeys(all);
    FirstErrorMeaning(Consolidated(all));
    DuplicatesAfterConsolidation(all);
    hide Consolidated, HasDuplicates, ValidateRole, Respelled, Keys;
  }

  // A role is accepted exactly with a scope that names its resource, a name of 1 to 100 letters, digits and
  // underscores, and permissions its kind of resource has.
  lemma ValidateRoleExactly(r: Role)
    ensures ValidateRole(r).Ok? <==>
      && ValidScope(r.scope)
      && 1 <= |r.name| <= 100
      && (forall c | c in r.name :: 'a' <= c <= 'z' || 'A' <= c <= 'Z' || '0' <= c <= '9' || c == '_')
      && r.resourceType in RESOURCE_PERMISSIONS
      && (forall p | p in r.permissions :: p in RESOURCE_PERMISSIONS[r.resourceType])
    ensures ValidateRole(r).Ok? ==> ValidateRole(r).value == r
  {
    hide ValidScope;
  }
}
