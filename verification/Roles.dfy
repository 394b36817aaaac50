/** Roles bound to scopes, the permissions they give, and the set of roles of a user. */
module Roles {
  import opened Wrappers
  import opened JsonText

  // A scope as it arrives: a JSON object with string values, in whatever order and with whatever extra properties.
  type Scope = Props

  datatype Role = Role(name: string, resourceType: string, permissions: seq<string>, scope: Scope)

  datatype RoleError = NameEmpty | NameTooLong | NameInvalidCharacters | PermissionInvalid | InvalidScope

  const ROLE_NAME_MAX_LENGTH := 100
  const MAX_ROLES_PER_ENTITY := 128

  const RESOURCE_PERMISSIONS: map<string, seq<string>> := map[
    "group" := ["read", "write", "manage"],
    "space" := ["read", "manage"],
    "workflow_template" :=
      ["read", "write", "instantiate", "vote", "workflow_read", "workflow_list", "workflow_cancel"],
    "audit" := ["read"]
  ]

  // ---- Scopes ----

  function Property(scope: Scope, name: string): Option<string> {
    if scope == [] then None
    else if scope[0].0 == name then Some(scope[0].1)
    else Property(scope[1..], name)
  }

  function ScopeType(scope: Scope): Option<string> {
    Property(scope, "type")
  }

  // The property that tells two scopes of a type apart.
  function IdProperty(scopeType: string): Option<string> {
    if scopeType == "space" then Some("spaceId")
    else if scopeType == "group" then Some("groupId")
    else if scopeType == "workflow_template" then Some("templateName")
    else None
  }

  predicate ValidScope(scope: Scope) {
    ScopeType(scope).Some? &&
    var t := ScopeType(scope).value;
    t == "org" || (IdProperty(t).Some? && Property(scope, IdProperty(t).value).Some?)
  }

  predicate SameScope(a: Scope, b: Scope) {
    ScopeType(a) == ScopeType(b) && ScopeType(a).Some? &&
    var t := ScopeType(a).value;
    t == "org" || (IdProperty(t).Some? && Property(a, IdProperty(t).value) == Property(b, IdProperty(t).value))
  }

  function OrgScope(): Scope { [("type", "org")] }
  function SpaceScope(id: string): Scope { [("type", "space"), ("spaceId", id)] }
  function GroupScope(id: string): Scope { [("type", "group"), ("groupId", id)] }
  function TemplateScope(name: string): Scope { [("type", "workflow_template"), ("templateName", name)] }

  // The spelling the code itself produces: the type, then the identifier, and nothing more.
  predicate Canonical(scope: Scope) {
    || scope == OrgScope()
    || (|scope| == 2 && scope[0].0 == "type" && IdProperty(scope[0].1) == Some(scope[1].0))
  }

  predicate ScopeMatches(roleScope: Scope, requested: Scope) {
    || ScopeType(roleScope) == Some("org")
    || (SameScope(roleScope, requested) && IdProperty(ScopeType(roleScope).value).Some?)
  }

  predicate HasPermission(roles: seq<Role>, requested: Scope, permission: string) {
    exists r | r in roles :: permission in r.permissions && ScopeMatches(r.scope, requested)
  }

  lemma PropertyOfTwo(p: (string, string), q: (string, string), name: string)
    ensures Property([p, q], name) == if p.0 == name then Some(p.1) else if q.0 == name then Some(q.1) else None
  {
    assert [p, q][1..] == [q];
    assert [q][1..] == [];
    assert Property([q], name) == if q.0 == name then Some(q.1) else None;
  }

  lemma CanonicalProperties(scope: Scope)
    requires Canonical(scope) && scope != OrgScope()
    ensures ScopeType(scope) == Some(scope[0].1) && scope[0].1 != "org"
    ensures IdProperty(scope[0].1) == Some(scope[1].0) && Property(scope, scope[1].0) == Some(scope[1].1)
  {
    assert scope[1..][0] == scope[1];
  }

  lemma CanonicalSpellsScope(a: Scope, b: Scope)
    requires Canonical(a) && Canonical(b)
    ensures SameScope(a, b) <==> a == b
  {
    if a != OrgScope() { CanonicalProperties(a); }
    if b != OrgScope() { CanonicalProperties(b); }
    hide Property;
    assert a != OrgScope() ==> a == [(a[0].0, a[0].1), (a[1].0, a[1].1)];
    assert b != OrgScope() ==> b == [(b[0].0, b[0].1), (b[1].0, b[1].1)];
    assert ScopeType(OrgScope()) == Some("org");
  }

  // ---- Validation ----

  predicate NameChar(c: char) {
    'a' <= c <= 'z' || 'A' <= c <= 'Z' || '0' <= c <= '9' || c == '_'
  }

  function ValidateRole(r: Role): Result<Role, RoleError> {
    if !ValidScope(r.scope) then Err(InvalidScope)
    else if r.name == "" then Err(NameEmpty)
    else if |r.name| > ROLE_NAME_MAX_LENGTH then Err(NameTooLong)
    else if exists c | c in r.name :: !NameChar(c) then Err(NameInvalidCharacters)
    else if r.resourceType !in RESOURCE_PERMISSIONS then Err(InvalidScope)
    else if exists p | p in r.permissions :: p !in RESOURCE_PERMISSIONS[r.resourceType] then Err(PermissionInvalid)
    else Ok(r)
  }

  predicate AllValid(roles: seq<Role>) {
    forall r | r in roles :: ValidateRole(r).Ok?
  }

  // All that consolidation needs of validation: a name cannot hold the dash that ends it in the key.
  predicate DashFree(roles: seq<Role>) {
    forall r | r in roles :: '-' !in r.name
  }

  lemma ValidIsDashFree(roles: seq<Role>)
    requires AllValid(roles)
    ensures DashFree(roles)
  {
    forall r | r in roles ensures '-' !in r.name { assert ValidateRole(r).Ok?; }
  }

  // ---- Consolidation ----

  function RoleKey(r: Role): string {
    r.name + "-" + Stringify(r.scope)
  }

  predicate SameRole(r: Role, s: Role) {
    r.name == s.name && SameScope(r.scope, s.scope)
  }

  lemma {:induction false} NameEnds(a: string, b: string, x: string, y: string)
    requires '-' !in a && '-' !in b && a + "-" + x == b + "-" + y
    ensures a == b && x == y
  {
    var s, t := a + "-" + x, b + "-" + y;
    assert s[0] == (if a == "" then '-' else a[0]) && t[0] == (if b == "" then '-' else b[0]);
    if a == "" || b == "" {
      assert s[1..] == x && t[1..] == y;
    } else {
      assert s[1..] == a[1..] + "-" + x && t[1..] == b[1..] + "-" + y;
      NameEnds(a[1..], b[1..], x, y);
      assert a == [a[0]] + a[1..] && b == [b[0]] + b[1..];
    }
  }

  // On such names the text key separates roles exactly by name and spelled scope.
  lemma RoleKeyInjective(r: Role, s: Role)
    requires '-' !in r.name && '-' !in s.name
    ensures RoleKey(r) == RoleKey(s) <==> r.name == s.name && r.scope == s.scope
  {
    hide Stringify;
    if RoleKey(r) == RoleKey(s) {
      NameEnds(r.name, s.name, Stringify(r.scope), Stringify(s.scope));
      StringifyInjective(r.scope, s.scope);
    }
  }

  function Keys(roles: seq<Role>): set<string> {
    set r | r in roles :: RoleKey(r)
  }

  // Keep a role when none before it has its key.
  function Consolidated(roles: seq<Role>): seq<Role> {
    if roles == [] then []
    else
      var init, last := roles[..|roles| - 1], roles[|roles| - 1];
      if RoleKey(last) in Keys(init) then Consolidated(init) else Consolidated(init) + [last]
  }

  lemma KeysAppend(roles: seq<Role>, r: Role)
    ensures Keys(roles + [r]) == Keys(roles) + {RoleKey(r)}
  {
    hide RoleKey;
    assert forall s :: s in roles + [r] <==> s in roles || s == r;
  }

  lemma ConsolidatedNext(roles: seq<Role>, i: nat)
    requires i < |roles|
    ensures Keys(roles[..i + 1]) ==
      if RoleKey(roles[i]) in Keys(roles[..i]) then Keys(roles[..i]) else Keys(roles[..i]) + {RoleKey(roles[i])}
    ensures Consolidated(roles[..i + 1]) ==
      if RoleKey(roles[i]) in Keys(roles[..i]) then Consolidated(roles[..i]) else Consolidated(roles[..i]) + [roles[i]]
  {
    hide RoleKey, Keys;
    assert roles[..i + 1][..i] == roles[..i];
    assert roles[..i + 1] == roles[..i] + [roles[i]];
    KeysAppend(roles[..i], roles[i]);
  }

  method ConsolidateRoles(roles: seq<Role>) returns (consolidated: seq<Role>)
    ensures consolidated == Consolidated(roles)
  {
    var seen: set<string> := {};
    consolidated := [];
    assert roles[..0] == [];
    assert Keys([]) == {};
    hide RoleKey, Keys, Consolidated;
    for i := 0 to |roles|
      invariant seen == Keys(roles[..i])
      invariant consolidated == Consolidated(roles[..i])
    {
      ConsolidatedNext(roles, i);
      var roleKey := RoleKey(roles[i]);
      if roleKey !in seen {
        seen := seen + {roleKey};
        consolidated := consolidated + [roles[i]];
      }
    }
    assert roles[..|roles|] == roles;
  }

  predicate HasDuplicates(roles: seq<Role>) {
    exists i, j | 0 <= i < j < |roles| :: SameRole(roles[i], roles[j])
  }

  method CheckForDuplicateRoles(roles: seq<Role>) returns (duplicate: bool)
    ensures duplicate <==> HasDuplicates(roles)
  {
    for i := 0 to |roles|
      invariant forall a, b | 0 <= a < i && a < b < |roles| :: !SameRole(roles[a], roles[b])
    {
      for j := i + 1 to |roles|
        invariant forall b | i < b < j :: !SameRole(roles[i], roles[b])
      {
        if SameRole(roles[i], roles[j]) {
          return true;
        }
      }
    }
    duplicate := false;
  }

  // ---- Users ----

  datatype Profile = Profile(id: string, displayName: string, email: string, orgRole: string)

  datatype User = User(profile: Profile, roles: seq<Role>)

  datatype UserError =
    | InvalidProfile(reason: string)
    | InvalidRole(error: RoleError)
    | DuplicateRoles
    | TotalRolesExceedMaximum

  function FirstRoleError(roles: seq<Role>): Option<RoleError> {
    if roles == [] then None
    else if ValidateRole(roles[0]).Err? then Some(ValidateRole(roles[0]).error)
    else FirstRoleError(roles[1..])
  }

  // checkProfile stands for the format checks on identifier, name, e-mail and organization role.
  function CreateUser(checkProfile: Profile -> Option<string>, u: User): Result<User, UserError> {
    if checkProfile(u.profile).Some? then Err(InvalidProfile(checkProfile(u.profile).value))
    else if FirstRoleError(u.roles).Some? then Err(InvalidRole(FirstRoleError(u.roles).value))
    else if HasDuplicates(u.roles) then Err(DuplicateRoles)
    else Ok(u)
  }

  function AssignRoles(checkProfile: Profile -> Option<string>, u: User, newRoles: seq<Role>): Result<User, UserError> {
    var consolidated := Consolidated(u.roles + newRoles);
    if |consolidated| > MAX_ROLES_PER_ENTITY then Err(TotalRolesExceedMaximum)
    else CreateUser(checkProfile, u.(roles := consolidated))
  }

  function Without(roles: seq<Role>, removed: seq<Role>): seq<Role> {
    if roles == [] then []
    else (if exists s | s in removed :: SameRole(roles[0], s) then [] else [roles[0]]) + Without(roles[1..], removed)
  }

  function RemoveRoles(checkProfile: Profile -> Option<string>, u: User, removed: seq<Role>): Result<User, UserError> {
    CreateUser(checkProfile, u.(roles := Without(u.roles, removed)))
  }
}
