/** What the role operations guarantee. */
module RoleLaws {
  import opened Base
  import opened Store
  import opened Evolution
  import opened Sessions
  import opened RoleService

  function PermissionsOf(t: Tables, role: RoleId): set<PermissionId> {
    set g | g in t.grants && g.role == role :: g.permission
  }

  /** `get_users_for_role`: users joined with their rows for the role in the tenant. */
  function UsersForRole(t: Tables, role: RoleId, tenant: TenantId): set<UserId> {
    set u | u in t.users && Assignment(u, role, tenant) in t.assignments
  }

  // ---------- Every operation advances the session ----------

  lemma GrantsAdvance(t: Tables, role: RoleId, ids: seq<PermissionId>, tenant: TenantId, now: int)
    requires role in t.roles && t.roles[role].tenant == Some(tenant) && !t.roles[role].isSystem
    requires Grantable(t, role, ids)
    ensures Advances(t, t.(grants := GrantsReplaced(t, role, ids)), Some(tenant), now)
  {
    if Inv(t) {
      var grants := GrantsReplaced(t, role, ids);
      RoleChange(t, role, t.roles[role], grants, tenant, now);
      assert t.roles[role := t.roles[role]] == t.roles;
    }
  }

  lemma SettingPermissionsMoves(s: Tx, role: RoleId, ids: seq<PermissionId>, tenant: TenantId, now: int)
    requires role in s.working.roles && s.working.roles[role].tenant == Some(tenant) && !s.working.roles[role].isSystem
    ensures Moves(s, SettingPermissions(s, role, ids).0, Some(tenant), now)
  {
    if Grantable(s.working, role, ids) {
      GrantsAdvance(s.working, role, ids, tenant, now);
      WriteMoves(s, s.working.(grants := GrantsReplaced(s.working, role, ids)), Some(tenant), now);
    } else {
      RollbackMoves(s, Some(tenant), now);
    }
  }

  lemma {:induction false} CreatingMoves(s: Tx, input: RoleCreate, tenant: TenantId, id: RoleId, now: int)
    ensures Moves(s, CreatingCustomRole(s, input, tenant, id).0, Some(tenant), now)
  {
    var who := Some(tenant);
    if RolesNamed(s.working, input.name, tenant) != {} {
      StayMoves(s, who, now);
    } else if id in s.working.roles || tenant !in s.working.tenants {
      RollbackMoves(s, who, now);
    } else if Sound(s) {
      var row := CustomRole(input, tenant);
      var t := s.working.(roles := s.working.roles[id := row]);
      RoleChange(s.working, id, row, s.working.grants, tenant, now);
      var made := s.Write(t).Commit();
      WriteCommitMoves(s, t, who, now);
      SettingPermissionsMoves(made, id, input.permissionIds, tenant, now);
      var after := SettingPermissions(made, id, input.permissionIds).0;
      MovesTransitive(s, made, after, who, now, now);
      CommitMoves(after, who, now);
      MovesTransitive(s, after, after.Commit(), who, now, now);
    }
  }

  lemma {:induction false} UpdatingMoves(s: Tx, tenant: TenantId, role: RoleId, update: RoleUpdate, now: int)
    ensures Moves(s, UpdatingCustomRole(s, tenant, role, update).0, Some(tenant), now)
  {
    var who := Some(tenant);
    if role !in s.working.roles || s.working.roles[role].tenant != Some(tenant) || s.working.roles[role].isSystem {
      StayMoves(s, who, now);
    } else if update.name == Given(None) {
      RollbackMoves(s, who, now);
    } else if Sound(s) {
      var t := RolePatched(s.working, role, update);
      RoleChange(s.working, role, Patched(s.working.roles[role], update), s.working.grants, tenant, now);
      var patched := s.Write(t);
      WriteMoves(s, t, who, now);
      var ids := if update.permissionIds.Some? then update.permissionIds.value else [];
      SettingPermissionsMoves(patched, role, ids, tenant, now);
      var after := SettingPermissions(patched, role, ids).0;
      MovesTransitive(s, patched, after, who, now, now);
      CommitMoves(after, who, now);
      MovesTransitive(s, after, after.Commit(), who, now, now);
      CommitMoves(patched, who, now);
      MovesTransitive(s, patched, patched.Commit(), who, now, now);
    }
  }

  lemma {:induction false} DeletingMoves(s: Tx, role: RoleId, tenant: TenantId, now: int)
    ensures Moves(s, DeletingCustomRole(s, role, tenant).0, Some(tenant), now)
  {
    var who := Some(tenant);
    if DeletingCustomRole(s, role, tenant).0 == s {
      StayMoves(s, who, now);
    } else {
      RoleDrop(s.working, role, tenant, now);
      WriteCommitMoves(s, DropRole(s.working, role), who, now);
    }
  }

  lemma SettingUsersMoves(s: Tx, role: RoleId, tenant: TenantId, ids: seq<UserId>, now: int)
    ensures Moves(s, SettingUsers(s, role, tenant, ids).0, Some(tenant), now)
  {
    var who := Some(tenant);
    if !Accessible(s.working, role, tenant) {
      StayMoves(s, who, now);
    } else if !Assignable(s.working, role, tenant, ids) {
      RollbackMoves(s, who, now);
    } else {
      var rows := UsersReplaced(s.working, role, tenant, ids);
      AssignmentsChange(s.working, rows, tenant, now);
      WriteCommitMoves(s, s.working.(assignments := rows), who, now);
    }
  }

  // ---------- Deletion is safe ----------

  /** Deleting a custom role never removes an assignment row in any tenant, although the guard looks
      only in the role's own tenant: the scoping invariant rules out rows elsewhere. */
  lemma DeletionKeepsAssignments(s: Tx, role: RoleId, tenant: TenantId)
    requires Inv(s.working)
    ensures DeletingCustomRole(s, role, tenant).0.working.assignments == s.working.assignments
  {}

  /** The guard alone is not enough: in a store that satisfies every database key but not the
      scoping rule, the cascade takes a row of another tenant. */
  lemma DeletionNeedsScoping()
    ensures exists s: Tx, role, tenant ::
      && Keyed(s.working)
      && DeletingCustomRole(s, role, tenant).1 == Done(Some(role))
      && DeletingCustomRole(s, role, tenant).0.working.assignments != s.working.assignments
  {
    var row := Assignment(7, 3, 2);
    var t := Tables(map[7 := User("u", true, false)], {1, 2}, map[3 := Role("r", None, Some(1), false)],
                    map[], {row}, {}, map[]);
    var s := Tx(t, t);
    assert Keyed(t);
    assert row !in DropRole(t, 3).assignments;
    assert DeletingCustomRole(s, 3, 1).1 == Done(Some(3));
  }

  /** Nor would tenants be isolated without it: an update by tenant 1 of its own role then changes what a
      user may do in tenant 2. */
  lemma IsolationNeedsScoping()
    ensures exists s: Tx, role, update, user ::
      && Keyed(s.working)
      && UpdatingCustomRole(s, 1, role, update).1.Done?
      && Effective(UpdatingCustomRole(s, 1, role, update).0.working, user, 2) != Effective(s.working, user, 2)
  {
    var row := Assignment(7, 3, 2);
    var t := Tables(map[7 := User("u", true, false)], {1, 2}, map[3 := Role("r", None, Some(1), false)],
                    map[4 := Permission("p", "p")], {row}, {}, map[]);
    var s := Tx(t, t);
    var update := RoleUpdate(Unset, Unset, Some([4]));
    var t' := UpdatingCustomRole(s, 1, 3, update).0.working;
    assert Keyed(t) && UpdatingCustomRole(s, 1, 3, update).1.Done?;
    assert Grant(3, 4) in t'.grants && row in t'.assignments;
    assert Store.Holds(t', 7, 2, 4);
    assert t'.permissions[4].code in Effective(t', 7, 2);
    assert Effective(t, 7, 2) == {};
  }

  /** Every answer of a deletion and its effect: a missing role, a system role or another tenant's role, and a role
      still assigned in the tenant change nothing; otherwise the role and its grants go, committed, and nothing else. */
  lemma DeletionExact(s: Tx, role: RoleId, tenant: TenantId)
    requires Inv(s.working)
    ensures var (s', out) := DeletingCustomRole(s, role, tenant);
      var t := s.working;
      && (out == Done(None) <==> role !in t.roles)
      && (out == Failed(Forbidden) <==> role in t.roles && (t.roles[role].isSystem || t.roles[role].tenant != Some(tenant)))
      && (out == Failed(BadRequest) <==>
          role in t.roles && !t.roles[role].isSystem && t.roles[role].tenant == Some(tenant) && UsersForRole(t, role, tenant) != {})
      && (out == Done(Some(role)) <==>
          role in t.roles && !t.roles[role].isSystem && t.roles[role].tenant == Some(tenant) && UsersForRole(t, role, tenant) == {})
      && (out != Done(Some(role)) ==> s' == s)
      && (out == Done(Some(role)) ==>
          && s'.working == s'.committed
          && s'.committed.roles.Keys == t.roles.Keys - {role}
          && PermissionsOf(s'.committed, role) == {}
          && (forall r :: r in s'.committed.roles ==>
               s'.committed.roles[r] == t.roles[r] && PermissionsOf(s'.committed, r) == PermissionsOf(t, r))
          && s'.committed == t.(roles := s'.committed.roles, grants := s'.committed.grants))
  {
    DeletionKeepsAssignments(s, role, tenant);
    if RoleAssigned(s.working, role, tenant) {
      var a :| a in s.working.assignments && a.role == role && a.tenant == tenant;
      assert a == Assignment(a.user, role, tenant);
      assert a.user in UsersForRole(s.working, role, tenant);
    }
    if u :| u in UsersForRole(s.working, role, tenant) {
      assert Assignment(u, role, tenant) in s.working.assignments;
    }
  }

  // ---------- Replacement is exact and transactional ----------

  /** Reading back what was written: after success the answer is the list of ids, the users of the role in the
      tenant are those ids as a set, and no other (role, tenant) sees a difference.  A role the tenant has no access
      to changes nothing; an unknown user or tenant rolls the session back. */
  lemma UsersReadBack(s: Tx, role: RoleId, tenant: TenantId, ids: seq<UserId>)
    requires Inv(s.working)
    ensures var (s', out) := SettingUsers(s, role, tenant, ids);
      var t := s.working;
      var accessible := role in t.roles && (t.roles[role].isSystem || t.roles[role].tenant == Some(tenant));
      var known := (ids == [] || tenant in t.tenants) && forall u :: u in ids ==> u in t.users;
      && (out == Failed(NotFound) <==> !accessible)
      && (out == Failed(BadRequest) <==> accessible && !known)
      && (out == Done(ids) <==> accessible && known)
      && (out == Failed(NotFound) ==> s' == s)
      && (out == Failed(BadRequest) ==> s' == Tx(s.committed, s.committed))
      && (out.Done? ==>
          && out.value == ids && s'.working == s'.committed
          && UsersForRole(s'.committed, role, tenant) == Elements(ids)
          && (forall r, tn :: r != role || tn != tenant ==> UsersForRole(s'.committed, r, tn) == UsersForRole(t, r, tn))
          && s'.committed == t.(assignments := s'.committed.assignments))
  {}

  /** A refused replacement on a fresh session leaves both copies as they were. */
  lemma UsersAllOrNothing(s: Tx, role: RoleId, tenant: TenantId, ids: seq<UserId>)
    requires s.working == s.committed && SettingUsers(s, role, tenant, ids).1.Failed?
    ensures SettingUsers(s, role, tenant, ids).0 == s
  {}

  lemma GrantsReadBack(t: Tables, role: RoleId, ids: seq<PermissionId>, t': Tables)
    requires t'.grants == GrantsReplaced(t, role, ids)
    ensures PermissionsOf(t', role) == Elements(ids)
    ensures forall r :: r != role ==> PermissionsOf(t', r) == PermissionsOf(t, r)
  {
    forall p ensures p in PermissionsOf(t', role) <==> p in ids {
      PermissionRow(t', role, p);
    }
    assert PermissionsOf(t', role) == Elements(ids);
    forall r | r != role ensures PermissionsOf(t', r) == PermissionsOf(t, r) {
      forall p ensures p in PermissionsOf(t', r) <==> p in PermissionsOf(t, r) {
        PermissionRow(t', r, p);
        PermissionRow(t, r, p);
      }
    }
  }

  lemma PermissionRow(t: Tables, role: RoleId, p: PermissionId)
    ensures p in PermissionsOf(t, role) <==> Grant(role, p) in t.grants
  {}

  /** Replacing the permissions of an existing role, whatever it held before: it goes through exactly when every id
      is known and none is given twice.  Afterwards the role holds those ids and no others, other roles' grants and
      every other table are as they were, and nothing is committed; a refusal rolls the session back. */
  lemma PermissionsExact(s: Tx, role: RoleId, ids: seq<PermissionId>)
    requires role in s.working.roles
    ensures var (s', out) := SettingPermissions(s, role, ids);
      && (out.Done? <==> (forall p :: p in ids ==> p in s.working.permissions) && NoDuplicates(ids))
      && (out.Done? ==>
          && s'.committed == s.committed
          && s'.working == s.working.(grants := s'.working.grants)
          && forall r, p :: Grant(r, p) in s'.working.grants <==> if r == role then p in ids else Grant(r, p) in s.working.grants)
      && (out.Failed? ==> out == Failed(BadRequest) && s' == Tx(s.committed, s.committed))
  {}

  /** So what is set is what counts: setting the permissions the role already holds changes nothing, and setting
      twice is setting the last time. */
  lemma PermissionsSetAgain(s: Tx, role: RoleId, ids: seq<PermissionId>, ids': seq<PermissionId>)
    requires role in s.working.roles && SettingPermissions(s, role, ids).1.Done?
    ensures SettingPermissions(SettingPermissions(s, role, ids).0, role, ids) == (SettingPermissions(s, role, ids).0, Done(()))
    ensures SettingPermissions(SettingPermissions(s, role, ids).0, role, ids') == SettingPermissions(s, role, ids')
  {
    var s1 := SettingPermissions(s, role, ids).0;
    forall next ensures GrantsReplaced(s1.working, role, next) == GrantsReplaced(s.working, role, next) {}
  }

  /** Fields and permissions change together or not at all.  Every refusal has its exact condition, in the order in
      which the tests are made; the first two change nothing, the others roll the session back. */
  lemma UpdateAllOrNothing(s: Tx, tenant: TenantId, role: RoleId, update: RoleUpdate)
    ensures var (s', out) := UpdatingCustomRole(s, tenant, role, update);
      var t := s.working;
      var owned := role in t.roles && t.roles[role].tenant == Some(tenant);
      var custom := owned && !t.roles[role].isSystem;
      var named := update.name != Given(None);
      var grantable := update.permissionIds.Some? ==>
        (forall p :: p in update.permissionIds.value ==> p in t.permissions) && NoDuplicates(update.permissionIds.value);
      && (out == Failed(NotFound) <==> !owned)
      && (out == Failed(Forbidden) <==> owned && !custom)
      && (out == Failed(Constraint) <==> custom && !named)
      && (out == Failed(BadRequest) <==> custom && named && !grantable)
      && (out == Done(()) <==> custom && named && grantable)
      && (out == Failed(NotFound) || out == Failed(Forbidden) ==> s' == s)
      && (out == Failed(Constraint) || out == Failed(BadRequest) ==> s' == Tx(s.committed, s.committed))
      && (out.Done? ==>
          && s'.working == s'.committed
          && s'.committed.roles.Keys == t.roles.Keys
          && (update.name.Given? ==> Some(s'.committed.roles[role].name) == update.name.value)
          && (update.name.Unset? ==> s'.committed.roles[role].name == t.roles[role].name)
          && (update.description.Given? ==> s'.committed.roles[role].description == update.description.value)
          && (update.description.Unset? ==> s'.committed.roles[role].description == t.roles[role].description)
          && s'.committed.roles[role].tenant == Some(tenant) && !s'.committed.roles[role].isSystem
          && s'.committed == t.(roles := s'.committed.roles, grants := s'.committed.grants)
          && PermissionsOf(s'.committed, role) ==
             (if update.permissionIds.Some? then Elements(update.permissionIds.value) else PermissionsOf(t, role))
          && forall r :: r in t.roles && r != role ==>
               s'.committed.roles[r] == t.roles[r] && PermissionsOf(s'.committed, r) == PermissionsOf(t, r))
  {
    var (s', out) := UpdatingCustomRole(s, tenant, role, update);
    if out.Done? && update.permissionIds.Some? {
      GrantsReadBack(RolePatched(s.working, role, update), role, update.permissionIds.value, s'.committed);
    }
  }

  /** On a fresh session a refused update leaves both copies as they were. */
  lemma RefusedUpdateIsNoUpdate(s: Tx, tenant: TenantId, role: RoleId, update: RoleUpdate)
    requires s.working == s.committed && UpdatingCustomRole(s, tenant, role, update).1.Failed?
    ensures UpdatingCustomRole(s, tenant, role, update).0 == s
  {
    UpdateAllOrNothing(s, tenant, role, update);
  }

  ghost predicate NameFree(t: Tables, name: string, tenant: TenantId) {
    forall r :: r in t.roles && t.roles[r].tenant == Some(tenant) ==> t.roles[r].name != name
  }

  /** The role itself can be made: its name is free in the tenant, its id is free, and the tenant exists. */
  ghost predicate Makeable(t: Tables, name: string, tenant: TenantId, id: RoleId) {
    NameFree(t, name, tenant) && id !in t.roles && tenant in t.tenants
  }

  /** Creation is not atomic.  It succeeds exactly when the role can be made and its permission ids exist and are
      distinct.  Whenever the role can be made it is committed, with exactly the given permissions on success and
      with none on failure, and nothing else changes; otherwise the committed copy is untouched. */
  lemma CreationOutcome(s: Tx, input: RoleCreate, tenant: TenantId, id: RoleId)
    requires Inv(s.working)
    ensures var (s', out) := CreatingCustomRole(s, input, tenant, id);
      var t := s.working;
      var made := Makeable(t, input.name, tenant, id);
      var grantable := (forall p :: p in input.permissionIds ==> p in t.permissions) && NoDuplicates(input.permissionIds);
      && (out == Failed(Conflict) <==> !NameFree(t, input.name, tenant))
      && (out == Failed(Constraint) <==> NameFree(t, input.name, tenant) && !made)
      && (out == Failed(BadRequest) <==> made && !grantable)
      && (out == Done(id) <==> made && grantable)
      && (out.Done? ==> out.value == id)
      && (out == Failed(Conflict) ==> s' == s)
      && (out == Failed(Constraint) ==> s' == Tx(s.committed, s.committed))
      && (made ==>
          && s'.working == s'.committed
          && s'.committed == t.(roles := t.roles[id := Role(input.name, input.description, Some(tenant), false)],
                                grants := s'.committed.grants)
          && PermissionsOf(s'.committed, id) == (if out.Done? then Elements(input.permissionIds) else {})
          && forall r :: r != id ==> PermissionsOf(s'.committed, r) == PermissionsOf(t, r))
  {
    var (s', out) := CreatingCustomRole(s, input, tenant, id);
    NameFreeMeaning(s.working, input.name, tenant);
    if Makeable(s.working, input.name, tenant, id) {
      var made := s.working.(roles := s.working.roles[id := CustomRole(input, tenant)]);
      assert forall g :: g in made.grants ==> g.role != id;
      if out.Done? && input.permissionIds != [] {
        GrantsReadBack(made, id, input.permissionIds, s'.committed);
      } else {
        assert s'.committed == made;
        assert PermissionsOf(made, id) == {};
      }
    }
  }

  lemma NameFreeMeaning(t: Tables, name: string, tenant: TenantId)
    ensures NameFree(t, name, tenant) <==> RolesNamed(t, name, tenant) == {}
  {
    if NameFree(t, name, tenant) {
      assert forall r :: r !in RolesNamed(t, name, tenant);
    } else {
      var r :| r in t.roles && t.roles[r].tenant == Some(tenant) && t.roles[r].name == name;
      assert r in RolesNamed(t, name, tenant);
    }
  }

  /** So a failed creation on a fresh session leaves the store as it was exactly when the role could not be made
      at all. */
  lemma CreationAllOrNothing(s: Tx, input: RoleCreate, tenant: TenantId, id: RoleId)
    requires Inv(s.working) && s.working == s.committed
    ensures var (s', out) := CreatingCustomRole(s, input, tenant, id);
      out.Failed? ==> (s' == s <==> !Makeable(s.working, input.name, tenant, id))
  {
    CreationOutcome(s, input, tenant, id);
    if Makeable(s.working, input.name, tenant, id) {
      assert id in CreatingCustomRole(s, input, tenant, id).0.committed.roles && id !in s.committed.roles;
    }
  }

  /** The exception does occur: a tenant without permissions, and one unknown permission id. */
  lemma HalfMadeRoleHappens()
    ensures exists s: Tx, input, tenant, id ::
      && Inv(s.working) && s.working == s.committed
      && CreatingCustomRole(s, input, tenant, id).1.Failed?
      && CreatingCustomRole(s, input, tenant, id).0.committed.roles != s.committed.roles
  {
    var t := Tables(map[], {1}, map[], map[], {}, {}, map[]);
    var s, input := Tx(t, t), RoleCreate("r", None, [5]);
    assert RolesNamed(t, "r", 1) == {};
    assert 5 in input.permissionIds && 5 !in t.permissions;
    CreationOutcome(s, input, 1, 3);
    assert CreatingCustomRole(s, input, 1, 3).1.Failed?;
    assert 3 in CreatingCustomRole(s, input, 1, 3).0.committed.roles;
  }

  /** So a creation refused for its permission ids cannot simply be repeated: whatever the second
      request asks for under that name, it meets the role left behind. */
  lemma RefusedCreationBlocksRetry(s: Tx, input: RoleCreate, tenant: TenantId, id: RoleId, retry: RoleCreate, id': RoleId)
    requires Inv(s.working) && CreatingCustomRole(s, input, tenant, id).1 == Failed(BadRequest)
    requires retry.name == input.name
    ensures CreatingCustomRole(CreatingCustomRole(s, input, tenant, id).0, retry, tenant, id').1 == Failed(Conflict)
  {
    var s' := CreatingCustomRole(s, input, tenant, id).0;
    assert id in RolesNamed(s'.working, input.name, tenant);
  }
}
