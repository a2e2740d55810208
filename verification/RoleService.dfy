/** services/iam/role.py: custom roles, their permissions, and the users assigned to them.

    Each operation has a specification function on the session and a method that performs the
    statements one by one.  Ids are inputs.  A raise is a `Failed` outcome. */
module RoleService {
  import opened Base
  import opened Store
  import opened Evolution
  import opened Sessions

  datatype RoleCreate = RoleCreate(name: string, description: Option<string>, permissionIds: seq<PermissionId>)

  datatype RoleUpdate = RoleUpdate(
    name: Patch<Option<string>>, description: Patch<Option<string>>, permissionIds: Option<seq<PermissionId>>)

  // ---------- set_role_permissions ----------

  /** The bulk insert goes through: the role exists, every permission exists, and none is named twice
      (the insert has no conflict clause, so a repeated id breaks the primary key). */
  ghost predicate Grantable(t: Tables, role: RoleId, ids: seq<PermissionId>) {
    ids == [] || (role in t.roles && (forall p :: p in ids ==> p in t.permissions) && NoDuplicates(ids))
  }

  function GrantsReplaced(t: Tables, role: RoleId, ids: seq<PermissionId>): set<Grant> {
    (set g | g in t.grants && g.role != role) + (set p | p in ids :: Grant(role, p))
  }

  ghost function SettingPermissions(s: Tx, role: RoleId, ids: seq<PermissionId>): (Tx, Outcome<()>) {
    if Grantable(s.working, role, ids)
    then (s.Write(s.working.(grants := GrantsReplaced(s.working, role, ids))), Done(()))
    else (s.Rollback(), Failed(BadRequest))
  }

  method SetRolePermissions(db: Session, role: RoleId, ids: seq<PermissionId>) returns (out: Outcome<()>)
    modifies db
    ensures (db.State(), out) == SettingPermissions(old(db.State()), role, ids)
  {
    ghost var t := db.working;
    ghost var kept := set g | g in t.grants && g.role != role;
    db.working := db.working.(grants := set g | g in db.working.grants && g.role != role);
    for i := 0 to |ids|
      invariant db.committed == old(db.committed)
      invariant db.working == t.(grants := kept + set p | p in ids[..i] :: Grant(role, p))
      invariant i > 0 ==> role in t.roles
      invariant forall p :: p in ids[..i] ==> p in t.permissions
      invariant NoDuplicates(ids[..i])
    {
      assert Grant(role, ids[i]) in db.working.grants <==> ids[i] in ids[..i];
      assert ids[..i + 1] == ids[..i] + [ids[i]];
      var ok := db.InsertGrant(Grant(role, ids[i]));
      if !ok {
        assert !Grantable(t, role, ids);
        db.Rollback();
        return Failed(BadRequest);
      }
    }
    assert ids[..|ids|] == ids;
    return Done(());
  }

  // ---------- create_custom_role ----------

  function CustomRole(input: RoleCreate, tenant: TenantId): Role {
    Role(input.name, input.description, Some(tenant), false)
  }

  /** The role is committed before its permissions are set. */
  ghost function CreatingCustomRole(s: Tx, input: RoleCreate, tenant: TenantId, id: RoleId): (Tx, Outcome<RoleId>) {
    if RolesNamed(s.working, input.name, tenant) != {} then (s, Failed(Conflict))
    else if id in s.working.roles || tenant !in s.working.tenants then (s.Rollback(), Failed(Constraint))
    else
      var made := s.Write(s.working.(roles := s.working.roles[id := CustomRole(input, tenant)])).Commit();
      if input.permissionIds == [] then (made, Done(id)) else
      match SettingPermissions(made, id, input.permissionIds)
      case (s', Done(_)) => (s'.Commit(), Done(id))
      case (s', Failed(e)) => (s', Failed(e))
  }

  method CreateCustomRole(db: Session, input: RoleCreate, tenant: TenantId, id: RoleId) returns (out: Outcome<RoleId>)
    modifies db
    ensures (db.State(), out) == CreatingCustomRole(old(db.State()), input, tenant, id)
  {
    if RolesNamed(db.working, input.name, tenant) != {} {
      return Failed(Conflict);
    }
    var ok := db.InsertRole(id, CustomRole(input, tenant));
    if !ok {
      db.Rollback();
      return Failed(Constraint);
    }
    db.Commit();
    if input.permissionIds != [] {
      var replaced := SetRolePermissions(db, id, input.permissionIds);
      if replaced.Failed? {
        return Failed(replaced.error);
      }
      db.Commit();
    }
    return Done(id);
  }

  // ---------- update_custom_role ----------

  function Patched(role: Role, update: RoleUpdate): Role
    requires update.name != Given(None)
  {
    role.(name := if update.name.Given? then update.name.value.value else role.name,
          description := if update.description.Given? then update.description.value else role.description)
  }

  function RolePatched(t: Tables, role: RoleId, update: RoleUpdate): Tables
    requires role in t.roles && update.name != Given(None)
  {
    t.(roles := t.roles[role := Patched(t.roles[role], update)])
  }

  /** With the endpoint's check that the role belongs to the tenant (endpoints/roles.py:117-121).
      A null name breaks NOT NULL when the attributes are flushed. */
  ghost function UpdatingCustomRole(s: Tx, tenant: TenantId, role: RoleId, update: RoleUpdate): (Tx, Outcome<()>) {
    if role !in s.working.roles || s.working.roles[role].tenant != Some(tenant) then (s, Failed(NotFound))
    else if s.working.roles[role].isSystem then (s, Failed(Forbidden))
    else if update.name == Given(None) then (s.Rollback(), Failed(Constraint))
    else
      var patched := s.Write(RolePatched(s.working, role, update));
      if update.permissionIds.None? then (patched.Commit(), Done(()))
      else
        match SettingPermissions(patched, role, update.permissionIds.value)
        case (s', Done(_)) => (s'.Commit(), Done(()))
        case (s', Failed(e)) => (s', Failed(e))
  }

  method UpdateCustomRole(db: Session, tenant: TenantId, role: RoleId, update: RoleUpdate) returns (out: Outcome<()>)
    modifies db
    ensures (db.State(), out) == UpdatingCustomRole(old(db.State()), tenant, role, update)
  {
    if role !in db.working.roles || db.working.roles[role].tenant != Some(tenant) {
      return Failed(NotFound);
    }
    var row := db.working.roles[role];
    if row.isSystem {
      return Failed(Forbidden);
    }
    if update.name.Given? {
      if update.name.value.None? {
        db.Rollback();
        return Failed(Constraint);
      }
      row := row.(name := update.name.value.value);
    }
    if update.description.Given? {
      row := row.(description := update.description.value);
    }
    db.working := db.working.(roles := db.working.roles[role := row]);
    if update.permissionIds.Some? {
      var replaced := SetRolePermissions(db, role, update.permissionIds.value);
      if replaced.Failed? {
        return Failed(replaced.error);
      }
    }
    db.Commit();
    return Done(());
  }

  // ---------- delete_custom_role ----------

  predicate RoleAssigned(t: Tables, role: RoleId, tenant: TenantId) {
    exists a :: a in t.assignments && a.role == role && a.tenant == tenant
  }

  function DeletingCustomRole(s: Tx, role: RoleId, tenant: TenantId): (Tx, Outcome<Option<RoleId>>) {
    if role !in s.working.roles then (s, Done(None))
    else if s.working.roles[role].isSystem then (s, Failed(Forbidden))
    else if s.working.roles[role].tenant != Some(tenant) then (s, Failed(Forbidden))
    else if RoleAssigned(s.working, role, tenant) then (s, Failed(BadRequest))
    else (s.Write(DropRole(s.working, role)).Commit(), Done(Some(role)))
  }

  method DeleteCustomRole(db: Session, role: RoleId, tenant: TenantId) returns (out: Outcome<Option<RoleId>>)
    modifies db
    ensures (db.State(), out) == DeletingCustomRole(old(db.State()), role, tenant)
  {
    if role !in db.working.roles {
      return Done(None);
    }
    if db.working.roles[role].isSystem || db.working.roles[role].tenant != Some(tenant) {
      return Failed(Forbidden);
    }
    if RoleAssigned(db.working, role, tenant) {
      return Failed(BadRequest);
    }
    db.DeleteRole(role);
    db.Commit();
    return Done(Some(role));
  }

  // ---------- set_users_for_role ----------

  /** The bulk insert, with its do-nothing clause on conflict, meets every foreign key. */
  ghost predicate Assignable(t: Tables, role: RoleId, tenant: TenantId, ids: seq<UserId>) {
    ids == [] || (role in t.roles && tenant in t.tenants && forall u :: u in ids ==> u in t.users)
  }

  function UsersReplaced(t: Tables, role: RoleId, tenant: TenantId, ids: seq<UserId>): set<Assignment> {
    (set a | a in t.assignments && !(a.role == role && a.tenant == tenant))
    + (set u | u in ids :: Assignment(u, role, tenant))
  }

  ghost function SettingUsers(s: Tx, role: RoleId, tenant: TenantId, ids: seq<UserId>): (Tx, Outcome<seq<UserId>>) {
    if !Accessible(s.working, role, tenant) then (s, Failed(NotFound))
    else if Assignable(s.working, role, tenant, ids)
    then (s.Write(s.working.(assignments := UsersReplaced(s.working, role, tenant, ids))).Commit(), Done(ids))
    else (s.Rollback(), Failed(BadRequest))
  }

  method SetUsersForRole(db: Session, role: RoleId, tenant: TenantId, ids: seq<UserId>)
    returns (out: Outcome<seq<UserId>>)
    modifies db
    ensures (db.State(), out) == SettingUsers(old(db.State()), role, tenant, ids)
  {
    if !Accessible(db.working, role, tenant) {
      return Failed(NotFound);
    }
    ghost var t := db.working;
    ghost var kept := set a | a in t.assignments && !(a.role == role && a.tenant == tenant);
    db.working := db.working.(assignments :=
      set a | a in db.working.assignments && !(a.role == role && a.tenant == tenant));
    for i := 0 to |ids|
      invariant db.committed == old(db.committed)
      invariant db.working == t.(assignments := kept + set u | u in ids[..i] :: Assignment(u, role, tenant))
      invariant i > 0 ==> tenant in t.tenants
      invariant forall u :: u in ids[..i] ==> u in t.users
    {
      var row := Assignment(ids[i], role, tenant);
      assert row in db.working.assignments <==> ids[i] in ids[..i];
      assert ids[..i + 1] == ids[..i] + [ids[i]];
      if row !in db.working.assignments {
        var ok := db.InsertAssignment(row);
        if !ok {
          assert !Assignable(t, role, tenant, ids);
          db.Rollback();
          return Failed(BadRequest);
        }
      }
    }
    assert ids[..|ids|] == ids;
    db.Commit();
    return Done(ids);
  }
}
