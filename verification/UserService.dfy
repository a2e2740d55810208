/** services/iam/user.py: creating users with the default role, assigning and removing roles, and
    removing a user from a tenant.  Unless `autocommit` is set, the caller commits. */
module UserService {
  import opened Base
  import opened Store
  import opened Sessions

  const DEFAULT_ROLE_NAME := "Default User Role"

  function DefaultRoles(t: Tables, tenant: TenantId): set<RoleId> {
    RolesNamed(t, DEFAULT_ROLE_NAME, tenant)
  }

  function Ended(s: Tx, autocommit: bool): Tx {
    if autocommit then s.Commit() else s
  }

  /** The statement's key checks, as the database makes them. */
  predicate Insertable(t: Tables, a: Assignment) {
    a !in t.assignments && a.user in t.users && a.role in t.roles && a.tenant in t.tenants
  }

  function WithRow(t: Tables, a: Assignment): Tables {
    t.(assignments := t.assignments + {a})
  }

  function WithUser(t: Tables, id: UserId, user: User): Tables {
    t.(users := t.users[id := user])
  }

  // ---------- create ----------

  /** `first` is the row the default-role query returned.  A missing default role raises without a
      rollback, so the flushed user stays in the working copy. */
  ghost function CreatingUser(s: Tx, user: User, tenant: TenantId, id: UserId, first: Option<RoleId>, autocommit: bool)
    : (Tx, Outcome<UserId>)
  {
    if id in s.working.users || EmailTaken(s.working, user.email) then (s.Rollback(), Failed(Constraint))
    else
      var added := s.Write(WithUser(s.working, id, user));
      match first
      case None => (added, Failed(MissingDefault))
      case Some(role) =>
        var row := Assignment(id, role, tenant);
        if Insertable(added.working, row)
        then (Ended(added.Write(WithRow(added.working, row)), autocommit), Done(id))
        else (added.Rollback(), Failed(Constraint))
  }

  method CreateUser(db: Session, user: User, tenant: TenantId, id: UserId, autocommit: bool) returns (out: Outcome<UserId>)
    modifies db
    ensures exists first ::
      && IsFirst(first, DefaultRoles(old(db.working), tenant))
      && (db.State(), out) == CreatingUser(old(db.State()), user, tenant, id, first, autocommit)
  {
    var ok := db.InsertUser(id, user);
    if !ok {
      db.Rollback();
      FirstExists(DefaultRoles(old(db.working), tenant));
      return Failed(Constraint);
    }
    var first := First(DefaultRoles(db.working, tenant));
    assert DefaultRoles(db.working, tenant) == DefaultRoles(old(db.working), tenant);
    if first.None? {
      return Failed(MissingDefault);
    }
    ok := db.InsertAssignment(Assignment(id, first.value, tenant));
    if !ok {
      db.Rollback();
      return Failed(Constraint);
    }
    if autocommit {
      db.Commit();
    }
    return Done(id);
  }

  // ---------- assign_role_to_user_in_tenant ----------

  /** The membership test joins the user with its rows.  The role test is the access rule that
      `set_users_for_role` applies: the method named at user.py:244 is not defined anywhere. */
  function AssigningRole(s: Tx, user: UserId, role: RoleId, tenant: TenantId, autocommit: bool): (Tx, Outcome<bool>) {
    var row := Assignment(user, role, tenant);
    if user !in s.working.users || !Member(s.working, user, tenant) then (s, Failed(NotFound))
    else if !Accessible(s.working, role, tenant) then (s, Failed(NotFound))
    else if row in s.working.assignments then (s, Done(false))
    else if Insertable(s.working, row) then (Ended(s.Write(WithRow(s.working, row)), autocommit), Done(true))
    else (s.Rollback(), Failed(Constraint))
  }

  method AssignRole(db: Session, user: UserId, role: RoleId, tenant: TenantId, autocommit: bool) returns (out: Outcome<bool>)
    modifies db
    ensures (db.State(), out) == AssigningRole(old(db.State()), user, role, tenant, autocommit)
  {
    if user !in db.working.users || !Member(db.working, user, tenant) || !Accessible(db.working, role, tenant) {
      return Failed(NotFound);
    }
    if Assignment(user, role, tenant) in db.working.assignments {
      return Done(false);
    }
    var ok := db.InsertAssignment(Assignment(user, role, tenant));
    if !ok {
      db.Rollback();
      return Failed(Constraint);
    }
    if autocommit {
      db.Commit();
    }
    return Done(true);
  }

  // ---------- remove_role_from_user_in_tenant and delete ----------

  function RowsMatching(t: Tables, user: UserId, role: Option<RoleId>, tenant: TenantId): set<Assignment> {
    set a | a in t.assignments && a.user == user && a.tenant == tenant && (role.Some? ==> a.role == role.value)
  }

  /** One role of the user in the tenant, or every role when `role` is None; the second component is
      the statement's row count. */
  function Removing(s: Tx, user: UserId, role: Option<RoleId>, tenant: TenantId, autocommit: bool): (Tx, nat) {
    var rows := RowsMatching(s.working, user, role, tenant);
    (Ended(s.Write(s.working.(assignments := s.working.assignments - rows)), autocommit), |rows|)
  }

  method RemoveRole(db: Session, user: UserId, role: RoleId, tenant: TenantId, autocommit: bool) returns (count: nat)
    modifies db
    ensures (db.State(), count) == Removing(old(db.State()), user, Some(role), tenant, autocommit)
  {
    var row := Assignment(user, role, tenant);
    count := if row in db.working.assignments then 1 else 0;
    ghost var rows := RowsMatching(db.working, user, Some(role), tenant);
    assert rows == if count == 1 then {row} else {};
    db.working := db.working.(assignments := db.working.assignments - {row});
    assert db.working.assignments == old(db.working).assignments - rows;
    if autocommit {
      db.Commit();
    }
  }

  method RemoveFromTenant(db: Session, user: UserId, tenant: TenantId, autocommit: bool) returns (count: nat)
    modifies db
    ensures (db.State(), count) == Removing(old(db.State()), user, None, tenant, autocommit)
  {
    var before := |db.working.assignments|;
    ghost var rows := RowsMatching(db.working, user, None, tenant);
    db.working := db.working.(assignments :=
      set a | a in db.working.assignments && !(a.user == user && a.tenant == tenant));
    assert db.working.assignments == old(db.working).assignments - rows;
    assert |old(db.working).assignments - rows| + |rows| == before;
    count := before - |db.working.assignments|;
    if autocommit {
      db.Commit();
    }
  }
}
