/** What the user operations guarantee. */
module UserLaws {
  import opened Base
  import opened Store
  import opened Evolution
  import opened Sessions
  import opened UserService

  /** The permission codes one role grants. */
  ghost function CodesOf(t: Tables, role: RoleId): set<string> {
    set p | p in t.permissions && Grant(role, p) in t.grants :: t.permissions[p].code
  }

  /** The roles a user holds in a tenant. */
  function RolesOf(t: Tables, user: UserId, tenant: TenantId): set<RoleId> {
    set r | r in t.roles && Assignment(user, r, tenant) in t.assignments
  }

  // ---------- Every operation advances the session ----------

  lemma EndedMoves(s: Tx, s1: Tx, autocommit: bool, who: Option<TenantId>, now: int)
    requires Moves(s, s1, who, now)
    ensures Moves(s, Ended(s1, autocommit), who, now)
  {
    CommitMoves(s1, who, now);
    MovesTransitive(s, s1, s1.Commit(), who, now, now);
  }

  lemma {:induction false} CreatingUserMoves(s: Tx, user: User, tenant: TenantId, id: UserId, first: Option<RoleId>, autocommit: bool, now: int)
    requires IsFirst(first, DefaultRoles(s.working, tenant))
    ensures Moves(s, CreatingUser(s, user, tenant, id, first, autocommit).0, Some(tenant), now)
  {
    var who := Some(tenant);
    if id in s.working.users || EmailTaken(s.working, user.email) {
      RollbackMoves(s, who, now);
    } else {
      var added := s.Write(WithUser(s.working, id, user));
      UserAdd(s.working, id, user, who, now);
      WriteMoves(s, added.working, who, now);
      if first.Some? {
        var row := Assignment(id, first.value, tenant);
        if Insertable(added.working, row) {
          var joined := added.Write(WithRow(added.working, row));
          AssignmentsChange(added.working, added.working.assignments + {row}, tenant, now);
          WriteMoves(added, joined.working, who, now);
          MovesTransitive(s, added, joined, who, now, now);
          EndedMoves(s, joined, autocommit, who, now);
        } else {
          RollbackMoves(added, who, now);
          MovesTransitive(s, added, added.Rollback(), who, now, now);
        }
      }
    }
  }

  lemma {:induction false} AssigningMoves(s: Tx, user: UserId, role: RoleId, tenant: TenantId, autocommit: bool, now: int)
    ensures Moves(s, AssigningRole(s, user, role, tenant, autocommit).0, Some(tenant), now)
  {
    var who, row := Some(tenant), Assignment(user, role, tenant);
    StayMoves(s, who, now);
    RollbackMoves(s, who, now);
    if Accessible(s.working, role, tenant) && Insertable(s.working, row) {
      AssignmentsChange(s.working, s.working.assignments + {row}, tenant, now);
      WriteMoves(s, WithRow(s.working, row), who, now);
      EndedMoves(s, s.Write(WithRow(s.working, row)), autocommit, who, now);
    }
  }

  lemma RemovingMoves(s: Tx, user: UserId, role: Option<RoleId>, tenant: TenantId, autocommit: bool, now: int)
    ensures Moves(s, Removing(s, user, role, tenant, autocommit).0, Some(tenant), now)
  {
    var rows := s.working.assignments - RowsMatching(s.working, user, role, tenant);
    AssignmentsChange(s.working, rows, tenant, now);
    WriteMoves(s, s.working.(assignments := rows), Some(tenant), now);
    EndedMoves(s, s.Write(s.working.(assignments := rows)), autocommit, Some(tenant), now);
  }

  // ---------- Creating a user ----------

  lemma EffectiveByRoles(t: Tables, user: UserId, tenant: TenantId, code: string)
    requires ForeignKeys(t)
    ensures code in Effective(t, user, tenant) <==> exists r :: r in RolesOf(t, user, tenant) && code in CodesOf(t, r)
  {
    if code in Effective(t, user, tenant) {
      var p :| p in t.permissions && Holds(t, user, tenant, p) && t.permissions[p].code == code;
      var a :| a in t.assignments && a.user == user && a.tenant == tenant && Grant(a.role, p) in t.grants;
      assert a == Assignment(user, a.role, tenant);
      assert a.role in RolesOf(t, user, tenant) && code in CodesOf(t, a.role);
    }
    if r :| r in RolesOf(t, user, tenant) && code in CodesOf(t, r) {
      var p :| p in t.permissions && Grant(r, p) in t.grants && t.permissions[p].code == code;
      assert Assignment(user, r, tenant) in t.assignments;
      assert Holds(t, user, tenant, p);
    }
  }

  /** Creation succeeds exactly when the id and the email are free and the tenant has a default role; the new user is
      then stored as given and belongs to that tenant only, with one role of that name only.  No failure reaches the
      committed copy: a clash rolls the session back, but a missing default role leaves a user without any tenant in
      the working copy. */
  lemma CreationExact(s: Tx, user: User, tenant: TenantId, id: UserId, first: Option<RoleId>, autocommit: bool)
    requires Inv(s.working) && IsFirst(first, DefaultRoles(s.working, tenant))
    ensures var (s', out) := CreatingUser(s, user, tenant, id, first, autocommit);
      var t := s.working;
      var free := id !in t.users && forall u :: u in t.users ==> t.users[u].email != user.email;
      var default := exists r :: r in t.roles && t.roles[r].name == "Default User Role" && t.roles[r].tenant == Some(tenant);
      && (out == Failed(Constraint) <==> !free)
      && (out == Failed(MissingDefault) <==> free && !default)
      && (out == Done(id) <==> free && default)
      && (out.Done? ==> out.value == id)
      && (out == Failed(Constraint) ==> s' == Tx(s.committed, s.committed))
      && (out == Failed(MissingDefault) ==>
          && s' == Tx(t.(users := t.users[id := user]), s.committed)
          && forall tn :: !Member(s'.working, id, tn))
      && (out.Done? ==>
          && first.Some? && first.value in t.roles
          && t.roles[first.value].name == "Default User Role" && t.roles[first.value].tenant == Some(tenant)
          && s'.committed == (if autocommit then s'.working else s.committed)
          && s'.working == t.(users := t.users[id := user],
                              assignments := t.assignments + {Assignment(id, first.value, tenant)})
          && RolesOf(s'.working, id, tenant) == {first.value}
          && forall tn :: Member(s'.working, id, tn) <==> tn == tenant)
  {
    var t := s.working;
    if r :| r in t.roles && t.roles[r].name == "Default User Role" && t.roles[r].tenant == Some(tenant) {
      assert r in DefaultRoles(t, tenant);
    }
  }

  // ---------- Assigning and removing a role ----------

  /** Every answer of an assignment and its effect.  It adds the one row or nothing, so it never changes who is a
      member of which tenant, and no key can fail: a user who is no member, or a role that is neither a system role
      nor the tenant's own, is not found, and a row already there is left alone. */
  lemma AssignKeepsMembers(s: Tx, user: UserId, role: RoleId, tenant: TenantId, autocommit: bool)
    requires Inv(s.working)
    ensures var (s', out) := AssigningRole(s, user, role, tenant, autocommit);
      var t, row := s.working, Assignment(user, role, tenant);
      && (out.Done? <==>
          Member(t, user, tenant) && role in t.roles && (t.roles[role].isSystem || t.roles[role].tenant == Some(tenant)))
      && (out.Failed? ==> out == Failed(NotFound) && s' == s)
      && (out == Done(false) <==> row in t.assignments)
      && (out == Done(false) ==> s' == s)
      && (out == Done(true) ==>
          && s'.working == t.(assignments := t.assignments + {row})
          && s'.committed == if autocommit then s'.working else s.committed)
      && forall u, tn :: Member(s'.working, u, tn) <==> Member(t, u, tn)
  {}

  /** Assigning twice is assigning once: the second call finds the row and changes nothing. */
  lemma AssignIdempotent(s: Tx, user: UserId, role: RoleId, tenant: TenantId, autocommit: bool)
    requires Inv(s.working) && AssigningRole(s, user, role, tenant, autocommit).1.Done?
    ensures var s' := AssigningRole(s, user, role, tenant, autocommit).0;
      AssigningRole(s', user, role, tenant, autocommit) == (s', Done(false))
  {}

  /** Removing a role that was just assigned restores the table. */
  lemma AssignThenRemove(s: Tx, user: UserId, role: RoleId, tenant: TenantId, autocommit: bool)
    requires AssigningRole(s, user, role, tenant, autocommit).1 == Done(true)
    ensures var s1 := AssigningRole(s, user, role, tenant, autocommit).0;
      var (s2, count) := Removing(s1, user, Some(role), tenant, autocommit);
      s2.working == s.working && count == 1 && s2.committed == (if autocommit then s.working else s.committed)
  {
    var s1 := AssigningRole(s, user, role, tenant, autocommit).0;
    var row := Assignment(user, role, tenant);
    assert RowsMatching(s1.working, user, Some(role), tenant) == {row};
    assert s.working.assignments + {row} - {row} == s.working.assignments;
  }

  /** Assigning adds exactly the codes of the role. */
  lemma AssignGains(s: Tx, user: UserId, role: RoleId, tenant: TenantId, autocommit: bool)
    requires Inv(s.working) && AssigningRole(s, user, role, tenant, autocommit).1.Done?
    ensures var t := AssigningRole(s, user, role, tenant, autocommit).0.working;
      Effective(t, user, tenant) == Effective(s.working, user, tenant) + CodesOf(s.working, role)
  {}

  /** Removing a held role loses exactly the codes that no other remaining role of the user grants there. */
  lemma RemoveLoses(s: Tx, user: UserId, role: RoleId, tenant: TenantId, autocommit: bool, code: string)
    requires Inv(s.working)
    ensures var t := Removing(s, user, Some(role), tenant, autocommit).0.working;
      code in Effective(s.working, user, tenant) && code !in Effective(t, user, tenant) <==>
        && role in RolesOf(s.working, user, tenant)
        && code in CodesOf(s.working, role)
        && !(exists r :: r in RolesOf(s.working, user, tenant) && r != role && code in CodesOf(s.working, r))
  {
    var t := Removing(s, user, Some(role), tenant, autocommit).0.working;
    EffectiveByRoles(s.working, user, tenant, code);
    EffectiveByRoles(t, user, tenant, code);
    assert RolesOf(t, user, tenant) == RolesOf(s.working, user, tenant) - {role};
    forall r ensures CodesOf(t, r) == CodesOf(s.working, r) {}
  }

  /** Removing one role takes that one row and nothing else; the row count is one if it was there and zero if not,
      and then nothing is left to take. */
  lemma RemoveExact(s: Tx, user: UserId, role: RoleId, tenant: TenantId, autocommit: bool)
    ensures var (s', count) := Removing(s, user, Some(role), tenant, autocommit);
      var row := Assignment(user, role, tenant);
      && count == (if row in s.working.assignments then 1 else 0)
      && s'.working == s.working.(assignments := s.working.assignments - {row})
      && s'.committed == (if autocommit then s'.working else s.committed)
      && Removing(s', user, Some(role), tenant, autocommit) == (s', 0)
  {
    var row := Assignment(user, role, tenant);
    var s' := Removing(s, user, Some(role), tenant, autocommit).0;
    assert RowsMatching(s.working, user, Some(role), tenant) == if row in s.working.assignments then {row} else {};
    assert s'.working.assignments == s.working.assignments - {row};
    assert RowsMatching(s'.working, user, Some(role), tenant) == {};
    assert s'.working.(assignments := s'.working.assignments - {}) == s'.working;
  }

  // ---------- Removing a user from a tenant ----------

  /** Afterwards the user is no member and holds nothing there, and nothing else changes.  The row count
      is the number of roles held, which the documentation at user.py:218 gives as 0 or 1. */
  lemma RemovalExact(s: Tx, user: UserId, tenant: TenantId, autocommit: bool)
    requires Inv(s.working)
    ensures var (s', count) := Removing(s, user, None, tenant, autocommit);
      && !Member(s'.working, user, tenant) && Effective(s'.working, user, tenant) == {}
      && (forall u, tn :: u != user || tn != tenant ==> RolesOf(s'.working, u, tn) == RolesOf(s.working, u, tn))
      && s'.working == s.working.(assignments :=
           set a | a in s.working.assignments && (a.user != user || a.tenant != tenant))
      && count == |RolesOf(s.working, user, tenant)|
      && s'.committed == (if autocommit then s'.working else s.committed)
  {
    var (s', count) := Removing(s, user, None, tenant, autocommit);
    var roles := RolesOf(s.working, user, tenant);
    var rows := RowsMatching(s.working, user, None, tenant);
    var f := (r: RoleId) => Assignment(user, r, tenant);
    forall a | a in rows ensures exists r :: r in roles && f(r) == a {
      assert a.role in roles && f(a.role) == a;
    }
    SameSize(f, roles, rows);
  }
}
