/** The database session: a working copy that statements change, and the committed copy that a
    rollback returns to (db/session.py; sessions keep their objects after a commit). */
module Sessions {
  import opened Base
  import opened Store
  import opened Evolution

  datatype Tx = Tx(working: Tables, committed: Tables) {
    function Write(t: Tables): Tx { Tx(t, committed) }
    function Commit(): Tx { Tx(working, working) }
    function Rollback(): Tx { Tx(committed, committed) }
  }

  // ---------- What a step may do to a session ----------

  ghost predicate Sound(s: Tx) {
    Inv(s.working) && Inv(s.committed) && Forward(s.committed, s.working)
  }

  /** `t` grew out of one of the two copies. */
  ghost predicate From(s: Tx, t: Tables, who: Option<TenantId>, now: int) {
    Advances(s.working, t, who, now) || Advances(s.committed, t, who, now)
  }

  ghost predicate Moves(s: Tx, s': Tx, who: Option<TenantId>, now: int) {
    Sound(s) ==>
      && Sound(s')
      && From(s, s'.working, who, now)
      && From(s, s'.committed, who, now)
      && Forward(s.committed, s'.committed)
  }

  lemma WriteMoves(s: Tx, t: Tables, who: Option<TenantId>, now: int)
    requires Advances(s.working, t, who, now)
    ensures Moves(s, s.Write(t), who, now)
  {
    if Sound(s) {
      Reflexive(s.committed, who, now);
      ForwardTransitive(s.committed, s.working, t);
    }
  }

  lemma CommitMoves(s: Tx, who: Option<TenantId>, now: int)
    ensures Moves(s, s.Commit(), who, now)
  {}

  lemma RollbackMoves(s: Tx, who: Option<TenantId>, now: int)
    ensures Moves(s, s.Rollback(), who, now)
  {}

  lemma StayMoves(s: Tx, who: Option<TenantId>, now: int)
    ensures Moves(s, s, who, now)
  {}

  lemma {:induction false} FromTransitive(s: Tx, s1: Tx, t: Tables, who: Option<TenantId>, now: int, later: int)
    requires now <= later
    requires From(s, s1.working, who, now) && From(s, s1.committed, who, now) && From(s1, t, who, later)
    ensures From(s, t, who, later)
  {
    var mid := if Advances(s1.working, t, who, later) then s1.working else s1.committed;
    if Advances(s.working, mid, who, now) {
      Transitive(s.working, mid, t, who, now, later);
    } else {
      Transitive(s.committed, mid, t, who, now, later);
    }
  }

  lemma {:induction false} MovesTransitive(s: Tx, s1: Tx, s2: Tx, who: Option<TenantId>, now: int, later: int)
    requires now <= later && Moves(s, s1, who, now) && Moves(s1, s2, who, later)
    ensures Moves(s, s2, who, later)
  {
    if Sound(s) {
      FromTransitive(s, s1, s2.working, who, now, later);
      FromTransitive(s, s1, s2.committed, who, now, later);
      ForwardTransitive(s.committed, s1.committed, s2.committed);
    }
  }

  lemma WriteCommitMoves(s: Tx, t: Tables, who: Option<TenantId>, now: int)
    requires Advances(s.working, t, who, now)
    ensures Moves(s, s.Write(t).Commit(), who, now)
  {
    WriteMoves(s, t, who, now);
    CommitMoves(s.Write(t), who, now);
    MovesTransitive(s, s.Write(t), s.Write(t).Commit(), who, now, now);
  }

  // ---------- The session object ----------

  /** A statement that violates a key changes nothing and reports `ok == false`. */
  class Session {
    var working: Tables
    var committed: Tables

    function State(): Tx
      reads this
    {
      Tx(working, committed)
    }

    constructor (t: Tables)
      ensures State() == Tx(t, t)
    {
      working, committed := t, t;
    }

    method Commit()
      modifies this
      ensures State() == old(State()).Commit()
    {
      committed := working;
    }

    method Rollback()
      modifies this
      ensures State() == old(State()).Rollback()
    {
      working := committed;
    }

    method InsertAssignment(a: Assignment) returns (ok: bool)
      modifies `working
      ensures ok <==> a !in old(working).assignments && a.user in old(working).users
                      && a.role in old(working).roles && a.tenant in old(working).tenants
      ensures working == if ok then old(working).(assignments := old(working).assignments + {a}) else old(working)
    {
      ok := a !in working.assignments && a.user in working.users && a.role in working.roles && a.tenant in working.tenants;
      if ok {
        working := working.(assignments := working.assignments + {a});
      }
    }

    method InsertGrant(g: Grant) returns (ok: bool)
      modifies `working
      ensures ok <==> g !in old(working).grants && g.role in old(working).roles && g.permission in old(working).permissions
      ensures working == if ok then old(working).(grants := old(working).grants + {g}) else old(working)
    {
      ok := g !in working.grants && g.role in working.roles && g.permission in working.permissions;
      if ok {
        working := working.(grants := working.grants + {g});
      }
    }

    method InsertRole(id: RoleId, role: Role) returns (ok: bool)
      modifies `working
      ensures ok <==> id !in old(working).roles && (role.tenant.Some? ==> role.tenant.value in old(working).tenants)
      ensures working == if ok then old(working).(roles := old(working).roles[id := role]) else old(working)
    {
      ok := id !in working.roles && (role.tenant.Some? ==> role.tenant.value in working.tenants);
      if ok {
        working := working.(roles := working.roles[id := role]);
      }
    }

    method InsertUser(id: UserId, user: User) returns (ok: bool)
      modifies `working
      ensures ok <==> id !in old(working).users && !EmailTaken(old(working), user.email)
      ensures working == if ok then old(working).(users := old(working).users[id := user]) else old(working)
    {
      ok := id !in working.users && !(exists u :: u in working.users && working.users[u].email == user.email);
      if ok {
        working := working.(users := working.users[id := user]);
      }
    }

    method InsertInvitation(id: InvitationId, inv: Invitation) returns (ok: bool)
      modifies `working
      ensures ok <==> id !in old(working).invitations && !TokenTaken(old(working), inv.token)
                      && inv.tenant in old(working).tenants && inv.inviter in old(working).users
                      && (inv.user.Some? ==> inv.user.value in old(working).users)
      ensures working == if ok then WithInvitation(old(working), id, inv) else old(working)
    {
      ok := id !in working.invitations && !(exists i :: i in working.invitations && working.invitations[i].token == inv.token)
            && inv.tenant in working.tenants && inv.inviter in working.users
            && (inv.user.Some? ==> inv.user.value in working.users);
      if ok {
        working := working.(invitations := working.invitations[id := inv]);
      }
    }

    /** Assigning attributes of a stored invitation; flushed with the next statement or commit. */
    method StoreInvitation(id: InvitationId, inv: Invitation)
      requires id in working.invitations
      modifies `working
      ensures working == WithInvitation(old(working), id, inv)
    {
      working := working.(invitations := working.invitations[id := inv]);
    }

    /** DELETE on roles with its two cascades, grants first. */
    method DeleteRole(id: RoleId)
      modifies `working
      ensures working == DropRole(old(working), id)
    {
      working := working.(grants := set g | g in working.grants && g.role != id);
      working := working.(assignments := set a | a in working.assignments && a.role != id);
      working := working.(roles := working.roles - {id});
    }
  }
}
