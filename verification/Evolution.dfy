/** What one change of the tables may do.

    `Advances` bundles the four promises that every change made by the services keeps: the
    invariant, isolation of the other tenants, the one-way life of invitations and users, and the
    single live invitation per (email, tenant).  It is reflexive and transitive, so each promise
    carries over to whole runs. */
module Evolution {
  import opened Base
  import opened Store

  // ---------- Isolation ----------

  /** Tenant `tenant` cannot tell the two stores apart through permissions. */
  ghost predicate Untouched(t: Tables, t': Tables, tenant: TenantId) {
    && t'.tenants == t.tenants
    && t'.permissions == t.permissions
    && RowsOf(t', tenant) == RowsOf(t, tenant)
    && (forall a, p :: a in RowsOf(t, tenant) ==> (Grant(a.role, p) in t'.grants <==> Grant(a.role, p) in t.grants))
  }

  /** Every tenant but the one addressed is untouched. */
  ghost predicate UntouchedElsewhere(t: Tables, t': Tables, who: Option<TenantId>) {
    forall tenant :: Some(tenant) != who ==> Untouched(t, t', tenant)
  }

  lemma UntouchedEffective(t: Tables, t': Tables, user: UserId, tenant: TenantId)
    requires Untouched(t, t', tenant)
    ensures Effective(t', user, tenant) == Effective(t, user, tenant)
    ensures Member(t', user, tenant) <==> Member(t, user, tenant)
  {
    assert forall a: Assignment :: a.tenant == tenant ==> (a in t.assignments <==> a in RowsOf(t, tenant));
    assert forall a: Assignment :: a.tenant == tenant ==> (a in t'.assignments <==> a in RowsOf(t', tenant));
    forall p ensures Holds(t', user, tenant, p) <==> Holds(t, user, tenant, p) {
      if Holds(t, user, tenant, p) {
        var a :| a in t.assignments && a.user == user && a.tenant == tenant && Grant(a.role, p) in t.grants;
        assert a in t'.assignments && Grant(a.role, p) in t'.grants;
      }
      if Holds(t', user, tenant, p) {
        var a :| a in t'.assignments && a.user == user && a.tenant == tenant && Grant(a.role, p) in t'.grants;
        assert a in t.assignments && Grant(a.role, p) in t.grants;
      }
    }
  }

  // ---------- The life of an invitation ----------

  function Rank(s: Status): nat {
    match s
    case Pending => 2
    case Accepted => 1
    case Revoked => 1
    case Expired => 0
  }

  /** A later version of the same row: the status is the same or of lower rank, the identifying
      fields are fixed, and `user_id` and `accepted_at` change only while PENDING, where they are unset. */
  ghost predicate Progress(a: Invitation, b: Invitation) {
    && b.email == a.email && b.token == a.token && b.tenant == a.tenant && b.inviter == a.inviter
    && b.role == a.role && b.expiresAt == a.expiresAt
    && (b.status == a.status || Rank(b.status) < Rank(a.status))
    && ((b.user == a.user && b.acceptedAt == a.acceptedAt) || (a.status.Pending? && !b.status.Pending?))
  }

  /** No invitation and no user ever disappears. */
  ghost predicate Forward(t: Tables, t': Tables) {
    && (forall i :: i in t.invitations ==> i in t'.invitations && Progress(t.invitations[i], t'.invitations[i]))
    && (forall u :: u in t.users ==> u in t'.users && t'.users[u].email == t.users[u].email)
  }

  // ---------- One live invitation ----------

  ghost predicate OneLive(t: Tables, now: int) {
    forall i, j | i in t.invitations && j in t.invitations && i != j
                && Live(t.invitations[i], now) && Live(t.invitations[j], now) ::
      t.invitations[i].email != t.invitations[j].email || t.invitations[i].tenant != t.invitations[j].tenant
  }

  lemma OneLiveLater(t: Tables, now: int, later: int)
    requires OneLive(t, now) && now <= later
    ensures OneLive(t, later)
  {}

  ghost predicate KeepsOneLive(t: Tables, t': Tables, now: int) {
    forall later :: now <= later && OneLive(t, later) ==> OneLive(t', later)
  }

  // ---------- The bundle ----------

  ghost predicate Advances(t: Tables, t': Tables, who: Option<TenantId>, now: int) {
    Inv(t) ==> Inv(t') && UntouchedElsewhere(t, t', who) && Forward(t, t') && KeepsOneLive(t, t', now)
  }

  lemma Reflexive(t: Tables, who: Option<TenantId>, now: int)
    ensures Advances(t, t, who, now)
  {}

  lemma ForwardTransitive(t: Tables, t1: Tables, t2: Tables)
    requires WellShaped(t) && Forward(t, t1) && Forward(t1, t2)
    ensures Forward(t, t2)
  {}

  lemma UntouchedTransitive(t: Tables, t1: Tables, t2: Tables, tenant: TenantId)
    requires Untouched(t, t1, tenant) && Untouched(t1, t2, tenant)
    ensures Untouched(t, t2, tenant)
  {}

  lemma Transitive(t: Tables, t1: Tables, t2: Tables, who: Option<TenantId>, now: int, later: int)
    requires now <= later && Advances(t, t1, who, now) && Advances(t1, t2, who, later)
    ensures Advances(t, t2, who, later)
  {
    if Inv(t) {
      forall tenant | Some(tenant) != who ensures Untouched(t, t2, tenant) {
        UntouchedTransitive(t, t1, t2, tenant);
      }
      ForwardTransitive(t, t1, t2);
    }
  }

  // ---------- The kinds of change ----------

  /** The rows of one tenant are replaced by rows that satisfy the keys and the access rule. */
  lemma AssignmentsChange(t: Tables, rows: set<Assignment>, tenant: TenantId, now: int)
    requires forall a :: a in rows && a !in t.assignments ==>
      a.tenant == tenant && a.user in t.users && a.tenant in t.tenants && Accessible(t, a.role, tenant)
    requires forall a :: a in t.assignments && a !in rows ==> a.tenant == tenant
    ensures Advances(t, t.(assignments := rows), Some(tenant), now)
  {}

  /** A custom role of `tenant` is added or edited, keeping its owner, and its grants are replaced. */
  lemma RoleChange(t: Tables, id: RoleId, role: Role, grants: set<Grant>, tenant: TenantId, now: int)
    requires role.tenant == Some(tenant) && !role.isSystem && tenant in t.tenants
    requires id in t.roles ==> t.roles[id].tenant == Some(tenant) && !t.roles[id].isSystem
    requires forall g: Grant :: g.role != id ==> (g in grants <==> g in t.grants)
    requires forall g :: g in grants && g.role == id ==> g.permission in t.permissions
    ensures Advances(t, t.(roles := t.roles[id := role], grants := grants), Some(tenant), now)
  {}

  /** A custom role of `tenant` is deleted; the foreign keys cascade. */
  function DropRole(t: Tables, id: RoleId): Tables {
    t.(roles := t.roles - {id},
       grants := (set g | g in t.grants && g.role != id),
       assignments := (set a | a in t.assignments && a.role != id))
  }

  lemma RoleDrop(t: Tables, id: RoleId, tenant: TenantId, now: int)
    requires id in t.roles && t.roles[id].tenant == Some(tenant) && !t.roles[id].isSystem
    ensures Advances(t, DropRole(t, id), Some(tenant), now)
  {}

  lemma UserAdd(t: Tables, id: UserId, user: User, who: Option<TenantId>, now: int)
    requires id !in t.users && !EmailTaken(t, user.email)
    ensures Advances(t, t.(users := t.users[id := user]), who, now)
  {}

  function WithInvitation(t: Tables, id: InvitationId, inv: Invitation): Tables {
    t.(invitations := t.invitations[id := inv])
  }

  /** A row that is new under its token, or that keeps its old token, leaves the invariant standing. */
  lemma InvitationInv(t: Tables, id: InvitationId, inv: Invitation)
    requires Inv(t) && Shaped(inv) && InvitationKeys(t, inv)
    requires if id in t.invitations then t.invitations[id].token == inv.token else !TokenTaken(t, inv.token)
    ensures Inv(WithInvitation(t, id, inv))
  {}

  /** A stored invitation moves on. */
  lemma InvitationMoves(t: Tables, id: InvitationId, inv: Invitation, who: Option<TenantId>, now: int)
    requires id in t.invitations && Progress(t.invitations[id], inv) && Shaped(inv)
    requires InvitationKeys(t, inv)
    ensures Advances(t, WithInvitation(t, id, inv), who, now)
  {
    if Inv(t) {
      InvitationInv(t, id, inv);
      MoveKeepsOneLive(t, id, inv, now);
    }
  }

  lemma MoveKeepsOneLive(t: Tables, id: InvitationId, inv: Invitation, now: int)
    requires id in t.invitations && Progress(t.invitations[id], inv)
    ensures KeepsOneLive(t, WithInvitation(t, id, inv), now)
  {}

  /** A new invitation, made when no live one exists for its email and tenant. */
  lemma InvitationAdd(t: Tables, id: InvitationId, inv: Invitation, checked: int, who: Option<TenantId>, now: int)
    requires id !in t.invitations && !TokenTaken(t, inv.token)
    requires inv.status.Pending? && Shaped(inv) && InvitationKeys(t, inv)
    requires LiveRows(t, inv.email, inv.tenant, checked) == {} && checked <= now
    ensures Advances(t, WithInvitation(t, id, inv), who, now)
  {
    if Inv(t) {
      InvitationInv(t, id, inv);
      AddKeepsOneLive(t, id, inv, checked, now);
    }
  }

  lemma AddKeepsOneLive(t: Tables, id: InvitationId, inv: Invitation, checked: int, now: int)
    requires id !in t.invitations
    requires LiveRows(t, inv.email, inv.tenant, checked) == {} && checked <= now
    ensures KeepsOneLive(t, WithInvitation(t, id, inv), now)
  {
    var t' := WithInvitation(t, id, inv);
    forall i, later | i in t.invitations && now <= later && Live(t.invitations[i], later)
      ensures t.invitations[i].email != inv.email || t.invitations[i].tenant != inv.tenant
    {
      assert i !in LiveRows(t, inv.email, inv.tenant, checked);
    }
  }
}
