/** The relational store behind the identity services: the rows of models/iam, the keys the
    database enforces on them, and the two invariants the services add. */
module Store {
  import opened Base

  type UserId = int
  type TenantId = int
  type RoleId = int
  type PermissionId = int
  type InvitationId = int

  datatype User = User(email: string, isActive: bool, isSuperuser: bool)

  /** `tenant` is None for a global role. */
  datatype Role = Role(name: string, description: Option<string>, tenant: Option<TenantId>, isSystem: bool)

  datatype Permission = Permission(name: string, code: string)

  /** A row of user_tenant_roles, and a row of role_permissions. */
  datatype Assignment = Assignment(user: UserId, role: RoleId, tenant: TenantId)
  datatype Grant = Grant(role: RoleId, permission: PermissionId)

  datatype Status = Pending | Accepted | Expired | Revoked

  datatype Invitation = Invitation(
    email: string, token: string, tenant: TenantId, inviter: UserId, role: Option<RoleId>,
    expiresAt: int, status: Status, user: Option<UserId>, acceptedAt: Option<int>)

  /** Primary keys are the map keys and the set elements. */
  datatype Tables = Tables(
    users: map<UserId, User>,
    tenants: set<TenantId>,
    roles: map<RoleId, Role>,
    permissions: map<PermissionId, Permission>,
    assignments: set<Assignment>,
    grants: set<Grant>,
    invitations: map<InvitationId, Invitation>)

  // ---------- Keys enforced by the database ----------

  ghost predicate UniqueEmails(t: Tables) {
    forall u, v :: u in t.users && v in t.users && t.users[u].email == t.users[v].email ==> u == v
  }

  ghost predicate UniqueCodes(t: Tables) {
    forall p, q :: p in t.permissions && q in t.permissions && t.permissions[p].code == t.permissions[q].code ==> p == q
  }

  ghost predicate UniqueTokens(t: Tables) {
    forall i, j :: i in t.invitations && j in t.invitations && t.invitations[i].token == t.invitations[j].token ==> i == j
  }

  ghost predicate ForeignKeys(t: Tables) {
    && (forall a :: a in t.assignments ==> a.user in t.users && a.role in t.roles && a.tenant in t.tenants)
    && (forall g :: g in t.grants ==> g.role in t.roles && g.permission in t.permissions)
    && (forall r :: r in t.roles && t.roles[r].tenant.Some? ==> t.roles[r].tenant.value in t.tenants)
    && (forall i :: i in t.invitations ==> InvitationKeys(t, t.invitations[i]))
  }

  ghost predicate InvitationKeys(t: Tables, inv: Invitation) {
    && inv.tenant in t.tenants
    && inv.inviter in t.users
    && (inv.user.Some? ==> inv.user.value in t.users)
  }

  // ---------- What the services keep ----------

  /** The access rule of role.py:239: the role exists and is a system role or the tenant's own. */
  predicate Accessible(t: Tables, role: RoleId, tenant: TenantId) {
    role in t.roles && (t.roles[role].isSystem || t.roles[role].tenant == Some(tenant))
  }

  /** Every assignment row's role is a system role or is owned by that row's tenant. */
  ghost predicate Scoped(t: Tables) {
    forall a :: a in t.assignments ==> Accessible(t, a.role, a.tenant)
  }

  /** `user_id` and `accepted_at` are written together; ACCEPTED has both, PENDING and REVOKED neither. */
  ghost predicate Shaped(inv: Invitation) {
    && (inv.user.Some? <==> inv.acceptedAt.Some?)
    && (inv.status.Accepted? ==> inv.user.Some?)
    && (inv.status.Pending? || inv.status.Revoked? ==> inv.user.None?)
  }

  ghost predicate WellShaped(t: Tables) {
    forall i :: i in t.invitations ==> Shaped(t.invitations[i])
  }

  ghost predicate Keyed(t: Tables) {
    UniqueEmails(t) && UniqueCodes(t) && UniqueTokens(t) && ForeignKeys(t)
  }

  /** The invariant of every reachable state. */
  ghost predicate Inv(t: Tables) {
    Keyed(t) && Scoped(t) && WellShaped(t)
  }

  // ---------- Queries ----------

  ghost predicate EmailTaken(t: Tables, email: string) {
    exists u :: u in t.users && t.users[u].email == email
  }

  ghost predicate TokenTaken(t: Tables, token: string) {
    exists i :: i in t.invitations && t.invitations[i].token == token
  }

  /** The rows of `get_by_name_in_tenant`. */
  function RolesNamed(t: Tables, name: string, tenant: TenantId): set<RoleId> {
    set r | r in t.roles && t.roles[r].name == name && t.roles[r].tenant == Some(tenant)
  }

  function RowsOf(t: Tables, tenant: TenantId): set<Assignment> {
    set a | a in t.assignments && a.tenant == tenant
  }

  predicate Member(t: Tables, user: UserId, tenant: TenantId) {
    exists a :: a in t.assignments && a.user == user && a.tenant == tenant
  }

  /** The permission codes a user holds in a tenant, through any role. */
  ghost function Effective(t: Tables, user: UserId, tenant: TenantId): set<string> {
    set p | p in t.permissions && Holds(t, user, tenant, p) :: t.permissions[p].code
  }

  ghost predicate Holds(t: Tables, user: UserId, tenant: TenantId, p: PermissionId) {
    exists a :: a in t.assignments && a.user == user && a.tenant == tenant && Grant(a.role, p) in t.grants
  }

  /** `get_by_token`: the token column is unique, so there is one row or none. */
  ghost function TokenRow(t: Tables, token: string): (row: Option<InvitationId>)
    ensures row.None? <==> !TokenTaken(t, token)
    ensures row.Some? ==> row.value in t.invitations && t.invitations[row.value].token == token
  {
    if TokenTaken(t, token)
    then var i :| i in t.invitations && t.invitations[i].token == token; Some(i)
    else None
  }

  function RowsWithToken(t: Tables, token: string): set<InvitationId> {
    set i | i in t.invitations && t.invitations[i].token == token
  }

  lemma TokenRowIsFirst(t: Tables, token: string, first: Option<InvitationId>)
    requires UniqueTokens(t) && IsFirst(first, RowsWithToken(t, token))
    ensures first == TokenRow(t, token)
  {
    if i :| i in t.invitations && t.invitations[i].token == token {
      assert i in RowsWithToken(t, token);
    }
  }

  /** PENDING and strictly before its expiry. */
  predicate Live(inv: Invitation, now: int) {
    inv.status.Pending? && inv.expiresAt > now
  }

  function LiveRows(t: Tables, email: string, tenant: TenantId, now: int): set<InvitationId> {
    set i | i in t.invitations && t.invitations[i].email == email && t.invitations[i].tenant == tenant
            && Live(t.invitations[i], now)
  }
}
