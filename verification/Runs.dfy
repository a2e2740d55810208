/** Whole runs: any sequence of service calls, commits and rollbacks on one session, with a clock that
    never runs backwards.  Everything here holds after every prefix of every run. */
module Runs {
  import opened Base
  import opened Store
  import opened Evolution
  import opened Sessions
  import opened RoleService
  import RoleLaws
  import opened UserService
  import UserLaws
  import opened InvitationService
  import InvitationLaws
  import Permissions

  /** `first` and `existing` are the answers of queries without an order. */
  datatype Step =
    | CreateRole(tenant: TenantId, roleIn: RoleCreate, roleId: RoleId)
    | UpdateRole(tenant: TenantId, roleId: RoleId, update: RoleUpdate)
    | DeleteRole(tenant: TenantId, roleId: RoleId)
    | SetUsers(tenant: TenantId, roleId: RoleId, ids: seq<UserId>)
    | AssignUser(tenant: TenantId, userId: UserId, roleId: RoleId, autocommit: bool)
    | UnassignUser(tenant: TenantId, userId: UserId, roleId: RoleId, autocommit: bool)
    | DropMember(tenant: TenantId, userId: UserId, autocommit: bool)
    | AddUser(tenant: TenantId, userIn: User, userId: UserId, first: Option<RoleId>, autocommit: bool)
    | Invite(request: InvitationCreate, invitationId: InvitationId, token: string, existing: Option<InvitationId>)
    | Verify(token: string)
    | Revoke(invitationId: InvitationId)
    | AcceptToken(token: string, userId: UserId, first: Option<RoleId>)
    | CommitNow
    | RollbackNow

  /** A step with up to three readings of the clock, in order. */
  datatype Event = Event(step: Step, t1: int, t2: int, t3: int)

  ghost function Apply(s: Tx, e: Event): Tx {
    match e.step
    case CreateRole(tenant, input, id) => CreatingCustomRole(s, input, tenant, id).0
    case UpdateRole(tenant, role, update) => UpdatingCustomRole(s, tenant, role, update).0
    case DeleteRole(tenant, role) => DeletingCustomRole(s, role, tenant).0
    case SetUsers(tenant, role, ids) => SettingUsers(s, role, tenant, ids).0
    case AssignUser(tenant, user, role, autocommit) => AssigningRole(s, user, role, tenant, autocommit).0
    case UnassignUser(tenant, user, role, autocommit) => Removing(s, user, Some(role), tenant, autocommit).0
    case DropMember(tenant, user, autocommit) => Removing(s, user, None, tenant, autocommit).0
    case AddUser(tenant, user, id, first, autocommit) => CreatingUser(s, user, tenant, id, first, autocommit).0
    case Invite(request, id, token, existing) => CreatingInvitation(s, request, id, token, e.t2, existing).0
    case Verify(token) => Verifying(s, token, e.t1).0
    case Revoke(id) => Revoking(s, id).0
    case AcceptToken(token, id, first) => AcceptRequest(s, token, id, first, e.t1, e.t2, e.t3).0
    case CommitNow => s.Commit()
    case RollbackNow => s.Rollback()
  }

  /** The query answers fit the state. */
  ghost predicate Enabled(s: Tx, e: Event) {
    match e.step
    case AddUser(tenant, _, _, first, _) => IsFirst(first, DefaultRoles(s.working, tenant))
    case Invite(request, _, _, existing) => IsFirst(existing, LiveRows(s.working, request.email, request.tenant, e.t1))
    case AcceptToken(token, _, first) => AnswersDefault(s, token, first)
    case _ => true
  }

  /** The tenant whose permissions a step may change. */
  ghost function Addressed(s: Tx, step: Step): Option<TenantId> {
    match step
    case Invite(_, _, _, _) => None
    case Verify(_) => None
    case Revoke(_) => None
    case AcceptToken(token, _, _) =>
      if TokenTaken(s.working, token) then Some(s.working.invitations[TokenRow(s.working, token).value].tenant) else None
    case CommitNow => None
    case RollbackNow => None
    case _ => Some(step.tenant)
  }

  ghost function Run(s: Tx, es: seq<Event>): Tx {
    if es == [] then s else Apply(Run(s, es[..|es| - 1]), es[|es| - 1])
  }

  function ClockAfter(start: int, es: seq<Event>): int {
    if es == [] then start else es[|es| - 1].t3
  }

  ghost predicate ValidRun(s: Tx, start: int, es: seq<Event>) {
    es == [] ||
    (var p, e := es[..|es| - 1], es[|es| - 1];
     ValidRun(s, start, p) && ClockAfter(start, p) <= e.t1 <= e.t2 <= e.t3 && Enabled(Run(s, p), e))
  }

  lemma {:induction false} StepMoves(s: Tx, e: Event)
    requires Enabled(s, e) && e.t1 <= e.t2 <= e.t3
    ensures Moves(s, Apply(s, e), Addressed(s, e.step), e.t3)
  {
    match e.step
    case CreateRole(tenant, input, id) => RoleLaws.CreatingMoves(s, input, tenant, id, e.t3);
    case UpdateRole(tenant, role, update) => RoleLaws.UpdatingMoves(s, tenant, role, update, e.t3);
    case DeleteRole(tenant, role) => RoleLaws.DeletingMoves(s, role, tenant, e.t3);
    case SetUsers(tenant, role, ids) => RoleLaws.SettingUsersMoves(s, role, tenant, ids, e.t3);
    case AssignUser(tenant, user, role, autocommit) => UserLaws.AssigningMoves(s, user, role, tenant, autocommit, e.t3);
    case UnassignUser(tenant, user, role, autocommit) => UserLaws.RemovingMoves(s, user, Some(role), tenant, autocommit, e.t3);
    case DropMember(tenant, user, autocommit) => UserLaws.RemovingMoves(s, user, None, tenant, autocommit, e.t3);
    case AddUser(tenant, user, id, first, autocommit) =>
      UserLaws.CreatingUserMoves(s, user, tenant, id, first, autocommit, e.t3);
    case Invite(request, id, token, existing) =>
      InvitationLaws.CreatingInvitationMoves(s, request, id, token, e.t1, e.t2, existing, None);
      StayMoves(Apply(s, e), None, e.t3);
      MovesTransitive(s, Apply(s, e), Apply(s, e), None, e.t2, e.t3);
    case Verify(token) => InvitationLaws.VerifyingMoves(s, token, e.t1, None, e.t3);
    case Revoke(id) => InvitationLaws.RevokingMoves(s, id, None, e.t3);
    case AcceptToken(token, id, first) =>
      if TokenTaken(s.working, token) {
        InvitationLaws.AcceptRequestMoves(s, token, id, first, e.t1, e.t2, e.t3, Addressed(s, e.step).value, e.t3);
      } else {
        RollbackMoves(s, None, e.t3);
      }
    case CommitNow => CommitMoves(s, None, e.t3);
    case RollbackNow => RollbackMoves(s, None, e.t3);
  }

  // ---------- The invariant ----------

  /** Keys, scoping and the shape of invitations hold in both copies after every run; in particular each
      assignment row names an existing user, tenant and role, and the role is a system role or the
      tenant's own. */
  lemma {:induction false} InvariantHolds(s: Tx, start: int, es: seq<Event>)
    requires Sound(s) && ValidRun(s, start, es)
    ensures Sound(Run(s, es))
  {
    if es != [] {
      var p, e := es[..|es| - 1], es[|es| - 1];
      InvariantHolds(s, start, p);
      StepMoves(Run(s, p), e);
    }
  }

  /** In any reachable state, deleting a custom role removes no assignment row in any tenant. */
  lemma DeletionSafeInRuns(s: Tx, start: int, es: seq<Event>, role: RoleId, tenant: TenantId)
    requires Sound(s) && ValidRun(s, start, es)
    ensures DeletingCustomRole(Run(s, es), role, tenant).0.working.assignments == Run(s, es).working.assignments
  {
    InvariantHolds(s, start, es);
    RoleLaws.DeletionKeepsAssignments(Run(s, es), role, tenant);
  }

  // ---------- Isolation ----------

  ghost predicate NeverAddresses(s: Tx, es: seq<Event>, tenant: TenantId) {
    forall i :: 0 <= i < |es| ==> Addressed(Run(s, es[..i]), es[i].step) != Some(tenant)
  }

  lemma {:induction false} UntouchedInRuns(s: Tx, start: int, es: seq<Event>, tenant: TenantId)
    requires Sound(s) && ValidRun(s, start, es) && NeverAddresses(s, es, tenant)
    requires Untouched(s.committed, s.working, tenant)
    ensures Untouched(s.committed, Run(s, es).working, tenant) && Untouched(s.committed, Run(s, es).committed, tenant)
  {
    if es != [] {
      var n := |es| - 1;
      var p, e := es[..n], es[n];
      forall i | 0 <= i < n ensures Addressed(Run(s, p[..i]), p[i].step) != Some(tenant) {
        assert p[..i] == es[..i];
      }
      UntouchedInRuns(s, start, p, tenant);
      InvariantHolds(s, start, p);
      StepMoves(Run(s, p), e);
      var now, who := Run(s, p), Addressed(Run(s, p), e.step);
      UntouchedFrom(s.committed, now, Run(s, es).working, who, e.t3, tenant);
      UntouchedFrom(s.committed, now, Run(s, es).committed, who, e.t3, tenant);
    }
  }

  lemma UntouchedFrom(base: Tables, s: Tx, t: Tables, who: Option<TenantId>, now: int, tenant: TenantId)
    requires Sound(s) && From(s, t, who, now) && who != Some(tenant)
    requires Untouched(base, s.working, tenant) && Untouched(base, s.committed, tenant)
    ensures Untouched(base, t, tenant)
  {}

  /** Tenant isolation over whole runs: starting from a fresh session, any sequence of steps addressed
      to other tenants leaves every user's membership and effective permissions in `tenant` unchanged,
      in the working copy and in the committed one. */
  lemma {:induction false} TenantIsolation(s: Tx, start: int, es: seq<Event>, tenant: TenantId, user: UserId)
    requires Sound(s) && s.working == s.committed
    requires ValidRun(s, start, es) && NeverAddresses(s, es, tenant)
    ensures Effective(Run(s, es).committed, user, tenant) == Effective(s.committed, user, tenant)
    ensures Effective(Run(s, es).working, user, tenant) == Effective(s.committed, user, tenant)
    ensures Member(Run(s, es).committed, user, tenant) <==> Member(s.committed, user, tenant)
  {
    UntouchedInRuns(s, start, es, tenant);
    UntouchedEffective(s.committed, Run(s, es).committed, user, tenant);
    UntouchedEffective(s.committed, Run(s, es).working, user, tenant);
  }

  /** So no such run changes what any permission check decides in that tenant. */
  lemma DecisionsIsolated(s: Tx, start: int, es: seq<Event>, tenant: TenantId, user: UserId, superuser: bool, code: string)
    requires Sound(s) && s.working == s.committed
    requires ValidRun(s, start, es) && NeverAddresses(s, es, tenant)
    ensures var t := Run(s, es).committed;
      && Permissions.RequirePermission(t, user, superuser, tenant, code)
         == Permissions.RequirePermission(s.committed, user, superuser, tenant, code)
      && Permissions.RequireInActiveTenant(t, user, superuser, Some(tenant), code)
         == Permissions.RequireInActiveTenant(s.committed, user, superuser, Some(tenant), code)
  {
    UntouchedInRuns(s, start, es, tenant);
    InvariantHolds(s, start, es);
    Permissions.ChecksIsolated(s.committed, Run(s, es).committed, user, superuser, tenant, code);
  }

  // ---------- At most one live invitation ----------

  /** At every moment from the last step on, no two PENDING unexpired invitations share an email and a
      tenant, whatever the number of days asked for. */
  lemma {:induction false} OneLiveAlways(s: Tx, start: int, es: seq<Event>, now: int)
    requires Sound(s) && OneLive(s.working, start) && OneLive(s.committed, start)
    requires ValidRun(s, start, es) && ClockAfter(start, es) <= now
    ensures OneLive(Run(s, es).working, now) && OneLive(Run(s, es).committed, now)
  {
    if es == [] {
      OneLiveLater(s.working, start, now);
      OneLiveLater(s.committed, start, now);
    } else {
      var p, e := es[..|es| - 1], es[|es| - 1];
      OneLiveAlways(s, start, p, now);
      InvariantHolds(s, start, p);
      StepMoves(Run(s, p), e);
    }
  }

  /** Verification still accepts at the very instant of expiry, and that is the only way two invitations for one
      email and tenant can both verify: in every reachable state one of them then expires at that instant. */
  lemma BothVerifyOnlyAtTheEdge(s: Tx, start: int, es: seq<Event>, now: int, i: InvitationId, j: InvitationId)
    requires Sound(s) && OneLive(s.working, start) && OneLive(s.committed, start)
    requires ValidRun(s, start, es) && ClockAfter(start, es) <= now
    requires var t := Run(s, es).working;
      && i in t.invitations && j in t.invitations && i != j
      && t.invitations[i].email == t.invitations[j].email && t.invitations[i].tenant == t.invitations[j].tenant
      && Verifying(Run(s, es), t.invitations[i].token, now).1 == Some(i)
      && Verifying(Run(s, es), t.invitations[j].token, now).1 == Some(j)
    ensures var t := Run(s, es).working;
      t.invitations[i].expiresAt == now || t.invitations[j].expiresAt == now
  {
    OneLiveAlways(s, start, es, now);
    InvariantHolds(s, start, es);
    InvitationLaws.VerificationExact(Run(s, es), Run(s, es).working.invitations[i].token, now, i);
    InvitationLaws.VerificationExact(Run(s, es), Run(s, es).working.invitations[j].token, now, j);
  }

  // ---------- The one-way life of invitations ----------

  /** Committed invitations and users never disappear, and invitations only progress. */
  lemma {:induction false} CommittedForward(s: Tx, start: int, es: seq<Event>, k: nat)
    requires Sound(s) && ValidRun(s, start, es) && k <= |es|
    ensures Forward(Run(s, es[..k]).committed, Run(s, es).committed)
    ensures ValidRun(s, start, es[..k])
  {
    if k == |es| {
      assert es[..k] == es;
    } else {
      var p, e := es[..|es| - 1], es[|es| - 1];
      CommittedForward(s, start, p, k);
      assert p[..k] == es[..k];
      InvariantHolds(s, start, p);
      InvariantHolds(s, start, es[..k]);
      StepMoves(Run(s, p), e);
      ForwardTransitive(Run(s, es[..k]).committed, Run(s, p).committed, Run(s, es).committed);
    }
  }

  /** How often the committed status of one invitation changed during the run. */
  ghost function Changes(s: Tx, es: seq<Event>, i: InvitationId): nat {
    if es == [] then 0
    else
      var before, after := Run(s, es[..|es| - 1]).committed, Run(s, es).committed;
      Changes(s, es[..|es| - 1], i)
      + if i in before.invitations && i in after.invitations
           && before.invitations[i].status != after.invitations[i].status then 1 else 0
  }

  lemma {:induction false} ChangesCostRank(s: Tx, start: int, es: seq<Event>, i: InvitationId)
    requires Sound(s) && ValidRun(s, start, es)
    ensures i !in Run(s, es).committed.invitations ==> Changes(s, es, i) == 0
    ensures i in Run(s, es).committed.invitations ==>
      Changes(s, es, i) + Rank(Run(s, es).committed.invitations[i].status) <= 2
  {
    if es != [] {
      var p := es[..|es| - 1];
      ChangesCostRank(s, start, p, i);
      CommittedForward(s, start, es, |es| - 1);
    }
  }

  /** The life of an invitation between any two moments of a run: the status changes at most twice in
      all, each change lowers the rank, PENDING never comes back, and `user_id` and `accepted_at` are
      written together and at most once. */
  lemma {:induction false} InvitationLife(s: Tx, start: int, es: seq<Event>, k: nat, i: InvitationId)
    requires Sound(s) && ValidRun(s, start, es) && k <= |es|
    requires i in Run(s, es[..k]).committed.invitations
    ensures i in Run(s, es).committed.invitations
    ensures Changes(s, es, i) <= 2
    ensures var a, b := Run(s, es[..k]).committed.invitations[i], Run(s, es).committed.invitations[i];
      && (!a.status.Pending? ==> !b.status.Pending? && b.user == a.user && b.acceptedAt == a.acceptedAt)
      && (a.status != b.status ==> Rank(b.status) < Rank(a.status))
      && (a.user.Some? ==> b.user == a.user && b.acceptedAt == a.acceptedAt)
      && Shaped(b)
  {
    CommittedForward(s, start, es, k);
    ChangesCostRank(s, start, es, i);
    InvariantHolds(s, start, es);
    InvariantHolds(s, start, es[..k]);
  }

  /** An invitation is accepted at most once: once its committed row has left PENDING, by acceptance, revocation or
      expiry, no later request in the run is accepted with its token. */
  lemma SpentForGood(s: Tx, start: int, es: seq<Event>, k: nat, i: InvitationId,
                     id: UserId, first: Option<RoleId>, verified: int, reverified: int, acceptedAt: int)
    requires Sound(s) && ValidRun(s, start, es) && k <= |es|
    requires i in Run(s, es[..k]).committed.invitations && !Run(s, es[..k]).committed.invitations[i].status.Pending?
    ensures AcceptRequest(Run(s, es), Run(s, es[..k]).committed.invitations[i].token, id, first, verified, reverified, acceptedAt).1.Failed?
  {
    InvitationLife(s, start, es, k, i);
    InvariantHolds(s, start, es);
    CommittedForward(s, start, es, k);
    var later := Run(s, es);
    assert Progress(later.committed.invitations[i], later.working.invitations[i]);
    InvitationLaws.SpentTokenRefused(later, i, id, first, verified, reverified, acceptedAt);
  }

  /** Revoking commits: from then on the row stays REVOKED, or EXPIRED once overdue, bound to nobody and otherwise
      unchanged, and its token is refused in every continuation. */
  lemma RevocationSticks(s: Tx, start: int, i: InvitationId, es: seq<Event>,
                         id: UserId, first: Option<RoleId>, verified: int, reverified: int, acceptedAt: int)
    requires Sound(s) && i in s.working.invitations && s.working.invitations[i].status.Pending?
    requires ValidRun(Revoking(s, i).0, start, es)
    ensures var t := Run(Revoking(s, i).0, es).committed;
      && i in t.invitations && (t.invitations[i].status.Revoked? || t.invitations[i].status.Expired?)
      && t.invitations[i] == s.working.invitations[i].(status := t.invitations[i].status)
    ensures AcceptRequest(Run(Revoking(s, i).0, es), s.working.invitations[i].token, id, first, verified, reverified, acceptedAt).1.Failed?
  {
    var s1 := Revoking(s, i).0;
    InvitationLaws.RevocationExact(s, i);
    InvitationLaws.RevokingMoves(s, i, None, start);
    assert es[..0] == [];
    CommittedForward(s1, start, es, 0);
    SpentForGood(s1, start, es, 0, i, id, first, verified, reverified, acceptedAt);
  }

  /** The invitation just made keeps what was asked for, in every continuation. */
  lemma InvitationKept(s: Tx, request: InvitationCreate, invitation: InvitationId, token: string, checked: int, stamped: int,
                       start: int, es: seq<Event>)
    requires Sound(s)
    requires IsFirst(None, LiveRows(s.working, request.email, request.tenant, checked)) && checked <= stamped
    requires CreatingInvitation(s, request, invitation, token, stamped, None).1.Done?
    requires ValidRun(CreatingInvitation(s, request, invitation, token, stamped, None).0, start, es)
    ensures var now := Run(CreatingInvitation(s, request, invitation, token, stamped, None).0, es);
      && Sound(now) && invitation in now.committed.invitations
      && var row := now.committed.invitations[invitation];
      row.email == request.email && row.token == token && row.tenant == request.tenant && row.role == request.role
  {
    var made := CreatingInvitation(s, request, invitation, token, stamped, None).0;
    InvitationLaws.CreatingInvitationMoves(s, request, invitation, token, checked, stamped, None, None);
    assert es[..0] == [];
    CommittedForward(made, start, es, 0);
    InvariantHolds(made, start, es);
    assert Progress(made.committed.invitations[invitation], Run(made, es).committed.invitations[invitation]);
  }

  /** What the new user of an accepted invitation holds. */
  lemma NewcomerHolds(t: Tables, i: InvitationId, id: UserId, first: RoleId, acceptedAt: int)
    requires Inv(t) && i in t.invitations && id !in t.users && first in DefaultRoles(t, t.invitations[i].tenant)
    ensures var inv, t' := t.invitations[i], InvitationLaws.AcceptedStore(t, i, id, first, acceptedAt);
      var roles := {first} + if inv.role.Some? && Accessible(t, inv.role.value, inv.tenant) then {inv.role.value} else {};
      && UserLaws.RolesOf(t', id, inv.tenant) == roles
      && (forall tenant :: Member(t', id, tenant) <==> tenant == inv.tenant)
      && Effective(t', id, inv.tenant)
         == UserLaws.CodesOf(t, first)
            + if inv.role.Some? && Accessible(t, inv.role.value, inv.tenant) then UserLaws.CodesOf(t, inv.role.value) else {}
  {
    var inv, t' := t.invitations[i], InvitationLaws.AcceptedStore(t, i, id, first, acceptedAt);
    assert Assignment(id, first, inv.tenant) in t'.assignments;
    var roles := {first} + if inv.role.Some? && Accessible(t, inv.role.value, inv.tenant) then {inv.role.value} else {};
    forall r ensures r in UserLaws.RolesOf(t', id, inv.tenant) <==> r in roles {}
    forall c ensures c in Effective(t', id, inv.tenant) <==> exists r :: r in roles && c in UserLaws.CodesOf(t, r) {
      UserLaws.EffectiveByRoles(t', id, inv.tenant, c);
      assert forall r :: UserLaws.CodesOf(t', r) == UserLaws.CodesOf(t, r);
    }
  }

  /** An acceptance on a fresh session, told from what its new user then holds. */
  lemma NewcomerOf(s: Tx, token: string, i: InvitationId, id: UserId, first: Option<RoleId>,
                   verified: int, reverified: int, acceptedAt: int)
    requires Sound(s) && s.working == s.committed && verified <= reverified && AnswersDefault(s, token, first)
    requires i in s.committed.invitations && s.committed.invitations[i].token == token
    requires AcceptRequest(s, token, id, first, verified, reverified, acceptedAt).1.Done?
    ensures var t, t' := s.committed, AcceptRequest(s, token, id, first, verified, reverified, acceptedAt).0.committed;
      var inv := t.invitations[i];
      var given := inv.role.Some? && Accessible(t, inv.role.value, inv.tenant);
      && first.Some? && id in t'.users && t'.users[id] == User(inv.email, true, false)
      && UserLaws.RolesOf(t', id, inv.tenant) == {first.value} + (if given then {inv.role.value} else {})
      && (forall tenant :: Member(t', id, tenant) <==> tenant == inv.tenant)
      && Effective(t', id, inv.tenant)
         == UserLaws.CodesOf(t, first.value) + (if given then UserLaws.CodesOf(t, inv.role.value) else {})
      && i in t'.invitations && t'.invitations[i].status.Accepted? && t'.invitations[i].user == Some(id)
  {
    assert TokenRow(s.committed, token) == Some(i);
    InvitationLaws.AcceptExact(s, token, id, first, verified, reverified, acceptedAt);
    NewcomerHolds(s.committed, i, id, first.value, acceptedAt);
  }

  /** From the request to the acceptance: whatever happens between, if the invitation just made is accepted later, its
      user has the email asked for and belongs to the tenant asked for and no other, with exactly the default role
      and, if it is still accessible there, the role asked for; so their codes are what the user may do. */
  lemma InvitedRoleArrives(s: Tx, request: InvitationCreate, invitation: InvitationId, token: string, checked: int, stamped: int,
                           start: int, es: seq<Event>, role: RoleId,
                           id: UserId, first: Option<RoleId>, verified: int, reverified: int, acceptedAt: int)
    requires Sound(s) && request.role == Some(role)
    requires IsFirst(None, LiveRows(s.working, request.email, request.tenant, checked)) && checked <= stamped
    requires CreatingInvitation(s, request, invitation, token, stamped, None).1.Done?
    requires ValidRun(CreatingInvitation(s, request, invitation, token, stamped, None).0, start, es)
    requires var now := Run(CreatingInvitation(s, request, invitation, token, stamped, None).0, es);
      && now.working == now.committed && verified <= reverified && AnswersDefault(now, token, first)
      && AcceptRequest(now, token, id, first, verified, reverified, acceptedAt).1.Done?
    ensures var now := Run(CreatingInvitation(s, request, invitation, token, stamped, None).0, es);
      var t, t' := now.committed, AcceptRequest(now, token, id, first, verified, reverified, acceptedAt).0.committed;
      var arrives := role in t.roles && (t.roles[role].isSystem || t.roles[role].tenant == Some(request.tenant));
      && first.Some? && id in t'.users && t'.users[id] == User(request.email, true, false)
      && UserLaws.RolesOf(t', id, request.tenant) == {first.value} + (if arrives then {role} else {})
      && (forall tenant :: Member(t', id, tenant) <==> tenant == request.tenant)
      && Effective(t', id, request.tenant)
         == UserLaws.CodesOf(t, first.value) + (if arrives then UserLaws.CodesOf(t, role) else {})
      && invitation in t'.invitations && t'.invitations[invitation].status.Accepted? && t'.invitations[invitation].user == Some(id)
  {
    InvitationKept(s, request, invitation, token, checked, stamped, start, es);
    var now := Run(CreatingInvitation(s, request, invitation, token, stamped, None).0, es);
    NewcomerOf(now, token, invitation, id, first, verified, reverified, acceptedAt);
  }

  /** Expiry is tested before the status, so verifying is what uses up the last rank: once an accepted or revoked
      invitation is overdue, a verification marks it EXPIRED, counts as one more change, and keeps the user and
      the time it was bound to. */
  lemma VerifyingSpendsLastRank(s: Tx, start: int, es: seq<Event>, i: InvitationId, now: int)
    requires Sound(s) && ValidRun(s, start, es) && ClockAfter(start, es) <= now
    requires var t := Run(s, es).committed;
      && i in t.invitations && t.invitations[i].expiresAt < now
      && (t.invitations[i].status.Accepted? || t.invitations[i].status.Revoked?)
    ensures var t := Run(s, es).committed;
      var es' := es + [Event(Verify(t.invitations[i].token), now, now, now)];
      && ValidRun(s, start, es')
      && Changes(s, es', i) == Changes(s, es, i) + 1
      && Run(s, es').committed.invitations[i] == t.invitations[i].(status := Expired)
  {
    InvariantHolds(s, start, es);
    var t := Run(s, es).committed;
    var e := Event(Verify(t.invitations[i].token), now, now, now);
    var w := Run(s, es).working;
    assert i in w.invitations && Progress(t.invitations[i], w.invitations[i]);
    assert TokenRow(w, w.invitations[i].token) == Some(i);
    assert (es + [e])[..|es|] == es;
  }

  lemma SingleStep(s: Tx, e: Event, i: InvitationId)
    requires Enabled(s, e) && e.t1 <= e.t2 <= e.t3
    ensures ValidRun(s, e.t1, [e]) && Run(s, [e]) == Apply(s, e)
    ensures Changes(s, [e], i)
         == if i in s.committed.invitations && i in Apply(s, e).committed.invitations
               && s.committed.invitations[i].status != Apply(s, e).committed.invitations[i].status then 1 else 0
  {
    var es := [e];
    assert es[..|es| - 1] == [] && es[|es| - 1] == e;
    assert ValidRun(s, e.t1, []) && Run(s, []) == s;
  }

  /** An acceptable request is a run of its own, with one change of status. */
  lemma AcceptingIsOneChange(s: Tx, token: string, i: InvitationId, id: UserId, first: Option<RoleId>, now: int)
    requires Sound(s) && s.working == s.committed && TokenRow(s.working, token) == Some(i)
    requires AnswersDefault(s, token, first)
    requires var inv := s.working.invitations[i];
      inv.status.Pending? && now <= inv.expiresAt && InvitationLaws.UserFits(s.working, id, inv)
    ensures var es := [Event(AcceptToken(token, id, first), now, now, now)];
      && ValidRun(s, now, es) && Changes(s, es, i) == 1 && Run(s, es).working == Run(s, es).committed
      && i in Run(s, es).committed.invitations
      && Run(s, es).committed.invitations[i] == Taken(s.working.invitations[i], id, now)
  {
    var e := Event(AcceptToken(token, id, first), now, now, now);
    assert Apply(s, e) == AcceptRequest(s, token, id, first, now, now, now).0;
    AcceptedRow(s, token, i, id, first, now);
    SingleStep(s, e, i);
  }

  lemma AcceptedRow(s: Tx, token: string, i: InvitationId, id: UserId, first: Option<RoleId>, now: int)
    requires Sound(s) && s.working == s.committed && TokenRow(s.working, token) == Some(i)
    requires AnswersDefault(s, token, first)
    requires var inv := s.working.invitations[i];
      inv.status.Pending? && now <= inv.expiresAt && InvitationLaws.UserFits(s.working, id, inv)
    ensures var s' := AcceptRequest(s, token, id, first, now, now, now).0;
      && s'.working == s'.committed && i in s'.committed.invitations
      && s'.committed.invitations[i] == Taken(s.working.invitations[i], id, now)
  {
    InvitationLaws.AcceptExact(s, token, id, first, now, now, now);
  }

  /** The bound of two changes is reached: an invitation can be accepted and later expire. */
  lemma TwoChangesHappen()
    ensures exists s, start, es, i ::
      && Sound(s) && ValidRun(s, start, es)
      && i in s.committed.invitations && s.committed.invitations[i].status.Pending?
      && Changes(s, es, i) == 2
  {
    var s := PendingStore();
    AcceptingIsOneChange(s, "tok", 5, 9, Some(3), 10);
    VerifyingSpendsLastRank(s, 10, [Event(AcceptToken("tok", 9, Some(3)), 10, 10, 10)], 5, 11);
  }

  /** One tenant with a default role, and one pending invitation that expires at 10. */
  ghost function PendingStore(): (s: Tx)
    ensures Sound(s) && s.working == s.committed && TokenRow(s.working, "tok") == Some(5)
    ensures s.working.invitations[5] == Invitation("new", "tok", 1, 7, None, 10, Pending, None, None)
    ensures AnswersDefault(s, "tok", Some(3)) && InvitationLaws.UserFits(s.working, 9, s.working.invitations[5])
  {
    var inv := Invitation("new", "tok", 1, 7, None, 10, Pending, None, None);
    var t := Tables(map[7 := User("old", true, false)], {1}, map[3 := Role(DEFAULT_ROLE_NAME, None, Some(1), false)],
                    map[], {}, {}, map[5 := inv]);
    assert t.invitations[5].token == "tok";
    assert TokenRow(t, "tok") == Some(5);
    assert 3 in DefaultRoles(t, 1);
    Tx(t, t)
  }

  /** The half-made user of an acceptance that expired half way bars the invitee in every continuation
      of the run: no invitation for that email is ever accepted again. */
  lemma HalfMadeUserBlocksRuns(s: Tx, start: int, e: Event, es: seq<Event>,
                               token: string, id: UserId, first: Option<RoleId>, v: int, r: int, a: int)
    requires Sound(s) && s.working == s.committed && Enabled(s, e) && e.t1 <= e.t2 <= e.t3
    requires e.step.AcceptToken? && InvitationLaws.ExpiresHalfWay(s.working, e.step.token, e.step.userId, e.t1, e.t2)
    requires ValidRun(Apply(s, e), start, es)
    requires var t := Run(Apply(s, e), es).working;
      && TokenTaken(t, token)
      && t.invitations[TokenRow(t, token).value].email
         == s.working.invitations[TokenRow(s.working, e.step.token).value].email
    ensures AcceptRequest(Run(Apply(s, e), es), token, id, first, v, r, a).1.Failed?
  {
    var s1 := Apply(s, e);
    StepMoves(s, e);
    InvariantHolds(s1, start, es);
    CommittedForward(s1, start, es, 0);
    var later := Run(s1, es);
    ForwardTransitive(s1.committed, later.committed, later.working);
    InvitationLaws.HalfMadeUserBlocksRetry(s, e.step.token, e.step.userId, e.step.first, e.t1, e.t2, e.t3,
                                           later, token, id, first, v, r, a);
  }
}
