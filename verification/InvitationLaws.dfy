/** What the invitation operations guarantee. */
module InvitationLaws {
  import opened Base
  import opened Store
  import opened Evolution
  import opened Sessions
  import opened UserService
  import UserLaws
  import opened InvitationService

  // ---------- Every operation advances the session ----------

  lemma InvitationMovesTx(s: Tx, i: InvitationId, inv: Invitation, who: Option<TenantId>, now: int)
    requires i in s.working.invitations && Progress(s.working.invitations[i], inv)
    requires Inv(s.working) ==> Shaped(inv) && InvitationKeys(s.working, inv)
    ensures Moves(s, s.Write(WithInvitation(s.working, i, inv)), who, now)
    ensures Moves(s, s.Write(WithInvitation(s.working, i, inv)).Commit(), who, now)
  {
    if Inv(s.working) {
      InvitationMoves(s.working, i, inv, who, now);
    }
    WriteMoves(s, WithInvitation(s.working, i, inv), who, now);
    WriteCommitMoves(s, WithInvitation(s.working, i, inv), who, now);
  }

  lemma CreatingInvitationMoves(s: Tx, request: InvitationCreate, id: InvitationId, token: string, checked: int, stamped: int,
                                existing: Option<InvitationId>, who: Option<TenantId>)
    requires IsFirst(existing, LiveRows(s.working, request.email, request.tenant, checked)) && checked <= stamped
    ensures Moves(s, CreatingInvitation(s, request, id, token, stamped, existing).0, who, stamped)
  {
    var inv := Draft(request, token, stamped);
    StayMoves(s, who, stamped);
    RollbackMoves(s, who, stamped);
    if existing.None? && InvitationInsertable(s.working, id, inv) {
      InvitationAdd(s.working, id, inv, checked, who, stamped);
      WriteCommitMoves(s, WithInvitation(s.working, id, inv), who, stamped);
    }
  }

  lemma {:induction false} VerifyingMoves(s: Tx, token: string, now: int, who: Option<TenantId>, at: int)
    ensures Moves(s, Verifying(s, token, now).0, who, at)
  {
    StayMoves(s, who, at);
    match TokenRow(s.working, token)
    case None =>
    case Some(i) =>
      var inv := s.working.invitations[i];
      InvitationMovesTx(s, i, inv.(status := Expired), who, at);
  }

  lemma {:induction false} RevokingMoves(s: Tx, id: InvitationId, who: Option<TenantId>, now: int)
    ensures Moves(s, Revoking(s, id).0, who, now)
  {
    StayMoves(s, who, now);
    if id in s.working.invitations && s.working.invitations[id].status.Pending? {
      InvitationMovesTx(s, id, s.working.invitations[id].(status := Revoked), who, now);
    }
  }

  lemma {:induction false} AcceptingMoves(s: Tx, token: string, user: UserId, now: int, acceptedAt: int, tenant: TenantId, at: int)
    requires TokenRow(s.working, token).Some? ==> s.working.invitations[TokenRow(s.working, token).value].tenant == tenant
    ensures Moves(s, Accepting(s, token, user, now, acceptedAt).0, Some(tenant), at)
  {
    var who := Some(tenant);
    VerifyingMoves(s, token, now, who, at);
    var (verified, found) := Verifying(s, token, now);
    if found.Some? {
      RollbackMoves(s, who, at);
      if user in s.working.users {
        var i := found.value;
        var inv := s.working.invitations[i];
        InvitationMovesTx(s, i, Taken(inv, user, acceptedAt), who, at);
        var taken := s.Write(WithInvitation(s.working, i, Taken(inv, user, acceptedAt)));
        UserLaws.EndedMoves(s, taken, true, who, at);
        if inv.role.Some? {
          var joined := AssigningRole(taken, user, inv.role.value, tenant, false).0;
          UserLaws.AssigningMoves(taken, user, inv.role.value, tenant, false, at);
          MovesTransitive(s, taken, joined, who, at, at);
          UserLaws.EndedMoves(s, joined, true, who, at);
        }
      }
    }
  }

  lemma {:induction false} AcceptRequestMoves(s: Tx, token: string, id: UserId, first: Option<RoleId>,
                           verified: int, reverified: int, acceptedAt: int, tenant: TenantId, at: int)
    requires TokenRow(s.working, token).Some? ==> s.working.invitations[TokenRow(s.working, token).value].tenant == tenant
    requires AnswersDefault(s, token, first)
    ensures Moves(s, AcceptRequest(s, token, id, first, verified, reverified, acceptedAt).0, Some(tenant), at)
  {
    var who := Some(tenant);
    var (s1, found) := Verifying(s, token, verified);
    VerifyingMoves(s, token, verified, who, at);
    ClosingMoves(s, s1, who, at);
    if found.Some? && Sound(s) {
      var inv := s.working.invitations[found.value];
      UserLaws.CreatingUserMoves(s, Invitee(inv), tenant, id, first, false, at);
      var (s2, made) := CreatingUser(s, Invitee(inv), tenant, id, first, false);
      ClosingMoves(s, s2, who, at);
      if made.Done? {
        TokenRowStable(s.working, s2.working, token);
        AcceptingMoves(s2, token, id, reverified, acceptedAt, tenant, at);
        var s3 := Accepting(s2, token, id, reverified, acceptedAt).0;
        MovesTransitive(s, s2, s3, who, at, at);
        ClosingMoves(s, s3, who, at);
      }
    }
  }

  lemma TokenRowStable(t: Tables, t': Tables, token: string)
    requires UniqueTokens(t) && t'.invitations == t.invitations
    ensures TokenRow(t', token) == TokenRow(t, token)
  {}

  lemma ClosingMoves(s: Tx, s1: Tx, who: Option<TenantId>, at: int)
    requires Moves(s, s1, who, at)
    ensures Moves(s, s1.Rollback(), who, at)
  {}

  // ---------- Creating, verifying and revoking ----------

  /** Asking for an invitation: the answer is a row for that email and tenant, an existing live one if there is
      any, and then nothing changes; otherwise the row is new, committed, PENDING, and carries what was asked for. */
  lemma CreationAnswers(s: Tx, request: InvitationCreate, id: InvitationId, token: string, checked: int, stamped: int,
                        existing: Option<InvitationId>)
    requires Inv(s.working) && OneLive(s.working, checked) && checked <= stamped
    requires IsFirst(existing, LiveRows(s.working, request.email, request.tenant, checked))
    ensures var (s', out) := CreatingInvitation(s, request, id, token, stamped, existing);
      && (existing.Some? ==> s' == s && out == Done(existing.value))
      && (out.Failed? ==> out == Failed(Constraint) && s' == Tx(s.committed, s.committed))
      && (out.Failed? <==>
          existing.None? && (id in s.working.invitations || TokenTaken(s.working, token)
                             || request.tenant !in s.working.tenants || request.inviter !in s.working.users))
      && (existing.None? && out.Done? ==>
          && s'.working == s'.committed && out.value == id && id in s'.committed.invitations
          && var row := s'.committed.invitations[id];
          && row.email == request.email && row.token == token && row.tenant == request.tenant
          && row.inviter == request.inviter && row.role == request.role
          && row.expiresAt == stamped + request.expiresInDays * 24 * 60 * 60 * 1_000_000
          && row.status.Pending? && row.user.None? && row.acceptedAt.None?
          && s'.committed == s.working.(invitations := s.working.invitations[id := row])
          && id !in s.working.invitations)
      && (out.Done? && 0 < request.expiresInDays ==>
          LiveRows(s'.working, request.email, request.tenant, checked) == {out.value})
  {
    var (s', out) := CreatingInvitation(s, request, id, token, stamped, existing);
    var before, after := LiveRows(s.working, request.email, request.tenant, checked),
                         LiveRows(s'.working, request.email, request.tenant, checked);
    if existing.None? && out.Done? {
      forall i | i in after ensures i == id {
        assert i != id ==> i in before;
      }
    }
    if existing.Some? {
      forall i | i in after ensures i == existing.value {
        assert Live(s.working.invitations[i], checked) && Live(s.working.invitations[existing.value], checked);
      }
    }
    if out.Done? && 0 < request.expiresInDays {
      assert out.value in after;
      assert after == {out.value};
    }
  }

  /** An existing row answers exactly when it is PENDING, for that email and tenant, and strictly before its expiry;
      a row just made does so exactly until the number of days asked for has passed. */
  lemma AnswersWhileLive(s: Tx, request: InvitationCreate, id: InvitationId, token: string, stamped: int, now: int, i: InvitationId)
    requires Inv(s.working)
    ensures i in LiveRows(s.working, request.email, request.tenant, now) <==>
      && i in s.working.invitations && s.working.invitations[i].email == request.email
      && s.working.invitations[i].tenant == request.tenant
      && s.working.invitations[i].status.Pending? && now < s.working.invitations[i].expiresAt
    ensures CreatingInvitation(s, request, id, token, stamped, None).1.Done? ==>
      (id in LiveRows(CreatingInvitation(s, request, id, token, stamped, None).0.committed, request.email, request.tenant, now)
       <==> now < stamped + request.expiresInDays * 86_400_000_000)
  {}

  /** A token verifies exactly when its row is PENDING and not past its expiry.  Verifying changes the store exactly
      when the row is past its expiry, whatever its status: then that row alone becomes EXPIRED, and everything the
      session had pending is committed with it. */
  lemma VerificationExact(s: Tx, token: string, now: int, i: InvitationId)
    requires Inv(s.working)
    ensures var (s', found) := Verifying(s, token, now);
      && (found == Some(i) <==>
          i in s.working.invitations && s.working.invitations[i].token == token
          && s.working.invitations[i].status.Pending? && now <= s.working.invitations[i].expiresAt)
      && (found.Some? ==> s' == s)
      && ((forall j :: j in s.working.invitations ==> s.working.invitations[j].token != token) ==> found.None? && s' == s)
      && (i in s.working.invitations && s.working.invitations[i].token == token ==>
          var row := s.working.invitations[i];
          && (now <= row.expiresAt ==> s' == s)
          && (row.expiresAt < now ==>
              && found.None? && s'.working == s'.committed
              && s'.committed == s.working.(invitations := s.working.invitations[i := row.(status := Expired)])))
  {
    if i in s.working.invitations && s.working.invitations[i].token == token {
      assert TokenRow(s.working, token) == Some(i);
    }
  }

  /** Revoking a PENDING invitation stores REVOKED in that row, changes nothing else, and commits; any other
      invitation is returned as it is, and a missing one not at all. */
  lemma RevocationExact(s: Tx, id: InvitationId)
    ensures var (s', found) := Revoking(s, id);
      && found == (if id in s.working.invitations then Some(id) else None)
      && (id in s.working.invitations && s.working.invitations[id].status.Pending? ==>
          && s'.working == s'.committed
          && s'.committed == s.working.(invitations :=
               s.working.invitations[id := s.working.invitations[id].(status := Revoked)]))
      && (id in s.working.invitations && !s.working.invitations[id].status.Pending? ==> s' == s)
      && (id !in s.working.invitations ==> s' == s)
  {}

  /** The service call on its own, for a user who already exists: a verifying invitation is bound to that user at
      that time, the invited role is added exactly when the user is a member of the tenant and the role accessible
      there, and nothing else changes.  A user who does not exist leaves the committed copy alone. */
  lemma ServiceAcceptance(s: Tx, token: string, i: InvitationId, user: UserId, now: int, acceptedAt: int)
    requires Inv(s.working) && i in s.working.invitations && s.working.invitations[i].token == token
    ensures var (s', out) := Accepting(s, token, user, now, acceptedAt);
      var t, inv := s.working, s.working.invitations[i];
      var verifies := inv.status.Pending? && now <= inv.expiresAt;
      && (!verifies ==> out == Done(None) && s' == Verifying(s, token, now).0)
      && (verifies && user !in t.users ==> out == Failed(Constraint) && s' == Tx(s.committed, s.committed))
      && (verifies && user in t.users ==>
          && out == Done(Some(i)) && s'.working == s'.committed
          && s'.committed == t.(
               invitations := t.invitations[i := inv.(status := Accepted, user := Some(user), acceptedAt := Some(acceptedAt))],
               assignments := t.assignments
                 + if inv.role.Some? && Member(t, user, inv.tenant) && Accessible(t, inv.role.value, inv.tenant)
                   then {Assignment(user, inv.role.value, inv.tenant)} else {}))
  {
    VerificationExact(s, token, now, i);
    var t, inv := s.working, s.working.invitations[i];
    if inv.status.Pending? && now <= inv.expiresAt && user in t.users {
      var taken := s.Write(WithInvitation(t, i, Taken(inv, user, acceptedAt)));
      assert Member(taken.working, user, inv.tenant) <==> Member(t, user, inv.tenant);
      assert t.assignments + {} == t.assignments;
      if inv.role.Some? {
        var row := Assignment(user, inv.role.value, inv.tenant);
        assert row in t.assignments ==> t.assignments + {row} == t.assignments;
      }
    }
  }

  /** A row that is no longer PENDING refuses its token at every later time, whatever the request. */
  lemma SpentTokenRefused(s: Tx, i: InvitationId, id: UserId, first: Option<RoleId>, verified: int, reverified: int, acceptedAt: int)
    requires Inv(s.working) && i in s.working.invitations && !s.working.invitations[i].status.Pending?
    ensures AcceptRequest(s, s.working.invitations[i].token, id, first, verified, reverified, acceptedAt).1 == Failed(BadRequest)
  {
    assert TokenRow(s.working, s.working.invitations[i].token) == Some(i);
  }

  // ---------- Accepting is all or nothing, unless the invitation expires half way ----------

  /** The user named by the invitation can be created: the id and email are free and the tenant has a
      default role. */
  ghost predicate UserFits(t: Tables, id: UserId, inv: Invitation) {
    id !in t.users && !EmailTaken(t, inv.email) && DefaultRoles(t, inv.tenant) != {}
  }

  /** The clock passes the expiry between the two verifications of an otherwise acceptable request. */
  ghost predicate ExpiresHalfWay(t: Tables, token: string, id: UserId, verified: int, reverified: int) {
    && TokenTaken(t, token)
    && var inv := t.invitations[TokenRow(t, token).value];
    inv.status.Pending? && verified <= inv.expiresAt < reverified && UserFits(t, id, inv)
  }

  /** The store a successful acceptance leaves. */
  ghost function AcceptedStore(t: Tables, i: InvitationId, id: UserId, defaultRole: RoleId, acceptedAt: int): Tables
    requires i in t.invitations
  {
    var inv := t.invitations[i];
    var given := if inv.role.Some? && Accessible(t, inv.role.value, inv.tenant)
                 then {Assignment(id, inv.role.value, inv.tenant)} else {};
    t.(users := t.users[id := User(inv.email, true, false)],
       assignments := t.assignments + {Assignment(id, defaultRole, inv.tenant)} + given,
       invitations := t.invitations[i := inv.(status := Accepted, user := Some(id), acceptedAt := Some(acceptedAt))])
  }

  lemma AcceptedByService(s: Tx, token: string, id: UserId, defaultRole: RoleId, now: int, acceptedAt: int, t: Tables)
    requires Inv(t) && TokenRow(t, token).Some? && id !in t.users
    requires var inv := t.invitations[TokenRow(t, token).value];
      && inv.status.Pending? && now <= inv.expiresAt
      && defaultRole in DefaultRoles(t, inv.tenant)
      && s.working == WithRow(WithUser(t, id, Invitee(inv)), Assignment(id, defaultRole, inv.tenant))
    ensures var i := TokenRow(t, token).value;
      Accepting(s, token, id, now, acceptedAt)
        == (Tx(AcceptedStore(t, i, id, defaultRole, acceptedAt), AcceptedStore(t, i, id, defaultRole, acceptedAt)), Done(Some(i)))
  {
    TokenRowStable(t, s.working, token);
    var i := TokenRow(t, token).value;
    var inv := t.invitations[i];
    assert Assignment(id, defaultRole, inv.tenant) in s.working.assignments;
    var taken := s.Write(WithInvitation(s.working, i, Taken(inv, id, acceptedAt)));
    assert Member(taken.working, id, inv.tenant);
    if inv.role.Some? && Accessible(t, inv.role.value, inv.tenant) {
      var row := Assignment(id, inv.role.value, inv.tenant);
      assert row in taken.working.assignments ==> taken.working.assignments == taken.working.assignments + {row};
    }
    var s3 := Accepting(s, token, id, now, acceptedAt).0;
    assert s3.working.assignments == AcceptedStore(t, i, id, defaultRole, acceptedAt).assignments;
    assert s3.working == AcceptedStore(t, i, id, defaultRole, acceptedAt);
  }

  /** A request on a fresh session succeeds exactly when the invitation is PENDING and not past its
      expiry at the second verification and its user can be created.  It then leaves one new user
      with the invitation's email, its membership in the invitation's tenant, the invited role if it is
      accessible there, and the invitation bound to that user. */
  lemma AcceptExact(s: Tx, token: string, id: UserId, first: Option<RoleId>, verified: int, reverified: int, acceptedAt: int)
    requires Inv(s.working) && s.working == s.committed && verified <= reverified
    requires AnswersDefault(s, token, first)
    ensures var (s', out) := AcceptRequest(s, token, id, first, verified, reverified, acceptedAt);
      && s'.working == s'.committed
      && (out.Done? <==>
          && TokenTaken(s.working, token)
          && var inv := s.working.invitations[TokenRow(s.working, token).value];
          inv.status.Pending? && reverified <= inv.expiresAt && UserFits(s.working, id, inv))
      && (out.Done? ==>
          && out.value == id
          && s'.committed == AcceptedStore(s.working, TokenRow(s.working, token).value, id, first.value, acceptedAt))
  {
    var (s1, found) := Verifying(s, token, verified);
    if found.Some? {
      var i := found.value;
      var inv := s.working.invitations[i];
      var (s2, made) := CreatingUser(s, Invitee(inv), inv.tenant, id, first, false);
      UserLaws.CreationExact(s, Invitee(inv), inv.tenant, id, first, false);
      if made.Done? {
        TokenRowStable(s.working, s2.working, token);
        if reverified <= inv.expiresAt {
          AcceptedByService(s2, token, id, first.value, reverified, acceptedAt, s.working);
        }
      }
    }
  }

  /** What a failed request leaves, as a whole store.  It is the store before the request, with two exceptions.  If the
      token's row was already overdue, that row alone becomes EXPIRED.  If the clock passes the expiry between the two
      verifications of an otherwise acceptable request, the commit that marks the invitation EXPIRED also stores the
      half-made user and its default membership. */
  lemma FailedRequestLeaves(s: Tx, token: string, id: UserId, first: Option<RoleId>, verified: int, reverified: int, acceptedAt: int,
                            i: InvitationId)
    requires Inv(s.working) && s.working == s.committed && verified <= reverified
    requires AnswersDefault(s, token, first)
    requires AcceptRequest(s, token, id, first, verified, reverified, acceptedAt).1.Failed?
    ensures var s' := AcceptRequest(s, token, id, first, verified, reverified, acceptedAt).0;
      var t := s.committed;
      && s'.working == s'.committed
      && ((forall j :: j in t.invitations ==> t.invitations[j].token != token) ==> s' == s)
      && (i in t.invitations && t.invitations[i].token == token ==>
          var inv := t.invitations[i];
          && (inv.expiresAt < verified ==>
              s'.committed == t.(invitations := t.invitations[i := inv.(status := Expired)]))
          && (verified <= inv.expiresAt && !ExpiresHalfWay(t, token, id, verified, reverified) ==> s' == s)
          && (ExpiresHalfWay(t, token, id, verified, reverified) ==>
              && first.Some?
              && s'.committed == t.(
                   users := t.users[id := User(inv.email, true, false)],
                   assignments := t.assignments + {Assignment(id, first.value, inv.tenant)},
                   invitations := t.invitations[i := inv.(status := Expired)])))
  {
    VerificationExact(s, token, verified, i);
    var (s1, found) := Verifying(s, token, verified);
    if i in s.working.invitations && s.working.invitations[i].token == token {
      assert TokenRow(s.working, token) == Some(i);
      if found.Some? {
        var inv := s.working.invitations[i];
        var (s2, made) := CreatingUser(s, Invitee(inv), inv.tenant, id, first, false);
        UserLaws.CreationExact(s, Invitee(inv), inv.tenant, id, first, false);
        if made.Done? {
          TokenRowStable(s.working, s2.working, token);
          if reverified <= inv.expiresAt {
            AcceptedByService(s2, token, id, first.value, reverified, acceptedAt, s.working);
          }
        }
      }
    }
  }

  /** How each refusal is reported: as a bad request exactly when the token does not verify or the tenant has no default
      role, and as a server error exactly when the id or the email is taken or the invitation expires half way. */
  lemma RefusalsExact(s: Tx, token: string, id: UserId, first: Option<RoleId>, verified: int, reverified: int, acceptedAt: int)
    requires Inv(s.working) && s.working == s.committed && verified <= reverified
    requires AnswersDefault(s, token, first)
    ensures var out := AcceptRequest(s, token, id, first, verified, reverified, acceptedAt).1;
      var t := s.committed;
      var verifies := TokenTaken(t, token) && var inv := t.invitations[TokenRow(t, token).value];
        inv.status.Pending? && verified <= inv.expiresAt;
      && (out.Failed? ==> out == Failed(BadRequest) || out == Failed(ServerError))
      && (!verifies ==> out == Failed(BadRequest))
      && (verifies ==>
          var inv := t.invitations[TokenRow(t, token).value];
          var free := id !in t.users && !EmailTaken(t, inv.email);
          && (out == Failed(BadRequest) <==> free && DefaultRoles(t, inv.tenant) == {})
          && (out == Failed(ServerError) <==> !free || ExpiresHalfWay(t, token, id, verified, reverified)))
  {
    AcceptExact(s, token, id, first, verified, reverified, acceptedAt);
    var found := Verifying(s, token, verified).1;
    if found.Some? {
      var inv := s.working.invitations[found.value];
      UserLaws.CreationExact(s, Invitee(inv), inv.tenant, id, first, false);
    }
  }

  /** A failed request leaves users and assignments unchanged if and only if the clock does not pass the expiry between
      the two verifications of an otherwise acceptable request, and roles and grants in any case. */
  lemma AcceptAllOrNothing(s: Tx, token: string, id: UserId, first: Option<RoleId>, verified: int, reverified: int, acceptedAt: int)
    requires Inv(s.working) && s.working == s.committed && verified <= reverified
    requires AnswersDefault(s, token, first)
    ensures var (s', out) := AcceptRequest(s, token, id, first, verified, reverified, acceptedAt);
      out.Failed? ==>
        && (s'.committed.users == s.committed.users && s'.committed.assignments == s.committed.assignments
            <==> !ExpiresHalfWay(s.working, token, id, verified, reverified))
        && s'.committed.roles == s.committed.roles && s'.committed.grants == s.committed.grants
        && (ExpiresHalfWay(s.working, token, id, verified, reverified) ==>
            var i := TokenRow(s.working, token).value;
            var inv := s.working.invitations[i];
            && s'.committed.users == s.committed.users[id := User(inv.email, true, false)]
            && s'.committed.assignments == s.committed.assignments + {Assignment(id, first.value, inv.tenant)}
            && s'.committed.invitations == s.committed.invitations[i := inv.(status := Expired)])
  {
    var (s', out) := AcceptRequest(s, token, id, first, verified, reverified, acceptedAt);
    if out.Failed? {
      var row := TokenRow(s.working, token);
      FailedRequestLeaves(s, token, id, first, verified, reverified, acceptedAt, if row.Some? then row.value else 0);
      if ExpiresHalfWay(s.working, token, id, verified, reverified) {
        assert id in s'.committed.users && id !in s.committed.users;
      }
    }
  }

  /** The half-made user also bars the invitee for good: in any later state, no invitation for that
      email can be accepted any more. */
  lemma HalfMadeUserBlocksRetry(s: Tx, token: string, id: UserId, first: Option<RoleId>, verified: int, reverified: int, acceptedAt: int,
                                later: Tx, token': string, id': UserId, first': Option<RoleId>, v': int, r': int, a': int)
    requires Inv(s.working) && s.working == s.committed && verified <= reverified
    requires AnswersDefault(s, token, first)
    requires ExpiresHalfWay(s.working, token, id, verified, reverified)
    requires Inv(later.working)
    requires Forward(AcceptRequest(s, token, id, first, verified, reverified, acceptedAt).0.committed, later.working)
    requires TokenTaken(later.working, token')
    requires later.working.invitations[TokenRow(later.working, token').value].email
          == s.working.invitations[TokenRow(s.working, token).value].email
    ensures AcceptRequest(later, token', id', first', v', r', a').1.Failed?
  {
    AcceptExact(s, token, id, first, verified, reverified, acceptedAt);
    AcceptAllOrNothing(s, token, id, first, verified, reverified, acceptedAt);
    assert EmailTaken(later.working, later.working.users[id].email);
  }

  /** The exception does occur: verified at the very instant of expiry and again one microsecond later. */
  lemma ExpiryHalfWayHappens()
    ensures exists s: Tx, token, id, first, verified, reverified, acceptedAt ::
      && Inv(s.working) && s.working == s.committed && AnswersDefault(s, token, first)
      && verified <= reverified <= acceptedAt
      && AcceptRequest(s, token, id, first, verified, reverified, acceptedAt).1.Failed?
      && AcceptRequest(s, token, id, first, verified, reverified, acceptedAt).0.committed.users != s.committed.users
  {
    var inv := Invitation("new", "tok", 1, 7, None, 10, Pending, None, None);
    var t := Tables(map[7 := User("old", true, false)], {1}, map[3 := Role(DEFAULT_ROLE_NAME, None, Some(1), false)],
                    map[], {}, {}, map[5 := inv]);
    var s := Tx(t, t);
    assert t.invitations[5].token == "tok";
    assert TokenRow(t, "tok") == Some(5);
    assert 3 in DefaultRoles(t, 1);
    assert AnswersDefault(s, "tok", Some(3));
    assert ExpiresHalfWay(t, "tok", 9, 10, 11);
    AcceptExact(s, "tok", 9, Some(3), 10, 11, 11);
    AcceptAllOrNothing(s, "tok", 9, Some(3), 10, 11, 11);
    assert AcceptRequest(s, "tok", 9, Some(3), 10, 11, 11).1.Failed?;
    assert 9 in AcceptRequest(s, "tok", 9, Some(3), 10, 11, 11).0.committed.users;
  }

  /** "At most one" holds for strict expiry only: at the instant an invitation expires, verification still
      accepts it while creation no longer sees it, so a second one for the same email and tenant can be made
      that verifies as well. */
  lemma TwoVerifyAtTheEdge(s: Tx, i: InvitationId, request: InvitationCreate, id: InvitationId, token: string, now: int)
    requires Inv(s.working) && i in s.working.invitations
    requires s.working.invitations[i].status.Pending? && s.working.invitations[i].expiresAt == now
    requires request.email == s.working.invitations[i].email && request.tenant == s.working.invitations[i].tenant
    requires LiveRows(s.working, request.email, request.tenant, now) == {} && 0 <= request.expiresInDays
    requires CreatingInvitation(s, request, id, token, now, None).1.Done?
    ensures var s' := CreatingInvitation(s, request, id, token, now, None).0;
      && i != id
      && s'.working.invitations[id].email == s'.working.invitations[i].email
      && s'.working.invitations[id].tenant == s'.working.invitations[i].tenant
      && Verifying(s', s.working.invitations[i].token, now) == (s', Some(i))
      && Verifying(s', token, now) == (s', Some(id))
  {
    var s' := CreatingInvitation(s, request, id, token, now, None).0;
    var inv := Draft(request, token, now);
    InvitationInv(s.working, id, inv);
    assert s'.working.invitations[id].token == token;
    assert s'.working.invitations[i].token == s.working.invitations[i].token;
    assert TokenRow(s'.working, token) == Some(id);
    assert TokenRow(s'.working, s.working.invitations[i].token) == Some(i);
  }
}
