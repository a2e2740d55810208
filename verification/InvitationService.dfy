/** services/iam/invitation.py and the accept endpoint of endpoints/invitations.py.

    Every reading of the clock is an argument; tokens and ids are inputs. */
module InvitationService {
  import opened Base
  import opened Store
  import opened Evolution
  import opened Sessions
  import opened UserService

  /** One day in microseconds, the unit of every instant here. */
  const DAY := 86_400_000_000

  datatype InvitationCreate = InvitationCreate(
    email: string, tenant: TenantId, inviter: UserId, role: Option<RoleId>, expiresInDays: int)

  // ---------- create_invitation ----------

  function Draft(request: InvitationCreate, token: string, stamped: int): Invitation {
    Invitation(request.email, token, request.tenant, request.inviter, request.role,
               stamped + request.expiresInDays * DAY, Pending, None, None)
  }

  ghost predicate InvitationInsertable(t: Tables, id: InvitationId, inv: Invitation) {
    id !in t.invitations && !TokenTaken(t, inv.token) && InvitationKeys(t, inv)
  }

  /** `existing` is the row the query for live invitations returned; the expiry date is computed from
      a second reading of the clock. */
  ghost function CreatingInvitation(s: Tx, request: InvitationCreate, id: InvitationId, token: string, stamped: int,
                                    existing: Option<InvitationId>): (Tx, Outcome<InvitationId>)
  {
    match existing
    case Some(row) => (s, Done(row))
    case None =>
      var inv := Draft(request, token, stamped);
      if InvitationInsertable(s.working, id, inv)
      then (s.Write(WithInvitation(s.working, id, inv)).Commit(), Done(id))
      else (s.Rollback(), Failed(Constraint))
  }

  method CreateInvitation(db: Session, request: InvitationCreate, id: InvitationId, token: string, checked: int, stamped: int)
    returns (out: Outcome<InvitationId>)
    modifies db
    ensures exists existing ::
      && IsFirst(existing, LiveRows(old(db.working), request.email, request.tenant, checked))
      && (db.State(), out) == CreatingInvitation(old(db.State()), request, id, token, stamped, existing)
  {
    var existing := First(LiveRows(db.working, request.email, request.tenant, checked));
    if existing.Some? {
      return Done(existing.value);
    }
    var ok := db.InsertInvitation(id, Draft(request, token, stamped));
    if !ok {
      db.Rollback();
      return Failed(Constraint);
    }
    db.Commit();
    return Done(id);
  }

  // ---------- verify_token ----------

  /** Expiry is tested before the status, so an overdue row of any status is marked EXPIRED, and that
      write commits whatever the session had pending. */
  ghost function Verifying(s: Tx, token: string, now: int): (Tx, Option<InvitationId>) {
    match TokenRow(s.working, token)
    case None => (s, None)
    case Some(i) =>
      var inv := s.working.invitations[i];
      if inv.expiresAt < now then (s.Write(WithInvitation(s.working, i, inv.(status := Expired))).Commit(), None)
      else if !inv.status.Pending? then (s, None)
      else (s, Some(i))
  }

  method VerifyToken(db: Session, token: string, now: int) returns (found: Option<InvitationId>)
    requires UniqueTokens(db.working)
    modifies db
    ensures (db.State(), found) == Verifying(old(db.State()), token, now)
  {
    var row := First(RowsWithToken(db.working, token));
    TokenRowIsFirst(db.working, token, row);
    if row.None? {
      return None;
    }
    var inv := db.working.invitations[row.value];
    if inv.expiresAt < now {
      db.StoreInvitation(row.value, inv.(status := Expired));
      db.Commit();
      return None;
    }
    if !inv.status.Pending? {
      return None;
    }
    return row;
  }

  // ---------- accept_invitation (service) ----------

  function Taken(inv: Invitation, user: UserId, acceptedAt: int): Invitation {
    inv.(status := Accepted, user := Some(user), acceptedAt := Some(acceptedAt))
  }

  /** A failing role assignment is logged and swallowed; the acceptance is committed all the same. */
  ghost function Accepting(s: Tx, token: string, user: UserId, now: int, acceptedAt: int): (Tx, Outcome<Option<InvitationId>>) {
    var (verified, found) := Verifying(s, token, now);
    match found
    case None => (verified, Done(None))
    case Some(i) =>
      if user !in s.working.users then (verified.Rollback(), Failed(Constraint))
      else
        var inv := s.working.invitations[i];
        var taken := s.Write(WithInvitation(s.working, i, Taken(inv, user, acceptedAt)));
        var joined := if inv.role.None? then taken
                        else AssigningRole(taken, user, inv.role.value, inv.tenant, false).0;
        (joined.Commit(), Done(Some(i)))
  }

  method AcceptInvitation(db: Session, token: string, user: UserId, now: int, acceptedAt: int)
    returns (out: Outcome<Option<InvitationId>>)
    requires UniqueTokens(db.working)
    modifies db
    ensures (db.State(), out) == Accepting(old(db.State()), token, user, now, acceptedAt)
  {
    var found := VerifyToken(db, token, now);
    if found.None? {
      return Done(None);
    }
    if user !in db.working.users {
      db.Rollback();
      return Failed(Constraint);
    }
    var inv := db.working.invitations[found.value];
    db.StoreInvitation(found.value, Taken(inv, user, acceptedAt));
    if inv.role.Some? {
      var _ := AssignRole(db, user, inv.role.value, inv.tenant, false);
    }
    db.Commit();
    return Done(found);
  }

  // ---------- revoke_invitation ----------

  function Revoking(s: Tx, id: InvitationId): (Tx, Option<InvitationId>) {
    if id !in s.working.invitations then (s, None)
    else if !s.working.invitations[id].status.Pending? then (s, Some(id))
    else (s.Write(WithInvitation(s.working, id, s.working.invitations[id].(status := Revoked))).Commit(), Some(id))
  }

  method RevokeInvitation(db: Session, id: InvitationId) returns (found: Option<InvitationId>)
    modifies db
    ensures (db.State(), found) == Revoking(old(db.State()), id)
  {
    if id !in db.working.invitations {
      return None;
    }
    if db.working.invitations[id].status.Pending? {
      db.StoreInvitation(id, db.working.invitations[id].(status := Revoked));
      db.Commit();
    }
    return Some(id);
  }

  // ---------- The accept endpoint ----------

  function Invitee(inv: Invitation): User {
    User(inv.email, true, false)
  }

  /** What the endpoint's handlers make of an exception while the user is created: a missing default role is raised
      as a ValueError, which is a bad request; anything else is a server error. */
  function Reported(e: Error): Error {
    if e.MissingDefault? then BadRequest else ServerError
  }

  /** Verify, create the user, accept; the session is closed at the end, which drops what is pending.
      The user is created in the invitation's tenant (the call at endpoints/invitations.py:384 leaves
      the tenant out).  `first` is the default role found there. */
  ghost function AcceptRequest(s: Tx, token: string, id: UserId, first: Option<RoleId>,
                               verified: int, reverified: int, acceptedAt: int): (Tx, Outcome<UserId>)
  {
    var (s1, found) := Verifying(s, token, verified);
    match found
    case None => (s1.Rollback(), Failed(BadRequest))
    case Some(i) =>
      var inv := s1.working.invitations[i];
      match CreatingUser(s1, Invitee(inv), inv.tenant, id, first, false)
      case (s2, Failed(e)) => (s2.Rollback(), Failed(Reported(e)))
      case (s2, Done(_)) =>
        match Accepting(s2, token, id, reverified, acceptedAt)
        case (s3, Done(Some(_))) => (s3.Rollback(), Done(id))
        case (s3, _) => (s3.Rollback(), Failed(ServerError))
  }

  /** `first` answers the default-role query, if the request gets as far as asking it. */
  ghost predicate AnswersDefault(s: Tx, token: string, first: Option<RoleId>) {
    TokenRow(s.working, token).Some? ==>
      IsFirst(first, DefaultRoles(s.working, s.working.invitations[TokenRow(s.working, token).value].tenant))
  }

  lemma AnswerExists(s: Tx, token: string)
    ensures exists first :: AnswersDefault(s, token, first)
  {
    if TokenRow(s.working, token).Some? {
      var rows := DefaultRoles(s.working, s.working.invitations[TokenRow(s.working, token).value].tenant);
      FirstExists(rows);
      var first :| IsFirst(first, rows);
      assert AnswersDefault(s, token, first);
    } else {
      assert AnswersDefault(s, token, None);
    }
  }

  method Accept(db: Session, token: string, id: UserId, verified: int, reverified: int, acceptedAt: int)
    returns (out: Outcome<UserId>)
    requires UniqueTokens(db.working)
    modifies db
    ensures exists first ::
      && AnswersDefault(old(db.State()), token, first)
      && (db.State(), out) == AcceptRequest(old(db.State()), token, id, first, verified, reverified, acceptedAt)
  {
    ghost var s := db.State();
    var found := VerifyToken(db, token, verified);
    if found.None? {
      db.Rollback();
      AnswerExists(s, token);
      return Failed(BadRequest);
    }
    var inv := db.working.invitations[found.value];
    var made := CreateUser(db, Invitee(inv), inv.tenant, id, false);
    ghost var first :| IsFirst(first, DefaultRoles(s.working, inv.tenant))
      && (db.State(), made) == CreatingUser(s, Invitee(inv), inv.tenant, id, first, false);
    assert AnswersDefault(s, token, first);
    if made.Failed? {
      db.Rollback();
      return Failed(Reported(made.error));
    }
    var accepted := AcceptInvitation(db, token, id, reverified, acceptedAt);
    db.Rollback();
    if accepted.Done? && accepted.value.Some? {
      return Done(id);
    }
    return Failed(ServerError);
  }
}
