/** The runs of `Runs` are what the methods do: a session object that is sent a list of requests passes through a
    valid run, whatever the unordered queries answer, so everything proved of runs holds of the object. */
module Execution {
  import opened Base
  import opened Store
  import opened Evolution
  import opened Sessions
  import opened RoleService
  import opened UserService
  import opened InvitationService
  import opened Runs

  /** The step as it is asked for, before any query has been answered. */
  function Asked(step: Step): Step {
    match step
    case AddUser(tenant, user, id, _, autocommit) => AddUser(tenant, user, id, None, autocommit)
    case Invite(request, id, token, _) => Invite(request, id, token, None)
    case AcceptToken(token, id, _) => AcceptToken(token, id, None)
    case _ => step
  }

  /** `answered` is the event `e` with some answers of its queries. */
  predicate Answers(e: Event, answered: Event) {
    Asked(answered.step) == Asked(e.step) && answered.t1 == e.t1 && answered.t2 == e.t2 && answered.t3 == e.t3
  }

  /** The calls whose queries leave nothing open. */
  method ExecuteFixed(db: Session, e: Event)
    requires UniqueTokens(db.working)
    requires !e.step.AddUser? && !e.step.Invite? && !e.step.AcceptToken?
    modifies db
    ensures db.State() == Apply(old(db.State()), e)
  {
    match e.step {
      case CreateRole(tenant, input, id) => var _ := CreateCustomRole(db, input, tenant, id);
      case UpdateRole(tenant, role, update) => var _ := UpdateCustomRole(db, tenant, role, update);
      case DeleteRole(tenant, role) => var _ := DeleteCustomRole(db, role, tenant);
      case SetUsers(tenant, role, ids) => var _ := SetUsersForRole(db, role, tenant, ids);
      case AssignUser(tenant, user, role, autocommit) => var _ := AssignRole(db, user, role, tenant, autocommit);
      case UnassignUser(tenant, user, role, autocommit) => var _ := RemoveRole(db, user, role, tenant, autocommit);
      case DropMember(tenant, user, autocommit) => var _ := RemoveFromTenant(db, user, tenant, autocommit);
      case Verify(token) => var _ := VerifyToken(db, token, e.t1);
      case Revoke(id) => var _ := RevokeInvitation(db, id);
      case CommitNow => db.Commit();
      case RollbackNow => db.Rollback();
    }
  }

  /** One call, by the method that serves it. */
  method Execute(db: Session, e: Event) returns (ghost answered: Event)
    requires UniqueTokens(db.working)
    modifies db
    ensures Answers(e, answered) && Enabled(old(db.State()), answered)
    ensures db.State() == Apply(old(db.State()), answered)
  {
    ghost var s := db.State();
    match e.step {
      case AddUser(tenant, user, id, _, autocommit) =>
        var out := CreateUser(db, user, tenant, id, autocommit);
        ghost var first :| IsFirst(first, DefaultRoles(s.working, tenant))
          && (db.State(), out) == CreatingUser(s, user, tenant, id, first, autocommit);
        answered := e.(step := AddUser(tenant, user, id, first, autocommit));
      case Invite(request, id, token, _) =>
        var out := CreateInvitation(db, request, id, token, e.t1, e.t2);
        ghost var existing :| IsFirst(existing, LiveRows(s.working, request.email, request.tenant, e.t1))
          && (db.State(), out) == CreatingInvitation(s, request, id, token, e.t2, existing);
        answered := e.(step := Invite(request, id, token, existing));
      case AcceptToken(token, id, _) =>
        var out := Accept(db, token, id, e.t1, e.t2, e.t3);
        ghost var first :| AnswersDefault(s, token, first)
          && (db.State(), out) == AcceptRequest(s, token, id, first, e.t1, e.t2, e.t3);
        answered := e.(step := AcceptToken(token, id, first));
      case _ =>
        ExecuteFixed(db, e);
        answered := e;
    }
  }

  /** The clock of the requests never runs backwards. */
  predicate InOrder(start: int, es: seq<Event>) {
    forall i :: 0 <= i < |es| ==> ClockAfter(start, es[..i]) <= es[i].t1 <= es[i].t2 <= es[i].t3
  }

  /** The session `s`, sent the requests, went through the valid run to reach `now`. */
  ghost predicate Passed(s: Tx, start: int, es: seq<Event>, run: seq<Event>, now: Tx) {
    && |run| == |es| && (forall i :: 0 <= i < |es| ==> Answers(es[i], run[i]))
    && ValidRun(s, start, run) && now == Run(s, run)
  }

  lemma PassedOn(s: Tx, start: int, es: seq<Event>, run: seq<Event>, now: Tx, e: Event, answered: Event, later: Tx)
    requires Passed(s, start, es, run, now) && ClockAfter(start, es) <= e.t1 <= e.t2 <= e.t3
    requires Answers(e, answered) && Enabled(now, answered) && later == Apply(now, answered)
    ensures Passed(s, start, es + [e], run + [answered], later)
  {
    assert (run + [answered])[..|run|] == run;
  }

  lemma PassedSound(s: Tx, start: int, es: seq<Event>, run: seq<Event>, now: Tx)
    requires Sound(s) && Passed(s, start, es, run, now)
    ensures Sound(now)
    ensures OneLive(s.working, start) && OneLive(s.committed, start) ==>
      OneLive(now.working, ClockAfter(start, es)) && OneLive(now.committed, ClockAfter(start, es))
  {
    InvariantHolds(s, start, run);
    if OneLive(s.working, start) && OneLive(s.committed, start) {
      OneLiveAlways(s, start, run, ClockAfter(start, es));
    }
  }

  method ExecuteNext(db: Session, ghost s: Tx, ghost start: int, ghost es: seq<Event>, ghost run: seq<Event>, e: Event)
    returns (ghost answered: Event)
    requires Sound(s) && Passed(s, start, es, run, db.State()) && ClockAfter(start, es) <= e.t1 <= e.t2 <= e.t3
    modifies db
    ensures Passed(s, start, es + [e], run + [answered], db.State())
  {
    ghost var now := db.State();
    PassedSound(s, start, es, run, now);
    answered := Execute(db, e);
    PassedOn(s, start, es, run, now, e, answered, db.State());
  }

  /** Any list of requests: the object goes through a valid run of them, so it ends sound, and no two live invitations
      share an email and a tenant if none did. */
  method ExecuteAll(db: Session, start: int, es: seq<Event>) returns (ghost run: seq<Event>)
    requires Sound(db.State()) && InOrder(start, es)
    modifies db
    ensures Passed(old(db.State()), start, es, run, db.State())
    ensures Sound(db.State())
    ensures OneLive(old(db.working), start) && OneLive(old(db.committed), start) ==>
      OneLive(db.working, ClockAfter(start, es)) && OneLive(db.committed, ClockAfter(start, es))
  {
    ghost var s := db.State();
    run := [];
    for n := 0 to |es|
      invariant Passed(s, start, es[..n], run, db.State())
    {
      ghost var answered := ExecuteNext(db, s, start, es[..n], run, es[n]);
      assert es[..n + 1] == es[..n] + [es[n]];
      run := run + [answered];
    }
    assert es[..|es|] == es;
    PassedSound(s, start, es, run, db.State());
  }
}
