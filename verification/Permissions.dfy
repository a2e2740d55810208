/** The permission checks of api/deps.py and of endpoints/invitations.py: several query forms of one
    question.  Queries are written as the joins they run. */
module Permissions {
  import opened Base
  import opened Store
  import opened Evolution

  // ---------- The three query forms ----------

  /** `select exists(user_tenant_roles join role_permissions join permissions where ...)`, deps.py:529-542. */
  ghost predicate ExistsJoin(t: Tables, user: UserId, tenant: TenantId, code: string) {
    exists a, g ::
      && a in t.assignments && a.user == user && a.tenant == tenant
      && g in t.grants && g.role == a.role
      && g.permission in t.permissions && t.permissions[g.permission].code == code
  }

  /** `select distinct(code) from permissions join role_permissions join user_tenant_roles`, deps.py:571-580. */
  ghost function DistinctCodes(t: Tables, user: UserId, tenant: TenantId): set<string> {
    set g, a | g in t.grants && a in t.assignments
               && g.permission in t.permissions && g.role == a.role && a.user == user && a.tenant == tenant ::
      t.permissions[g.permission].code
  }

  /** The same projection through the roles table too, user.py:335-344.  Codes stand in for the names
      selected there, which no caller compares with. */
  ghost function DistinctCodesByRole(t: Tables, user: UserId, tenant: TenantId): set<string> {
    set g, a | g in t.grants && a in t.assignments
               && g.permission in t.permissions && g.role in t.roles && a.role == g.role
               && a.user == user && a.tenant == tenant ::
      t.permissions[g.permission].code
  }

  /** `get_by_code`, then `select distinct(permission_id)` for that id, endpoints/invitations.py:163-182. */
  function PermissionsCoded(t: Tables, code: string): set<PermissionId> {
    set p | p in t.permissions && t.permissions[p].code == code
  }

  function GrantedIds(t: Tables, user: UserId, tenant: TenantId, required: PermissionId): set<PermissionId> {
    set a, g | a in t.assignments && g in t.grants
               && a.role == g.role && a.user == user && a.tenant == tenant && g.permission == required ::
      g.permission
  }

  /** `scalar_one_or_none() is not None`; with more than one row the call would raise. */
  ghost predicate LookupThenJoin(t: Tables, user: UserId, tenant: TenantId, permission: Option<PermissionId>) {
    permission.Some? && GrantedIds(t, user, tenant, permission.value) != {}
  }

  // ---------- They decide the same question ----------

  lemma ExistsJoinIsEffective(t: Tables, user: UserId, tenant: TenantId, code: string)
    ensures ExistsJoin(t, user, tenant, code) <==> code in Effective(t, user, tenant)
  {}

  /** The exists-join, both distinct-code projections and the lookup by code agree on every store that
      satisfies the keys, whichever row `get_by_code` returns first; the last query yields at most one row. */
  lemma ChecksAgree(t: Tables, user: UserId, tenant: TenantId, code: string, first: Option<PermissionId>)
    requires Keyed(t) && IsFirst(first, PermissionsCoded(t, code))
    ensures ExistsJoin(t, user, tenant, code) <==> code in Effective(t, user, tenant)
    ensures ExistsJoin(t, user, tenant, code) <==> code in DistinctCodes(t, user, tenant)
    ensures ExistsJoin(t, user, tenant, code) <==> code in DistinctCodesByRole(t, user, tenant)
    ensures ExistsJoin(t, user, tenant, code) <==> LookupThenJoin(t, user, tenant, first)
    ensures first.Some? ==> |GrantedIds(t, user, tenant, first.value)| <= 1
  {
    ExistsJoinIsEffective(t, user, tenant, code);
    if ExistsJoin(t, user, tenant, code) {
      var a, g :| a in t.assignments && a.user == user && a.tenant == tenant && g in t.grants && g.role == a.role
                  && g.permission in t.permissions && t.permissions[g.permission].code == code;
      assert g.permission in PermissionsCoded(t, code);
      assert first.Some? && first.value == g.permission;
      assert g.permission in GrantedIds(t, user, tenant, first.value);
    }
    if LookupThenJoin(t, user, tenant, first) {
      var p :| p in GrantedIds(t, user, tenant, first.value);
    }
    if first.Some? {
      SubsetSize(GrantedIds(t, user, tenant, first.value), {first.value});
    }
  }

  /** Without the unique key on codes the lookup form may disagree with the others. */
  lemma AgreementNeedsUniqueCodes()
    ensures exists t: Tables, user, tenant, code, first ::
      && ForeignKeys(t) && IsFirst(first, PermissionsCoded(t, code))
      && ExistsJoin(t, user, tenant, code) && !LookupThenJoin(t, user, tenant, first)
  {
    var row, grant := Assignment(7, 3, 1), Grant(3, 11);
    var t := Tables(map[7 := User("u", true, false)], {1}, map[3 := Role("r", None, Some(1), false)],
                    map[10 := Permission("a", "x"), 11 := Permission("b", "x")], {row}, {grant}, map[]);
    assert row in t.assignments && grant in t.grants;
    assert ExistsJoin(t, 7, 1, "x");
    assert 10 in PermissionsCoded(t, "x");
    assert GrantedIds(t, 7, 1, 10) == {};
    assert IsFirst(Some(10), PermissionsCoded(t, "x")) && !LookupThenJoin(t, 7, 1, Some(10));
  }

  // ---------- The dependencies ----------

  /** Why a request is turned away; how it is reported (an HTTP status or an AuthorizationError) is left out. */
  datatype Reason = NoHeader | NoTenant | NotAllowed

  datatype Verdict = Granted | Denied(reason: Reason)

  /** Path form of one permission, deps.py:273-324. */
  ghost function RequirePermission(t: Tables, user: UserId, superuser: bool, tenant: TenantId, code: string): Verdict {
    if tenant !in t.tenants then Denied(NoTenant)
    else if superuser then Granted
    else if code !in DistinctCodesByRole(t, user, tenant) then Denied(NotAllowed)
    else Granted
  }

  /** `any(p in user_permissions for p in required)`, deps.py:327-366. */
  ghost function RequireAny(t: Tables, user: UserId, superuser: bool, tenant: TenantId, codes: seq<string>): Verdict {
    if tenant !in t.tenants then Denied(NoTenant)
    else if superuser then Granted
    else if !AnyIn(codes, DistinctCodesByRole(t, user, tenant)) then Denied(NotAllowed)
    else Granted
  }

  predicate AnyIn(codes: seq<string>, held: set<string>) {
    codes != [] && (codes[0] in held || AnyIn(codes[1..], held))
  }

  /** `all(p in user_permissions for p in required)`, deps.py:368-409. */
  ghost function RequireAll(t: Tables, user: UserId, superuser: bool, tenant: TenantId, codes: seq<string>): Verdict {
    if tenant !in t.tenants then Denied(NoTenant)
    else if superuser then Granted
    else if !AllIn(codes, DistinctCodesByRole(t, user, tenant)) then Denied(NotAllowed)
    else Granted
  }

  predicate AllIn(codes: seq<string>, held: set<string>) {
    codes == [] || (codes[0] in held && AllIn(codes[1..], held))
  }

  /** `[p for p in required if p not in user_permissions]`, the list an ALL refusal reports. */
  function Missing(codes: seq<string>, held: set<string>): seq<string> {
    if codes == [] then []
    else (if codes[0] in held then [] else [codes[0]]) + Missing(codes[1..], held)
  }

  /** Header form: the tenant must exist and the user be a member, deps.py:431-493; `header` is None
      when it is missing or no UUID. */
  ghost function ActiveTenant(t: Tables, user: UserId, superuser: bool, header: Option<TenantId>): Verdict {
    match header
    case None => Denied(NoHeader)
    case Some(tenant) =>
      if tenant !in t.tenants then Denied(NoTenant)
      else if !superuser && !Member(t, user, tenant) then Denied(NotAllowed)
      else Granted
  }

  /** Then the permission itself, deps.py:508-557. */
  ghost function RequireInActiveTenant(t: Tables, user: UserId, superuser: bool, header: Option<TenantId>, code: string): Verdict {
    var tenant := ActiveTenant(t, user, superuser, header);
    if tenant.Denied? then tenant
    else if superuser || ExistsJoin(t, user, header.value, code) then Granted
    else Denied(NotAllowed)
  }

  lemma {:induction false} AnyInMeaning(codes: seq<string>, held: set<string>)
    ensures AnyIn(codes, held) <==> exists c :: c in codes && c in held
  {
    if codes != [] {
      AnyInMeaning(codes[1..], held);
      assert codes == [codes[0]] + codes[1..];
    }
  }

  lemma {:induction false} AllInMeaning(codes: seq<string>, held: set<string>)
    ensures AllIn(codes, held) <==> forall c :: c in codes ==> c in held
    ensures AllIn(codes, held) <==> Missing(codes, held) == []
    ensures forall c :: c in Missing(codes, held) <==> c in codes && c !in held
  {
    if codes != [] {
      AllInMeaning(codes[1..], held);
      assert codes == [codes[0]] + codes[1..];
    }
  }

  /** ANY is the disjunction and ALL the conjunction of the single checks, for every tenant that exists;
      with an empty list ANY admits superusers alone and ALL admits everyone.  A refused ALL reports
      exactly the permissions whose single check fails.  A tenant that does not exist admits nobody. */
  lemma AnyAndAll(t: Tables, user: UserId, superuser: bool, tenant: TenantId, codes: seq<string>)
    ensures RequireAny(t, user, superuser, tenant, codes).Granted? <==>
      && tenant in t.tenants
      && (superuser || exists c :: c in codes && RequirePermission(t, user, superuser, tenant, c).Granted?)
    ensures RequireAll(t, user, superuser, tenant, codes).Granted? <==>
      && tenant in t.tenants
      && (superuser || forall c :: c in codes ==> RequirePermission(t, user, superuser, tenant, c).Granted?)
    ensures RequireAny(t, user, superuser, tenant, codes) == Denied(NoTenant) <==> tenant !in t.tenants
    ensures RequireAll(t, user, superuser, tenant, codes) == Denied(NoTenant) <==> tenant !in t.tenants
    ensures tenant in t.tenants && !superuser ==> forall c :: c in Missing(codes, DistinctCodesByRole(t, user, tenant)) <==>
      c in codes && RequirePermission(t, user, superuser, tenant, c).Denied?
  {
    var held := DistinctCodesByRole(t, user, tenant);
    AnyInMeaning(codes, held);
    AllInMeaning(codes, held);
    forall c | tenant in t.tenants ensures c in held <==> RequirePermission(t, user, false, tenant, c).Granted? {}
  }

  /** The header form and the path form decide alike: a grant implies membership, so the member test adds
      nothing to the decision. */
  lemma HeaderAgreesWithPath(t: Tables, user: UserId, superuser: bool, tenant: TenantId, code: string)
    requires Keyed(t)
    ensures RequireInActiveTenant(t, user, superuser, Some(tenant), code) == RequirePermission(t, user, superuser, tenant, code)
    ensures ExistsJoin(t, user, tenant, code) ==> Member(t, user, tenant)
  {}

  /** Every verdict with its reason.  Nothing is granted without a tenant that exists; inside one, a superuser passes,
      and anyone else passes exactly with the code among their effective ones.  The header form is refused without a
      header, and asks for membership on its own. */
  lemma VerdictsExact(t: Tables, user: UserId, superuser: bool, header: Option<TenantId>, tenant: TenantId, code: string)
    requires Keyed(t)
    ensures RequirePermission(t, user, superuser, tenant, code)
         == (if tenant !in t.tenants then Denied(NoTenant)
             else if superuser || code in Effective(t, user, tenant) then Granted else Denied(NotAllowed))
    ensures ActiveTenant(t, user, superuser, header) == Denied(NoHeader) <==> header.None?
    ensures ActiveTenant(t, user, superuser, header) == Denied(NoTenant) <==> header.Some? && header.value !in t.tenants
    ensures ActiveTenant(t, user, superuser, header) == Granted <==>
      header.Some? && header.value in t.tenants && (superuser || Member(t, user, header.value))
    ensures RequireInActiveTenant(t, user, superuser, header, code) == Denied(NoHeader) <==> header.None?
    ensures RequireInActiveTenant(t, user, superuser, header, code) == Denied(NoTenant) <==>
      header.Some? && header.value !in t.tenants
    ensures RequireInActiveTenant(t, user, superuser, header, code) == Granted <==>
      header.Some? && header.value in t.tenants && (superuser || code in Effective(t, user, header.value))
  {
    SomeCodes(t, user, tenant, code);
    if header.Some? {
      SomeCodes(t, user, header.value, code);
    }
  }

  /** `ChecksAgree` without its last form. */
  lemma SomeCodes(t: Tables, user: UserId, tenant: TenantId, code: string)
    requires Keyed(t)
    ensures ExistsJoin(t, user, tenant, code) <==> code in Effective(t, user, tenant)
    ensures code in DistinctCodesByRole(t, user, tenant) <==> code in Effective(t, user, tenant)
    ensures code in Effective(t, user, tenant) ==> Member(t, user, tenant)
  {
    FirstExists(PermissionsCoded(t, code));
    var first :| IsFirst(first, PermissionsCoded(t, code));
    ChecksAgree(t, user, tenant, code, first);
  }

  /** What the checks decide moves with the store only through the tenant addressed. */
  lemma ChecksIsolated(t: Tables, t': Tables, user: UserId, superuser: bool, tenant: TenantId, code: string)
    requires Keyed(t) && Keyed(t') && Untouched(t, t', tenant)
    ensures RequirePermission(t', user, superuser, tenant, code) == RequirePermission(t, user, superuser, tenant, code)
    ensures RequireInActiveTenant(t', user, superuser, Some(tenant), code)
         == RequireInActiveTenant(t, user, superuser, Some(tenant), code)
  {
    UntouchedEffective(t, t', user, tenant);
    FirstExists(PermissionsCoded(t, code));
    FirstExists(PermissionsCoded(t', code));
    var first :| IsFirst(first, PermissionsCoded(t, code));
    var first' :| IsFirst(first', PermissionsCoded(t', code));
    ChecksAgree(t, user, tenant, code, first);
    ChecksAgree(t', user, tenant, code, first');
  }
}
