/** The list queries: the paged users of a tenant with their role names (services/iam/user.py), and the
    roles of a tenant with their user counts (services/iam/role.py). */
module Listings {
  import opened Base
  import opened Store
  import opened Paging
  import opened Sorting
  import RoleLaws
  import UserLaws

  // ---------- Users of a tenant ----------

  /** The distinct users joined with the tenant's rows that pass the search, an arbitrary condition. */
  function Matching(t: Tables, tenant: TenantId, search: User -> bool): set<UserId> {
    set u | u in t.users && Member(t, u, tenant) && search(t.users[u])
  }

  function EmailOf(t: Tables): UserId -> string {
    u => if u in t.users then t.users[u].email else ""
  }

  /** A result of the user query before OFFSET and LIMIT: the matching users, each once, sorted by email. */
  ghost predicate UserQuery(t: Tables, leq: (string, string) -> bool, tenant: TenantId, search: User -> bool, rows: seq<UserId>) {
    SortedBy(EmailOf(t), leq, Matching(t, tenant, search), rows)
  }

  /** The role names of one user among the joined rows, in their order. */
  function NamesFor(t: Tables, joined: seq<Assignment>, user: UserId): seq<string> {
    if joined == [] then []
    else
      NamesFor(t, joined[..|joined| - 1], user)
      + var a := joined[|joined| - 1];
        if a.user == user && a.role in t.roles then [t.roles[a.role].name] else []
  }

  datatype ListedUser = ListedUser(user: UserId, roles: seq<string>)

  /** The rows of the second query: the tenant's rows of the users on the page, each once, in any order. */
  ghost predicate RoleRows(t: Tables, tenant: TenantId, page: seq<UserId>, joined: seq<Assignment>) {
    && NoDuplicates(joined)
    && forall a :: a in joined <==> a in t.assignments && a.tenant == tenant && a.user in page
  }

  function Lookup(names: map<UserId, seq<string>>, user: UserId): seq<string> {
    if user in names then names[user] else []
  }

  lemma NamesForNext(t: Tables, joined: seq<Assignment>, i: nat, user: UserId)
    requires i < |joined|
    ensures NamesFor(t, joined[..i + 1], user)
         == NamesFor(t, joined[..i], user)
            + if joined[i].user == user && joined[i].role in t.roles then [t.roles[joined[i].role].name] else []
  {
    assert joined[..i + 1][..i] == joined[..i];
  }

  /** The dictionary loop. */
  method GroupNames(t: Tables, joined: seq<Assignment>) returns (names: map<UserId, seq<string>>)
    requires forall a :: a in joined ==> a.role in t.roles
    ensures forall u :: Lookup(names, u) == NamesFor(t, joined, u)
  {
    names := map[];
    for i := 0 to |joined|
      invariant forall u :: Lookup(names, u) == NamesFor(t, joined[..i], u)
    {
      var a := joined[i];
      ghost var before := names;
      if a.user !in names {
        names := names[a.user := []];
      }
      names := names[a.user := names[a.user] + [t.roles[a.role].name]];
      forall u ensures Lookup(names, u) == NamesFor(t, joined[..i + 1], u) {
        NamesForNext(t, joined, i, u);
        assert Lookup(before, u) == NamesFor(t, joined[..i], u);
      }
    }
    assert joined[..|joined|] == joined;
  }

  /** `get_multi_by_tenant_paginated` after its queries: `rows` is the sorted result of the first, and
      `joined` the result of the second. */
  method ListUsers(t: Tables, tenant: TenantId, skip: nat, limit: nat, rows: seq<UserId>, joined: seq<Assignment>)
    returns (page: seq<ListedUser>, total: nat)
    requires ForeignKeys(t) && RoleRows(t, tenant, Page(rows, skip, limit), joined)
    ensures total == |rows|
    ensures |page| == |Page(rows, skip, limit)|
    ensures forall i :: 0 <= i < |page| ==>
      page[i] == ListedUser(Page(rows, skip, limit)[i], NamesFor(t, joined, Page(rows, skip, limit)[i]))
  {
    total := |rows|;
    var users := Page(rows, skip, limit);
    var names := GroupNames(t, joined);
    page := [];
    for i := 0 to |users|
      invariant |page| == i
      invariant forall k :: 0 <= k < i ==> page[k] == ListedUser(users[k], NamesFor(t, joined, users[k]))
    {
      page := page + [ListedUser(users[i], Lookup(names, users[i]))];
    }
  }

  function RowsBearing(t: Tables, joined: seq<Assignment>, user: UserId, name: string): set<Assignment> {
    set a | a in joined && a.user == user && a.role in t.roles && t.roles[a.role].name == name
  }

  lemma BearingNext(t: Tables, rest: seq<Assignment>, a: Assignment, user: UserId, name: string)
    requires a !in rest
    ensures |RowsBearing(t, rest + [a], user, name)|
         == |RowsBearing(t, rest, user, name)|
            + if a.user == user && a.role in t.roles && t.roles[a.role].name == name then 1 else 0
  {
    var before, after := RowsBearing(t, rest, user, name), RowsBearing(t, rest + [a], user, name);
    if a.user == user && a.role in t.roles && t.roles[a.role].name == name {
      assert after == before + {a};
    } else {
      assert after == before;
    }
  }

  lemma {:induction false} NamesCount(t: Tables, joined: seq<Assignment>, user: UserId, name: string)
    requires NoDuplicates(joined)
    ensures multiset(NamesFor(t, joined, user))[name] == |RowsBearing(t, joined, user, name)|
  {
    if joined == [] {
      assert RowsBearing(t, joined, user, name) == {};
    } else {
      var n := |joined| - 1;
      var rest, a := joined[..n], joined[n];
      assert joined == rest + [a] && joined[..n + 1] == joined;
      assert a !in rest;
      NamesCount(t, rest, user, name);
      NamesForNext(t, joined, n, user);
      BearingNext(t, rest, a, user, name);
    }
  }

  function HeldRolesNamed(t: Tables, user: UserId, tenant: TenantId, name: string): set<RoleId> {
    set r | r in UserLaws.RolesOf(t, user, tenant) && t.roles[r].name == name
  }

  /** The grouping loop attaches to each listed user exactly the multiset of names of the roles held in
      that tenant: a name appears once for each held role that bears it. */
  lemma NamesExact(t: Tables, tenant: TenantId, page: seq<UserId>, joined: seq<Assignment>, user: UserId, name: string)
    requires ForeignKeys(t) && RoleRows(t, tenant, page, joined) && user in page
    ensures multiset(NamesFor(t, joined, user))[name] == |HeldRolesNamed(t, user, tenant, name)|
  {
    NamesCount(t, joined, user, name);
    var f := (r: RoleId) => Assignment(user, r, tenant);
    var roles, rows := HeldRolesNamed(t, user, tenant, name), RowsBearing(t, joined, user, name);
    forall a | a in rows ensures exists r :: r in roles && f(r) == a {
      assert a == f(a.role) && a.role in roles;
    }
    SameSize(f, roles, rows);
  }

  /** Emails are unique, so the query has exactly one result and requests for different pages read from one and the
      same list, for every collation and every search. */
  lemma UserQueryDetermined(t: Tables, leq: (string, string) -> bool, tenant: TenantId, search: User -> bool)
    requires UniqueEmails(t) && TotalOrder(leq)
    ensures exists rows :: UserQuery(t, leq, tenant, search, rows)
    ensures forall rows, rows' ::
      UserQuery(t, leq, tenant, search, rows) && UserQuery(t, leq, tenant, search, rows') ==> rows == rows'
  {
    var matching := Matching(t, tenant, search);
    SortedDetermined(EmailOf(t), leq, matching);
    assert DistinctKeys(EmailOf(t), matching);
    var rows :| SortedBy(EmailOf(t), leq, matching, rows);
    assert UserQuery(t, leq, tenant, search, rows);
  }

  /** For every positive limit the pages 1 to ceil(total / limit), and no fewer, are the sorted list of matching
      members, each once, and `total` is their number. */
  lemma UserPages(t: Tables, leq: (string, string) -> bool, tenant: TenantId, search: User -> bool, rows: seq<UserId>,
                  limit: nat, k: nat)
    requires 0 < limit && UserQuery(t, leq, tenant, search, rows)
    ensures |rows| == |Matching(t, tenant, search)|
    ensures Pages(skip => Page(rows, skip, limit), limit, k) == rows <==> k >= PageCount(|Matching(t, tenant, search)|, limit)
    ensures forall u :: u in rows <==> u in t.users && Member(t, u, tenant) && search(t.users[u])
  {
    DistinctLength(rows);
    PagesComplete(skip => Page(rows, skip, limit), rows, limit, k);
    forall u ensures u in rows <==> u in Matching(t, tenant, search) {
      assert u in rows <==> u in Elements(rows);
    }
  }

  // ---------- Roles with user counts ----------

  function RoleRowsIn(t: Tables, tenant: TenantId, role: RoleId): set<Assignment> {
    set a | a in t.assignments && a.tenant == tenant && a.role == role
  }

  /** The grouped subquery: a count for each role that has a row in the tenant, and no entry for others. */
  function CountsByRole(t: Tables, tenant: TenantId): map<RoleId, nat> {
    map r | r in (set a | a in t.assignments && a.tenant == tenant :: a.role) :: |RoleRowsIn(t, tenant, r)|
  }

  /** The outer join with `coalesce(user_count, 0)`. */
  function UserCount(t: Tables, tenant: TenantId, role: RoleId): nat {
    var counts := CountsByRole(t, tenant);
    if role in counts then counts[role] else 0
  }

  /** The filter at role.py:78 as it is meant: each system role and each role of the tenant. */
  function AccessibleRoles(t: Tables, tenant: TenantId): set<RoleId> {
    set r | r in t.roles && Accessible(t, r, tenant)
  }

  function NameOf(t: Tables): RoleId -> string {
    r => if r in t.roles then t.roles[r].name else ""
  }

  /** A result of the role query before OFFSET and LIMIT: the accessible roles, each once, sorted by name. */
  ghost predicate RoleQuery(t: Tables, leq: (string, string) -> bool, tenant: TenantId, rows: seq<RoleId>) {
    SortedBy(NameOf(t), leq, AccessibleRoles(t, tenant), rows)
  }

  /** No two accessible roles share a name. */
  ghost predicate DistinctNames(t: Tables, tenant: TenantId) {
    forall r, q :: Accessible(t, r, tenant) && Accessible(t, q, tenant) && t.roles[r].name == t.roles[q].name ==> r == q
  }

  lemma PagesTellListsApart<T>(rows: seq<T>, rows': seq<T>, limit: nat)
    requires 0 < limit && forall skip: nat :: Page(rows, skip, limit) == Page(rows', skip, limit)
    ensures rows == rows'
  {
    PagesComplete(skip => Page(rows, skip, limit), rows, limit, PageCount(|rows|, limit) + PageCount(|rows'|, limit));
    PagesComplete(skip => Page(rows', skip, limit), rows', limit, PageCount(|rows|, limit) + PageCount(|rows'|, limit));
    SamePages(skip => Page(rows, skip, limit), skip => Page(rows', skip, limit), limit,
              PageCount(|rows|, limit) + PageCount(|rows'|, limit));
  }

  lemma {:induction false} SamePages<T>(read: nat -> seq<T>, read': nat -> seq<T>, limit: nat, k: nat)
    requires forall skip: nat :: read(skip) == read'(skip)
    ensures Pages(read, limit, k) == Pages(read', limit, k)
  {
    if k > 0 {
      SamePages(read, read', limit, k - 1);
    }
  }

  /** The role listing is ordered by name alone.  What a request for a page may return is determined, for every
      offset, exactly when no two accessible roles share a name; with a tie two requests may read from different
      lists, so a role can be missed or repeated. */
  lemma RolePagesDetermined(t: Tables, leq: (string, string) -> bool, tenant: TenantId, limit: nat)
    requires TotalOrder(leq) && 0 < limit
    ensures (forall rows, rows', skip: nat :: RoleQuery(t, leq, tenant, rows) && RoleQuery(t, leq, tenant, rows')
              ==> Page(rows, skip, limit) == Page(rows', skip, limit))
      <==> DistinctNames(t, tenant)
  {
    var roles := AccessibleRoles(t, tenant);
    SortedDetermined(NameOf(t), leq, roles);
    assert DistinctKeys(NameOf(t), roles) <==> DistinctNames(t, tenant) by {
      assert forall r :: Accessible(t, r, tenant) <==> r in roles;
    }
    if forall rows, rows', skip: nat :: RoleQuery(t, leq, tenant, rows) && RoleQuery(t, leq, tenant, rows')
         ==> Page(rows, skip, limit) == Page(rows', skip, limit) {
      forall rows, rows' | SortedBy(NameOf(t), leq, roles, rows) && SortedBy(NameOf(t), leq, roles, rows')
        ensures rows == rows'
      {
        assert RoleQuery(t, leq, tenant, rows) && RoleQuery(t, leq, tenant, rows');
        PagesTellListsApart(rows, rows', limit);
      }
    }
  }

  function SumCounts(t: Tables, tenant: TenantId, rows: seq<RoleId>): nat {
    if rows == [] then 0 else UserCount(t, tenant, rows[0]) + SumCounts(t, tenant, rows[1..])
  }

  /** Each listed count is the length of the list `get_users_for_role` gives. */
  lemma CountIsUsers(t: Tables, tenant: TenantId, role: RoleId)
    requires ForeignKeys(t)
    ensures UserCount(t, tenant, role) == |RoleLaws.UsersForRole(t, role, tenant)|
  {
    var rows, users := RoleRowsIn(t, tenant, role), RoleLaws.UsersForRole(t, role, tenant);
    var f := (u: UserId) => Assignment(u, role, tenant);
    forall a | a in rows ensures exists u :: u in users && f(u) == a {
      assert f(a.user) == a && a.user in users;
    }
    SameSize(f, users, rows);
    CountIsRows(t, tenant, role);
  }

  lemma CountIsRows(t: Tables, tenant: TenantId, role: RoleId)
    ensures UserCount(t, tenant, role) == |RoleRowsIn(t, tenant, role)|
  {}

  function RowsWithin(t: Tables, tenant: TenantId, roles: seq<RoleId>): set<Assignment> {
    set a | a in t.assignments && a.tenant == tenant && a.role in roles
  }

  lemma {:induction false} SumIsRows(t: Tables, tenant: TenantId, rows: seq<RoleId>)
    requires NoDuplicates(rows)
    ensures SumCounts(t, tenant, rows) == |RowsWithin(t, tenant, rows)|
  {
    if rows == [] {
      assert RowsWithin(t, tenant, rows) == {};
    } else {
      var r, rest := rows[0], rows[1..];
      SumIsRows(t, tenant, rest);
      CountIsRows(t, tenant, r);
      assert rows == [r] + rest;
      assert RowsWithin(t, tenant, rows) == RoleRowsIn(t, tenant, r) + RowsWithin(t, tenant, rest);
      assert RoleRowsIn(t, tenant, r) !! RowsWithin(t, tenant, rest);
    }
  }

  /** Count conservation: over all the roles listed for a tenant the counts add up to the tenant's assignment
      rows exactly when every one of those rows satisfies the scoping rule. */
  lemma CountConservation(t: Tables, tenant: TenantId, rows: seq<RoleId>)
    requires NoDuplicates(rows) && Elements(rows) == AccessibleRoles(t, tenant)
    ensures SumCounts(t, tenant, rows) == |RowsOf(t, tenant)| <==>
      forall a :: a in RowsOf(t, tenant) ==> Accessible(t, a.role, tenant)
    ensures Scoped(t) ==> SumCounts(t, tenant, rows) == |RowsOf(t, tenant)|
  {
    SumIsRows(t, tenant, rows);
    forall r ensures r in rows <==> Accessible(t, r, tenant) {
      assert r in Elements(rows) <==> r in AccessibleRoles(t, tenant);
    }
    var listed, all := RowsWithin(t, tenant, rows), RowsOf(t, tenant);
    SubsetSize(listed, all);
    if forall a :: a in all ==> Accessible(t, a.role, tenant) {
      assert listed == all;
    }
    if listed == all {
      forall a | a in all ensures Accessible(t, a.role, tenant) {
        assert a in listed;
      }
    }
    if Scoped(t) {
      forall a | a in all ensures Accessible(t, a.role, tenant) {
        assert a in t.assignments;
      }
    }
  }
}
