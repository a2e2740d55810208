/** The list endpoints that combine filtering and paging: endpoints/invitations.py and endpoints/api_keys.py.
    `rows` is the table in the order the database returns it, the same for every request. */
module ListEndpoints {
  import opened Base
  import opened Store
  import opened Paging
  import opened ApiKeys

  /** How many invitations `list_invitations` fetches before it filters. */
  const FETCHED: nat := 1000

  /** `list_invitations` for one tenant: with a status it fetches, filters, then slices; without, it pages. */
  function ListInvitations(rows: seq<Invitation>, status: Option<Status>, skip: nat, limit: nat): seq<Invitation> {
    match status
    case Some(st) => Page(Filter((inv: Invitation) => inv.status == st, Page(rows, 0, FETCHED)), skip, limit)
    case None => Page(rows, skip, limit)
  }

  /** Unfiltered, the pages are the whole list.  Filtered, they are a prefix of the true filtered list for any
      number of invitations, and all of it exactly when no invitation past the first 1000 has the status. */
  lemma {:induction false} InvitationPages(rows: seq<Invitation>, st: Status, limit: nat, k: nat)
    requires 0 < limit && k >= PageCount(|rows|, limit)
    ensures Pages(skip => ListInvitations(rows, None, skip, limit), limit, k) == rows
    ensures var all := Filter((inv: Invitation) => inv.status == st, rows);
      var pages := Pages(skip => ListInvitations(rows, Some(st), skip, limit), limit, k);
      && pages <= all
      && (pages == all <==> forall i :: 1000 <= i < |rows| ==> rows[i].status != st)
  {
    var keep := (inv: Invitation) => inv.status == st;
    PagesComplete(skip => ListInvitations(rows, None, skip, limit), rows, limit, k);
    FilterShorter(keep, rows);
    PageCountLeast(|rows|, limit, k);
    PageCountLeast(|Filter(keep, rows)|, limit, k);
    FilterThenPage(skip => ListInvitations(rows, Some(st), skip, limit), keep, rows, FETCHED, limit, k);
    var c := Min(FETCHED, |rows|);
    FilterEmpty(keep, rows[c..]);
    assert (forall i :: 0 <= i < |rows[c..]| ==> !keep(rows[c..][i])) <==> forall i :: FETCHED <= i < |rows| ==> rows[i].status != st by {
      if forall i :: 0 <= i < |rows[c..]| ==> !keep(rows[c..][i]) {
        forall i | FETCHED <= i < |rows| ensures rows[i].status != st {
          assert rows[i] == rows[c..][i - c];
        }
      }
    }
  }

  /** One filtered page: the slice of the true filtered list that was asked for, as far as the matching rows among the
      first 1000 reach. */
  lemma InvitationPage(rows: seq<Invitation>, st: Status, skip: nat, limit: nat)
    ensures var all := Filter((inv: Invitation) => inv.status == st, rows);
      var seen := |Filter((inv: Invitation) => inv.status == st, rows[..Min(1000, |rows|)])|;
      var page := ListInvitations(rows, Some(st), skip, limit);
      && seen <= |all|
      && |page| == (if seen <= skip then 0 else Min(limit, seen - skip))
      && forall j :: 0 <= j < |page| ==> page[j] == all[skip + j]
  {
    var keep := (inv: Invitation) => inv.status == st;
    var c := Min(1000, |rows|);
    assert rows == rows[..c] + rows[c..];
    FilterConcat(keep, rows[..c], rows[c..]);
    SliceOf(Filter(keep, rows[..c]), skip, limit);
  }

  lemma {:induction false} FilterShorter<T>(keep: T -> bool, rows: seq<T>)
    ensures |Filter(keep, rows)| <= |rows|
  {
    if rows != [] {
      FilterShorter(keep, rows[1..]);
    }
  }

  lemma {:induction false} FilterEmpty<T>(keep: T -> bool, rows: seq<T>)
    ensures Filter(keep, rows) == [] <==> forall i :: 0 <= i < |rows| ==> !keep(rows[i])
  {
    if rows != [] {
      FilterEmpty(keep, rows[1..]);
      assert forall i :: 0 < i < |rows| ==> rows[i] == rows[1..][i - 1];
      assert forall i :: 0 <= i < |rows[1..]| ==> rows[1..][i] == rows[i + 1];
    }
  }

  // ---------- API keys ----------

  function OfUser(user: UserId): ApiKey -> bool { (k: ApiKey) => k.user == user }

  function OfTenant(tenant: TenantId): ApiKey -> bool { (k: ApiKey) => k.tenant == Some(tenant) }

  /** `read_api_keys`: a superuser's tenant filter is part of the query; anyone else gets a page of their own
      keys, filtered afterwards. */
  function ReadApiKeys(rows: seq<ApiKey>, user: UserId, superuser: bool, tenant: Option<TenantId>, skip: nat, limit: nat): seq<ApiKey> {
    if superuser then
      Page(if tenant.Some? then Filter(OfTenant(tenant.value), rows) else rows, skip, limit)
    else
      var page := Page(Filter(OfUser(user), rows), skip, limit);
      if tenant.Some? then Filter(OfTenant(tenant.value), page) else page
  }

  /** A user reading all pages gets exactly their own keys of the tenant, each once and in order: what a
      superuser reads for that tenant, less the keys of other users. */
  lemma {:induction false} KeyPages(rows: seq<ApiKey>, user: UserId, tenant: TenantId, limit: nat, k: nat)
    requires 0 < limit && k >= PageCount(|rows|, limit)
    ensures var own := Pages(skip => ReadApiKeys(rows, user, false, Some(tenant), skip, limit), limit, k);
      var all := Pages(skip => ReadApiKeys(rows, user, true, Some(tenant), skip, limit), limit, k);
      && all == Filter(OfTenant(tenant), rows)
      && own == Filter(OfTenant(tenant), Filter(OfUser(user), rows))
      && own == Filter(OfUser(user), all)
    ensures Pages(skip => ReadApiKeys(rows, user, true, None, skip, limit), limit, k) == rows
    ensures Pages(skip => ReadApiKeys(rows, user, false, None, skip, limit), limit, k) == Filter(OfUser(user), rows)
  {
    PagesComplete(skip => ReadApiKeys(rows, user, true, None, skip, limit), rows, limit, k);
    var mine := Filter(OfUser(user), rows);
    FilterShorter(OfUser(user), rows);
    FilterShorter(OfTenant(tenant), rows);
    PageCountLeast(|rows|, limit, k);
    PageCountLeast(|mine|, limit, k);
    PageCountLeast(|Filter(OfTenant(tenant), rows)|, limit, k);
    PagesComplete(skip => ReadApiKeys(rows, user, false, None, skip, limit), mine, limit, k);
    PageThenFilter(skip => ReadApiKeys(rows, user, false, Some(tenant), skip, limit), OfTenant(tenant), mine, limit, k);
    PagesComplete(skip => ReadApiKeys(rows, user, true, Some(tenant), skip, limit), Filter(OfTenant(tenant), rows), limit, k);
    FiltersCommute(OfTenant(tenant), OfUser(user), rows);
  }

  /** One page of a superuser: the slice of the tenant's keys that was asked for. */
  lemma SuperuserKeyPage(rows: seq<ApiKey>, user: UserId, tenant: TenantId, skip: nat, limit: nat)
    ensures var all, page := Filter(OfTenant(tenant), rows), ReadApiKeys(rows, user, true, Some(tenant), skip, limit);
      && |page| == (if |all| <= skip then 0 else Min(limit, |all| - skip))
      && forall j :: 0 <= j < |page| ==> page[j] == all[skip + j]
  {
    SliceOf(Filter(OfTenant(tenant), rows), skip, limit);
  }

  /** One page of anyone else: what is left of a slice of their own keys without those of other tenants, so a page may be
      short, or empty, before the last. */
  lemma OwnKeyPage(rows: seq<ApiKey>, user: UserId, tenant: TenantId, skip: nat, limit: nat, k: ApiKey)
    ensures |ReadApiKeys(rows, user, false, Some(tenant), skip, limit)| <= limit
    ensures k in ReadApiKeys(rows, user, false, Some(tenant), skip, limit) <==>
      k.tenant == Some(tenant) && Within(Filter(OfUser(user), rows), skip, limit, k)
  {
    var mine := Filter(OfUser(user), rows);
    SliceMembers(mine, skip, limit, k);
    FilterShorter(OfTenant(tenant), Page(mine, skip, limit));
    FilterMembers(OfTenant(tenant), Page(mine, skip, limit));
  }

  lemma SliceOf<T>(rows: seq<T>, skip: nat, limit: nat)
    ensures |Page(rows, skip, limit)| == if |rows| <= skip then 0 else Min(limit, |rows| - skip)
    ensures forall j :: 0 <= j < |Page(rows, skip, limit)| ==> Page(rows, skip, limit)[j] == rows[skip + j]
  {}

  /** `x` stands at one of the positions asked for. */
  ghost predicate Within<T>(rows: seq<T>, skip: nat, limit: nat, x: T) {
    exists i :: skip <= i < |rows| && i < skip + limit && rows[i] == x
  }

  lemma SliceMembers<T>(rows: seq<T>, skip: nat, limit: nat, x: T)
    ensures x in Page(rows, skip, limit) <==> Within(rows, skip, limit, x)
  {
    var page := Page(rows, skip, limit);
    if Within(rows, skip, limit, x) {
      var i :| skip <= i < |rows| && i < skip + limit && rows[i] == x;
      assert page[i - skip] == x;
    }
    if j :| 0 <= j < |page| && page[j] == x {
      assert rows[skip + j] == x;
    }
  }

  lemma {:induction false} FilterMembers<T>(keep: T -> bool, rows: seq<T>)
    ensures forall x :: x in Filter(keep, rows) <==> x in rows && keep(x)
  {
    if rows != [] {
      FilterMembers(keep, rows[1..]);
      assert rows == [rows[0]] + rows[1..];
    }
  }

  lemma {:induction false} FiltersCommute<T>(p: T -> bool, q: T -> bool, rows: seq<T>)
    ensures Filter(p, Filter(q, rows)) == Filter(q, Filter(p, rows))
  {
    if rows != [] {
      var rest := rows[1..];
      var byQ, byP := if q(rows[0]) then [rows[0]] else [], if p(rows[0]) then [rows[0]] else [];
      FiltersCommute(p, q, rest);
      FilterConcat(p, byQ, Filter(q, rest));
      FilterConcat(q, byP, Filter(p, rest));
      FilterOne(p, rows[0]);
      FilterOne(q, rows[0]);
      assert Filter(p, byQ) == Filter(q, byP);
    }
  }

  lemma FilterOne<T>(keep: T -> bool, x: T)
    ensures Filter(keep, [x]) == if keep(x) then [x] else []
  {}
}
