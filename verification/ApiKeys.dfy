/** services/iam/api_key.py: keys stored as a prefix and a hash, and their validation.

    The hash is an injective function; the generated key text and the ids are inputs. */
module ApiKeys {
  import opened Base
  import opened Store

  type KeyId = int

  datatype Scope = GLOBAL | TENANT

  datatype ApiKey = ApiKey(
    name: string, description: Option<string>, prefix: string, hash: string, isActive: bool,
    expiresAt: Option<int>, lastUsedAt: Option<int>, user: UserId, tenant: Option<TenantId>, scope: Scope)

  /** Who was handed which key text, for every id ever created.  Only the specification reads it. */
  datatype Issue = Issue(raw: string, user: UserId)

  datatype KeyStore = KeyStore(
    users: set<UserId>, tenants: set<TenantId>, keys: map<KeyId, ApiKey>, issued: map<KeyId, Issue>)

  datatype KeyTx = KeyTx(working: KeyStore, committed: KeyStore) {
    function Write(t: KeyStore): KeyTx { KeyTx(t, committed) }
    function Commit(): KeyTx { KeyTx(working, working) }
    function Rollback(): KeyTx { KeyTx(committed, committed) }
  }

  ghost predicate Injective(hash: string -> string) {
    forall a, b :: hash(a) == hash(b) ==> a == b
  }

  /** `_generate_api_key`: "vsak_" and the 43 characters of a 32-byte token. */
  predicate Generated(raw: string) {
    |raw| == 48 && raw[..5] == "vsak_"
  }

  function Prefix(raw: string): string {
    if |raw| < 8 then raw else raw[..8]
  }

  // ---------- The invariant ----------

  ghost predicate RowFits(t: KeyStore, hash: string -> string, id: KeyId)
    requires id in t.keys
  {
    var k := t.keys[id];
    && id in t.issued && 8 <= |t.issued[id].raw|
    && k.prefix == Prefix(t.issued[id].raw) && k.hash == hash(t.issued[id].raw) && k.user == t.issued[id].user
    && k.user in t.users
    && (k.scope.TENANT? <==> k.tenant.Some?)
  }

  ghost predicate KeyInv(t: KeyStore, hash: string -> string) {
    && (forall a, b :: a in t.keys && b in t.keys && t.keys[a].prefix == t.keys[b].prefix ==> a == b)
    && (forall id :: id in t.keys ==> RowFits(t, hash, id))
  }

  ghost predicate KeySound(s: KeyTx, hash: string -> string) {
    && KeyInv(s.working, hash) && KeyInv(s.committed, hash)
    && IssuesKept(s.committed, s.working)
  }

  /** No record of an issued key is ever lost or changed. */
  ghost predicate IssuesKept(t: KeyStore, t': KeyStore) {
    forall id :: id in t.issued ==> id in t'.issued && t'.issued[id] == t.issued[id]
  }

  // ---------- create_with_user ----------

  datatype KeyCreate = KeyCreate(
    name: string, description: Option<string>, isActive: bool, expiresAt: Option<int>, scope: Scope, tenant: Option<TenantId>)

  /** The argument wins over the schema for a tenant key; a global key has none. */
  function TenantFor(input: KeyCreate, tenant: Option<TenantId>): Option<TenantId> {
    if input.scope.GLOBAL? then None else if tenant.Some? then tenant else input.tenant
  }

  predicate KeyInsertable(t: KeyStore, id: KeyId, k: ApiKey) {
    && id !in t.keys
    && (forall other :: other in t.keys ==> t.keys[other].prefix != k.prefix)
    && k.user in t.users
    && (k.tenant.Some? ==> k.tenant.value in t.tenants)
  }

  function NewKey(input: KeyCreate, user: UserId, tenant: Option<TenantId>, raw: string, hash: string -> string): ApiKey {
    ApiKey(input.name, input.description, Prefix(raw), hash(raw), input.isActive, input.expiresAt, None,
           user, TenantFor(input, tenant), input.scope)
  }

  function WithKey(t: KeyStore, id: KeyId, k: ApiKey, issue: Issue): KeyStore {
    t.(keys := t.keys[id := k], issued := t.issued[id := issue])
  }

  function CreatingKey(s: KeyTx, input: KeyCreate, user: UserId, tenant: Option<TenantId>, id: KeyId, raw: string,
                       hash: string -> string): (KeyTx, Outcome<string>)
  {
    var k := NewKey(input, user, tenant, raw, hash);
    if input.scope.TENANT? && k.tenant.None? then (s, Failed(BadRequest))
    else if KeyInsertable(s.working, id, k) then (s.Write(WithKey(s.working, id, k, Issue(raw, user))).Commit(), Done(raw))
    else (s.Rollback(), Failed(Constraint))
  }

  // ---------- update and delete (services/base.py): flushed, not committed ----------

  datatype KeyUpdate = KeyUpdate(
    name: Patch<Option<string>>, description: Patch<Option<string>>, isActive: Patch<Option<bool>>, expiresAt: Patch<Option<int>>)

  function Updated(k: ApiKey, u: KeyUpdate): ApiKey
    requires u.name != Given(None) && u.isActive != Given(None)
  {
    k.(name := if u.name.Given? then u.name.value.value else k.name,
       description := if u.description.Given? then u.description.value else k.description,
       isActive := if u.isActive.Given? then u.isActive.value.value else k.isActive,
       expiresAt := if u.expiresAt.Given? then u.expiresAt.value else k.expiresAt)
  }

  function UpdatingKey(s: KeyTx, id: KeyId, u: KeyUpdate): (KeyTx, Outcome<()>) {
    if id !in s.working.keys then (s, Failed(NotFound))
    else if u.name == Given(None) || u.isActive == Given(None) then (s.Rollback(), Failed(Constraint))
    else (s.Write(s.working.(keys := s.working.keys[id := Updated(s.working.keys[id], u)])), Done(()))
  }

  function DeletingKey(s: KeyTx, id: KeyId): (KeyTx, Outcome<()>) {
    if id !in s.working.keys then (s, Failed(NotFound))
    else (s.Write(s.working.(keys := s.working.keys - {id})), Done(()))
  }

  // ---------- validate_api_key and update_last_used ----------

  function Matches(t: KeyStore, raw: string, hash: string -> string): set<KeyId> {
    set id | id in t.keys && t.keys[id].prefix == Prefix(raw) && t.keys[id].hash == hash(raw) && t.keys[id].isActive
  }

  function Stamped(t: KeyStore, id: KeyId, now: int): KeyStore {
    if id in t.keys then t.(keys := t.keys[id := t.keys[id].(lastUsedAt := Some(now))]) else t
  }

  /** Expiry is strict: a key is still good at the very instant it expires. */
  predicate Overdue(k: ApiKey, now: int) {
    k.expiresAt.Some? && k.expiresAt.value < now
  }

  /** `first` is the row the query by prefix, hash and activity returned. */
  function ValidatingKey(s: KeyTx, raw: string, now: int, first: Option<KeyId>): (KeyTx, Option<(KeyId, UserId)>)
    requires first.Some? ==> first.value in s.working.keys
  {
    if |raw| < 8 || first.None? || Overdue(s.working.keys[first.value], now) then (s, None)
    else
      var user := s.working.keys[first.value].user;
      (s.Write(Stamped(s.working, first.value, now)), if user in s.working.users then Some((first.value, user)) else None)
  }

  /** The service object and its session. */
  class ApiKeyService {
    const hash: string -> string
    var working: KeyStore
    var committed: KeyStore

    function State(): KeyTx
      reads this
    {
      KeyTx(working, committed)
    }

    constructor (t: KeyStore, hash: string -> string)
      ensures State() == KeyTx(t, t) && this.hash == hash
    {
      working, committed, this.hash := t, t, hash;
    }

    method CreateWithUser(input: KeyCreate, user: UserId, tenantId: Option<TenantId>, id: KeyId, raw: string) returns (out: Outcome<string>)
      modifies this
      ensures (State(), out) == CreatingKey(old(State()), input, user, tenantId, id, raw, hash)
    {
      var tenant: Option<TenantId> := None;
      if input.scope.TENANT? {
        tenant := if tenantId.None? then input.tenant else tenantId;
        if tenant.None? {
          return Failed(BadRequest);
        }
      }
      var k := ApiKey(input.name, input.description, Prefix(raw), hash(raw), input.isActive, input.expiresAt, None,
                      user, tenant, input.scope);
      if !KeyInsertable(working, id, k) {
        working := committed;
        return Failed(Constraint);
      }
      working := WithKey(working, id, k, Issue(raw, user));
      committed := working;
      return Done(raw);
    }

    method ValidateApiKey(raw: string, now: int) returns (found: Option<(KeyId, UserId)>)
      modifies `working
      ensures exists first ::
        && IsFirst(first, Matches(old(working), raw, hash))
        && (State(), found) == ValidatingKey(old(State()), raw, now, first)
    {
      if |raw| < 8 {
        FirstExists(Matches(working, raw, hash));
        return None;
      }
      var first := First(Matches(working, raw, hash));
      if first.None? {
        return None;
      }
      var k := working.keys[first.value];
      if k.expiresAt.Some? && k.expiresAt.value < now {
        return None;
      }
      working := working.(keys := working.keys[first.value := k.(lastUsedAt := Some(now))]);
      if k.user !in working.users {
        return None;
      }
      return Some((first.value, k.user));
    }

    method UpdateLastUsed(id: KeyId, now: int)
      requires id in working.keys
      modifies this
      ensures State() == old(State()).Write(Stamped(old(working), id, now)).Commit()
    {
      working := working.(keys := working.keys[id := working.keys[id].(lastUsedAt := Some(now))]);
      committed := working;
    }

    /** `CRUDBase.update`: the given fields are set one by one, then flushed; nothing is committed. */
    method Update(id: KeyId, u: KeyUpdate) returns (out: Outcome<()>)
      modifies `working
      ensures (State(), out) == UpdatingKey(old(State()), id, u)
    {
      if id !in working.keys {
        return Failed(NotFound);
      }
      var k := working.keys[id];
      if u.name.Given? {
        if u.name.value.None? {
          working := committed;
          return Failed(Constraint);
        }
        k := k.(name := u.name.value.value);
      }
      if u.description.Given? {
        k := k.(description := u.description.value);
      }
      if u.isActive.Given? {
        if u.isActive.value.None? {
          working := committed;
          return Failed(Constraint);
        }
        k := k.(isActive := u.isActive.value.value);
      }
      if u.expiresAt.Given? {
        k := k.(expiresAt := u.expiresAt.value);
      }
      working := working.(keys := working.keys[id := k]);
      return Done(());
    }

    /** `CRUDBase.delete`, flushed only. */
    method Delete(id: KeyId) returns (out: Outcome<()>)
      modifies `working
      ensures (State(), out) == DeletingKey(old(State()), id)
    {
      if id !in working.keys {
        return Failed(NotFound);
      }
      working := working.(keys := working.keys - {id});
      return Done(());
    }
  }

  // ---------- Runs ----------

  datatype KeyStep =
    | Create(input: KeyCreate, user: UserId, tenant: Option<TenantId>, id: KeyId, raw: string)
    | Update(id: KeyId, update: KeyUpdate)
    | Delete(id: KeyId)
    | Validate(text: string, now: int, first: Option<KeyId>)
    | Touch(id: KeyId, now: int)
    | CommitKeys
    | RollbackKeys

  ghost predicate KeyEnabled(s: KeyTx, step: KeyStep, hash: string -> string) {
    match step
    case Create(_, _, _, id, raw) => Generated(raw) && id !in s.working.issued
    case Validate(raw, _, first) => IsFirst(first, Matches(s.working, raw, hash))
    case _ => true
  }

  ghost function KeyApply(s: KeyTx, step: KeyStep, hash: string -> string): KeyTx
    requires KeyEnabled(s, step, hash)
  {
    match step
    case Create(input, user, tenant, id, raw) => CreatingKey(s, input, user, tenant, id, raw, hash).0
    case Update(id, update) => UpdatingKey(s, id, update).0
    case Delete(id) => DeletingKey(s, id).0
    case Validate(raw, now, first) => ValidatingKey(s, raw, now, first).0
    case Touch(id, now) => s.Write(Stamped(s.working, id, now)).Commit()
    case CommitKeys => s.Commit()
    case RollbackKeys => s.Rollback()
  }

  /** `s'` is reached from `s` by the steps, each enabled where it is taken. */
  ghost predicate KeyRun(s: KeyTx, steps: seq<KeyStep>, s': KeyTx, hash: string -> string)
    decreases |steps|
  {
    if steps == [] then s' == s
    else KeyEnabled(s, steps[0], hash) && KeyRun(KeyApply(s, steps[0], hash), steps[1..], s', hash)
  }

  /** An edit that keeps the stored identity of a row. */
  lemma RowEdited(t: KeyStore, id: KeyId, k: ApiKey, hash: string -> string)
    requires KeyInv(t, hash) && id in t.keys
    requires var before := t.keys[id];
      k.prefix == before.prefix && k.hash == before.hash && k.user == before.user && k.tenant == before.tenant && k.scope == before.scope
    ensures KeyInv(t.(keys := t.keys[id := k]), hash)
  {}

  lemma RowAdded(t: KeyStore, id: KeyId, k: ApiKey, issue: Issue, hash: string -> string)
    requires KeyInv(t, hash) && KeyInsertable(t, id, k) && RowFits(WithKey(t, id, k, issue), hash, id)
    ensures KeyInv(WithKey(t, id, k, issue), hash)
  {}

  lemma RowRemoved(t: KeyStore, id: KeyId, hash: string -> string)
    requires KeyInv(t, hash)
    ensures KeyInv(t.(keys := t.keys - {id}), hash)
  {}

  lemma KeyStepSound(s: KeyTx, step: KeyStep, hash: string -> string)
    requires KeySound(s, hash) && KeyEnabled(s, step, hash)
    ensures KeySound(KeyApply(s, step, hash), hash)
    ensures IssuesKept(s.committed, KeyApply(s, step, hash).committed)
  {
    var t := s.working;
    match step
    case Create(input, user, tenant, id, raw) =>
      var k := NewKey(input, user, tenant, raw, hash);
      if !(input.scope.TENANT? && k.tenant.None?) && KeyInsertable(t, id, k) {
        RowAdded(t, id, k, Issue(raw, user), hash);
      }
    case Update(id, update) =>
      if id in t.keys && update.name != Given(None) && update.isActive != Given(None) {
        RowEdited(t, id, Updated(t.keys[id], update), hash);
      }
    case Delete(id) => RowRemoved(t, id, hash);
    case Validate(_, now, first) =>
      if first.Some? {
        RowEdited(t, first.value, t.keys[first.value].(lastUsedAt := Some(now)), hash);
      }
    case Touch(id, now) =>
      if id in t.keys {
        RowEdited(t, id, t.keys[id].(lastUsedAt := Some(now)), hash);
      }
    case CommitKeys =>
    case RollbackKeys =>
  }

  lemma {:induction false} KeyRunSound(s: KeyTx, steps: seq<KeyStep>, s': KeyTx, hash: string -> string)
    requires KeySound(s, hash) && KeyRun(s, steps, s', hash)
    ensures KeySound(s', hash) && IssuesKept(s.committed, s'.committed)
    decreases |steps|
  {
    if steps != [] {
      KeyStepSound(s, steps[0], hash);
      KeyRunSound(KeyApply(s, steps[0], hash), steps[1..], s', hash);
    }
  }

  // ---------- Validation answers the right question ----------

  /** Looking up by prefix and hash finds the same rows as scanning every row for the hash, and never more
      than one: those whose key text is the one presented. */
  lemma IndexAgrees(t: KeyStore, hash: string -> string, raw: string)
    requires Injective(hash) && KeyInv(t, hash)
    ensures Matches(t, raw, hash) == set id | id in t.keys && t.keys[id].hash == hash(raw) && t.keys[id].isActive
    ensures Matches(t, raw, hash) == set id | id in t.keys && t.issued[id].raw == raw && t.keys[id].isActive
    ensures |Matches(t, raw, hash)| <= 1
  {
    forall id | id in t.keys ensures t.keys[id].hash == hash(raw) <==> t.issued[id].raw == raw {
      assert RowFits(t, hash, id);
    }
    forall id | id in t.keys && t.issued[id].raw == raw ensures t.keys[id].prefix == Prefix(raw) {
      assert RowFits(t, hash, id);
    }
    var rows := Matches(t, raw, hash);
    forall a, b | a in rows && b in rows ensures a == b {
      assert t.keys[a].prefix == t.keys[b].prefix;
    }
    AtMostOne(rows);
  }

  /** A key text is accepted for row `id` exactly when that row holds it, is active and is not past its expiry;
      the user returned is the one it was issued to.  An accepted validation changes the last-used instant of that
      row and nothing else, and commits nothing; a refused one changes nothing at all. */
  lemma ValidationExact(s: KeyTx, hash: string -> string, raw: string, now: int, first: Option<KeyId>, id: KeyId, user: UserId)
    requires Injective(hash) && KeyInv(s.working, hash) && IsFirst(first, Matches(s.working, raw, hash))
    ensures ValidatingKey(s, raw, now, first).1 == Some((id, user)) <==>
      && id in s.working.keys && s.working.issued[id] == Issue(raw, user) && s.working.keys[id].isActive
      && (s.working.keys[id].expiresAt.Some? ==> now <= s.working.keys[id].expiresAt.value)
    ensures ValidatingKey(s, raw, now, first).1 == Some((id, user)) ==>
      && id in s.working.keys
      && ValidatingKey(s, raw, now, first).0 == KeyTx(
           s.working.(keys := s.working.keys[id := s.working.keys[id].(lastUsedAt := Some(now))]), s.committed)
    ensures ValidatingKey(s, raw, now, first).1 == None ==> ValidatingKey(s, raw, now, first).0 == s
  {
    IndexAgrees(s.working, hash, raw);
    if first.Some? {
      assert RowFits(s.working, hash, first.value);
    }
    if id in s.working.keys {
      assert RowFits(s.working, hash, id);
    }
    if id in Matches(s.working, raw, hash) {
      assert first == Some(id) by {
        assert s.working.keys[first.value].prefix == s.working.keys[id].prefix;
      }
    }
  }

  /** Using a key does not use it up: validated again at the same instant it gives the same answer and changes
      nothing more, and at any later instant it is refused only when its expiry has passed. */
  lemma ValidateAgain(s: KeyTx, hash: string -> string, raw: string, now: int, later: int, first: Option<KeyId>, first': Option<KeyId>)
    requires Injective(hash) && KeySound(s, hash)
    requires IsFirst(first, Matches(s.working, raw, hash))
    requires IsFirst(first', Matches(ValidatingKey(s, raw, now, first).0.working, raw, hash))
    ensures var (s1, found) := ValidatingKey(s, raw, now, first);
      && ValidatingKey(s1, raw, now, first') == (s1, found)
      && (found.Some? ==>
          var k := s.working.keys[found.value.0];
          ValidatingKey(s1, raw, later, first').1
            == if k.expiresAt.Some? && k.expiresAt.value < later then None else found)
  {
    var (s1, found) := ValidatingKey(s, raw, now, first);
    KeyStepSound(s, Validate(raw, now, first), hash);
    if found.Some? {
      var (id, user) := found.value;
      ValidationExact(s, hash, raw, now, first, id, user);
      assert s1.working.issued[id] == Issue(raw, user);
      ValidationExact(s1, hash, raw, now, first', id, user);
      ValidationExact(s1, hash, raw, later, first', id, user);
      LaterAnswer(s1, hash, raw, later, first', id, user);
      assert s1.working.keys[id := s1.working.keys[id].(lastUsedAt := Some(now))] == s1.working.keys;
    }
  }

  /** Only the row issued with the text can answer for it. */
  lemma LaterAnswer(s: KeyTx, hash: string -> string, raw: string, now: int, first: Option<KeyId>, id: KeyId, user: UserId)
    requires Injective(hash) && KeyInv(s.working, hash) && IsFirst(first, Matches(s.working, raw, hash))
    requires id in s.working.keys && s.working.issued[id] == Issue(raw, user)
    ensures ValidatingKey(s, raw, now, first).1.Some? ==> ValidatingKey(s, raw, now, first).1 == Some((id, user))
  {
    var found := ValidatingKey(s, raw, now, first).1;
    if found.Some? {
      ValidationExact(s, hash, raw, now, first, found.value.0, found.value.1);
      SameTextSameRow(s.working, hash, id);
    }
  }

  /** Touching a key: its last-used instant changes and nothing else, and that is committed with whatever was
      pending; every text validates for the same row and user as before. */
  lemma TouchExact(s: KeyTx, hash: string -> string, id: KeyId, at: int, raw: string, now: int, first: Option<KeyId>)
    requires Injective(hash) && KeySound(s, hash) && id in s.working.keys
    requires IsFirst(first, Matches(s.working, raw, hash))
    ensures var s' := KeyApply(s, Touch(id, at), hash);
      && s'.working == s'.committed
      && s'.committed == s.working.(keys := s.working.keys[id := s.working.keys[id].(lastUsedAt := Some(at))])
      && Matches(s'.working, raw, hash) == Matches(s.working, raw, hash)
      && ValidatingKey(s', raw, now, first).1 == ValidatingKey(s, raw, now, first).1
  {}

  /** Creating a key, told field by field.  A TENANT key takes the tenant of the call, or else of the form, and is
      refused without one; a GLOBAL key takes none.  It is made exactly when the id and the prefix are free and the
      user and the tenant exist, and then it alone is added and committed; a clash rolls the session back. */
  lemma KeyCreationExact(s: KeyTx, input: KeyCreate, user: UserId, tenant: Option<TenantId>, id: KeyId, raw: string,
                         hash: string -> string)
    requires KeySound(s, hash) && Generated(raw)
    ensures var (s', out) := CreatingKey(s, input, user, tenant, id, raw, hash);
      var t := s.working;
      var owner := if input.scope == GLOBAL then None else if tenant != None then tenant else input.tenant;
      var placed := input.scope == GLOBAL || owner.Some?;
      var free := id !in t.keys && forall other :: other in t.keys ==> t.keys[other].prefix != raw[..8];
      var known := user in t.users && (owner.Some? ==> owner.value in t.tenants);
      && (out == Failed(BadRequest) <==> !placed)
      && (out == Failed(Constraint) <==> placed && !(free && known))
      && (out == Done(raw) <==> placed && free && known)
      && (out == Failed(BadRequest) ==> s' == s)
      && (out == Failed(Constraint) ==> s' == KeyTx(s.committed, s.committed))
      && (out.Done? ==>
          && out.value == raw && s'.working == s'.committed && id in s'.committed.keys
          && var k := s'.committed.keys[id];
          && k.name == input.name && k.description == input.description && k.isActive == input.isActive
          && k.expiresAt == input.expiresAt && k.lastUsedAt == None && k.scope == input.scope
          && k.user == user && k.tenant == owner && k.prefix == raw[..8] && k.hash == hash(raw)
          && s'.committed == t.(keys := t.keys[id := k], issued := t.issued[id := Issue(raw, user)]))
  {}

  /** Editing a key in the working copy: each field is the one given, if one is, and the stored one if not, and
      nothing but the row changes; a null name or activity rolls the session back. */
  lemma EditExact(s: KeyTx, id: KeyId, u: KeyUpdate)
    ensures var (s', out) := UpdatingKey(s, id, u);
      var t := s.working;
      && (out == Failed(NotFound) <==> id !in t.keys)
      && (out == Failed(Constraint) <==> id in t.keys && (u.name == Given(None) || u.isActive == Given(None)))
      && (out == Failed(NotFound) ==> s' == s)
      && (out == Failed(Constraint) ==> s' == KeyTx(s.committed, s.committed))
      && (out.Failed? ==> out == Failed(NotFound) || out == Failed(Constraint))
      && (out.Done? ==>
          && s'.committed == s.committed && id in s'.working.keys
          && var k := s'.working.keys[id];
          && (if u.name.Given? then u.name.value == Some(k.name) else k.name == t.keys[id].name)
          && (if u.description.Given? then k.description == u.description.value else k.description == t.keys[id].description)
          && (if u.isActive.Given? then u.isActive.value == Some(k.isActive) else k.isActive == t.keys[id].isActive)
          && (if u.expiresAt.Given? then k.expiresAt == u.expiresAt.value else k.expiresAt == t.keys[id].expiresAt)
          && k == t.keys[id].(name := k.name, description := k.description, isActive := k.isActive, expiresAt := k.expiresAt)
          && s'.working == t.(keys := t.keys[id := k]))
  {}

  /** Editing twice is editing once with the later value of every field given: an update wins over the one before it
      field by field, and not as a whole. */
  lemma EditsCompose(s: KeyTx, id: KeyId, u: KeyUpdate, v: KeyUpdate)
    requires UpdatingKey(s, id, u).1.Done? && UpdatingKey(s, id, v).1.Done?
    ensures var both := KeyUpdate(
        if v.name.Given? then v.name else u.name, if v.description.Given? then v.description else u.description,
        if v.isActive.Given? then v.isActive else u.isActive, if v.expiresAt.Given? then v.expiresAt else u.expiresAt);
      UpdatingKey(UpdatingKey(s, id, u).0, id, v) == UpdatingKey(s, id, both)
  {
    var t := s.working;
    var mid := Updated(t.keys[id], u);
    assert t.keys[id := mid][id := Updated(mid, v)] == t.keys[id := Updated(mid, v)];
  }

  /** Deleting a key takes that row from the working copy and nothing else; the committed copy and the record of what
      was issued stay. */
  lemma KeyDeletionExact(s: KeyTx, id: KeyId)
    ensures var (s', out) := DeletingKey(s, id);
      && (out == Failed(NotFound) <==> id !in s.working.keys) && (out.Failed? ==> out == Failed(NotFound) && s' == s)
      && (out.Done? ==> s' == KeyTx(s.working.(keys := s.working.keys - {id}), s.committed))
  {}

  /** Within the session that made it, an edit decides validation at once: in the working copy the key text is
      accepted exactly when the activity and the expiry in force, edited or kept, allow it, and after a
      deletion not at all.  Both wait for a commit: see EditsFade and DeletedForGood. */
  lemma EditDecidesValidation(s: KeyTx, hash: string -> string, id: KeyId, u: KeyUpdate, now: int,
                              first: Option<KeyId>, first': Option<KeyId>)
    requires Injective(hash) && KeySound(s, hash) && id in s.working.keys && UpdatingKey(s, id, u).1.Done?
    requires var raw := s.working.issued[id].raw;
      && IsFirst(first, Matches(UpdatingKey(s, id, u).0.working, raw, hash))
      && IsFirst(first', Matches(DeletingKey(s, id).0.working, raw, hash))
    ensures var raw := s.working.issued[id].raw;
      && (ValidatingKey(UpdatingKey(s, id, u).0, raw, now, first).1.Some? <==>
          && (if u.isActive.Given? then u.isActive.value == Some(true) else s.working.keys[id].isActive)
          && (var expiry := if u.expiresAt.Given? then u.expiresAt.value else s.working.keys[id].expiresAt;
              expiry.None? || now <= expiry.value))
      && ValidatingKey(DeletingKey(s, id).0, raw, now, first').1 == None
  {
    var issue := s.working.issued[id];
    var updated, deleted := UpdatingKey(s, id, u).0, DeletingKey(s, id).0;
    KeyStepSound(s, Update(id, u), hash);
    KeyStepSound(s, Delete(id), hash);
    ValidationExact(updated, hash, issue.raw, now, first, id, issue.user);
    IndexAgrees(updated.working, hash, issue.raw);
    SameTextSameRow(s.working, hash, id);
    IndexAgrees(deleted.working, hash, issue.raw);
    assert Matches(deleted.working, issue.raw, hash) == {};
  }

  lemma SameTextSameRow(t: KeyStore, hash: string -> string, id: KeyId)
    requires KeyInv(t, hash) && id in t.keys
    ensures forall other :: other in t.keys && t.issued[other].raw == t.issued[id].raw ==> other == id
  {
    forall other | other in t.keys && t.issued[other].raw == t.issued[id].raw ensures other == id {
      assert RowFits(t, hash, id) && RowFits(t, hash, other);
    }
  }

  // ---------- Edits last only if they are committed ----------

  /** The steps that commit; updating, deleting and validating only flush. */
  predicate Commits(step: KeyStep) {
    step.Create? || step.Touch? || step.CommitKeys?
  }

  lemma {:induction false} CommittedStays(s: KeyTx, steps: seq<KeyStep>, s': KeyTx, hash: string -> string)
    requires KeyRun(s, steps, s', hash) && forall step :: step in steps ==> !Commits(step)
    ensures s'.committed == s.committed
    decreases |steps|
  {
    if steps != [] {
      assert steps[0] in steps;
      CommittedStays(KeyApply(s, steps[0], hash), steps[1..], s', hash);
    }
  }

  /** Whatever a fresh session updates, deletes and validates without a commit is gone when it closes: the next
      session validates every text exactly as before.  The update and delete endpoints never commit. */
  lemma EditsFade(s: KeyTx, steps: seq<KeyStep>, s': KeyTx, hash: string -> string, raw: string, now: int, first: Option<KeyId>)
    requires s.working == s.committed && KeyRun(s, steps, s', hash) && forall step :: step in steps ==> !Commits(step)
    requires IsFirst(first, Matches(s.working, raw, hash))
    ensures s'.Rollback() == s
    ensures ValidatingKey(s'.Rollback(), raw, now, first) == ValidatingKey(s, raw, now, first)
  {
    CommittedStays(s, steps, s', hash);
  }

  /** The id was used once and names no row in either copy. */
  ghost predicate Gone(s: KeyTx, id: KeyId) {
    && id in s.working.issued && id in s.committed.issued
    && id !in s.working.keys && id !in s.committed.keys
  }

  /** No row of either copy was issued with the text. */
  ghost predicate Unheld(s: KeyTx, raw: string) {
    && (forall id :: id in s.working.keys ==> id in s.working.issued && s.working.issued[id].raw != raw)
    && (forall id :: id in s.committed.keys ==> id in s.committed.issued && s.committed.issued[id].raw != raw)
  }

  lemma {:induction false} GoneStays(s: KeyTx, steps: seq<KeyStep>, s': KeyTx, hash: string -> string, id: KeyId)
    requires Gone(s, id) && KeyRun(s, steps, s', hash)
    ensures Gone(s', id)
    decreases |steps|
  {
    if steps != [] {
      GoneStays(KeyApply(s, steps[0], hash), steps[1..], s', hash, id);
    }
  }

  lemma {:induction false} UnheldStays(s: KeyTx, steps: seq<KeyStep>, s': KeyTx, hash: string -> string, raw: string)
    requires Unheld(s, raw) && KeyRun(s, steps, s', hash)
    requires forall step :: step in steps && step.Create? ==> step.raw != raw
    ensures Unheld(s', raw)
    decreases |steps|
  {
    if steps != [] {
      assert steps[0] in steps;
      UnheldStays(KeyApply(s, steps[0], hash), steps[1..], s', hash, raw);
    }
  }

  /** An id absent from both copies never validates again, for any text, in any continuation. */
  lemma GoneNeverValidates(s: KeyTx, steps: seq<KeyStep>, s': KeyTx, hash: string -> string, id: KeyId,
                           raw: string, now: int, first: Option<KeyId>, user: UserId)
    requires Gone(s, id) && KeyRun(s, steps, s', hash) && IsFirst(first, Matches(s'.working, raw, hash))
    ensures ValidatingKey(s', raw, now, first).1 != Some((id, user))
  {
    GoneStays(s, steps, s', hash, id);
  }

  /** A committed deletion is final: in every continuation the id names no row again, and the text is refused
      unless a later creation generates that very text anew. */
  lemma DeletedForGood(s: KeyTx, id: KeyId, steps: seq<KeyStep>, s': KeyTx, hash: string -> string, now: int, first: Option<KeyId>)
    requires Injective(hash) && KeySound(s, hash) && id in s.working.keys
    requires KeyRun(DeletingKey(s, id).0.Commit(), steps, s', hash)
    requires IsFirst(first, Matches(s'.working, s.working.issued[id].raw, hash))
    ensures id !in s'.working.keys && id !in s'.committed.keys
    ensures (forall step :: step in steps && step.Create? ==> step.raw != s.working.issued[id].raw) ==>
      ValidatingKey(s', s.working.issued[id].raw, now, first).1 == None
  {
    var raw := s.working.issued[id].raw;
    var gone := DeletingKey(s, id).0;
    assert RowFits(s.working, hash, id);
    KeyStepSound(s, Delete(id), hash);
    KeyStepSound(gone, CommitKeys, hash);
    KeyRunSound(gone.Commit(), steps, s', hash);
    GoneStays(gone.Commit(), steps, s', hash, id);
    if forall step :: step in steps && step.Create? ==> step.raw != raw {
      SameTextSameRow(s.working, hash, id);
      forall other | other in gone.working.keys ensures other in gone.working.issued && gone.working.issued[other].raw != raw {
        assert RowFits(gone.working, hash, other);
      }
      UnheldStays(gone.Commit(), steps, s', hash, raw);
      IndexAgrees(s'.working, hash, raw);
      assert Matches(s'.working, raw, hash) == {};
    }
  }

  /** From its creation on and through any run, a key text validates for its row to its creator exactly while
      the row exists, is active and is not past its expiry. */
  lemma CreatedKeyValidates(s: KeyTx, hash: string -> string, step: KeyStep, steps: seq<KeyStep>, s': KeyTx,
                            now: int, first: Option<KeyId>)
    requires Injective(hash) && KeySound(s, hash) && step.Create? && KeyEnabled(s, step, hash)
    requires CreatingKey(s, step.input, step.user, step.tenant, step.id, step.raw, hash).1.Done?
    requires KeyRun(KeyApply(s, step, hash), steps, s', hash)
    requires IsFirst(first, Matches(s'.working, step.raw, hash))
    ensures ValidatingKey(s', step.raw, now, first).1 == Some((step.id, step.user)) <==>
      step.id in s'.working.keys && s'.working.keys[step.id].isActive && !Overdue(s'.working.keys[step.id], now)
  {
    KeyStepSound(s, step, hash);
    KeyRunSound(KeyApply(s, step, hash), steps, s', hash);
    ValidationExact(s', hash, step.raw, now, first, step.id, step.user);
  }

  /** A text that was never issued is never accepted. */
  lemma UnknownKeyRejected(s: KeyTx, hash: string -> string, raw: string, now: int, first: Option<KeyId>)
    requires Injective(hash) && KeyInv(s.working, hash) && IsFirst(first, Matches(s.working, raw, hash))
    requires forall id :: id in s.working.issued ==> s.working.issued[id].raw != raw
    ensures ValidatingKey(s, raw, now, first) == (s, None)
  {}

  /** In every reachable state a TENANT key carries a tenant and a GLOBAL key none. */
  lemma ScopeCarriesTenant(s: KeyTx, steps: seq<KeyStep>, s': KeyTx, hash: string -> string, id: KeyId)
    requires KeySound(s, hash) && KeyRun(s, steps, s', hash) && id in s'.committed.keys
    ensures s'.committed.keys[id].scope.TENANT? <==> s'.committed.keys[id].tenant.Some?
  {
    KeyRunSound(s, steps, s', hash);
    assert RowFits(s'.committed, hash, id);
  }
}
