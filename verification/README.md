# Verified model of the virtual-stack identity services

This project models the identity and access layer of virtual-stack (a multi-tenant FastAPI service over
PostgreSQL and Redis) in Dafny and proves what its services promise together.

* `Store`, `Sessions` — the relational rows with their primary, unique and foreign keys, and a database session
  with a working copy and a committed copy, so that every commit and rollback is a real step.
* `RoleService`, `UserService`, `InvitationService` — the operations. Each one is a method that performs the
  statements of the source in order on a `Session` object, proved equal to a specification function on the
  session's state. `RoleLaws`, `UserLaws`, `InvitationLaws` prove what those functions guarantee.
* `Evolution`, `Runs`, `Execution` — the four promises every change keeps (invariant, isolation of other tenants, one-way
  life of users and invitations, one live invitation), bundled into a reflexive and transitive relation, and carried to
  whole runs of arbitrary length with a clock that never runs backwards. `Execution` shows that the methods, sent any list
  of requests, go through such runs.
* `Permissions` — the query forms of the one question "may this user do this in this tenant".
* `RateLimiter` — the Redis sliding window, proved to answer a question about the whole request history.
* `ApiKeys` — prefix-and-hash lookup over runs of create, update, delete, validate, commit and rollback.
* `Paging`, `Sorting`, `Listings`, `ListEndpoints` — pages, orders, counts, grouping, and the two orders of filtering and
  paging.

Conventions. Ids, tokens, generated keys and every reading of a clock are arguments. A query that takes the first row
without an ORDER BY returns any of its rows (`IsFirst`): no result depends on which. A raise is a `Failed` outcome.
Instants of invitations are integers in microseconds; those of the rate limiter are reals. Hashing is an arbitrary
injective function. Laws named `...Exact` give the answer and the resulting store in terms of the rows
before. The unscoped or conflicting stores in the `...Needs...` lemmas are concrete inputs that show a hypothesis cannot be
dropped.

Where the code and its evident intent differ, the model says which it follows:

* user.py:244 calls `get_role_by_id_and_tenant`, which does not exist; the access rule of role.py:239 is used.
* The filters at role.py:42 and role.py:78 bind `|` before `==`; they are read as "the tenant's own or a system role".
* deps.py:500 and deps.py:592-614 redefine checks with empty bodies; the full bodies above them are modelled.
* user.py:336 projects permission names; codes are used, as at deps.py:572.
* endpoints/invitations.py:384 leaves out the tenant; the invitation's tenant is used.
* role.py raises `HTTPException` without importing it; either way the call fails, and it is a `Failed` outcome.
* user.py:218 documents a row count of 0 or 1 for removing a user from a tenant; the code counts every role the user
  held there (`UserLaws.RemovalExact`).

Facts about the code that the proofs bring out: an acceptance whose invitation expires between its two verifications
stores a user whom nobody can invite again (`FailedRequestLeaves`, `HalfMadeUserBlocksRuns`); a custom role refused for a
bad permission id is still created and blocks a retry under its name (`CreationAllOrNothing`,
`RefusedCreationBlocksRetry`); a permission id given twice is refused like an unknown one; the limiter keeps its promise for
every setting exactly when no two requests share a timestamp (`BoundedExactly`); updating or deleting an API key only
flushes, and the endpoints never commit, so the next session validates the key as before (`EditsFade`); role pages are
determined exactly when no two accessible roles share a name (`RolePagesDetermined`).

## Model

| member | source | states |
|---|---|---|
| Runs.InvariantHolds | src/virtualstack/services/iam/role.py:237-283 | after every run from a sound session both copies satisfy all keys, the scoping rule (an assigned role is a system role or the row's tenant's own) and the invitation shape |
| Runs.TenantIsolation | src/virtualstack/services/iam/role.py:98-283 | any run of steps addressed to other tenants leaves every user's membership and effective permission codes in a tenant unchanged |
| Runs.DecisionsIsolated | src/virtualstack/api/deps.py:473-557 | no such run changes what the path or the header form of a permission check decides in that tenant |
| Runs.DeletionSafeInRuns | src/virtualstack/services/iam/role.py:183-213 | in every reachable state deleting a custom role removes no assignment row in any tenant |
| Runs.OneLiveAlways | src/virtualstack/services/iam/invitation.py:46-83 | at every moment of every run at most one PENDING, unexpired invitation exists per email and tenant, for any number of days |
| Runs.CommittedForward | src/virtualstack/services/iam/invitation.py:164-174 | between any two moments of a run, committed users and invitations persist and invitations only progress |
| Runs.InvitationLife | src/virtualstack/services/iam/invitation.py:194-197 | the committed status changes at most twice in a run, always to a lower rank and never back to PENDING; `user_id` and `accepted_at` are written together and at most once |
| Runs.ChangesCostRank | src/virtualstack/models/iam/invitation.py:13-19 | every change of status uses up rank, of which there are two |
| Runs.SpentForGood | src/virtualstack/services/iam/invitation.py:170-174 | once a committed invitation has left PENDING, no later request of the run is accepted with its token, so each is accepted at most once |
| Runs.RevocationSticks | src/virtualstack/services/iam/invitation.py:268-274 | revoking commits REVOKED in that row; in every continuation the row stays REVOKED or becomes EXPIRED, is bound to nobody, and its token is refused |
| Runs.InvitedRoleArrives | src/virtualstack/services/iam/invitation.py:193-228 | through any run between, an invitation made for an email, a tenant and a role and later accepted leaves a user with that email who belongs to that tenant only, with exactly the default role and, if accessible then, the role asked for, and with exactly their codes |
| Runs.BothVerifyOnlyAtTheEdge | src/virtualstack/services/iam/invitation.py:164-172 | in every reachable state two invitations for one email and tenant can both verify only at the very instant one of them expires |
| Runs.VerifyingSpendsLastRank | src/virtualstack/services/iam/invitation.py:164-168 | extending a run by the verification of an overdue accepted or revoked invitation adds one change of status, to EXPIRED, and keeps the user and time it was bound to |
| Runs.AcceptingIsOneChange | src/virtualstack/api/v1/endpoints/invitations.py:354-437 | an acceptable request is a run with exactly one change of status |
| Runs.TwoChangesHappen | src/virtualstack/services/iam/invitation.py:164-197 | a run in which one invitation changes status twice, so the bound is reached |
| Runs.HalfMadeUserBlocksRuns | src/virtualstack/api/v1/endpoints/invitations.py:401-412 | after an acceptance that expired half way, no continuation of the run can accept any invitation for that email |
| Runs.StepMoves | src/virtualstack/services/iam/user.py:80-105 | every single step, including default-role creation, acceptance and cascades, keeps all four promises |
| Execution.Execute | src/virtualstack/services/iam/invitation.py:23-274 | one request served by its method is one step of the runs above, for the answers its unordered queries gave |
| Execution.ExecuteAll | src/virtualstack/db/session.py:38-56 | an object sent any list of requests in clock order goes through a valid run of them, ends sound, and keeps one live invitation per email and tenant |
| Evolution.UntouchedEffective | src/virtualstack/services/iam/user.py:326-344 | equal rows, equal grants of the assigned roles and equal permissions give equal effective permissions |
| Evolution.RoleChange | src/virtualstack/services/iam/role.py:131-181 | editing a custom role and its grants is invisible in every other tenant, because of the scoping rule |
| Evolution.RoleDrop | src/virtualstack/models/iam/user_tenant_role.py:16-18 | the cascade of deleting a custom role keeps every key and touches no other tenant |
| RoleService.CreateCustomRole | src/virtualstack/services/iam/role.py:98-129 | name conflict, constraint failure, the commit before the permissions and the rollback after it, statement by statement |
| RoleService.UpdateCustomRole | src/virtualstack/services/iam/role.py:131-154 | the tenant and system guards, the partial update, the replaced permissions and the final commit |
| RoleService.SetRolePermissions | src/virtualstack/services/iam/role.py:156-181 | the delete, the inserts and the rollback on an unknown or repeated id, statement by statement; what they amount to is RoleLaws.PermissionsExact |
| RoleService.DeleteCustomRole | src/virtualstack/services/iam/role.py:183-204 | the guards in order, then the cascading delete and commit |
| RoleService.SetUsersForRole | src/virtualstack/services/iam/role.py:230-283 | delete and conflict-free insert give exactly the listed users, or a rollback when a key fails |
| RoleLaws.DeletionKeepsAssignments | src/virtualstack/services/iam/role.py:193-203 | deletion leaves the assignment table unchanged, although the guard looks in one tenant only |
| RoleLaws.DeletionNeedsScoping | src/virtualstack/services/iam/role.py:206-213 | with the database keys alone the cascade can take another tenant's row |
| RoleLaws.IsolationNeedsScoping | src/virtualstack/services/iam/role.py:131-154 | with the database keys alone an update in one tenant can change permissions in another |
| RoleLaws.DeletionExact | src/virtualstack/services/iam/role.py:183-204 | every answer with its exact condition: a missing role, a system or foreign role and an assigned role change nothing; otherwise the role and its grants go, committed, and nothing else changes |
| RoleLaws.UsersReadBack | src/virtualstack/services/iam/role.py:217-283 | every answer with its exact condition; on success the answer is the list of ids and reading back gives it as a set, with everything else unchanged and committed; an inaccessible role changes nothing, an unknown id rolls back |
| RoleLaws.UsersAllOrNothing | src/virtualstack/services/iam/role.py:268-280 | a refused replacement on a fresh session restores both copies |
| RoleLaws.UpdateAllOrNothing | src/virtualstack/services/iam/role.py:131-154 | for every session, every refusal and the success with their exact conditions; fields and permissions change together and are committed, fields not given are kept, no other role or table changes; a refusal changes nothing or rolls back |
| RoleLaws.PermissionsExact | src/virtualstack/services/iam/role.py:156-181 | whatever the role held, replacement goes through exactly when every id is known and given once; then the role holds those ids and no others, all else is unchanged and nothing is committed; a refusal rolls back |
| RoleLaws.PermissionsSetAgain | src/virtualstack/services/iam/role.py:161-178 | setting the permissions a role already holds changes nothing, and of two settings the last one counts |
| RoleLaws.RefusedUpdateIsNoUpdate | src/virtualstack/services/iam/role.py:131-154 | a refused update on a fresh session leaves both copies as they were |
| RoleLaws.CreationOutcome | src/virtualstack/services/iam/role.py:98-129 | for every input: every refusal and the success with their exact conditions; a role that can be made is committed as described, for its tenant and not a system role, with the given permissions or with none, and nothing else changes; otherwise nothing is committed |
| RoleLaws.CreationAllOrNothing | src/virtualstack/services/iam/role.py:115-124 | a failed creation on a fresh session leaves the store as it was if and only if the role could not be made at all |
| RoleLaws.HalfMadeRoleHappens | src/virtualstack/services/iam/role.py:117-122 | a concrete failed creation that stores a role |
| RoleLaws.RefusedCreationBlocksRetry | src/virtualstack/services/iam/role.py:102-108 | the role left behind makes any repeated creation under that name a conflict |
| UserService.CreateUser | src/virtualstack/services/iam/user.py:35-122 | flush of the user, default-role query, flush of the membership, with each failure path and its rollback or lack of one |
| UserService.AssignRole | src/virtualstack/services/iam/user.py:236-276 | membership and access tests, the existing-row test, the insert and its constraint failure |
| UserService.RemoveRole | src/virtualstack/services/iam/user.py:278-299 | exactly the one row goes, and the row count says whether it was there |
| UserService.RemoveFromTenant | src/virtualstack/services/iam/user.py:217-234 | all of the user's rows in the tenant go, and the row count is their number |
| UserLaws.CreationExact | src/virtualstack/services/iam/user.py:60-122 | every failure and the success with their exact conditions; on success the user is stored as given, with one role named "Default User Role" in one tenant, and nothing else changes; no failure is committed |
| UserLaws.AssignKeepsMembers | src/virtualstack/services/iam/user.py:240-276 | every answer with its exact condition: the one row is added, or was there, or user or role is not found and nothing changes; membership never changes and no constraint is met |
| UserLaws.AssignIdempotent | src/virtualstack/services/iam/user.py:248-258 | a second assignment finds the row and changes nothing |
| UserLaws.AssignThenRemove | src/virtualstack/services/iam/user.py:278-299 | removing a role just assigned restores the table with a row count of one |
| UserLaws.RemoveExact | src/virtualstack/services/iam/user.py:278-299 | exactly the one row goes; the row count is one if it was there and zero if not, and repeating the call changes nothing and counts zero |
| UserLaws.AssignGains | src/virtualstack/services/iam/user.py:326-344 | assigning adds exactly the codes of the role |
| UserLaws.RemoveLoses | src/virtualstack/services/iam/user.py:326-344 | removing loses exactly the codes no other remaining role of the user grants in that tenant |
| UserLaws.RemovalExact | src/virtualstack/services/iam/user.py:217-234 | exactly the rows of the user in the tenant go, so the user is no member and holds nothing there, everyone else is unchanged, and the row count is the number of roles held |
| InvitationService.CreateInvitation | src/virtualstack/services/iam/invitation.py:23-83 | an existing live invitation is returned, else a new one is inserted and committed; its fields are InvitationLaws.CreationAnswers |
| InvitationService.VerifyToken | src/virtualstack/services/iam/invitation.py:149-174 | expiry first, with a commit, then the status; what that does to the store is InvitationLaws.VerificationExact |
| InvitationService.AcceptInvitation | src/virtualstack/services/iam/invitation.py:176-239 | verification, the three written fields, the swallowed role assignment and the commit |
| InvitationService.RevokeInvitation | src/virtualstack/services/iam/invitation.py:241-274 | only a PENDING invitation is revoked |
| InvitationService.Accept | src/virtualstack/api/v1/endpoints/invitations.py:354-437 | the whole request: verify, create the user, accept, with the rollbacks and the commits in between; what it leaves is InvitationLaws.AcceptExact and InvitationLaws.FailedRequestLeaves |
| InvitationLaws.CreationAnswers | src/virtualstack/services/iam/invitation.py:46-83 | an existing live row is returned unchanged; else the new row is committed PENDING with the email, tenant, inviter, role and token asked for and the exact expiry, and nothing else changes; failure has its exact condition; afterwards the answer is the only live row for its email and tenant |
| InvitationLaws.AnswersWhileLive | src/virtualstack/services/iam/invitation.py:47-54 | a row answers exactly when it is PENDING, for that email and tenant, and strictly before its expiry; a new row does so exactly until the number of days has passed |
| InvitationLaws.VerificationExact | src/virtualstack/services/iam/invitation.py:149-174 | a token verifies exactly when its row is PENDING and not past its expiry; the store changes exactly when the row is past it, whatever its status, and then that row alone becomes EXPIRED and everything pending is committed |
| InvitationLaws.RevocationExact | src/virtualstack/services/iam/invitation.py:241-274 | a PENDING row becomes REVOKED, alone and committed; any other row is returned unchanged and a missing one not at all |
| InvitationLaws.ServiceAcceptance | src/virtualstack/services/iam/invitation.py:176-239 | for a user who exists, a verifying invitation is bound to that user at that time, the invited role is added exactly for a member and an accessible role, and nothing else changes; a missing user changes nothing committed |
| InvitationLaws.SpentTokenRefused | src/virtualstack/api/v1/endpoints/invitations.py:361-366 | a row that is not PENDING refuses every acceptance |
| InvitationLaws.AcceptExact | src/virtualstack/api/v1/endpoints/invitations.py:359-416 | a request succeeds exactly when the invitation is PENDING, unexpired at the second verification and its user can be created; it then leaves one user, the default membership, the invited role if accessible, and the bound invitation |
| InvitationLaws.FailedRequestLeaves | src/virtualstack/api/v1/endpoints/invitations.py:359-412 | the whole store after a failed request: the store before it, except that an overdue row alone becomes EXPIRED, and that a request expiring half way stores exactly the user, the default membership and the EXPIRED row |
| InvitationLaws.RefusalsExact | src/virtualstack/api/v1/endpoints/invitations.py:361-412 | a bad request exactly when the token does not verify or the tenant has no default role, a server error exactly when id or email is taken or the invitation expires half way |
| InvitationLaws.AcceptAllOrNothing | src/virtualstack/services/iam/invitation.py:164-168 | a failed request leaves users and assignments unchanged if and only if the clock does not pass the expiry between the two verifications of an otherwise acceptable request; roles and grants it always leaves |
| InvitationLaws.ExpiryHalfWayHappens | src/virtualstack/api/v1/endpoints/invitations.py:401-412 | a concrete request on a sound store for which the exception occurs |
| InvitationLaws.HalfMadeUserBlocksRetry | src/virtualstack/services/iam/user.py:60-66 | in any later store the stored email makes every acceptance for it fail |
| InvitationLaws.TwoVerifyAtTheEdge | src/virtualstack/services/iam/invitation.py:164-172 | at the instant of expiry the old invitation still verifies while a new one for the same email and tenant can be made that verifies too |
| Permissions.ChecksAgree | src/virtualstack/api/deps.py:529-580 | the exists-join, both distinct-code projections and the lookup by unique code decide the same question on every keyed store, and the last yields at most one row |
| Permissions.AgreementNeedsUniqueCodes | src/virtualstack/api/v1/endpoints/invitations.py:163-182 | without the unique key on codes the lookup form can disagree |
| Permissions.AnyAndAll | src/virtualstack/api/deps.py:327-409 | inside a tenant that exists, and only there, ANY is the disjunction and ALL the conjunction of single checks, and a refused ALL reports exactly the failing ones |
| Permissions.HeaderAgreesWithPath | src/virtualstack/api/deps.py:431-557 | the header form equals the path form: a grant implies membership, so the member test is redundant |
| Permissions.VerdictsExact | src/virtualstack/api/deps.py:431-557 | every verdict of both forms with its reason: no header, no such tenant, not allowed; granted exactly to superusers and holders of the code (for the bare header check, members) in a tenant that exists |
| RateLimiter.SetIsLive | src/virtualstack/core/rate_limiter.py:57-68 | for every history the pruned, expiring sorted set is exactly the set of distinct timestamps in the window |
| RateLimiter.Limiter.Check | src/virtualstack/core/rate_limiter.py:56-77 | a request is admitted exactly when the distinct timestamps in its window, rejected ones included, number at most the maximum |
| RateLimiter.ExpiryNeverDecides | src/virtualstack/core/rate_limiter.py:65-66 | histories that differ only in when Redis dropped the key give the same decisions |
| RateLimiter.WindowBound | src/virtualstack/core/rate_limiter.py:59-73 | in every interval of one window length, the admitted requests of any run carry at most the maximum of distinct timestamps |
| RateLimiter.RequestBound | src/virtualstack/core/rate_limiter.py:59-73 | hence at most the maximum of requests when no two share a timestamp |
| RateLimiter.BoundedExactly | src/virtualstack/core/rate_limiter.py:59-73 | a history keeps within the maximum per window for every positive maximum and every positive number of seconds if and only if no two of its requests share a timestamp |
| RateLimiter.SharedTimestampSharesVerdict | src/virtualstack/core/rate_limiter.py:60 | requests that share a timestamp are admitted or refused together |
| RateLimiter.MultiplicityBound | src/virtualstack/core/rate_limiter.py:59-73 | per window at most the maximum times the largest number of requests sharing a timestamp get through |
| RateLimiter.AdmittedByDistance | src/virtualstack/core/rate_limiter.py:59-73 | with distinct timestamps a request gets through exactly when the one `max` places before it, admitted or not, has left the window |
| RateLimiter.Lockout | src/virtualstack/core/rate_limiter.py:59-73 | refused requests count, so a client that never thins out gets its first `max` requests and no more |
| RateLimiter.SameInstantIsUnbounded | src/virtualstack/core/rate_limiter.py:60 | any number of requests at one instant are all admitted |
| ApiKeys.ApiKeyService.CreateWithUser | src/virtualstack/services/iam/api_key.py:39-122 | the tenant rule by scope, the stored prefix and hash, and commit or rollback |
| ApiKeys.ApiKeyService.ValidateApiKey | src/virtualstack/services/iam/api_key.py:231-292 | lookup by prefix, hash and activity, the strict expiry test and the uncommitted stamp; what changes is ApiKeys.ValidationExact |
| ApiKeys.ApiKeyService.Update | src/virtualstack/services/base.py:51-71 | the given fields replace the stored ones in the working copy, a null name or activity fails, and nothing is committed |
| ApiKeys.ApiKeyService.Delete | src/virtualstack/services/base.py:73-84 | the row goes from the working copy, and nothing is committed |
| ApiKeys.ApiKeyService.UpdateLastUsed | src/virtualstack/services/iam/api_key.py:215-229 | the stamp and the commit; that nothing else changes is ApiKeys.TouchExact |
| ApiKeys.EditDecidesValidation | src/virtualstack/services/iam/api_key.py:250-273 | in the working copy of the session that made the edit: after an update the key validates exactly when the activity and expiry in force allow it, after a deletion not at all |
| ApiKeys.EditsFade | src/virtualstack/api/v1/endpoints/api_keys.py:171-240 | whatever a fresh session updates, deletes and validates without a commit is gone when it closes, and every text validates exactly as before |
| ApiKeys.CommittedStays | src/virtualstack/db/session.py:38-56 | no sequence of steps without a commit changes the committed copy |
| ApiKeys.GoneNeverValidates | src/virtualstack/services/iam/api_key.py:246-261 | an id absent from both copies never validates again in any continuation, for any text |
| ApiKeys.DeletedForGood | src/virtualstack/services/base.py:73-84 | after a committed deletion the id names no row again in any continuation, and its text is refused unless a creation generates that text anew |
| ApiKeys.IndexAgrees | src/virtualstack/services/iam/api_key.py:246-258 | the prefix-and-hash lookup finds the rows a full scan by hash finds, at most one, namely the one issued with that text |
| ApiKeys.ValidationExact | src/virtualstack/services/iam/api_key.py:243-292 | a key text is accepted for a row and a user exactly when that row was issued with it to that user, exists, is active and is not past expiry; then the last-used instant of that row is set and nothing else changes or is committed; a refusal changes nothing |
| ApiKeys.ValidateAgain | src/virtualstack/services/iam/api_key.py:275-279 | validating again at the same instant gives the same answer and changes nothing more; at a later one it is refused only when the expiry has passed |
| ApiKeys.TouchExact | src/virtualstack/services/iam/api_key.py:215-229 | a touch sets the last-used instant of that row alone and commits, and every text validates as before |
| ApiKeys.KeyCreationExact | src/virtualstack/services/iam/api_key.py:39-122 | every stored field, the choice of tenant by scope, and every refusal with its exact condition, including the unique prefix; the row alone is added and committed |
| ApiKeys.EditExact | src/virtualstack/services/base.py:51-71 | each field is the given one or the stored one, nothing but the row changes in the working copy, a null name or activity rolls back |
| ApiKeys.EditsCompose | src/virtualstack/services/base.py:60-66 | two updates in a row are one update with the later value of every field given |
| ApiKeys.KeyDeletionExact | src/virtualstack/services/base.py:73-84 | the row alone goes from the working copy; a missing row changes nothing |
| ApiKeys.CreatedKeyValidates | src/virtualstack/services/iam/api_key.py:39-122 | from creation on, through any run, the text validates to its creator exactly while the row exists, is active and is not past expiry |
| ApiKeys.UnknownKeyRejected | src/virtualstack/services/iam/api_key.py:260-261 | a text never issued is never accepted and changes nothing |
| ApiKeys.ScopeCarriesTenant | src/virtualstack/services/iam/api_key.py:60-71 | in every reachable state a TENANT key carries a tenant and a GLOBAL key none |
| ApiKeys.KeyRunSound | src/virtualstack/models/iam/api_key.py:21-22 | every run keeps prefixes unique, each row equal to what was issued, and the record of what was issued |
| Paging.PageCountLeast | src/virtualstack/schemas/base.py:53-55 | the ceiling division is the least sufficient number of pages |
| Paging.PagesComplete | src/virtualstack/services/iam/user.py:174-177 | concatenated pages are the whole list exactly from that number on |
| Paging.PageThenFilter | src/virtualstack/api/v1/endpoints/api_keys.py:128-133 | filtering each page afterwards loses and repeats nothing |
| Paging.FilterThenPage | src/virtualstack/api/v1/endpoints/invitations.py:137-147 | filtering a capped fetch gives a prefix of the true list, and all of it exactly when nothing past the cap passes |
| Listings.UserQueryDetermined | src/virtualstack/services/iam/user.py:151-177 | the distinct, email-sorted member query has exactly one result for every search and collation |
| Listings.RolePagesDetermined | src/virtualstack/services/iam/role.py:67-82 | what a request for a page of roles may return is determined, for every offset, exactly when no two accessible roles share a name |
| Sorting.SortedDetermined | src/virtualstack/services/iam/role.py:79 | a query ordered by one column has exactly one result if and only if the column tells its rows apart |
| Listings.UserPages | src/virtualstack/services/iam/user.py:169-177 | its pages together are the matching members once each, the total is their number, and no fewer pages suffice |
| Listings.GroupNames | src/virtualstack/services/iam/user.py:192-195 | the dictionary loop collects, for every user, the role names of that user's rows in order |
| Listings.ListUsers | src/virtualstack/services/iam/user.py:169-204 | the returned page carries for each user the names the loop collected, and the total |
| Listings.NamesExact | src/virtualstack/services/iam/user.py:183-199 | a name is attached once for each role of that name the user holds in the tenant |
| Listings.CountConservation | src/virtualstack/services/iam/role.py:50-86 | the counts of all listed roles add up to the tenant's rows exactly when those rows satisfy the scoping rule, so always in a scoped store |
| Listings.CountIsUsers | src/virtualstack/services/iam/role.py:217-228 | each count is the length of the list of the role's users |
| ListEndpoints.InvitationPages | src/virtualstack/api/v1/endpoints/invitations.py:137-153 | unfiltered pages are the whole list; filtered ones are a prefix of the true list and all of it exactly when no invitation past the first 1000 has the status |
| ListEndpoints.InvitationPage | src/virtualstack/api/v1/endpoints/invitations.py:137-147 | one filtered page is the slice of the true filtered list that was asked for, as far as the matches among the first 1000 reach |
| ListEndpoints.KeyPages | src/virtualstack/api/v1/endpoints/api_keys.py:119-138 | a user's filtered pages are exactly their own keys of the tenant, which is what a superuser reads there less the keys of others |
| ListEndpoints.SuperuserKeyPage | src/virtualstack/api/v1/endpoints/api_keys.py:120-124 | one page of a superuser is the slice of the tenant's keys that was asked for |
| ListEndpoints.OwnKeyPage | src/virtualstack/api/v1/endpoints/api_keys.py:127-133 | one page of anyone else holds exactly the keys of the tenant among a slice of their own keys, so a page can be short before the last |

## Left out

- FastAPI routing, dependency injection, status texts, logging, Pydantic parsing and response schemas.
- JWT decoding, bcrypt, SHA-256 and token randomness: foreign calls; only injectivity of the key hash is used.
- SQLAlchemy and Redis beyond row sets, keys, cascades, commit, rollback and the four sorted-set commands on one clock.
- Interleaving of several database sessions: service calls are atomic except for their own commits.
- Updating user profiles and status (`UserService.update`): the modelled runs never change an email.
- Tenant creation, update and deletion, and the cascades from deleting tenants or users.
- Validation of request bodies: the password rules of the accept request and a null number of days for an invitation.
- What a session does between a failed statement and the rollback or close that follows it.
- Timestamps of creation and update, display names and password hashes of users.
- How the limiter finds the client and builds the Redis key: a `Limiter` object stands for one key.
- Rounding of floating-point clocks in the limiter.
- Naive and aware datetimes in key validation: instants are integers and the comparison stays strict.
- Uniqueness of role names across renames: `update_custom_role` does not check the name.
- The refresh loops of the key listings, which append every row they read.
- The built-in permission table, configuration, seeding, migrations, middleware and deployment files.
