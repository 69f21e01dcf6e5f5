# Verification of libauth

This project models three parts of the `libauth` Go repository in Dafny 4.11 and proves what they promise.

1. **The RBAC enforcer over the in-memory store** (`authz`, `store`, `model`). `Enforcers.Enforcer`,
   `MemoryStores.MemoryStore` and `GrantedSets.GrantedSet` are the objects, with their maps, index and caches as
   fields and slices as windows on arrays. `Rbac` is the same behaviour as a state machine on values. Every mutator
   and query of the enforcer is proved to make exactly one step of that machine, and `Enforcer.Replay` puts this
   together: any sequence of public calls on a new enforcer ends in the state `Rbac.Run` gives. What holds in every
   history is then proved about `Run`, and `Enforcer.CheckAfter` brings it back to the object.
2. **Base62 and the branca format** (`branca`). The loops are proved against positional numerals; round trips,
   order, size and the opening of tokens are proved about those. The AEAD is an interface (section 2 of RFC 5116)
   whose only assumed law is that opening inverts sealing and that the tag adds 16 bytes.
3. **JWT claims and the acceptance window** (`jwt`). Claims become an abstract JSON object and come back; signing
   and verifying together give an exact window in time. base64url, JSON text and the signature scheme are
   parameters with inverse or verify-accepts-sign laws. Times are those of Go's `time` package, 64-bit wrap-around
   of Unix seconds and saturation of `Time.Add` included.

| file | content |
|---|---|
| `Ordering.dfy`, `Permissions.dfy`, `Entities.dfy`, `Slices.dfy` | string order and sorted listings; permissions; stored values and errors; growable slices and the in-place compaction |
| `MemoryStore.dfy`, `StoreEdits.dfy`, `GrantedSets.dfy` | the store and its defensive copies; edits on fetched copies; the two-level permission index |
| `Inheritance.dfy`, `EffectiveRoles.dfy` | parent chains, cycles, depth and the check on every parent change; the effective role chain |
| `Rbac.dfy`, `IndexInvariant.dfy`, `Coherence.dfy`, `Histories.dfy` | the state machine; what every history keeps; which cached grants stay right; whole histories |
| `Outcomes.dfy` | what each public call reports and leaves in every part of the state |
| `Effects.dfy`, `Staleness.dfy`, `Honouring.dfy`, `Deletion.dfy` | effects and undoing; writes the eviction does not see; when exactly caches are right; loop sums for a deletion |
| `Enforcer.dfy` | the enforcer object |
| `Numerals.dfy`, `Base62.dfy`, `Branca.dfy` | numerals in any base; the base62 loops; the token format |
| `Times.dfy`, `JwtClaims.dfy`, `Jwt.dfy` | instants and durations; claims and JSON; signing, verifying, the window |
| `Consistency.dfy` | a codec, a key and an AEAD that meet the assumed laws |

`dafny verify dfyconfig.toml` checks everything. Some proofs use `hide` to keep irrelevant definitions away from the solver.

## Where the code and its documentation differ

The model follows the code. These promises do not hold as written; each has a concrete counterexample and an exact condition.

- *A mutation invalidates the affected cache entries* (authz/authz.go:17-20). Only **direct** holders of a written
  role are evicted, and of the children of a deleted one. Histories after which a user who was asked about before is
  wrongly allowed: `Staleness.RevokedStillAllowed`, `Staleness.DeletedStillAllowed`, `Staleness.MovedStillAllowed`;
  wrongly denied: `Staleness.GrantToParentGoesStale`, `Staleness.CreatedAfterUseGoesStale`. For one write and one
  unseen user, `Staleness.WriteHonouredIff` says when the entry left standing is right all the same, with
  `UpdateHonouredIff`, `GrantHonouredIff`, `RevocationHonouredIff`, `MoveHonouredIff`, `CreationHonouredIff` and
  `Coherence.DeletionHonouredIff` for each operation; `Honouring.StepHonouredIff` is all of them together, and
  `Honouring.CoherentThroughoutIff` the exact condition on whole histories. For all writes to a role,
  `Coherence.RoleWritesTrustedIff`: they are harmless exactly when every user with cached grants who inherits the role
  also holds it directly. `Coherence.CreationTrustedIff` and `Coherence.DeletionTrustedIff` do the same for creating
  a role and for deleting one. What holds in every history: `Histories.CachedOnEarlierRoles`, a user's own changes
  always count and only the role map can be out of date.
- *Chains deeper than the cap are rejected* (authz/validate.go:8-9). The check looks up from the written role, not at
  what hangs below it: `Histories.CapExceededInRun`. `Inheritance.CapKeptIff` says which accepted writes keep the cap,
  `Histories.CapThroughoutIff` which histories never exceed it, `Inheritance.ReparentBound` what all writes keep.
- *Permissions are listed in a deterministic order* (authz/check.go:108-109). Two permissions can print alike when a
  resource contains a colon, and then there are two listings: `GrantedSets.TwoListings`.
  `GrantedSets.ListingDeterminedIff` gives the exact condition.
- *The text form of a permission parses back* (model/permission.go:18-39, 73-84). The global wildcard with an empty
  action prints as `*:`, which is rejected; `Permissions.ParsePrinted` is the exact condition.
- *`flatten` returns a sorted slice* (authz/authz.go:66-67). Rows and entries come in map order
  (`GrantedSets.UnsortedFlattening`); the result is always sorted only if all entries print alike,
  `GrantedSets.FlatteningSortedIff`. `PermissionsFor` sorts it.
- *Signing refuses a token without `exp`, and an expired token is rejected* (jwt/jwt.go:10, 174-177). An expiry within
  the epoch second is dropped from the JSON, one within the zero second of `time.Time` is read back as absent; such
  tokens never expire: `Jwt.NeverExpires`. `Jwt.ExpiresIff` is the exact condition on what is handed to `Sign`.
- *The TTL is a validity period* (jwt/jwt.go:80). Both ends are floored to seconds, so a token with a TTL below a second
  can have expired at the instant it is made: `Jwt.ExpiredWhenMade`. `Jwt.FreshTokenAcceptedIff` is the exact condition,
  `Jwt.FreshVerdictIff` the one for any leeway.
- *exp, nbf and iat are validated* (jwt/jwt.go:213-214). `time.Unix` wraps for the last 62135596800 seconds of the
  64-bit range, so a signed `nbf` of 2^63 - 1 is long past and such an `exp` is over: `Jwt.FarDatesTurnRound`.
  `Jwt.ExpiryHonouredIff` and `Jwt.StartHonouredIff` are the exact conditions, for any leeway and any other claims.

## Model

| member | source | states |
|---|---|---|
| Permissions.ParsePrinted | model/permission.go:19-39 | printing then parsing is the identity exactly for a non-empty, colon-free resource with a non-empty action |
| Permissions.PrintParsed | model/permission.go:19-39 | every accepted text but "*" prints back unchanged; what was parsed is well-formed |
| Permissions.ParseOutcome | model/permission.go:19-37 | which texts are refused for which of the four reasons; all others are split at their first colon |
| Permissions.ValidIffSpelled | model/permission.go:66-71 | well-formed means the wildcard or both parts, and for colon-free resources that some text parses to it or it is the wildcard |
| Permissions.MatchesExact | model/permission.go:42-53 | what a pattern covers, and that covering is transitive |
| Permissions.PrintingInjective | model/permission.go:39 | different permissions with colon-free resources print differently |
| Permissions.PrintingCollides | model/permission.go:39 | two different permissions that print alike, one resource containing a colon |
| Permissions.Permission.MatchesAny | model/permission.go:55-62 | the scan finds a covered request exactly when there is one |
| Slices.RemoveInPlace | authz/users.go:70-76 | the compaction loop leaves the order-preserving subsequence without the item, inside the same array, and nothing behind the window changes |
| Slices.Append | authz/users.go:52 | append extends the sequence by one, in place or in a new array |
| Ordering.LessExact | authz/resolve.go:46 | the order of names and printed forms: a proper prefix first, else the first difference decides |
| MemoryStores.MemoryStore.GetUser | store/memory_users.go:35-43 | a stored user comes out as a copy sharing no object or array with the store |
| MemoryStores.MemoryStore.CreateUser | store/memory_users.go:9-20 | an empty or taken ID is refused; otherwise exactly that user is added, as a private copy |
| MemoryStores.MemoryStore.UpdateUser | store/memory_users.go:22-33 | a missing user is refused; otherwise exactly that user is replaced by a private copy |
| MemoryStores.MemoryStore.DeleteUser | store/memory_users.go:45-53 | exactly that user is removed, or nothing and an error |
| MemoryStores.MemoryStore.GetRole | store/memory_roles.go:35-43 | a stored role comes out as a copy sharing no object or array with the store |
| MemoryStores.MemoryStore.CreateRole | store/memory_roles.go:9-20 | an empty or taken name is refused; otherwise exactly that role is added, as a private copy |
| MemoryStores.MemoryStore.UpdateRole | store/memory_roles.go:22-33 | a missing role is refused; otherwise exactly that role is replaced by a private copy |
| MemoryStores.MemoryStore.DeleteRole | store/memory_roles.go:47-55 | exactly that role is removed, or nothing and an error; no cascade |
| MemoryStores.MemoryStore.ListRoles | store/memory_roles.go:57-66 | private copies of all roles, each once, strictly ascending by name whatever the map order |
| StoreEdits.CompactCopy | store/memory.go:24-33 | compacting a fetched copy changes the copy and nothing that existed before, so no stored user |
| GrantedSets.GrantedSet.Add | authz/authz.go:38-45 | adds one permission and leaves no empty row |
| GrantedSets.GrantedSet.Has | authz/authz.go:48-64 | the three lookups agree with scanning all granted permissions for one that matches |
| GrantedSets.GrantedSet.Flatten | authz/authz.go:68-76 | lists exactly the granted permissions, each once, those on one resource together |
| GrantedSets.IndexUnique | authz/authz.go:34-45 | two indexes without empty rows granting the same are equal |
| GrantedSets.ListingDeterminedIff | authz/check.go:110-118 | the sorted listing is independent of map order exactly when no two granted permissions print alike |
| GrantedSets.TwoListings | authz/check.go:110-118 | two different sorted listings of the same granted permissions |
| GrantedSets.ColonFreeListing | authz/check.go:110-118 | colon-free resources suffice for that |
| GrantedSets.FlatteningSortedIff | authz/authz.go:66-76 | every order in which the rows can be written out is sorted by printed form exactly when all entries print alike |
| GrantedSets.UnsortedFlattening | authz/authz.go:66-76 | a possible flattening that is not sorted |
| Inheritance.ForestIffAcyclic | authz/validate.go:8-40 | on a finite role map, every chain of parents ends exactly when no role lies on a cycle |
| Inheritance.ValidateExact | authz/validate.go:10-40 | on any role map: accepted exactly when the parent is empty, or stored with a chain that avoids the role and has at most maxDepth names; which refusal otherwise |
| Inheritance.AcceptedKeepsForest | authz/validate.go:10-40 | writing an accepted role, new or stored, keeps the hierarchy acyclic and without dangling parents |
| Inheritance.DetachKeepsForest | authz/roles.go:90-102 | turning children into roots and deleting the role keeps it too |
| Inheritance.DetachedReaches | authz/roles.go:90-102 | after a deletion one role leads up to another exactly when it did and not by way of the deleted role |
| Inheritance.RewrittenReaches | authz/roles.go:10-53 | after an accepted write, of a stored role or a new one, one role leads up to another exactly when it did without going beyond the written role, or now does through its new parent |
| Inheritance.ReparentBound | authz/validate.go:21-38 | after an accepted write a role j levels below has at most j + maxDepth ancestors |
| Inheritance.ChildlessWriteKeepsCap | authz/validate.go:21-38 | accepted writes to childless roles keep every role within the cap |
| Inheritance.CapKeptIff | authz/validate.go:21-38 | an accepted write keeps the cap exactly when every role below leaves room for the new chain |
| Inheritance.CapExceeded | authz/validate.go:21-38 | a forest within the cap and an accepted write that exceeds it |
| EffectiveRoles.ClosureLeast | authz/resolve.go:20-48 | the effective chain lies in every set that contains the direct roles and is closed under stored parents |
| EffectiveRoles.ClosureIsAncestors | libauth.go:3-5 | a role is in the chain exactly when some direct role leads up to it through parents |
| EffectiveRoles.EffectiveExact | authz/authz.go:221-258 | a permission is effective exactly when it is a direct grant or a role up the parent chain of a held role has it |
| EffectiveRoles.WriteOutsideChain | authz/authz.go:117-123 | writing or creating a role outside a user's chain changes nothing the user is granted |
| EffectiveRoles.DetachOutsideChain | authz/roles.go:90-110 | nor does deleting one |
| EffectiveRoles.SeveredByDeletion | authz/roles.go:90-110 | a user not holding the deleted role keeps of the chain exactly the roles not reached through it alone |
| EffectiveRoles.SeveredByWrite | authz/roles.go:31-53 | a user inheriting the written role keeps it and the roles not reached through it alone, and gets the new parent's chain |
| EffectiveRoles.EffectiveAfterDeletion | authz/roles.go:90-110 | the permissions such a user is left with, from the roles as they were |
| EffectiveRoles.EffectiveAfterWrite | authz/roles.go:31-53 | the permissions such a user then has, from the roles as they were |
| IndexInvariant.StepKeepsInv | authz/authz.go:111-183 | every operation keeps the reverse index exact, direct-role entries equal to the store, cache keys stored users, roles a forest, permissions valid |
| IndexInvariant.RunKeepsInv | authz/authz.go:95-107 | so does every history from a new enforcer |
| IndexInvariant.ForestInEveryRun | authz/roles.go:10-53 | in every history no role is on a cycle and every parent is a stored role |
| IndexInvariant.FailureChangesNothing | authz/users.go:24-34 | an operation that reports an error leaves store, index and caches as they were |
| IndexInvariant.DirectLookupAgrees | authz/authz.go:161-183 | the memoised direct roles are the stored ones, hit or miss |
| IndexInvariant.DeleteRoleCascades | authz/roles.go:57-111 | deleting a stored role never fails; no user lists it, no role names it, everything else is unchanged |
| Outcomes.CreatingUserOutcome | authz/users.go:8-20 | when creation is refused; otherwise the user has all listed roles in their order, is indexed under each and memoised, and nothing else changes |
| Outcomes.DeletingUserOutcome | authz/users.go:24-34 | the user is in no part of the state afterwards, stored before or not; nothing else changes |
| Outcomes.AssigningRoleOutcome | authz/users.go:39-60 | refusals in order; the role is held afterwards behind the others, index, memo and cache follow, nothing else changes |
| Outcomes.RevokingRoleOutcome | authz/users.go:62-84 | refusals in order; no occurrence is left and the other roles stand in their order, index, memo and cache follow, nothing else changes |
| Outcomes.GrantingDirectOutcome | authz/users.go:86-105 | refusals in order; afterwards the permission is a direct grant and the effective permissions are the former ones and it |
| Outcomes.RevokingDirectOutcome | authz/users.go:107-127 | refusals in order; no occurrence is left, the others stand in their order, and what roles grant stays |
| Outcomes.CreatingRoleOutcome | authz/roles.go:10-28 | refusals in order; the role is stored as given and nothing else changes |
| Outcomes.UpdatingRoleOutcome | authz/roles.go:31-53 | refusals in order; the role is as given, exactly its direct holders are evicted, nothing else changes |
| Outcomes.DeletingRoleOutcome | authz/roles.go:57-111 | index, memo and cache after a deletion, entry by entry |
| Outcomes.GrantingPermissionOutcome | authz/roles.go:116-135 | refusals in order; the role has the permission behind the others, exactly its direct holders are evicted |
| Outcomes.RevokingPermissionOutcome | authz/roles.go:137-157 | refusals in order; no occurrence is left and the others stand in their order, exactly the direct holders are evicted |
| Outcomes.SettingParentOutcome | authz/roles.go:162-182 | refusals in order; the role has the parent and its permissions, exactly its direct holders are evicted |
| Outcomes.QueryingRolesOutcome | authz/authz.go:161-183 | a lookup of roles changes the memo of that user at most |
| Outcomes.QueryingGrantsOutcome | authz/authz.go:195-217 | a lookup of grants changes the cache and memo of that user at most |
| Coherence.SurvivorsStayCoherent | authz/authz.go:117-123 | in any reachable state, a right cache entry surviving an operation stays right unless the written role is inherited unseen (see Safe) |
| Coherence.SafeStepKeepsCoherence | authz/authz.go:111-123 | if that holds for every cached user the whole cache stays right |
| Coherence.RoleWritesTrustedIff | authz/roles.go:31-53 | all writes to a role are harmless exactly when each cached user inheriting it holds it directly |
| Coherence.CreationTrustedIff | authz/roles.go:10-28 | creating a role is harmless, whatever its content, exactly when no cached user already lists it |
| Coherence.DeletionTrustedIff | authz/roles.go:57-111 | deleting a role is harmless exactly when, for each cached user holding neither it nor a child of it, all that the roles reached through it alone grant is a direct grant or granted by another role of the chain |
| Coherence.DeletionHonouredIff | authz/roles.go:57-111 | the same for one user: the entry stays and is right exactly in that case |
| Coherence.EvictedByDeletion | authz/roles.go:94-109 | a deletion evicts the direct holders of the role and of its children and no one else |
| Histories.EffectiveIsRule | libauth.go:3-5 | the recomputed grants cover a request exactly when a direct grant or some role up the parent chain does |
| Histories.SafeRunsStayCoherent | authz/authz.go:221-258 | in histories whose every step is safe for every cached user, every cached set equals a fresh computation |
| Histories.SafeDecisionsFollowRule | authz/check.go:66-80 | in those histories every decision is the documented rule on the current store |
| Histories.CachedOnEarlierRoles | authz/authz.go:195-217 | in every history a cached set equals what the user as stored now is granted by the roles of some earlier moment |
| Histories.DecidedOnEarlierRoles | authz/check.go:66-80 | in every history all decisions about a user follow the documented rule for the user as stored now, on the roles of one moment of the history |
| Histories.DisciplinedRunsAreSafe | authz/authz.go:111-123 | a history is safe if users are created with existing roles, writes go to nobody's parents and deletions to roles without grandchildren |
| Histories.LeafReparentingKeepsCap | authz/roles.go:162-182 | histories that change parents of childless roles only keep every role within maxDepth ancestors |
| Histories.CapThroughoutIff | authz/validate.go:21-38 | a history is within the cap throughout exactly when every accepted new parent of a stored role leaves room for what hangs below |
| Histories.CapExceededInRun | authz/validate.go:21-38 | four calls accepted under a cap of one, within it until the last, after which a role has two ancestors |
| Effects.AssignmentGrants | authz/users.go:39-60 | assigning a role adds exactly what it and its ancestors grant |
| Effects.RoleGrantReaches | authz/roles.go:116-135 | a permission granted to a role reaches exactly the users with the role in their chain |
| Effects.AssignThenRevoke | authz/users.go:62-84 | revoking a newly assigned role restores users and index |
| Effects.GrantThenRevoke | authz/roles.go:137-157 | revoking a newly granted permission restores the roles |
| Effects.GrantThenRevokeDirect | authz/users.go:107-127 | revoking a newly made direct grant restores the users |
| Effects.CreateThenDeleteUser | authz/users.go:24-34 | deleting a new user restores store, caches and index |
| Effects.ReparentUndone | authz/roles.go:162-182 | within the cap, moving a role back under its former parent is always accepted and restores the roles |
| Staleness.WriteHonouredIff | authz/authz.go:117-123 | the entry of a user who inherits the written role unseen stays, and is right exactly when it equals what the remaining roles, the new parent's chain, the new content and the direct grants amount to |
| Staleness.UpdateHonouredIff | authz/roles.go:31-53 | the same for a role overwritten as a whole |
| Staleness.CreationHonouredIff | authz/roles.go:10-28 | a role created for a user who lists it already: the entry stays, and is right exactly when the content and the parent's chain bring nothing new |
| Staleness.GrantHonouredIff | authz/roles.go:116-135 | a grant to a role inherited unseen: the entry is right exactly when it had the permission |
| Staleness.RevocationHonouredIff | authz/roles.go:137-157 | a revocation there: the entry keeps the permission, rightly exactly when another role or a direct grant gives it |
| Staleness.MoveHonouredIff | authz/roles.go:162-182 | a new parent there: the entry is right exactly when nothing above the old parent alone is lost and the new parent's chain brings nothing new |
| Staleness.GrantToParentGoesStale | authz/roles.go:116-135 | a history after which a cached user is denied what an inherited role grants |
| Staleness.RevokedStillAllowed | authz/roles.go:137-157 | a history after which a cached user is allowed what was revoked from an inherited role |
| Staleness.DeletedStillAllowed | authz/roles.go:57-111 | a history after which a cached user is allowed what only a deleted role granted |
| Staleness.MovedStillAllowed | authz/roles.go:162-182 | a history after which a cached user is allowed what was cut off by a new parent |
| Staleness.CreatedAfterUseGoesStale | authz/roles.go:10-28 | a history after which a cached user is denied what a later created role grants |
| Honouring.StepHonouredIff | authz/authz.go:111-123 | for each of the fourteen operations, what is left of a right cache entry is right exactly when a condition on the state before holds |
| Honouring.CoherentThroughoutIff | authz/authz.go:111-123 | the caches are right throughout a history exactly when each operation meets that condition for each user with cached grants |
| Enforcers.Enforcer.constructor | authz/authz.go:87-107 | a new enforcer has an empty state, and as depth cap a positive argument or 32 |
| Enforcers.Enforcer.ResolveRoles | authz/resolve.go:20-48 | ends on every role map, cyclic or dangling, with exactly the chain, each name once, strictly ascending |
| Enforcers.Enforcer.ValidateInheritance | authz/validate.go:10-40 | the walk over the store gives the verdict of Inheritance.Validate |
| Enforcers.Enforcer.CreateUser | authz/users.go:8-20 | refuses empty and taken IDs; otherwise the new user is stored, indexed under every listed role whether it exists or not, and its direct roles memoised |
| Enforcers.Enforcer.DeleteUser | authz/users.go:24-34 | the user leaves both caches and every index entry even when the store then reports it missing |
| Enforcers.Enforcer.AssignRole | authz/users.go:39-60 | role and user must exist; a role already held changes nothing; otherwise it is appended, indexed, memoised, and the cached grants go |
| Enforcers.Enforcer.RevokeRole | authz/users.go:62-84 | every occurrence of the role goes from list, index and memo, order kept, and the cached grants with them, held or not |
| Enforcers.Enforcer.GrantDirectPermission | authz/users.go:86-105 | ill-formed permissions are refused, a held one changes nothing, a new one is appended and the cached grants go |
| Enforcers.Enforcer.RevokeDirectPermission | authz/users.go:107-127 | every occurrence goes, order kept, and the cached grants with them |
| Enforcers.Enforcer.CreateRole | authz/roles.go:10-28 | refusals in order (name, permissions, hierarchy, taken name); otherwise the role is stored and no cache entry touched |
| Enforcers.Enforcer.UpdateRole | authz/roles.go:31-53 | refusals in order (name, permissions, hierarchy, missing role); otherwise role replaced and exactly its direct holders evicted |
| Enforcers.Enforcer.DeleteRole | authz/roles.go:57-111 | holders are stripped of the role, children become roots, both kinds of direct holders are evicted, and the index and role entries go |
| Enforcers.Enforcer.GrantPermission | authz/roles.go:116-135 | a held permission changes nothing; a new one is appended and exactly the direct holders are evicted |
| Enforcers.Enforcer.RevokePermission | authz/roles.go:137-157 | every occurrence goes, order kept, and exactly the direct holders are evicted, held or not |
| Enforcers.Enforcer.SetParent | authz/roles.go:162-182 | both roles must exist, the same parent changes nothing, the hierarchy check decides, then exactly the direct holders are evicted |
| Enforcers.Enforcer.ComputeAndCache | authz/authz.go:221-258 | stores exactly the effective permissions, keeps an entry that is already there, fills the direct roles |
| Enforcers.Enforcer.GetGrantedSetFull | authz/authz.go:195-217 | the grants answered from, with the stored user and the full chain; an unknown user changes nothing |
| Enforcers.Enforcer.Check | authz/check.go:66-80 | allowed exactly when the grants answered from cover the request, which is the documented rule whenever the entry is absent or right; denial reports user and chain |
| Enforcers.Enforcer.HasRole | authz/check.go:11-18 | in reachable states, true exactly when the stored user lists the role |
| Enforcers.Enforcer.HasAnyRole | authz/check.go:21-35 | likewise for some listed role; the empty list asks nothing |
| Enforcers.Enforcer.HasAllRoles | authz/check.go:39-53 | likewise for all listed roles; the empty list is true even for unknown users |
| Enforcers.Enforcer.HasPermission | authz/check.go:55-61 | true exactly when the grants answered from cover the request |
| Enforcers.Enforcer.HasAllPermissions | authz/check.go:82-93 | true exactly when they cover every request |
| Enforcers.Enforcer.HasAnyPermission | authz/check.go:95-106 | true exactly when they cover some request |
| Enforcers.Enforcer.PermissionsFor | authz/check.go:110-118 | every effective permission once, ordered by printed form |
| Enforcers.Enforcer.RolesFor | authz/resolve.go:12-18 | the effective chain of a stored user, strictly ascending |
| Enforcers.Enforcer.Replay | authz/authz.go:95-107 | every history of public calls on a new enforcer ends in the state Run gives |
| Enforcers.Enforcer.CheckAfter | libauth.go:3-5 | after any safe history on a new enforcer, a request is allowed exactly when the user exists and the documented rule grants it |
| Enforcers.Enforcer.DecideAfter | authz/check.go:66-80 | after any history on a new enforcer, a request is decided by the documented rule for the user as stored, on the roles of some moment of the history |
| Numerals.ValueOfDigits | branca/base62.go:37-43 | writing a number down in any base and reading it back gives the number; no leading zeros |
| Numerals.DigitsOfAnyValue | branca/base62.go:52-66 | reading any numeral and writing it down strips leading zeros only |
| Numerals.OrderOfDigits | branca/base62.go:37-43 | numeric order is exactly shortlex order of the digits |
| Base62.AlphabetIsSymbols | branca/base62.go:10 | the alphabet is the digits, uppercase and lowercase letters in ascending order |
| Base62.SymbolsAscend | branca/base62.go:10 | the symbols are ASCII letters and digits in ascending order, of which there are 62 |
| Base62.BuildIndex | branca/base62.go:12-20 | the table maps each byte to its digit and every other byte to -1 |
| Base62.Base62Encode | branca/base62.go:33-48 | division loop and reversal produce the base62 digits of the big-endian value |
| Base62.ReverseBySwaps | branca/base62.go:44-46 | the two-index swapping loop reverses |
| Base62.Base62Decode | branca/base62.go:52-67 | accepts exactly non-empty alphabet text and yields the minimal bytes of its value |
| Base62.AcceptedIffAlphabet | branca/base62.go:52-61 | exactly the non-empty texts over the alphabet are accepted |
| Base62.DecodeEncoded | branca/base62.go:33-67 | decoding an encoding strips leading zero bytes; input of value zero encodes to the rejected empty text |
| Base62.EncodeDecoded | branca/base62.go:33-67 | encoding a decoding strips leading '0' characters, for every accepted text |
| Base62.DecodesAlikeIff | branca/base62.go:52-67 | two accepted texts decode alike exactly when they agree up to leading '0' characters |
| Base62.EncodingOrder | branca/base62.go:10-48 | numeric order of inputs is exactly shortlex order of encodings |
| Base62.EncodingLength | branca/base62.go:33-48 | an encoding of length n means 62^(n-1) <= value < 62^n |
| Base62.EncodingSize | branca/base62.go:33-48 | m bytes need at most 11 * ceil(m / 8) characters |
| Branca.EncodeBytes | branca/branca.go:151-173 | filling the header in place yields version, big-endian seconds and nonce, sealed and encoded; refusals for a failed nonce read and an unrepresentable clock |
| Branca.MakingOutcome | branca/branca.go:151-173 | when making is refused and why; otherwise the token decodes to version, big-endian second, nonce, and the payload sealed with those 29 bytes |
| Branca.OpeningOutcome | branca/branca.go:175-204 | which texts are malformed, which are not authentic, which have expired; time and payload reported of the others |
| Branca.RoundTrip | branca/branca.go:151-204 | opening a made token returns payload and whole-second time exactly when ttl <= 0 or now <= time + ttl, and reports expiry otherwise |
| Branca.AcceptedIsFrame | branca/branca.go:175-204 | every accepted text is, up to leading '0' characters, the encoding of a header that authenticates the reported payload and time |
| Branca.LeadingZerosIgnored | branca/branca.go:175-204 | leading '0' characters change no verdict |
| Branca.TokensSortByTime | branca/branca.go:162-172 | tokens for payloads of equal length sort shortlex by second |
| Branca.TokenSize | branca/branca.go:162-172 | a bound on the token length from the payload length |
| JwtClaims.MarshalClaims | jwt/claims.go:82-134 | reserved extra names are refused; otherwise the omitempty members and the extra ones, in any map order |
| JwtClaims.EncodedFields | jwt/claims.go:82-134 | exactly reserved extra names are refused; otherwise each claim is written under its own name unless empty, beside the extra ones |
| JwtClaims.UnmarshalClaims | jwt/claims.go:136-196 | members taken in any order give the claims, or the whole object is refused |
| JwtClaims.AcceptedIffShaped | jwt/claims.go:136-226 | exactly null and objects are accepted whose sub, iss, jti are strings or null, whose dates are 64-bit whole numbers, and whose aud is null, a string or an array of strings and nulls |
| JwtClaims.DecodedFields | jwt/claims.go:136-196 | each claim is read from the member of its own name; all other members are kept as extra claims |
| Times.UnixRoundTrip | jwt/claims.go:103-111 | the Unix second of any time reads back as its whole second, and any 64-bit second survives, wrapping included |
| Times.WrappedModulo64 | jwt/claims.go:103-111 | Unix seconds, times read from them and negated leeways are right modulo 2^64 |
| Times.AddOutcome | jwt/jwt.go:187 | sums of times and durations are exact within range and stop at the ends of it |
| JwtClaims.ClaimsRoundTrip | jwt/claims.go:82-196 | encoded claims decode to themselves, times cut to seconds and epoch-second times dropped |
| JwtClaims.DecodedReencodes | jwt/claims.go:82-196 | the claims of any accepted object encode to that object, empty members dropped and audience spellings unified |
| JwtClaims.ClaimsUnchangedIff | jwt/claims.go:82-196 | encoding and decoding is the identity exactly for whole-second times other than the epoch |
| JwtClaims.AudienceRoundTrip | jwt/claims.go:23-51 | no, one and several audiences survive their three spellings |
| Jwt.CompactSplits | jwt/jwt.go:219-222 | three dot-free parts joined by dots split into those parts |
| Jwt.SplitExact | jwt/jwt.go:219 | splitting gives the only list of dot-free parts that joins to the text |
| Jwt.TypIsJwtIff | jwt/jwt.go:288-291 | the types that pass: "jwt" or "application/jwt" in any case, between spaces |
| Jwt.Sign | jwt/jwt.go:178-210 | order of refusals, defaults and the compact form |
| Jwt.SigningOutcome | jwt/jwt.go:178-210 | when signing is refused and why; otherwise what is signed, stated values before defaults, and how the token is put together |
| Jwt.VerifyOfCompact | jwt/jwt.go:218-266 | a payload signed with the matching key is judged by its content alone |
| Jwt.VerificationOutcome | jwt/jwt.go:218-266 | which tokens are refused for what before the claims are validated; an authentic token is malformed exactly when its payload is unreadable or not of the accepted shape |
| Jwt.ValidationOutcome | jwt/jwt.go:268-286 | the first of expiry, nbf, iat, issuer and audience to fail decides, and claims pass if none does |
| Jwt.VerifyOfSigned | jwt/jwt.go:178-266 | a signed token under the matching key is judged by its carried claims alone |
| Jwt.AcceptanceWindow | jwt/jwt.go:178-286 | from what is handed to Sign, stated values before defaults: accepted exactly when pins are met and the clock is within the floored bounds and the leeway, with those claims; expiry is reported exactly when the clock is past it |
| Jwt.UsualLifetime | jwt/jwt.go:174-191 | a token with TTL expiry and no nbf is accepted exactly when pins are met and the clock is between its issue second and the second its TTL ends, leeway added, as far as these bound anything |
| Jwt.FreshVerdictIff | jwt/jwt.go:174-191 | with defaulted dates, the verdict at the signing instant from the fraction of the second, the TTL and any leeway |
| Jwt.FreshTokenAcceptedIff | jwt/jwt.go:174-191 | for a leeway not negative: accepted exactly when pins are met and the leeway covers the fraction, or fraction and TTL reach the next second, or the expiry bounds nothing |
| Jwt.ExpiredWhenMade | jwt/jwt.go:174-191 | a signed token that is refused as expired at its signing instant |
| Jwt.ExpiresIff | jwt/jwt.go:174-191 | a signed token expires at some time exactly when its expiry, stated or by TTL, lies neither in the epoch second nor in the zero second, and leeway leaves a later instant |
| Jwt.NeverExpires | jwt/jwt.go:174-191 | signed tokens with an expiry in those two seconds that are accepted at any later time |
| Jwt.AcceptedWasSigned | jwt/jwt.go:216-266 | whatever is accepted carried the pinned algorithm, no unsupported header and a verifying signature; its payload decodes to the reported claims, pins are met, and each date stated at face value is honoured |
| Jwt.ExpiryHonouredIff | jwt/jwt.go:268-272 | in any payload and under any settings, expiry is reported exactly past the stated second plus leeway if and only if the second is taken at face value and the leeway stays within time, or ends with it |
| Jwt.StartHonouredIff | jwt/jwt.go:273-278 | under any settings, a stated nbf or iat is kept to in every payload if and only if its second is taken at face value, the leeway can be negated and, if negative, stays within time |
| Jwt.FarDatesTurnRound | jwt/jwt.go:268-278 | a signed nbf of 2^63 - 1 is accepted now, and such an exp is refused as expired |

Notes and helpers that read a definition back have no row: `Branca.AgeJudgedLast`, `Jwt.UnsignedPayloadUnread`,
`JwtClaims.DecodedExtraIsUnreserved`, `JwtClaims.DateFaithfulIff`, `Effects.DirectRevocation` and
`Effects.CreateThenDeleteRole`. `Consistency.LawsOfTokensCanBeMet` and `Consistency.LawsOfSealingCanBeMet` exhibit
instances of the laws that the results on tokens assume.

## Left out

- Goroutine interleavings and locks: each public call is one step of a sequential history; the shared base62 scratch digit is local.
- Cryptography and randomness: the AEAD, the signature scheme and the nonce source are parameters with the laws named above.
- `encoding/json` text, base64url internals and Unicode: JSON is an abstract value, the encodings are inverse pairs, `typ` is compared with ASCII letters and Latin-1 spaces.
- Other `Store` implementations, backend failures and external edits of the store: only the enforcer writes to its store; `ResolveRoles` and `ValidateInheritance` are proved for any role map.
- Enforcers.Enforcer.DeleteRole: requires the invariant of reachable states instead of modelling the partial cascade that a corrupt index would cause; every history of public calls satisfies it.
- Enforcers.Enforcer.PermissionsFor: does not promise one listing for granted permissions that print alike, because the library sort does not either.
- Monotonic clock readings: times are compared by wall clock, as times that went through a token are.
- Jwt.FreshTokenAcceptedIff: excludes the first two and the last representable second, where `Time.Add` saturates; `Jwt.UsualLifetime` covers them.
- Jwt.FreshVerdictIff: excludes the same seconds, and for negative leeways the outer centuries of representable time; `Jwt.UsualLifetime` covers them.
- `ListUsers`, the same listing as `ListRoles` on users, and the enforcer's pass-throughs to the store (`GetUser`, `GetRole`, `ListRoles`, `ListUsers`, `Store`).
- `sort.Slice`: stands as an insertion sort of which only the contract is used.
- `Decode` and `Encode` of branca with typed payloads, key-length checks, option closures, `jwt/alg.go`, `jwt/symmetric.go`, the HTTP middleware and the re-exports: wrappers with one-branch properties.
- Performance.
