/**
 * The RBAC state machine: what each public operation of the enforcer does to the stored entities,
 * the reverse index and the two caches.
 */
module Rbac {
  import opened Permissions
  import opened Entities
  import opened Ordering
  import opened Inheritance
  import opened EffectiveRoles

  type Grants = map<UserID, set<Permission>>
  type Holders = map<RoleID, set<UserID>>
  type DirectRoles = map<UserID, set<RoleID>>

  datatype State = State(
    users: Users,
    roles: Roles,
    /** Memoised granted sets, by what they grant. */
    cache: Grants,
    /** Reverse index from a role to the users holding it directly. */
    holders: Holders,
    /** Memoised direct roles. */
    direct: DirectRoles)

  const EMPTY: State := State(map[], map[], map[], map[], map[])

  datatype Outcome = Outcome(state: State, err: Error)

  function HoldersOf(holders: Holders, role: RoleID): set<UserID>
  {
    if role in holders then holders[role] else {}
  }

  function WithHolder(holders: Holders, uid: UserID, role: RoleID): Holders
  {
    holders[role := HoldersOf(holders, role) + {uid}]
  }

  function WithHolders(holders: Holders, uid: UserID, roles: seq<RoleID>): Holders
  {
    if roles == [] then holders
    else WithHolder(WithHolders(holders, uid, roles[..|roles| - 1]), uid, roles[|roles| - 1])
  }

  function WithoutHolder(holders: Holders, uid: UserID, role: RoleID): Holders
  {
    if role in holders then holders[role := holders[role] - {uid}] else holders
  }

  function WithDirect(direct: DirectRoles, uid: UserID, roles: seq<RoleID>): DirectRoles
  {
    if roles == [] then direct - {uid} else direct[uid := Elements(roles)]
  }

  predicate AllValid(ps: seq<Permission>)
  {
    forall p :: p in ps ==> p.Valid()
  }

  // Users

  function CreateUser(s: State, id: UserID, roles: seq<RoleID>): Outcome
  {
    if id == "" then Outcome(s, EmptyName)
    else if id in s.users then Outcome(s, UserExists)
    else Outcome(s.(users := s.users[id := User(roles, [])],
                    holders := WithHolders(s.holders, id, roles),
                    direct := WithDirect(s.direct, id, roles)), Nil)
  }

  function DeleteUser(s: State, id: UserID): Outcome
  {
    Outcome(s.(users := s.users - {id},
               cache := s.cache - {id},
               direct := s.direct - {id},
               holders := map r | r in s.holders :: s.holders[r] - {id}),
            if id in s.users then Nil else UserNotFound)
  }

  /** A user rewritten with a new role list: index one entry, refresh the direct roles, evict. */
  function WriteRolesOf(s: State, id: UserID, roles: seq<RoleID>, holders: Holders): State
    requires id in s.users
  {
    s.(users := s.users[id := s.users[id].(roles := roles)],
       holders := holders,
       direct := WithDirect(s.direct, id, roles),
       cache := s.cache - {id})
  }

  function AssignRole(s: State, id: UserID, role: RoleID): Outcome
  {
    if role !in s.roles then Outcome(s, RoleNotFound)
    else if id !in s.users then Outcome(s, UserNotFound)
    else if role in s.users[id].roles then Outcome(s, Nil)
    else Outcome(WriteRolesOf(s, id, s.users[id].roles + [role], WithHolder(s.holders, id, role)), Nil)
  }

  function RevokeRole(s: State, id: UserID, role: RoleID): Outcome
  {
    if id !in s.users then Outcome(s, UserNotFound)
    else if role !in s.roles then Outcome(s, RoleNotFound)
    else Outcome(WriteRolesOf(s, id, Without(s.users[id].roles, role), WithoutHolder(s.holders, id, role)), Nil)
  }

  function WriteDirectOf(s: State, id: UserID, direct: seq<Permission>): State
    requires id in s.users
  {
    s.(users := s.users[id := s.users[id].(direct := direct)], cache := s.cache - {id})
  }

  function GrantDirect(s: State, id: UserID, p: Permission): Outcome
  {
    if !p.Valid() then Outcome(s, InvalidPermission)
    else if id !in s.users then Outcome(s, UserNotFound)
    else if p in s.users[id].direct then Outcome(s, Nil)
    else Outcome(WriteDirectOf(s, id, s.users[id].direct + [p]), Nil)
  }

  function RevokeDirect(s: State, id: UserID, p: Permission): Outcome
  {
    if !p.Valid() then Outcome(s, InvalidPermission)
    else if id !in s.users then Outcome(s, UserNotFound)
    else Outcome(WriteDirectOf(s, id, Without(s.users[id].direct, p)), Nil)
  }

  // Roles

  function CreateRole(s: State, maxDepth: nat, name: RoleID, ps: seq<Permission>, parent: RoleID): Outcome
  {
    if name == "" then Outcome(s, EmptyName)
    else if !AllValid(ps) then Outcome(s, InvalidPermission)
    else
      var verdict := Validate(s.roles, maxDepth, name, parent);
      if verdict != Nil then Outcome(s, verdict)
      else if name in s.roles then Outcome(s, RoleExists)
      else Outcome(s.(roles := s.roles[name := Role(ps, parent)]), Nil)
  }

  /** A stored role overwritten: the cached grants of its direct holders go. */
  function WriteRole(s: State, name: RoleID, role: Role): State
  {
    s.(roles := s.roles[name := role], cache := s.cache - HoldersOf(s.holders, name))
  }

  function UpdateRole(s: State, maxDepth: nat, name: RoleID, ps: seq<Permission>, parent: RoleID): Outcome
  {
    if name == "" then Outcome(s, EmptyName)
    else if !AllValid(ps) then Outcome(s, InvalidPermission)
    else
      var verdict := Validate(s.roles, maxDepth, name, parent);
      if verdict != Nil then Outcome(s, verdict)
      else if name !in s.roles then Outcome(s, RoleNotFound)
      else Outcome(WriteRole(s, name, Role(ps, parent)), Nil)
  }

  function GrantPermission(s: State, name: RoleID, p: Permission): Outcome
  {
    if !p.Valid() then Outcome(s, InvalidPermission)
    else if name !in s.roles then Outcome(s, RoleNotFound)
    else if p in s.roles[name].permissions then Outcome(s, Nil)
    else
      var role := s.roles[name];
      Outcome(WriteRole(s, name, role.(permissions := role.permissions + [p])), Nil)
  }

  function RevokePermission(s: State, name: RoleID, p: Permission): Outcome
  {
    if !p.Valid() then Outcome(s, InvalidPermission)
    else if name !in s.roles then Outcome(s, RoleNotFound)
    else
      var role := s.roles[name];
      Outcome(WriteRole(s, name, role.(permissions := Without(role.permissions, p))), Nil)
  }

  function SetParent(s: State, maxDepth: nat, name: RoleID, parent: RoleID): Outcome
  {
    if name !in s.roles then Outcome(s, RoleNotFound)
    else if parent != "" && parent !in s.roles then Outcome(s, RoleNotFound)
    else if s.roles[name].parent == parent then Outcome(s, Nil)
    else
      var verdict := Validate(s.roles, maxDepth, name, parent);
      if verdict != Nil then Outcome(s, verdict)
      else Outcome(WriteRole(s, name, s.roles[name].(parent := parent)), Nil)
  }

  function Children(roles: Roles, name: RoleID): set<RoleID>
  {
    set n | n in roles && roles[n].parent == name
  }

  function HoldersOfAny(holders: Holders, names: set<RoleID>): set<UserID>
  {
    set n, uid | n in names && uid in HoldersOf(holders, n) :: uid
  }

  /** The users in `held` lose the role, keeping the order of the others. */
  function StripUsers(users: Users, held: set<UserID>, name: RoleID): Users
  {
    map id | id in users :: if id in held then users[id].(roles := Without(users[id].roles, name)) else users[id]
  }

  function StripDirect(direct: DirectRoles, users: Users, held: set<UserID>): DirectRoles
  {
    map id | id in direct.Keys + held && !(id in held && id in users && users[id].roles == []) ::
      if id in held && id in users then Elements(users[id].roles) else if id in direct then direct[id] else {}
  }

  /** Holders lose the role, children become roots, and both kinds of direct holders are evicted. */
  function DeleteRole(s: State, name: RoleID): Outcome
  {
    if name !in s.roles then Outcome(s, RoleNotFound)
    else
      var held := HoldersOf(s.holders, name);
      var users := StripUsers(s.users, held, name);
      Outcome(State(users,
                    Detach(s.roles, name),
                    s.cache - HoldersOfAny(s.holders, Children(s.roles, name)) - held,
                    s.holders - {name},
                    StripDirect(s.direct, users, held)), Nil)
  }

  // Queries, which only fill the caches

  function FillDirect(s: State, id: UserID): State
  {
    if id in s.direct || id !in s.users then s
    else s.(direct := s.direct[id := Elements(s.users[id].roles)])
  }

  /** The lookup behind `HasRole`, `HasAnyRole` and `HasAllRoles`. */
  function QueryRoles(s: State, id: UserID): Outcome
  {
    Outcome(FillDirect(s, id), if id in s.direct || id in s.users then Nil else UserNotFound)
  }

  /** The lookup behind `Check`, the `HasPermission` family and `PermissionsFor`. */
  ghost function QueryGrants(s: State, id: UserID): Outcome
  {
    if id !in s.users then Outcome(s, UserNotFound)
    else if id in s.cache then Outcome(s, Nil)
    else Outcome(FillDirect(s.(cache := s.cache[id := Effective(s.roles, s.users[id])]), id), Nil)
  }

  /** The grants a query about a stored user answers from. */
  ghost function GrantsOf(s: State, id: UserID): set<Permission>
    requires id in s.users
  {
    if id in s.cache then s.cache[id] else Effective(s.roles, s.users[id])
  }

  datatype Op =
    | CreatingUser(id: UserID, held: seq<RoleID>)
    | DeletingUser(id: UserID)
    | AssigningRole(id: UserID, role: RoleID)
    | RevokingRole(id: UserID, role: RoleID)
    | GrantingDirect(id: UserID, p: Permission)
    | RevokingDirect(id: UserID, p: Permission)
    | CreatingRole(name: RoleID, permissions: seq<Permission>, parent: RoleID)
    | UpdatingRole(name: RoleID, permissions: seq<Permission>, parent: RoleID)
    | DeletingRole(name: RoleID)
    | GrantingPermission(name: RoleID, p: Permission)
    | RevokingPermission(name: RoleID, p: Permission)
    | SettingParent(name: RoleID, parent: RoleID)
    | QueryingRoles(id: UserID)
    | QueryingGrants(id: UserID)

  ghost function Apply(s: State, maxDepth: nat, op: Op): Outcome
  {
    match op
    case CreatingUser(id, held) => CreateUser(s, id, held)
    case DeletingUser(id) => DeleteUser(s, id)
    case AssigningRole(id, role) => AssignRole(s, id, role)
    case RevokingRole(id, role) => RevokeRole(s, id, role)
    case GrantingDirect(id, p) => GrantDirect(s, id, p)
    case RevokingDirect(id, p) => RevokeDirect(s, id, p)
    case CreatingRole(name, ps, parent) => CreateRole(s, maxDepth, name, ps, parent)
    case UpdatingRole(name, ps, parent) => UpdateRole(s, maxDepth, name, ps, parent)
    case DeletingRole(name) => DeleteRole(s, name)
    case GrantingPermission(name, p) => GrantPermission(s, name, p)
    case RevokingPermission(name, p) => RevokePermission(s, name, p)
    case SettingParent(name, parent) => SetParent(s, maxDepth, name, parent)
    case QueryingRoles(id) => QueryRoles(s, id)
    case QueryingGrants(id) => QueryGrants(s, id)
  }

  /** The state after a sequential history of public calls on a new enforcer. */
  ghost function Run(maxDepth: nat, ops: seq<Op>): State
  {
    if ops == [] then EMPTY
    else Apply(Run(maxDepth, ops[..|ops| - 1]), maxDepth, ops[|ops| - 1]).state
  }

  lemma RunAppend(maxDepth: nat, ops: seq<Op>, op: Op)
    ensures Run(maxDepth, ops + [op]) == Apply(Run(maxDepth, ops), maxDepth, op).state
  {
    assert (ops + [op])[..|ops|] == ops;
  }

  lemma StepOfRun(maxDepth: nat, ops: seq<Op>, i: nat)
    requires i < |ops|
    ensures Run(maxDepth, ops[..i + 1]) == Apply(Run(maxDepth, ops[..i]), maxDepth, ops[i]).state
  {
    assert ops[..i + 1][..i] == ops[..i];
  }
}
