/** What every reachable state satisfies: exact index, exact direct-role cache, a forest of roles. */
module IndexInvariant {
  import opened Permissions
  import opened Entities
  import opened Ordering
  import opened Inheritance
  import opened EffectiveRoles
  import opened Rbac

  ghost predicate Holds(s: State, uid: UserID, role: RoleID)
  {
    uid in s.users && role in s.users[uid].roles
  }

  /** The reverse index lists exactly the users that hold the role directly. */
  ghost predicate IndexExact(s: State)
  {
    forall uid, r :: uid in HoldersOf(s.holders, r) <==> Holds(s, uid, r)
  }

  /** Every memoised direct-role set belongs to a stored user and equals its stored roles. */
  ghost predicate DirectExact(s: State)
  {
    forall uid :: uid in s.direct ==> uid in s.users && s.direct[uid] == Elements(s.users[uid].roles)
  }

  ghost predicate GrantsValid(s: State)
  {
    && (forall n :: n in s.roles ==> AllValid(s.roles[n].permissions))
    && (forall id :: id in s.users ==> AllValid(s.users[id].direct))
  }

  ghost predicate Inv(s: State)
  {
    && "" !in s.users
    && Forest(s.roles)
    && IndexExact(s)
    && DirectExact(s)
    && s.cache.Keys <= s.users.Keys
    && GrantsValid(s)
  }

  lemma {:induction false} WithHoldersOf(holders: Holders, uid: UserID, roles: seq<RoleID>, r: RoleID)
    ensures HoldersOf(WithHolders(holders, uid, roles), r) == HoldersOf(holders, r) + (if r in roles then {uid} else {})
  {
    if roles != [] {
      var n := |roles| - 1;
      WithHoldersOf(holders, uid, roles[..n], r);
      assert roles == roles[..n] + [roles[n]];
    }
  }

  lemma CreateUserKeeps(s: State, id: UserID, roles: seq<RoleID>)
    requires Inv(s)
    ensures Inv(CreateUser(s, id, roles).state)
  {
    hide Forest, WithHolders;
    var s' := CreateUser(s, id, roles).state;
    forall uid, r
      ensures uid in HoldersOf(s'.holders, r) <==> Holds(s', uid, r)
    {
      assert uid in HoldersOf(s.holders, r) <==> Holds(s, uid, r);
      WithHoldersOf(s.holders, id, roles, r);
    }
    assert Elements(roles) == {} <==> roles == [] by {
      assert roles != [] ==> roles[0] in Elements(roles);
    }
  }

  lemma DeleteUserKeeps(s: State, id: UserID)
    requires Inv(s)
    ensures Inv(DeleteUser(s, id).state)
  {
    var s' := DeleteUser(s, id).state;
    forall uid, r
      ensures uid in HoldersOf(s'.holders, r) <==> Holds(s', uid, r)
    {
      assert uid in HoldersOf(s.holders, r) <==> Holds(s, uid, r);
    }
  }

  lemma AssignRoleKeeps(s: State, id: UserID, role: RoleID)
    requires Inv(s)
    ensures Inv(AssignRole(s, id, role).state)
  {
    var s' := AssignRole(s, id, role).state;
    forall uid, r
      ensures uid in HoldersOf(s'.holders, r) <==> Holds(s', uid, r)
    {
      assert uid in HoldersOf(s.holders, r) <==> Holds(s, uid, r);
    }
  }

  lemma RevokeRoleKeeps(s: State, id: UserID, role: RoleID)
    requires Inv(s)
    ensures Inv(RevokeRole(s, id, role).state)
  {
    var s' := RevokeRole(s, id, role).state;
    forall uid, r
      ensures uid in HoldersOf(s'.holders, r) <==> Holds(s', uid, r)
    {
      assert uid in HoldersOf(s.holders, r) <==> Holds(s, uid, r);
    }
  }

  lemma SameRolesKeep(s: State, s': State)
    requires Inv(s)
    requires s'.users.Keys == s.users.Keys && forall id :: id in s.users ==> s'.users[id].roles == s.users[id].roles
    requires s'.holders == s.holders && DirectExact(s') && s'.cache.Keys <= s'.users.Keys
    requires Forest(s'.roles) && GrantsValid(s')
    ensures Inv(s')
  {
    forall uid, r
      ensures uid in HoldersOf(s'.holders, r) <==> Holds(s', uid, r)
    {
      assert uid in HoldersOf(s.holders, r) <==> Holds(s, uid, r);
    }
  }

  lemma DirectWriteKeeps(s: State, id: UserID, direct: seq<Permission>)
    requires Inv(s) && id in s.users && AllValid(direct)
    ensures Inv(WriteDirectOf(s, id, direct))
  {
    SameRolesKeep(s, WriteDirectOf(s, id, direct));
  }

  lemma RoleWriteKeeps(s: State, maxDepth: nat, name: RoleID, role: Role)
    requires Inv(s) && name != "" && AllValid(role.permissions)
    requires Validate(s.roles, maxDepth, name, role.parent) == Nil
    ensures Inv(WriteRole(s, name, role)) && Inv(s.(roles := s.roles[name := role]))
  {
    AcceptedKeepsForest(s.roles, maxDepth, name, role);
    SameRolesKeep(s, WriteRole(s, name, role));
    SameRolesKeep(s, s.(roles := s.roles[name := role]));
  }

  /** Writing the parent a role already has changes no chain. */
  lemma SameParentKeeps(s: State, name: RoleID, role: Role)
    requires Inv(s) && name in s.roles && AllValid(role.permissions) && role.parent == s.roles[name].parent
    ensures Inv(WriteRole(s, name, role))
  {
    var roles' := s.roles[name := role];
    forall n | n in roles'
      ensures Reaches(roles', n, "")
    {
      var k: nat :| Up(s.roles, n, k) == "";
      SameParentsSameChains(s.roles, roles', n, k);
    }
    SameRolesKeep(s, WriteRole(s, name, role));
  }

  lemma {:induction false} SameParentsSameChains(roles: Roles, roles': Roles, n: RoleID, k: nat)
    requires forall m :: ParentOf(roles', m) == ParentOf(roles, m)
    ensures Up(roles', n, k) == Up(roles, n, k)
    decreases k
  {
    if k != 0 {
      SameParentsSameChains(roles, roles', ParentOf(roles, n), k - 1);
    }
  }

  lemma DeleteRoleKeeps(s: State, name: RoleID)
    requires Inv(s)
    ensures Inv(DeleteRole(s, name).state)
  {
    if name in s.roles {
      var s' := DeleteRole(s, name).state;
      DetachKeepsForest(s.roles, name);
      forall uid, r
        ensures uid in HoldersOf(s'.holders, r) <==> Holds(s', uid, r)
      {
        assert uid in HoldersOf(s.holders, r) <==> Holds(s, uid, r);
        assert uid in HoldersOf(s.holders, name) <==> Holds(s, uid, name);
      }
      assert DirectExact(s');
      assert s'.users.Keys == s.users.Keys;
    }
  }

  lemma FillDirectKeeps(s: State, id: UserID)
    requires Inv(s)
    ensures Inv(FillDirect(s, id))
  {
    SameRolesKeep(s, FillDirect(s, id));
  }

  lemma QueryGrantsKeeps(s: State, id: UserID)
    requires Inv(s)
    ensures Inv(QueryGrants(s, id).state)
  {
    if id in s.users && id !in s.cache {
      var filled := s.(cache := s.cache[id := Effective(s.roles, s.users[id])]);
      SameRolesKeep(s, filled);
      FillDirectKeeps(filled, id);
    }
  }

  lemma DirectGrantsKeep(s: State, id: UserID, p: Permission)
    requires Inv(s)
    ensures Inv(GrantDirect(s, id, p).state) && Inv(RevokeDirect(s, id, p).state)
  {
    if p.Valid() && id in s.users {
      DirectWriteKeeps(s, id, s.users[id].direct + [p]);
      DirectWriteKeeps(s, id, Without(s.users[id].direct, p));
    }
  }

  lemma NewContentKeeps(s: State, maxDepth: nat, name: RoleID, ps: seq<Permission>, parent: RoleID)
    requires Inv(s)
    ensures Inv(CreateRole(s, maxDepth, name, ps, parent).state)
    ensures Inv(UpdateRole(s, maxDepth, name, ps, parent).state)
  {
    hide Inv, Validate;
    if name != "" && AllValid(ps) && Validate(s.roles, maxDepth, name, parent) == Nil {
      RoleWriteKeeps(s, maxDepth, name, Role(ps, parent));
    }
  }

  lemma RoleGrantsKeep(s: State, name: RoleID, p: Permission)
    requires Inv(s)
    ensures Inv(GrantPermission(s, name, p).state) && Inv(RevokePermission(s, name, p).state)
  {
    if p.Valid() && name in s.roles {
      SameParentKeeps(s, name, s.roles[name].(permissions := s.roles[name].permissions + [p]));
      SameParentKeeps(s, name, s.roles[name].(permissions := Without(s.roles[name].permissions, p)));
    }
  }

  lemma SetParentKeeps(s: State, maxDepth: nat, name: RoleID, parent: RoleID)
    requires Inv(s)
    ensures Inv(SetParent(s, maxDepth, name, parent).state)
  {
    if name in s.roles && Validate(s.roles, maxDepth, name, parent) == Nil {
      RoleWriteKeeps(s, maxDepth, name, s.roles[name].(parent := parent));
    }
  }

  lemma {:induction false} StepKeepsInv(s: State, maxDepth: nat, op: Op)
    requires Inv(s)
    ensures Inv(Apply(s, maxDepth, op).state)
  {
    hide Inv, CreateUser, DeleteUser, AssignRole, RevokeRole, GrantDirect, RevokeDirect, CreateRole, UpdateRole;
    hide GrantPermission, RevokePermission, SetParent, DeleteRole, FillDirect, QueryGrants;
    match op
    case CreatingUser(id, held) => CreateUserKeeps(s, id, held);
    case DeletingUser(id) => DeleteUserKeeps(s, id);
    case AssigningRole(id, role) => AssignRoleKeeps(s, id, role);
    case RevokingRole(id, role) => RevokeRoleKeeps(s, id, role);
    case GrantingDirect(id, p) => DirectGrantsKeep(s, id, p);
    case RevokingDirect(id, p) => DirectGrantsKeep(s, id, p);
    case CreatingRole(name, ps, parent) => NewContentKeeps(s, maxDepth, name, ps, parent);
    case UpdatingRole(name, ps, parent) => NewContentKeeps(s, maxDepth, name, ps, parent);
    case DeletingRole(name) => DeleteRoleKeeps(s, name);
    case GrantingPermission(name, p) => RoleGrantsKeep(s, name, p);
    case RevokingPermission(name, p) => RoleGrantsKeep(s, name, p);
    case SettingParent(name, parent) => SetParentKeeps(s, maxDepth, name, parent);
    case QueryingRoles(id) => FillDirectKeeps(s, id);
    case QueryingGrants(id) => QueryGrantsKeeps(s, id);
  }

  /** Every history from an empty enforcer keeps the index exact and the roles an acyclic forest. */
  lemma {:induction false} RunKeepsInv(maxDepth: nat, ops: seq<Op>)
    ensures Inv(Run(maxDepth, ops))
  {
    if ops != [] {
      RunKeepsInv(maxDepth, ops[..|ops| - 1]);
      StepKeepsInv(Run(maxDepth, ops[..|ops| - 1]), maxDepth, ops[|ops| - 1]);
    }
  }

  lemma {:induction false} ForestInEveryRun(maxDepth: nat, ops: seq<Op>)
    ensures var roles := Run(maxDepth, ops).roles;
      && "" !in roles
      && (forall n :: n in roles && roles[n].parent != "" ==> roles[n].parent in roles)
      && (forall n :: n in roles ==> !OnCycle(roles, n))
  {
    RunKeepsInv(maxDepth, ops);
    ForestIffAcyclic(Run(maxDepth, ops).roles);
  }

  /** An operation that reports an error has changed nothing, index and caches included. */
  lemma FailureChangesNothing(s: State, maxDepth: nat, op: Op)
    requires Inv(s) && Apply(s, maxDepth, op).err != Nil
    ensures Apply(s, maxDepth, op).state == s
  {
    hide Forest, GrantsValid, Validate, Without;
    if op.DeletingUser? {
      assert forall r :: r in s.holders ==> HoldersOf(s.holders, r) == s.holders[r] && !Holds(s, op.id, r);
      assert forall r :: r in s.holders ==> s.holders[r] - {op.id} == s.holders[r];
    }
  }

  /** The answer of the direct-role lookup is what the store says, hit or miss. */
  lemma DirectLookupAgrees(s: State, id: UserID)
    requires Inv(s)
    ensures (QueryRoles(s, id).err == Nil <==> id in s.users)
    ensures id in s.users ==>
      var s' := QueryRoles(s, id).state; id in s'.direct && s'.direct[id] == Elements(s.users[id].roles)
  {
  }

  /**
   * Deleting a stored role never fails and reaches everyone: only indexed holders are visited, and
   * that is enough because the index is exact. Nothing else in the store changes.
   */
  lemma DeleteRoleCascades(s: State, name: RoleID)
    requires Inv(s) && name in s.roles
    ensures var Outcome(s', err) := DeleteRole(s, name);
      && err == Nil
      && name !in s'.roles && name !in s'.holders
      && s'.roles.Keys == s.roles.Keys - {name}
      && (forall n :: n in s'.roles ==>
            && s'.roles[n].permissions == s.roles[n].permissions
            && s'.roles[n].parent == (if s.roles[n].parent == name then "" else s.roles[n].parent)
            && s'.roles[n].parent != name)
      && s'.users.Keys == s.users.Keys
      && (forall id :: id in s.users ==>
            && s'.users[id].direct == s.users[id].direct
            && s'.users[id].roles == Without(s.users[id].roles, name)
            && name !in s'.users[id].roles)
  {
    var s' := DeleteRole(s, name).state;
    forall id | id in s.users
      ensures s'.users[id].roles == Without(s.users[id].roles, name)
    {
      assert id in HoldersOf(s.holders, name) <==> Holds(s, id, name);
      WithoutAbsent(s.users[id].roles, name);
    }
  }
}
