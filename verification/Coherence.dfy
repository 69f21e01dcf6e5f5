/** Which memoised grants survive an operation, and when the survivors are still right. */
module Coherence {
  import opened Permissions
  import opened Entities
  import opened Ordering
  import opened Inheritance
  import opened EffectiveRoles
  import opened Rbac
  import opened IndexInvariant

  /** The cached grants of `uid` are what a fresh computation would build. */
  ghost predicate Coherent(s: State, uid: UserID)
  {
    uid in s.cache && uid in s.users && s.cache[uid] == Effective(s.roles, s.users[uid])
  }

  ghost predicate AllCoherent(s: State)
  {
    forall uid :: uid in s.cache ==> Coherent(s, uid)
  }

  predicate WritesRole(op: Op)
  {
    op.UpdatingRole? || op.GrantingPermission? || op.RevokingPermission? || op.SettingParent?
  }

  /** The user holds the role, if at all, in a way the eviction after a write to it can see. */
  ghost predicate SeenByEviction(s: State, name: RoleID, uid: UserID)
    requires uid in s.users
  {
    name in Chain(s.roles, s.users[uid]) ==> name in s.users[uid].roles
  }

  ghost predicate HoldsChild(s: State, name: RoleID, uid: UserID)
    requires uid in s.users
  {
    exists c :: c in Children(s.roles, name) && c in s.users[uid].roles
  }

  /** The operation cannot leave a right cache entry of `uid` standing and wrong. */
  ghost predicate Safe(s: State, op: Op, uid: UserID)
    requires uid in s.users
  {
    if WritesRole(op) then SeenByEviction(s, op.name, uid)
    else if op.CreatingRole? then op.name in s.roles || op.name !in s.users[uid].roles
    else if op.DeletingRole? then SeenByEviction(s, op.name, uid) || HoldsChild(s, op.name, uid)
    else true
  }

  /** A role name nobody stores is in a chain only if it is held directly. */
  lemma UnstoredIsDirect(s: State, name: RoleID, u: User)
    requires Forest(s.roles) && name !in s.roles
    ensures name in Chain(s.roles, u) ==> name in u.roles
  {
    if name in Chain(s.roles, u) && name !in u.roles {
      var child := InheritedThroughChild(s.roles, u, name);
      NameNotEmpty(s.roles, u, name);
    }
  }

  lemma WriteSurvivor(s: State, name: RoleID, role: Role, uid: UserID)
    requires Inv(s) && Coherent(s, uid) && SeenByEviction(s, name, uid)
    requires uid in WriteRole(s, name, role).cache
    ensures Coherent(WriteRole(s, name, role), uid)
  {
    assert uid in HoldersOf(s.holders, name) <==> Holds(s, uid, name);
    WriteOutsideChain(s.roles, name, role, s.users[uid]);
  }

  /** A deletion evicts the direct holders of the role and of its children, and no one else. */
  lemma EvictedByDeletion(s: State, name: RoleID, uid: UserID)
    requires Inv(s) && name in s.roles && uid in s.cache
    ensures uid in DeleteRole(s, name).state.cache <==> name !in s.users[uid].roles && !HoldsChild(s, name, uid)
    ensures name !in s.users[uid].roles ==> DeleteRole(s, name).state.users[uid] == s.users[uid]
  {
    assert uid in HoldersOf(s.holders, name) <==> Holds(s, uid, name);
    var children := Children(s.roles, name);
    if HoldsChild(s, name, uid) {
      var c :| c in children && c in s.users[uid].roles;
      assert uid in HoldersOf(s.holders, c) <==> Holds(s, uid, c);
      assert uid in HoldersOfAny(s.holders, children);
    }
    if uid in HoldersOfAny(s.holders, children) {
      var c :| c in children && uid in HoldersOf(s.holders, c);
      assert uid in HoldersOf(s.holders, c) <==> Holds(s, uid, c);
    }
  }

  /** The four kinds of role write differ in the role they store, and in nothing else. */
  lemma RoleWriteShape(s: State, maxDepth: nat, op: Op) returns (role: Role)
    requires WritesRole(op)
    ensures Apply(s, maxDepth, op).state in {s, WriteRole(s, op.name, role)}
    ensures Apply(s, maxDepth, op).state != s ==>
      && op.name in s.roles
      && (|| role.parent == s.roles[op.name].parent
          || ((op.UpdatingRole? || op.SettingParent?) && role.parent == op.parent
              && Validate(s.roles, maxDepth, op.name, op.parent) == Nil))
  {
    hide Validate, Without;
    role := Role([], "");
    match op
    case UpdatingRole(name, ps, parent) => role := Role(ps, parent);
    case GrantingPermission(name, p) =>
      if name in s.roles {
        role := s.roles[name].(permissions := s.roles[name].permissions + [p]);
      }
    case RevokingPermission(name, p) =>
      if name in s.roles {
        role := s.roles[name].(permissions := Without(s.roles[name].permissions, p));
      }
    case SettingParent(name, parent) =>
      if name in s.roles {
        role := s.roles[name].(parent := parent);
      }
  }

  /** Operations on users and queries touch the cache entry of the user they name, and no role. */
  lemma OtherUsersUntouched(s: State, maxDepth: nat, op: Op, uid: UserID)
    requires Inv(s) && Coherent(s, uid)
    requires !WritesRole(op) && !op.CreatingRole? && !op.DeletingRole?
    requires uid in Apply(s, maxDepth, op).state.cache
    ensures Coherent(Apply(s, maxDepth, op).state, uid)
  {
  }

  lemma {:induction false} WrittenSurvivor(s: State, maxDepth: nat, op: Op, uid: UserID)
    requires Inv(s) && Coherent(s, uid) && WritesRole(op) && SeenByEviction(s, op.name, uid)
    requires uid in Apply(s, maxDepth, op).state.cache
    ensures Coherent(Apply(s, maxDepth, op).state, uid)
  {
    var role := RoleWriteShape(s, maxDepth, op);
    hide Apply, Inv, Coherent, WriteRole;
    if Apply(s, maxDepth, op).state != s {
      WriteSurvivor(s, op.name, role, uid);
    }
  }

  lemma {:induction false} CreationSurvivor(s: State, maxDepth: nat, name: RoleID, ps: seq<Permission>,
                                             parent: RoleID, uid: UserID)
    requires Inv(s) && Coherent(s, uid) && (name in s.roles || name !in s.users[uid].roles)
    ensures Coherent(CreateRole(s, maxDepth, name, ps, parent).state, uid)
  {
    if name !in s.roles {
      UnstoredIsDirect(s, name, s.users[uid]);
      WriteOutsideChain(s.roles, name, Role(ps, parent), s.users[uid]);
    }
  }

  lemma {:induction false} DeletionSurvivor(s: State, name: RoleID, uid: UserID)
    requires Inv(s) && Coherent(s, uid) && (SeenByEviction(s, name, uid) || HoldsChild(s, name, uid))
    requires uid in DeleteRole(s, name).state.cache
    ensures Coherent(DeleteRole(s, name).state, uid)
  {
    if name in s.roles {
      EvictedByDeletion(s, name, uid);
      DetachOutsideChain(s.roles, name, s.users[uid]);
    }
  }

  /**
   * Eviction frame, for any state of any run: an entry that was right and survives an operation is
   * still right, unless the written role is inherited without being held directly (for a deletion:
   * and no child of it is held directly either; for a creation: it is held before it exists).
   */
  lemma {:induction false} SurvivorsStayCoherent(s: State, maxDepth: nat, op: Op, uid: UserID)
    requires Inv(s) && Coherent(s, uid) && Safe(s, op, uid)
    requires uid in Apply(s, maxDepth, op).state.cache
    ensures Coherent(Apply(s, maxDepth, op).state, uid)
  {
    hide Inv, Coherent, CreateRole, DeleteRole, HoldsChild, SeenByEviction;
    if WritesRole(op) {
      WrittenSurvivor(s, maxDepth, op, uid);
    } else if op.CreatingRole? {
      CreationSurvivor(s, maxDepth, op.name, op.permissions, op.parent, uid);
    } else if op.DeletingRole? {
      DeletionSurvivor(s, op.name, uid);
    } else {
      OtherUsersUntouched(s, maxDepth, op, uid);
    }
  }

  /** A new cache entry is a fresh computation. */
  lemma OnlyQueriesFill(s: State, maxDepth: nat, op: Op, uid: UserID)
    requires uid !in s.cache && uid in Apply(s, maxDepth, op).state.cache
    ensures Coherent(Apply(s, maxDepth, op).state, uid)
  {
    hide Validate, Effective;
  }

  lemma {:induction false} SafeStepKeepsCoherence(s: State, maxDepth: nat, op: Op)
    requires Inv(s) && AllCoherent(s)
    requires forall uid :: uid in s.cache ==> Safe(s, op, uid)
    ensures AllCoherent(Apply(s, maxDepth, op).state)
  {
    var s' := Apply(s, maxDepth, op).state;
    forall uid | uid in s'.cache
      ensures Coherent(s', uid)
    {
      if uid in s.cache {
        SurvivorsStayCoherent(s, maxDepth, op, uid);
      } else {
        OnlyQueriesFill(s, maxDepth, op, uid);
      }
    }
  }

  // When role writes can be trusted

  lemma {:induction false} LongerThanAll(ps: set<Permission>) returns (n: nat)
    ensures forall p :: p in ps ==> |p.resource| < n
  {
    n := 1;
    if p :| p in ps {
      var m := LongerThanAll(ps - {p});
      n := if |p.resource| < m then m else |p.resource| + 1;
    }
  }

  lemma NewPermission(ps: set<Permission>) returns (p: Permission)
    ensures p.Valid() && p !in ps
  {
    var n := LongerThanAll(ps);
    p := Permission(seq(n + 1, i => 'r'), "a");
  }

  lemma SameParentSameChain(s: State, name: RoleID, role: Role, u: User)
    requires name in s.roles && role.parent == s.roles[name].parent
    ensures Chain(s.roles[name := role], u) == Chain(s.roles, u)
  {
    SameParentsSameClosure(s.roles, s.roles[name := role], Elements(u.roles));
  }

  /** Granting something new to a role that is inherited unseen leaves a stale entry. */
  lemma UnseenGrantIsStale(s: State, name: RoleID, uid: UserID, p: Permission)
    requires Inv(s) && name in s.roles && Coherent(s, uid) && !SeenByEviction(s, name, uid)
    requires p.Valid() && p !in s.cache[uid]
    ensures var s' := GrantPermission(s, name, p).state;
      uid in s'.cache && p !in s'.cache[uid] && p in Effective(s'.roles, s'.users[uid])
  {
    var role := s.roles[name];
    var role' := role.(permissions := role.permissions + [p]);
    var u := s.users[uid];
    assert uid in HoldersOf(s.holders, name) <==> Holds(s, uid, name);
    assert p in role.permissions ==> p in RolePerms(s.roles, Chain(s.roles, u));
    SameParentSameChain(s, name, role', u);
    var roles' := s.roles[name := role'];
    assert roles'[name].permissions == role.permissions + [p];
    assert name in Chain(roles', u) && p in roles'[name].permissions;
    assert p in RolePerms(roles', Chain(roles', u));
    assert GrantPermission(s, name, p).state == WriteRole(s, name, role');
  }

  /** No write to the role, of whatever kind, makes a cache entry wrong. */
  ghost predicate WritesTrusted(s: State, maxDepth: nat, name: RoleID)
  {
    forall op: Op :: WritesRole(op) && op.name == name ==> AllCoherent(Apply(s, maxDepth, op).state)
  }

  /**
   * From a state with a right cache, every write to a role leaves the cache right exactly when each
   * user with cached grants who inherits the role also holds it directly.
   */
  lemma {:induction false} RoleWritesTrustedIff(s: State, maxDepth: nat, name: RoleID)
    requires Inv(s) && AllCoherent(s) && name in s.roles
    ensures WritesTrusted(s, maxDepth, name) <==> forall uid :: uid in s.cache ==> SeenByEviction(s, name, uid)
  {
    if forall uid :: uid in s.cache ==> SeenByEviction(s, name, uid) {
      forall op: Op | WritesRole(op) && op.name == name
        ensures AllCoherent(Apply(s, maxDepth, op).state)
      {
        SafeStepKeepsCoherence(s, maxDepth, op);
      }
    } else {
      var uid :| uid in s.cache && !SeenByEviction(s, name, uid);
      UnseenIsDistrusted(s, maxDepth, name, uid);
    }
  }

  lemma UnseenIsDistrusted(s: State, maxDepth: nat, name: RoleID, uid: UserID)
    requires Inv(s) && Coherent(s, uid) && name in s.roles && !SeenByEviction(s, name, uid)
    ensures !WritesTrusted(s, maxDepth, name)
  {
    var p := NewPermission(s.cache[uid]);
    UnseenGrantIsStale(s, name, uid, p);
    hide Inv, SeenByEviction, GrantPermission, Effective;
    var op := GrantingPermission(name, p);
    assert !Coherent(Apply(s, maxDepth, op).state, uid);
    assert WritesRole(op) && op.name == name;
  }

  /** No way of creating the role makes a cache entry wrong. */
  ghost predicate CreationTrusted(s: State, maxDepth: nat, name: RoleID)
  {
    forall ps, parent :: AllCoherent(CreateRole(s, maxDepth, name, ps, parent).state)
  }

  lemma HeldCreationIsDistrusted(s: State, maxDepth: nat, name: RoleID, uid: UserID)
    requires Inv(s) && name !in s.roles && name != "" && Coherent(s, uid) && name in s.users[uid].roles
    ensures !CreationTrusted(s, maxDepth, name)
  {
    var p := NewPermission(s.cache[uid]);
    var s' := CreateRole(s, maxDepth, name, [p], "").state;
    assert AllValid([p]);
    assert s'.roles == s.roles[name := Role([p], "")] && s'.cache == s.cache && s'.users == s.users;
    CreatedIsGranted(s'.roles, name, s.users[uid], p);
    assert !Coherent(s', uid);
  }

  lemma CreatedIsGranted(roles: Roles, name: RoleID, u: User, p: Permission)
    requires name in roles && p in roles[name].permissions && name in u.roles
    ensures p in Effective(roles, u)
  {
    assert name in Chain(roles, u);
    assert p in RolePerms(roles, Chain(roles, u));
  }

  /** Creating a role evicts nobody, which is right exactly when no user with cached grants already lists it. */
  lemma CreationTrustedIff(s: State, maxDepth: nat, name: RoleID)
    requires Inv(s) && AllCoherent(s) && name !in s.roles && name != ""
    ensures CreationTrusted(s, maxDepth, name) <==> forall uid :: uid in s.cache ==> name !in s.users[uid].roles
  {
    hide Inv;
    if forall uid :: uid in s.cache ==> name !in s.users[uid].roles {
      forall ps, parent
        ensures AllCoherent(CreateRole(s, maxDepth, name, ps, parent).state)
      {
        forall uid | uid in s.cache
          ensures Coherent(CreateRole(s, maxDepth, name, ps, parent).state, uid)
        {
          CreationSurvivor(s, maxDepth, name, ps, parent, uid);
        }
      }
    } else {
      var uid :| uid in s.cache && name in s.users[uid].roles;
      HeldCreationIsDistrusted(s, maxDepth, name, uid);
    }
  }

  lemma SplitPerms(roles: Roles, all: set<RoleID>, part: set<RoleID>)
    requires part <= all
    ensures RolePerms(roles, all) == RolePerms(roles, all - part) + RolePerms(roles, part)
  {
  }

  /** All that the roles severed with `name` grant the user, the other roles of the chain or direct grants do too. */
  ghost predicate Dispensable(roles: Roles, u: User, name: RoleID)
  {
    RolePerms(roles, Severed(roles, u, name)) <=
    RolePerms(roles, Chain(roles, u) - Severed(roles, u, name)) + Elements(u.direct)
  }

  /** For a user holding neither the role nor a child of it the entry stays, and is right exactly in that case. */
  lemma {:induction false} DeletionHonouredIff(s: State, name: RoleID, uid: UserID)
    requires Inv(s) && Coherent(s, uid) && name in s.roles
    requires name !in s.users[uid].roles && !HoldsChild(s, name, uid)
    ensures var s' := DeleteRole(s, name).state;
      uid in s'.cache && (Coherent(s', uid) <==> Dispensable(s.roles, s.users[uid], name))
  {
    var s' := DeleteRole(s, name).state;
    EvictedByDeletion(s, name, uid);
    assert s'.roles == Detach(s.roles, name) && s'.cache[uid] == s.cache[uid];
    hide Inv, DeleteRole, Chain, Severed, Detach;
    EffectiveAfterDeletion(s.roles, name, s.users[uid]);
    SplitPerms(s.roles, Chain(s.roles, s.users[uid]), Severed(s.roles, s.users[uid], name));
  }

  /** Deleting a role leaves the cache right exactly when it is dispensable to whom the eviction does not see. */
  lemma {:induction false} DeletionTrustedIff(s: State, name: RoleID)
    requires Inv(s) && AllCoherent(s) && name in s.roles
    ensures AllCoherent(DeleteRole(s, name).state) <==>
      forall uid :: uid in s.cache && name !in s.users[uid].roles && !HoldsChild(s, name, uid) ==>
        Dispensable(s.roles, s.users[uid], name)
  {
    var s' := DeleteRole(s, name).state;
    assert s'.cache.Keys <= s.cache.Keys;
    forall uid | uid in s.cache
      ensures uid in s'.cache <==> name !in s.users[uid].roles && !HoldsChild(s, name, uid)
      ensures uid in s'.cache ==> (Coherent(s', uid) <==> Dispensable(s.roles, s.users[uid], name))
    {
      EvictedByDeletion(s, name, uid);
      if uid in s'.cache {
        DeletionHonouredIff(s, name, uid);
      }
    }
  }

  /** An entry that survives an operation still has the user and the grants it had. */
  lemma {:induction false} SurvivorKeeps(s: State, maxDepth: nat, op: Op, uid: UserID)
    requires Inv(s) && uid in s.cache && uid in Apply(s, maxDepth, op).state.cache
    ensures var s' := Apply(s, maxDepth, op).state;
      uid in s.users && uid in s'.users && s'.users[uid] == s.users[uid] && s'.cache[uid] == s.cache[uid]
  {
    assert uid in s.users;
    hide Forest, IndexExact, DirectExact, GrantsValid, Validate, Effective;
    if WritesRole(op) {
      var role := RoleWriteShape(s, maxDepth, op);
    } else if op.DeletingRole? {
      if op.name in s.roles {
        EvictedByDeletion(s, op.name, uid);
      }
    }
  }
}
