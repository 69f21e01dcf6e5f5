/** What the mutators achieve for a user's grants, and what a second call takes back. */
module Effects {
  import opened Permissions
  import opened Entities
  import opened Ordering
  import opened Inheritance
  import opened EffectiveRoles
  import opened Rbac
  import opened IndexInvariant
  import opened Coherence

  lemma ClosureUnion(roles: Roles, s: set<RoleID>, t: set<RoleID>)
    ensures Closure(roles, s + t) == Closure(roles, s) + Closure(roles, t)
  {
    var cs, ct, cu := Closure(roles, s), Closure(roles, t), Closure(roles, s + t);
    ClosureLeast(roles, s, cu);
    ClosureLeast(roles, t, cu);
    assert ParentsIn(roles, cs + ct) == ParentsIn(roles, cs) + ParentsIn(roles, ct);
    ClosureLeast(roles, s + t, cs + ct);
  }

  /** Assigning a role adds exactly what that role and its ancestors grant. */
  lemma AssignmentGrants(s: State, id: UserID, role: RoleID)
    requires Inv(s) && id in s.users && role in s.roles
    ensures var s' := AssignRole(s, id, role).state;
      Effective(s'.roles, s'.users[id]) ==
        Effective(s.roles, s.users[id]) + RolePerms(s.roles, Closure(s.roles, {role}))
  {
    var s' := AssignRole(s, id, role).state;
    var u, u' := s.users[id], s'.users[id];
    assert Elements(u'.roles) == Elements(u.roles) + {role};
    ClosureUnion(s.roles, Elements(u.roles), {role});
    assert RolePerms(s.roles, Chain(s.roles, u) + Closure(s.roles, {role})) ==
      RolePerms(s.roles, Chain(s.roles, u)) + RolePerms(s.roles, Closure(s.roles, {role}));
  }

  /** A permission granted to a role reaches exactly the users with that role in their chain. */
  lemma RoleGrantReaches(s: State, name: RoleID, p: Permission, id: UserID)
    requires Inv(s) && name in s.roles && p.Valid() && id in s.users
    ensures var s' := GrantPermission(s, name, p).state;
      Effective(s'.roles, s'.users[id]) ==
        Effective(s.roles, s.users[id]) + (if name in Chain(s.roles, s.users[id]) then {p} else {})
  {
    var u := s.users[id];
    var c := Chain(s.roles, u);
    var role := s.roles[name];
    if p in role.permissions {
      assert name in c ==> p in RolePerms(s.roles, c);
    } else {
      var role' := role.(permissions := role.permissions + [p]);
      var roles' := s.roles[name := role'];
      SameParentSameChain(s, name, role', u);
      PermsAfterGrant(s.roles, name, p, c);
    }
  }

  lemma PermsAfterGrant(roles: Roles, name: RoleID, p: Permission, c: set<RoleID>)
    requires name in roles
    ensures RolePerms(roles[name := roles[name].(permissions := roles[name].permissions + [p])], c) ==
      RolePerms(roles, c) + (if name in c then {p} else {})
  {
    var roles' := roles[name := roles[name].(permissions := roles[name].permissions + [p])];
    assert roles'[name].permissions == roles[name].permissions + [p];
    forall q
      ensures q in RolePerms(roles', c) <==> q in RolePerms(roles, c) || (name in c && q == p)
    {
      if q in RolePerms(roles, c) {
        var n :| n in c && n in roles && q in roles[n].permissions;
        assert n in roles' && q in roles'[n].permissions;
      }
      if name in c && q == p {
        assert q in roles'[name].permissions;
      }
    }
  }

  /** After revoking a direct grant the user has the permission only if a role still grants it. */
  lemma DirectRevocation(s: State, id: UserID, p: Permission)
    requires id in s.users && p.Valid()
    ensures var s' := RevokeDirect(s, id, p).state;
      Effective(s'.roles, s'.users[id]) ==
        RolePerms(s.roles, Chain(s.roles, s.users[id])) + (Elements(s.users[id].direct) - {p})
  {
  }

  // Taking back

  lemma {:induction false} WithoutAppended<T(!new)>(s: seq<T>, x: T)
    requires x !in s
    ensures Without(s + [x], x) == s
  {
    WithoutAppend(s, x, x);
    WithoutAbsent(s, x);
  }

  lemma AssignThenRevoke(s: State, id: UserID, role: RoleID)
    requires Inv(s) && id in s.users && role in s.roles && role !in s.users[id].roles
    ensures var s' := RevokeRole(AssignRole(s, id, role).state, id, role).state;
      s'.users == s.users && s'.roles == s.roles && forall r :: HoldersOf(s'.holders, r) == HoldersOf(s.holders, r)
  {
    var a := AssignRole(s, id, role).state;
    var s' := RevokeRole(a, id, role).state;
    WithoutAppended(s.users[id].roles, role);
    assert s'.users[id] == s.users[id];
    assert id in HoldersOf(s.holders, role) <==> Holds(s, id, role);
  }

  lemma GrantThenRevoke(s: State, name: RoleID, p: Permission)
    requires name in s.roles && p.Valid() && p !in s.roles[name].permissions
    ensures RevokePermission(GrantPermission(s, name, p).state, name, p).state.roles == s.roles
  {
    WithoutAppended(s.roles[name].permissions, p);
    assert RevokePermission(GrantPermission(s, name, p).state, name, p).state.roles[name] == s.roles[name];
  }

  lemma GrantThenRevokeDirect(s: State, id: UserID, p: Permission)
    requires id in s.users && p.Valid() && p !in s.users[id].direct
    ensures RevokeDirect(GrantDirect(s, id, p).state, id, p).state.users == s.users
  {
    WithoutAppended(s.users[id].direct, p);
    assert RevokeDirect(GrantDirect(s, id, p).state, id, p).state.users[id] == s.users[id];
  }

  /** Deleting a user just created restores store, caches and index. */
  lemma CreateThenDeleteUser(s: State, id: UserID, roles: seq<RoleID>)
    requires Inv(s) && id != "" && id !in s.users
    ensures var s' := DeleteUser(CreateUser(s, id, roles).state, id).state;
      && s'.users == s.users && s'.roles == s.roles && s'.cache == s.cache && s'.direct == s.direct
      && forall r :: HoldersOf(s'.holders, r) == HoldersOf(s.holders, r)
  {
    var a := CreateUser(s, id, roles).state;
    var s' := DeleteUser(a, id).state;
    forall r
      ensures HoldersOf(s'.holders, r) == HoldersOf(s.holders, r)
    {
      WithHoldersOf(s.holders, id, roles, r);
      assert id in HoldersOf(s.holders, r) <==> Holds(s, id, r);
    }
    assert id !in s.direct && id !in s.cache;
  }

  /** Deleting a role just created, before anyone lists it, restores roles and users. */
  lemma CreateThenDeleteRole(s: State, maxDepth: nat, name: RoleID, ps: seq<Permission>, parent: RoleID)
    requires Inv(s) && CreateRole(s, maxDepth, name, ps, parent).err == Nil
    requires forall id :: id in s.users ==> name !in s.users[id].roles
    ensures var s' := DeleteRole(CreateRole(s, maxDepth, name, ps, parent).state, name).state;
      s'.roles == s.roles && s'.users == s.users
  {
    var a := CreateRole(s, maxDepth, name, ps, parent).state;
    assert Detach(a.roles, name) == s.roles;
    forall id | id in s.users
      ensures id !in HoldersOf(a.holders, name)
    {
      assert id in HoldersOf(s.holders, name) <==> Holds(s, id, name);
    }
    assert StripUsers(a.users, HoldersOf(a.holders, name), name) == s.users;
  }

  /** A role moved under another parent can always be moved back, as long as the cap held before. */
  lemma ReparentUndone(s: State, maxDepth: nat, name: RoleID, parent: RoleID)
    requires Inv(s) && WithinCap(s.roles, maxDepth) && name in s.roles
    requires SetParent(s, maxDepth, name, parent).err == Nil
    ensures var back := SetParent(SetParent(s, maxDepth, name, parent).state, maxDepth, name, s.roles[name].parent);
      back.err == Nil && back.state.roles == s.roles
  {
    var was := s.roles[name].parent;
    var a := SetParent(s, maxDepth, name, parent).state;
    if parent != was {
      var moved := s.roles[name].(parent := parent);
      assert a.roles == s.roles[name := moved];
      if was != "" {
        forall k: nat
          ensures Up(s.roles, was, k) != name
        {
          EndingMeansNoLap(s.roles, name, k + 1);
        }
        UpUnaffected(s.roles, name, moved, was, maxDepth);
        forall k: nat
          ensures Up(a.roles, was, k) != name
        {
          UpUnaffected(s.roles, name, moved, was, k);
        }
        assert Up(s.roles, name, maxDepth + 1) == Up(s.roles, was, maxDepth);
      }
      ValidateExact(a.roles, maxDepth, name, was);
      assert a.roles[name := s.roles[name]] == s.roles;
    }
  }
}
