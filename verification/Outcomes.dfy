/** What each public call reports, and what it leaves in every part of the state. */
module Outcomes {
  import opened Permissions
  import opened Entities
  import opened Ordering
  import opened Inheritance
  import opened EffectiveRoles
  import opened Rbac
  import opened IndexInvariant
  import opened Coherence
  import opened Effects

  // Frames

  /** All stored users but `id` are as they were. */
  ghost predicate OtherUsersKept(s: State, s': State, id: UserID)
  {
    forall uid :: uid != id ==>
      (uid in s'.users <==> uid in s.users) && (uid in s.users ==> s'.users[uid] == s.users[uid])
  }

  /** The entries that go are exactly those of the users in `who`; the others are as they were. */
  ghost predicate Evicted(s: State, s': State, who: set<UserID>)
  {
    forall uid ::
      && (uid in s'.cache <==> uid in s.cache && uid !in who)
      && (uid in s'.cache ==> s'.cache[uid] == s.cache[uid])
  }

  /** The memoised direct roles of `id` are `roles`, absent if there are none; the others are as they were. */
  ghost predicate Memoised(s: State, s': State, id: UserID, roles: seq<RoleID>)
  {
    && (id in s'.direct <==> roles != []) && (roles != [] ==> forall r :: r in s'.direct[id] <==> r in roles)
    && (forall uid :: uid != id ==>
          (uid in s'.direct <==> uid in s.direct) && (uid in s.direct ==> s'.direct[uid] == s.direct[uid]))
  }

  /** In the reverse index `id` now stands under the roles in `under`, and otherwise where it stood unless in `off`. */
  ghost predicate Reindexed(s: State, s': State, id: UserID, under: set<RoleID>, off: set<RoleID>)
  {
    forall uid, r :: uid in HoldersOf(s'.holders, r) <==>
      if uid == id && r in under then true
      else if uid == id && r in off then false
      else uid in HoldersOf(s.holders, r)
  }

  /** A stored role is replaced: nothing else stored changes, and exactly its direct holders lose cached grants. */
  ghost predicate RoleReplaced(s: State, s': State, name: RoleID, role: Role)
  {
    && s'.users == s.users && s'.holders == s.holders && s'.direct == s.direct
    && name in s'.roles && s'.roles[name] == role && s'.roles.Keys == s.roles.Keys
    && (forall n :: n in s.roles && n != name ==> s'.roles[n] == s.roles[n])
    && (forall uid ::
          && (uid in s'.cache <==> uid in s.cache && !Holds(s, uid, name))
          && (uid in s'.cache ==> s'.cache[uid] == s.cache[uid]))
  }

  // Users

  /** A new user is stored with all listed roles and no direct grants, and indexed under each of them. */
  lemma CreatingUserOutcome(s: State, id: UserID, held: seq<RoleID>)
    requires Inv(s)
    ensures var Outcome(s', err) := CreateUser(s, id, held);
      && (err == EmptyName <==> id == "")
      && (err == UserExists <==> id in s.users)
      && (err == Nil <==> id != "" && id !in s.users)
      && (err != Nil ==> s' == s)
      && (err == Nil ==>
            && id in s'.users && s'.users[id].roles == held && s'.users[id].direct == []
            && OtherUsersKept(s, s', id) && s'.roles == s.roles && s'.cache == s.cache
            && Reindexed(s, s', id, Elements(held), {}) && Memoised(s, s', id, held))
  {
    var s' := CreateUser(s, id, held).state;
    hide Forest, GrantsValid, WithHolders;
    if id != "" && id !in s.users {
      forall uid, r
        ensures uid in HoldersOf(s'.holders, r) <==> (uid == id && r in held) || uid in HoldersOf(s.holders, r)
      {
        WithHoldersOf(s.holders, id, held, r);
      }
    }
  }

  /** A deleted user is nowhere any more, whether it was stored or not. */
  lemma DeletingUserOutcome(s: State, id: UserID)
    ensures var Outcome(s', err) := DeleteUser(s, id);
      && (err == Nil <==> id in s.users) && (err == UserNotFound <==> id !in s.users)
      && id !in s'.users && OtherUsersKept(s, s', id) && s'.roles == s.roles
      && Evicted(s, s', {id}) && Memoised(s, s', id, [])
      && forall uid, r :: uid in HoldersOf(s'.holders, r) <==> uid != id && uid in HoldersOf(s.holders, r)
  {
  }

  /** A user's role list changes to `roles`; index, memo and cached grants follow. */
  ghost predicate RolesRewritten(s: State, s': State, id: UserID, roles: seq<RoleID>)
  {
    && id in s.users && id in s'.users && OtherUsersKept(s, s', id) && s'.roles == s.roles
    && s'.users[id].roles == roles && s'.users[id].direct == s.users[id].direct
    && Evicted(s, s', {id}) && Memoised(s, s', id, roles)
  }

  /** An assigned role is held afterwards, behind those held before. */
  lemma AssigningRoleOutcome(s: State, id: UserID, role: RoleID)
    ensures var Outcome(s', err) := AssignRole(s, id, role);
      && (err == RoleNotFound <==> role !in s.roles)
      && (err == UserNotFound <==> role in s.roles && id !in s.users)
      && (err == Nil <==> role in s.roles && id in s.users)
      && (err != Nil || role in s.users[id].roles ==> s' == s)
      && (err == Nil && role !in s.users[id].roles ==>
            RolesRewritten(s, s', id, s.users[id].roles + [role]) && Reindexed(s, s', id, {role}, {}))
      && (err == Nil ==> Elements(s'.users[id].roles) == Elements(s.users[id].roles) + {role})
  {
  }

  /** `at` are the places in `all`, ascending, of everything but `x`; `kept` is what stands there. */
  ghost predicate Places<T(!new)>(all: seq<T>, kept: seq<T>, x: T, at: seq<nat>)
  {
    && |at| == |kept|
    && (forall k :: 0 <= k < |at| ==> at[k] < |all| && all[at[k]] == kept[k] != x)
    && (forall j, k :: 0 <= j < k < |at| ==> at[j] < at[k])
    && (forall i :: 0 <= i < |all| && all[i] != x ==> i in at)
  }

  /** `kept` lists the elements of `all` other than `x`, as often and in the order in which they stand there. */
  ghost predicate IsRest<T(!new)>(all: seq<T>, kept: seq<T>, x: T)
  {
    exists at: seq<nat> :: Places(all, kept, x, at)
  }

  lemma PlacesSkip<T(!new)>(all: seq<T>, kept: seq<T>, x: T, at: seq<nat>)
    requires Places(all, kept, x, at)
    ensures Places(all + [x], kept, x, at)
  {
  }

  lemma PlacesKeep<T(!new)>(all: seq<T>, kept: seq<T>, x: T, at: seq<nat>, y: T)
    requires Places(all, kept, x, at) && y != x
    ensures Places(all + [y], kept + [y], x, at + [|all|])
  {
    var all', at' := all + [y], at + [|all|];
    assert at'[|at|] == |all|;
    forall i | 0 <= i < |all'| && all'[i] != x
      ensures i in at'
    {
      assert i < |all| ==> all[i] == all'[i] && i in at;
    }
  }

  lemma {:induction false} WithoutIsRest<T(!new)>(s: seq<T>, x: T)
    ensures IsRest(s, Without(s, x), x)
  {
    if s == [] {
      assert Places(s, [], x, []);
    } else {
      var n := |s| - 1;
      assert s == s[..n] + [s[n]];
      WithoutAppend(s[..n], x, s[n]);
      WithoutIsRest(s[..n], x);
      var at :| Places(s[..n], Without(s[..n], x), x, at);
      hide Places, Without;
      if s[n] == x {
        PlacesSkip(s[..n], Without(s[..n], x), x, at);
        assert Without(s, x) == Without(s[..n], x);
      } else {
        PlacesKeep(s[..n], Without(s[..n], x), x, at, s[n]);
      }
    }
  }

  lemma RestElements<T(!new)>(s: seq<T>, x: T)
    ensures Elements(Without(s, x)) == Elements(s) - {x}
  {
  }

  lemma UserWritten(s: State, s': State, id: UserID, u: User)
    requires s'.users == s.users[id := u] && s'.cache == s.cache - {id}
    ensures OtherUsersKept(s, s', id) && Evicted(s, s', {id})
  {
  }

  lemma MemoWritten(s: State, s': State, id: UserID, roles: seq<RoleID>)
    requires s'.direct == WithDirect(s.direct, id, roles)
    ensures Memoised(s, s', id, roles)
  {
  }

  lemma HolderRemoved(s: State, s': State, id: UserID, role: RoleID)
    requires s'.holders == WithoutHolder(s.holders, id, role)
    ensures Reindexed(s, s', id, {}, {role})
  {
  }

  lemma RoleRevoked(s: State, id: UserID, role: RoleID)
    requires id in s.users && role in s.roles
    ensures var s' := RevokeRole(s, id, role).state;
      && RolesRewritten(s, s', id, Without(s.users[id].roles, role)) && Reindexed(s, s', id, {}, {role})
      && id in s'.users && s'.users[id].roles == Without(s.users[id].roles, role)
  {
    var s', rest := RevokeRole(s, id, role).state, Without(s.users[id].roles, role);
    hide Without, Memoised, Reindexed, WithDirect, WithoutHolder, OtherUsersKept, Evicted;
    UserWritten(s, s', id, s'.users[id]);
    MemoWritten(s, s', id, rest);
    HolderRemoved(s, s', id, role);
  }

  /** A revoked role is not held afterwards; the others are, in their order. */
  lemma RevokingRoleOutcome(s: State, id: UserID, role: RoleID)
    ensures var Outcome(s', err) := RevokeRole(s, id, role);
      && (err == UserNotFound <==> id !in s.users)
      && (err == RoleNotFound <==> id in s.users && role !in s.roles)
      && (err == Nil <==> id in s.users && role in s.roles)
      && (err != Nil ==> s' == s)
      && (err == Nil ==>
            && RolesRewritten(s, s', id, s'.users[id].roles) && Reindexed(s, s', id, {}, {role})
            && Elements(s'.users[id].roles) == Elements(s.users[id].roles) - {role}
            && IsRest(s.users[id].roles, s'.users[id].roles, role))
  {
    hide IsRest, Without, RolesRewritten, Reindexed, WriteRolesOf, Elements, WithoutHolder;
    if id in s.users && role in s.roles {
      RoleRevoked(s, id, role);
      WithoutIsRest(s.users[id].roles, role);
      RestElements(s.users[id].roles, role);
    }
  }

  /** A user's direct grants change; nothing else stored does. */
  ghost predicate DirectRewritten(s: State, s': State, id: UserID)
  {
    && id in s.users && id in s'.users && OtherUsersKept(s, s', id) && s'.roles == s.roles
    && s'.users[id].roles == s.users[id].roles && s'.holders == s.holders && s'.direct == s.direct
  }

  /** A permission granted directly is granted afterwards, and nothing else is that was not. */
  lemma GrantingDirectOutcome(s: State, id: UserID, p: Permission)
    ensures var Outcome(s', err) := GrantDirect(s, id, p);
      && (err == InvalidPermission <==> !p.Valid())
      && (err == UserNotFound <==> p.Valid() && id !in s.users)
      && (err == Nil <==> p.Valid() && id in s.users)
      && (err != Nil || p in s.users[id].direct ==> s' == s)
      && (err == Nil && p !in s.users[id].direct ==>
            DirectRewritten(s, s', id) && Evicted(s, s', {id}) && s'.users[id].direct == s.users[id].direct + [p])
      && (err == Nil ==>
            && Elements(s'.users[id].direct) == Elements(s.users[id].direct) + {p}
            && Effective(s'.roles, s'.users[id]) == Effective(s.roles, s.users[id]) + {p})
  {
  }

  lemma DirectRevoked(s: State, id: UserID, p: Permission)
    requires p.Valid() && id in s.users
    ensures var s' := RevokeDirect(s, id, p).state;
      && DirectRewritten(s, s', id) && Evicted(s, s', {id})
      && s'.users[id].direct == Without(s.users[id].direct, p)
  {
    hide Without;
  }

  /** A revoked direct grant is gone however often it stood there; what roles grant stays. */
  lemma RevokingDirectOutcome(s: State, id: UserID, p: Permission)
    ensures var Outcome(s', err) := RevokeDirect(s, id, p);
      && (err == InvalidPermission <==> !p.Valid())
      && (err == UserNotFound <==> p.Valid() && id !in s.users)
      && (err == Nil <==> p.Valid() && id in s.users)
      && (err != Nil ==> s' == s)
      && (err == Nil ==>
            && DirectRewritten(s, s', id) && Evicted(s, s', {id})
            && Elements(s'.users[id].direct) == Elements(s.users[id].direct) - {p}
            && IsRest(s.users[id].direct, s'.users[id].direct, p)
            && Effective(s'.roles, s'.users[id]) ==
                 RolePerms(s.roles, Chain(s.roles, s.users[id])) + (Elements(s.users[id].direct) - {p}))
  {
    hide IsRest, Without, Chain, RolePerms, Effective, Evicted, OtherUsersKept, WriteDirectOf, Elements;
    if p.Valid() && id in s.users {
      DirectRevoked(s, id, p);
      WithoutIsRest(s.users[id].direct, p);
      RestElements(s.users[id].direct, p);
      DirectRevocation(s, id, p);
    }
  }

  // Roles

  /** A new role is stored as given, refusals in order; nothing else changes, no cache entry goes. */
  lemma CreatingRoleOutcome(s: State, maxDepth: nat, name: RoleID, ps: seq<Permission>, parent: RoleID)
    requires Inv(s)
    ensures var Outcome(s', err) := CreateRole(s, maxDepth, name, ps, parent);
      var wellFormed := name != "" && forall p :: p in ps ==> p.Valid();
      var verdict := Validate(s.roles, maxDepth, name, parent);
      && (err == EmptyName <==> name == "")
      && (err == InvalidPermission <==> name != "" && exists p :: p in ps && !p.Valid())
      && (wellFormed && verdict != Nil ==> err == verdict)
      && (err == RoleExists <==> wellFormed && verdict == Nil && name in s.roles)
      && (err == Nil <==> wellFormed && verdict == Nil && name !in s.roles)
      && (err != Nil ==> s' == s)
      && (err == Nil ==>
            && s'.users == s.users && s'.cache == s.cache && s'.holders == s.holders && s'.direct == s.direct
            && s'.roles.Keys == s.roles.Keys + {name} && s'.roles[name].permissions == ps
            && s'.roles[name].parent == parent && forall n :: n in s.roles ==> s'.roles[n] == s.roles[n])
  {
    VerdictKinds(s.roles, maxDepth, name, parent);
    hide Validate, Inv;
  }

  lemma VerdictKinds(roles: Roles, maxDepth: nat, name: RoleID, parent: RoleID)
    ensures Validate(roles, maxDepth, name, parent) in {Nil, CyclicInheritance, RoleNotFound, InheritanceDepth}
  {
    WalkKinds(roles, name, parent, 1, maxDepth);
  }

  lemma {:induction false} WalkKinds(roles: Roles, target: RoleID, name: RoleID, depth: nat, maxDepth: nat)
    ensures Walk(roles, target, name, depth, maxDepth) in {Nil, CyclicInheritance, InheritanceDepth}
    decreases maxDepth + 1 - depth
  {
    if name != "" && name != target && depth <= maxDepth && name in roles {
      WalkKinds(roles, target, roles[name].parent, depth + 1, maxDepth);
    }
  }

  /** A stored role is replaced by what is given, refusals in order; exactly its direct holders are evicted. */
  lemma UpdatingRoleOutcome(s: State, maxDepth: nat, name: RoleID, ps: seq<Permission>, parent: RoleID)
    requires Inv(s)
    ensures var Outcome(s', err) := UpdateRole(s, maxDepth, name, ps, parent);
      var wellFormed := name != "" && forall p :: p in ps ==> p.Valid();
      var verdict := Validate(s.roles, maxDepth, name, parent);
      && (err == EmptyName <==> name == "")
      && (err == InvalidPermission <==> name != "" && exists p :: p in ps && !p.Valid())
      && (wellFormed && verdict != Nil ==> err == verdict)
      && (wellFormed && verdict == Nil && name !in s.roles ==> err == RoleNotFound)
      && (err == Nil <==> wellFormed && verdict == Nil && name in s.roles)
      && (err != Nil ==> s' == s)
      && (err == Nil ==> RoleReplaced(s, s', name, Role(ps, parent)))
  {
    VerdictKinds(s.roles, maxDepth, name, parent);
    assert IndexExact(s);
    hide Validate, Inv;
  }

  /** A permission granted to a role is among its permissions afterwards, behind those before. */
  lemma GrantingPermissionOutcome(s: State, name: RoleID, p: Permission)
    requires Inv(s)
    ensures var Outcome(s', err) := GrantPermission(s, name, p);
      && (err == InvalidPermission <==> !p.Valid())
      && (err == RoleNotFound <==> p.Valid() && name !in s.roles)
      && (err == Nil <==> p.Valid() && name in s.roles)
      && (err != Nil || p in s.roles[name].permissions ==> s' == s)
      && (err == Nil && p !in s.roles[name].permissions ==>
            var was := s.roles[name];
            RoleReplaced(s, s', name, Role(was.permissions + [p], was.parent)))
      && (err == Nil ==> Elements(s'.roles[name].permissions) == Elements(s.roles[name].permissions) + {p})
  {
    assert IndexExact(s);
    hide Inv;
  }

  /** A revoked permission is gone from the role however often it stood there; its holders are evicted in any case. */
  lemma RevokingPermissionOutcome(s: State, name: RoleID, p: Permission)
    requires Inv(s)
    ensures var Outcome(s', err) := RevokePermission(s, name, p);
      && (err == InvalidPermission <==> !p.Valid())
      && (err == RoleNotFound <==> p.Valid() && name !in s.roles)
      && (err == Nil <==> p.Valid() && name in s.roles)
      && (err != Nil ==> s' == s)
      && (err == Nil ==>
            && name in s'.roles && s'.roles[name].parent == s.roles[name].parent
            && RoleReplaced(s, s', name, s'.roles[name])
            && Elements(s'.roles[name].permissions) == Elements(s.roles[name].permissions) - {p}
            && IsRest(s.roles[name].permissions, s'.roles[name].permissions, p))
  {
    assert IndexExact(s);
    hide Inv;
    if p.Valid() && name in s.roles {
      hide IsRest, Without;
      WithoutIsRest(s.roles[name].permissions, p);
      RestElements(s.roles[name].permissions, p);
    }
  }

  /** A role gets the given parent and keeps its permissions; the parent it has already changes nothing. */
  lemma SettingParentOutcome(s: State, maxDepth: nat, name: RoleID, parent: RoleID)
    requires Inv(s)
    ensures var Outcome(s', err) := SetParent(s, maxDepth, name, parent);
      var found := name in s.roles && (parent == "" || parent in s.roles);
      var verdict := Validate(s.roles, maxDepth, name, parent);
      && (err == RoleNotFound <==> !found)
      && (found && s.roles[name].parent == parent ==> err == Nil && s' == s)
      && (found && s.roles[name].parent != parent ==> err == verdict)
      && (err != Nil ==> s' == s)
      && (err == Nil && s.roles[name].parent != parent ==>
            RoleReplaced(s, s', name, Role(s.roles[name].permissions, parent)))
      && (err == Nil ==> s'.roles[name].parent == parent)
  {
    assert IndexExact(s) && "" !in s.roles;
    if name in s.roles && (parent == "" || parent in s.roles) {
      ValidateExact(s.roles, maxDepth, name, parent);
    }
    hide Inv, Validate, Reaches;
  }

  /** Beside what `DeleteRoleCascades` says of the store: index and memo no longer know the role, no other changes. */
  lemma DeletingRoleOutcome(s: State, name: RoleID)
    requires Inv(s)
    ensures var Outcome(s', err) := DeleteRole(s, name);
      && (err == RoleNotFound <==> name !in s.roles) && (err == Nil <==> name in s.roles)
      && (err != Nil ==> s' == s)
      && (err == Nil ==>
            && (forall uid, r :: uid in HoldersOf(s'.holders, r) <==> r != name && uid in HoldersOf(s.holders, r))
            && (forall uid :: uid in s.direct && !Holds(s, uid, name) ==>
                  uid in s'.direct && s'.direct[uid] == s.direct[uid])
            && (forall uid :: Holds(s, uid, name) ==>
                  && (uid in s'.direct <==> exists r :: r in s.users[uid].roles && r != name)
                  && (uid in s'.direct ==> s'.direct[uid] == Elements(s.users[uid].roles) - {name}))
            && (forall uid :: uid in s.cache ==>
                  (uid in s'.cache <==> name !in s.users[uid].roles && !HoldsChild(s, name, uid)))
            && (forall uid :: uid in s'.cache ==> uid in s.cache && s'.cache[uid] == s.cache[uid]))
  {
    if name in s.roles {
      assert IndexExact(s) && DirectExact(s);
      forall uid | uid in s.cache
        ensures uid in DeleteRole(s, name).state.cache <==> name !in s.users[uid].roles && !HoldsChild(s, name, uid)
      {
        EvictedByDeletion(s, name, uid);
      }
      DirectAfterDeletion(s, name);
      hide Inv, HoldersOfAny, Children, StripDirect, StripUsers, Detach, HoldsChild;
    }
  }

  lemma DirectAfterDeletion(s: State, name: RoleID)
    requires IndexExact(s) && name in s.roles
    ensures var s' := DeleteRole(s, name).state;
      && (forall uid :: uid in s.direct && !Holds(s, uid, name) ==>
            uid in s'.direct && s'.direct[uid] == s.direct[uid])
      && (forall uid :: Holds(s, uid, name) ==>
            && (uid in s'.direct <==> exists r :: r in s.users[uid].roles && r != name)
            && (uid in s'.direct ==> s'.direct[uid] == Elements(s.users[uid].roles) - {name}))
  {
    var s' := DeleteRole(s, name).state;
    forall uid | Holds(s, uid, name)
      ensures uid in s'.direct <==> exists r :: r in s.users[uid].roles && r != name
      ensures uid in s'.direct ==> s'.direct[uid] == Elements(s.users[uid].roles) - {name}
    {
      assert uid in HoldersOf(s.holders, name);
      var rest := Without(s.users[uid].roles, name);
      assert s'.users[uid].roles == rest;
      assert rest != [] ==> rest[0] in rest;
    }
  }

  // Queries

  /** Asking for roles changes no stored thing and no grants; it at most memoises the user's roles. */
  lemma QueryingRolesOutcome(s: State, id: UserID)
    requires Inv(s)
    ensures var Outcome(s', err) := QueryRoles(s, id);
      && (err == Nil <==> id in s.users) && (err == UserNotFound <==> id !in s.users)
      && s'.users == s.users && s'.roles == s.roles && s'.holders == s.holders && s'.cache == s.cache
      && (err != Nil ==> s' == s)
      && (err == Nil ==> s'.direct == s.direct[id := Elements(s.users[id].roles)])
  {
  }

  /** Asking for grants changes no stored thing; it at most memoises the user's grants and roles. */
  lemma QueryingGrantsOutcome(s: State, id: UserID)
    requires Inv(s)
    ensures var Outcome(s', err) := QueryGrants(s, id);
      && (err == Nil <==> id in s.users) && (err == UserNotFound <==> id !in s.users)
      && s'.users == s.users && s'.roles == s.roles && s'.holders == s.holders
      && (id in s.cache || err != Nil ==> s' == s)
      && (err == Nil ==> id in s'.cache && s'.cache[id] == GrantsOf(s, id))
      && (err == Nil && id !in s.cache ==> s'.direct == s.direct[id := Elements(s.users[id].roles)])
      && (forall uid :: uid != id ==>
            (uid in s'.cache <==> uid in s.cache) && (uid in s.cache ==> s'.cache[uid] == s.cache[uid]))
  {
    hide Effective;
  }
}
