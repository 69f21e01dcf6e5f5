/** The enforcer object: fetched copies edited in place, written back, index repaired, caches evicted. */
module Enforcers {
  import opened Permissions
  import opened Entities
  import opened Ordering
  import opened Slices
  import opened MemoryStores
  import StoreEdits
  import opened GrantedSets
  import Inheritance
  import opened EffectiveRoles
  import Rbac
  import IndexInvariant
  import Coherence
  import Deletion
  import Histories

  /** `DefaultMaxDepth`. */
  const DEFAULT_MAX_DEPTH: nat := 32

  /** The effect of `WithMaxDepth`: non-positive depths leave the default. */
  function Cap(depth: int): nat
  {
    if depth > 0 then depth else DEFAULT_MAX_DEPTH
  }

  datatype CheckResult =
    | Allowed
    | Failed(err: Error)
    | Denied(id: UserID, user: UserRecord, required: Permission, roles: seq<RoleID>)

  ghost predicate Ascending(names: seq<RoleID>)
  {
    StrictlySortedBy(names, (n: RoleID) => n)
  }

  method AllPermissionsValid(ps: seq<Permission>) returns (ok: bool)
    ensures ok <==> Rbac.AllValid(ps)
  {
    for i := 0 to |ps|
      invariant Rbac.AllValid(ps[..i])
    {
      if !ps[i].Valid() {
        return false;
      }
    }
    return true;
  }

  lemma ReadyToDelete(s: Rbac.State, name: RoleID)
    requires IndexInvariant.Inv(s) && name in s.roles
    ensures name != "" && name !in Rbac.Children(s.roles, name)
    ensures Rbac.HoldersOf(s.holders, name) <= s.users.Keys
  {
    Deletion.NotItsOwnChild(s.roles, name);
    forall uid | uid in Rbac.HoldersOf(s.holders, name)
      ensures uid in s.users
    {
      assert IndexInvariant.Holds(s, uid, name);
    }
  }

  lemma NoRolePerms(roles: Roles)
    ensures RolePerms(roles, Elements([])) == {}
  {
  }

  lemma PermsOfPrefix(roles: Roles, names: seq<RoleID>, i: nat)
    requires i < |names|
    ensures RolePerms(roles, Elements(names[..i + 1])) == RolePerms(roles, Elements(names[..i]))
      + (if names[i] in roles then Elements(roles[names[i]].permissions) else {})
  {
    assert names[..i + 1] == names[..i] + [names[i]];
    assert Elements(names[..i + 1]) == Elements(names[..i]) + {names[i]};
  }

  ghost function NamesOf(rs: seq<RoleRecord>): set<RoleID>
  {
    set r | r in rs :: r.name
  }

  lemma NextName(roles: seq<RoleRecord>, i: nat)
    requires StrictlySortedBy(roles, (r: RoleRecord) => r.name) && i < |roles|
    ensures roles[i].name !in NamesOf(roles[..i])
    ensures NamesOf(roles[..i + 1]) == NamesOf(roles[..i]) + {roles[i].name}
  {
    assert roles[..i + 1] == roles[..i] + [roles[i]];
    LessIrreflexive(roles[i].name);
  }

  lemma NoNames()
    ensures NamesOf([]) == {}
  {
  }

  lemma QueueFits(queue: seq<RoleID>, goal: set<RoleID>)
    requires Distinct(queue) && Elements(queue) <= goal
    ensures |queue| <= |goal|
    ensures forall n :: n in queue ==> n in goal
  {
    DistinctSize(queue);
    SubsetSize(Elements(queue), goal);
    assert forall n :: n in queue ==> n in Elements(queue);
  }

  lemma ParentsOfPrefix(roles: Roles, queue: seq<RoleID>, i: nat)
    requires i < |queue|
    ensures ParentsIn(roles, Elements(queue[..i + 1])) ==
      ParentsIn(roles, Elements(queue[..i])) + ParentsIn(roles, {queue[i]})
  {
    assert queue[..i + 1] == queue[..i] + [queue[i]];
    assert Elements(queue[..i + 1]) == Elements(queue[..i]) + {queue[i]};
  }

  class Enforcer {
    const store: MemoryStore
    const maxDepth: nat
    var cache: map<UserID, GrantedSet>
    var roleHolders: Rbac.Holders
    var directRoles: Rbac.DirectRoles

    /** What the objects in `cache` grant. */
    ghost var grants: Rbac.Grants

    ghost predicate CacheOk()
      reads `cache, `grants, cache.Values
    {
      && cache.Keys == grants.Keys
      && (forall uid :: uid in cache ==> cache[uid].Valid() && cache[uid].Perms() == grants[uid])
    }

    ghost predicate Valid()
      reads this, store, store.Owned, cache.Values
    {
      store.Valid() && this !in store.Owned && CacheOk()
    }

    ghost function View(): Rbac.State
      reads this, store
    {
      Rbac.State(store.Users, store.Roles, grants, roleHolders, directRoles)
    }

    /** `New`, with the argument of `WithMaxDepth`. */
    constructor (depth: int)
      ensures Valid() && View() == Rbac.EMPTY
      ensures fresh(store) && fresh(store.Owned)
      ensures maxDepth == Cap(depth) == if depth > 0 then depth else 32
    {
      store := new MemoryStore();
      maxDepth := Cap(depth);
      cache, grants := map[], map[];
      roleHolders, directRoles := map[], map[];
    }

    // Cache and index maintenance

    method InvalidateUser(id: UserID)
      requires CacheOk()
      modifies this`cache, this`grants
      ensures CacheOk() && grants == old(grants) - {id}
    {
      cache := cache - {id};
      grants := grants - {id};
    }

    method InvalidateRoleHolders(role: RoleID)
      requires CacheOk()
      modifies this`cache, this`grants
      ensures CacheOk() && grants == old(grants) - Rbac.HoldersOf(roleHolders, role)
    {
      var holders := if role in roleHolders then roleHolders[role] else {};
      InvalidateUsers(holders);
    }

    method InvalidateUsers(uids: set<UserID>)
      requires CacheOk()
      modifies this`cache, this`grants
      ensures CacheOk() && grants == old(grants) - uids
    {
      var rest := uids;
      while rest != {}
        invariant rest <= uids && CacheOk()
        invariant grants == old(grants) - (uids - rest)
      {
        var uid :| uid in rest;
        InvalidateUser(uid);
        assert uids - (rest - {uid}) == (uids - rest) + {uid};
        rest := rest - {uid};
      }
      assert uids - rest == uids;
    }

    method GrantHolder(uid: UserID, role: RoleID)
      modifies this`roleHolders
      ensures roleHolders == Rbac.WithHolder(old(roleHolders), uid, role)
    {
      if role !in roleHolders {
        roleHolders := roleHolders[role := {}];
      }
      roleHolders := roleHolders[role := roleHolders[role] + {uid}];
    }

    method GrantHolders(uid: UserID, roles: seq<RoleID>)
      modifies this`roleHolders
      ensures roleHolders == Rbac.WithHolders(old(roleHolders), uid, roles)
    {
      for i := 0 to |roles|
        invariant roleHolders == Rbac.WithHolders(old(roleHolders), uid, roles[..i])
      {
        GrantHolder(uid, roles[i]);
        assert roles[..i + 1][..i] == roles[..i];
      }
      assert roles[..|roles|] == roles;
    }

    method RevokeHolder(uid: UserID, role: RoleID)
      modifies this`roleHolders
      ensures roleHolders == Rbac.WithoutHolder(old(roleHolders), uid, role)
    {
      if role in roleHolders {
        roleHolders := roleHolders[role := roleHolders[role] - {uid}];
      }
    }

    method SetDirectRoles(uid: UserID, roles: seq<RoleID>)
      modifies this`directRoles
      ensures directRoles == Rbac.WithDirect(old(directRoles), uid, roles)
    {
      if |roles| == 0 {
        directRoles := directRoles - {uid};
      } else {
        var fresh' := ToSet(roles);
        directRoles := directRoles[uid := fresh'];
      }
    }

    /** `GetRole` where only existence matters. */
    method FindRole(name: RoleID) returns (err: Error)
      requires store.Valid()
      ensures err == if name in store.Roles then Nil else RoleNotFound
    {
      hide MemoryStore.Valid;
      var r;
      r, err := store.GetRole(name);
    }

    /** What follows every change of a user's role list: the direct roles anew, the cached grants out. */
    method RefreshUser(uid: UserID, roles: seq<RoleID>)
      requires CacheOk()
      modifies this`cache, this`grants, this`directRoles
      ensures CacheOk() && grants == old(grants) - {uid}
      ensures directRoles == Rbac.WithDirect(old(directRoles), uid, roles)
    {
      SetDirectRoles(uid, roles);
      InvalidateUser(uid);
    }

    static method ToSet(roles: seq<RoleID>) returns (s: set<RoleID>)
      ensures s == Elements(roles)
    {
      s := {};
      for i := 0 to |roles|
        invariant s == Elements(roles[..i])
      {
        assert roles[..i + 1] == roles[..i] + [roles[i]];
        s := s + {roles[i]};
      }
      assert roles[..|roles|] == roles;
    }

    // Resolution and validation, over any contents of the store

    static method DropRepeats(direct: seq<RoleID>) returns (queue: seq<RoleID>, seen: set<RoleID>)
      ensures Distinct(queue) && seen == Elements(queue) == Elements(direct)
    {
      seen, queue := {}, [];
      for k := 0 to |direct|
        invariant Distinct(queue) && seen == Elements(queue) == Elements(direct[..k])
      {
        assert direct[..k + 1] == direct[..k] + [direct[k]];
        if direct[k] !in seen {
          seen := seen + {direct[k]};
          queue := queue + [direct[k]];
        }
      }
      assert direct[..|direct|] == direct;
    }

    /** One turn of the worklist: the name's parent joins the queue unless it was seen. */
    method Climb(name: RoleID, queue: seq<RoleID>, seen: set<RoleID>)
      returns (queue': seq<RoleID>, seen': set<RoleID>)
      requires store.Valid() && Distinct(queue) && seen == Elements(queue)
      ensures Distinct(queue') && seen' == Elements(queue') == seen + ParentsIn(store.Roles, {name})
      ensures queue <= queue'
    {
      queue', seen' := queue, seen;
      var role, err := store.GetRole(name);
      if err == Nil && role.parent != "" {
        assert ParentsIn(store.Roles, {name}) == {role.parent};
        if role.parent !in seen {
          seen' := seen + {role.parent};
          queue' := queue + [role.parent];
        }
      } else {
        assert ParentsIn(store.Roles, {name}) == {};
      }
    }

    /** The effective chain, each name once, ascending; ends on cyclic and dangling parents too. */
    method ResolveRoles(u: UserRecord) returns (queue: seq<RoleID>)
      requires store.Valid() && u.Ok()
      ensures Elements(queue) == Chain(store.Roles, u.Value())
      ensures Ascending(queue)
    {
      hide MemoryStore.Valid;
      var direct := u.roles.data[..u.roles.len];
      ghost var roles := store.Roles;
      ghost var goal := Closure(roles, Elements(direct));
      var seen: set<RoleID>;
      queue, seen := DropRepeats(direct);
      var i := 0;
      while i < |queue|
        invariant i <= |queue| && Distinct(queue) && seen == Elements(queue)
        invariant Elements(direct) <= seen <= goal
        invariant ParentsIn(roles, Elements(queue[..i])) <= seen
        decreases |goal| - i
      {
        QueueFits(queue, goal);
        ParentsOfPrefix(roles, queue, i);
        assert ParentsIn(roles, {queue[i]}) <= ParentsIn(roles, goal);
        ghost var before := queue;
        queue, seen := Climb(queue[i], queue, seen);
        assert queue[..i + 1] == before[..i + 1];
        i := i + 1;
      }
      assert queue[..i] == queue;
      ClosureLeast(roles, Elements(direct), seen);
      ghost var found := queue;
      queue := SortBy(queue, (n: RoleID) => n);
      Rearranged(found, queue);
      SortedIsStrict(queue, (n: RoleID) => n);
    }

    method ValidateInheritance(r: RoleRecord) returns (err: Error)
      requires store.Valid()
      ensures err == Inheritance.Validate(store.Roles, maxDepth, r.name, r.parent)
    {
      if r.parent == "" {
        return Nil;
      }
      if r.parent == r.name {
        return CyclicInheritance;
      }
      var parent, missing := store.GetRole(r.parent);
      if missing != Nil {
        return missing;
      }
      var name, depth := r.parent, 1;
      while name != ""
        invariant 1 <= depth <= maxDepth + 1
        invariant Inheritance.Walk(store.Roles, r.name, name, depth, maxDepth)
               == Inheritance.Walk(store.Roles, r.name, r.parent, 1, maxDepth)
        decreases maxDepth + 1 - depth
      {
        if name == r.name {
          return CyclicInheritance;
        }
        if depth > maxDepth {
          return InheritanceDepth;
        }
        var role, absent := store.GetRole(name);
        if absent != Nil {
          break;
        }
        name := role.parent;
        depth := depth + 1;
      }
      return Nil;
    }

    // Users

    method CreateUser(id: UserID, roles: seq<RoleID>) returns (err: Error)
      requires Valid()
      modifies this, store
      ensures Valid() && fresh(store.Owned - old(store.Owned))
      ensures Rbac.Outcome(View(), err) == Rbac.CreateUser(old(View()), id, roles)
    {
      hide MemoryStore.Valid, GrantedSet.Valid, GrantedSet.Perms, CacheOk;
      hide Rbac.WithHolders, Rbac.WithDirect;
      if id == "" {
        return EmptyName;
      }
      var held := FromSeq(roles);
      var none := FromSeq([]);
      var u := new UserRecord(id, held, none);
      err := store.CreateUser(u);
      if err != Nil {
        return err;
      }
      GrantHolders(id, roles);
      SetDirectRoles(id, roles);
    }

    method DeleteUser(id: UserID) returns (err: Error)
      requires Valid()
      modifies this, store
      ensures Valid() && fresh(store.Owned - old(store.Owned))
      ensures Rbac.Outcome(View(), err) == Rbac.DeleteUser(old(View()), id)
    {
      hide MemoryStore.Valid, GrantedSet.Valid, GrantedSet.Perms, CacheOk;
      InvalidateUser(id);
      directRoles := directRoles - {id};
      RevokeEverywhere(id);
      err := store.DeleteUser(id);
    }

    method RevokeEverywhere(id: UserID)
      modifies this`roleHolders
      ensures roleHolders == map r | r in old(roleHolders) :: old(roleHolders)[r] - {id}
    {
      var rest := roleHolders.Keys;
      while rest != {}
        invariant rest <= old(roleHolders).Keys == roleHolders.Keys
        invariant forall r :: r in roleHolders ==>
          roleHolders[r] == if r in rest then old(roleHolders)[r] else old(roleHolders)[r] - {id}
      {
        var r :| r in rest;
        roleHolders := roleHolders[r := roleHolders[r] - {id}];
        rest := rest - {r};
      }
    }

    method AssignRole(id: UserID, role: RoleID) returns (err: Error)
      requires Valid()
      modifies this, store
      ensures Valid() && fresh(store.Owned - old(store.Owned))
      ensures Rbac.Outcome(View(), err) == Rbac.AssignRole(old(View()), id, role)
    {
      hide MemoryStore.Valid, GrantedSet.Valid, GrantedSet.Perms, CacheOk;
      hide Rbac.WithHolder, Rbac.WithDirect, Without;
      var missing := FindRole(role);
      if missing != Nil {
        return missing;
      }
      var u, unknown := store.GetUser(id);
      if unknown != Nil {
        return unknown;
      }
      var held := Contains(u.roles, role);
      if held {
        return Nil;
      }
      var roles := StoreEdits.AppendRole(store, u, role);
      GrantHolder(id, role);
      RefreshUser(id, roles);
      return Nil;
    }

    method RevokeRole(id: UserID, role: RoleID) returns (err: Error)
      requires Valid()
      modifies this, store
      ensures Valid() && fresh(store.Owned - old(store.Owned))
      ensures Rbac.Outcome(View(), err) == Rbac.RevokeRole(old(View()), id, role)
    {
      hide MemoryStore.Valid, GrantedSet.Valid, GrantedSet.Perms, CacheOk;
      hide Rbac.WithoutHolder, Rbac.WithDirect, Without;
      var u, unknown := store.GetUser(id);
      if unknown != Nil {
        return unknown;
      }
      var missing := FindRole(role);
      if missing != Nil {
        return missing;
      }
      var kept := StoreEdits.RemoveRole(store, u, role);
      RevokeHolder(id, role);
      RefreshUser(id, kept);
      return Nil;
    }

    method GrantDirectPermission(id: UserID, p: Permission) returns (err: Error)
      requires Valid()
      modifies this, store
      ensures Valid() && fresh(store.Owned - old(store.Owned))
      ensures Rbac.Outcome(View(), err) == Rbac.GrantDirect(old(View()), id, p)
    {
      hide MemoryStore.Valid, GrantedSet.Valid, GrantedSet.Perms, CacheOk;
      if !p.Valid() {
        return InvalidPermission;
      }
      var u, unknown := store.GetUser(id);
      if unknown != Nil {
        return unknown;
      }
      var held := Contains(u.direct, p);
      if held {
        return Nil;
      }
      StoreEdits.AppendDirect(store, u, p);
      InvalidateUser(id);
      return Nil;
    }

    method RevokeDirectPermission(id: UserID, p: Permission) returns (err: Error)
      requires Valid()
      modifies this, store
      ensures Valid() && fresh(store.Owned - old(store.Owned))
      ensures Rbac.Outcome(View(), err) == Rbac.RevokeDirect(old(View()), id, p)
    {
      hide MemoryStore.Valid, GrantedSet.Valid, GrantedSet.Perms, CacheOk;
      if !p.Valid() {
        return InvalidPermission;
      }
      var u, unknown := store.GetUser(id);
      if unknown != Nil {
        return unknown;
      }
      StoreEdits.RemoveDirect(store, u, p);
      InvalidateUser(id);
      return Nil;
    }

    // Roles

    method CreateRole(name: RoleID, permissions: seq<Permission>, parent: RoleID) returns (err: Error)
      requires Valid()
      modifies this, store
      ensures Valid() && fresh(store.Owned - old(store.Owned))
      ensures Rbac.Outcome(View(), err) == Rbac.CreateRole(old(View()), maxDepth, name, permissions, parent)
    {
      hide MemoryStore.Valid, GrantedSet.Valid, GrantedSet.Perms, CacheOk;
      if name == "" {
        return EmptyName;
      }
      var ok := AllPermissionsValid(permissions);
      if !ok {
        return InvalidPermission;
      }
      var ps := FromSeq(permissions);
      var r := new RoleRecord(name, ps, parent);
      err := ValidateInheritance(r);
      if err != Nil {
        return err;
      }
      err := store.CreateRole(r);
    }

    method UpdateRole(name: RoleID, permissions: seq<Permission>, parent: RoleID) returns (err: Error)
      requires Valid()
      modifies this, store
      ensures Valid() && fresh(store.Owned - old(store.Owned))
      ensures Rbac.Outcome(View(), err) == Rbac.UpdateRole(old(View()), maxDepth, name, permissions, parent)
    {
      hide MemoryStore.Valid, GrantedSet.Valid, GrantedSet.Perms, CacheOk;
      if name == "" {
        return EmptyName;
      }
      var ok := AllPermissionsValid(permissions);
      if !ok {
        return InvalidPermission;
      }
      var ps := FromSeq(permissions);
      var r := new RoleRecord(name, ps, parent);
      err := ValidateInheritance(r);
      if err != Nil {
        return err;
      }
      err := store.UpdateRole(r);
      if err != Nil {
        return err;
      }
      InvalidateRoleHolders(name);
    }

    method GrantPermission(role: RoleID, p: Permission) returns (err: Error)
      requires Valid()
      modifies this, store
      ensures Valid() && fresh(store.Owned - old(store.Owned))
      ensures Rbac.Outcome(View(), err) == Rbac.GrantPermission(old(View()), role, p)
    {
      hide MemoryStore.Valid, GrantedSet.Valid, GrantedSet.Perms, CacheOk;
      if !p.Valid() {
        return InvalidPermission;
      }
      var r, missing := store.GetRole(role);
      if missing != Nil {
        return missing;
      }
      var held := Contains(r.permissions, p);
      if held {
        return Nil;
      }
      StoreEdits.AppendPermission(store, r, p);
      InvalidateRoleHolders(role);
      return Nil;
    }

    method RevokePermission(role: RoleID, p: Permission) returns (err: Error)
      requires Valid()
      modifies this, store
      ensures Valid() && fresh(store.Owned - old(store.Owned))
      ensures Rbac.Outcome(View(), err) == Rbac.RevokePermission(old(View()), role, p)
    {
      hide MemoryStore.Valid, GrantedSet.Valid, GrantedSet.Perms, CacheOk;
      if !p.Valid() {
        return InvalidPermission;
      }
      var r, missing := store.GetRole(role);
      if missing != Nil {
        return missing;
      }
      StoreEdits.RemovePermission(store, r, p);
      InvalidateRoleHolders(role);
      return Nil;
    }

    method SetParent(role: RoleID, parent: RoleID) returns (err: Error)
      requires Valid()
      modifies this, store
      ensures Valid() && fresh(store.Owned - old(store.Owned))
      ensures Rbac.Outcome(View(), err) == Rbac.SetParent(old(View()), maxDepth, role, parent)
    {
      hide MemoryStore.Valid, GrantedSet.Valid, GrantedSet.Perms, CacheOk;
      var r, missing := store.GetRole(role);
      if missing != Nil {
        return missing;
      }
      var above, absent := store.GetRole(parent);
      if parent != "" && absent != Nil {
        return absent;
      }
      if r.parent == parent {
        return Nil;
      }
      r.parent := parent;
      err := ValidateInheritance(r);
      if err != Nil {
        return err;
      }
      err := store.UpdateRole(r);
      InvalidateRoleHolders(role);
    }

    /** One turn of the first loop of `DeleteRole`: a holder loses the role. */
    method DetachHolder(uid: UserID, name: RoleID)
      requires store.Valid() && this !in store.Owned && uid in store.Users
      modifies `roleHolders, `directRoles, store
      ensures store.Valid() && fresh(store.Owned - old(store.Owned))
      ensures var u := old(store.Users)[uid].(roles := Without(old(store.Users)[uid].roles, name));
        && store.Users == old(store.Users)[uid := u] && store.Roles == old(store.Roles)
        && roleHolders == Rbac.WithoutHolder(old(roleHolders), uid, name)
        && directRoles == Rbac.WithDirect(old(directRoles), uid, u.roles)
    {
      hide MemoryStore.Valid;
      var u, unknown := store.GetUser(uid);
      var kept := StoreEdits.RemoveRoleIfHeld(store, u, name);
      RevokeHolder(uid, name);
      SetDirectRoles(uid, kept);
    }

    method DetachHolders(name: RoleID, held: set<UserID>)
      requires store.Valid() && this !in store.Owned && held <= store.Users.Keys
      modifies `roleHolders, `directRoles, store
      ensures store.Valid() && fresh(store.Owned - old(store.Owned))
      ensures store.Users == Rbac.StripUsers(old(store.Users), held, name) && store.Roles == old(store.Roles)
      ensures roleHolders - {name} == old(roleHolders) - {name}
      ensures directRoles == Rbac.StripDirect(old(directRoles), store.Users, held)
    {
      hide MemoryStore.Valid;
      ghost var goal := Rbac.StripUsers(store.Users, held, name);
      ghost var users, direct := store.Users, directRoles;
      var rest := held;
      Deletion.StripNothing(direct, goal, name);
      Deletion.StripNothing(direct, users, name);
      while rest != {}
        invariant rest <= held
        invariant store.Valid() && fresh(store.Owned - old(store.Owned)) && store.Roles == old(store.Roles)
        invariant store.Users == Rbac.StripUsers(users, held - rest, name)
        invariant roleHolders - {name} == old(roleHolders) - {name}
        invariant directRoles == Rbac.StripDirect(direct, goal, held - rest)
      {
        var uid :| uid in rest;
        Deletion.StripUsersStep(users, held - rest, name, uid);
        Deletion.StripDirectStep(direct, goal, held - rest, uid);
        assert held - (rest - {uid}) == (held - rest) + {uid};
        DetachHolder(uid, name);
        rest := rest - {uid};
      }
      assert held - rest == held;
    }

    /** One turn of the second loop of `DeleteRole`: a child becomes a root, its holders are evicted. */
    method DetachChild(r: RoleRecord, name: RoleID)
      requires Valid() && StoreEdits.PrivateRole(store, r) && r.Value() == store.Roles[r.name]
      modifies `cache, `grants, store, r`parent
      ensures Valid() && fresh(store.Owned - old(store.Owned)) && store.Users == old(store.Users)
      ensures old(r.parent) == name ==>
        && store.Roles == old(store.Roles)[r.name := old(r.Value()).(parent := "")]
        && grants == old(grants) - Rbac.HoldersOf(roleHolders, r.name)
      ensures old(r.parent) != name ==> store.Roles == old(store.Roles) && grants == old(grants)
    {
      hide MemoryStore.Valid, GrantedSet.Valid, GrantedSet.Perms, CacheOk;
      if r.parent == name {
        StoreEdits.Reparent(store, r, "");
        InvalidateRoleHolders(r.name);
      }
    }

    ghost predicate Listed(r: RoleRecord, before: Roles)
      reads store, r, r.permissions.data
    {
      StoreEdits.PrivateRole(store, r) && r.name in before && r.Value() == before[r.name]
    }

    ghost predicate AllListed(roles: seq<RoleRecord>, before: Roles)
      reads store, roles, set r | r in roles :: r.permissions.data
    {
      Distinct(roles) && forall j :: 0 <= j < |roles| ==> Listed(roles[j], before)
    }

    /** The child's listing is done with; the records behind it are as listed. */
    method DetachFirst(roles: seq<RoleRecord>, name: RoleID, ghost before: Roles)
      requires Valid() && roles != [] && AllListed(roles, before) && roles[0].Value() == store.Roles[roles[0].name]
      modifies `cache, `grants, store, roles[0]
      ensures Valid() && fresh(store.Owned - old(store.Owned)) && store.Users == old(store.Users)
      ensures AllListed(roles[1..], before)
      ensures var r := roles[0];
        if before[r.name].parent == name then
          && store.Roles == old(store.Roles)[r.name := before[r.name].(parent := "")]
          && grants == old(grants) - Rbac.HoldersOf(roleHolders, r.name)
        else store.Roles == old(store.Roles) && grants == old(grants)
    {
      hide MemoryStore.Valid, GrantedSet.Valid, GrantedSet.Perms, CacheOk;
      var r := roles[0];
      assert Listed(r, before);
      DetachChild(r, name);
      forall j | 1 <= j < |roles|
        ensures Listed(roles[j], before)
      {
        assert old(Listed(roles[j], before));
      }
    }

    method ListForEdit() returns (roles: seq<RoleRecord>)
      requires store.Valid()
      ensures AllListed(roles, store.Roles) && NamesOf(roles) == store.Roles.Keys
      ensures StrictlySortedBy(roles, (r: RoleRecord) => r.name)
      ensures forall r :: r in roles ==> fresh(r)
    {
      hide MemoryStore.Valid;
      roles := store.ListRoles();
      assert forall j :: 0 <= j < |roles| ==> roles[j] in roles && Listed(roles[j], store.Roles);
    }

    method DetachChildren(name: RoleID)
      requires Valid() && name != ""
      modifies `cache, `grants, store
      ensures Valid() && fresh(store.Owned - old(store.Owned))
      ensures store.Roles == Deletion.Orphaned(old(store.Roles), name, old(store.Roles).Keys)
      ensures store.Users == old(store.Users)
      ensures grants == old(grants) - Rbac.HoldersOfAny(roleHolders, Rbac.Children(old(store.Roles), name))
    {
      hide MemoryStore.Valid, GrantedSet.Valid, GrantedSet.Perms, CacheOk;
      hide Rbac.HoldersOfAny, Rbac.Children, Deletion.Orphaned, StrictlySortedBy, AllListed, Listed, NamesOf;
      ghost var before := store.Roles;
      ghost var children := Rbac.Children(before, name);
      var roles := ListForEdit();
      Deletion.OrphanedAll(before, name);
      Deletion.EvictedEnds(roleHolders, before, name);
      assert roles[0..] == roles;
      ghost var done: set<RoleID> := {};
      NoNames();
      assert roles[..0] == [];
      for i := 0 to |roles|
        invariant Valid() && fresh(store.Owned - old(store.Owned)) && store.Users == old(store.Users)
        invariant done == NamesOf(roles[..i])
        invariant store.Roles == Deletion.Orphaned(before, name, done)
        invariant grants == old(grants) - Rbac.HoldersOfAny(roleHolders, children * done)
        invariant AllListed(roles[i..], before)
      {
        var rest := roles[i..];
        assert rest[0] == roles[i] && rest[1..] == roles[i + 1..];
        assert roles[i] in roles;
        NextName(roles, i);
        FirstListed(rest, before);
        Deletion.OrphanedStep(before, name, done, roles[i].name);
        Deletion.EvictedStep(roleHolders, before, name, done, roles[i].name);
        DetachFirst(rest, name, before);
        done := done + {roles[i].name};
      }
      assert roles[..|roles|] == roles;
    }

    lemma FirstListed(roles: seq<RoleRecord>, before: Roles)
      requires roles != [] && AllListed(roles, before)
      ensures roles[0].name in before && roles[0].Ok() && roles[0].Value() == before[roles[0].name]
    {
      assert Listed(roles[0], before);
    }

    /** Needs the index of a reachable state: only indexed holders are visited, and all of them exist. */
    method DeleteRole(name: RoleID) returns (err: Error)
      requires Valid() && IndexInvariant.Inv(View())
      modifies this, store
      ensures Valid() && fresh(store.Owned - old(store.Owned))
      ensures Rbac.Outcome(View(), err) == Rbac.DeleteRole(old(View()), name)
    {
      hide MemoryStore.Valid, GrantedSet.Valid, GrantedSet.Perms, CacheOk, IndexInvariant.Inv;
      hide Rbac.HoldersOfAny, Rbac.Children, Deletion.Orphaned, Rbac.StripUsers, Rbac.StripDirect, Inheritance.Detach;
      var missing := FindRole(name);
      if missing != Nil {
        return missing;
      }
      ReadyToDelete(View(), name);
      var held := if name in roleHolders then roleHolders[name] else {};
      DetachHolders(name, held);
      Deletion.SameHoldersOfOthers(old(roleHolders), roleHolders, name, Rbac.Children(store.Roles, name));
      DetachChildren(name);
      roleHolders := roleHolders - {name};
      InvalidateUsers(held);
      Deletion.OrphanedAll(old(store.Roles), name);
      err := store.DeleteRole(name);
    }

    // Lookups

    method DirectRolesOf(uid: UserID) returns (held: set<RoleID>, err: Error)
      requires Valid()
      modifies `directRoles
      ensures Valid() && Rbac.Outcome(View(), err) == Rbac.QueryRoles(old(View()), uid)
      ensures err == Nil ==> uid in directRoles && held == directRoles[uid]
    {
      hide MemoryStore.Valid, CacheOk;
      if uid in directRoles {
        return directRoles[uid], Nil;
      }
      var u, unknown := store.GetUser(uid);
      if unknown != Nil {
        return {}, unknown;
      }
      held := ToSet(u.roles.data[..u.roles.len]);
      directRoles := directRoles[uid := held];
      return held, Nil;
    }

    /** The granted set of a user, built from scratch. */
    method BuildGrants(u: UserRecord, roles: seq<RoleID>) returns (granted: GrantedSet)
      requires store.Valid() && u.Ok() && Elements(roles) == Chain(store.Roles, u.Value())
      ensures fresh(granted) && granted.Valid() && granted.Perms() == Effective(store.Roles, u.Value())
    {
      hide MemoryStore.Valid, GrantedSet.Perms, GrantedSet.Valid, Chain;
      granted := new GrantedSet();
      NoRolePerms(store.Roles);
      for i := 0 to |roles|
        invariant fresh(granted) && granted.Valid()
        invariant granted.Perms() == RolePerms(store.Roles, Elements(roles[..i]))
      {
        PermsOfPrefix(store.Roles, roles, i);
        var role, missing := store.GetRole(roles[i]);
        if missing == Nil {
          granted.AddAll(role.permissions.data[..role.permissions.len]);
        }
      }
      assert roles[..|roles|] == roles;
      granted.AddAll(u.direct.data[..u.direct.len]);
    }

    /** The first granted set to arrive stays. */
    method Memoise(uid: UserID, granted: GrantedSet) returns (kept: GrantedSet)
      requires CacheOk() && granted.Valid()
      modifies `cache, `grants
      ensures CacheOk() && uid in cache && kept == cache[uid]
      ensures grants == if uid in old(grants) then old(grants) else old(grants)[uid := granted.Perms()]
    {
      hide GrantedSet.Perms, GrantedSet.Valid;
      if uid in cache {
        return cache[uid];
      }
      cache := cache[uid := granted];
      grants := grants[uid := granted.Perms()];
      return granted;
    }

    method ComputeAndCache(u: UserRecord) returns (granted: GrantedSet, roles: seq<RoleID>)
      requires Valid() && u.Ok() && u.id in store.Users && u.Value() == store.Users[u.id]
      modifies `cache, `grants, `directRoles
      ensures Valid() && u.id in cache && granted == cache[u.id]
      ensures View() == Rbac.QueryGrants(old(View()), u.id).state || u.id in old(grants)
      ensures u.id in old(grants) ==> View() == Rbac.FillDirect(old(View()), u.id)
      ensures Elements(roles) == Chain(store.Roles, u.Value()) && Ascending(roles)
    {
      hide MemoryStore.Valid, GrantedSet.Perms, GrantedSet.Valid, CacheOk, Chain, Effective, Ascending;
      roles := ResolveRoles(u);
      granted := BuildGrants(u, roles);
      granted := Memoise(u.id, granted);
      if u.id !in directRoles {
        var held := ToSet(u.roles.data[..u.roles.len]);
        directRoles := directRoles[u.id := held];
      }
    }

    /** The granted set with the user and the effective chain; the first two are null exactly on error. */
    method GetGrantedSetFull(uid: UserID)
      returns (granted: GrantedSet?, u: UserRecord?, roles: seq<RoleID>, err: Error)
      requires Valid()
      modifies `cache, `grants, `directRoles
      ensures Valid() && Rbac.Outcome(View(), err) == Rbac.QueryGrants(old(View()), uid)
      ensures (granted != null <==> err == Nil) && (u != null <==> err == Nil)
      ensures err == Nil ==>
        && granted.Valid() && granted.Perms() == Rbac.GrantsOf(old(View()), uid)
        && u.id == uid && u.Ok() && u.Value() == store.Users[uid]
        && Elements(roles) == Chain(store.Roles, u.Value()) && Ascending(roles)
    {
      hide MemoryStore.Valid, Chain, Effective, Ascending;
      hide GrantedSet.Perms, GrantedSet.Valid;
      if uid in cache {
        u, err := store.GetUser(uid);
        if err != Nil {
          return null, null, [], err;
        }
        roles := ResolveRoles(u);
        return cache[uid], u, roles, Nil;
      }
      u, err := store.GetUser(uid);
      if err != Nil {
        return null, null, [], err;
      }
      granted, roles := ComputeAndCache(u);
    }

    // Queries

    method RolesFor(id: UserID) returns (roles: seq<RoleID>, err: Error)
      requires Valid()
      ensures err == if id in store.Users then Nil else UserNotFound
      ensures err == Nil ==> Elements(roles) == Chain(store.Roles, store.Users[id]) && Ascending(roles)
    {
      hide MemoryStore.Valid, Chain, Ascending;
      var u, unknown := store.GetUser(id);
      if unknown != Nil {
        return [], unknown;
      }
      roles := ResolveRoles(u);
      return roles, Nil;
    }

    /** Agrees with the stored user in every reachable state, inheritance not followed. */
    method HasRole(id: UserID, role: RoleID) returns (has: bool, err: Error)
      requires Valid()
      modifies `directRoles
      ensures Valid() && Rbac.Outcome(View(), err) == Rbac.QueryRoles(old(View()), id)
      ensures IndexInvariant.DirectExact(old(View())) ==> (has <==> id in store.Users && role in store.Users[id].roles)
    {
      hide MemoryStore.Valid, CacheOk;
      var held;
      held, err := DirectRolesOf(id);
      if err != Nil {
        return false, err;
      }
      has := role in held;
    }

    method HasAnyRole(id: UserID, roles: seq<RoleID>) returns (has: bool, err: Error)
      requires Valid()
      modifies `directRoles
      ensures Valid()
      ensures Rbac.Outcome(View(), err) ==
        if roles == [] then Rbac.Outcome(old(View()), Nil) else Rbac.QueryRoles(old(View()), id)
      ensures IndexInvariant.DirectExact(old(View())) ==>
        (has <==> id in store.Users && exists r :: r in roles && r in store.Users[id].roles)
    {
      hide MemoryStore.Valid, CacheOk;
      if |roles| == 0 {
        return false, Nil;
      }
      var held;
      held, err := DirectRolesOf(id);
      if err != Nil {
        return false, err;
      }
      for i := 0 to |roles|
        invariant forall j :: 0 <= j < i ==> roles[j] !in held
      {
        if roles[i] in held {
          return true, Nil;
        }
      }
      return false, Nil;
    }

    method HasAllRoles(id: UserID, roles: seq<RoleID>) returns (has: bool, err: Error)
      requires Valid()
      modifies `directRoles
      ensures Valid()
      ensures Rbac.Outcome(View(), err) ==
        if roles == [] then Rbac.Outcome(old(View()), Nil) else Rbac.QueryRoles(old(View()), id)
      ensures IndexInvariant.DirectExact(old(View())) ==>
        (has <==> roles == [] || (id in store.Users && forall r :: r in roles ==> r in store.Users[id].roles))
    {
      hide MemoryStore.Valid, CacheOk;
      if |roles| == 0 {
        return true, Nil;
      }
      var held;
      held, err := DirectRolesOf(id);
      if err != Nil {
        return false, err;
      }
      for i := 0 to |roles|
        invariant forall j :: 0 <= j < i ==> roles[j] in held
      {
        if roles[i] !in held {
          return false, Nil;
        }
      }
      return true, Nil;
    }

    /**
     * The decision is the documented rule on the current store whenever the user's cache entry is
     * absent or right; on denial the caller gets the stored user and the full effective chain.
     */
    method Check(id: UserID, required: Permission) returns (result: CheckResult)
      requires Valid()
      modifies `cache, `grants, `directRoles
      ensures Valid() && View() == Rbac.QueryGrants(old(View()), id).state
      ensures id !in store.Users ==> result == Failed(UserNotFound)
      ensures id in store.Users ==>
        (result == Allowed <==> Covers(Rbac.GrantsOf(old(View()), id), required))
      ensures id in store.Users && (id in old(grants) ==> Coherence.Coherent(old(View()), id)) ==>
        (result == Allowed <==> Histories.RuleGrants(store.Roles, store.Users[id], required))
      ensures id in store.Users && result != Allowed ==>
        && result.Denied? && result.id == id && result.required == required
        && result.user.Ok() && result.user.id == id && result.user.Value() == store.Users[id]
        && Elements(result.roles) == Chain(store.Roles, store.Users[id]) && Ascending(result.roles)
    {
      assert "" !in store.Roles;
      hide MemoryStore.Valid, CacheOk, GrantedSet.Perms, GrantedSet.Valid, Chain, Effective, Ascending;
      hide Covers, Histories.RuleGrants;
      var granted, u, roles, err := GetGrantedSetFull(id);
      if err != Nil {
        return Failed(err);
      }
      Histories.EffectiveIsRule(store.Roles, store.Users[id], required);
      if granted.Has(required) {
        return Allowed;
      }
      return Denied(id, u, required, roles);
    }

    method HasPermission(id: UserID, required: Permission) returns (has: bool, err: Error)
      requires Valid()
      modifies `cache, `grants, `directRoles
      ensures Valid() && Rbac.Outcome(View(), err) == Rbac.QueryGrants(old(View()), id)
      ensures has <==> id in store.Users && Covers(Rbac.GrantsOf(old(View()), id), required)
    {
      hide MemoryStore.Valid, CacheOk, GrantedSet.Perms, GrantedSet.Valid, Chain, Effective, Ascending, Covers;
      var granted, u, roles;
      granted, u, roles, err := GetGrantedSetFull(id);
      if err != Nil {
        return false, err;
      }
      has := granted.Has(required);
    }

    method HasAllPermissions(id: UserID, required: seq<Permission>) returns (has: bool, err: Error)
      requires Valid()
      modifies `cache, `grants, `directRoles
      ensures Valid() && Rbac.Outcome(View(), err) == Rbac.QueryGrants(old(View()), id)
      ensures has <==> id in store.Users && forall p :: p in required ==> Covers(Rbac.GrantsOf(old(View()), id), p)
    {
      hide MemoryStore.Valid, CacheOk, GrantedSet.Perms, GrantedSet.Valid, Chain, Effective, Ascending, Covers;
      var granted, u, roles;
      granted, u, roles, err := GetGrantedSetFull(id);
      if err != Nil {
        return false, err;
      }
      for i := 0 to |required|
        invariant forall j :: 0 <= j < i ==> Covers(granted.Perms(), required[j])
      {
        if !granted.Has(required[i]) {
          return false, Nil;
        }
      }
      return true, Nil;
    }

    method HasAnyPermission(id: UserID, required: seq<Permission>) returns (has: bool, err: Error)
      requires Valid()
      modifies `cache, `grants, `directRoles
      ensures Valid() && Rbac.Outcome(View(), err) == Rbac.QueryGrants(old(View()), id)
      ensures has <==> id in store.Users && exists p :: p in required && Covers(Rbac.GrantsOf(old(View()), id), p)
    {
      hide MemoryStore.Valid, CacheOk, GrantedSet.Perms, GrantedSet.Valid, Chain, Effective, Ascending, Covers;
      var granted, u, roles;
      granted, u, roles, err := GetGrantedSetFull(id);
      if err != Nil {
        return false, err;
      }
      for i := 0 to |required|
        invariant forall j :: 0 <= j < i ==> !Covers(granted.Perms(), required[j])
      {
        if granted.Has(required[i]) {
          return true, Nil;
        }
      }
      return false, Nil;
    }

    /** Every effective permission once, ordered by printed form. */
    method PermissionsFor(id: UserID) returns (out: seq<Permission>, err: Error)
      requires Valid()
      modifies `cache, `grants, `directRoles
      ensures Valid() && Rbac.Outcome(View(), err) == Rbac.QueryGrants(old(View()), id)
      ensures err == Nil ==> IsListing(out, Rbac.GrantsOf(old(View()), id))
    {
      hide MemoryStore.Valid, CacheOk, GrantedSet.Perms, GrantedSet.Valid, Chain, Effective, Ascending, Covers;
      var granted, u, roles;
      granted, u, roles, err := GetGrantedSetFull(id);
      if err != Nil {
        return [], err;
      }
      var flat := granted.Flatten();
      out := SortBy(flat, (p: Permission) => p.ToString());
      Rearranged(flat, out);
    }

    // Whole histories

    /** Any public call, as the step of the state machine it is. */
    method Perform(op: Rbac.Op) returns (err: Error)
      requires Valid() && IndexInvariant.Inv(View())
      modifies this, store
      ensures Valid() && Rbac.Outcome(View(), err) == Rbac.Apply(old(View()), maxDepth, op)
    {
      hide MemoryStore.Valid, CacheOk, IndexInvariant.Inv;
      match op
      case CreatingUser(id, held) => err := CreateUser(id, held);
      case DeletingUser(id) => err := DeleteUser(id);
      case AssigningRole(id, role) => err := AssignRole(id, role);
      case RevokingRole(id, role) => err := RevokeRole(id, role);
      case GrantingDirect(id, p) => err := GrantDirectPermission(id, p);
      case RevokingDirect(id, p) => err := RevokeDirectPermission(id, p);
      case CreatingRole(name, ps, parent) => err := CreateRole(name, ps, parent);
      case UpdatingRole(name, ps, parent) => err := UpdateRole(name, ps, parent);
      case DeletingRole(name) => err := DeleteRole(name);
      case GrantingPermission(name, p) => err := GrantPermission(name, p);
      case RevokingPermission(name, p) => err := RevokePermission(name, p);
      case SettingParent(name, parent) => err := SetParent(name, parent);
      case QueryingRoles(id) =>
        var held;
        held, err := DirectRolesOf(id);
      case QueryingGrants(id) =>
        var granted, u, roles;
        granted, u, roles, err := GetGrantedSetFull(id);
    }

    /** The object refines the state machine: every history of calls on a new enforcer ends in `Run`'s state. */
    static method Replay(depth: int, ops: seq<Rbac.Op>) returns (e: Enforcer)
      ensures fresh(e) && fresh(e.store) && e.Valid() && e.maxDepth == Cap(depth)
      ensures e.View() == Rbac.Run(Cap(depth), ops)
    {
      hide MemoryStore.Valid, IndexInvariant.Inv, Rbac.Apply;
      e := new Enforcer(depth);
      for i := 0 to |ops|
        invariant fresh(e) && fresh(e.store) && e.Valid() && e.View() == Rbac.Run(e.maxDepth, ops[..i])
      {
        IndexInvariant.RunKeepsInv(e.maxDepth, ops[..i]);
        Rbac.RunAppend(e.maxDepth, ops[..i], ops[i]);
        assert ops[..i + 1] == ops[..i] + [ops[i]];
        var err := e.Perform(ops[i]);
      }
      assert ops[..|ops|] == ops;
    }

    /**
     * End to end: after any history whatever, the object decides a user's requests by the documented rule, applied
     * to the user as stored now and to the roles as they were at some moment of the history.
     */
    static method DecideAfter(depth: int, ops: seq<Rbac.Op>, id: UserID, required: Permission)
      returns (allowed: bool)
      ensures var s := Rbac.Run(Cap(depth), ops);
        exists moment :: 0 <= moment <= |ops| &&
          var roles := Rbac.Run(Cap(depth), ops[..moment]).roles;
          (allowed <==> id in s.users && Histories.RuleGrants(roles, s.users[id], required))
    {
      hide MemoryStore.Valid, IndexInvariant.Inv, Rbac.Apply, Rbac.Run, Rbac.GrantsOf, Histories.RuleGrants, Covers;
      var e := Replay(depth, ops);
      ghost var moment: nat := 0;
      if id in Rbac.Run(Cap(depth), ops).users {
        moment := Histories.DecidedOnEarlierRoles(Cap(depth), ops, id);
      }
      var result := e.Check(id, required);
      allowed := result == Allowed;
      assert ops[..moment] <= ops;
    }

    /** End to end: after a safe history the object decides every request by the documented rule. */
    static method CheckAfter(depth: int, ops: seq<Rbac.Op>, id: UserID, required: Permission) returns (allowed: bool)
      requires Histories.SafeRun(Cap(depth), ops)
      ensures var s := Rbac.Run(Cap(depth), ops);
        allowed <==> id in s.users && Histories.RuleGrants(s.roles, s.users[id], required)
    {
      hide MemoryStore.Valid, IndexInvariant.Inv, Rbac.Apply, Histories.RuleGrants, Histories.SafeRun;
      var e := Replay(depth, ops);
      Histories.SafeRunsStayCoherent(Cap(depth), ops);
      hide Rbac.Run;
      var result := e.Check(id, required);
      return result == Allowed;
    }
  }
}
