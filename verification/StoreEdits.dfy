/**
 * The edit and write-back steps of the enforcer's mutators, on a copy fetched from the store: the
 * copy's backing array is overwritten, the store changes in the final update only.
 */
module StoreEdits {
  import opened Permissions
  import opened Entities
  import opened Slices
  import opened MemoryStores

  ghost predicate PrivateUser(store: MemoryStore, u: UserRecord)
    reads store, u
  {
    u.Ok() && u.id in store.Users && {u, u.roles.data, u.direct.data} !! store.Owned
  }

  ghost predicate PrivateRole(store: MemoryStore, r: RoleRecord)
    reads store, r
  {
    r.Ok() && r.name in store.Roles && {r, r.permissions.data} !! store.Owned
  }

  /**
   * Copy isolation: compacting a fetched copy overwrites the copy's own array, and as this method
   * modifies nothing that existed before, no stored user changes until an update is called.
   */
  method CompactCopy(store: MemoryStore, id: UserID, role: RoleID) returns (u: UserRecord?, err: Error)
    requires store.Valid()
    ensures err == if id in store.Users then Nil else UserNotFound
    ensures u == null <==> err != Nil
    ensures u != null ==>
      && fresh(u) && PrivateUser(store, u)
      && u.Value() == store.Users[id].(roles := Without(store.Users[id].roles, role))
  {
    hide MemoryStore.HoldsUser, MemoryStore.HoldsRole;
    u, err := store.GetUser(id);
    if err == Nil {
      u.roles := RemoveInPlace(u.roles, role);
    }
  }

  method AppendRole(store: MemoryStore, u: UserRecord, role: RoleID) returns (roles: seq<RoleID>)
    requires store.Valid() && PrivateUser(store, u)
    modifies store, u, u.roles.data
    ensures store.Valid() && fresh(store.Owned - old(store.Owned))
    ensures roles == old(u.roles.Elems()) + [role]
    ensures store.Users == old(store.Users)[u.id := old(u.Value()).(roles := roles)]
    ensures store.Roles == old(store.Roles)
  {
    hide MemoryStore.HoldsUser, MemoryStore.HoldsRole;
    u.roles := Append(u.roles, role);
    roles := u.roles.data[..u.roles.len];
    var err := store.UpdateUser(u);
  }

  method RemoveRole(store: MemoryStore, u: UserRecord, role: RoleID) returns (roles: seq<RoleID>)
    requires store.Valid() && PrivateUser(store, u)
    modifies store, u, u.roles.data
    ensures store.Valid() && fresh(store.Owned - old(store.Owned))
    ensures roles == Without(old(u.roles.Elems()), role)
    ensures store.Users == old(store.Users)[u.id := old(u.Value()).(roles := roles)]
    ensures store.Roles == old(store.Roles)
  {
    hide MemoryStore.HoldsUser, MemoryStore.HoldsRole;
    u.roles := RemoveInPlace(u.roles, role);
    roles := u.roles.data[..u.roles.len];
    var err := store.UpdateUser(u);
  }

  /** The variant of `RemoveRole` that skips the update when nothing was removed. */
  method RemoveRoleIfHeld(store: MemoryStore, u: UserRecord, role: RoleID) returns (roles: seq<RoleID>)
    requires store.Valid() && PrivateUser(store, u) && store.Users[u.id] == u.Value()
    modifies store, u, u.roles.data
    ensures store.Valid() && fresh(store.Owned - old(store.Owned))
    ensures roles == Without(old(u.roles.Elems()), role)
    ensures store.Users == old(store.Users)[u.id := old(u.Value()).(roles := roles)]
    ensures store.Roles == old(store.Roles)
  {
    hide MemoryStore.HoldsUser, MemoryStore.HoldsRole;
    WithoutAbsent(u.roles.Elems(), role);
    var kept := RemoveInPlace(u.roles, role);
    roles := kept.data[..kept.len];
    if kept.len != u.roles.len {
      u.roles := kept;
      var err := store.UpdateUser(u);
    }
  }

  method AppendDirect(store: MemoryStore, u: UserRecord, p: Permission)
    requires store.Valid() && PrivateUser(store, u)
    modifies store, u, u.direct.data
    ensures store.Valid() && fresh(store.Owned - old(store.Owned))
    ensures store.Users == old(store.Users)[u.id := old(u.Value()).(direct := old(u.direct.Elems()) + [p])]
    ensures store.Roles == old(store.Roles)
  {
    hide MemoryStore.HoldsUser, MemoryStore.HoldsRole;
    u.direct := Append(u.direct, p);
    var err := store.UpdateUser(u);
  }

  method RemoveDirect(store: MemoryStore, u: UserRecord, p: Permission)
    requires store.Valid() && PrivateUser(store, u)
    modifies store, u, u.direct.data
    ensures store.Valid() && fresh(store.Owned - old(store.Owned))
    ensures store.Users == old(store.Users)[u.id := old(u.Value()).(direct := Without(old(u.direct.Elems()), p))]
    ensures store.Roles == old(store.Roles)
  {
    hide MemoryStore.HoldsUser, MemoryStore.HoldsRole;
    u.direct := RemoveInPlace(u.direct, p);
    var err := store.UpdateUser(u);
  }

  method AppendPermission(store: MemoryStore, r: RoleRecord, p: Permission)
    requires store.Valid() && PrivateRole(store, r)
    modifies store, r, r.permissions.data
    ensures store.Valid() && fresh(store.Owned - old(store.Owned))
    ensures store.Roles == old(store.Roles)[r.name := old(r.Value()).(permissions := old(r.permissions.Elems()) + [p])]
    ensures store.Users == old(store.Users)
  {
    hide MemoryStore.HoldsUser, MemoryStore.HoldsRole;
    r.permissions := Append(r.permissions, p);
    var err := store.UpdateRole(r);
  }

  method RemovePermission(store: MemoryStore, r: RoleRecord, p: Permission)
    requires store.Valid() && PrivateRole(store, r)
    modifies store, r, r.permissions.data
    ensures store.Valid() && fresh(store.Owned - old(store.Owned))
    ensures store.Roles ==
      old(store.Roles)[r.name := old(r.Value()).(permissions := Without(old(r.permissions.Elems()), p))]
    ensures store.Users == old(store.Users)
  {
    hide MemoryStore.HoldsUser, MemoryStore.HoldsRole;
    r.permissions := RemoveInPlace(r.permissions, p);
    var err := store.UpdateRole(r);
  }

  method Reparent(store: MemoryStore, r: RoleRecord, parent: RoleID)
    requires store.Valid() && PrivateRole(store, r)
    modifies store, r`parent
    ensures store.Valid() && fresh(store.Owned - old(store.Owned))
    ensures r.parent == parent
    ensures store.Roles == old(store.Roles)[r.name := old(r.Value()).(parent := parent)]
    ensures store.Users == old(store.Users)
  {
    hide MemoryStore.HoldsUser, MemoryStore.HoldsRole;
    r.parent := parent;
    var err := store.UpdateRole(r);
  }
}
