/** The in-memory store: whole objects in, whole objects out, always as private copies. */
module MemoryStores {
  import opened Permissions
  import opened Entities
  import opened Slices
  import opened Ordering

  /** A user object as handed to and out of the store. */
  class UserRecord {
    const id: UserID
    var roles: Slice<RoleID>
    var direct: Slice<Permission>

    constructor (id: UserID, roles: Slice<RoleID>, direct: Slice<Permission>)
      ensures this.id == id && this.roles == roles && this.direct == direct
    {
      this.id, this.roles, this.direct := id, roles, direct;
    }

    ghost predicate Ok()
      reads this
    {
      roles.Ok() && direct.Ok()
    }

    ghost function Value(): User
      requires Ok()
      reads this, roles.data, direct.data
    {
      User(roles.Elems(), direct.Elems())
    }

    /** `cloneUser`. */
    method Clone() returns (c: UserRecord)
      requires Ok()
      ensures fresh(c) && fresh(c.roles.data) && fresh(c.direct.data)
      ensures c.Ok() && c.id == id && c.Value() == Value()
    {
      var r := Slices.Clone(roles);
      var d := Slices.Clone(direct);
      c := new UserRecord(id, r, d);
    }
  }

  /** A role object as handed to and out of the store. */
  class RoleRecord {
    const name: RoleID
    var permissions: Slice<Permission>
    var parent: RoleID

    constructor (name: RoleID, permissions: Slice<Permission>, parent: RoleID)
      ensures this.name == name && this.permissions == permissions && this.parent == parent
    {
      this.name, this.permissions, this.parent := name, permissions, parent;
    }

    ghost predicate Ok()
      reads this
    {
      permissions.Ok()
    }

    ghost function Value(): Role
      requires Ok()
      reads this, permissions.data
    {
      Role(permissions.Elems(), parent)
    }

    /** `cloneRole`. */
    method Clone() returns (c: RoleRecord)
      requires Ok()
      ensures fresh(c) && fresh(c.permissions.data)
      ensures c.Ok() && c.name == name && c.Value() == Value()
    {
      var p := Slices.Clone(permissions);
      c := new RoleRecord(name, p, parent);
    }
  }

  class MemoryStore {
    var users: map<UserID, UserRecord>
    var roles: map<RoleID, RoleRecord>

    /** The abstract contents, and the objects and arrays only the store refers to. */
    ghost var Users: Users
    ghost var Roles: Roles
    ghost var Owned: set<object>

    ghost predicate HoldsUser(id: UserID)
      requires id in users && id in Users
      reads this, Owned
    {
      var u := users[id];
      && u in Owned && u.id == id && u.Ok()
      && u.roles.data in Owned && u.direct.data in Owned
      && u.Value() == Users[id]
    }

    ghost predicate HoldsRole(name: RoleID)
      requires name in roles && name in Roles
      reads this, Owned
    {
      var r := roles[name];
      && r in Owned && r.name == name && r.Ok()
      && r.permissions.data in Owned
      && r.Value() == Roles[name]
    }

    ghost predicate Valid()
      reads this, Owned
    {
      && this !in Owned
      && users.Keys == Users.Keys && "" !in users
      && roles.Keys == Roles.Keys && "" !in roles
      && (forall id :: id in users ==> HoldsUser(id))
      && (forall name :: name in roles ==> HoldsRole(name))
    }

    constructor ()
      ensures Valid() && fresh(Owned)
      ensures Users == map[] && Roles == map[]
    {
      users, roles := map[], map[];
      Users, Roles, Owned := map[], map[], {};
    }

    method PutUser(u: UserRecord)
      requires Valid() && u.Ok() && u.id != ""
      modifies this
      ensures Valid() && fresh(Owned - old(Owned))
      ensures Users == old(Users)[u.id := u.Value()] && Roles == old(Roles)
    {
      hide HoldsUser, HoldsRole;
      var c := u.Clone();
      KeepUser(c);
    }

    /** Takes over a record no one else refers to. */
    method KeepUser(c: UserRecord)
      requires Valid() && c.Ok() && c.id != "" && this !in {c as object, c.roles.data, c.direct.data}
      modifies this
      ensures Valid() && Owned == old(Owned) + {c, c.roles.data, c.direct.data}
      ensures Users == old(Users)[c.id := c.Value()] && Roles == old(Roles)
    {
      users := users[c.id := c];
      Users := Users[c.id := c.Value()];
      Owned := Owned + {c, c.roles.data, c.direct.data};
      assert HoldsUser(c.id);
    }

    method CreateUser(u: UserRecord) returns (err: Error)
      requires Valid() && u.Ok()
      modifies this
      ensures Valid() && fresh(Owned - old(Owned))
      ensures err == if u.id == "" then EmptyName else if u.id in old(Users) then UserExists else Nil
      ensures Users == (if err == Nil then old(Users)[u.id := u.Value()] else old(Users)) && Roles == old(Roles)
    {
      if u.id == "" {
        return EmptyName;
      }
      if u.id in users {
        return UserExists;
      }
      PutUser(u);
      return Nil;
    }

    method UpdateUser(u: UserRecord) returns (err: Error)
      requires Valid() && u.Ok()
      modifies this
      ensures Valid() && fresh(Owned - old(Owned))
      ensures err == if u.id == "" then EmptyName else if u.id !in old(Users) then UserNotFound else Nil
      ensures Users == (if err == Nil then old(Users)[u.id := u.Value()] else old(Users)) && Roles == old(Roles)
    {
      if u.id == "" {
        return EmptyName;
      }
      if u.id !in users {
        return UserNotFound;
      }
      PutUser(u);
      return Nil;
    }

    /** The record is null exactly on error; otherwise nothing it can reach is shared with the store. */
    method GetUser(id: UserID) returns (u: UserRecord?, err: Error)
      requires Valid()
      ensures err == if id in Users then Nil else UserNotFound
      ensures u == null <==> err != Nil
      ensures u != null ==>
        && fresh(u) && fresh(u.roles.data) && fresh(u.direct.data)
        && {u, u.roles.data, u.direct.data} !! Owned
        && u.id == id && u.Ok() && u.Value() == Users[id]
    {
      if id !in users {
        return null, UserNotFound;
      }
      assert HoldsUser(id);
      u := users[id].Clone();
      return u, Nil;
    }

    method DeleteUser(id: UserID) returns (err: Error)
      requires Valid()
      modifies this
      ensures Valid() && Owned == old(Owned)
      ensures err == if id in old(Users) then Nil else UserNotFound
      ensures Users == old(Users) - {id} && Roles == old(Roles)
    {
      if id !in users {
        return UserNotFound;
      }
      users := users - {id};
      Users := Users - {id};
      return Nil;
    }

    method PutRole(r: RoleRecord)
      requires Valid() && r.Ok() && r.name != ""
      modifies this
      ensures Valid() && fresh(Owned - old(Owned))
      ensures Roles == old(Roles)[r.name := r.Value()] && Users == old(Users)
    {
      hide HoldsUser, HoldsRole;
      var c := r.Clone();
      KeepRole(c);
    }

    /** Takes over a record no one else refers to. */
    method KeepRole(c: RoleRecord)
      requires Valid() && c.Ok() && c.name != "" && this !in {c as object, c.permissions.data}
      modifies this
      ensures Valid() && Owned == old(Owned) + {c, c.permissions.data}
      ensures Roles == old(Roles)[c.name := c.Value()] && Users == old(Users)
    {
      roles := roles[c.name := c];
      Roles := Roles[c.name := c.Value()];
      Owned := Owned + {c, c.permissions.data};
      assert HoldsRole(c.name);
    }

    method CreateRole(r: RoleRecord) returns (err: Error)
      requires Valid() && r.Ok()
      modifies this
      ensures Valid() && fresh(Owned - old(Owned))
      ensures err == if r.name == "" then EmptyName else if r.name in old(Roles) then RoleExists else Nil
      ensures Roles == (if err == Nil then old(Roles)[r.name := r.Value()] else old(Roles)) && Users == old(Users)
    {
      if r.name == "" {
        return EmptyName;
      }
      if r.name in roles {
        return RoleExists;
      }
      PutRole(r);
      return Nil;
    }

    method UpdateRole(r: RoleRecord) returns (err: Error)
      requires Valid() && r.Ok()
      modifies this
      ensures Valid() && fresh(Owned - old(Owned))
      ensures err == if r.name == "" then EmptyName else if r.name !in old(Roles) then RoleNotFound else Nil
      ensures Roles == (if err == Nil then old(Roles)[r.name := r.Value()] else old(Roles)) && Users == old(Users)
    {
      if r.name == "" {
        return EmptyName;
      }
      if r.name !in roles {
        return RoleNotFound;
      }
      PutRole(r);
      return Nil;
    }

    /** The record is null exactly on error; otherwise nothing it can reach is shared with the store. */
    method GetRole(name: RoleID) returns (r: RoleRecord?, err: Error)
      requires Valid()
      ensures err == if name in Roles then Nil else RoleNotFound
      ensures r == null <==> err != Nil
      ensures r != null ==>
        && fresh(r) && fresh(r.permissions.data)
        && {r, r.permissions.data} !! Owned
        && r.name == name && r.Ok() && r.Value() == Roles[name]
    {
      if name !in roles {
        return null, RoleNotFound;
      }
      r := CopyOfRole(name);
      return r, Nil;
    }

    method CopyOfRole(name: RoleID) returns (r: RoleRecord)
      requires Valid() && name in roles
      ensures fresh(r) && fresh(r.permissions.data)
      ensures r.name == name && r.Ok() && r.Value() == Roles[name]
    {
      assert HoldsRole(name);
      r := roles[name].Clone();
    }

    method DeleteRole(name: RoleID) returns (err: Error)
      requires Valid()
      modifies this
      ensures Valid() && Owned == old(Owned)
      ensures err == if name in old(Roles) then Nil else RoleNotFound
      ensures Roles == old(Roles) - {name} && Users == old(Users)
    {
      if name !in roles {
        return RoleNotFound;
      }
      roles := roles - {name};
      Roles := Roles - {name};
      return Nil;
    }

    /** Private copies of every role, strictly ascending by name whatever the map iteration order. */
    method ListRoles() returns (out: seq<RoleRecord>)
      requires Valid()
      ensures StrictlySortedBy(out, (r: RoleRecord) => r.name) && Distinct(out)
      ensures forall r :: r in out ==> fresh(r) && fresh(r.permissions.data)
      ensures forall r :: r in out ==> r.name in Roles && r.Ok() && r.Value() == Roles[r.name]
      ensures forall name :: name in Roles ==> exists r :: r in out && r.name == name
    {
      hide HoldsUser, HoldsRole;
      out := [];
      var rest := roles.Keys;
      while rest != {}
        invariant rest <= roles.Keys
        invariant forall r :: r in out ==> fresh(r) && fresh(r.permissions.data)
        invariant forall r :: r in out ==> r.name in Roles && r.Ok() && r.Value() == Roles[r.name]
        invariant forall r :: r in out ==> r.name !in rest
        invariant forall name :: name in Roles && name !in rest ==> exists r :: r in out && r.name == name
        invariant forall i, j :: 0 <= i < j < |out| ==> out[i].name != out[j].name
      {
        var name :| name in rest;
        var c := CopyOfRole(name);
        ghost var before := out;
        out := out + [c];
        rest := rest - {name};
        forall n | n in Roles && n !in rest
          ensures exists r :: r in out && r.name == n
        {
          if n == name {
            assert c in out;
          } else {
            var r :| r in before && r.name == n;
            assert r in out;
          }
        }
      }
      ghost var listed := out;
      out := SortBy(out, (r: RoleRecord) => r.name);
      SortedNames(listed, out);
    }
  }

  lemma SortedNames(listed: seq<RoleRecord>, out: seq<RoleRecord>)
    requires multiset(out) == multiset(listed) && SortedBy(out, (r: RoleRecord) => r.name)
    requires forall i, j :: 0 <= i < j < |listed| ==> listed[i].name != listed[j].name
    ensures StrictlySortedBy(out, (r: RoleRecord) => r.name) && Distinct(out)
    ensures forall r :: r in out <==> r in listed
  {
    Rearranged(listed, out);
    forall r
      ensures r in out <==> r in listed
    {
      assert r in out <==> r in Elements(out);
    }
    forall i, j | 0 <= i < j < |out|
      ensures Less(out[i].name, out[j].name)
    {
      LessTotal(out[i].name, out[j].name);
      assert out[i] in listed && out[j] in listed;
    }
  }
}
