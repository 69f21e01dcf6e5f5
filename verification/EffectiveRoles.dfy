/** The effective role chain of a user and what it grants (authz/resolve.go, the package rule in libauth.go). */
module EffectiveRoles {
  import opened Permissions
  import opened Entities
  import opened Ordering
  import opened Inheritance

  /** The non-empty parents of those names in `s` that are stored. */
  function ParentsIn(roles: Roles, s: set<RoleID>): set<RoleID>
  {
    set n | n in s && ParentOf(roles, n) != "" :: ParentOf(roles, n)
  }

  ghost predicate Closed(roles: Roles, s: set<RoleID>)
  {
    ParentsIn(roles, s) <= s
  }

  /** Direct roles and everything above them, on any finite role map. */
  ghost function Closure(roles: Roles, s: set<RoleID>): (c: set<RoleID>)
    ensures s <= c && Closed(roles, c)
    decreases ParentsIn(roles, roles.Keys) - s
  {
    var next := ParentsIn(roles, s);
    if next <= s then s
    else
      assert next <= ParentsIn(roles, roles.Keys);
      Closure(roles, s + next)
  }

  /** Nothing else: the closure lies inside every closed set around the direct roles. */
  lemma {:induction false} ClosureLeast(roles: Roles, s: set<RoleID>, t: set<RoleID>)
    requires s <= t && Closed(roles, t)
    ensures Closure(roles, s) <= t
    decreases ParentsIn(roles, roles.Keys) - s
  {
    var next := ParentsIn(roles, s);
    if !(next <= s) {
      assert next <= ParentsIn(roles, roles.Keys);
      ClosureLeast(roles, s + next, t);
    }
  }

  ghost predicate AboveSome(roles: Roles, s: set<RoleID>, x: RoleID)
  {
    exists r :: r in s && Reaches(roles, r, x)
  }

  lemma {:induction false} ChainInClosed(roles: Roles, s: set<RoleID>, r: RoleID, k: nat)
    requires Closed(roles, s) && r in s
    ensures Up(roles, r, k) == "" || Up(roles, r, k) in s
    decreases k
  {
    if k != 0 {
      var next := ParentOf(roles, r);
      if next == "" {
        UpFromNowhere(roles, k - 1);
      } else {
        ChainInClosed(roles, s, next, k - 1);
      }
    }
  }

  /** The closure is the transitive parent relation: a name belongs to it when some direct role leads up to it. */
  lemma ClosureIsAncestors(roles: Roles, s: set<RoleID>, x: RoleID)
    requires x != ""
    ensures x in Closure(roles, s) <==> AboveSome(roles, s, x)
  {
    var c := Closure(roles, s);
    if AboveSome(roles, s, x) {
      var r :| r in s && Reaches(roles, r, x);
      var k: nat :| Up(roles, r, k) == x;
      ChainInClosed(roles, c, r, k);
    }
    var t := set y | y in c && (y in s || AboveSome(roles, s, y));
    forall y | y in ParentsIn(roles, t)
      ensures y in t
    {
      var n :| n in t && ParentOf(roles, n) == y;
      if n in s {
        assert Up(roles, n, 1) == y;
      } else {
        var r :| r in s && Reaches(roles, r, n);
        var k: nat :| Up(roles, r, k) == n;
        UpAdd(roles, r, k, 1);
        assert Up(roles, r, k + 1) == y;
      }
      assert y in c;
    }
    ClosureLeast(roles, s, t);
    if x in s {
      assert Up(roles, x, 0) == x;
    }
  }

  /** Role maps that agree on the parents of the names in a closure have the same closure. */
  lemma SameParentsSameClosure(roles: Roles, roles': Roles, s: set<RoleID>)
    requires forall n :: n in Closure(roles, s) ==> ParentOf(roles', n) == ParentOf(roles, n)
    ensures Closure(roles', s) == Closure(roles, s)
  {
    var c, c' := Closure(roles, s), Closure(roles', s);
    assert ParentsIn(roles', c) == ParentsIn(roles, c);
    ClosureLeast(roles', s, c);
    assert ParentsIn(roles, c') == ParentsIn(roles', c');
    ClosureLeast(roles, s, c');
  }

  ghost function RolePerms(roles: Roles, names: set<RoleID>): set<Permission>
  {
    set n, p | n in names && n in roles && p in roles[n].permissions :: p
  }

  /** The roles a user holds, inherited ones included. */
  ghost function Chain(roles: Roles, u: User): set<RoleID>
  {
    Closure(roles, Elements(u.roles))
  }

  /** Every permission the documented rule grants the user. */
  ghost function Effective(roles: Roles, u: User): set<Permission>
  {
    RolePerms(roles, Chain(roles, u)) + Elements(u.direct)
  }

  /** A permission is effective exactly when it is a direct grant, or a role up the chain of a held role has it. */
  lemma EffectiveExact(roles: Roles, u: User, p: Permission)
    requires "" !in roles
    ensures p in Effective(roles, u) <==>
      p in u.direct || exists r, n :: r in u.roles && Reaches(roles, r, n) && n in roles && p in roles[n].permissions
  {
    if r, n :| r in u.roles && Reaches(roles, r, n) && n in roles && p in roles[n].permissions {
      InChain(roles, u, n);
      assert p in RolePerms(roles, Chain(roles, u));
    }
    if p in RolePerms(roles, Chain(roles, u)) {
      var n :| n in Chain(roles, u) && n in roles && p in roles[n].permissions;
      InChain(roles, u, n);
    }
  }

  /** A user whose chain avoids a role is granted the same after any write to it, or its creation. */
  lemma WriteOutsideChain(roles: Roles, name: RoleID, role: Role, u: User)
    requires name !in Chain(roles, u)
    ensures Chain(roles[name := role], u) == Chain(roles, u)
    ensures Effective(roles[name := role], u) == Effective(roles, u)
  {
    var roles' := roles[name := role];
    SameParentsSameClosure(roles, roles', Elements(u.roles));
    assert RolePerms(roles', Chain(roles, u)) == RolePerms(roles, Chain(roles, u));
  }

  /** A user whose chain avoids a role is granted the same after it is detached and deleted. */
  lemma DetachOutsideChain(roles: Roles, name: RoleID, u: User)
    requires name !in Chain(roles, u) && name != ""
    ensures Effective(Detach(roles, name), u) == Effective(roles, u)
  {
    var roles' := Detach(roles, name);
    var c := Chain(roles, u);
    forall n | n in c
      ensures ParentOf(roles', n) == ParentOf(roles, n)
    {
      assert ParentOf(roles, n) != "" ==> ParentOf(roles, n) in ParentsIn(roles, c);
    }
    SameParentsSameClosure(roles, roles', Elements(u.roles));
    assert forall n :: n in c && n in roles ==> n in roles' && roles'[n].permissions == roles[n].permissions;
    assert RolePerms(roles', c) == RolePerms(roles, c);
  }

  /** A role in the chain that is not held directly is the parent of another role in the chain. */
  lemma InheritedThroughChild(roles: Roles, u: User, name: RoleID) returns (child: RoleID)
    requires name in Chain(roles, u) && name !in u.roles
    ensures child in Chain(roles, u) && child in roles && roles[child].parent == name && child != name
  {
    var c := Chain(roles, u);
    if forall n :: n in c && n != name ==> ParentOf(roles, n) != name {
      ClosureLeast(roles, Elements(u.roles), c - {name});
    } else {
      child :| child in c && child != name && ParentOf(roles, child) == name;
      NameNotEmpty(roles, u, name);
    }
  }

  // What a user has on account of one role

  /** `name` leads to `x`, and so does no held role without leading to `name`. */
  ghost predicate OnlyThrough(roles: Roles, u: User, name: RoleID, x: RoleID)
  {
    Reaches(roles, name, x) && forall r :: r in u.roles && Reaches(roles, r, x) ==> Reaches(roles, r, name)
  }

  ghost function Severed(roles: Roles, u: User, name: RoleID): set<RoleID>
  {
    set x | x in Chain(roles, u) && x != "" && OnlyThrough(roles, u, name, x)
  }

  lemma InChain(roles: Roles, u: User, x: RoleID)
    ensures x != "" ==> (x in Chain(roles, u) <==> exists r :: r in u.roles && Reaches(roles, r, x))
    ensures x == "" ==> (x in Chain(roles, u) <==> x in u.roles)
  {
    if x != "" {
      ClosureIsAncestors(roles, Elements(u.roles), x);
      if x in Chain(roles, u) {
        var r :| r in Elements(u.roles) && Reaches(roles, r, x);
        assert r in u.roles;
      }
      if r :| r in u.roles && Reaches(roles, r, x) {
        assert r in Elements(u.roles);
      }
    } else if x in Chain(roles, u) && x !in u.roles {
      NameNotEmpty(roles, u, x);
    }
  }

  /** A user not holding the deleted role itself keeps exactly what is not severed with it. */
  lemma SeveredByDeletion(roles: Roles, name: RoleID, u: User)
    requires Forest(roles) && name in roles && name !in u.roles
    ensures Chain(Detach(roles, name), u) == Chain(roles, u) - Severed(roles, u, name)
  {
    hide Chain, Detach, Reaches, Forest;
    forall x
      ensures x in Chain(Detach(roles, name), u) <==> x in Chain(roles, u) - Severed(roles, u, name)
    {
      InChain(roles, u, x);
      InChain(Detach(roles, name), u, x);
      if x != "" {
        forall r | r in u.roles
          ensures Reaches(Detach(roles, name), r, x) <==>
            (Reaches(roles, r, x) && !(Reaches(roles, r, name) && Reaches(roles, name, x)))
        {
          DetachedReaches(roles, name, r, x);
        }
      }
    }
  }

  /** A user whose chain has the written role keeps it and what is not severed, and gets the new parent's chain. */
  lemma SeveredByWrite(roles: Roles, maxDepth: nat, name: RoleID, role: Role, u: User, x: RoleID)
    requires Forest(roles) && name != "" && Validate(roles, maxDepth, name, role.parent) == Nil
    requires name in Chain(roles, u) && x != ""
    ensures x in Chain(roles[name := role], u) <==>
      x == name || x in Chain(roles, u) - Severed(roles, u, name) || Reaches(roles, role.parent, x)
  {
    hide Chain, Reaches, Forest, Validate;
    InChain(roles, u, name);
    InChain(roles, u, x);
    InChain(roles[name := role], u, x);
    forall r | r in u.roles
      ensures Reaches(roles[name := role], r, x) <==>
        || (Reaches(roles, r, x) && !(x != name && Reaches(roles, r, name) && Reaches(roles, name, x)))
        || (Reaches(roles, r, name) && Reaches(roles, role.parent, x))
    {
      RewrittenReaches(roles, maxDepth, name, role, r, x);
    }
  }

  lemma SelfSevered(roles: Roles, u: User, name: RoleID)
    requires name in Chain(roles, u) && name != ""
    ensures name in Severed(roles, u, name)
  {
    assert Up(roles, name, 0) == name;
  }

  /** The grants a user not holding the deleted role is left with. */
  lemma EffectiveAfterDeletion(roles: Roles, name: RoleID, u: User)
    requires Forest(roles) && name in roles && name !in u.roles
    ensures Effective(Detach(roles, name), u) ==
      RolePerms(roles, Chain(roles, u) - Severed(roles, u, name)) + Elements(u.direct)
  {
    var roles' := Detach(roles, name);
    var kept := Chain(roles, u) - Severed(roles, u, name);
    SeveredByDeletion(roles, name, u);
    if name in Chain(roles, u) {
      SelfSevered(roles, u, name);
    }
    hide Chain, Severed, Forest;
    assert forall n :: n in kept && n in roles ==> n in roles' && roles'[n].permissions == roles[n].permissions;
    assert RolePerms(roles', kept) == RolePerms(roles, kept);
  }

  /** The grants of a user whose chain has the written role, in terms of the roles before the write. */
  lemma EffectiveAfterWrite(roles: Roles, maxDepth: nat, name: RoleID, role: Role, u: User)
    requires Forest(roles) && name != "" && Validate(roles, maxDepth, name, role.parent) == Nil
    requires name in Chain(roles, u)
    ensures Effective(roles[name := role], u) ==
      RolePerms(roles, Chain(roles, u) - Severed(roles, u, name)) + RolePerms(roles, Closure(roles, {role.parent}))
      + Elements(role.permissions) + Elements(u.direct)
  {
    var roles' := roles[name := role];
    var kept, above := Chain(roles, u) - Severed(roles, u, name), Closure(roles, {role.parent});
    SelfSevered(roles, u, name);
    ValidateExact(roles, maxDepth, name, role.parent);
    forall x | x in roles'
      ensures x in above <==> Reaches(roles, role.parent, x)
      ensures x in Chain(roles', u) <==> x == name || x in kept || x in above
    {
      AncestorsOf(roles, role.parent, x);
      SeveredByWrite(roles, maxDepth, name, role, u, x);
    }
    assert name !in above by {
      if role.parent == "" {
        NothingAboveNothing(roles, name);
      }
    }
    hide Chain, Severed, Forest, Validate, Closure, Reaches;
    PermsOfParts(roles, roles', name, Chain(roles', u), kept, above);
  }

  lemma NothingAboveNothing(roles: Roles, name: RoleID)
    requires name != ""
    ensures !Reaches(roles, "", name)
  {
    forall k: nat
      ensures Up(roles, "", k) != name
    {
      UpFromNowhere(roles, k);
    }
  }

  lemma AncestorsOf(roles: Roles, parent: RoleID, x: RoleID)
    requires x != ""
    ensures x in Closure(roles, {parent}) <==> Reaches(roles, parent, x)
  {
    ClosureIsAncestors(roles, {parent}, x);
    assert parent in {parent};
  }

  lemma PermsOfParts(roles: Roles, roles': Roles, name: RoleID, all: set<RoleID>, kept: set<RoleID>, above: set<RoleID>)
    requires name in roles' && roles' == roles[name := roles'[name]]
    requires name !in kept && name !in above
    requires forall x :: x in roles' ==> (x in all <==> x == name || x in kept || x in above)
    ensures RolePerms(roles', all) ==
      RolePerms(roles, kept) + RolePerms(roles, above) + Elements(roles'[name].permissions)
  {
    forall p
      ensures p in RolePerms(roles', all) <==>
        p in RolePerms(roles, kept) + RolePerms(roles, above) + Elements(roles'[name].permissions)
    {
      if p in RolePerms(roles', all) {
        var n :| n in all && n in roles' && p in roles'[n].permissions;
        assert n != name ==> roles'[n] == roles[n];
      }
      if p in RolePerms(roles, kept) + RolePerms(roles, above) {
        var n :| n in kept + above && n in roles && p in roles[n].permissions;
        assert roles'[n] == roles[n];
      }
      if p in Elements(roles'[name].permissions) {
        assert p in roles'[name].permissions;
      }
    }
  }

  lemma NameNotEmpty(roles: Roles, u: User, name: RoleID)
    requires name in Chain(roles, u) && name !in u.roles
    ensures name != ""
  {
    if name == "" {
      ClosureLeast(roles, Elements(u.roles), Chain(roles, u) - {""});
    }
  }
}
