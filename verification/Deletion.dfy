/** How the loops of a role deletion add up to its effect on the whole state. */
module Deletion {
  import opened Entities
  import opened Ordering
  import opened Inheritance
  import opened Rbac

  lemma StripUsersStep(users: Users, done: set<UserID>, name: RoleID, uid: UserID)
    requires uid in users && uid !in done
    ensures var u := users[uid].(roles := Without(users[uid].roles, name));
      && StripUsers(users, done, name)[uid] == users[uid]
      && StripUsers(users, done + {uid}, name) == StripUsers(users, done, name)[uid := u]
  {
  }

  lemma StripDirectStep(direct: DirectRoles, users: Users, done: set<UserID>, uid: UserID)
    requires done <= users.Keys && uid in users
    ensures StripDirect(direct, users, done + {uid}) ==
      WithDirect(StripDirect(direct, users, done), uid, users[uid].roles)
  {
    assert users[uid].roles != [] ==> users[uid].roles[0] in Elements(users[uid].roles);
  }

  lemma StripNothing(direct: DirectRoles, users: Users, name: RoleID)
    ensures StripDirect(direct, users, {}) == direct
    ensures StripUsers(users, {}, name) == users
  {
  }

  /** The roles after the children listed in `done` have become roots. */
  function Orphaned(roles: Roles, name: RoleID, done: set<RoleID>): Roles
  {
    map n | n in roles :: if n in done && roles[n].parent == name then roles[n].(parent := "") else roles[n]
  }

  lemma OrphanedStep(roles: Roles, name: RoleID, done: set<RoleID>, n: RoleID)
    requires n in roles && name != "" && n !in done
    ensures n in Orphaned(roles, name, done) && Orphaned(roles, name, done)[n] == roles[n]
    ensures roles[n].parent != name ==> Orphaned(roles, name, done + {n}) == Orphaned(roles, name, done)
    ensures roles[n].parent == name ==>
      Orphaned(roles, name, done + {n}) == Orphaned(roles, name, done)[n := roles[n].(parent := "")]
  {
  }

  lemma OrphanedAll(roles: Roles, name: RoleID)
    ensures Orphaned(roles, name, roles.Keys) - {name} == Detach(roles, name)
    ensures Orphaned(roles, name, roles.Keys).Keys == roles.Keys
    ensures Orphaned(roles, name, {}) == roles
  {
  }

  lemma EvictedStep(holders: Holders, roles: Roles, name: RoleID, done: set<RoleID>, n: RoleID)
    requires n in roles
    ensures HoldersOfAny(holders, Children(roles, name) * (done + {n})) ==
      HoldersOfAny(holders, Children(roles, name) * done)
      + (if roles[n].parent == name then HoldersOf(holders, n) else {})
  {
  }

  lemma EvictedEnds(holders: Holders, roles: Roles, name: RoleID)
    ensures HoldersOfAny(holders, Children(roles, name) * {}) == {}
    ensures HoldersOfAny(holders, Children(roles, name) * roles.Keys) == HoldersOfAny(holders, Children(roles, name))
  {
    assert Children(roles, name) * roles.Keys == Children(roles, name);
  }

  lemma SameHoldersOfOthers(holders: Holders, holders': Holders, name: RoleID, names: set<RoleID>)
    requires holders' - {name} == holders - {name} && name !in names
    ensures HoldersOfAny(holders', names) == HoldersOfAny(holders, names)
  {
    forall n | n in names
      ensures HoldersOf(holders', n) == HoldersOf(holders, n)
    {
      assert n in holders' <==> n in holders' - {name};
      assert n in holders <==> n in holders - {name};
      assert n in holders ==> (holders - {name})[n] == holders[n];
      assert n in holders' ==> (holders' - {name})[n] == holders'[n];
    }
  }

  lemma NotItsOwnChild(roles: Roles, name: RoleID)
    requires Forest(roles) && name != ""
    ensures name !in Children(roles, name)
  {
    if name in Children(roles, name) {
      assert Up(roles, name, 1) == name;
      EndingMeansNoLap(roles, name, 1);
    }
  }
}
