/**
 * Writes the eviction does not see: when a cache entry that stays is right all the same, in terms of
 * the state before, and histories in which it is not.
 */
module Staleness {
  import opened Permissions
  import opened Entities
  import opened Ordering
  import opened Inheritance
  import opened EffectiveRoles
  import opened GrantedSets
  import opened Rbac
  import opened IndexInvariant
  import opened Coherence
  import opened Effects
  import opened Histories

  // One write, one user

  /** The user inherits the role, has cached grants, and does not hold the role directly. */
  ghost predicate Unseen(s: State, name: RoleID, uid: UserID)
  {
    Coherent(s, uid) && !SeenByEviction(s, name, uid)
  }

  lemma UnseenStays(s: State, name: RoleID, role: Role, uid: UserID)
    requires Inv(s) && Unseen(s, name, uid)
    ensures uid in WriteRole(s, name, role).cache
  {
    assert uid in HoldersOf(s.holders, name) <==> Holds(s, uid, name);
  }

  /**
   * Any write the hierarchy check accepts: the entry stays, and is right exactly when it holds what
   * the roles not severed, the new parent's chain, the new permissions and the direct grants amount to.
   */
  lemma WriteHonouredIff(s: State, maxDepth: nat, name: RoleID, role: Role, uid: UserID)
    requires Inv(s) && name in s.roles && Unseen(s, name, uid)
    requires Validate(s.roles, maxDepth, name, role.parent) == Nil
    ensures var s' := WriteRole(s, name, role);
      var u := s.users[uid];
      && uid in s'.cache
      && (Coherent(s', uid) <==>
            s.cache[uid] ==
              RolePerms(s.roles, Chain(s.roles, u) - Severed(s.roles, u, name))
              + RolePerms(s.roles, Closure(s.roles, {role.parent})) + Elements(role.permissions) + Elements(u.direct))
  {
    UnseenStays(s, name, role, uid);
    EffectiveAfterWrite(s.roles, maxDepth, name, role, s.users[uid]);
  }

  /** In particular a role overwritten as a whole. */
  lemma UpdateHonouredIff(s: State, maxDepth: nat, name: RoleID, ps: seq<Permission>, parent: RoleID, uid: UserID)
    requires Inv(s) && Unseen(s, name, uid) && UpdateRole(s, maxDepth, name, ps, parent).err == Nil
    ensures var s' := UpdateRole(s, maxDepth, name, ps, parent).state;
      var u := s.users[uid];
      && uid in s'.cache
      && (Coherent(s', uid) <==>
            s.cache[uid] ==
              RolePerms(s.roles, Chain(s.roles, u) - Severed(s.roles, u, name))
              + RolePerms(s.roles, Closure(s.roles, {parent})) + Elements(ps) + Elements(u.direct))
  {
    WriteHonouredIff(s, maxDepth, name, Role(ps, parent), uid);
  }

  lemma UnstoredSeversItself(roles: Roles, u: User, name: RoleID)
    requires name !in roles && name != "" && name in Chain(roles, u)
    ensures Severed(roles, u, name) == {name}
  {
    SelfSevered(roles, u, name);
    forall x | x in Severed(roles, u, name)
      ensures x == name
    {
      var k: nat :| Up(roles, name, k) == x;
      if k > 0 {
        UpFromNowhere(roles, k - 1);
      }
    }
  }

  /** A role created for a user who lists it already: the entry is right exactly when it brings nothing new. */
  lemma CreationHonouredIff(s: State, maxDepth: nat, name: RoleID, ps: seq<Permission>, parent: RoleID, uid: UserID)
    requires Inv(s) && Coherent(s, uid) && name in s.users[uid].roles
    requires CreateRole(s, maxDepth, name, ps, parent).err == Nil
    ensures var s' := CreateRole(s, maxDepth, name, ps, parent).state;
      && uid in s'.cache
      && (Coherent(s', uid) <==>
            Elements(ps) + RolePerms(s.roles, Closure(s.roles, {parent})) <= s.cache[uid])
  {
    var u := s.users[uid];
    var s' := CreateRole(s, maxDepth, name, ps, parent).state;
    assert s'.roles == s.roles[name := Role(ps, parent)] && s'.cache == s.cache && s'.users == s.users;
    assert name in Chain(s.roles, u);
    UnstoredSeversItself(s.roles, u, name);
    EffectiveAfterWrite(s.roles, maxDepth, name, Role(ps, parent), u);
    hide Inv, Chain, Severed, CreateRole, Closure;
    assert RolePerms(s.roles, Chain(s.roles, u) - {name}) == RolePerms(s.roles, Chain(s.roles, u));
  }

  /** A permission granted to the role arrives exactly when the user had it anyway. */
  lemma GrantHonouredIff(s: State, name: RoleID, p: Permission, uid: UserID)
    requires Inv(s) && name in s.roles && Unseen(s, name, uid) && p.Valid()
    ensures var s' := GrantPermission(s, name, p).state;
      uid in s'.cache && (Coherent(s', uid) <==> p in s.cache[uid])
  {
    var role := s.roles[name];
    UnseenStays(s, name, role.(permissions := role.permissions + [p]), uid);
    RoleGrantReaches(s, name, p, uid);
  }

  /** A permission revoked from the role goes exactly when it should not: when something else grants it. */
  lemma RevocationHonouredIff(s: State, name: RoleID, p: Permission, uid: UserID)
    requires Inv(s) && name in s.roles && Unseen(s, name, uid) && p.Valid() && p in s.roles[name].permissions
    ensures var s' := RevokePermission(s, name, p).state;
      var u := s.users[uid];
      && uid in s'.cache && p in s'.cache[uid]
      && (Coherent(s', uid) <==>
            p in RolePerms(s.roles, Chain(s.roles, u) - {name}) + Elements(u.direct))
  {
    var role := s.roles[name];
    var role' := role.(permissions := Without(role.permissions, p));
    var u := s.users[uid];
    UnseenStays(s, name, role', uid);
    SameParentSameChain(s, name, role', u);
    PermsAfterRevocation(s.roles, name, p, Chain(s.roles, u));
    assert p in RolePerms(s.roles, Chain(s.roles, u));
  }

  lemma PermsAfterRevocation(roles: Roles, name: RoleID, p: Permission, c: set<RoleID>)
    requires name in roles && name in c
    ensures RolePerms(roles[name := roles[name].(permissions := Without(roles[name].permissions, p))], c) ==
      RolePerms(roles, c - {name}) + (Elements(roles[name].permissions) - {p})
    ensures RolePerms(roles, c) == RolePerms(roles, c - {name}) + Elements(roles[name].permissions)
  {
    var roles' := roles[name := roles[name].(permissions := Without(roles[name].permissions, p))];
    forall q
      ensures q in RolePerms(roles', c) <==>
        q in RolePerms(roles, c - {name}) || (q in roles[name].permissions && q != p)
      ensures q in RolePerms(roles, c) <==> q in RolePerms(roles, c - {name}) || q in roles[name].permissions
    {
      if q in RolePerms(roles', c) {
        var n :| n in c && n in roles' && q in roles'[n].permissions;
        assert n != name ==> roles'[n] == roles[n];
      }
      if q in RolePerms(roles, c - {name}) {
        var n :| n in c - {name} && n in roles && q in roles[n].permissions;
        assert roles'[n] == roles[n];
      }
      if q in roles[name].permissions && q != p {
        assert q in roles'[name].permissions;
      }
    }
  }

  /**
   * A role moved under another parent: the entry stays right exactly when nothing granted above it only
   * is lost, and nothing that comes with the new parent is new.
   */
  lemma MoveHonouredIff(s: State, maxDepth: nat, name: RoleID, parent: RoleID, uid: UserID)
    requires Inv(s) && name in s.roles && Unseen(s, name, uid)
    requires s.roles[name].parent != parent && SetParent(s, maxDepth, name, parent).err == Nil
    ensures var s' := SetParent(s, maxDepth, name, parent).state;
      var u := s.users[uid];
      var severed := Severed(s.roles, u, name);
      var kept := RolePerms(s.roles, Chain(s.roles, u) - severed + {name}) + Elements(u.direct);
      var gained := RolePerms(s.roles, Closure(s.roles, {parent}));
      && uid in s'.cache
      && (Coherent(s', uid) <==> RolePerms(s.roles, severed) <= kept + gained && gained <= s.cache[uid])
  {
    var u := s.users[uid];
    var role := s.roles[name].(parent := parent);
    WriteHonouredIff(s, maxDepth, name, role, uid);
    assert SetParent(s, maxDepth, name, parent).state == WriteRole(s, name, role);
    NameNotEmpty(s.roles, u, name);
    SelfSevered(s.roles, u, name);
    var c, severed := Chain(s.roles, u), Severed(s.roles, u, name);
    hide Inv, Chain, Severed, SetParent, WriteRole, Validate, Closure;
    SplitPerms(s.roles, c, severed);
    AddRole(s.roles, c - severed, name);
  }

  lemma AddRole(roles: Roles, c: set<RoleID>, name: RoleID)
    requires name in roles
    ensures RolePerms(roles, c + {name}) == RolePerms(roles, c) + Elements(roles[name].permissions)
  {
    assert forall p :: p in Elements(roles[name].permissions) ==> p in roles[name].permissions;
  }

  // Decisions that are wrong

  /** A cached answer denies what the rule grants. */
  ghost predicate DeniesWrongly(s: State, id: UserID, p: Permission)
  {
    && id in s.users && id in s.cache
    && !Covers(GrantsOf(s, id), p) && RuleGrants(s.roles, s.users[id], p)
  }

  /** A cached answer allows what the rule does not grant. */
  ghost predicate AllowsWrongly(s: State, id: UserID, p: Permission)
  {
    && id in s.users && id in s.cache
    && Covers(GrantsOf(s, id), p) && !RuleGrants(s.roles, s.users[id], p)
  }

  const READ := Permission("article", "read")
  const WRITE := Permission("article", "write")

  /** A user two levels below a granting role, asked about once. */
  const INHERIT_THEN_ASK := [CreatingRole("base", [READ], ""), CreatingRole("mid", [], "base"),
                             CreatingRole("child", [], "mid"), CreatingUser("u", ["child"]), QueryingGrants("u")]

  const THREE_LEVELS: Roles := map["base" := Role([READ], ""), "mid" := Role([], "base"), "child" := Role([], "mid")]

  const HOLDER := User(["child"], [])

  ghost predicate Asked(s: State)
  {
    Inv(s) && s.roles == THREE_LEVELS && s.users == map["u" := HOLDER] && Coherent(s, "u")
  }

  lemma ThreeLevelsBuilt()
    ensures var s := Run(32, INHERIT_THEN_ASK[..3]); s.roles == THREE_LEVELS && s.users == map[] && s.cache == map[]
  {
    StepOfRun(32, INHERIT_THEN_ASK, 0);
    StepOfRun(32, INHERIT_THEN_ASK, 1);
    StepOfRun(32, INHERIT_THEN_ASK, 2);
    assert AllValid([READ]);
    assert Run(32, INHERIT_THEN_ASK[..1]).roles == map["base" := Role([READ], "")];
    assert Run(32, INHERIT_THEN_ASK[..2]).roles == map["base" := Role([READ], ""), "mid" := Role([], "base")];
  }

  lemma HolderAsked(s: State)
    requires s.roles == THREE_LEVELS && s.users == map[] && s.cache == map[]
    ensures var s' := QueryGrants(CreateUser(s, "u", ["child"]).state, "u").state;
      s'.roles == THREE_LEVELS && s'.users == map["u" := HOLDER] && Coherent(s', "u")
  {
    hide Effective;
  }

  lemma AskedAfter(ops: seq<Op>)
    requires var s := Run(32, ops); s.roles == THREE_LEVELS && s.users == map[] && s.cache == map[]
    ensures Asked(Run(32, ops + [CreatingUser("u", ["child"])] + [QueryingGrants("u")]))
  {
    hide Inv, Run, CreateUser, QueryGrants, Coherent;
    var longer := ops + [CreatingUser("u", ["child"])];
    RunAppend(32, ops, CreatingUser("u", ["child"]));
    RunAppend(32, longer, QueryingGrants("u"));
    RunKeepsInv(32, longer + [QueryingGrants("u")]);
    HolderAsked(Run(32, ops));
  }

  lemma SetupIsAsked() returns (ops: seq<Op>)
    ensures ops == INHERIT_THEN_ASK && Asked(Run(32, ops))
  {
    ThreeLevelsBuilt();
    hide Run, Asked;
    var roles := INHERIT_THEN_ASK[..3];
    AskedAfter(roles);
    ops := roles + [CreatingUser("u", ["child"])] + [QueryingGrants("u")];
  }

  lemma ChainOfHolder()
    ensures Chain(THREE_LEVELS, HOLDER) == {"child", "mid", "base"}
    ensures Effective(THREE_LEVELS, HOLDER) == {READ}
  {
    var all := {"child", "mid", "base"};
    assert ParentOf(THREE_LEVELS, "child") == "mid" && ParentOf(THREE_LEVELS, "mid") == "base";
    assert ParentOf(THREE_LEVELS, "base") == "";
    ClosureLeast(THREE_LEVELS, Elements(HOLDER.roles), all);
    var c := Chain(THREE_LEVELS, HOLDER);
    assert "child" in HOLDER.roles && "child" in c;
    assert "mid" in ParentsIn(THREE_LEVELS, c);
    assert "base" in ParentsIn(THREE_LEVELS, c);
    assert READ in THREE_LEVELS["base"].permissions;
    assert RolePerms(THREE_LEVELS, all) == {READ};
  }

  lemma Powerless(roles: Roles, u: User)
    requires u.direct == [] && forall n :: n in roles ==> roles[n].permissions == []
    ensures Effective(roles, u) == {}
  {
  }

  /** With nothing left to grant, an entry that still has READ allows wrongly. */
  lemma NothingLeft(s: State)
    requires "u" in s.users && "u" in s.cache && s.cache["u"] == {READ} && "" !in s.roles
    requires Effective(s.roles, s.users["u"]) == {}
    ensures AllowsWrongly(s, "u", READ)
  {
    assert READ in GrantsOf(s, "u") && READ.Matches(READ);
    EffectiveIsRule(s.roles, s.users["u"], READ);
  }

  lemma AskedIsUnseen(s: State, name: RoleID)
    requires Asked(s) && name in {"mid", "base"}
    ensures Unseen(s, name, "u") && s.cache["u"] == {READ}
  {
    ChainOfHolder();
  }

  /** Granting to a parent role does not reach a user who inherits it and was asked about before. */
  lemma {:induction false} GrantToParentGoesStale() returns (ops: seq<Op>)
    ensures ops == INHERIT_THEN_ASK + [GrantingPermission("base", WRITE)]
    ensures DeniesWrongly(Run(32, ops), "u", WRITE)
  {
    var setup := SetupIsAsked();
    hide Asked, DeniesWrongly, AllowsWrongly, Run;
    ops := setup + [GrantingPermission("base", WRITE)];
    RunAppend(32, setup, GrantingPermission("base", WRITE));
    StaleAfterGrant(Run(32, setup));
  }

  lemma NotReached(s: State)
    requires "u" in s.users && "u" in s.cache && s.cache["u"] == {READ} && "" !in s.roles
    requires WRITE in Effective(s.roles, s.users["u"])
    ensures DeniesWrongly(s, "u", WRITE)
  {
    assert !READ.Matches(WRITE) && WRITE.Matches(WRITE);
    EffectiveIsRule(s.roles, s.users["u"], WRITE);
  }

  lemma StaleAfterGrant(s: State)
    requires Asked(s)
    ensures DeniesWrongly(GrantPermission(s, "base", WRITE).state, "u", WRITE)
  {
    var s' := GrantPermission(s, "base", WRITE).state;
    AskedIsUnseen(s, "base");
    UnseenStays(s, "base", Role([READ, WRITE], ""), "u");
    RoleGrantReaches(s, "base", WRITE, "u");
    assert "" !in s'.roles && s'.cache["u"] == {READ};
    hide Inv, Unseen, Chain, Effective, GrantPermission, DeniesWrongly;
    NotReached(s');
  }

  /** Revoking from a parent role does not stop such a user. */
  lemma {:induction false} RevokedStillAllowed() returns (ops: seq<Op>)
    ensures ops == INHERIT_THEN_ASK + [RevokingPermission("base", READ)]
    ensures AllowsWrongly(Run(32, ops), "u", READ)
  {
    var setup := SetupIsAsked();
    hide Asked, DeniesWrongly, AllowsWrongly, Run;
    ops := setup + [RevokingPermission("base", READ)];
    RunAppend(32, setup, RevokingPermission("base", READ));
    StaleAfterRevocation(Run(32, setup));
  }

  lemma StaleAfterRevocation(s: State)
    requires Asked(s)
    ensures AllowsWrongly(RevokePermission(s, "base", READ).state, "u", READ)
  {
    var s' := RevokePermission(s, "base", READ).state;
    AskedIsUnseen(s, "base");
    UnseenStays(s, "base", Role([], ""), "u");
    assert Without([READ], READ) == [];
    assert s'.roles == THREE_LEVELS["base" := Role([], "")] && s'.cache["u"] == {READ} && s'.users["u"] == HOLDER;
    hide Inv, RevokePermission, AllowsWrongly, Effective;
    Powerless(s'.roles, HOLDER);
    NothingLeft(s');
  }

  /** Nor does deleting the granting role two levels up. */
  lemma {:induction false} DeletedStillAllowed() returns (ops: seq<Op>)
    ensures ops == INHERIT_THEN_ASK + [DeletingRole("base")]
    ensures AllowsWrongly(Run(32, ops), "u", READ)
  {
    var setup := SetupIsAsked();
    hide Asked, DeniesWrongly, AllowsWrongly, Run;
    ops := setup + [DeletingRole("base")];
    RunAppend(32, setup, DeletingRole("base"));
    StaleAfterDeletion(Run(32, setup));
  }

  lemma EntryAfterDeletion(s: State)
    requires Asked(s)
    ensures var s' := DeleteRole(s, "base").state;
      && s'.roles == Detach(THREE_LEVELS, "base") && "u" in s'.users && s'.users["u"] == HOLDER
      && "u" in s'.cache && s'.cache["u"] == {READ}
  {
    AskedIsUnseen(s, "base");
    assert !HoldsChild(s, "base", "u") by {
      assert Children(s.roles, "base") == {"mid"};
    }
    EvictedByDeletion(s, "base", "u");
    hide Inv, Detach, Effective, Chain, HoldsChild, Children, HoldersOfAny, StripDirect, Unseen;
  }

  lemma NothingAfterDeletion()
    ensures "" !in Detach(THREE_LEVELS, "base") && Effective(Detach(THREE_LEVELS, "base"), HOLDER) == {}
  {
    hide Effective;
    Powerless(Detach(THREE_LEVELS, "base"), HOLDER);
  }

  lemma StaleAfterDeletion(s: State)
    requires Asked(s)
    ensures AllowsWrongly(DeleteRole(s, "base").state, "u", READ)
  {
    EntryAfterDeletion(s);
    NothingAfterDeletion();
    hide Asked, DeleteRole, Detach, AllowsWrongly, Effective;
    NothingLeft(DeleteRole(s, "base").state);
  }

  /** Nor does cutting the hierarchy in between. */
  lemma {:induction false} MovedStillAllowed() returns (ops: seq<Op>)
    ensures ops == INHERIT_THEN_ASK + [SettingParent("mid", "")]
    ensures AllowsWrongly(Run(32, ops), "u", READ)
  {
    var setup := SetupIsAsked();
    hide Asked, DeniesWrongly, AllowsWrongly, Run;
    ops := setup + [SettingParent("mid", "")];
    RunAppend(32, setup, SettingParent("mid", ""));
    StaleAfterMove(Run(32, setup));
  }

  lemma NothingAfterMove()
    ensures Effective(THREE_LEVELS["mid" := Role([], "")], HOLDER) == {}
  {
    var roles := THREE_LEVELS["mid" := Role([], "")];
    assert ParentOf(roles, "child") == "mid" && ParentOf(roles, "mid") == "";
    ClosureLeast(roles, Elements(HOLDER.roles), {"child", "mid"});
  }

  lemma StaleAfterMove(s: State)
    requires Asked(s)
    ensures AllowsWrongly(SetParent(s, 32, "mid", "").state, "u", READ)
  {
    var s' := SetParent(s, 32, "mid", "").state;
    AskedIsUnseen(s, "mid");
    UnseenStays(s, "mid", Role([], ""), "u");
    assert s'.roles == THREE_LEVELS["mid" := Role([], "")] && s'.cache["u"] == {READ} && s'.users["u"] == HOLDER;
    hide Inv, SetParent, AllowsWrongly, Effective;
    NothingAfterMove();
    NothingLeft(s');
  }

  lemma LateRoleAsked(ops: seq<Op>)
    requires ops == [CreatingUser("u", ["late"]), QueryingGrants("u")]
    ensures var s := Run(32, ops);
      s.roles == map[] && s.users == map["u" := User(["late"], [])] && "u" in s.cache && s.cache["u"] == {}
  {
    StepOfRun(32, ops, 0);
    StepOfRun(32, ops, 1);
    assert ops[..2] == ops;
    Powerless(map[], User(["late"], []));
    hide Effective;
    assert Run(32, ops[..1]).users == map["u" := User(["late"], [])];
  }

  lemma StaleAfterCreation(s: State)
    requires s.roles == map[] && s.users == map["u" := User(["late"], [])] && "u" in s.cache && s.cache["u"] == {}
    ensures DeniesWrongly(CreateRole(s, 32, "late", [READ], "").state, "u", READ)
  {
    var s' := CreateRole(s, 32, "late", [READ], "").state;
    assert AllValid([READ]);
    assert s'.users == s.users && s'.roles == map["late" := Role([READ], "")] && s'.cache == s.cache;
    hide CreateRole;
    CreatedIsGranted(s'.roles, "late", s'.users["u"], READ);
    assert READ.Matches(READ);
    EffectiveIsRule(s'.roles, s'.users["u"], READ);
  }

  /** Creating a role does not reach a user who was created with its name and asked about before. */
  lemma {:induction false} CreatedAfterUseGoesStale() returns (ops: seq<Op>)
    ensures ops == [CreatingUser("u", ["late"]), QueryingGrants("u"), CreatingRole("late", [READ], "")]
    ensures DeniesWrongly(Run(32, ops), "u", READ)
  {
    var setup := [CreatingUser("u", ["late"]), QueryingGrants("u")];
    LateRoleAsked(setup);
    hide DeniesWrongly, Run;
    ops := setup + [CreatingRole("late", [READ], "")];
    RunAppend(32, setup, CreatingRole("late", [READ], ""));
    StaleAfterCreation(Run(32, setup));
  }
}
