/** Whole histories: when the caches stay right, what access decisions mean, how deep the forest gets. */
module Histories {
  import opened Permissions
  import opened Entities
  import opened Ordering
  import opened Inheritance
  import opened EffectiveRoles
  import opened GrantedSets
  import opened Rbac
  import opened IndexInvariant
  import opened Coherence

  // The documented rule

  /** A role the user holds, directly or through parents, carries a permission covering the request. */
  ghost predicate RoleGrants(roles: Roles, u: User, required: Permission)
  {
    exists r, n, p :: r in u.roles && Reaches(roles, r, n) &&
      n in roles && p in roles[n].permissions && p.Matches(required)
  }

  /** Access is granted when any held role, inherited ones included, or a direct grant covers the request. */
  ghost predicate RuleGrants(roles: Roles, u: User, required: Permission)
  {
    Covers(Elements(u.direct), required) || RoleGrants(roles, u, required)
  }

  lemma EffectiveIsRule(roles: Roles, u: User, required: Permission)
    requires "" !in roles
    ensures Covers(Effective(roles, u), required) <==> RuleGrants(roles, u, required)
  {
    var c := Chain(roles, u);
    if RoleGrants(roles, u, required) {
      var r, n, p :| r in u.roles && Reaches(roles, r, n) &&
        n in roles && p in roles[n].permissions && p.Matches(required);
      assert r in Elements(u.roles) && AboveSome(roles, Elements(u.roles), n);
      ClosureIsAncestors(roles, Elements(u.roles), n);
      assert p in RolePerms(roles, c);
    }
    if Covers(RolePerms(roles, c), required) {
      var p :| p in RolePerms(roles, c) && p.Matches(required);
      var n :| n in c && n in roles && p in roles[n].permissions;
      ClosureIsAncestors(roles, Elements(u.roles), n);
      var r :| r in Elements(u.roles) && Reaches(roles, r, n);
      assert r in u.roles;
    }
    if Covers(Effective(roles, u), required) {
      var p :| p in Effective(roles, u) && p.Matches(required);
      assert p in RolePerms(roles, c) || p in Elements(u.direct);
    }
    if Covers(Elements(u.direct), required) {
      var p :| p in Elements(u.direct) && p.Matches(required);
      assert p in Effective(roles, u);
    }
  }

  // Histories with a right cache

  ghost predicate RolesExist(s: State)
  {
    forall id, r :: id in s.users && r in s.users[id].roles ==> r in s.roles
  }

  /**
   * Users start with existing roles, only roles that are nobody's parent are written, and a deleted
   * role has no grandchildren.
   */
  ghost predicate Disciplined(s: State, op: Op)
  {
    if op.CreatingUser? then Elements(op.held) <= s.roles.Keys
    else if WritesRole(op) then Childless(s.roles, op.name)
    else if op.DeletingRole? then forall c :: c in Children(s.roles, op.name) ==> Childless(s.roles, c)
    else true
  }

  ghost predicate DisciplinedRun(maxDepth: nat, ops: seq<Op>)
  {
    forall i :: 0 <= i < |ops| ==> Disciplined(Run(maxDepth, ops[..i]), ops[i])
  }

  /** Every step is safe for every user with cached grants. */
  ghost predicate SafeStep(s: State, op: Op)
  {
    forall uid :: uid in s.cache && uid in s.users ==> Safe(s, op, uid)
  }

  ghost predicate SafeRun(maxDepth: nat, ops: seq<Op>)
  {
    forall i :: 0 <= i < |ops| ==> SafeStep(Run(maxDepth, ops[..i]), ops[i])
  }

  /** In every safe history each cached granted set is what a fresh computation would build. */
  lemma {:induction false} SafeRunsStayCoherent(maxDepth: nat, ops: seq<Op>)
    requires SafeRun(maxDepth, ops)
    ensures Inv(Run(maxDepth, ops)) && AllCoherent(Run(maxDepth, ops))
  {
    RunKeepsInv(maxDepth, ops);
    if ops != [] {
      var n := |ops| - 1;
      var before := ops[..n];
      assert forall i :: 0 <= i < n ==> before[..i] == ops[..i];
      SafeRunsStayCoherent(maxDepth, before);
      SafeStepKeepsCoherence(Run(maxDepth, before), maxDepth, ops[n]);
    }
  }

  /** There, access decisions are the documented rule applied to the current store, cached or not. */
  lemma {:induction false} SafeDecisionsFollowRule(maxDepth: nat, ops: seq<Op>, id: UserID, required: Permission)
    requires SafeRun(maxDepth, ops)
    requires id in Run(maxDepth, ops).users
    ensures var s := Run(maxDepth, ops);
      Covers(GrantsOf(s, id), required) <==> RuleGrants(s.roles, s.users[id], required)
  {
    var s := Run(maxDepth, ops);
    SafeRunsStayCoherent(maxDepth, ops);
    EffectiveIsRule(s.roles, s.users[id], required);
  }

  /**
   * In every history at all, a cached granted set is what the user's own roles and grants amount to now, on the
   * roles of some earlier moment. Only the role map of a cached answer can be out of date.
   */
  lemma {:induction false} CachedOnEarlierRoles(maxDepth: nat, ops: seq<Op>, uid: UserID) returns (i: nat)
    requires uid in Run(maxDepth, ops).cache
    ensures i <= |ops| && uid in Run(maxDepth, ops).users && uid in Run(maxDepth, ops[..i]).users
    ensures Run(maxDepth, ops[..i]).users[uid] == Run(maxDepth, ops).users[uid]
    ensures Run(maxDepth, ops).cache[uid] == Effective(Run(maxDepth, ops[..i]).roles, Run(maxDepth, ops).users[uid])
  {
    assert ops[..|ops|] == ops;
    var n := |ops| - 1;
    var before, op := ops[..n], ops[n];
    var s := Run(maxDepth, before);
    hide Effective, Apply;
    if uid in s.cache {
      RunKeepsInv(maxDepth, before);
      SurvivorKeeps(s, maxDepth, op, uid);
      i := CachedOnEarlierRoles(maxDepth, before, uid);
      assert before[..i] == ops[..i];
    } else {
      OnlyQueriesFill(s, maxDepth, op, uid);
      i := |ops|;
    }
  }

  /** So every decision is the documented rule for the user as stored now, on the roles of some earlier moment. */
  lemma {:induction false} DecidedOnEarlierRoles(maxDepth: nat, ops: seq<Op>, id: UserID) returns (i: nat)
    requires id in Run(maxDepth, ops).users
    ensures i <= |ops|
    ensures var s := Run(maxDepth, ops);
      forall required :: Covers(GrantsOf(s, id), required) <==>
        RuleGrants(Run(maxDepth, ops[..i]).roles, s.users[id], required)
  {
    var s := Run(maxDepth, ops);
    if id in s.cache {
      i := CachedOnEarlierRoles(maxDepth, ops, id);
    } else {
      i := |ops|;
      assert ops[..i] == ops;
    }
    var roles := Run(maxDepth, ops[..i]).roles;
    RunKeepsInv(maxDepth, ops[..i]);
    assert "" !in roles && GrantsOf(s, id) == Effective(roles, s.users[id]);
    forall required
      ensures Covers(GrantsOf(s, id), required) <==> RuleGrants(roles, s.users[id], required)
    {
      EffectiveIsRule(roles, s.users[id], required);
    }
  }

  lemma DisciplinedIsSafe(s: State, op: Op, uid: UserID)
    requires Inv(s) && RolesExist(s) && Disciplined(s, op) && uid in s.users
    ensures Safe(s, op, uid)
  {
    var u := s.users[uid];
    if (WritesRole(op) || op.DeletingRole?) && !SeenByEviction(s, op.name, uid) {
      var child := InheritedThroughChild(s.roles, u, op.name);
      if op.DeletingRole? {
        assert child in Children(s.roles, op.name);
        if child !in u.roles {
          var grandchild := InheritedThroughChild(s.roles, u, child);
        }
      }
    }
  }

  lemma RolesKeepExisting(s: State, maxDepth: nat, op: Op)
    requires Inv(s) && RolesExist(s) && Disciplined(s, op)
    ensures RolesExist(Apply(s, maxDepth, op).state)
  {
    hide Forest, Validate;
    if WritesRole(op) {
      var role := RoleWriteShape(s, maxDepth, op);
    } else if op.DeletingRole? {
      if op.name in s.roles {
        DeleteRoleCascades(s, op.name);
      }
    } else if op.CreatingUser? {
      assert forall r :: r in op.held ==> r in Elements(op.held);
    }
  }

  lemma DisciplinedStepIsSafe(s: State, op: Op)
    requires Inv(s) && RolesExist(s) && Disciplined(s, op)
    ensures SafeStep(s, op)
  {
    forall uid | uid in s.cache && uid in s.users
      ensures Safe(s, op, uid)
    {
      DisciplinedIsSafe(s, op, uid);
    }
  }

  /** Discipline is a way of being safe that does not look at the caches. */
  lemma {:induction false} DisciplinedRunsAreSafe(maxDepth: nat, ops: seq<Op>)
    requires DisciplinedRun(maxDepth, ops)
    ensures SafeRun(maxDepth, ops) && RolesExist(Run(maxDepth, ops))
  {
    hide SafeStep, Inv, Disciplined, Apply;
    if ops != [] {
      var n := |ops| - 1;
      var before := ops[..n];
      assert forall i :: 0 <= i < n ==> before[..i] == ops[..i];
      DisciplinedRunsAreSafe(maxDepth, before);
      RunKeepsInv(maxDepth, before);
      RolesKeepExisting(Run(maxDepth, before), maxDepth, ops[n]);
      DisciplinedStepIsSafe(Run(maxDepth, before), ops[n]);
      assert forall i :: 0 <= i < n ==> SafeStep(Run(maxDepth, before[..i]), before[i]);
    }
  }

  // Histories within the depth cap

  /** Parents change for roles without children only. */
  ghost predicate ReparentsLeaves(s: State, op: Op)
  {
    (op.UpdatingRole? || op.SettingParent?) && op.name in s.roles ==>
      op.parent == s.roles[op.name].parent || Childless(s.roles, op.name)
  }

  ghost predicate LeafReparentingRun(maxDepth: nat, ops: seq<Op>)
  {
    forall i :: 0 <= i < |ops| ==> ReparentsLeaves(Run(maxDepth, ops[..i]), ops[i])
  }

  lemma SameParentKeepsCap(roles: Roles, cap: nat, name: RoleID, role: Role)
    requires WithinCap(roles, cap) && name in roles && role.parent == roles[name].parent
    ensures WithinCap(roles[name := role], cap)
  {
    var roles' := roles[name := role];
    forall n | n in roles'
      ensures Up(roles', n, cap + 1) == ""
    {
      SameParentsSameChains(roles, roles', n, cap + 1);
    }
  }

  lemma NewRoleChildless(s: State, name: RoleID)
    requires Inv(s) && name !in s.roles && name != ""
    ensures Childless(s.roles, name)
  {
  }

  /** A write of a new parent to a stored role leaves room below the cap. */
  ghost predicate RoomLeft(s: State, maxDepth: nat, op: Op)
  {
    (op.UpdatingRole? || op.SettingParent?) && op.name in s.roles && Apply(s, maxDepth, op).err == Nil ==>
      LeavesRoom(s.roles, maxDepth, op.name, op.parent)
  }

  lemma SameParentLeavesRoom(roles: Roles, maxDepth: nat, name: RoleID)
    requires WithinCap(roles, maxDepth) && name in roles && name != ""
    ensures LeavesRoom(roles, maxDepth, name, roles[name].parent)
  {
    forall n, j: nat | n in roles && j <= maxDepth && Up(roles, n, j) == name
      ensures Up(roles, roles[name].parent, maxDepth - j) == ""
    {
      UpAdd(roles, n, j, maxDepth - j + 1);
    }
  }

  lemma LeafLeavesRoom(roles: Roles, maxDepth: nat, name: RoleID, parent: RoleID)
    requires Childless(roles, name) && name in roles && name != "" && Validate(roles, maxDepth, name, parent) == Nil
    ensures LeavesRoom(roles, maxDepth, name, parent)
  {
    forall n, j: nat | n in roles && j <= maxDepth && Up(roles, n, j) == name
      ensures Up(roles, parent, maxDepth - j) == ""
    {
      if j > 0 {
        UpAdd(roles, n, j - 1, 1);
      }
      AcceptedEnds(roles, maxDepth, name, parent);
    }
  }

  lemma LeafWriteLeavesRoom(s: State, maxDepth: nat, op: Op)
    requires Inv(s) && WithinCap(s.roles, maxDepth) && ReparentsLeaves(s, op)
    ensures RoomLeft(s, maxDepth, op)
  {
    assert "" !in s.roles;
    hide Inv, WithinCap, Childless, Validate, LeavesRoom;
    if (op.UpdatingRole? || op.SettingParent?) && op.name in s.roles && Apply(s, maxDepth, op).err == Nil {
      if op.parent == s.roles[op.name].parent {
        SameParentLeavesRoom(s.roles, maxDepth, op.name);
      } else {
        LeafLeavesRoom(s.roles, maxDepth, op.name, op.parent);
      }
    }
  }

  lemma ParentWriteKeepsCapIff(s: State, maxDepth: nat, op: Op)
    requires Inv(s) && WithinCap(s.roles, maxDepth) && (op.UpdatingRole? || op.SettingParent?)
    ensures WithinCap(Apply(s, maxDepth, op).state.roles, maxDepth) <==> RoomLeft(s, maxDepth, op)
  {
    assert Forest(s.roles) && "" !in s.roles;
    hide Inv, WithinCap, Validate, LeavesRoom, Forest;
    if op.name in s.roles && Apply(s, maxDepth, op).err == Nil {
      if op.SettingParent? && op.parent == s.roles[op.name].parent {
        SameParentLeavesRoom(s.roles, maxDepth, op.name);
      } else {
        var role := if op.UpdatingRole? then Role(op.permissions, op.parent)
          else s.roles[op.name].(parent := op.parent);
        CapKeptIff(s.roles, maxDepth, op.name, role);
      }
    }
  }

  lemma GrantWriteKeepsCap(s: State, maxDepth: nat, op: Op)
    requires Inv(s) && WithinCap(s.roles, maxDepth) && (op.GrantingPermission? || op.RevokingPermission?)
    ensures WithinCap(Apply(s, maxDepth, op).state.roles, maxDepth)
  {
    var role := RoleWriteShape(s, maxDepth, op);
    hide Inv, WithinCap, Validate, Apply;
    if Apply(s, maxDepth, op).state != s {
      SameParentKeepsCap(s.roles, maxDepth, op.name, role);
    }
  }

  lemma CreationKeepsCap(s: State, maxDepth: nat, name: RoleID, ps: seq<Permission>, parent: RoleID)
    requires Inv(s) && WithinCap(s.roles, maxDepth)
    ensures WithinCap(CreateRole(s, maxDepth, name, ps, parent).state.roles, maxDepth)
  {
    hide Inv, WithinCap, Childless, Validate;
    if CreateRole(s, maxDepth, name, ps, parent).err == Nil {
      NewRoleChildless(s, name);
      ChildlessWriteKeepsCap(s.roles, maxDepth, name, Role(ps, parent));
    }
  }

  lemma DeletionKeepsCap(s: State, maxDepth: nat, name: RoleID)
    requires Inv(s) && WithinCap(s.roles, maxDepth)
    ensures WithinCap(DeleteRole(s, name).state.roles, maxDepth)
  {
    if name in s.roles {
      DetachKeepsCap(s.roles, maxDepth, name);
      assert DeleteRole(s, name).state.roles == Detach(s.roles, name);
    }
  }

  lemma StepKeepsCapIff(s: State, maxDepth: nat, op: Op)
    requires Inv(s) && WithinCap(s.roles, maxDepth)
    ensures WithinCap(Apply(s, maxDepth, op).state.roles, maxDepth) <==> RoomLeft(s, maxDepth, op)
  {
    if op.UpdatingRole? || op.SettingParent? {
      ParentWriteKeepsCapIff(s, maxDepth, op);
    } else {
      hide Inv, WithinCap, CreateRole, DeleteRole, GrantPermission, RevokePermission;
      if op.GrantingPermission? || op.RevokingPermission? {
        GrantWriteKeepsCap(s, maxDepth, op);
      } else if op.CreatingRole? {
        CreationKeepsCap(s, maxDepth, op.name, op.permissions, op.parent);
      } else if op.DeletingRole? {
        DeletionKeepsCap(s, maxDepth, op.name);
      }
    }
  }

  lemma WithinCapAtFirst(maxDepth: nat)
    ensures WithinCap(Run(maxDepth, []).roles, maxDepth)
  {
  }

  /** A history stays within the cap throughout exactly when every accepted change of a parent leaves room. */
  lemma {:induction false} CapThroughoutIff(maxDepth: nat, ops: seq<Op>)
    ensures (forall i :: 0 <= i <= |ops| ==> WithinCap(Run(maxDepth, ops[..i]).roles, maxDepth)) <==>
      forall i :: 0 <= i < |ops| ==> RoomLeft(Run(maxDepth, ops[..i]), maxDepth, ops[i])
  {
    WithinCapAtFirst(maxDepth);
    hide Run, WithinCap, RoomLeft;
    assert ops[..0] == [];
    if forall i :: 0 <= i <= |ops| ==> WithinCap(Run(maxDepth, ops[..i]).roles, maxDepth) {
      forall i | 0 <= i < |ops|
        ensures RoomLeft(Run(maxDepth, ops[..i]), maxDepth, ops[i])
      {
        CapStep(maxDepth, ops, i);
      }
    } else {
      var k :| 0 <= k <= |ops| && !WithinCap(Run(maxDepth, ops[..k]).roles, maxDepth);
      var i := FirstWithoutRoom(maxDepth, ops, k);
    }
  }

  lemma {:induction false} FirstWithoutRoom(maxDepth: nat, ops: seq<Op>, k: nat) returns (i: nat)
    requires k <= |ops| && !WithinCap(Run(maxDepth, ops[..k]).roles, maxDepth)
    ensures i < |ops| && !RoomLeft(Run(maxDepth, ops[..i]), maxDepth, ops[i])
  {
    WithinCapAtFirst(maxDepth);
    hide Run, WithinCap, RoomLeft;
    assert ops[..0] == [];
    i := k - 1;
    if WithinCap(Run(maxDepth, ops[..i]).roles, maxDepth) {
      CapStep(maxDepth, ops, i);
    } else {
      i := FirstWithoutRoom(maxDepth, ops, i);
    }
  }

  lemma CapStep(maxDepth: nat, ops: seq<Op>, i: nat)
    requires i < |ops| && WithinCap(Run(maxDepth, ops[..i]).roles, maxDepth)
    ensures WithinCap(Run(maxDepth, ops[..i + 1]).roles, maxDepth) <==>
      RoomLeft(Run(maxDepth, ops[..i]), maxDepth, ops[i])
  {
    StepOfRun(maxDepth, ops, i);
    RunKeepsInv(maxDepth, ops[..i]);
    StepKeepsCapIff(Run(maxDepth, ops[..i]), maxDepth, ops[i]);
  }

  /** As long as only leaves change parents, no role ever has more than `maxDepth` ancestors. */
  lemma {:induction false} LeafReparentingKeepsCap(maxDepth: nat, ops: seq<Op>)
    requires LeafReparentingRun(maxDepth, ops)
    ensures WithinCap(Run(maxDepth, ops).roles, maxDepth)
  {
    if ops == [] {
    } else {
      hide WithinCap, Inv, ReparentsLeaves, Apply, RoomLeft;
      var n := |ops| - 1;
      var before := ops[..n];
      assert forall i :: 0 <= i < n ==> before[..i] == ops[..i];
      LeafReparentingKeepsCap(maxDepth, before);
      RunKeepsInv(maxDepth, before);
      LeafWriteLeavesRoom(Run(maxDepth, before), maxDepth, ops[n]);
      StepKeepsCapIff(Run(maxDepth, before), maxDepth, ops[n]);
    }
  }

  lemma CapOfTwo(roles: Roles)
    requires roles == map["a" := Role([], "")] || roles == map["a" := Role([], ""), "b" := Role([], "a")]
    ensures WithinCap(roles, 1) && Validate(roles, 1, "b", "a") == Nil
  {
    EndedStaysEnded(roles, "a", 1, 2);
    assert Up(roles, "b", 2) == Up(roles, ParentOf(roles, "b"), 1);
    ValidateExact(roles, 1, "b", "a");
    forall k: nat
      ensures Up(roles, "a", k) != "b"
    {
      if k > 0 {
        EndedStaysEnded(roles, "a", 1, k);
      }
    }
  }

  lemma RolesBuilt(ops: seq<Op>)
    requires ops == [CreatingRole("a", [], ""), CreatingRole("b", [], "a"), CreatingRole("c", [], ""),
                     SettingParent("a", "c")]
    ensures Run(1, ops[..1]).roles == map["a" := Role([], "")]
    ensures Run(1, ops[..2]).roles == map["a" := Role([], ""), "b" := Role([], "a")]
    ensures Run(1, ops[..3]).roles == map["a" := Role([], ""), "b" := Role([], "a"), "c" := Role([], "")]
    ensures forall i :: 0 <= i < 3 ==> Apply(Run(1, ops[..i]), 1, ops[i]).err == Nil
  {
    StepOfRun(1, ops, 0);
    CapOfTwo(map["a" := Role([], "")]);
    StepOfRun(1, ops, 1);
    StepOfRun(1, ops, 2);
  }

  lemma LastMove(s: State)
    requires s.roles == map["a" := Role([], ""), "b" := Role([], "a"), "c" := Role([], "")]
    ensures WithinCap(s.roles, 1)
    ensures SetParent(s, 1, "a", "c").err == Nil && !WithinCap(SetParent(s, 1, "a", "c").state.roles, 1)
  {
    CapExceeded();
    hide WithinCap, Validate;
    assert SetParent(s, 1, "a", "c").state.roles == s.roles["a" := Role([], "c")];
  }

  /** The call succeeds, and up to it no role exceeds the cap. */
  ghost predicate AcceptedWithinCap(maxDepth: nat, ops: seq<Op>, i: nat)
    requires i < |ops|
  {
    var s := Run(maxDepth, ops[..i]);
    Apply(s, maxDepth, ops[i]).err == Nil && WithinCap(s.roles, maxDepth)
  }

  lemma FirstThreeAccepted(ops: seq<Op>)
    requires ops == [CreatingRole("a", [], ""), CreatingRole("b", [], "a"), CreatingRole("c", [], ""),
                     SettingParent("a", "c")]
    ensures AcceptedWithinCap(1, ops, 0) && AcceptedWithinCap(1, ops, 1) && AcceptedWithinCap(1, ops, 2)
  {
    RolesBuilt(ops);
    assert WithinCap(Run(1, ops[..0]).roles, 1);
    hide WithinCap, Run, Apply;
    CapOfTwo(Run(1, ops[..1]).roles);
    CapOfTwo(Run(1, ops[..2]).roles);
  }

  lemma FourthExceeds(ops: seq<Op>)
    requires |ops| == 4 && ops[3] == SettingParent("a", "c")
    requires Run(1, ops[..3]).roles == map["a" := Role([], ""), "b" := Role([], "a"), "c" := Role([], "")]
    ensures AcceptedWithinCap(1, ops, 3) && !WithinCap(Run(1, ops).roles, 1)
  {
    hide WithinCap, Run, SetParent;
    LastMove(Run(1, ops[..3]));
    StepOfRun(1, ops, 3);
    assert ops[..4] == ops;
  }

  /** Four accepted calls on an enforcer with a cap of one, after which a role has two ancestors. */
  lemma {:induction false} CapExceededInRun() returns (ops: seq<Op>)
    ensures ops == [CreatingRole("a", [], ""), CreatingRole("b", [], "a"), CreatingRole("c", [], ""),
                    SettingParent("a", "c")]
    ensures forall i :: 0 <= i < |ops| ==> AcceptedWithinCap(1, ops, i)
    ensures !WithinCap(Run(1, ops).roles, 1)
  {
    hide AcceptedWithinCap, Run, WithinCap;
    ops := [CreatingRole("a", [], ""), CreatingRole("b", [], "a"), CreatingRole("c", [], ""), SettingParent("a", "c")];
    RolesBuilt(ops);
    FirstThreeAccepted(ops);
    FourthExceeds(ops);
  }
}
