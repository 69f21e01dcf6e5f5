/** When exactly the cached grants are right: after any one operation, and throughout a history. */
module Honouring {
  import opened Permissions
  import opened Entities
  import opened Ordering
  import opened EffectiveRoles
  import opened Rbac
  import opened IndexInvariant
  import opened Coherence
  import opened Staleness

  /** In the state before: the operation takes effect for the user in full, or the eviction sees the user. */
  ghost predicate Honoured(s: State, maxDepth: nat, op: Op, uid: UserID)
    requires uid in s.users && uid in s.cache
  {
    var u := s.users[uid];
    match op
    case UpdatingRole(name, ps, parent) =>
      UpdateRole(s, maxDepth, name, ps, parent).err == Nil && !SeenByEviction(s, name, uid) ==>
        s.cache[uid] ==
          RolePerms(s.roles, Chain(s.roles, u) - Severed(s.roles, u, name))
          + RolePerms(s.roles, Closure(s.roles, {parent})) + Elements(ps) + Elements(u.direct)
    case GrantingPermission(name, p) =>
      p.Valid() && name in s.roles && !SeenByEviction(s, name, uid) ==> p in s.cache[uid]
    case RevokingPermission(name, p) =>
      p.Valid() && name in s.roles && p in s.roles[name].permissions && !SeenByEviction(s, name, uid) ==>
        p in RolePerms(s.roles, Chain(s.roles, u) - {name}) + Elements(u.direct)
    case SettingParent(name, parent) =>
      SetParent(s, maxDepth, name, parent).err == Nil && s.roles[name].parent != parent
      && !SeenByEviction(s, name, uid) ==>
        var severed := Severed(s.roles, u, name);
        var kept := RolePerms(s.roles, Chain(s.roles, u) - severed + {name}) + Elements(u.direct);
        var gained := RolePerms(s.roles, Closure(s.roles, {parent}));
        RolePerms(s.roles, severed) <= kept + gained && gained <= s.cache[uid]
    case CreatingRole(name, ps, parent) =>
      CreateRole(s, maxDepth, name, ps, parent).err == Nil && name in u.roles ==>
        Elements(ps) + RolePerms(s.roles, Closure(s.roles, {parent})) <= s.cache[uid]
    case DeletingRole(name) =>
      name in s.roles && name !in u.roles && !HoldsChild(s, name, uid) ==> Dispensable(s.roles, u, name)
    case _ => true
  }

  /** What is left of a right entry after an operation is right. */
  ghost predicate StaysRight(s: State, maxDepth: nat, op: Op, uid: UserID)
  {
    var s' := Apply(s, maxDepth, op).state;
    uid in s'.cache ==> Coherent(s', uid)
  }

  lemma {:induction false} SeenStep(s: State, maxDepth: nat, op: Op, uid: UserID)
    requires Inv(s) && Coherent(s, uid) && Safe(s, op, uid)
    ensures StaysRight(s, maxDepth, op, uid)
  {
    hide Inv, Coherent, Apply, Safe;
    if uid in Apply(s, maxDepth, op).state.cache {
      SurvivorsStayCoherent(s, maxDepth, op, uid);
    }
  }

  lemma UpdateStep(s: State, maxDepth: nat, name: RoleID, ps: seq<Permission>, parent: RoleID, uid: UserID)
    requires Inv(s) && Coherent(s, uid)
    ensures var op := UpdatingRole(name, ps, parent);
      StaysRight(s, maxDepth, op, uid) <==> Honoured(s, maxDepth, op, uid)
  {
    var op := UpdatingRole(name, ps, parent);
    if SeenByEviction(s, name, uid) {
      SeenStep(s, maxDepth, op, uid);
    } else if UpdateRole(s, maxDepth, name, ps, parent).err == Nil {
      UpdateHonouredIff(s, maxDepth, name, ps, parent, uid);
    }
  }

  lemma GrantStep(s: State, maxDepth: nat, name: RoleID, p: Permission, uid: UserID)
    requires Inv(s) && Coherent(s, uid)
    ensures var op := GrantingPermission(name, p);
      StaysRight(s, maxDepth, op, uid) <==> Honoured(s, maxDepth, op, uid)
  {
    var op := GrantingPermission(name, p);
    if SeenByEviction(s, name, uid) {
      SeenStep(s, maxDepth, op, uid);
    } else if p.Valid() && name in s.roles {
      GrantHonouredIff(s, name, p, uid);
    }
  }

  lemma RevocationStep(s: State, maxDepth: nat, name: RoleID, p: Permission, uid: UserID)
    requires Inv(s) && Coherent(s, uid)
    ensures var op := RevokingPermission(name, p);
      StaysRight(s, maxDepth, op, uid) <==> Honoured(s, maxDepth, op, uid)
  {
    var op := RevokingPermission(name, p);
    if SeenByEviction(s, name, uid) {
      SeenStep(s, maxDepth, op, uid);
    } else if p.Valid() && name in s.roles {
      if p in s.roles[name].permissions {
        RevocationHonouredIff(s, name, p, uid);
      } else {
        WithoutAbsent(s.roles[name].permissions, p);
        assert RevokePermission(s, name, p).state.roles == s.roles;
      }
    }
  }

  lemma MoveStep(s: State, maxDepth: nat, name: RoleID, parent: RoleID, uid: UserID)
    requires Inv(s) && Coherent(s, uid)
    ensures var op := SettingParent(name, parent);
      StaysRight(s, maxDepth, op, uid) <==> Honoured(s, maxDepth, op, uid)
  {
    var op := SettingParent(name, parent);
    if SeenByEviction(s, name, uid) {
      SeenStep(s, maxDepth, op, uid);
    } else if SetParent(s, maxDepth, name, parent).err == Nil && s.roles[name].parent != parent {
      hide Inv, Severed, Chain, Closure, Effective;
      MoveHonouredIff(s, maxDepth, name, parent, uid);
    }
  }

  lemma CreationStep(s: State, maxDepth: nat, name: RoleID, ps: seq<Permission>, parent: RoleID, uid: UserID)
    requires Inv(s) && Coherent(s, uid)
    ensures var op := CreatingRole(name, ps, parent);
      StaysRight(s, maxDepth, op, uid) <==> Honoured(s, maxDepth, op, uid)
  {
    var op := CreatingRole(name, ps, parent);
    if name in s.roles || name !in s.users[uid].roles {
      SeenStep(s, maxDepth, op, uid);
    } else if CreateRole(s, maxDepth, name, ps, parent).err == Nil {
      CreationHonouredIff(s, maxDepth, name, ps, parent, uid);
    }
  }

  lemma DeletionStep(s: State, maxDepth: nat, name: RoleID, uid: UserID)
    requires Inv(s) && Coherent(s, uid)
    ensures var op := DeletingRole(name);
      StaysRight(s, maxDepth, op, uid) <==> Honoured(s, maxDepth, op, uid)
  {
    if name in s.roles {
      if name !in s.users[uid].roles && !HoldsChild(s, name, uid) {
        DeletionHonouredIff(s, name, uid);
      } else {
        EvictedByDeletion(s, name, uid);
      }
    }
  }

  lemma OtherStep(s: State, maxDepth: nat, op: Op, uid: UserID)
    requires Inv(s) && Coherent(s, uid) && !WritesRole(op) && !op.CreatingRole? && !op.DeletingRole?
    ensures StaysRight(s, maxDepth, op, uid) && Honoured(s, maxDepth, op, uid)
  {
    SeenStep(s, maxDepth, op, uid);
  }

  /** For every operation and every right entry, what is left of the entry is right exactly when it is honoured. */
  lemma {:induction false} StepHonouredIff(s: State, maxDepth: nat, op: Op, uid: UserID)
    requires Inv(s) && Coherent(s, uid)
    ensures StaysRight(s, maxDepth, op, uid) <==> Honoured(s, maxDepth, op, uid)
  {
    assert uid in s.users && uid in s.cache;
    hide Inv, Coherent, StaysRight, Honoured, Apply;
    match op
    case UpdatingRole(name, ps, parent) => UpdateStep(s, maxDepth, name, ps, parent, uid);
    case GrantingPermission(name, p) => GrantStep(s, maxDepth, name, p, uid);
    case RevokingPermission(name, p) => RevocationStep(s, maxDepth, name, p, uid);
    case SettingParent(name, parent) => MoveStep(s, maxDepth, name, parent, uid);
    case CreatingRole(name, ps, parent) => CreationStep(s, maxDepth, name, ps, parent, uid);
    case DeletingRole(name) => DeletionStep(s, maxDepth, name, uid);
    case _ => OtherStep(s, maxDepth, op, uid);
  }

  /** The operation is honoured for every user with cached grants. */
  ghost predicate HonouredByAll(s: State, maxDepth: nat, op: Op)
  {
    forall uid :: uid in s.cache && uid in s.users ==> Honoured(s, maxDepth, op, uid)
  }

  lemma CachedIsStored(s: State, uid: UserID)
    requires Coherent(s, uid)
    ensures uid in s.users && uid in s.cache
  {
  }

  lemma {:induction false} StepCoherentIff(s: State, maxDepth: nat, op: Op)
    requires Inv(s) && AllCoherent(s)
    ensures AllCoherent(Apply(s, maxDepth, op).state) <==> HonouredByAll(s, maxDepth, op)
  {
    hide Inv, Coherent, Honoured, Apply;
    var s' := Apply(s, maxDepth, op).state;
    forall uid
      ensures uid in s.cache ==> uid in s.users
      ensures uid in s.cache ==> (StaysRight(s, maxDepth, op, uid) <==> Honoured(s, maxDepth, op, uid))
      ensures uid !in s.cache && uid in s'.cache ==> Coherent(s', uid)
    {
      if uid in s.cache {
        CachedIsStored(s, uid);
        StepHonouredIff(s, maxDepth, op, uid);
      } else if uid in s'.cache {
        OnlyQueriesFill(s, maxDepth, op, uid);
      }
    }
  }

  lemma NothingCachedAtFirst(maxDepth: nat)
    ensures AllCoherent(Run(maxDepth, []))
  {
  }

  lemma CoherenceStep(maxDepth: nat, ops: seq<Op>, i: nat)
    requires i < |ops| && AllCoherent(Run(maxDepth, ops[..i]))
    ensures AllCoherent(Run(maxDepth, ops[..i + 1])) <==> HonouredByAll(Run(maxDepth, ops[..i]), maxDepth, ops[i])
  {
    hide Inv, AllCoherent, HonouredByAll, Apply;
    StepOfRun(maxDepth, ops, i);
    RunKeepsInv(maxDepth, ops[..i]);
    StepCoherentIff(Run(maxDepth, ops[..i]), maxDepth, ops[i]);
  }

  lemma {:induction false} FirstNotHonoured(maxDepth: nat, ops: seq<Op>, k: nat) returns (i: nat)
    requires k <= |ops| && !AllCoherent(Run(maxDepth, ops[..k]))
    ensures i < |ops| && !HonouredByAll(Run(maxDepth, ops[..i]), maxDepth, ops[i])
  {
    NothingCachedAtFirst(maxDepth);
    hide Run, AllCoherent, HonouredByAll;
    assert ops[..0] == [];
    i := k - 1;
    if AllCoherent(Run(maxDepth, ops[..i])) {
      CoherenceStep(maxDepth, ops, i);
    } else {
      i := FirstNotHonoured(maxDepth, ops, i);
    }
  }

  /** The caches are right throughout a history exactly when every operation in it is honoured for everyone cached. */
  lemma {:induction false} CoherentThroughoutIff(maxDepth: nat, ops: seq<Op>)
    ensures (forall i :: 0 <= i <= |ops| ==> AllCoherent(Run(maxDepth, ops[..i]))) <==>
      forall i :: 0 <= i < |ops| ==> HonouredByAll(Run(maxDepth, ops[..i]), maxDepth, ops[i])
  {
    NothingCachedAtFirst(maxDepth);
    hide Run, AllCoherent, HonouredByAll;
    assert ops[..0] == [];
    if forall i :: 0 <= i <= |ops| ==> AllCoherent(Run(maxDepth, ops[..i])) {
      forall i | 0 <= i < |ops|
        ensures HonouredByAll(Run(maxDepth, ops[..i]), maxDepth, ops[i])
      {
        CoherenceStep(maxDepth, ops, i);
      }
    } else {
      var k :| 0 <= k <= |ops| && !AllCoherent(Run(maxDepth, ops[..k]));
      var i := FirstNotHonoured(maxDepth, ops, k);
    }
  }
}
