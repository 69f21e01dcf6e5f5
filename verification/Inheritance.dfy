/** The single-parent role hierarchy and the check that guards every change to it (authz/validate.go). */
module Inheritance {
  import opened Entities

  /** The next role up; a root, a dangling name and the empty name all lead nowhere. */
  function ParentOf(roles: Roles, name: RoleID): RoleID
  {
    if name != "" && name in roles then roles[name].parent else ""
  }

  /** The name reached after `k` steps up. */
  function Up(roles: Roles, name: RoleID, k: nat): RoleID
    decreases k
  {
    if k == 0 then name else Up(roles, ParentOf(roles, name), k - 1)
  }

  ghost predicate Reaches(roles: Roles, name: RoleID, target: RoleID)
  {
    exists k: nat :: Up(roles, name, k) == target
  }

  /** Every parent is a stored role and every chain of parents ends. */
  ghost predicate Forest(roles: Roles)
  {
    && "" !in roles
    && (forall n :: n in roles && roles[n].parent != "" ==> roles[n].parent in roles)
    && (forall n :: n in roles ==> Reaches(roles, n, ""))
  }

  ghost predicate OnCycle(roles: Roles, name: RoleID)
  {
    name != "" && exists k: nat :: Up(roles, ParentOf(roles, name), k) == name
  }

  lemma {:induction false} UpAdd(roles: Roles, name: RoleID, j: nat, k: nat)
    ensures Up(roles, name, j + k) == Up(roles, Up(roles, name, j), k)
    decreases j
  {
    if j != 0 {
      UpAdd(roles, ParentOf(roles, name), j - 1, k);
    }
  }

  lemma {:induction false} UpFromNowhere(roles: Roles, k: nat)
    ensures Up(roles, "", k) == ""
  {
    if k != 0 {
      UpFromNowhere(roles, k - 1);
    }
  }

  /** Once a chain has ended it stays ended. */
  lemma EndedStaysEnded(roles: Roles, name: RoleID, j: nat, k: nat)
    requires Up(roles, name, j) == "" && j <= k
    ensures Up(roles, name, k) == ""
  {
    UpAdd(roles, name, j, k - j);
    UpFromNowhere(roles, k - j);
  }

  /** A chain that runs for `k` steps without ending went through stored roles only. */
  lemma RunningIsStored(roles: Roles, name: RoleID, j: nat, k: nat)
    requires Up(roles, name, k) != "" && j < k
    ensures Up(roles, name, j) in roles && Up(roles, name, j) != ""
  {
    UpAdd(roles, name, j, 1);
    if Up(roles, name, j + 1) == "" {
      EndedStaysEnded(roles, name, j + 1, k);
    }
  }

  lemma {:induction false} LapsRepeat(roles: Roles, name: RoleID, lap: nat, laps: nat)
    requires Up(roles, name, lap) == name
    ensures Up(roles, name, lap * laps) == name
  {
    if laps != 0 {
      LapsRepeat(roles, name, lap, laps - 1);
      assert lap * laps == lap + lap * (laps - 1);
      UpAdd(roles, name, lap, lap * (laps - 1));
    }
  }

  lemma EndingMeansNoLap(roles: Roles, name: RoleID, lap: nat)
    requires name != "" && Reaches(roles, name, "") && lap > 0
    ensures Up(roles, name, lap) != name
  {
    if Up(roles, name, lap) == name {
      var k: nat :| Up(roles, name, k) == "";
      LapsRepeat(roles, name, lap, k);
      assert lap * k >= k by { assert lap * k - k == (lap - 1) * k; }
      EndedStaysEnded(roles, name, k, lap * k);
    }
  }

  /** The chain of a finite role map without cycles ends within as many steps as there are roles. */
  lemma AcyclicEnds(roles: Roles, name: RoleID)
    requires forall n :: n in roles ==> !OnCycle(roles, n)
    ensures Up(roles, name, |roles| + 1) == ""
  {
    var m := |roles| + 1;
    if Up(roles, name, m) != "" {
      var seen := Visited(roles, name, m);
    }
  }

  ghost predicate MeetsBefore(roles: Roles, name: RoleID, target: RoleID, steps: nat)
  {
    exists k: nat :: k < steps && Up(roles, name, k) == target
  }

  lemma {:induction false} Visited(roles: Roles, name: RoleID, m: nat) returns (seen: set<RoleID>)
    requires forall n :: n in roles ==> !OnCycle(roles, n)
    requires Up(roles, name, m) != ""
    ensures |seen| == m <= |roles| && seen <= roles.Keys
    ensures forall x :: x in seen ==> MeetsBefore(roles, name, x, m)
    decreases m
  {
    if m == 0 {
      seen := {};
    } else {
      var last := Up(roles, name, m - 1);
      RunningIsStored(roles, name, m - 1, m);
      var before := Visited(roles, name, m - 1);
      forall j: nat | j < m - 1
        ensures Up(roles, name, j) != last
      {
        UpAdd(roles, name, j, m - 1 - j);
      }
      seen := before + {last};
      assert roles.Keys == seen + (roles.Keys - seen);
      assert MeetsBefore(roles, name, last, m);
    }
  }

  /** What `Forest` says about chains is that there is no cycle. */
  lemma ForestIffAcyclic(roles: Roles)
    ensures Forest(roles) <==>
      && "" !in roles
      && (forall n :: n in roles && roles[n].parent != "" ==> roles[n].parent in roles)
      && (forall n :: n in roles ==> !OnCycle(roles, n))
  {
    if Forest(roles) {
      forall n | n in roles
        ensures !OnCycle(roles, n)
      {
        forall k: nat
          ensures Up(roles, ParentOf(roles, n), k) != n
        {
          EndingMeansNoLap(roles, n, k + 1);
        }
      }
    }
    if forall n :: n in roles ==> !OnCycle(roles, n) {
      forall n | n in roles
        ensures Reaches(roles, n, "")
      {
        AcyclicEnds(roles, n);
      }
    }
  }

  /** The ancestor loop: `depth` counts the names looked at so far, the current one included. */
  function Walk(roles: Roles, target: RoleID, name: RoleID, depth: nat, maxDepth: nat): Error
    decreases maxDepth + 1 - depth
  {
    if name == "" then Nil
    else if name == target then CyclicInheritance
    else if depth > maxDepth then InheritanceDepth
    else if name !in roles then Nil
    else Walk(roles, target, roles[name].parent, depth + 1, maxDepth)
  }

  /** The verdict of `validateInheritance` on making `parent` the parent of `name`. */
  function Validate(roles: Roles, maxDepth: nat, name: RoleID, parent: RoleID): Error
  {
    if parent == "" then Nil
    else if parent == name then CyclicInheritance
    else if parent !in roles then RoleNotFound
    else Walk(roles, name, parent, 1, maxDepth)
  }

  ghost predicate MeetsWithin(roles: Roles, name: RoleID, target: RoleID, steps: nat)
  {
    exists k: nat :: k <= steps && Up(roles, name, k) == target
  }

  lemma {:induction false} WalkExact(roles: Roles, target: RoleID, name: RoleID, depth: nat, maxDepth: nat)
    requires target != "" && depth <= maxDepth + 1
    ensures var steps := maxDepth + 1 - depth;
      Walk(roles, target, name, depth, maxDepth) ==
        if MeetsWithin(roles, name, target, steps) then CyclicInheritance
        else if Up(roles, name, steps) == "" then Nil
        else InheritanceDepth
    decreases maxDepth + 1 - depth
  {
    var steps := maxDepth + 1 - depth;
    if name == "" {
      forall k: nat ensures Up(roles, name, k) == "" { UpFromNowhere(roles, k); }
    } else if name == target {
      assert Up(roles, name, 0) == target;
    } else if depth <= maxDepth {
      var next := ParentOf(roles, name);
      assert forall k: nat :: k > 0 ==> Up(roles, name, k) == Up(roles, next, k - 1);
      if name in roles {
        WalkExact(roles, target, next, depth + 1, maxDepth);
        if MeetsWithin(roles, next, target, steps - 1) {
          var k: nat :| k <= steps - 1 && Up(roles, next, k) == target;
          assert Up(roles, name, k + 1) == target;
        }
      } else {
        forall k: nat ensures Up(roles, next, k) == "" { UpFromNowhere(roles, k); }
      }
    }
  }

  /**
   * The verdict on any finite role map, cyclic and dangling ones included: the walk ends, and it
   * accepts exactly when the proposed chain avoids the role and has at most `maxDepth` names.
   */
  lemma ValidateExact(roles: Roles, maxDepth: nat, name: RoleID, parent: RoleID)
    requires name != ""
    ensures Validate(roles, maxDepth, name, parent) == Nil <==>
      || parent == ""
      || (parent in roles && !Reaches(roles, parent, name) && Up(roles, parent, maxDepth) == "")
    ensures Validate(roles, maxDepth, name, parent) == CyclicInheritance <==>
      || (parent == name && parent != "")
      || (parent in roles && parent != "" && MeetsWithin(roles, parent, name, maxDepth))
    ensures Validate(roles, maxDepth, name, parent) == RoleNotFound <==>
      parent != "" && parent != name && parent !in roles
  {
    if parent != "" && parent != name && parent in roles {
      WalkExact(roles, name, parent, 1, maxDepth);
    }
    if Up(roles, parent, maxDepth) == "" && Reaches(roles, parent, name) {
      var k: nat :| Up(roles, parent, k) == name;
      if k > maxDepth {
        EndedStaysEnded(roles, parent, maxDepth, k);
      }
      assert MeetsWithin(roles, parent, name, maxDepth);
    }
    if parent == name {
      assert Up(roles, parent, 0) == name;
    }
  }

  /** A chain that has not yet met the rewritten role does not notice the rewriting. */
  lemma {:induction false} UpUnaffected(roles: Roles, name: RoleID, role: Role, n: RoleID, k: nat)
    requires forall j: nat :: j < k ==> Up(roles, n, j) != name
    ensures Up(roles[name := role], n, k) == Up(roles, n, k)
    decreases k
  {
    if k != 0 {
      assert Up(roles, n, 0) != name;
      var next := ParentOf(roles, n);
      forall j: nat | j < k - 1
        ensures Up(roles, next, j) != name
      {
        assert Up(roles, n, j + 1) == Up(roles, next, j);
      }
      UpUnaffected(roles, name, role, next, k - 1);
    }
  }

  lemma {:induction false} FirstMeeting(roles: Roles, n: RoleID, target: RoleID, k: nat) returns (j: nat)
    requires Up(roles, n, k) == target
    ensures j <= k && Up(roles, n, j) == target && forall i: nat :: i < j ==> Up(roles, n, i) != target
  {
    if i: nat :| i < k && Up(roles, n, i) == target {
      j := FirstMeeting(roles, n, target, i);
    } else {
      j := k;
    }
  }

  /** The chain through a freshly reparented role: down part as before, then the new parent's chain. */
  lemma ChainAfterReparent(roles: Roles, maxDepth: nat, name: RoleID, role: Role, n: RoleID, j: nat, k: nat)
    requires name != "" && Validate(roles, maxDepth, name, role.parent) == Nil
    requires Up(roles, n, j) == name && forall i: nat :: i < j ==> Up(roles, n, i) != name
    ensures Up(roles[name := role], n, j + 1 + k) == Up(roles, role.parent, k)
  {
    var roles' := roles[name := role];
    UpUnaffected(roles, name, role, n, j);
    UpAdd(roles', n, j, 1 + k);
    assert ParentOf(roles', name) == role.parent;
    ValidateExact(roles, maxDepth, name, role.parent);
    forall i: nat
      ensures Up(roles, role.parent, i) != name
    {
      if role.parent == "" {
        UpFromNowhere(roles, i);
      }
    }
    UpUnaffected(roles, name, role, role.parent, k);
  }

  lemma AcceptedEnds(roles: Roles, maxDepth: nat, name: RoleID, parent: RoleID)
    requires name != "" && Validate(roles, maxDepth, name, parent) == Nil
    ensures Up(roles, parent, maxDepth) == ""
  {
    ValidateExact(roles, maxDepth, name, parent);
    if parent == "" {
      UpFromNowhere(roles, maxDepth);
    }
  }

  /** Whatever the check accepts, for a new role or a stored one, keeps the hierarchy a forest. */
  lemma AcceptedKeepsForest(roles: Roles, maxDepth: nat, name: RoleID, role: Role)
    requires Forest(roles) && name != "" && Validate(roles, maxDepth, name, role.parent) == Nil
    ensures Forest(roles[name := role])
  {
    var roles' := roles[name := role];
    forall n | n in roles'
      ensures Reaches(roles', n, "")
    {
      if Reaches(roles, n, name) {
        var k: nat :| Up(roles, n, k) == name;
        var j := FirstMeeting(roles, n, name, k);
        ChainAfterReparent(roles, maxDepth, name, role, n, j, maxDepth);
        AcceptedEnds(roles, maxDepth, name, role.parent);
      } else {
        assert Up(roles, n, 0) == n;
        var k: nat :| Up(roles, n, k) == "";
        UpUnaffected(roles, name, role, n, k);
      }
    }
  }

  /** The roles left when `name` goes: its children become roots. */
  function Detach(roles: Roles, name: RoleID): Roles
  {
    map n | n in roles && n != name ::
      if roles[n].parent == name then roles[n].(parent := "") else roles[n]
  }

  lemma {:induction false} UpDetached(roles: Roles, name: RoleID, n: RoleID, k: nat)
    requires n != name && name != ""
    ensures Up(Detach(roles, name), n, k) in {"", Up(roles, n, k)} - {name}
    decreases k
  {
    if k != 0 {
      var next := ParentOf(Detach(roles, name), n);
      if next == "" {
        UpFromNowhere(Detach(roles, name), k - 1);
      } else {
        UpDetached(roles, name, next, k - 1);
      }
    }
  }

  /** A chain that does not come by the deleted role is as before. */
  lemma {:induction false} UpBeside(roles: Roles, name: RoleID, n: RoleID, k: nat)
    requires name != "" && forall j: nat :: j <= k ==> Up(roles, n, j) != name
    ensures Up(Detach(roles, name), n, k) == Up(roles, n, k)
    decreases k
  {
    if k != 0 {
      assert Up(roles, n, 0) != name;
      var next := ParentOf(roles, n);
      assert Up(roles, n, 1) == next;
      forall j: nat | j <= k - 1
        ensures Up(roles, next, j) != name
      {
        assert Up(roles, n, j + 1) == Up(roles, next, j);
      }
      UpBeside(roles, name, next, k - 1);
    }
  }

  lemma ReachesBoth(roles: Roles, n: RoleID, x: RoleID, i: nat, j: nat)
    requires Up(roles, n, i) == x && i <= j
    ensures Reaches(roles, x, Up(roles, n, j))
  {
    UpAdd(roles, n, i, j - i);
  }

  /** In a forest only a name itself is both above and below it. */
  lemma NotBothWays(roles: Roles, name: RoleID, x: RoleID)
    requires Forest(roles) && name != ""
    requires Reaches(roles, name, x) && Reaches(roles, x, name)
    ensures x == name
  {
    var i: nat :| Up(roles, name, i) == x;
    var j: nat :| Up(roles, x, j) == name;
    if i > 0 {
      UpAdd(roles, name, i, j);
      assert name !in roles ==> Up(roles, name, 1) == "";
      EndingMeansNoLap(roles, name, i + j);
    }
  }

  /** Deleting a role cuts exactly the ways up that lead through it. */
  lemma DetachedReaches(roles: Roles, name: RoleID, r: RoleID, x: RoleID)
    requires Forest(roles) && name in roles && r != name && x != ""
    ensures Reaches(Detach(roles, name), r, x) <==>
      Reaches(roles, r, x) && !(Reaches(roles, r, name) && Reaches(roles, name, x))
  {
    var roles' := Detach(roles, name);
    if Reaches(roles', r, x) {
      var k: nat :| Up(roles', r, k) == x;
      UpDetached(roles, name, r, k);
      if Reaches(roles, r, name) && Reaches(roles, name, x) {
        var i: nat :| Up(roles, r, i) == name;
        UpDetached(roles, name, r, i);
        if i <= k {
          EndedStaysEnded(roles', r, i, k);
        } else {
          ReachesBoth(roles, r, x, k, i);
          NotBothWays(roles, name, x);
        }
      }
    }
    if Reaches(roles, r, x) && !(Reaches(roles, r, name) && Reaches(roles, name, x)) {
      var k: nat :| Up(roles, r, k) == x;
      forall j: nat | j <= k
        ensures Up(roles, r, j) != name
      {
        if Up(roles, r, j) == name {
          ReachesBoth(roles, r, name, j, k);
        }
      }
      UpBeside(roles, name, r, k);
    }
  }

  /** Writing a role, stored or new, cuts the ways up that lead beyond it, and makes those through its new parent. */
  lemma RewrittenReaches(roles: Roles, maxDepth: nat, name: RoleID, role: Role, r: RoleID, x: RoleID)
    requires Forest(roles) && name != "" && Validate(roles, maxDepth, name, role.parent) == Nil && x != ""
    ensures Reaches(roles[name := role], r, x) <==>
      || (Reaches(roles, r, x) && !(x != name && Reaches(roles, r, name) && Reaches(roles, name, x)))
      || (Reaches(roles, r, name) && Reaches(roles, role.parent, x))
  {
    var roles' := roles[name := role];
    if Reaches(roles', r, x) {
      var k: nat :| Up(roles', r, k) == x;
      RewrittenPath(roles, maxDepth, name, role, r, k);
    }
    if Reaches(roles, r, name) && Reaches(roles, role.parent, x) {
      var i: nat :| Up(roles, r, i) == name;
      var j := FirstMeeting(roles, r, name, i);
      var m: nat :| Up(roles, role.parent, m) == x;
      ChainAfterReparent(roles, maxDepth, name, role, r, j, m);
    }
    if Reaches(roles, r, x) && !(x != name && Reaches(roles, r, name) && Reaches(roles, name, x)) {
      var i: nat :| Up(roles, r, i) == x;
      var k := FirstMeeting(roles, r, x, i);
      forall j: nat | j < k
        ensures Up(roles, r, j) != name
      {
        if Up(roles, r, j) == name {
          ReachesBoth(roles, r, name, j, k);
        }
      }
      UpUnaffected(roles, name, role, r, k);
    }
  }

  lemma RewrittenPath(roles: Roles, maxDepth: nat, name: RoleID, role: Role, r: RoleID, k: nat)
    requires Forest(roles) && name != "" && Validate(roles, maxDepth, name, role.parent) == Nil
    ensures var x := Up(roles[name := role], r, k);
      || (Reaches(roles, r, x) && !(x != name && Reaches(roles, r, name) && Reaches(roles, name, x)))
      || (Reaches(roles, r, name) && Reaches(roles, role.parent, x))
  {
    if j: nat :| j < k && Up(roles, r, j) == name {
      var i := FirstMeeting(roles, r, name, j);
      ChainAfterReparent(roles, maxDepth, name, role, r, i, k - i - 1);
    } else {
      UpUnaffected(roles, name, role, r, k);
      var x := Up(roles, r, k);
      if Reaches(roles, r, name) && Reaches(roles, name, x) {
        var i: nat :| Up(roles, r, i) == name;
        ReachesBoth(roles, r, x, k, i);
        NotBothWays(roles, name, x);
      }
    }
  }

  lemma DetachKeepsForest(roles: Roles, name: RoleID)
    requires Forest(roles) && name != ""
    ensures Forest(Detach(roles, name))
  {
    forall n | n in Detach(roles, name)
      ensures Reaches(Detach(roles, name), n, "")
    {
      var k: nat :| Up(roles, n, k) == "";
      UpDetached(roles, name, n, k);
    }
  }

  /** Every role has at most `cap` proper ancestors. */
  ghost predicate WithinCap(roles: Roles, cap: nat)
  {
    forall n :: n in roles ==> Up(roles, n, cap + 1) == ""
  }

  predicate Childless(roles: Roles, name: RoleID)
  {
    forall n :: n in roles ==> roles[n].parent != name
  }

  /** An accepted write leaves a role `j` levels below the written one with at most `j + maxDepth` ancestors. */
  lemma ReparentBound(roles: Roles, maxDepth: nat, name: RoleID, role: Role, n: RoleID, j: nat)
    requires name != "" && Validate(roles, maxDepth, name, role.parent) == Nil
    requires Up(roles, n, j) == name
    ensures Up(roles[name := role], n, j + maxDepth + 1) == ""
  {
    var i := FirstMeeting(roles, n, name, j);
    ChainAfterReparent(roles, maxDepth, name, role, n, i, maxDepth);
    AcceptedEnds(roles, maxDepth, name, role.parent);
    EndedStaysEnded(roles[name := role], n, i + 1 + maxDepth, j + maxDepth + 1);
  }

  /** Writing a role without children keeps the documented depth cap. */
  lemma ChildlessWriteKeepsCap(roles: Roles, maxDepth: nat, name: RoleID, role: Role)
    requires name != "" && Validate(roles, maxDepth, name, role.parent) == Nil
    requires WithinCap(roles, maxDepth) && Childless(roles, name)
    ensures WithinCap(roles[name := role], maxDepth)
  {
    var roles' := roles[name := role];
    forall n | n in roles'
      ensures Up(roles', n, maxDepth + 1) == ""
    {
      if n == name {
        assert Up(roles, n, 0) == name;
        ReparentBound(roles, maxDepth, name, role, n, 0);
      } else {
        forall k: nat
          ensures Up(roles, n, k) != name
        {
          if k > 0 {
            UpAdd(roles, n, k - 1, 1);
          }
        }
        UpUnaffected(roles, name, role, n, maxDepth + 1);
      }
    }
  }

  lemma DetachKeepsCap(roles: Roles, cap: nat, name: RoleID)
    requires WithinCap(roles, cap) && name != ""
    ensures WithinCap(Detach(roles, name), cap)
  {
    forall n | n in Detach(roles, name)
      ensures Up(Detach(roles, name), n, cap + 1) == ""
    {
      UpDetached(roles, name, n, cap + 1);
    }
  }

  lemma MeetingAfterWrite(roles: Roles, maxDepth: nat, name: RoleID, role: Role, n: RoleID, j: nat)
    requires Forest(roles) && name in roles && WithinCap(roles, maxDepth)
    requires Validate(roles, maxDepth, name, role.parent) == Nil
    requires n in roles && Up(roles, n, j) == name
    ensures j <= maxDepth
    ensures Up(roles[name := role], n, maxDepth + 1) == Up(roles, role.parent, maxDepth - j)
  {
    if j > maxDepth {
      EndedStaysEnded(roles, n, maxDepth + 1, j);
    }
    forall i: nat | i < j
      ensures Up(roles, n, i) != name
    {
      UpAdd(roles, n, i, j - i);
      EndingMeansNoLap(roles, name, j - i);
    }
    ChainAfterReparent(roles, maxDepth, name, role, n, j, maxDepth - j);
  }

  /** Every role `j` levels below `name` leaves room for the chain of `parent` above it. */
  ghost predicate LeavesRoom(roles: Roles, maxDepth: nat, name: RoleID, parent: RoleID)
  {
    forall n, j: nat :: n in roles && j <= maxDepth && Up(roles, n, j) == name ==>
      Up(roles, parent, maxDepth - j) == ""
  }

  /** The cap is not an invariant of arbitrary accepted writes; this is when it survives one. */
  lemma CapKeptIff(roles: Roles, maxDepth: nat, name: RoleID, role: Role)
    requires Forest(roles) && name in roles && WithinCap(roles, maxDepth)
    requires Validate(roles, maxDepth, name, role.parent) == Nil
    ensures WithinCap(roles[name := role], maxDepth) <==> LeavesRoom(roles, maxDepth, name, role.parent)
  {
    var roles' := roles[name := role];
    if WithinCap(roles', maxDepth) {
      forall n, j: nat | n in roles && j <= maxDepth && Up(roles, n, j) == name
        ensures Up(roles, role.parent, maxDepth - j) == ""
      {
        MeetingAfterWrite(roles, maxDepth, name, role, n, j);
        assert n in roles';
      }
    }
    if LeavesRoom(roles, maxDepth, name, role.parent) {
      forall n | n in roles'
        ensures Up(roles', n, maxDepth + 1) == ""
      {
        if Reaches(roles, n, name) {
          var j: nat :| Up(roles, n, j) == name;
          MeetingAfterWrite(roles, maxDepth, name, role, n, j);
        } else {
          UpUnaffected(roles, name, role, n, maxDepth + 1);
        }
      }
    }
  }

  /** A cap of one, and an accepted write after which a role has two ancestors. */
  lemma CapExceeded()
    ensures var roles: Roles := map["a" := Role([], ""), "b" := Role([], "a"), "c" := Role([], "")];
      && Forest(roles) && WithinCap(roles, 1)
      && Validate(roles, 1, "a", "c") == Nil
      && !WithinCap(roles["a" := Role([], "c")], 1)
  {
    var roles: Roles := map["a" := Role([], ""), "b" := Role([], "a"), "c" := Role([], "")];
    assert Up(roles, "a", 1) == "" && Up(roles, "c", 1) == "";
    assert Up(roles, "b", 1) == "a" && Up(roles, "b", 2) == Up(roles, "a", 1);
    assert forall n :: n in roles ==> n in {"a", "b", "c"};
    EndedStaysEnded(roles, "a", 1, 2);
    EndedStaysEnded(roles, "c", 1, 2);
    var roles' := roles["a" := Role([], "c")];
    assert Up(roles', "b", 2) == Up(roles', "a", 1) == "c";
    ValidateExact(roles, 1, "a", "c");
    forall k: nat
      ensures Up(roles, "c", k) != "a"
    {
      if k > 0 { EndedStaysEnded(roles, "c", 1, k); }
    }
  }
}
