/** The two-level index over granted permissions (`grantedSet` in authz/authz.go). */
module GrantedSets {
  import opened Permissions
  import opened Ordering

  /** The documented rule: some granted pattern covers the request. */
  ghost predicate Covers(granted: set<Permission>, required: Permission)
  {
    exists p :: p in granted && p.Matches(required)
  }

  type Index = map<string, set<string>>

  ghost predicate NoEmptyRow(index: Index)
  {
    forall r :: r in index ==> index[r] != {}
  }

  ghost function Entries(index: Index): set<Permission>
  {
    set r, a | r in index && a in index[r] :: Permission(r, a)
  }

  lemma EntriesAdd(index: Index, p: Permission)
    ensures var row := if p.resource in index then index[p.resource] else {};
      Entries(index[p.resource := row + {p.action}]) == Entries(index) + {p}
  {
    var row := if p.resource in index then index[p.resource] else {};
    var index' := index[p.resource := row + {p.action}];
    forall q: Permission
      ensures q in Entries(index') <==> q in Entries(index) + {p}
    {
      assert q in Entries(index) <==> q.resource in index && q.action in index[q.resource];
      assert q in Entries(index') <==> q.resource in index' && q.action in index'[q.resource];
      assert q == p <==> q.resource == p.resource && q.action == p.action;
    }
  }

  /** The index is determined by the permissions it holds, so equal grants mean equal caches. */
  lemma IndexUnique(x: Index, y: Index)
    requires NoEmptyRow(x) && NoEmptyRow(y) && Entries(x) == Entries(y)
    ensures x == y
  {
    forall r, a
      ensures r in x && a in x[r] <==> r in y && a in y[r]
    {
      assert r in x && a in x[r] <==> Permission(r, a) in Entries(x);
      assert r in y && a in y[r] <==> Permission(r, a) in Entries(y);
    }
    forall r
      ensures r in x <==> r in y
      ensures r in x ==> x[r] == y[r]
    {
      if r in x {
        var a :| a in x[r];
        assert r in y;
      }
      if r in y {
        var a :| a in y[r];
        assert r in x;
      }
    }
  }

  /** Permissions on the same resource stand together. */
  ghost predicate Grouped(s: seq<Permission>)
  {
    forall i, j, k :: 0 <= i < j < k < |s| && s[i].resource == s[k].resource ==> s[j].resource == s[i].resource
  }

  /** The orders in which the rows of an index can be written out. */
  ghost predicate IsFlattening(s: seq<Permission>, granted: set<Permission>)
  {
    Elements(s) == granted && Distinct(s) && Grouped(s)
  }

  lemma GroupedExtension(s: seq<Permission>, t: seq<Permission>, r: string)
    requires Grouped(s) && s <= t
    requires forall p :: p in s ==> p.resource != r
    requires forall k :: |s| <= k < |t| ==> t[k].resource == r
    ensures Grouped(t)
  {
    forall i, j, k | 0 <= i < j < k < |t| && t[i].resource == t[k].resource
      ensures t[j].resource == t[i].resource
    {
      assert i < |s| ==> t[i] == s[i] && s[i] in s;
    }
  }

  class GrantedSet {
    var byResource: Index

    ghost predicate Valid()
      reads this
    {
      NoEmptyRow(byResource)
    }

    ghost function Perms(): set<Permission>
      reads this
    {
      Entries(byResource)
    }

    constructor ()
      ensures Valid() && Perms() == {}
    {
      byResource := map[];
    }

    method Add(p: Permission)
      requires Valid()
      modifies this
      ensures Valid() && Perms() == old(Perms()) + {p}
    {
      EntriesAdd(byResource, p);
      if p.resource !in byResource {
        byResource := byResource[p.resource := {}];
      }
      byResource := byResource[p.resource := byResource[p.resource] + {p.action}];
      assert byResource == old(byResource)[p.resource := byResource[p.resource]];
    }

    method AddAll(ps: seq<Permission>)
      requires Valid()
      modifies this
      ensures Valid() && Perms() == old(Perms()) + Elements(ps)
    {
      for i := 0 to |ps|
        invariant Valid() && Perms() == old(Perms()) + Elements(ps[..i])
      {
        assert ps[..i + 1] == ps[..i] + [ps[i]];
        Add(ps[i]);
      }
      assert ps[..|ps|] == ps;
    }

    /** Three map lookups decide what a scan of all granted patterns would. */
    predicate Has(required: Permission)
      requires Valid()
      reads this
      ensures Has(required) <==> Covers(Perms(), required)
    {
      HasIsCovers(byResource, required);
      if "*" in byResource then true
      else if required.resource !in byResource then false
      else if "*" in byResource[required.resource] then true
      else required.action in byResource[required.resource]
    }

    /** Every granted permission once, row by row, rows and their entries in any order. */
    method Flatten() returns (out: seq<Permission>)
      requires Valid()
      ensures IsFlattening(out, Perms())
    {
      out := [];
      var rows := byResource.Keys;
      ghost var done: set<string> := {};
      while rows != {}
        invariant rows !! done && rows + done == byResource.Keys
        invariant Elements(out) == set p | p in Perms() && p.resource in done
        invariant Distinct(out) && Grouped(out)
      {
        var r :| r in rows;
        rows := rows - {r};
        assert forall p :: p in out ==> p in Elements(out);
        ghost var before := out;
        out := FlattenRow(r, byResource[r], out);
        GroupedExtension(before, out, r);
        forall p: Permission
          ensures p in Elements(out) <==> p in Perms() && p.resource in done + {r}
        {
          assert p in Perms() <==> p.resource in byResource && p.action in byResource[p.resource];
        }
        done := done + {r};
      }
    }

    static method FlattenRow(r: string, actions: set<string>, out: seq<Permission>) returns (out': seq<Permission>)
      requires Distinct(out) && forall p :: p in out ==> p.resource != r
      ensures Distinct(out')
      ensures out <= out' && forall k :: |out| <= k < |out'| ==> out'[k].resource == r
      ensures Elements(out') == Elements(out) + set a | a in actions :: Permission(r, a)
    {
      out' := out;
      var rest := actions;
      while rest != {}
        invariant rest <= actions && Distinct(out')
        invariant out <= out' && forall k :: |out| <= k < |out'| ==> out'[k].resource == r
        invariant Elements(out') == Elements(out) + set a | a in actions - rest :: Permission(r, a)
      {
        var a :| a in rest;
        assert Permission(r, a) !in Elements(out');
        out' := out' + [Permission(r, a)];
        assert actions - (rest - {a}) == (actions - rest) + {a};
        rest := rest - {a};
      }
      assert actions - rest == actions;
    }
  }

  lemma HasIsCovers(index: Index, required: Permission)
    requires NoEmptyRow(index)
    ensures Covers(Entries(index), required) <==>
      || "*" in index
      || (required.resource in index &&
            ("*" in index[required.resource] || required.action in index[required.resource]))
  {
    var (r, a) := (required.resource, required.action);
    if "*" in index {
      var any :| any in index["*"];
      assert Permission("*", any) in Entries(index) && Permission("*", any).Matches(required);
    }
    if r in index && "*" in index[r] {
      assert Permission(r, "*") in Entries(index) && Permission(r, "*").Matches(required);
    }
    if r in index && a in index[r] {
      assert required in Entries(index) && required.Matches(required);
    }
  }

  /**
   * `PermissionsFor` sorts by printed form: the listing is the same for every iteration order
   * exactly when no two granted permissions print alike.
   */
  lemma ListingDeterminedIff(granted: set<Permission>)
    ensures InjectiveOn(granted, (p: Permission) => p.ToString()) <==>
      forall s, t :: IsListing(s, granted) && IsListing(t, granted) ==> s == t
  {
    var key := (p: Permission) => p.ToString();
    if InjectiveOn(granted, key) {
      forall s, t | IsListing(s, granted) && IsListing(t, granted)
        ensures s == t
      {
        SortedIsStrict(s, key);
        SortedIsStrict(t, key);
        StrictListingUnique(s, t, key);
      }
    } else {
      var p, q :| p in granted && q in granted && key(p) == key(q) && p != q;
      var s := SomeListing(granted);
      assert p in Elements(s) && q in Elements(s);
      var i :| 0 <= i < |s| && s[i] == p;
      var j :| 0 <= j < |s| && s[j] == q;
      var t := s[i := q][j := p];
      SwapListing(s, i, j, t, granted);
    }
  }

  ghost predicate IsListing(s: seq<Permission>, granted: set<Permission>)
  {
    SortedBy(s, (p: Permission) => p.ToString()) && Distinct(s) && Elements(s) == granted
  }

  /** Two listings of one set, with two permissions that print alike. */
  lemma TwoListings() returns (granted: set<Permission>, s: seq<Permission>, t: seq<Permission>)
    ensures IsListing(s, granted) && IsListing(t, granted) && s != t
  {
    var p, q := Permission("a:b", "c"), Permission("a", "b:c");
    granted, s, t := {p, q}, [p, q], [q, p];
    PrintingCollides();
    LessIrreflexive(p.ToString());
    assert Elements(s) == granted && Elements(t) == granted;
  }

  lemma SwapListing(s: seq<Permission>, i: nat, j: nat, t: seq<Permission>, granted: set<Permission>)
    requires i < |s| && j < |s| && i != j && IsListing(s, granted)
    requires s[i].ToString() == s[j].ToString() && t == s[i := s[j]][j := s[i]]
    ensures IsListing(t, granted)
  {
    assert forall k :: 0 <= k < |t| ==> t[k].ToString() == s[k].ToString();
    forall x
      ensures x in t <==> x in s
    {
      if x in s {
        var k :| 0 <= k < |s| && s[k] == x;
        assert t[if k == i then j else if k == j then i else k] == x;
      }
    }
  }

  lemma {:induction false} SomeListing(granted: set<Permission>) returns (s: seq<Permission>)
    ensures IsListing(s, granted)
  {
    if granted == {} {
      s := [];
    } else {
      var p :| p in granted;
      var key := (p: Permission) => p.ToString();
      var r := SomeListing(granted - {p});
      assert p !in Elements(r);
      s := Insert(r, p, key);
      InsertSorted(r, p, key);
      Rearranged(r + [p], s);
      assert Elements(r + [p]) == Elements(r) + {p} == granted;
    }
  }

  // The order of a flattening

  ghost predicate PrintSorted(s: seq<Permission>)
  {
    SortedBy(s, (p: Permission) => p.ToString())
  }

  ghost predicate PrintAlike(granted: set<Permission>)
  {
    forall p, q :: p in granted && q in granted ==> p.ToString() == q.ToString()
  }

  lemma {:induction false} SomeFlattening(granted: set<Permission>) returns (s: seq<Permission>)
    ensures IsFlattening(s, granted)
  {
    if granted == {} {
      s := [];
    } else {
      var p :| p in granted;
      var row := set q | q in granted && q.resource == p.resource;
      var above := SomeFlattening(granted - row);
      var below := SomeListing(row);
      assert forall q :: q in above ==> q in Elements(above);
      assert forall k :: 0 <= k < |below| ==> below[k] in Elements(below);
      s := above + below;
      GroupedExtension(above, s, p.resource);
      assert Elements(s) == Elements(above) + Elements(below) == granted;
    }
  }

  function Backwards(s: seq<Permission>): (r: seq<Permission>)
    ensures |r| == |s| && forall k :: 0 <= k < |s| ==> r[k] == s[|s| - 1 - k]
  {
    seq(|s|, k requires 0 <= k < |s| => s[|s| - 1 - k])
  }

  lemma BackwardsFlattens(s: seq<Permission>, granted: set<Permission>)
    requires IsFlattening(s, granted)
    ensures IsFlattening(Backwards(s), granted)
  {
    var r := Backwards(s);
    forall p
      ensures p in r <==> p in s
    {
      if p in s {
        var k :| 0 <= k < |s| && s[k] == p;
        assert r[|s| - 1 - k] == p;
      }
    }
  }

  /** Whatever the map orders, the rows come out sorted by printed form exactly if nothing needs sorting. */
  lemma FlatteningSortedIff(granted: set<Permission>)
    ensures (forall s :: IsFlattening(s, granted) ==> PrintSorted(s)) <==> PrintAlike(granted)
  {
    var key := (p: Permission) => p.ToString();
    if PrintAlike(granted) {
      forall s | IsFlattening(s, granted)
        ensures PrintSorted(s)
      {
        forall i, j | 0 <= i < j < |s|
          ensures !Less(key(s[j]), key(s[i]))
        {
          assert s[i] in Elements(s) && s[j] in Elements(s);
          LessIrreflexive(key(s[i]));
        }
      }
    } else {
      var p, q :| p in granted && q in granted && key(p) != key(q);
      var s := SomeFlattening(granted);
      BackwardsFlattens(s, granted);
      assert p in Elements(s) && q in Elements(s);
      var i :| 0 <= i < |s| && s[i] == p;
      var j :| 0 <= j < |s| && s[j] == q;
      NotSortedBothWays(s, i, j);
    }
  }

  lemma NotSortedBothWays(s: seq<Permission>, i: nat, j: nat)
    requires i < |s| && j < |s| && s[i].ToString() != s[j].ToString()
    ensures !(PrintSorted(s) && PrintSorted(Backwards(s)))
  {
    var r, n := Backwards(s), |s| - 1;
    LessTotal(s[i].ToString(), s[j].ToString());
    assert r[n - i] == s[i] && r[n - j] == s[j];
  }

  /** Two rows written out in the wrong order. */
  lemma UnsortedFlattening()
    ensures var s := [Permission("b", "read"), Permission("a", "read")];
      IsFlattening(s, Elements(s)) && !PrintSorted(s)
  {
    var s := [Permission("b", "read"), Permission("a", "read")];
    assert s[1].ToString()[0] == 'a' && s[0].ToString()[0] == 'b';
    assert Less(s[1].ToString(), s[0].ToString());
  }

  /** The printed form is injective as soon as no granted resource contains a colon. */
  lemma ColonFreeListing(granted: set<Permission>)
    requires forall p :: p in granted ==> ColonFree(p.resource)
    ensures InjectiveOn(granted, (p: Permission) => p.ToString())
  {
    forall p, q | p in granted && q in granted && p.ToString() == q.ToString()
      ensures p == q
    {
      PrintingInjective(p, q);
    }
  }
}
