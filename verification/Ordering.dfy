/** Byte-wise string order and sorted listings, as `sort.Slice` delivers them. */
module Ordering {

  /** Strict lexicographic order, Go's `<` on strings. */
  predicate Less(a: string, b: string)
  {
    b != [] && (a == [] || a[0] < b[0] || (a[0] == b[0] && Less(a[1..], b[1..])))
  }

  ghost predicate FirstDifference(a: string, b: string, k: nat)
  {
    k < |a| && k < |b| && a[k] != b[k] && forall i :: 0 <= i < k ==> a[i] == b[i]
  }

  /** A proper prefix comes first; otherwise the first difference decides. */
  lemma {:induction false} LessExact(a: string, b: string)
    ensures Less(a, b) <==> a < b || exists k: nat :: FirstDifference(a, b, k) && a[k] < b[k]
  {
    if a == [] {
      assert a < b <==> b != [];
    } else if b != [] {
      if a[0] == b[0] {
        LessExact(a[1..], b[1..]);
        assert a == [a[0]] + a[1..] && b == [b[0]] + b[1..];
        assert a < b <==> a[1..] < b[1..];
        if k: nat :| FirstDifference(a[1..], b[1..], k) && a[1..][k] < b[1..][k] {
          FurtherOn(a, b, k);
          assert a[k + 1] < b[k + 1];
        }
        if k: nat :| FirstDifference(a, b, k) && a[k] < b[k] {
          assert k > 0;
          FurtherOn(a, b, k - 1);
          assert a[1..][k - 1] < b[1..][k - 1];
        }
      } else {
        assert FirstDifference(a, b, 0);
        assert !(a < b);
        assert forall k: nat :: FirstDifference(a, b, k) ==> k == 0;
      }
    }
  }

  lemma FurtherOn(a: string, b: string, k: nat)
    requires a != [] && b != [] && a[0] == b[0]
    ensures FirstDifference(a, b, k + 1) <==> FirstDifference(a[1..], b[1..], k)
  {
    if FirstDifference(a, b, k + 1) {
      assert forall i :: 0 <= i < k ==> a[1..][i] == a[i + 1] && b[1..][i] == b[i + 1];
    }
    if FirstDifference(a[1..], b[1..], k) {
      forall i | 0 <= i < k + 1
        ensures a[i] == b[i]
      {
        assert i > 0 ==> a[1..][i - 1] == b[1..][i - 1];
      }
    }
  }

  lemma {:induction false} LessIrreflexive(a: string)
    ensures !Less(a, a)
  {
    if a != [] {
      LessIrreflexive(a[1..]);
    }
  }

  lemma {:induction false} LessTransitive(a: string, b: string, c: string)
    requires Less(a, b) && Less(b, c)
    ensures Less(a, c)
  {
    if a != [] && a[0] == b[0] == c[0] {
      LessTransitive(a[1..], b[1..], c[1..]);
    }
  }

  lemma {:induction false} LessTotal(a: string, b: string)
    ensures Less(a, b) || a == b || Less(b, a)
  {
    if a != [] && b != [] && a[0] == b[0] {
      LessTotal(a[1..], b[1..]);
      assert a == [a[0]] + a[1..] && b == [b[0]] + b[1..];
    }
  }

  /** No later element has a smaller key than an earlier one: all that `sort.Slice` promises. */
  ghost predicate SortedBy<T>(s: seq<T>, key: T -> string)
  {
    forall i, j :: 0 <= i < j < |s| ==> !Less(key(s[j]), key(s[i]))
  }

  /** The keys ascend strictly. */
  ghost predicate StrictlySortedBy<T>(s: seq<T>, key: T -> string)
  {
    forall i, j :: 0 <= i < j < |s| ==> Less(key(s[i]), key(s[j]))
  }

  ghost predicate Distinct<T>(s: seq<T>)
  {
    forall i, j :: 0 <= i < j < |s| ==> s[i] != s[j]
  }

  ghost predicate InjectiveOn<T(!new)>(s: set<T>, key: T -> string)
  {
    forall x, y :: x in s && y in s && key(x) == key(y) ==> x == y
  }

  function Elements<T>(s: seq<T>): set<T>
  {
    set x | x in s
  }

  /** `x` placed behind every element whose key is not larger. */
  function Insert<T>(s: seq<T>, x: T, key: T -> string): (r: seq<T>)
    ensures multiset(r) == multiset(s) + multiset{x}
  {
    var n := |s| - 1;
    if s == [] || !Less(key(x), key(s[n])) then s + [x]
    else
      assert s == s[..n] + [s[n]];
      Insert(s[..n], x, key) + [s[n]]
  }

  lemma {:induction false} InsertSorted<T>(s: seq<T>, x: T, key: T -> string)
    requires SortedBy(s, key)
    ensures SortedBy(Insert(s, x, key), key)
  {
    var n := |s| - 1;
    if s == [] || !Less(key(x), key(s[n])) {
      forall i | 0 <= i < |s|
        ensures !Less(key(x), key(s[i]))
      {
        if i < n && Less(key(x), key(s[i])) {
          LessTotal(key(s[i]), key(s[n]));
          if Less(key(s[i]), key(s[n])) {
            LessTransitive(key(x), key(s[i]), key(s[n]));
          }
        }
      }
    } else {
      var r := Insert(s[..n], x, key);
      InsertSorted(s[..n], x, key);
      forall i | 0 <= i < |r|
        ensures !Less(key(s[n]), key(r[i]))
      {
        assert r[i] in multiset(s[..n]) + multiset{x};
        if r[i] == x {
          if Less(key(s[n]), key(x)) {
            LessTransitive(key(x), key(s[n]), key(x));
            LessIrreflexive(key(x));
          }
        } else {
          assert r[i] in s[..n];
        }
      }
    }
  }

  /** Stands for the library call `sort.Slice(s, key(s[i]) < key(s[j]))`: only its contract is used. */
  method SortBy<T>(s: seq<T>, key: T -> string) returns (r: seq<T>)
    ensures multiset(r) == multiset(s)
    ensures SortedBy(r, key)
  {
    r := [];
    for i := 0 to |s|
      invariant multiset(r) == multiset(s[..i])
      invariant SortedBy(r, key)
    {
      assert s[..i + 1] == s[..i] + [s[i]];
      InsertSorted(r, s[i], key);
      r := Insert(r, s[i], key);
    }
    assert s[..|s|] == s;
  }

  lemma {:induction false} DistinctCounts<T>(s: seq<T>, x: T)
    requires Distinct(s)
    ensures multiset(s)[x] <= 1
  {
    if s != [] {
      var n := |s| - 1;
      assert s == s[..n] + [s[n]];
      DistinctCounts(s[..n], x);
      if x == s[n] {
        assert x !in s[..n];
      }
    }
  }

  lemma {:induction false} DistinctSize<T>(s: seq<T>)
    requires Distinct(s)
    ensures |Elements(s)| == |s|
  {
    if s != [] {
      var n := |s| - 1;
      assert s == s[..n] + [s[n]];
      assert Elements(s) == Elements(s[..n]) + {s[n]};
      DistinctSize(s[..n]);
    }
  }

  lemma SubsetSize<T>(s: set<T>, t: set<T>)
    requires s <= t
    ensures |s| <= |t|
  {
    assert t == s + (t - s);
  }

  /** Rearranging keeps the elements and the absence of repetitions. */
  lemma Rearranged<T>(s: seq<T>, r: seq<T>)
    requires multiset(r) == multiset(s)
    ensures Elements(r) == Elements(s) && |r| == |s|
    ensures Distinct(s) ==> Distinct(r)
  {
    assert |multiset(r)| == |multiset(s)|;
    forall x
      ensures x in r <==> x in s
    {
      assert x in r <==> x in multiset(r);
      assert x in s <==> x in multiset(s);
    }
    if Distinct(s) {
      forall i, j | 0 <= i < j < |r|
        ensures r[i] != r[j]
      {
        DistinctCounts(s, r[i]);
        assert r == r[..j] + [r[j]] + r[j + 1..];
        assert r[i] in r[..j];
      }
    }
  }

  /** Distinct elements with distinct keys: the promise of `sort.Slice` becomes a strict order. */
  lemma SortedIsStrict<T(!new)>(s: seq<T>, key: T -> string)
    requires SortedBy(s, key) && Distinct(s) && InjectiveOn(Elements(s), key)
    ensures StrictlySortedBy(s, key)
  {
    forall i, j | 0 <= i < j < |s|
      ensures Less(key(s[i]), key(s[j]))
    {
      LessTotal(key(s[i]), key(s[j]));
      assert s[i] in Elements(s) && s[j] in Elements(s);
    }
  }

  /** A strictly sorted listing is determined by the set it lists. */
  lemma {:induction false} StrictListingUnique<T>(s: seq<T>, t: seq<T>, key: T -> string)
    requires StrictlySortedBy(s, key) && StrictlySortedBy(t, key)
    requires Elements(s) == Elements(t)
    ensures s == t
  {
    assert t == [] || t[0] in t;
    forall x
      ensures x in s <==> x in t
    {
      assert x in s <==> x in Elements(s);
      assert x in t <==> x in Elements(t);
    }
    if s != [] {
      assert s[0] in t && t != [];
      assert t[0] in s;
      if s[0] != t[0] {
        var j :| 0 <= j < |t| && t[j] == s[0];
        var i :| 0 <= i < |s| && s[i] == t[0];
        LessTransitive(key(s[0]), key(t[0]), key(s[0]));
        LessIrreflexive(key(s[0]));
      }
      HeadOnce(s, key);
      HeadOnce(t, key);
      StrictListingUnique(s[1..], t[1..], key);
      assert s == [s[0]] + s[1..] && t == [t[0]] + t[1..];
    }
  }

  lemma HeadOnce<T>(s: seq<T>, key: T -> string)
    requires s != [] && StrictlySortedBy(s, key)
    ensures Elements(s[1..]) == Elements(s) - {s[0]}
  {
    forall x | x in s[1..]
      ensures x != s[0]
    {
      LessIrreflexive(key(x));
    }
    assert s == [s[0]] + s[1..];
  }
}
