/** Permissions: parsing, printing and wildcard matching (model/permission.go). */
module Permissions {

  datatype Permission = Permission(resource: string, action: string) {

    /** Inverse direction of `Parse`; never produces the one-character spelling "*". */
    function ToString(): string
    {
      resource + ":" + action
    }

    /** This granted pattern covers the required permission. */
    predicate Matches(required: Permission)
    {
      if this == required then true
      else if resource == "*" then true
      else if resource != required.resource then false
      else action == "*" || action == required.action
    }

    predicate Valid()
    {
      resource != "" && (resource == "*" || action != "")
    }

    method MatchesAny(required: seq<Permission>) returns (covered: bool)
      ensures covered <==> exists k :: 0 <= k < |required| && Matches(required[k])
    {
      for k := 0 to |required|
        invariant forall j :: 0 <= j < k ==> !Matches(required[j])
      {
        if Matches(required[k]) {
          return true;
        }
      }
      return false;
    }
  }

  datatype ParseError = EmptyPermission | MissingAction | EmptyResource | EmptyAction

  datatype ParseResult = Parsed(permission: Permission) | Rejected(error: ParseError)

  /** `strings.IndexByte(s, ':')`: the first colon, or the length of `s` when there is none. */
  function Colon(s: string): (i: nat)
    ensures i <= |s|
    ensures forall j :: 0 <= j < i ==> s[j] != ':'
    ensures i < |s| ==> s[i] == ':'
  {
    if s == [] || s[0] == ':' then 0 else 1 + Colon(s[1..])
  }

  function Parse(s: string): ParseResult
  {
    if s == "" then Rejected(EmptyPermission)
    else if s == "*" then Parsed(Permission("*", ""))
    else
      var i := Colon(s);
      if i == |s| then Rejected(MissingAction)
      else if i == 0 then Rejected(EmptyResource)
      else if i == |s| - 1 then Rejected(EmptyAction)
      else Parsed(Permission(s[..i], s[i + 1..]))
  }

  predicate ColonFree(s: string)
  {
    ':' !in s
  }

  lemma ColonAt(s: string, i: nat)
    requires i < |s| && s[i] == ':' && forall j :: 0 <= j < i ==> s[j] != ':'
    ensures Colon(s) == i
  {
  }

  /** Printing then parsing is the identity exactly on the permissions that have a spelling of their own. */
  lemma ParsePrinted(p: Permission)
    ensures Parse(p.ToString()) == Parsed(p) <==> p.resource != "" && ColonFree(p.resource) && p.action != ""
  {
    var s := p.ToString();
    var n := |p.resource|;
    assert s[n] == ':' && s[..n] == p.resource && s[n + 1..] == p.action;
    if ColonFree(p.resource) {
      assert forall j :: 0 <= j < n ==> s[j] == p.resource[j] && p.resource[j] in p.resource;
      ColonAt(s, n);
    } else {
      var j :| 0 <= j < n && p.resource[j] == ':';
      assert s[j] == ':' && Colon(s) <= j;
      assert s != "*";
    }
  }

  /** Parsing then printing gives the text back, for every accepted text but "*". */
  lemma PrintParsed(s: string)
    requires Parse(s).Parsed?
    ensures Parse(s).permission.Valid() && ColonFree(Parse(s).permission.resource)
    ensures Parse(s).permission.ToString() == (if s == "*" then "*:" else s)
  {
    if s != "*" {
      var i := Colon(s);
      assert s == s[..i] + [s[i]] + s[i + 1..];
    }
  }

  /** Which texts are refused for what; all others are split at their first colon, but for "*". */
  lemma ParseOutcome(s: string)
    ensures Parse(s) == Rejected(EmptyPermission) <==> s == ""
    ensures Parse(s) == Rejected(MissingAction) <==> s != "" && s != "*" && ':' !in s
    ensures Parse(s) == Rejected(EmptyResource) <==> s != "" && s[0] == ':'
    ensures Parse(s) == Rejected(EmptyAction) <==>
      |s| > 1 && ':' !in s[..|s| - 1] && s[|s| - 1] == ':'
    ensures Parse(s).Parsed? ==>
      var p := Parse(s).permission;
      if s == "*" then p.resource == "*" && p.action == "" else s == p.resource + ":" + p.action && ':' !in p.resource
  {
    var i := Colon(s);
    if i < |s| {
      assert s[i] in s && s == s[..i] + ":" + s[i + 1..];
      if i < |s| - 1 {
        assert s[..|s| - 1][i] == ':';
      }
    }
  }

  /** The wildcard needs no action; any other permission needs both parts, as every text that parses has them. */
  lemma ValidIffSpelled(p: Permission)
    ensures p.Valid() <==> p.resource == "*" || (p.resource != "" && p.action != "")
    ensures ColonFree(p.resource) ==> (p.Valid() <==> p.resource == "*" || exists s :: Parse(s) == Parsed(p))
  {
    if ColonFree(p.resource) && p.Valid() {
      ParsePrinted(p);
    }
    if s :| Parse(s) == Parsed(p) {
      PrintParsed(s);
    }
  }

  /** What a pattern covers; covering what covers a third covers that too. */
  lemma MatchesExact(p: Permission, q: Permission, r: Permission)
    ensures p.Matches(q) <==> p.resource == "*" || (p.resource == q.resource && p.action in {"*", q.action})
    ensures p.Matches(q) && q.Matches(r) ==> p.Matches(r)
  {
  }

  /** Colon-free resources make the printed form a faithful sort key. */
  lemma PrintingInjective(p: Permission, q: Permission)
    requires ColonFree(p.resource) && ColonFree(q.resource)
    requires p.ToString() == q.ToString()
    ensures p == q
  {
    var s := p.ToString();
    var n, m := |p.resource|, |q.resource|;
    assert s[n] == ':' && s[m] == ':';
    assert s[..n] == p.resource && s[n + 1..] == p.action;
    assert s[..m] == q.resource && s[m + 1..] == q.action;
    assert forall j :: 0 <= j < n ==> s[j] == p.resource[j] && p.resource[j] in p.resource;
    assert forall j :: 0 <= j < m ==> s[j] == q.resource[j] && q.resource[j] in q.resource;
    ColonAt(s, n);
    ColonAt(s, m);
  }

  /** With colons in a resource, two different permissions can print alike. */
  lemma PrintingCollides()
    ensures Permission("a:b", "c").ToString() == Permission("a", "b:c").ToString()
    ensures Permission("a:b", "c") != Permission("a", "b:c")
  {
    assert "a:b" + ":" + "c" == "a" + ":" + "b:c";
    assert |"a:b"| == 3 && |"a"| == 1;
  }
}
