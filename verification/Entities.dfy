/** The persisted entities as values, and the errors every layer reports. */
module Entities {
  import opened Permissions

  type UserID = string
  type RoleID = string

  /** What the store keeps under a user ID. */
  datatype User = User(roles: seq<RoleID>, direct: seq<Permission>)

  /** What the store keeps under a role name; an empty parent ends the chain. */
  datatype Role = Role(permissions: seq<Permission>, parent: RoleID)

  type Users = map<UserID, User>
  type Roles = map<RoleID, Role>

  datatype Error =
    | Nil
    | EmptyName
    | UserNotFound
    | UserExists
    | RoleNotFound
    | RoleExists
    | InvalidPermission
    | CyclicInheritance
    | InheritanceDepth

  /** The list without any occurrence of `x`, order kept. */
  function Without<T(==,!new)>(s: seq<T>, x: T): (r: seq<T>)
    ensures |r| <= |s|
    ensures forall y :: y in r <==> y in s && y != x
  {
    if s == [] then []
    else if s[0] == x then Without(s[1..], x)
    else [s[0]] + Without(s[1..], x)
  }

  lemma {:induction false} WithoutAppend<T(!new)>(s: seq<T>, x: T, y: T)
    ensures Without(s + [y], x) == Without(s, x) + (if y == x then [] else [y])
  {
    if s == [] {
      assert s + [y] == [y];
    } else {
      WithoutAppend(s[1..], x, y);
      assert (s + [y])[1..] == s[1..] + [y];
    }
  }

  lemma {:induction false} WithoutAbsent<T(!new)>(s: seq<T>, x: T)
    ensures |Without(s, x)| == |s| <==> x !in s
    ensures x !in s ==> Without(s, x) == s
  {
    if s != [] {
      WithoutAbsent(s[1..], x);
    }
  }
}
