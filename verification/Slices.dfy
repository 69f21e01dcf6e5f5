/** Growable slices over a backing array: a window on its first `len` cells; its length is the capacity. */
module Slices {
  import opened Entities

  datatype Slice<T> = Slice(data: array<T>, len: nat) {

    ghost predicate Ok()
    {
      len <= data.Length
    }

    ghost function Elems(): seq<T>
      requires Ok()
      reads data
    {
      data[..len]
    }
  }

  method FromSeq<T>(s: seq<T>) returns (c: Slice<T>)
    ensures c.Ok() && fresh(c.data) && c.Elems() == s
  {
    var data := new T[|s|](i requires 0 <= i < |s| => s[i]);
    c := Slice(data, |s|);
  }

  /** `slices.Clone`: a private backing array with equal contents. */
  method Clone<T>(s: Slice<T>) returns (c: Slice<T>)
    requires s.Ok()
    ensures c.Ok() && fresh(c.data) && c.Elems() == s.Elems()
  {
    c := FromSeq(s.data[..s.len]);
  }

  /** `append(s, x)`: writes behind the window when there is room, else moves to a larger array. */
  method Append<T>(s: Slice<T>, x: T) returns (c: Slice<T>)
    requires s.Ok()
    modifies s.data
    ensures c.Ok() && (c.data == s.data || fresh(c.data))
    ensures c.Elems() == old(s.Elems()) + [x]
  {
    if s.len < s.data.Length {
      s.data[s.len] := x;
      c := Slice(s.data, s.len + 1);
    } else {
      c := FromSeq(s.data[..s.len] + [x]);
    }
  }

  /**
   * The compaction loop `kept := s[:0]; for ... { if v != x { kept = append(kept, v) } }`:
   * it overwrites the array it is reading, behind the reading position.
   */
  method RemoveInPlace<T(==,!new)>(s: Slice<T>, x: T) returns (kept: Slice<T>)
    requires s.Ok()
    modifies s.data
    ensures kept.Ok() && kept.data == s.data && kept.len <= s.len
    ensures kept.Elems() == Without(old(s.Elems()), x)
    ensures s.data[s.len..] == old(s.data[s.len..])
  {
    var n := 0;
    for i := 0 to s.len
      invariant n <= i
      invariant s.data[..n] == Without(old(s.data[..i]), x)
      invariant s.data[i..] == old(s.data[i..])
    {
      var v := s.data[i];
      assert v == s.data[i..][0] == old(s.data[i]);
      assert old(s.data[..i + 1]) == old(s.data[..i]) + [v];
      WithoutAppend(old(s.data[..i]), x, v);
      ghost var rest := s.data[i + 1..];
      assert rest == s.data[i..][1..] == old(s.data[i..])[1..] == old(s.data[i + 1..]);
      if v != x {
        s.data[n] := v;
        n := n + 1;
      }
    }
    kept := Slice(s.data, n);
  }

  /** The scan `for _, v := range s { if v == x { ... } }`. */
  method Contains<T(==)>(s: Slice<T>, x: T) returns (found: bool)
    requires s.Ok()
    ensures found <==> x in s.Elems()
  {
    for i := 0 to s.len
      invariant x !in s.data[..i]
    {
      if s.data[i] == x {
        assert s.Elems()[i] == x;
        return true;
      }
    }
    return false;
  }
}
