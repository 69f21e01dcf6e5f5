/** The laws assumed of text encodings, keys and AEAD can be met: one instance each. */
module Consistency {
  import opened Numerals
  import opened JwtClaims
  import opened Jwt
  import Branca

  // A prefix-free byte form of JSON values

  function OfNat(n: nat): seq<byte>
  {
    if n == 0 then [0] else [1] + OfNat(n - 1)
  }

  function OfInt(n: int): seq<byte>
  {
    if n < 0 then [1] + OfNat(-n) else [0] + OfNat(n)
  }

  function OfString(s: string): seq<byte>
  {
    if s == "" then [0] else [1] + OfNat(s[0] as int) + OfString(s[1..])
  }

  ghost function OfJson(j: Json): seq<byte>
    decreases j, 1
  {
    match j
    case JNull => [0]
    case JBool(b) => [1, if b then 1 else 0]
    case JInt(n) => [2] + OfInt(n)
    case JFraction(text) => [3] + OfString(text)
    case JString(s) => [4] + OfString(s)
    case JArray(es) => [5] + OfElements(j, es)
    case JObject(m) => [6] + OfMembers(j, m)
  }

  ghost function OfElements(j: Json, es: seq<Json>): seq<byte>
    requires j.JArray? && |es| <= |j.elements| && es == j.elements[|j.elements| - |es|..]
    decreases j, 0, |es|
  {
    if es == [] then [0] else [1] + OfJson(es[0]) + OfElements(j, es[1..])
  }

  /** In the order in which the members happen to be picked. */
  ghost function OfMembers(j: Json, m: map<string, Json>): seq<byte>
    requires j.JObject? && forall k :: k in m ==> k in j.members && m[k] == j.members[k]
    decreases j, 0, |m|
  {
    if m == map[] then [0]
    else
      var k :| k in m;
      [1] + OfString(k) + OfJson(m[k]) + OfMembers(j, m - {k})
  }

  lemma Parts(a: seq<byte>, b: seq<byte>, x: seq<byte>)
    requires a + b <= x
    ensures a <= x && b <= x[|a|..]
  {
    assert a == (a + b)[..|a|] && b == (a + b)[|a|..];
  }

  lemma {:induction false} NatPrefix(a: nat, b: nat, x: seq<byte>)
    requires OfNat(a) <= x && OfNat(b) <= x
    ensures a == b
  {
    assert OfNat(a)[0] == x[0] == OfNat(b)[0];
    if a > 0 && b > 0 {
      Parts([1], OfNat(a - 1), x);
      Parts([1], OfNat(b - 1), x);
      NatPrefix(a - 1, b - 1, x[1..]);
    }
  }

  lemma IntPrefix(a: int, b: int, x: seq<byte>)
    requires OfInt(a) <= x && OfInt(b) <= x
    ensures a == b
  {
    assert OfInt(a)[0] == x[0] == OfInt(b)[0];
    var a', b' := if a < 0 then -a else a, if b < 0 then -b else b;
    Parts([if a < 0 then 1 else 0], OfNat(a'), x);
    Parts([if b < 0 then 1 else 0], OfNat(b'), x);
    NatPrefix(a', b', x[1..]);
  }

  lemma {:induction false} StringPrefix(a: string, b: string, x: seq<byte>)
    requires OfString(a) <= x && OfString(b) <= x
    ensures a == b
  {
    assert OfString(a)[0] == x[0] == OfString(b)[0];
    if a != "" && b != "" {
      Parts([1] + OfNat(a[0] as int), OfString(a[1..]), x);
      Parts([1] + OfNat(b[0] as int), OfString(b[1..]), x);
      Parts([1], OfNat(a[0] as int), x);
      Parts([1], OfNat(b[0] as int), x);
      NatPrefix(a[0] as int, b[0] as int, x[1..]);
      StringPrefix(a[1..], b[1..], x[|[1] + OfNat(a[0] as int)|..]);
      assert a == [a[0]] + a[1..] && b == [b[0]] + b[1..];
    }
  }

  lemma {:induction false} JsonPrefix(a: Json, b: Json, x: seq<byte>)
    requires OfJson(a) <= x && OfJson(b) <= x
    ensures a == b
    decreases a, 1
  {
    assert OfJson(a)[0] == x[0] == OfJson(b)[0];
    match a
    case JNull =>
    case JBool(p) => assert OfJson(a)[1] == x[1] == OfJson(b)[1];
    case JInt(n) =>
      Parts([2], OfInt(n), x);
      Parts([2], OfInt(b.n), x);
      IntPrefix(n, b.n, x[1..]);
    case JFraction(text) =>
      Parts([3], OfString(text), x);
      Parts([3], OfString(b.text), x);
      StringPrefix(text, b.text, x[1..]);
    case JString(s) =>
      Parts([4], OfString(s), x);
      Parts([4], OfString(b.s), x);
      StringPrefix(s, b.s, x[1..]);
    case JArray(es) =>
      Parts([5], OfElements(a, es), x);
      Parts([5], OfElements(b, b.elements), x);
      ElementsPrefix(a, es, b, b.elements, x[1..]);
    case JObject(m) =>
      Parts([6], OfMembers(a, m), x);
      Parts([6], OfMembers(b, b.members), x);
      MembersPrefix(a, m, b, b.members, x[1..]);
  }

  lemma {:induction false} ElementsPrefix(a: Json, es: seq<Json>, b: Json, fs: seq<Json>, x: seq<byte>)
    requires a.JArray? && |es| <= |a.elements| && es == a.elements[|a.elements| - |es|..]
    requires b.JArray? && |fs| <= |b.elements| && fs == b.elements[|b.elements| - |fs|..]
    requires OfElements(a, es) <= x && OfElements(b, fs) <= x
    ensures es == fs
    decreases a, 0, |es|
  {
    assert OfElements(a, es)[0] == x[0] == OfElements(b, fs)[0];
    if es != [] && fs != [] {
      Parts([1] + OfJson(es[0]), OfElements(a, es[1..]), x);
      Parts([1] + OfJson(fs[0]), OfElements(b, fs[1..]), x);
      Parts([1], OfJson(es[0]), x);
      Parts([1], OfJson(fs[0]), x);
      JsonPrefix(es[0], fs[0], x[1..]);
      ElementsPrefix(a, es[1..], b, fs[1..], x[|[1] + OfJson(es[0])|..]);
      assert es == [es[0]] + es[1..] && fs == [fs[0]] + fs[1..];
    }
  }

  lemma MemberParts(name: seq<byte>, value: seq<byte>, rest: seq<byte>, x: seq<byte>)
    requires [1] + name + value + rest <= x
    ensures name <= x[1..] && value <= x[1 + |name|..] && rest <= x[1 + |name| + |value|..]
  {
    Parts([1] + name + value, rest, x);
    Parts([1] + name, value, x);
    Parts([1], name, x);
  }

  lemma FirstOfMembers(j: Json, m: map<string, Json>)
    requires j.JObject? && forall k :: k in m ==> k in j.members && m[k] == j.members[k]
    ensures OfMembers(j, m) != [] && OfMembers(j, m)[0] == if m == map[] then 0 else 1
  {
  }

  lemma MembersStep(j: Json, m: map<string, Json>) returns (k: string)
    requires j.JObject? && forall n :: n in m ==> n in j.members && m[n] == j.members[n]
    requires m != map[]
    ensures k in m && OfMembers(j, m) == [1] + OfString(k) + OfJson(m[k]) + OfMembers(j, m - {k})
    ensures |m - {k}| < |m| && m == (m - {k})[k := m[k]]
  {
    k :| k in m && OfMembers(j, m) == [1] + OfString(k) + OfJson(m[k]) + OfMembers(j, m - {k});
    assert m == (m - {k})[k := m[k]];
  }

  lemma {:induction false} MembersPrefix(a: Json, m: map<string, Json>, b: Json, n: map<string, Json>, x: seq<byte>)
    requires a.JObject? && forall k :: k in m ==> k in a.members && m[k] == a.members[k]
    requires b.JObject? && forall k :: k in n ==> k in b.members && n[k] == b.members[k]
    requires OfMembers(a, m) <= x && OfMembers(b, n) <= x
    ensures m == n
    decreases a, 0, |m|
  {
    hide OfString, OfJson, OfMembers;
    FirstOfMembers(a, m);
    FirstOfMembers(b, n);
    assert OfMembers(a, m)[0] == x[0] == OfMembers(b, n)[0];
    if m != map[] {
      var k := MembersStep(a, m);
      var l := MembersStep(b, n);
      var m', n', v, w := m - {k}, n - {l}, m[k], n[l];
      MemberParts(OfString(k), OfJson(v), OfMembers(a, m'), x);
      MemberParts(OfString(l), OfJson(w), OfMembers(b, n'), x);
      StringPrefix(k, l, x[1..]);
      assert v == a.members[k];
      JsonPrefix(v, w, x[1 + |OfString(k)|..]);
      MembersPrefix(a, m', b, n', x[1 + |OfString(k)| + |OfJson(v)|..]);
    }
  }

  ghost function Unmarshalled(b: seq<byte>): Maybe<Json>
  {
    if exists j :: OfJson(j) == b then
      var j :| OfJson(j) == b;
      Just(j)
    else Nothing
  }

  // A dot-free text form of bytes

  function Letters(b: seq<byte>): string
  {
    seq(|b|, i requires 0 <= i < |b| => (b[i] as int + 256) as char)
  }

  function FromLetters(s: string): Maybe<seq<byte>>
  {
    if forall i :: 0 <= i < |s| ==> 256 <= s[i] as int < 512
    then Just(seq(|s|, i requires 0 <= i < |s| && 256 <= s[i] as int < 512 => s[i] as int - 256))
    else Nothing
  }

  lemma LettersBack(b: seq<byte>)
    ensures FromLetters(Letters(b)) == Just(b) && '.' !in Letters(b)
  {
    assert FromLetters(Letters(b)).value == b;
  }

  // The instances

  /** A codec and a key that meet the laws, so what is proved from them is not vacuous. */
  lemma LawsOfTokensCanBeMet() returns (codec: Codec, key: Algorithm)
    ensures LawfulCodec(codec) && Matching(key, key, codec)
    ensures forall input :: key.sign(input).Just?
  {
    codec := Codec(Letters, FromLetters, OfJson, Unmarshalled, header => Just(Jose("any", "JWT", [])));
    key := Algorithm("any", [0], input => Just([0]), (input, signature) => signature == [0]);
    forall b
      ensures codec.b64decode(codec.b64encode(b)) == Just(b) && '.' !in codec.b64encode(b)
    {
      LettersBack(b);
    }
    forall j
      ensures codec.unmarshal(codec.marshal(j)) == Just(j) && codec.marshal(j) != []
    {
      var back := Unmarshalled(OfJson(j)).value;
      JsonPrefix(back, j, OfJson(j));
    }
  }

  /** Likewise for the AEAD. */
  lemma LawsOfSealingCanBeMet() returns (aead: Branca.Aead)
    ensures forall key :: Branca.Lawful(aead, key)
  {
    var tag: seq<byte> := seq(Branca.TAG_SIZE, i => 0);
    aead := Branca.Aead((key, nonce, payload, ad) => payload + tag,
                        (key, nonce, sealed, ad) =>
                          if |sealed| >= Branca.TAG_SIZE then Branca.Plaintext(sealed[..|sealed| - Branca.TAG_SIZE])
                          else Branca.Unauthentic);
    forall key
      ensures Branca.Lawful(aead, key)
    {
      forall payload: seq<byte>
        ensures (payload + tag)[..|payload + tag| - Branca.TAG_SIZE] == payload
      {
      }
    }
  }
}
