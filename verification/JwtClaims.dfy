/** Identity claims and their JSON form (jwt/claims.go), over abstract JSON values. */
module JwtClaims {
  import opened Times

  datatype Json =
    | JNull
    | JBool(b: bool)
    | JInt(n: int)
    /** A number spelled with a fraction or an exponent. */
    | JFraction(text: string)
    | JString(s: string)
    | JArray(elements: seq<Json>)
    | JObject(members: map<string, Json>)

  datatype Claims = Claims(
    subject: string,
    issuer: string,
    audience: seq<string>,
    id: string,
    issuedAt: Time,
    expiresAt: Time,
    notBefore: Time,
    extra: map<string, Json>)

  const NO_CLAIMS := Claims("", "", [], "", ZERO_TIME, ZERO_TIME, ZERO_TIME, map[])

  /** The claim names of section 4.1 of RFC 7519. */
  const RESERVED: set<string> := {"sub", "iss", "aud", "jti", "iat", "exp", "nbf"}

  datatype EncodeResult = Encoded(members: map<string, Json>) | ReservedClaim

  datatype DecodeResult = Decoded(claims: Claims) | Malformed

  datatype Maybe<T> = Just(value: T) | Nothing

  // Encoding

  function StringMember(s: string): Maybe<Json>
  {
    if s == "" then Nothing else Just(JString(s))
  }

  /** The Unix second; a zero time and the epoch second itself are omitted. */
  function DateMember(t: Time): Maybe<Json>
  {
    if t == ZERO_TIME || Unix(t) == 0 then Nothing else Just(JInt(Unix(t)))
  }

  /** One audience is spelled as a string, several as an array. */
  function AudienceMember(a: seq<string>): Maybe<Json>
  {
    if a == [] then Nothing
    else if |a| == 1 then Just(JString(a[0]))
    else Just(JArray(seq(|a|, i requires 0 <= i < |a| => JString(a[i]))))
  }

  function RegisteredMember(c: Claims, name: string): Maybe<Json>
  {
    match name
    case "sub" => StringMember(c.subject)
    case "iss" => StringMember(c.issuer)
    case "aud" => AudienceMember(c.audience)
    case "jti" => StringMember(c.id)
    case "iat" => DateMember(c.issuedAt)
    case "exp" => DateMember(c.expiresAt)
    case "nbf" => DateMember(c.notBefore)
    case _ => Nothing
  }

  function EncodeClaims(c: Claims): EncodeResult
  {
    if c.extra.Keys * RESERVED != {} then ReservedClaim
    else
      Encoded(map name | name in RESERVED + c.extra.Keys && (name in RESERVED ==> RegisteredMember(c, name).Just?) ::
        if name in RESERVED then RegisteredMember(c, name).value else c.extra[name])
  }

  /** Collision check, registered members, then the extra members merged in one by one. */
  method MarshalClaims(c: Claims) returns (r: EncodeResult)
    ensures r == EncodeClaims(c)
  {
    var clash := ExtraClashes(c.extra.Keys);
    if clash {
      return ReservedClaim;
    }
    NothingShared(c.extra.Keys, RESERVED);
    var merged := MarshalRegistered(c);
    merged := MergeExtra(merged, c.extra);
    return Encoded(merged);
  }

  method ExtraClashes(extra: set<string>) returns (clash: bool)
    ensures clash <==> extra * RESERVED != {}
  {
    var names := extra;
    while names != {}
      invariant names <= extra && (extra - names) * RESERVED == {}
    {
      var name :| name in names;
      if name in RESERVED {
        assert name in extra * RESERVED;
        return true;
      }
      names := names - {name};
    }
    assert extra - names == extra;
    return false;
  }

  method MergeExtra(registered: map<string, Json>, extra: map<string, Json>) returns (merged: map<string, Json>)
    requires registered.Keys !! extra.Keys
    ensures merged == registered + extra
  {
    merged := registered;
    var names := extra.Keys;
    while names != {}
      invariant names <= extra.Keys
      invariant merged == registered + map n | n in extra.Keys - names :: extra[n]
    {
      var name :| name in names;
      merged := merged[name := extra[name]];
      names := names - {name};
    }
  }

  method MarshalRegistered(c: Claims) returns (m: map<string, Json>)
    ensures m == map n | n in RESERVED && RegisteredMember(c, n).Just? :: RegisteredMember(c, n).value
  {
    m := map[];
    var names := RESERVED;
    while names != {}
      invariant names <= RESERVED
      invariant m == map n | n in RESERVED - names && RegisteredMember(c, n).Just? :: RegisteredMember(c, n).value
    {
      var name :| name in names;
      var member := RegisteredMember(c, name);
      if member.Just? {
        m := m[name := member.value];
      }
      names := names - {name};
    }
  }

  // Decoding

  /** A JSON null leaves a string claim empty. */
  function StringOf(j: Json): Maybe<string>
  {
    match j
    case JString(s) => Just(s)
    case JNull => Just("")
    case _ => Nothing
  }

  function AudienceOf(j: Json): Maybe<seq<string>>
  {
    match j
    case JNull => Just([])
    case JString(s) => Just([s])
    case JArray(es) =>
      if forall i :: 0 <= i < |es| ==> StringOf(es[i]).Just?
      then Just(seq(|es|, i requires 0 <= i < |es| && StringOf(es[i]).Just? => StringOf(es[i]).value))
      else Nothing
    case _ => Nothing
  }

  /** A NumericDate is a whole number of seconds that fits 64 bits; strings, fractions and nulls are refused. */
  function DateOf(j: Json): Maybe<Time>
  {
    match j
    case JInt(n) => if MIN_INT64 <= n <= MAX_INT64 then Just(FromUnix(n)) else Nothing
    case _ => Nothing
  }

  predicate MemberOk(name: string, j: Json)
  {
    match name
    case "sub" => StringOf(j).Just?
    case "iss" => StringOf(j).Just?
    case "jti" => StringOf(j).Just?
    case "aud" => AudienceOf(j).Just?
    case "iat" => DateOf(j).Just?
    case "exp" => DateOf(j).Just?
    case "nbf" => DateOf(j).Just?
    case _ => true
  }

  function StringAt(m: map<string, Json>, name: string): string
  {
    if name in m && StringOf(m[name]).Just? then StringOf(m[name]).value else ""
  }

  function AudienceAt(m: map<string, Json>, name: string): seq<string>
  {
    if name in m && AudienceOf(m[name]).Just? then AudienceOf(m[name]).value else []
  }

  function DateAt(m: map<string, Json>, name: string): Time
  {
    if name in m && DateOf(m[name]).Just? then DateOf(m[name]).value else ZERO_TIME
  }

  function Assemble(m: map<string, Json>): Claims
  {
    Claims(StringAt(m, "sub"), StringAt(m, "iss"), AudienceAt(m, "aud"), StringAt(m, "jti"),
           DateAt(m, "iat"), DateAt(m, "exp"), DateAt(m, "nbf"), m - RESERVED)
  }

  function DecodeClaims(j: Json): DecodeResult
  {
    match j
    case JNull => Decoded(NO_CLAIMS)
    case JObject(m) => if forall name :: name in m ==> MemberOk(name, m[name]) then Decoded(Assemble(m)) else Malformed
    case _ => Malformed
  }

  /** One member into the claims under construction. */
  method TakeMember(parsed: Claims, name: string, member: Json) returns (r: DecodeResult)
    ensures r == if MemberOk(name, member) then Decoded(WithMember(parsed, name, member)) else Malformed
  {
    if !MemberOk(name, member) {
      return Malformed;
    }
    match name
    case "sub" => return Decoded(parsed.(subject := StringOf(member).value));
    case "iss" => return Decoded(parsed.(issuer := StringOf(member).value));
    case "jti" => return Decoded(parsed.(id := StringOf(member).value));
    case "aud" => return Decoded(parsed.(audience := AudienceOf(member).value));
    case "iat" => return Decoded(parsed.(issuedAt := DateOf(member).value));
    case "exp" => return Decoded(parsed.(expiresAt := DateOf(member).value));
    case "nbf" => return Decoded(parsed.(notBefore := DateOf(member).value));
    case _ => return Decoded(parsed.(extra := parsed.extra[name := member]));
  }

  function WithMember(parsed: Claims, name: string, member: Json): Claims
    requires MemberOk(name, member)
  {
    match name
    case "sub" => parsed.(subject := StringOf(member).value)
    case "iss" => parsed.(issuer := StringOf(member).value)
    case "jti" => parsed.(id := StringOf(member).value)
    case "aud" => parsed.(audience := AudienceOf(member).value)
    case "iat" => parsed.(issuedAt := DateOf(member).value)
    case "exp" => parsed.(expiresAt := DateOf(member).value)
    case "nbf" => parsed.(notBefore := DateOf(member).value)
    case _ => parsed.(extra := parsed.extra[name := member])
  }

  lemma AssembleStep(m: map<string, Json>, name: string, member: Json)
    requires name !in m && MemberOk(name, member)
    ensures Assemble(m[name := member]) == WithMember(Assemble(m), name, member)
  {
    var m' := m[name := member];
    if name in RESERVED {
      assert m' - RESERVED == m - RESERVED;
    } else {
      assert m' - RESERVED == (m - RESERVED)[name := member];
    }
  }

  /** The members may come in any order. */
  method UnmarshalClaims(j: Json) returns (r: DecodeResult)
    ensures r == DecodeClaims(j)
  {
    if j == JNull {
      return Decoded(NO_CLAIMS);
    }
    if !j.JObject? {
      return Malformed;
    }
    var raw := j.members;
    var parsed := NO_CLAIMS;
    var names := raw.Keys;
    ghost var done: map<string, Json> := map[];
    assert done - RESERVED == map[];
    while names != {}
      invariant names <= raw.Keys && done == map n | n in raw.Keys - names :: raw[n]
      invariant forall n :: n in done ==> MemberOk(n, done[n])
      invariant parsed == Assemble(done)
    {
      var name :| name in names;
      var step := TakeMember(parsed, name, raw[name]);
      if step.Malformed? {
        return Malformed;
      }
      AssembleStep(done, name, raw[name]);
      parsed := step.claims;
      done := done[name := raw[name]];
      names := names - {name};
    }
    assert done == raw;
    return Decoded(parsed);
  }

  // What is accepted, and what is read and written

  predicate TextOrNull(j: Json)
  {
    j.JString? || j.JNull?
  }

  /** A registered claim has a value of its own type, dates whole numbers of 64 bits; any other may have any value. */
  predicate MemberShaped(name: string, j: Json)
  {
    && (name in {"sub", "iss", "jti"} ==> TextOrNull(j))
    && (name in {"iat", "exp", "nbf"} ==> j.JInt? && -0x8000_0000_0000_0000 <= j.n <= 0x7FFF_FFFF_FFFF_FFFF)
    && (name == "aud" ==> TextOrNull(j) || (j.JArray? && forall e :: e in j.elements ==> TextOrNull(e)))
  }

  /** The payloads the decoder takes. */
  predicate ClaimsShaped(j: Json)
  {
    j.JNull? || (j.JObject? && forall name :: name in j.members ==> MemberShaped(name, j.members[name]))
  }

  lemma MemberOkIffShaped(name: string, j: Json)
    ensures MemberOk(name, j) <==> MemberShaped(name, j)
  {
    if j.JArray? {
      assert forall i :: 0 <= i < |j.elements| ==> j.elements[i] in j.elements;
    }
  }

  lemma AcceptedIffShaped(j: Json)
    ensures DecodeClaims(j).Decoded? <==> ClaimsShaped(j)
    ensures j.JNull? ==> DecodeClaims(j) == Decoded(Claims("", "", [], "", ZERO_TIME, ZERO_TIME, ZERO_TIME, map[]))
  {
    hide MemberOk, MemberShaped;
    if j.JObject? {
      forall name | name in j.members
        ensures MemberOk(name, j.members[name]) <==> MemberShaped(name, j.members[name])
      {
        MemberOkIffShaped(name, j.members[name]);
      }
    }
  }

  /** A string claim: the text stated, empty when it is null or missing. */
  predicate ReadsText(m: map<string, Json>, name: string, value: string)
  {
    value == if name in m && m[name].JString? then m[name].s else ""
  }

  /** A date: the stated second, the zero time when it is missing. */
  predicate ReadsDate(m: map<string, Json>, name: string, value: Time)
  {
    if name in m then m[name].JInt? && MIN_INT64 <= m[name].n <= MAX_INT64 && value == FromUnix(m[name].n)
    else value == ZERO_TIME
  }

  predicate ReadsAudience(m: map<string, Json>, value: seq<string>)
  {
    if "aud" !in m || m["aud"].JNull? then value == []
    else if m["aud"].JString? then value == [m["aud"].s]
    else
      && m["aud"].JArray? && |value| == |m["aud"].elements|
      && forall i :: 0 <= i < |value| ==>
           var e := m["aud"].elements[i];
           value[i] == if e.JString? then e.s else ""
  }

  /** Every claim is read from the member of its own name, and all unregistered members are kept. */
  lemma DecodedFields(m: map<string, Json>)
    requires ClaimsShaped(JObject(m))
    ensures DecodeClaims(JObject(m)).Decoded?
    ensures var c := DecodeClaims(JObject(m)).claims;
      && ReadsText(m, "sub", c.subject) && ReadsText(m, "iss", c.issuer) && ReadsText(m, "jti", c.id)
      && ReadsDate(m, "iat", c.issuedAt) && ReadsDate(m, "exp", c.expiresAt) && ReadsDate(m, "nbf", c.notBefore)
      && ReadsAudience(m, c.audience)
      && c.extra == m - {"sub", "iss", "aud", "jti", "iat", "exp", "nbf"}
  {
    AcceptedIffShaped(JObject(m));
    hide ClaimsShaped;
    assert forall name :: name in m ==> MemberOk(name, m[name]);
    assert "sub" in m ==> MemberOk("sub", m["sub"]);
    assert "iss" in m ==> MemberOk("iss", m["iss"]);
    assert "jti" in m ==> MemberOk("jti", m["jti"]);
    assert "aud" in m ==> MemberOk("aud", m["aud"]);
    assert "iat" in m ==> MemberOk("iat", m["iat"]);
    assert "exp" in m ==> MemberOk("exp", m["exp"]);
    assert "nbf" in m ==> MemberOk("nbf", m["nbf"]);
  }

  /** A member is written exactly when there is something to say. */
  predicate WritesText(m: map<string, Json>, name: string, value: string)
  {
    if value == "" then name !in m else name in m && m[name] == JString(value)
  }

  predicate WritesDate(m: map<string, Json>, name: string, value: Time)
  {
    if value == ZERO_TIME || Unix(value) == 0 then name !in m else name in m && m[name] == JInt(Unix(value))
  }

  predicate WritesAudience(m: map<string, Json>, value: seq<string>)
  {
    if value == [] then "aud" !in m
    else if |value| == 1 then "aud" in m && m["aud"] == JString(value[0])
    else
      && "aud" in m && m["aud"].JArray? && |m["aud"].elements| == |value|
      && forall i :: 0 <= i < |value| ==> m["aud"].elements[i] == JString(value[i])
  }

  /** Reserved extra names are refused; otherwise every claim is written under its own name, beside the extra ones. */
  lemma EncodedFields(c: Claims)
    ensures EncodeClaims(c).ReservedClaim? <==>
      exists name :: name in c.extra && name in {"sub", "iss", "aud", "jti", "iat", "exp", "nbf"}
    ensures EncodeClaims(c).Encoded? ==>
      var m := EncodeClaims(c).members;
      && WritesText(m, "sub", c.subject) && WritesText(m, "iss", c.issuer) && WritesText(m, "jti", c.id)
      && WritesDate(m, "iat", c.issuedAt) && WritesDate(m, "exp", c.expiresAt) && WritesDate(m, "nbf", c.notBefore)
      && WritesAudience(m, c.audience)
      && m - {"sub", "iss", "aud", "jti", "iat", "exp", "nbf"} == c.extra
  {
    if EncodeClaims(c).Encoded? {
      NothingShared(c.extra.Keys, RESERVED);
      assert "sub" in RESERVED && "iss" in RESERVED && "jti" in RESERVED && "aud" in RESERVED;
      assert "iat" in RESERVED && "exp" in RESERVED && "nbf" in RESERVED;
    } else {
      var name :| name in c.extra.Keys * RESERVED;
    }
  }

  // Round trips

  /** What a time becomes on the wire: its whole second, or nothing when zero or within the epoch second. */
  function Carried(t: Time): Time
  {
    if Unix(t) == 0 then ZERO_TIME else Floor(t)
  }

  function Normal(c: Claims): Claims
  {
    c.(issuedAt := Carried(c.issuedAt), expiresAt := Carried(c.expiresAt), notBefore := Carried(c.notBefore))
  }

  lemma DateRoundTrip(t: Time)
    ensures DateMember(t).Nothing? ==> Carried(t) == ZERO_TIME
    ensures DateMember(t).Just? ==> DateOf(DateMember(t).value) == Just(Carried(t))
  {
    UnixRoundTrip(t, 0);
  }

  /** A stated date means what it says exactly up to the last second that `time.Unix` takes at face value. */
  lemma DateFaithfulIff(n: Int64)
    ensures DateOf(JInt(n)) == Just(n * SECOND) <==> n <= LAST_SECOND
  {
    FromUnixExactIff(n);
  }

  lemma AudienceRoundTrip(a: seq<string>)
    ensures a == [] <==> AudienceMember(a).Nothing?
    ensures a != [] ==> AudienceOf(AudienceMember(a).value) == Just(a)
  {
    if |a| > 1 {
      var es := AudienceMember(a).value.elements;
      assert forall i :: 0 <= i < |es| ==> StringOf(es[i]) == Just(a[i]);
      assert AudienceOf(JArray(es)).value == a;
    } else if a != [] {
      assert a == [a[0]];
    }
  }

  lemma NothingShared<T>(a: set<T>, b: set<T>)
    requires a * b == {}
    ensures a !! b
  {
    assert forall x :: x in a && x in b ==> x in a * b;
  }

  /** Encoded claims decode to themselves up to sub-second precision and epoch-second times. */
  lemma {:induction false} ClaimsRoundTrip(c: Claims)
    requires c.extra.Keys * RESERVED == {}
    ensures EncodeClaims(c).Encoded? && DecodeClaims(JObject(EncodeClaims(c).members)) == Decoded(Normal(c))
  {
    var m := EncodeClaims(c).members;
    DateRoundTrip(c.issuedAt);
    DateRoundTrip(c.expiresAt);
    DateRoundTrip(c.notBefore);
    AudienceRoundTrip(c.audience);
    assert forall name :: name in m && name in RESERVED ==> m[name] == RegisteredMember(c, name).value;
    NothingShared(c.extra.Keys, RESERVED);
    assert m - RESERVED == c.extra;
    forall name | name in m
      ensures MemberOk(name, m[name])
    {
      if name in RESERVED {
        RegisteredOk(c, name);
      }
    }
    AssembleEncoded(c, m);
  }

  lemma RegisteredOk(c: Claims, name: string)
    requires name in RESERVED && RegisteredMember(c, name).Just?
    ensures MemberOk(name, RegisteredMember(c, name).value)
  {
    DateRoundTrip(c.issuedAt);
    DateRoundTrip(c.expiresAt);
    DateRoundTrip(c.notBefore);
    AudienceRoundTrip(c.audience);
  }

  lemma AssembleEncoded(c: Claims, m: map<string, Json>)
    requires m - RESERVED == c.extra
    requires forall name :: name in RESERVED ==> (name in m <==> RegisteredMember(c, name).Just?)
    requires forall name :: name in RESERVED && name in m ==> m[name] == RegisteredMember(c, name).value
    ensures Assemble(m) == Normal(c)
  {
    DateRoundTrip(c.issuedAt);
    DateRoundTrip(c.expiresAt);
    DateRoundTrip(c.notBefore);
    AudienceRoundTrip(c.audience);
    assert "sub" in RESERVED && "iss" in RESERVED && "jti" in RESERVED && "aud" in RESERVED;
    assert "iat" in RESERVED && "exp" in RESERVED && "nbf" in RESERVED;
  }

  /** The round trip is the identity exactly when every time is a whole second other than the epoch. */
  lemma ClaimsUnchangedIff(c: Claims)
    requires c.extra.Keys * RESERVED == {}
    ensures DecodeClaims(JObject(EncodeClaims(c).members)) == Decoded(c) <==>
      forall t :: t in {c.issuedAt, c.expiresAt, c.notBefore} ==> t % SECOND == 0 && t != 0
  {
    ClaimsRoundTrip(c);
    hide EncodeClaims, DecodeClaims;
    WholeSecond(c.issuedAt);
    WholeSecond(c.expiresAt);
    WholeSecond(c.notBefore);
  }

  lemma WholeSecond(t: Time)
    ensures Carried(t) == t <==> t % SECOND == 0 && t != 0
  {
    assert t == Floor(t) + t % SECOND;
  }

  /** A note on the definition: reserved names never reach the extra claims, whatever was decoded. */
  lemma DecodedExtraIsUnreserved(j: Json)
    requires DecodeClaims(j).Decoded?
    ensures DecodeClaims(j).claims.extra.Keys !! RESERVED
  {
  }

  /** How a member is spelled after decoding and encoding again; nothing if it carries no information. */
  function Tidied(name: string, j: Json): Maybe<Json>
  {
    if name in {"sub", "iss", "jti"} then
      if j.JString? && j.s != "" then Just(j) else Nothing
    else if name in {"iat", "exp", "nbf"} then
      if j.JInt? && j.n !in {0, ZERO_SECOND} then Just(j) else Nothing
    else if name == "aud" then
      if j.JArray? then
        if j.elements == [] then Nothing
        else if |j.elements| == 1 then Just(Spelled(j.elements[0]))
        else Just(JArray(seq(|j.elements|, i requires 0 <= i < |j.elements| => Spelled(j.elements[i]))))
      else if j.JNull? then Nothing
      else Just(j)
    else Just(j)
  }

  function Spelled(j: Json): Json
  {
    if j.JNull? then JString("") else j
  }

  lemma DateTidied(name: string, j: Json)
    requires DateOf(j).Just? && name in {"iat", "exp", "nbf"}
    ensures DateMember(DateOf(j).value) == Tidied(name, j)
  {
    UnixRoundTrip(0, j.n);
  }

  lemma AudienceTidied(j: Json)
    requires AudienceOf(j).Just?
    ensures AudienceMember(AudienceOf(j).value) == Tidied("aud", j)
  {
    if j.JArray? && |j.elements| > 1 {
      var a := AudienceOf(j).value;
      assert AudienceMember(a).value.elements == Tidied("aud", j).value.elements;
    }
  }

  lemma MemberTidied(m: map<string, Json>, name: string)
    requires name in RESERVED && (name in m ==> MemberOk(name, m[name]))
    ensures RegisteredMember(Assemble(m), name) == if name in m then Tidied(name, m[name]) else Nothing
  {
    if name in m {
      if name in {"iat", "exp", "nbf"} {
        DateTidied(name, m[name]);
      } else if name == "aud" {
        AudienceTidied(m["aud"]);
      }
    }
  }

  /** Whatever object is accepted, its claims encode to that object with empty members dropped and spellings tidied. */
  lemma {:induction false} DecodedReencodes(m: map<string, Json>)
    requires DecodeClaims(JObject(m)).Decoded?
    ensures EncodeClaims(DecodeClaims(JObject(m)).claims) ==
      Encoded(map name | name in m && Tidied(name, m[name]).Just? :: Tidied(name, m[name]).value)
  {
    var c := Assemble(m);
    assert c.extra.Keys * RESERVED == {};
    var e := EncodeClaims(c).members;
    var t := map name | name in m && Tidied(name, m[name]).Just? :: Tidied(name, m[name]).value;
    forall name
      ensures name in e <==> name in t
      ensures name in e ==> e[name] == t[name]
    {
      if name in RESERVED {
        MemberTidied(m, name);
      } else {
        UnreservedAsIs(name);
        assert name in e <==> name in c.extra.Keys;
      }
    }
  }

  lemma UnreservedAsIs(name: string)
    requires name !in RESERVED
    ensures forall j :: Tidied(name, j) == Just(j)
  {
  }
}
