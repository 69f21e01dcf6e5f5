/**
 * Signing and verification (jwt/jwt.go): defaults on the way signing, a fixed order of checks on the way
 * in, and the time window in which the one accepts what the other made. The compact serialisation is
 * that of section 7.1 of RFC 7515.
 */
module Jwt {
  import opened JwtClaims
  import Numerals
  import opened Times

  type Bytes = seq<Numerals.byte>

  /** The protected header members the verifier looks at. */
  datatype Jose = Jose(alg: string, typ: string, crit: seq<string>)

  /** A pinned algorithm: signing may be unavailable (public key only). */
  datatype Algorithm = Algorithm(
    name: string,
    header: Bytes,
    sign: string -> Maybe<Bytes>,
    verify: (string, Bytes) -> bool)

  /** The text encodings: base64url and JSON. */
  datatype Codec = Codec(
    b64encode: Bytes -> string,
    b64decode: string -> Maybe<Bytes>,
    marshal: Json -> Bytes,
    unmarshal: Bytes -> Maybe<Json>,
    readHeader: Bytes -> Maybe<Jose>)

  ghost predicate LawfulCodec(codec: Codec)
  {
    && (forall b :: codec.b64decode(codec.b64encode(b)) == Just(b))
    && (forall b :: '.' !in codec.b64encode(b))
    && (forall b :: b != [] ==> codec.b64encode(b) != "")
    && (forall j :: codec.unmarshal(codec.marshal(j)) == Just(j) && codec.marshal(j) != [])
  }

  /** The verifier holds the key matching the signer's. */
  ghost predicate Matching(signer: Algorithm, verifier: Algorithm, codec: Codec)
  {
    && signer.name == verifier.name && signer.header != []
    && codec.readHeader(signer.header) == Just(Jose(signer.name, "JWT", []))
    && (forall input :: signer.sign(input).Just? ==>
          signer.sign(input).value != [] && verifier.verify(input, signer.sign(input).value))
  }

  datatype SignerSettings = SignerSettings(ttl: Duration, issuer: string, audience: seq<string>)

  datatype VerifierSettings = VerifierSettings(leeway: Duration, expectIssuer: string, expectAudience: string)

  const NO_PINS := VerifierSettings(0, "", "")

  datatype Failure =
    | MissingSubject
    | MissingExpiration
    | ReservedName
    | NoSigningKey
    | TokenMalformed
    | AlgMismatch
    | UnexpectedTyp
    | UnsupportedCrit
    | BadSignature
    | Expired
    | NotYetValid
    | IssuedInFuture
    | IssuerMismatch
    | AudienceMismatch

  datatype SignResult = Signed(token: string) | NotSigned(err: Failure)

  datatype VerifyResult = Accepted(claims: Claims) | Rejected(err: Failure)

  // Signing

  /** The claims as signed: issued now, expiring after the TTL, from the configured issuer, unless stated. */
  function WithDefaults(settings: SignerSettings, now: Time, c: Claims): Claims
  {
    var issued := if c.issuedAt == ZERO_TIME then now else c.issuedAt;
    c.(issuedAt := issued,
       expiresAt := if c.expiresAt == ZERO_TIME then Add(issued, settings.ttl) else c.expiresAt,
       issuer := if c.issuer == "" then settings.issuer else c.issuer,
       audience := if c.audience == [] then settings.audience else c.audience)
  }

  function SigningInput(alg: Algorithm, codec: Codec, payload: Json): string
  {
    codec.b64encode(alg.header) + "." + codec.b64encode(codec.marshal(payload))
  }

  /** The compact form of a payload signed with the algorithm's key. */
  function Compact(alg: Algorithm, codec: Codec, payload: Json): string
    requires alg.sign(SigningInput(alg, codec, payload)).Just?
  {
    var input := SigningInput(alg, codec, payload);
    input + "." + codec.b64encode(alg.sign(input).value)
  }

  function SignClaims(alg: Algorithm, codec: Codec, settings: SignerSettings, now: Time, c: Claims): SignResult
  {
    if c.subject == "" then NotSigned(MissingSubject)
    else if c.expiresAt == ZERO_TIME && settings.ttl <= 0 then NotSigned(MissingExpiration)
    else
      match EncodeClaims(WithDefaults(settings, now, c))
      case ReservedClaim => NotSigned(ReservedName)
      case Encoded(members) =>
        if alg.sign(SigningInput(alg, codec, JObject(members))).Nothing? then NotSigned(NoSigningKey)
        else Signed(Compact(alg, codec, JObject(members)))
  }

  /** Fills the defaults into its own copy of the claims, then encodes and signs. */
  method Sign(alg: Algorithm, codec: Codec, settings: SignerSettings, now: Time, given: Claims) returns (r: SignResult)
    ensures r == SignClaims(alg, codec, settings, now, given)
  {
    var claims := given;
    if claims.subject == "" {
      return NotSigned(MissingSubject);
    }
    if claims.issuedAt == ZERO_TIME {
      claims := claims.(issuedAt := now);
    }
    if claims.expiresAt == ZERO_TIME {
      if settings.ttl <= 0 {
        return NotSigned(MissingExpiration);
      }
      claims := claims.(expiresAt := Add(claims.issuedAt, settings.ttl));
    }
    if claims.issuer == "" {
      claims := claims.(issuer := settings.issuer);
    }
    if |claims.audience| == 0 {
      claims := claims.(audience := settings.audience);
    }
    assert claims == WithDefaults(settings, now, given);
    var encoded := MarshalClaims(claims);
    if encoded.ReservedClaim? {
      return NotSigned(ReservedName);
    }
    var input := codec.b64encode(alg.header) + "." + codec.b64encode(codec.marshal(JObject(encoded.members)));
    var signature := alg.sign(input);
    if signature.Nothing? {
      return NotSigned(NoSigningKey);
    }
    return Signed(input + "." + codec.b64encode(signature.value));
  }

  /** When signing is refused, and why; otherwise what is signed, and how the token is put together. */
  lemma SigningOutcome(alg: Algorithm, codec: Codec, settings: SignerSettings, now: Time, c: Claims)
    ensures var r := SignClaims(alg, codec, settings, now, c);
      var endless := c.expiresAt == ZERO_TIME && settings.ttl <= 0;
      var reserved := exists name :: name in c.extra && name in {"sub", "iss", "aud", "jti", "iat", "exp", "nbf"};
      && (r == NotSigned(MissingSubject) <==> c.subject == "")
      && (r == NotSigned(MissingExpiration) <==> c.subject != "" && endless)
      && (r == NotSigned(ReservedName) <==> c.subject != "" && !endless && reserved)
      && (c.subject != "" && !endless && !reserved ==>
            var issued := if c.issuedAt != ZERO_TIME then c.issuedAt else now;
            var expiry := if c.expiresAt != ZERO_TIME then c.expiresAt else Add(issued, settings.ttl);
            var issuer := if c.issuer != "" then c.issuer else settings.issuer;
            var audience := if c.audience != [] then c.audience else settings.audience;
            var claims := EncodeClaims(Claims(c.subject, issuer, audience, c.id, issued, expiry, c.notBefore, c.extra));
            && claims.Encoded?
            && var input := codec.b64encode(alg.header) + "." + codec.b64encode(codec.marshal(JObject(claims.members)));
               r == if alg.sign(input).Just? then Signed(input + "." + codec.b64encode(alg.sign(input).value))
                    else NotSigned(NoSigningKey))
  {
    EncodedFields(WithDefaults(settings, now, c));
    hide EncodeClaims;
  }

  // Verification

  function IndexOfDot(s: string): (i: nat)
    ensures i <= |s|
    ensures i < |s| ==> s[i] == '.'
    ensures forall j :: 0 <= j < i ==> s[j] != '.'
  {
    if s == "" || s[0] == '.' then 0 else 1 + IndexOfDot(s[1..])
  }

  /** `strings.Split(s, ".")`. */
  function SplitAtDots(s: string): (parts: seq<string>)
    ensures |parts| >= 1
  {
    var i := IndexOfDot(s);
    if i == |s| then [s] else [s[..i]] + SplitAtDots(s[i + 1..])
  }

  function Joined(parts: seq<string>): string
  {
    if parts == [] then "" else if |parts| == 1 then parts[0] else parts[0] + "." + Joined(parts[1..])
  }

  lemma {:induction false} SplitFirst(a: string, rest: string)
    requires '.' !in a
    ensures SplitAtDots(a + "." + rest) == [a] + SplitAtDots(rest)
    ensures SplitAtDots(a) == [a]
  {
    var s := a + "." + rest;
    assert forall j :: 0 <= j < |a| ==> s[j] == a[j] && a[j] in a;
    assert s[|a|] == '.';
    assert IndexOfDot(s) == |a|;
    assert s[..|a|] == a && s[|a| + 1..] == rest;
    assert forall j :: 0 <= j < |a| ==> a[j] in a;
    assert IndexOfDot(a) == |a|;
  }

  lemma {:induction false} SplitJoins(s: string)
    ensures Joined(SplitAtDots(s)) == s && forall p :: p in SplitAtDots(s) ==> '.' !in p
  {
    var i := IndexOfDot(s);
    if i < |s| {
      SplitJoins(s[i + 1..]);
      assert SplitAtDots(s)[1..] == SplitAtDots(s[i + 1..]);
      assert s == s[..i] + "." + s[i + 1..];
    }
  }

  lemma {:induction false} JoinedSplits(parts: seq<string>)
    requires parts != [] && forall p :: p in parts ==> '.' !in p
    ensures SplitAtDots(Joined(parts)) == parts
  {
    SplitFirst(parts[0], Joined(parts[1..]));
    if |parts| > 1 {
      JoinedSplits(parts[1..]);
    }
  }

  /** Splitting gives the only list of dot-free parts that joins to the text. */
  lemma {:induction false} SplitExact(s: string, parts: seq<string>)
    ensures parts == SplitAtDots(s) <==> parts != [] && Joined(parts) == s && forall p :: p in parts ==> '.' !in p
  {
    SplitJoins(s);
    if parts != [] && forall p :: p in parts ==> '.' !in p {
      JoinedSplits(parts);
    }
  }

  /** Three dot-free parts joined by dots split into those parts. */
  lemma CompactSplits(a: string, b: string, c: string)
    requires '.' !in a && '.' !in b && '.' !in c
    ensures SplitAtDots(a + "." + b + "." + c) == [a, b, c]
  {
    hide SplitAtDots;
    var rest := b + "." + c;
    assert a + "." + b + "." + c == a + "." + rest;
    SplitFirst(a, rest);
    SplitFirst(b, c);
    SplitFirst(c, "");
  }

  function Lower(s: string): string
  {
    seq(|s|, i requires 0 <= i < |s| => if 'A' <= s[i] <= 'Z' then (s[i] as int + 32) as char else s[i])
  }

  predicate IsSpace(c: char)
  {
    9 <= c as int <= 13 || c as int in {32, 0x85, 0xA0}
  }

  function TrimLeft(s: string): string
  {
    if s != "" && IsSpace(s[0]) then TrimLeft(s[1..]) else s
  }

  function TrimRight(s: string): string
  {
    if s != "" && IsSpace(s[|s| - 1]) then TrimRight(s[..|s| - 1]) else s
  }

  /** The media type "JWT", in any case and with or without its "application/" prefix. */
  predicate TypIsJwt(typ: string)
  {
    var t := Lower(TrimRight(TrimLeft(typ)));
    var prefix := "application/";
    (if prefix <= t then t[|prefix|..] else t) == "jwt"
  }

  function ValidateClaims(settings: VerifierSettings, now: Time, c: Claims): VerifyResult
  {
    if c.expiresAt != ZERO_TIME && now > Add(c.expiresAt, settings.leeway) then Rejected(Expired)
    else if c.notBefore != ZERO_TIME && now < Add(c.notBefore, Negated(settings.leeway)) then Rejected(NotYetValid)
    else if c.issuedAt != ZERO_TIME && now < Add(c.issuedAt, Negated(settings.leeway)) then Rejected(IssuedInFuture)
    else if settings.expectIssuer != "" && c.issuer != settings.expectIssuer then Rejected(IssuerMismatch)
    else if settings.expectAudience != "" && settings.expectAudience !in c.audience then Rejected(AudienceMismatch)
    else Accepted(c)
  }

  /** The verdict on an authentic payload. */
  function Judge(settings: VerifierSettings, now: Time, payload: Json): VerifyResult
  {
    match DecodeClaims(payload)
    case Malformed => Rejected(TokenMalformed)
    case Decoded(claims) => ValidateClaims(settings, now, claims)
  }

  function ReadPayload(codec: Codec, part: string): Maybe<Json>
  {
    match codec.b64decode(part)
    case Nothing => Nothing
    case Just(payload) => codec.unmarshal(payload)
  }

  function VerifyPayload(codec: Codec, settings: VerifierSettings, now: Time, part: string): VerifyResult
  {
    match ReadPayload(codec, part)
    case Nothing => Rejected(TokenMalformed)
    case Just(payload) => Judge(settings, now, payload)
  }

  /** The header checks before the signature, the signature before the payload. */
  function Verify(alg: Algorithm, codec: Codec, settings: VerifierSettings, now: Time, token: string): VerifyResult
  {
    var parts := SplitAtDots(token);
    if |parts| != 3 || parts[0] == "" || parts[1] == "" || parts[2] == "" then Rejected(TokenMalformed)
    else
      match codec.b64decode(parts[0])
      case Nothing => Rejected(TokenMalformed)
      case Just(header) =>
        match codec.readHeader(header)
        case Nothing => Rejected(TokenMalformed)
        case Just(jose) =>
          if jose.alg != alg.name then Rejected(AlgMismatch)
          else if jose.typ != "" && !TypIsJwt(jose.typ) then Rejected(UnexpectedTyp)
          else if jose.crit != [] then Rejected(UnsupportedCrit)
          else
            match codec.b64decode(parts[2])
            case Nothing => Rejected(TokenMalformed)
            case Just(signature) =>
              if !alg.verify(parts[0] + "." + parts[1], signature) then Rejected(BadSignature)
              else VerifyPayload(codec, settings, now, parts[1])
  }

  predicate AllSpace(s: string)
  {
    forall i :: 0 <= i < |s| ==> s[i] as int in {9, 10, 11, 12, 13, 32, 0x85, 0xA0}
  }

  /** `word` is `lower` with any of its letters capitalised. */
  predicate InAnyCase(word: string, lower: string)
  {
    && |word| == |lower|
    && forall i :: 0 <= i < |word| ==>
         word[i] == lower[i] || ('a' <= lower[i] <= 'z' && word[i] as int == lower[i] as int - 32)
  }

  ghost predicate JwtBetween(typ: string, i: nat, j: nat)
  {
    && i <= j <= |typ| && AllSpace(typ[..i]) && AllSpace(typ[j..])
    && (InAnyCase(typ[i..j], "jwt") || InAnyCase(typ[i..j], "application/jwt"))
  }

  lemma {:induction false} TrimmedLeft(s: string) returns (i: nat)
    ensures i <= |s| && AllSpace(s[..i]) && TrimLeft(s) == s[i..]
  {
    if s != "" && IsSpace(s[0]) {
      var k := TrimmedLeft(s[1..]);
      i := k + 1;
      assert s[..i] == [s[0]] + s[1..][..k];
    } else {
      i := 0;
    }
  }

  lemma {:induction false} TrimmedRight(s: string) returns (j: nat)
    ensures j <= |s| && AllSpace(s[j..]) && TrimRight(s) == s[..j]
  {
    var n := |s| - 1;
    if s != "" && IsSpace(s[n]) {
      j := TrimmedRight(s[..n]);
      assert s[j..] == s[..n][j..] + [s[n]] && s[..n][..j] == s[..j];
    } else {
      j := |s|;
    }
  }

  lemma {:induction false} TrimLeftOf(a: string, w: string)
    requires AllSpace(a) && w != "" && !IsSpace(w[0])
    ensures TrimLeft(a + w) == w
  {
    if a != "" {
      assert (a + w)[1..] == a[1..] + w;
      TrimLeftOf(a[1..], w);
    } else {
      assert a + w == w;
    }
  }

  lemma {:induction false} TrimRightOf(w: string, b: string)
    requires AllSpace(b) && w != "" && !IsSpace(w[|w| - 1])
    ensures TrimRight(w + b) == w
  {
    if b != "" {
      var n := |b| - 1;
      assert (w + b)[..|w| + n] == w + b[..n];
      TrimRightOf(w, b[..n]);
    } else {
      assert w + b == w;
    }
  }

  lemma LowerIff(word: string, lower: string)
    requires forall i :: 0 <= i < |lower| ==> !('A' <= lower[i] <= 'Z')
    ensures Lower(word) == lower <==> InAnyCase(word, lower)
  {
    if Lower(word) == lower {
      forall i | 0 <= i < |word|
        ensures word[i] == lower[i] || ('a' <= lower[i] <= 'z' && word[i] as int == lower[i] as int - 32)
      {
        assert Lower(word)[i] == lower[i];
      }
    }
    if InAnyCase(word, lower) {
      forall i | 0 <= i < |word|
        ensures Lower(word)[i] == lower[i]
      {
      }
    }
  }

  lemma WithOrWithoutPrefix(t: string)
    ensures (var prefix := "application/"; (if prefix <= t then t[|prefix|..] else t) == "jwt") <==>
      t == "jwt" || t == "application/jwt"
  {
    var prefix := "application/";
    assert prefix + "jwt" == "application/jwt";
    if prefix <= t {
      assert t == prefix + t[|prefix|..];
    }
  }

  lemma Unspaced(word: string)
    requires InAnyCase(word, "jwt") || InAnyCase(word, "application/jwt")
    ensures word != "" && !IsSpace(word[0]) && !IsSpace(word[|word| - 1])
  {
  }

  lemma WordPasses(typ: string, i: nat, j: nat)
    requires JwtBetween(typ, i, j)
    ensures TrimRight(TrimLeft(typ)) == typ[i..j]
  {
    var word := typ[i..j];
    Unspaced(word);
    hide TrimLeft, TrimRight, InAnyCase;
    assert typ == typ[..i] + (word + typ[j..]);
    TrimLeftOf(typ[..i], word + typ[j..]);
    TrimRightOf(word, typ[j..]);
  }

  lemma TrimmedIsBetween(typ: string) returns (i: nat, j: nat)
    ensures i <= j <= |typ| && AllSpace(typ[..i]) && AllSpace(typ[j..]) && typ[i..j] == TrimRight(TrimLeft(typ))
  {
    hide TrimLeft, TrimRight, AllSpace;
    var left := TrimLeft(typ);
    i := TrimmedLeft(typ);
    var k := TrimmedRight(left);
    j := i + k;
    assert left[..k] == typ[i..j] && left[k..] == typ[j..];
  }

  /** The types that pass: "jwt" or "application/jwt" in any case, between spaces. */
  lemma TypIsJwtIff(typ: string)
    ensures TypIsJwt(typ) <==> exists i: nat, j: nat :: JwtBetween(typ, i, j)
  {
    var t := TrimRight(TrimLeft(typ));
    WithOrWithoutPrefix(Lower(t));
    assert TypIsJwt(typ) <==> Lower(t) == "jwt" || Lower(t) == "application/jwt";
    LowerIff(t, "jwt");
    LowerIff(t, "application/jwt");
    hide Lower, TypIsJwt, TrimLeft, TrimRight, InAnyCase, AllSpace;
    if TypIsJwt(typ) {
      var i, j := TrimmedIsBetween(typ);
      assert JwtBetween(typ, i, j);
    }
    if i: nat, j: nat :| JwtBetween(typ, i, j) {
      WordPasses(typ, i, j);
    }
  }

  lemma JwtIsJwt()
    ensures TypIsJwt("JWT")
  {
    var s := "JWT";
    assert TrimLeft(s) == s && TrimRight(s) == s;
    assert Lower(s) == "jwt";
    assert !("application/" <= "jwt");
  }

  // What signing and verifying amount to together

  /** A payload signed with the matching key is judged by its content alone. */
  lemma VerifyOfCompact(signer: Algorithm, verifier: Algorithm, codec: Codec, checking: VerifierSettings,
                        payload: Json, now: Time)
    requires LawfulCodec(codec) && Matching(signer, verifier, codec)
    requires signer.sign(SigningInput(signer, codec, payload)).Just?
    ensures Verify(verifier, codec, checking, now, Compact(signer, codec, payload)) == Judge(checking, now, payload)
  {
    hide Judge, TypIsJwt, SplitAtDots;
    var head, body := codec.b64encode(signer.header), codec.b64encode(codec.marshal(payload));
    var signature := signer.sign(SigningInput(signer, codec, payload)).value;
    CompactSplits(head, body, codec.b64encode(signature));
    JwtIsJwt();
  }

  /** A signed token is judged by nothing but its claims as carried on the wire. */
  lemma VerifyOfSigned(signer: Algorithm, verifier: Algorithm, codec: Codec,
                       signing: SignerSettings, checking: VerifierSettings,
                       made: Time, c: Claims, now: Time)
    requires LawfulCodec(codec) && Matching(signer, verifier, codec)
    requires SignClaims(signer, codec, signing, made, c).Signed?
    ensures Verify(verifier, codec, checking, now, SignClaims(signer, codec, signing, made, c).token) ==
      ValidateClaims(checking, now, Normal(WithDefaults(signing, made, c)))
  {
    hide DecodeClaims, ValidateClaims, Normal, WithDefaults, Verify, LawfulCodec, Matching;
    var d := WithDefaults(signing, made, c);
    assert d.extra.Keys * RESERVED == {};
    ClaimsRoundTrip(d);
    VerifyOfCompact(signer, verifier, codec, checking, JObject(EncodeClaims(d).members), now);
  }

  /** The claim bounds validity: its second is neither dropped by the encoder nor read as an absent claim. */
  predicate Bounding(t: Time)
  {
    Unix(t) !in {0, ZERO_SECOND}
  }

  ghost predicate BeforeExpiry(expiry: Time, leeway: Duration, now: Time)
  {
    Bounding(expiry) ==> now <= Add(Floor(expiry), leeway)
  }

  ghost predicate AfterStart(start: Time, leeway: Duration, now: Time)
  {
    Bounding(start) ==> now >= Add(Floor(start), Negated(leeway))
  }

  ghost predicate MeetsPins(issuer: string, audience: seq<string>, checking: VerifierSettings)
  {
    && (checking.expectIssuer != "" ==> issuer == checking.expectIssuer)
    && (checking.expectAudience != "" ==> checking.expectAudience in audience)
  }

  lemma CarriedBounds(t: Time)
    ensures Carried(t) == if Bounding(t) then Floor(t) else ZERO_TIME
    ensures Bounding(t) ==> Floor(t) != ZERO_TIME
  {
  }

  /**
   * The acceptance window: with the matching key a signed token is accepted exactly when the pins
   * are met and the verifier's clock is, within the leeway, neither before the floored `nbf` and
   * `iat` nor after the floored `exp`. What the caller states wins over clock, TTL and signer settings.
   * A claim whose second is the epoch or the zero time bounds nothing.
   */
  lemma AcceptanceWindow(signer: Algorithm, verifier: Algorithm, codec: Codec,
                         signing: SignerSettings, checking: VerifierSettings,
                         made: Time, c: Claims, now: Time)
    requires LawfulCodec(codec) && Matching(signer, verifier, codec)
    requires SignClaims(signer, codec, signing, made, c).Signed?
    ensures var issued := if c.issuedAt != ZERO_TIME then c.issuedAt else made;
      var expiry := if c.expiresAt != ZERO_TIME then c.expiresAt else Add(issued, signing.ttl);
      var issuer := if c.issuer != "" then c.issuer else signing.issuer;
      var audience := if c.audience != [] then c.audience else signing.audience;
      var verdict := Verify(verifier, codec, checking, now, SignClaims(signer, codec, signing, made, c).token);
      && (verdict.Accepted? <==>
            && BeforeExpiry(expiry, checking.leeway, now)
            && AfterStart(c.notBefore, checking.leeway, now) && AfterStart(issued, checking.leeway, now)
            && MeetsPins(issuer, audience, checking))
      && (verdict.Accepted? ==>
            verdict.claims == Claims(c.subject, issuer, audience, c.id,
                                     Carried(issued), Carried(expiry), Carried(c.notBefore), c.extra))
      && (verdict == Rejected(Expired) <==> !BeforeExpiry(expiry, checking.leeway, now))
  {
    VerifyOfSigned(signer, verifier, codec, signing, checking, made, c, now);
    hide Verify, SignClaims, Add, Floor, Carried, Bounding, Matching, LawfulCodec;
    var d := WithDefaults(signing, made, c);
    CarriedBounds(d.expiresAt);
    CarriedBounds(d.notBefore);
    CarriedBounds(d.issuedAt);
  }

  /**
   * The usual token, without `nbf` and with the expiry left to the TTL: it is good from the second it
   * states as issued, or was made in, to the second in which its TTL ends.
   */
  lemma UsualLifetime(signer: Algorithm, verifier: Algorithm, codec: Codec,
                      signing: SignerSettings, checking: VerifierSettings,
                      made: Time, c: Claims, now: Time)
    requires LawfulCodec(codec) && Matching(signer, verifier, codec)
    requires SignClaims(signer, codec, signing, made, c).Signed?
    requires c.expiresAt == c.notBefore == ZERO_TIME
    ensures var issued := if c.issuedAt != ZERO_TIME then c.issuedAt else made;
      var issuer := if c.issuer != "" then c.issuer else signing.issuer;
      var audience := if c.audience != [] then c.audience else signing.audience;
      var expiry := Add(issued, signing.ttl);
      var token := SignClaims(signer, codec, signing, made, c).token;
      Verify(verifier, codec, checking, now, token).Accepted? <==>
        && MeetsPins(issuer, audience, checking)
        && (Bounding(issued) ==> Add(Floor(issued), Negated(checking.leeway)) <= now)
        && (Bounding(expiry) ==> now <= Add(Floor(expiry), checking.leeway))
  {
    hide Verify, SignClaims, LawfulCodec, Matching;
    AcceptanceWindow(signer, verifier, codec, signing, checking, made, c, now);
  }

  /** Neither in the two first seconds nor in the last one; with a negative leeway, centuries away from them. */
  predicate Interior(made: Time, leeway: Duration)
  {
    && FIRST_SECOND + 1 < Second(made) < LAST_SECOND
    && (leeway < 0 ==> MIN_TIME + TWO_TO_64 <= made <= MAX_TIME - TWO_TO_64)
  }

  /** The floored second begins early enough for an instant `fraction` into it. */
  predicate Begun(fraction: int, leeway: Duration)
  {
    fraction >= Negated(leeway)
  }

  /** The whole seconds among fraction and TTL, with the leeway, reach that instant. */
  predicate NotOver(fraction: int, ttl: Duration, leeway: Duration)
  {
    fraction <= (fraction + ttl) / SECOND * SECOND + leeway
  }

  /** What flooring does to a token's lifetime at the instant it is made, where no sum saturates. */
  lemma FreshBounds(made: Time, ttl: Duration, leeway: Duration)
    requires ttl > 0 && Interior(made, leeway)
    ensures Add(Floor(made), Negated(leeway)) <= made <==> Begun(made % SECOND, leeway)
    ensures made <= Add(Floor(Add(made, ttl)), leeway) <==> NotOver(made % SECOND, ttl, leeway)
  {
    assert made == Floor(made) + made % SECOND;
    assert (made + ttl) / SECOND == Second(made) + (made % SECOND + ttl) / SECOND;
  }

  /** With defaulted dates, whether a token is good at the instant it is made: both bounds are floored to seconds. */
  lemma FreshVerdictIff(signer: Algorithm, verifier: Algorithm, codec: Codec,
                        signing: SignerSettings, checking: VerifierSettings, made: Time, c: Claims)
    requires LawfulCodec(codec) && Matching(signer, verifier, codec)
    requires SignClaims(signer, codec, signing, made, c).Signed?
    requires c.issuedAt == c.expiresAt == c.notBefore == ZERO_TIME
    requires Interior(made, checking.leeway)
    ensures var token := SignClaims(signer, codec, signing, made, c).token;
      var issuer := if c.issuer != "" then c.issuer else signing.issuer;
      var audience := if c.audience != [] then c.audience else signing.audience;
      Verify(verifier, codec, checking, made, token).Accepted? <==>
        && MeetsPins(issuer, audience, checking)
        && (Bounding(made) ==> Begun(made % SECOND, checking.leeway))
        && (Bounding(Add(made, signing.ttl)) ==> NotOver(made % SECOND, signing.ttl, checking.leeway))
  {
    assert signing.ttl > 0;
    hide Verify, SignClaims, LawfulCodec, Matching, MeetsPins, WithDefaults, Bounding, Interior, Add, Floor;
    hide Begun, NotOver;
    UsualLifetime(signer, verifier, codec, signing, checking, made, c, made);
    FreshBounds(made, signing.ttl, checking.leeway);
  }

  /**
   * With a leeway that is not negative: exactly when the leeway covers the fraction of the second already
   * gone, or the TTL reaches the next second, or the expiry bounds nothing.
   */
  lemma FreshTokenAcceptedIff(signer: Algorithm, verifier: Algorithm, codec: Codec,
                              signing: SignerSettings, checking: VerifierSettings, made: Time, c: Claims)
    requires LawfulCodec(codec) && Matching(signer, verifier, codec)
    requires SignClaims(signer, codec, signing, made, c).Signed?
    requires c.issuedAt == c.expiresAt == c.notBefore == ZERO_TIME
    requires checking.leeway >= 0 && FIRST_SECOND + 1 < Second(made) < LAST_SECOND
    ensures var token := SignClaims(signer, codec, signing, made, c).token;
      var issuer := if c.issuer != "" then c.issuer else signing.issuer;
      var audience := if c.audience != [] then c.audience else signing.audience;
      var fraction := made % SECOND;
      Verify(verifier, codec, checking, made, token).Accepted? <==>
        && MeetsPins(issuer, audience, checking)
        && (fraction <= checking.leeway || fraction + signing.ttl >= SECOND || !Bounding(Add(made, signing.ttl)))
  {
    assert signing.ttl > 0;
    hide Verify, SignClaims, LawfulCodec, Matching, MeetsPins, Bounding, WithDefaults, Add, Begun, NotOver;
    FreshVerdictIff(signer, verifier, codec, signing, checking, made, c);
    WholeSeconds(made % SECOND, signing.ttl, checking.leeway);
  }

  lemma WholeSeconds(fraction: nat, ttl: Duration, leeway: Duration)
    requires fraction < SECOND && ttl > 0 && leeway >= 0
    ensures Begun(fraction, leeway)
    ensures NotOver(fraction, ttl, leeway) <==> fraction <= leeway || fraction + ttl >= SECOND
  {
  }

  /** A token made a fifth of a second into a second, to live for half a second, has expired when it is made. */
  lemma ExpiredWhenMade(signer: Algorithm, verifier: Algorithm, codec: Codec)
    requires LawfulCodec(codec) && Matching(signer, verifier, codec)
    requires forall input :: signer.sign(input).Just?
    ensures var r := SignClaims(signer, codec, SignerSettings(500_000_000, "", []), 10_200_000_000,
                                NO_CLAIMS.(subject := "bob"));
      r.Signed? && Verify(verifier, codec, NO_PINS, 10_200_000_000, r.token) == Rejected(Expired)
  {
    var c := NO_CLAIMS.(subject := "bob");
    var signing := SignerSettings(500_000_000, "", []);
    assert WithDefaults(signing, 10_200_000_000, c).extra.Keys * RESERVED == {};
    AcceptanceWindow(signer, verifier, codec, signing, NO_PINS, 10_200_000_000, c, 10_200_000_000);
  }

  /**
   * A signed token expires at some time exactly when the second of its expiry, stated or defaulted, is
   * neither the epoch nor the zero time, and the leeway does not stretch it to the end of all time.
   */
  lemma ExpiresIff(signer: Algorithm, verifier: Algorithm, codec: Codec,
                   signing: SignerSettings, checking: VerifierSettings, made: Time, c: Claims)
    requires LawfulCodec(codec) && Matching(signer, verifier, codec)
    requires SignClaims(signer, codec, signing, made, c).Signed?
    ensures var issued := if c.issuedAt != ZERO_TIME then c.issuedAt else made;
      var expiry := if c.expiresAt != ZERO_TIME then c.expiresAt else Add(issued, signing.ttl);
      var token := SignClaims(signer, codec, signing, made, c).token;
      (exists now: Time :: Verify(verifier, codec, checking, now, token) == Rejected(Expired)) <==>
        Unix(expiry) !in {0, ZERO_SECOND} && Add(Floor(expiry), checking.leeway) < MAX_TIME
  {
    hide Verify, SignClaims, LawfulCodec, Matching;
    var issued := if c.issuedAt != ZERO_TIME then c.issuedAt else made;
    var expiry := if c.expiresAt != ZERO_TIME then c.expiresAt else Add(issued, signing.ttl);
    var token := SignClaims(signer, codec, signing, made, c).token;
    forall now: Time
      ensures Verify(verifier, codec, checking, now, token) == Rejected(Expired) <==>
        !BeforeExpiry(expiry, checking.leeway, now)
    {
      AcceptanceWindow(signer, verifier, codec, signing, checking, made, c, now);
    }
    var last: Time := MAX_TIME;
    assert !BeforeExpiry(expiry, checking.leeway, last) ==>
      Verify(verifier, codec, checking, last, token) == Rejected(Expired);
  }

  /** Tokens asked to expire half a second after the epoch, or within the zero second, never expire. */
  lemma NeverExpires(signer: Algorithm, verifier: Algorithm, codec: Codec, expiry: Time, now: Time)
    requires LawfulCodec(codec) && Matching(signer, verifier, codec)
    requires forall input :: signer.sign(input).Just?
    requires expiry in {500_000_000, ZERO_TIME + 1}
    requires now >= 0
    ensures var c := NO_CLAIMS.(subject := "bob", expiresAt := expiry);
      var r := SignClaims(signer, codec, SignerSettings(0, "", []), 0, c);
      && r.Signed?
      && Verify(verifier, codec, VerifierSettings(0, "", ""), now, r.token).Accepted?
  {
    var c := NO_CLAIMS.(subject := "bob", expiresAt := expiry);
    var signing := SignerSettings(0, "", []);
    assert WithDefaults(signing, 0, c).extra.Keys * RESERVED == {};
    AcceptanceWindow(signer, verifier, codec, signing, VerifierSettings(0, "", ""), 0, c, now);
  }

  // What acceptance means for any token

  predicate HeaderSupported(alg: Algorithm, jose: Jose)
  {
    jose.alg == alg.name && (jose.typ == "" || TypIsJwt(jose.typ)) && jose.crit == []
  }

  /** The payload is reached: the header names the pinned algorithm and nothing unsupported, the signature verifies. */
  predicate Authentic(alg: Algorithm, codec: Codec, token: string)
  {
    var parts := SplitAtDots(token);
    && |parts| == 3 && parts[0] != "" && parts[1] != "" && parts[2] != ""
    && codec.b64decode(parts[0]).Just? && codec.b64decode(parts[2]).Just?
    && codec.readHeader(codec.b64decode(parts[0]).value).Just?
    && HeaderSupported(alg, codec.readHeader(codec.b64decode(parts[0]).value).value)
    && alg.verify(parts[0] + "." + parts[1], codec.b64decode(parts[2]).value)
  }

  /** The protected header of a token of three non-empty parts, when it can be read. */
  function HeaderOf(codec: Codec, token: string): Maybe<Jose>
  {
    var parts := SplitAtDots(token);
    if |parts| != 3 || parts[0] == "" || parts[1] == "" || parts[2] == "" || codec.b64decode(parts[0]).Nothing?
    then Nothing
    else codec.readHeader(codec.b64decode(parts[0]).value)
  }

  /** Which tokens are refused for what, before their claims are looked at. */
  lemma VerificationOutcome(alg: Algorithm, codec: Codec, settings: VerifierSettings, now: Time, token: string)
    ensures var r := Verify(alg, codec, settings, now, token);
      var header := HeaderOf(codec, token);
      && (header.Nothing? ==> r == Rejected(TokenMalformed))
      && (r == Rejected(AlgMismatch) <==> header.Just? && header.value.alg != alg.name)
      && (r == Rejected(UnexpectedTyp) <==>
            header.Just? && header.value.alg == alg.name && header.value.typ != "" && !TypIsJwt(header.value.typ))
      && (r == Rejected(UnsupportedCrit) <==>
            && header.Just? && header.value.alg == alg.name
            && (header.value.typ == "" || TypIsJwt(header.value.typ)) && header.value.crit != [])
      && (header.Just? && HeaderSupported(alg, header.value) ==>
            var parts := SplitAtDots(token);
            var signature := codec.b64decode(parts[2]);
            && (signature.Nothing? ==> r == Rejected(TokenMalformed))
            && (r == Rejected(BadSignature) <==>
                  signature.Just? && !alg.verify(parts[0] + "." + parts[1], signature.value)))
      && (Authentic(alg, codec, token) ==>
            var payload := ReadPayload(codec, SplitAtDots(token)[1]);
            && (r == Rejected(TokenMalformed) <==> payload.Nothing? || !ClaimsShaped(payload.value))
            && (payload.Just? && ClaimsShaped(payload.value) ==>
                  r == ValidateClaims(settings, now, DecodeClaims(payload.value).claims)))
  {
    var parts := SplitAtDots(token);
    hide SplitAtDots, TypIsJwt, ClaimsShaped, DecodeClaims;
    if Authentic(alg, codec, token) {
      var payload := ReadPayload(codec, parts[1]);
      if payload.Just? {
        AcceptedIffShaped(payload.value);
      }
    }
  }

  /** The first of these reasons, in this order, decides about decoded claims. */
  lemma ValidationOutcome(settings: VerifierSettings, now: Time, c: Claims)
    ensures var r := ValidateClaims(settings, now, c);
      var late := c.expiresAt != ZERO_TIME && now > Add(c.expiresAt, settings.leeway);
      var early := c.notBefore != ZERO_TIME && now < Add(c.notBefore, Negated(settings.leeway));
      var ahead := c.issuedAt != ZERO_TIME && now < Add(c.issuedAt, Negated(settings.leeway));
      var foreign := settings.expectIssuer != "" && c.issuer != settings.expectIssuer;
      var astray := settings.expectAudience != "" && settings.expectAudience !in c.audience;
      && (r == Rejected(Expired) <==> late)
      && (r == Rejected(NotYetValid) <==> !late && early)
      && (r == Rejected(IssuedInFuture) <==> !late && !early && ahead)
      && (r == Rejected(IssuerMismatch) <==> !late && !early && !ahead && foreign)
      && (r == Rejected(AudienceMismatch) <==> !late && !early && !ahead && !foreign && astray)
      && (r == Accepted(c) <==> !late && !early && !ahead && !foreign && !astray)
  {
  }

  /** A second that `time.Unix` takes at face value and that is not the zero time. */
  predicate FaceValue(n: int)
  {
    MIN_INT64 <= n <= LAST_SECOND && n != ZERO_SECOND
  }

  /** If the payload states the date at face value, the clock is not past it. */
  ghost predicate NotPast(m: map<string, Json>, name: string, leeway: Duration, now: Time)
  {
    name in m && m[name].JInt? && FaceValue(m[name].n) ==> now <= Add(m[name].n * SECOND, leeway)
  }

  ghost predicate NotAhead(m: map<string, Json>, name: string, leeway: Duration, now: Time)
  {
    name in m && m[name].JInt? && FaceValue(m[name].n) ==> now >= Add(m[name].n * SECOND, Negated(leeway))
  }

  /** Dates as far as the payload states them at face value. */
  ghost predicate DatesHonoured(m: map<string, Json>, leeway: Duration, now: Time)
  {
    NotPast(m, "exp", leeway, now) && NotAhead(m, "nbf", leeway, now) && NotAhead(m, "iat", leeway, now)
  }

  lemma JudgedDates(settings: VerifierSettings, now: Time, m: map<string, Json>)
    requires Judge(settings, now, JObject(m)).Accepted?
    ensures DatesHonoured(m, settings.leeway, now)
  {
    hide Add, Negated;
    var c := Assemble(m);
    assert forall name :: name in m ==> MemberOk(name, m[name]);
    assert "exp" in m ==> MemberOk("exp", m["exp"]);
    assert "nbf" in m ==> MemberOk("nbf", m["nbf"]);
    assert "iat" in m ==> MemberOk("iat", m["iat"]);
  }

  /**
   * Only authentic tokens are accepted; what they state is decoded, the pins are met, and every date they
   * state at face value is honoured.
   */
  lemma AcceptedWasSigned(alg: Algorithm, codec: Codec, settings: VerifierSettings, now: Time, token: string)
    returns (payload: Json)
    requires Verify(alg, codec, settings, now, token).Accepted?
    ensures Authentic(alg, codec, token) && ReadPayload(codec, SplitAtDots(token)[1]) == Just(payload)
    ensures var c := Verify(alg, codec, settings, now, token).claims;
      DecodeClaims(payload) == Decoded(c) && MeetsPins(c.issuer, c.audience, settings)
    ensures payload.JObject? ==> DatesHonoured(payload.members, settings.leeway, now)
  {
    payload := ReadPayload(codec, SplitAtDots(token)[1]).value;
    if payload.JObject? {
      JudgedDates(settings, now, payload.members);
    }
  }

  /** A payload that decodes and states the date. */
  ghost predicate States(m: map<string, Json>, name: string, n: Int64)
  {
    name in m && m[name] == JInt(n) && DecodeClaims(JObject(m)).Decoded?
  }

  /** Past a stated expiry, as the code reads it. */
  predicate Late(n: Int64, leeway: Duration, now: Time)
  {
    FromUnix(n) != ZERO_TIME && now > Add(FromUnix(n), leeway)
  }

  lemma JudgedLate(settings: VerifierSettings, m: map<string, Json>, n: Int64, now: Time)
    requires States(m, "exp", n)
    ensures Judge(settings, now, JObject(m)) == Rejected(Expired) <==> Late(n, settings.leeway, now)
  {
  }

  /** Face value, and the leeway does not carry the second beyond the end of time, or to its very last instant. */
  predicate ExpiryKept(n: Int64, leeway: Duration)
  {
    FaceValue(n) && (n * SECOND + leeway <= MAX_TIME || leeway % SECOND == SECOND - 1)
  }

  lemma LateAsStated(n: Int64, leeway: Duration, now: Time)
    requires ExpiryKept(n, leeway)
    ensures Late(n, leeway, now) <==> now > n * SECOND + leeway
  {
  }

  lemma LateOtherwise(n: Int64, leeway: Duration) returns (now: Time)
    requires !ExpiryKept(n, leeway)
    ensures Late(n, leeway, now) != (now > n * SECOND + leeway)
  {
    now := if n > LAST_SECOND then 0 else MAX_TIME;
  }

  /** A stated expiry is kept to at all times, whatever else the payload states, exactly when it is so kept. */
  lemma ExpiryHonouredIff(settings: VerifierSettings, m: map<string, Json>, n: Int64)
    requires States(m, "exp", n)
    ensures (forall now: Time ::
        Judge(settings, now, JObject(m)) == Rejected(Expired) <==> now > n * SECOND + settings.leeway)
      <==> ExpiryKept(n, settings.leeway)
  {
    hide States, Judge, Late, ExpiryKept;
    if ExpiryKept(n, settings.leeway) {
      forall now: Time
        ensures Judge(settings, now, JObject(m)) == Rejected(Expired) <==> now > n * SECOND + settings.leeway
      {
        JudgedLate(settings, m, n, now);
        LateAsStated(n, settings.leeway, now);
      }
    } else {
      var now := LateOtherwise(n, settings.leeway);
      JudgedLate(settings, m, n, now);
    }
  }

  predicate Early(n: Int64, leeway: Duration, now: Time)
  {
    FromUnix(n) != ZERO_TIME && now < Add(FromUnix(n), Negated(leeway))
  }

  function TooEarly(name: string): Failure
  {
    if name == "nbf" then NotYetValid else IssuedInFuture
  }

  lemma JudgedEarly(settings: VerifierSettings, m: map<string, Json>, name: string, n: Int64, now: Time)
    requires name in {"nbf", "iat"} && States(m, name, n)
    ensures var verdict := Judge(settings, now, JObject(m));
      && (verdict.Accepted? ==> !Early(n, settings.leeway, now))
      && (verdict == Rejected(TooEarly(name)) ==> Early(n, settings.leeway, now))
  {
  }

  /** No payload is accepted before the start it states, or refused for a start it has reached. */
  ghost predicate KeepsStart(settings: VerifierSettings, name: string, n: Int64)
  {
    forall m: map<string, Json>, now: Time :: States(m, name, n) ==>
      && (Judge(settings, now, JObject(m)).Accepted? ==> now >= n * SECOND - settings.leeway)
      && (Judge(settings, now, JObject(m)) == Rejected(TooEarly(name)) ==> now < n * SECOND - settings.leeway)
  }

  /** A payload stating one start of validity and meeting the pins. */
  function StartOnly(settings: VerifierSettings, name: string, n: Int64): map<string, Json>
  {
    map["iss" := JString(settings.expectIssuer), "aud" := JString(settings.expectAudience), name := JInt(n)]
  }

  lemma StartOnlyJudged(settings: VerifierSettings, name: string, n: Int64, now: Time)
    requires name in {"nbf", "iat"}
    ensures States(StartOnly(settings, name, n), name, n)
    ensures Judge(settings, now, JObject(StartOnly(settings, name, n))).Accepted? <==> !Early(n, settings.leeway, now)
  {
    var m := StartOnly(settings, name, n);
    assert forall other :: other in m ==> MemberOk(other, m[other]);
  }

  /**
   * A stated start is kept to in every payload exactly when its second is taken at face value, the leeway can
   * be negated and, if negative, does not carry it beyond the end of time.
   */
  lemma StartHonouredIff(settings: VerifierSettings, name: string, n: Int64)
    requires name in {"nbf", "iat"}
    ensures KeepsStart(settings, name, n) <==>
      FaceValue(n) && settings.leeway != MIN_INT64 && n * SECOND - settings.leeway <= MAX_TIME
  {
    hide Judge, States;
    if FaceValue(n) && settings.leeway != MIN_INT64 && n * SECOND - settings.leeway <= MAX_TIME {
      forall m: map<string, Json>, now: Time | States(m, name, n)
        ensures Judge(settings, now, JObject(m)).Accepted? ==> now >= n * SECOND - settings.leeway
        ensures Judge(settings, now, JObject(m)) == Rejected(TooEarly(name)) ==> now < n * SECOND - settings.leeway
      {
        JudgedEarly(settings, m, name, n, now);
      }
    } else {
      var now := AcceptedTooEarly(settings.leeway, n);
      StartOnlyJudged(settings, name, n, now);
    }
  }

  lemma AcceptedTooEarly(leeway: Duration, n: Int64) returns (now: Time)
    requires !(FaceValue(n) && leeway != MIN_INT64 && n * SECOND - leeway <= MAX_TIME)
    ensures !Early(n, leeway, now) && now < n * SECOND - leeway
  {
    now := if n == ZERO_SECOND then MIN_TIME else if n > LAST_SECOND then 0
      else if leeway == MIN_INT64 then n * SECOND else MAX_TIME;
  }

  lemma FarDatesJudged(now: Time)
    requires now >= 0
    ensures Judge(NO_PINS, now, JObject(map["nbf" := JInt(MAX_INT64)])).Accepted?
    ensures Judge(NO_PINS, now, JObject(map["exp" := JInt(MAX_INT64)])) == Rejected(Expired)
  {
    var m, m' := map["nbf" := JInt(MAX_INT64)], map["exp" := JInt(MAX_INT64)];
    assert forall name :: name in m ==> name == "nbf" && MemberOk(name, m[name]);
    assert forall name :: name in m' ==> name == "exp" && MemberOk(name, m'[name]);
  }

  /** The last 64-bit second: as `nbf` it is long past, as `exp` it is over. */
  lemma FarDatesTurnRound(signer: Algorithm, verifier: Algorithm, codec: Codec, now: Time)
    requires LawfulCodec(codec) && Matching(signer, verifier, codec)
    requires forall input :: signer.sign(input).Just?
    requires now >= 0
    ensures Verify(verifier, codec, NO_PINS, now,
                   Compact(signer, codec, JObject(map["nbf" := JInt(MAX_INT64)]))).Accepted?
    ensures Verify(verifier, codec, NO_PINS, now,
                   Compact(signer, codec, JObject(map["exp" := JInt(MAX_INT64)]))) == Rejected(Expired)
  {
    hide Verify, LawfulCodec, Matching, Compact, Judge, SigningInput;
    VerifyOfCompact(signer, verifier, codec, NO_PINS, JObject(map["nbf" := JInt(MAX_INT64)]), now);
    VerifyOfCompact(signer, verifier, codec, NO_PINS, JObject(map["exp" := JInt(MAX_INT64)]), now);
    FarDatesJudged(now);
  }

  /**
   * A note on the order of checks: the fate of a token that is not authentic depends neither on how
   * payloads are parsed nor on clock and pins.
   */
  lemma UnsignedPayloadUnread(alg: Algorithm, codec: Codec, other: Codec, settings: VerifierSettings,
                              settings': VerifierSettings, now: Time, now': Time, token: string)
    requires !Authentic(alg, codec, token)
    requires other == codec.(unmarshal := other.unmarshal)
    ensures Verify(alg, other, settings', now', token) == Verify(alg, codec, settings, now, token)
  {
    hide VerifyPayload, SplitAtDots, TypIsJwt;
  }
}
