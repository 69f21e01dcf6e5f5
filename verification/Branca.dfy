/**
 * Branca tokens: version, 32-bit timestamp, nonce and sealed payload, base62 encoded, with the
 * header authenticated as associated data (branca/branca.go). The AEAD is an interface in the sense
 * of section 2 of RFC 5116.
 */
module Branca {
  import opened Numerals
  import opened Base62
  import opened Times

  const VERSION_BYTE: byte := 0xBA
  const NONCE_SIZE := 24
  const HEADER_SIZE := 29
  const TAG_SIZE := 16
  const MIN_TOKEN_LEN := 45
  const MAX_UINT32 := 0xFFFF_FFFF

  datatype Plaintext = Plaintext(payload: seq<byte>) | Unauthentic

  datatype Aead = Aead(
    /** Key, nonce, payload, associated data. */
    seal: (seq<byte>, seq<byte>, seq<byte>, seq<byte>) -> seq<byte>,
    /** Key, nonce, sealed bytes, associated data. */
    unseal: (seq<byte>, seq<byte>, seq<byte>, seq<byte>) -> Plaintext)

  /** Unsealing inverts sealing under the same key, nonce and associated data, and the tag adds 16 bytes. */
  ghost predicate Lawful(aead: Aead, key: seq<byte>)
  {
    forall nonce, payload, ad :: |nonce| == NONCE_SIZE ==>
      && aead.unseal(key, nonce, aead.seal(key, nonce, payload, ad), ad) == Plaintext(payload)
      && |aead.seal(key, nonce, payload, ad)| == |payload| + TAG_SIZE
  }

  datatype NonceRead = Nonce(bytes: seq<byte>) | ReadFailed

  datatype EncodeResult = Encoded(token: string) | NonceFailure | TimestampOutOfRange

  datatype Token = Token(text: string, timestamp: Time, payload: seq<byte>)

  datatype OpenError = Malformed | Invalid | Expired

  datatype OpenResult = Opened(token: Token) | Refused(err: OpenError)

  /** `binary.BigEndian.PutUint32`. */
  function Uint32Bytes(v: nat): (b: seq<byte>)
    requires v <= MAX_UINT32
    ensures |b| == 4
  {
    [v / 16777216, v / 65536 % 256, v / 256 % 256, v % 256]
  }

  function Header(seconds: nat, nonce: seq<byte>): (h: seq<byte>)
    requires seconds <= MAX_UINT32
    ensures |h| == 5 + |nonce|
  {
    [VERSION_BYTE] + Uint32Bytes(seconds) + nonce
  }

  function Frame(aead: Aead, key: seq<byte>, seconds: nat, nonce: seq<byte>, payload: seq<byte>): seq<byte>
    requires seconds <= MAX_UINT32
  {
    Header(seconds, nonce) + aead.seal(key, nonce, payload, Header(seconds, nonce))
  }

  function EncodeToken(aead: Aead, key: seq<byte>, nonce: NonceRead, now: Time, payload: seq<byte>): EncodeResult
  {
    if nonce.ReadFailed? then NonceFailure
    else if Unix(now) < 0 || Unix(now) > MAX_UINT32 then TimestampOutOfRange
    else Encoded(Encode(Frame(aead, key, Unix(now), nonce.bytes, payload)))
  }

  /** Fills the header buffer in place, seals and encodes. */
  method EncodeBytes(aead: Aead, key: seq<byte>, nonce: NonceRead, now: Time, payload: seq<byte>)
    returns (r: EncodeResult)
    requires nonce.Nonce? ==> |nonce.bytes| == NONCE_SIZE
    ensures r == EncodeToken(aead, key, nonce, now, payload)
  {
    if nonce.ReadFailed? {
      return NonceFailure;
    }
    if Unix(now) < 0 || Unix(now) > MAX_UINT32 {
      return TimestampOutOfRange;
    }
    var seconds := Unix(now);
    var header := new byte[HEADER_SIZE];
    header[0] := VERSION_BYTE;
    header[1] := seconds / 16777216;
    header[2] := seconds / 65536 % 256;
    header[3] := seconds / 256 % 256;
    header[4] := seconds % 256;
    assert header[..5] == [VERSION_BYTE] + Uint32Bytes(seconds);
    for k := 0 to NONCE_SIZE
      invariant header[..5 + k] == [VERSION_BYTE] + Uint32Bytes(seconds) + nonce.bytes[..k]
    {
      header[5 + k] := nonce.bytes[k];
      assert header[..5 + k + 1] == header[..5 + k] + [nonce.bytes[k]];
      assert nonce.bytes[..k + 1] == nonce.bytes[..k] + [nonce.bytes[k]];
    }
    assert nonce.bytes[..NONCE_SIZE] == nonce.bytes && header[..HEADER_SIZE] == header[..];
    var sealed := aead.seal(key, nonce.bytes, payload, header[..]);
    var token := Base62Encode(header[..] + sealed);
    return Encoded(token);
  }

  lemma FourBytes(b: seq<nat>)
    requires |b| == 4 && IsNumeral(b, 256)
    ensures Value(b, 256) == ((b[0] * 256 + b[1]) * 256 + b[2]) * 256 + b[3] <= MAX_UINT32
  {
    assert b[..3][..2] == b[..2] && b[..2][..1] == b[..1] && b[..1][..0] == [];
    assert Value(b[..1], 256) == b[0];
    assert Value(b[..2], 256) == b[0] * 256 + b[1];
    assert Value(b[..3], 256) == (b[0] * 256 + b[1]) * 256 + b[2];
  }

  lemma BytesOfUint32(b: seq<byte>)
    requires |b| == 4
    ensures Value(b, 256) <= MAX_UINT32 && Uint32Bytes(Value(b, 256)) == b
  {
    FourBytes(b);
    FourDigits(b[0], b[1], b[2], b[3]);
  }

  lemma FourDigits(a: nat, b: nat, c: nat, d: nat)
    requires a < 256 && b < 256 && c < 256 && d < 256
    ensures var v := ((a * 256 + b) * 256 + c) * 256 + d;
      v / 16777216 == a && v / 65536 % 256 == b && v / 256 % 256 == c && v % 256 == d
  {
  }

  /** Structure, then authentication, then age: the order the format requires. */
  function Open(aead: Aead, key: seq<byte>, token: string, now: Time, ttl: Duration): OpenResult
  {
    match Decode(token)
    case NonBase62 => Refused(Malformed)
    case Decoded(decoded) =>
      if |decoded| < MIN_TOKEN_LEN then Refused(Malformed)
      else if decoded[0] != VERSION_BYTE then Refused(Malformed)
      else
        var header := decoded[..HEADER_SIZE];
        var nonce := decoded[5..HEADER_SIZE];
        BytesOfUint32(decoded[1..5]);
        var timestamp := FromUnix(Value(decoded[1..5], 256));
        match aead.unseal(key, nonce, decoded[HEADER_SIZE..], header)
        case Unauthentic => Refused(Invalid)
        case Plaintext(payload) =>
          if ttl > 0 && now > Add(timestamp, ttl) then Refused(Expired)
          else Opened(Token(token, timestamp, payload))
  }

  lemma Uint32RoundTrip(v: nat)
    requires v <= MAX_UINT32
    ensures Value(Uint32Bytes(v), 256) == v
  {
    FourBytes(Uint32Bytes(v));
    ByteSplit(v);
    ByteSplit(v / 256);
    ByteSplit(v / 65536);
    assert v / 256 / 256 == v / 65536 && v / 65536 / 256 == v / 16777216;
  }

  lemma ByteSplit(v: nat)
    ensures v == v / 256 * 256 + v % 256
  {
  }

  /** The frame starts with a non-zero byte, so base62 gives it back unchanged. */
  lemma FrameSurvives(frame: seq<byte>)
    requires frame != [] && frame[0] == VERSION_BYTE
    ensures Decode(Encode(frame)) == Decoded(frame)
  {
    ValueHead(frame, 256);
    PowPositive(256, |frame| - 1);
    MulAtLeast(frame[0], Pow(256, |frame| - 1));
    DecodeEncoded(frame);
  }

  /**
   * When making a token is refused, and otherwise how it is laid out: version, big-endian second, nonce, and the
   * payload sealed with these 29 bytes as associated data.
   */
  lemma MakingOutcome(aead: Aead, key: seq<byte>, nonce: NonceRead, now: Time, payload: seq<byte>)
    requires nonce.Nonce? ==> |nonce.bytes| == 24
    ensures var r := EncodeToken(aead, key, nonce, now, payload);
      var inRange := 0 <= Second(now) <= 0xFFFF_FFFF;
      && (r == NonceFailure <==> nonce.ReadFailed?)
      && (r == TimestampOutOfRange <==> nonce.Nonce? && !inRange)
      && (nonce.Nonce? && inRange ==>
            && r.Encoded? && Decode(r.token).Decoded?
            && var frame := Decode(r.token).bytes;
               && |frame| >= 29
               && frame[0] == 0xBA && Value(frame[1..5], 256) == Second(now) && frame[5..29] == nonce.bytes
               && frame[29..] == aead.seal(key, nonce.bytes, payload, frame[..29]))
  {
    if nonce.Nonce? && 0 <= Second(now) <= 0xFFFF_FFFF {
      var header := Header(Second(now), nonce.bytes);
      var frame := Frame(aead, key, Second(now), nonce.bytes, payload);
      FrameSurvives(frame);
      Uint32RoundTrip(Second(now));
      assert frame[..29] == header && frame[1..5] == Uint32Bytes(Second(now)) && frame[5..29] == nonce.bytes;
      assert frame[29..] == aead.seal(key, nonce.bytes, payload, header);
    }
  }

  /** Which texts are refused for what, and what is reported of the others. */
  lemma OpeningOutcome(aead: Aead, key: seq<byte>, text: string, now: Time, ttl: Duration)
    ensures var r := Open(aead, key, text, now, ttl);
      var d := Decode(text);
      var framed := d.Decoded? && |d.bytes| >= 45 && d.bytes[0] == 0xBA;
      && (r == Refused(Malformed) <==> !framed)
      && (framed ==>
            var unsealed := aead.unseal(key, d.bytes[5..29], d.bytes[29..], d.bytes[..29]);
            var timestamp := Value(d.bytes[1..5], 256) * SECOND;
            && (r == Refused(Invalid) <==> unsealed == Unauthentic)
            && (unsealed.Plaintext? ==>
                  if ttl > 0 && now > timestamp + ttl then r == Refused(Expired)
                  else r.Opened? && r.token.text == text && r.token.payload == unsealed.payload
                       && r.token.timestamp == timestamp))
  {
    if Decode(text).Decoded? && |Decode(text).bytes| >= 45 {
      BytesOfUint32(Decode(text).bytes[1..5]);
    }
  }

  /**
   * Opening a token made with the same key returns its payload and its timestamp in whole seconds,
   * exactly when no TTL is asked for or the token is not older than that.
   */
  lemma RoundTrip(aead: Aead, key: seq<byte>, nonce: seq<byte>, made: Time, payload: seq<byte>,
                  now: Time, ttl: Duration)
    requires Lawful(aead, key) && |nonce| == NONCE_SIZE && 0 <= Unix(made) <= MAX_UINT32
    ensures var r := EncodeToken(aead, key, Nonce(nonce), made, payload);
      && r.Encoded?
      && Open(aead, key, r.token, now, ttl) ==
           if ttl <= 0 || now <= Unix(made) * SECOND + ttl then Opened(Token(r.token, Unix(made) * SECOND, payload))
           else Refused(Expired)
  {
    var seconds := Unix(made);
    var header := Header(seconds, nonce);
    var frame := Frame(aead, key, seconds, nonce, payload);
    FrameSurvives(frame);
    Uint32RoundTrip(seconds);
    assert frame[..HEADER_SIZE] == header && frame[1..5] == Uint32Bytes(seconds) && frame[5..HEADER_SIZE] == nonce;
    assert frame[HEADER_SIZE..] == aead.seal(key, nonce, payload, header);
  }

  /**
   * Conversely every accepted text is, up to leading '0' characters, the encoding of a header and
   * sealed bytes that authenticate together, and reports that header's time and that payload.
   */
  lemma AcceptedIsFrame(aead: Aead, key: seq<byte>, text: string, now: Time, ttl: Duration)
    returns (seconds: nat, nonce: seq<byte>, sealed: seq<byte>)
    requires Open(aead, key, text, now, ttl).Opened?
    ensures seconds <= MAX_UINT32 && |nonce| == NONCE_SIZE && |sealed| >= TAG_SIZE
    ensures Strip(text, '0') == Encode(Header(seconds, nonce) + sealed)
    ensures var t := Open(aead, key, text, now, ttl).token;
      && t.text == text && t.timestamp == seconds * SECOND
      && aead.unseal(key, nonce, sealed, Header(seconds, nonce)) == Plaintext(t.payload)
      && (ttl <= 0 || now <= t.timestamp + ttl)
  {
    var decoded := Decode(text).bytes;
    seconds, nonce, sealed := Value(decoded[1..5], 256), decoded[5..HEADER_SIZE], decoded[HEADER_SIZE..];
    BytesOfUint32(decoded[1..5]);
    assert decoded[..HEADER_SIZE] == Header(seconds, nonce);
    assert decoded == Header(seconds, nonce) + sealed;
    EncodeDecoded(text);
  }

  /**
   * A note on the order of checks: a text that is malformed or not authentic is refused as such at any time and
   * for any TTL, and an expired one opens when no TTL is asked for.
   */
  lemma AgeJudgedLast(aead: Aead, key: seq<byte>, text: string, now: Time, ttl: Duration, now': Time, ttl': Duration)
    ensures var r := Open(aead, key, text, now, ttl);
      && (r in {Refused(Malformed), Refused(Invalid)} ==> Open(aead, key, text, now', ttl') == r)
      && (r == Refused(Expired) ==> Open(aead, key, text, now', 0).Opened?)
  {
  }

  /** Leading '0' characters change neither the verdict nor what is reported. */
  lemma LeadingZerosIgnored(aead: Aead, key: seq<byte>, s: string, t: string, now: Time, ttl: Duration)
    requires s != "" && t != "" && IsText(s) && IsText(t) && Strip(s, '0') == Strip(t, '0')
    ensures var (x, y) := (Open(aead, key, s, now, ttl), Open(aead, key, t, now, ttl));
      if x.Opened? then y == Opened(x.token.(text := t)) else y == x
  {
    DecodesAlikeIff(s, t);
  }

  lemma HigherPrefix(a: seq<nat>, b: seq<nat>, x: seq<nat>, y: seq<nat>)
    requires Value(a, 256) < Value(b, 256) && |x| == |y| && IsNumeral(x, 256)
    ensures Value(a + x, 256) < Value(b + y, 256)
  {
    ValueConcat(a, x, 256);
    ValueConcat(b, y, 256);
    ValueBound(x, 256);
    MulStrict(Value(a, 256), Value(b, 256), Pow(256, |x|));
  }

  lemma HeaderValue(seconds: nat, nonce: seq<byte>)
    requires seconds <= MAX_UINT32
    ensures Header(seconds, nonce)[..5] == [VERSION_BYTE] + Uint32Bytes(seconds)
    ensures Value(Header(seconds, nonce)[..5], 256) == 0xBA * 4294967296 + seconds
  {
    var b := Uint32Bytes(seconds);
    assert Header(seconds, nonce)[..5] == [VERSION_BYTE] + b;
    ValueConcat([VERSION_BYTE], b, 256);
    Uint32RoundTrip(seconds);
    assert Value([VERSION_BYTE], 256) == 0xBA by { assert [VERSION_BYTE][..0] == []; }
    assert Pow(256, 4) == 4294967296;
  }

  /** Tokens for payloads of equal length sort shortlex by time, whatever their keys and nonces. */
  lemma TokensSortByTime(aead: Aead, k1: seq<byte>, k2: seq<byte>, n1: seq<byte>, n2: seq<byte>,
                         t1: Time, t2: Time, p1: seq<byte>, p2: seq<byte>)
    requires Lawful(aead, k1) && Lawful(aead, k2) && |n1| == |n2| == NONCE_SIZE && |p1| == |p2|
    requires 0 <= Unix(t1) < Unix(t2) <= MAX_UINT32
    ensures ShortLexText(EncodeToken(aead, k1, Nonce(n1), t1, p1).token, EncodeToken(aead, k2, Nonce(n2), t2, p2).token)
  {
    var s1, s2 := Unix(t1), Unix(t2);
    var h1, h2 := Header(s1, n1), Header(s2, n2);
    var f1, f2 := Frame(aead, k1, s1, n1, p1), Frame(aead, k2, s2, n2, p2);
    HeaderValue(s1, n1);
    HeaderValue(s2, n2);
    assert |f1| == |f2|;
    assert f1[..5] == h1[..5] && f2[..5] == h2[..5];
    assert f1 == f1[..5] + f1[5..] && f2 == f2[..5] + f2[5..];
    HigherPrefix(f1[..5], f2[..5], f1[5..], f2[5..]);
    EncodingOrder(f1, f2);
  }

  /** A payload of `m` bytes never needs more than 11 characters per started block of 8 framed bytes. */
  lemma TokenSize(aead: Aead, key: seq<byte>, nonce: seq<byte>, now: Time, payload: seq<byte>)
    requires Lawful(aead, key) && |nonce| == NONCE_SIZE && 0 <= Unix(now) <= MAX_UINT32
    ensures |EncodeToken(aead, key, Nonce(nonce), now, payload).token| <= 11 * ((|payload| + 52) / 8)
  {
    EncodingSize(Frame(aead, key, Unix(now), nonce, payload));
  }
}
