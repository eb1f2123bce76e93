/** Signed tokens in compact form (section 7.1 of RFC 7515): three dot-separated segments. */
module Tokens {

  import opened Options
  import opened Text
  import opened Base64Url

  datatype Json =
    | Null | Bool(b: bool) | Int(n: int) | Real(r: real) | Str(s: string)
    | Arr(elems: seq<Json>) | Obj(fields: map<string, Json>)

  type Claims = map<string, Json>

  /** `json.loads` on bytes: a value, a JSONDecodeError, or another exception, as for bytes that
      are no text or an integer of too many digits. */
  datatype Loaded = Parsed(value: Json) | NotJson | Fails(error: string)

  /** The JSON codec and HMAC-SHA256 (message, secret), as parameters. */
  datatype Crypto = Crypto(dumps: Json -> Bytes, loads: Bytes -> Loaded, mac: (string, string) -> Bytes)

  const HEADER: Json := Obj(map["alg" := Str("HS256"), "typ" := Str("JWT")])
  const REQUIRED: set<string> := {"sub", "email", "type", "iat", "exp", "jti"}

  /** `_jwt_sign`. */
  function Sign(c: Crypto, message: string, secret: string): string {
    Encode(c.mac(message, secret))
  }

  /** The subject overridden by type, iat, exp and jti. */
  function PayloadOf(subject: Claims, now: int, ttl: int, tokenType: string, random: Bytes): Claims {
    subject["type" := Str(tokenType)]["iat" := Int(now)]["exp" := Int(now + ttl)]["jti" := Str(Encode(random))]
  }

  function Token(c: Crypto, secret: string, payload: Claims): string {
    var input := Encode(c.dumps(HEADER)) + "." + Encode(c.dumps(Obj(payload)));
    input + "." + Sign(c, input, secret)
  }

  /** `create_token`, with the clock and the twelve random bytes as parameters. */
  function CreateToken(c: Crypto, secret: string, subject: Claims, now: int, ttl: int, tokenType: string,
                       random: Bytes): string {
    Token(c, secret, PayloadOf(subject, now, ttl, tokenType, random))
  }

  /** A 401 with its detail, or an exception that is no HTTPException. */
  datatype Result = Payload(claims: Claims) | Unauthorized(detail: string) | Escapes(error: string)

  /** `value < now`; None is the TypeError of an unordered pair. */
  function Before(value: Json, now: int): Option<bool> {
    match value
    case Int(n) => Some(n < now)
    case Real(r) => Some(r < now as real)
    case Bool(b) => Some((if b then 1 else 0) < now)
    case _ => None
  }

  function CheckClaims(claims: Claims, now: int, expected: Option<string>): Result {
    if !(REQUIRED <= claims.Keys) then Unauthorized("Invalid token")
    else match Before(claims["exp"], now)
      case None => Escapes("TypeError")
      case Some(expired) =>
        if expired then Unauthorized("Token expired")
        else if expected.Some? && claims["type"] != Str(expected.value) then Unauthorized("Invalid token type")
        else Payload(claims)
  }

  function DecodePayload(c: Crypto, segment: string, now: int, expected: Option<string>): Result {
    var bytes := Decode(segment);
    if !bytes.Ok? then Escapes("binascii.Error") else
      match c.loads(bytes.bytes)
      case Fails(error) => Escapes(error)
      case NotJson => Unauthorized("Invalid token")
      case Parsed(value) =>
        if value.Obj? then CheckClaims(value.fields, now, expected) else Unauthorized("Invalid token")
  }

  /** `decode_token`. */
  function DecodeToken(c: Crypto, secret: string, now: int, token: string, expected: Option<string>): Result {
    var parts := Split(token, '.', 2);
    if |parts| != 3 then Unauthorized("Invalid token")
    else if !Ascii(parts[0]) || !Ascii(parts[1]) then Escapes("UnicodeEncodeError")
    else if !Ascii(parts[2]) then Escapes("TypeError")
    else if parts[2] != Sign(c, parts[0] + "." + parts[1], secret) then Unauthorized("Invalid token")
    else DecodePayload(c, parts[1], now, expected)
  }

  function Count(s: string, d: char): nat {
    if s == "" then 0 else (if s[0] == d then 1 else 0) + Count(s[1..], d)
  }

  lemma {:induction false} CountAppend(a: string, b: string, d: char)
    ensures Count(a + b, d) == Count(a, d) + Count(b, d)
    ensures d !in a ==> Count(a, d) == 0
  {
    if a == "" {
      assert a + b == b;
    } else {
      CountAppend(a[1..], b, d);
      assert (a + b)[1..] == a[1..] + b;
      assert forall c :: c in a[1..] ==> c in a;
    }
  }

  /** Three segments, the first two without a dot, are found by the bounded split. */
  lemma SplitSegments(h: string, p: string, s: string)
    requires '.' !in h && '.' !in p
    ensures Split(h + "." + p + "." + s, '.', 2) == [h, p, s]
  {
    JoinThree(h, p, s, '.');
    SplitJoin([h, p, s], '.', 2);
  }

  /** A signed token: two dot-free ASCII segments and the signature of both. */
  ghost predicate Signed(c: Crypto, secret: string, token: string, h: string, p: string) {
    && '.' !in h && '.' !in p && Ascii(h) && Ascii(p)
    && token == h + "." + p + "." + Sign(c, h + "." + p, secret)
  }

  lemma SignedIsSplit(c: Crypto, secret: string, token: string, h: string, p: string)
    ensures Signed(c, secret, token, h, p) <==>
            Ascii(h) && Ascii(p) && Split(token, '.', 2) == [h, p, Sign(c, h + "." + p, secret)]
  {
    var s := Sign(c, h + "." + p, secret);
    if Signed(c, secret, token, h, p) {
      SplitSegments(h, p, s);
    }
    if Split(token, '.', 2) == [h, p, s] {
      JoinSplit(token, '.', 2);
      JoinThree(h, p, s, '.');
    }
  }

  /** What `decode_token` accepts, and with what result: exactly the correctly signed strings
      whose payload decodes to an object with the six claims that is current and of the
      expected type. */
  lemma AcceptsExactly(c: Crypto, secret: string, now: int, token: string, expected: Option<string>, claims: Claims)
    ensures DecodeToken(c, secret, now, token, expected) == Payload(claims) <==>
            exists h, p ::
              && Signed(c, secret, token, h, p) && Carries(c, p, claims)
              && NotBefore(claims["exp"], now) && (expected.Some? ==> claims["type"] == Str(expected.value))
  {
    SignedParts(c, secret, token);
  }

  /** The payload segment decodes to an object with all six claims. */
  ghost predicate Carries(c: Crypto, segment: string, claims: Claims) {
    && Decode(segment).Ok? && c.loads(Decode(segment).bytes) == Parsed(Obj(claims))
    && "sub" in claims && "email" in claims && "type" in claims && "iat" in claims && "exp" in claims && "jti" in claims
  }

  /** A number that is not smaller than now; True and False count as 1 and 0. */
  ghost predicate NotBefore(value: Json, now: int) {
    (value.Int? && now <= value.n) || (value.Real? && now as real <= value.r) ||
    (value.Bool? && now <= if value.b then 1 else 0)
  }

  ghost predicate IsNumber(value: Json) {
    value.Int? || value.Real? || value.Bool?
  }

  /** A signed token is split into its segments, in one way. */
  lemma SignedParts(c: Crypto, secret: string, token: string)
    ensures var parts := Split(token, '.', 2);
      && (forall h, p :: Signed(c, secret, token, h, p) ==>
            parts == [h, p, Sign(c, h + "." + p, secret)] && Ascii(parts[2]))
      && ((|parts| == 3 && Ascii(parts[0]) && Ascii(parts[1]) &&
           parts[2] == Sign(c, parts[0] + "." + parts[1], secret)) ==> Signed(c, secret, token, parts[0], parts[1]))
  {
    var parts := Split(token, '.', 2);
    if |parts| == 3 {
      assert parts == [parts[0], parts[1], parts[2]];
      SignedIsSplit(c, secret, token, parts[0], parts[1]);
    }
    forall h, p | Signed(c, secret, token, h, p)
      ensures parts == [h, p, Sign(c, h + "." + p, secret)] && Ascii(parts[2])
    {
      SignedIsSplit(c, secret, token, h, p);
      NoSeparators(c.mac(h + "." + p, secret));
    }
  }

  /** Which 401 it is: "Token expired" for a signed, complete payload whose time has passed, "Invalid
      token type" for one that is current and of another type, and "Invalid token" for all others. */
  lemma DetailMeaning(c: Crypto, secret: string, now: int, token: string, expected: Option<string>)
    ensures var r := DecodeToken(c, secret, now, token, expected);
      && (r == Unauthorized("Token expired") <==>
            exists h, p, claims ::
              Signed(c, secret, token, h, p) && Carries(c, p, claims) && IsNumber(claims["exp"]) &&
              !NotBefore(claims["exp"], now))
      && (r == Unauthorized("Invalid token type") <==>
            exists h, p, claims ::
              Signed(c, secret, token, h, p) && Carries(c, p, claims) && NotBefore(claims["exp"], now) &&
              expected.Some? && claims["type"] != Str(expected.value))
      && (r.Unauthorized? ==> r.detail in {"Invalid token", "Token expired", "Invalid token type"})
  {
    SignedParts(c, secret, token);
    assert "Invalid token" != "Token expired" && "Invalid token" != "Invalid token type" by {
      assert "Invalid token"[0] != "Token expired"[0] && |"Invalid token"| != |"Invalid token type"|;
    }
    assert "Token expired"[0] != "Invalid token type"[0];
  }

  /** A payload segment on which the checks behind the signature raise something else than the 401. */
  ghost predicate Untidy(c: Crypto, segment: string) {
    var bytes := Decode(segment);
    || !bytes.Ok?
    || c.loads(bytes.bytes).Fails?
    || exists claims :: Carries(c, segment, claims) && !IsNumber(claims["exp"])
  }

  /** When another exception than the 401 escapes: exactly on strings with at least two dots that
      are not ASCII, or are correctly signed around an untidy payload. */
  lemma EscapesExactly(c: Crypto, secret: string, now: int, token: string, expected: Option<string>)
    ensures DecodeToken(c, secret, now, token, expected).Escapes? <==>
            |Split(token, '.', 2)| == 3 &&
            (!Ascii(token) || exists h, p :: Signed(c, secret, token, h, p) && Untidy(c, p))
  {
    SignedParts(c, secret, token);
    if |Split(token, '.', 2)| == 3 { AsciiParts(token); }
  }

  lemma AsciiParts(token: string)
    requires |Split(token, '.', 2)| == 3
    ensures var parts := Split(token, '.', 2);
            Ascii(token) <==> Ascii(parts[0]) && Ascii(parts[1]) && Ascii(parts[2])
  {
    var parts := Split(token, '.', 2);
    assert parts == [parts[0], parts[1], parts[2]];
    JoinSplit(token, '.', 2);
    JoinThree(parts[0], parts[1], parts[2], '.');
    var h, p, s := parts[0], parts[1], parts[2];
    assert token == h + "." + p + "." + s;
    assert forall c :: c in token <==> c in h || c == '.' || c in p || c in s;
  }

  /** Two such strings: one that anybody can send, and one with a correct signature. */
  lemma EscapingTokens(c: Crypto, secret: string, now: int, expected: Option<string>)
    ensures DecodeToken(c, secret, now, "\U{e9}..", expected) == Escapes("UnicodeEncodeError")
    ensures DecodeToken(c, secret, now, ".A." + Sign(c, ".A", secret), expected) == Escapes("binascii.Error")
  {
    SplitSegments("\U{e9}", "", "");
    assert "\U{e9}" + "." + "" + "." + "" == "\U{e9}..";
    assert '\U{e9}' in "\U{e9}";
    var s := Sign(c, ".A", secret);
    SplitSegments("", "A", s);
    assert "" + "." + "A" + "." + s == ".A." + s;
    assert "" + "." + "A" == ".A";
    NoSeparators(c.mac(".A", secret));
    OneCharacterIsMalformed();
  }

  lemma TwoDots(h: string, p: string, s: string)
    requires '.' !in h && '.' !in p && '.' !in s
    ensures Count(h + "." + p + "." + s, '.') == 2
  {
    CountAppend(h, ".", '.');
    CountAppend(h + ".", p, '.');
    CountAppend(p, "", '.');
    CountAppend(h + "." + p, ".", '.');
    CountAppend(h + "." + p + ".", s, '.');
    CountAppend(s, "", '.');
  }

  /** An accepted string has exactly two dots. */
  lemma AcceptedHasTwoDots(c: Crypto, secret: string, now: int, token: string, expected: Option<string>)
    requires DecodeToken(c, secret, now, token, expected).Payload?
    ensures Count(token, '.') == 2
  {
    var parts := Split(token, '.', 2);
    assert parts == [parts[0], parts[1], parts[2]];
    SignedIsSplit(c, secret, token, parts[0], parts[1]);
    NoSeparators(c.mac(parts[0] + "." + parts[1], secret));
    TwoDots(parts[0], parts[1], parts[2]);
  }

  /** Under its own secret a token passes the signature check. */
  lemma TokenIsSigned(c: Crypto, secret: string, payload: Claims, now: int, expected: Option<string>)
    ensures DecodeToken(c, secret, now, Token(c, secret, payload), expected) ==
            DecodePayload(c, Encode(c.dumps(Obj(payload))), now, expected)
  {
    var h, p := Encode(c.dumps(HEADER)), Encode(c.dumps(Obj(payload)));
    NoSeparators(c.dumps(HEADER));
    NoSeparators(c.dumps(Obj(payload)));
    NoSeparators(c.mac(h + "." + p, secret));
    SplitSegments(h, p, Sign(c, h + "." + p, secret));
  }

  /** A created token decodes under its own secret to exactly the overridden subject, as long as
      it is current, of the expected type, and the subject names `sub` and `email`. */
  lemma CreatedTokensDecode(c: Crypto, secret: string, subject: Claims, issued: int, ttl: int, tokenType: string,
                            random: Bytes, now: int, expected: Option<string>)
    requires var p := Obj(PayloadOf(subject, issued, ttl, tokenType, random)); c.loads(c.dumps(p)) == Parsed(p)
    ensures DecodeToken(c, secret, now, CreateToken(c, secret, subject, issued, ttl, tokenType, random), expected) ==
            if !({"sub", "email"} <= subject.Keys) then Unauthorized("Invalid token")
            else if issued + ttl < now then Unauthorized("Token expired")
            else if expected.Some? && expected.value != tokenType then Unauthorized("Invalid token type")
            else Payload(PayloadOf(subject, issued, ttl, tokenType, random))
  {
    var claims := PayloadOf(subject, issued, ttl, tokenType, random);
    TokenIsSigned(c, secret, claims, now, expected);
    RoundTrip(c.dumps(Obj(claims)));
    assert claims.Keys == subject.Keys + {"type", "iat", "exp", "jti"};
    assert REQUIRED <= claims.Keys <==> {"sub", "email"} <= subject.Keys;
  }

  /** The claims of a created token: the four of its own, and every other claim of the subject. */
  lemma PayloadMeaning(subject: Claims, now: int, ttl: int, tokenType: string, random: Bytes, key: string)
    ensures var claims := PayloadOf(subject, now, ttl, tokenType, random);
      && "type" in claims && claims["type"] == Str(tokenType)
      && "iat" in claims && claims["iat"] == Int(now)
      && "exp" in claims && claims["exp"] == Int(now + ttl)
      && "jti" in claims && claims["jti"].Str? && Decode(claims["jti"].s) == Ok(random)
      && (key !in {"type", "iat", "exp", "jti"} ==>
            (key in claims <==> key in subject) && (key in claims ==> claims[key] == subject[key]))
  {
    RoundTrip(random);
    assert "type"[0] == 't' && "iat"[0] == 'i' && "exp"[0] == 'e' && "jti"[0] == 'j';
  }

  /** The three segments of a created token: header, payload, and the MAC of the first two. */
  lemma SegmentMeaning(c: Crypto, secret: string, subject: Claims, now: int, ttl: int, tokenType: string,
                       random: Bytes)
    ensures var parts := Split(CreateToken(c, secret, subject, now, ttl, tokenType, random), '.', 2);
      && |parts| == 3
      && Decode(parts[0]) == Ok(c.dumps(Obj(map["alg" := Str("HS256"), "typ" := Str("JWT")])))
      && Decode(parts[1]) == Ok(c.dumps(Obj(PayloadOf(subject, now, ttl, tokenType, random))))
      && Decode(parts[2]) == Ok(c.mac(parts[0] + "." + parts[1], secret))
  {
    var payload := Obj(PayloadOf(subject, now, ttl, tokenType, random));
    var h, p := Encode(c.dumps(HEADER)), Encode(c.dumps(payload));
    NoSeparators(c.dumps(HEADER));
    NoSeparators(c.dumps(payload));
    RoundTrip(c.dumps(HEADER));
    RoundTrip(c.dumps(payload));
    RoundTrip(c.mac(h + "." + p, secret));
    SplitSegments(h, p, Sign(c, h + "." + p, secret));
  }

  /** Under another secret a created token passes the signature check only if the two MACs of the
      signing input are equal. */
  lemma OtherSecretsRefuse(c: Crypto, secret: string, other: string, payload: Claims, now: int,
                           expected: Option<string>)
    requires var input := Encode(c.dumps(HEADER)) + "." + Encode(c.dumps(Obj(payload)));
             c.mac(input, secret) != c.mac(input, other)
    ensures DecodeToken(c, other, now, Token(c, secret, payload), expected) == Unauthorized("Invalid token")
  {
    var h, p := Encode(c.dumps(HEADER)), Encode(c.dumps(Obj(payload)));
    NoSeparators(c.dumps(HEADER));
    NoSeparators(c.dumps(Obj(payload)));
    NoSeparators(c.mac(h + "." + p, secret));
    SplitSegments(h, p, Sign(c, h + "." + p, secret));
    if Sign(c, h + "." + p, secret) == Sign(c, h + "." + p, other) {
      Injective(c.mac(h + "." + p, secret), c.mac(h + "." + p, other));
    }
  }
}
