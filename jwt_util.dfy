/** JwtUtil: issues and reads the access tokens. An access token is a JWT (RFC 7519)
    with the claims `sub` (RFC 7519 section 4.1.2), `iat` (RFC 7519 section 4.1.6) and
    `exp` (RFC 7519 section 4.1.4), signed with HS256 (RFC 7518 section 3.2). The jjwt
    library that signs and parses tokens is a parameter: `compact` builds a token from
    claims and a key, `parseClaimsJws` reports what parsing a token under a key at an
    instant gives. What this module decides is how those outcomes become the two
    exception kinds the callers see, and how "expired" and "valid" are derived from them.
    Every clock reading is a parameter of its own. */
module Jwt {
  import opened Lang

  newtype byte = x: int | 0 <= x < 256

  /** A signing key as made by `Keys.hmacShaKeyFor`. */
  datatype Key = HmacShaKey(bytes: seq<byte>)

  /** The claims of an access token; dates are milliseconds since the epoch. */
  datatype Claims = Claims(subject: string, issuedAt: nat, expiration: nat)

  /** What jjwt's `parseClaimsJws(token).getBody()` does. */
  datatype ParseOutcome =
    | Parsed(claims: Claims)
      // ExpiredJwtException: the signature is good, the `exp` claim is in the past
    | Expired(claims: Claims)
      // UnsupportedJwtException
    | Unsupported
      // MalformedJwtException
    | Malformed
      // SignatureException
    | BadSignature
      // IllegalArgumentException: the token is null, empty or blank
    | EmptyOrInvalid
      // any other JwtException (a DecodingException for characters outside base64url,
      // for one), which the code does not catch
    | OtherFailure

  /** The jjwt library, as seen by this code. */
  datatype JwtLibrary = JwtLibrary(
    compact: (Claims, Key) -> string,
    parseClaimsJws: (string, Key, nat) -> ParseOutcome)

  /** A JWT NumericDate counts whole seconds (RFC 7519 section 2): a Date put in a token
      comes back without its milliseconds. */
  function NumericDate(ms: nat): (r: nat)
    ensures r <= ms < r + 1000 && r % 1000 == 0
  {
    ms / 1000 * 1000
  }

  /** The claims as a parser reads them back from a token built from `c`. */
  function AsSigned(c: Claims): (d: Claims)
    ensures d.subject == c.subject
    ensures d.expiration <= c.expiration < d.expiration + 1000
  {
    Claims(c.subject, NumericDate(c.issuedAt), NumericDate(c.expiration))
  }

  /** The one assumption made about the library: a token built with a key parses under
      the same key to its claims, as Expired once its `exp` is before the parse instant
      (jjwt allows no clock skew by default); and the empty string is rejected with an
      IllegalArgumentException. */
  ghost predicate Sound(lib: JwtLibrary) {
    && (forall c: Claims, k: Key, now: nat ::
          lib.parseClaimsJws(lib.compact(c, k), k, now) ==
            if NumericDate(c.expiration) < now then Expired(AsSigned(c)) else Parsed(AsSigned(c)))
    && (forall k: Key, now: nat :: lib.parseClaimsJws("", k, now) == EmptyOrInvalid)
  }

  /** An initialised JwtUtil: the library it delegates to, the signing key `init` made,
      and the configured access-token lifetime `jwt.expiration`. */
  datatype Codec = Codec(lib: JwtLibrary, signingKey: Key, accessTokenExpirationMs: nat)

  /** The claims `generateAccessToken` signs when the clock reads `now`. */
  function AccessClaims(username: string, now: nat, accessTokenExpirationMs: nat): (c: Claims)
    ensures c.subject == username && c.issuedAt == now
    ensures c.expiration == c.issuedAt + accessTokenExpirationMs
  {
    Claims(username, now, now + accessTokenExpirationMs)
  }

  /** `generateAccessToken(username)` when the clock reads `now`: the access claims,
      signed with the initialised key. */
  function GenerateAccessToken(jwt: Codec, username: string, now: nat): (token: string)
    ensures token == jwt.lib.compact(AccessClaims(username, now, jwt.accessTokenExpirationMs), jwt.signingKey)
  {
    jwt.lib.compact(AccessClaims(username, now, jwt.accessTokenExpirationMs), jwt.signingKey)
  }

  /** `extractAllClaims(token)` when the clock reads `now`: an expired token rethrows
      ExpiredJwtException; an unsupported, malformed, badly signed or empty token becomes
      an IllegalArgumentException; any other JwtException passes through. */
  function ExtractAllClaims(jwt: Codec, token: string, now: nat): (r: Result<Claims>)
    ensures var o := jwt.lib.parseClaimsJws(token, jwt.signingKey, now);
      && (r.Ok? <==> o.Parsed?)
      && (r.Ok? ==> r.value == o.claims)
      && (r == Throws(ExpiredJwtException) <==> o.Expired?)
      && (r == Throws(OtherJwtException) <==> o.OtherFailure?)
      && (r.Throws? && r.exception.IllegalArgumentException? <==>
            o in {Unsupported, Malformed, BadSignature, EmptyOrInvalid})
      && (o.Unsupported? ==> r == Throws(IllegalArgumentException("Unsupported JWT token")))
      && (o.Malformed? ==> r == Throws(IllegalArgumentException("Malformed JWT token")))
      && (o.BadSignature? ==> r == Throws(IllegalArgumentException("Invalid JWT signature")))
      && (o.EmptyOrInvalid? ==> r == Throws(IllegalArgumentException("Invalid JWT token")))
  {
    match jwt.lib.parseClaimsJws(token, jwt.signingKey, now)
    case Parsed(c) => Ok(c)
    case Expired(_) => Throws(ExpiredJwtException)
    case Unsupported => Throws(IllegalArgumentException("Unsupported JWT token"))
    case Malformed => Throws(IllegalArgumentException("Malformed JWT token"))
    case BadSignature => Throws(IllegalArgumentException("Invalid JWT signature"))
    case EmptyOrInvalid => Throws(IllegalArgumentException("Invalid JWT token"))
    case OtherFailure => Throws(OtherJwtException)
  }

  /** `getUsernameFromToken(token)`: the subject, or the exception claim extraction threw. */
  function GetUsernameFromToken(jwt: Codec, token: string, now: nat): (r: Result<string>)
    ensures r.Ok? <==> ExtractAllClaims(jwt, token, now).Ok?
    ensures r.Ok? ==> r.value == jwt.lib.parseClaimsJws(token, jwt.signingKey, now).claims.subject
    ensures r.Throws? ==> r.exception == ExtractAllClaims(jwt, token, now).exception
  {
    var claims :- ExtractAllClaims(jwt, token, now);
    Ok(claims.subject)
  }

  /** `isTokenExpired(token)`: the token is parsed again when the library's clock reads
      `parsedAt`, and its expiration compared with `new Date()`, read at `comparedAt`.
      A token the parse already finds expired, and every token whose claims cannot be
      read, counts as expired. */
  function IsTokenExpired(jwt: Codec, token: string, parsedAt: nat, comparedAt: nat): (r: bool)
    ensures ExtractAllClaims(jwt, token, parsedAt).Throws? ==> r
    ensures !r <==> var o := jwt.lib.parseClaimsJws(token, jwt.signingKey, parsedAt);
      o.Parsed? && comparedAt <= o.claims.expiration
  {
    match ExtractAllClaims(jwt, token, parsedAt)
    case Ok(claims) => claims.expiration < comparedAt
    case Throws(_) => true
  }

  /** The three clock readings `validateAccessToken` makes, in the order it makes them:
      the parse that reads the subject, the parse inside `isTokenExpired`, and the
      `new Date()` the expiration is compared with. */
  datatype ValidationClock = ValidationClock(subjectAt: nat, expiryParsedAt: nat, comparedAt: nat)

  /** Readings taken one after the other from a clock that does not run backwards. */
  predicate InOrder(clock: ValidationClock) {
    clock.subjectAt <= clock.expiryParsedAt <= clock.comparedAt
  }

  /** `validateAccessToken(token, username)`: the subject is read first, so a token
      whose claims cannot be read then throws instead of yielding false. */
  function ValidateAccessToken(jwt: Codec, token: string, username: string, clock: ValidationClock): (r: Result<bool>)
    ensures r.Throws? <==> GetUsernameFromToken(jwt, token, clock.subjectAt).Throws?
    ensures r.Throws? ==> r.exception == ExtractAllClaims(jwt, token, clock.subjectAt).exception
    ensures r == Ok(true) <==>
      GetUsernameFromToken(jwt, token, clock.subjectAt) == Ok(username)
      && !IsTokenExpired(jwt, token, clock.expiryParsedAt, clock.comparedAt)
  {
    var subject :- GetUsernameFromToken(jwt, token, clock.subjectAt);
    Ok(subject == username && !IsTokenExpired(jwt, token, clock.expiryParsedAt, clock.comparedAt))
  }

  /** `Keys.hmacShaKeyFor(bytes)`: HMAC keys must have at least 256 bits. */
  function HmacShaKeyFor(bytes: seq<byte>): (r: Result<Key>)
    ensures r.Ok? <==> |bytes| >= 32
    ensures r.Ok? ==> r.value.bytes == bytes
    ensures r.Throws? ==> r.exception == WeakKeyException
  {
    if |bytes| * 8 < 256 then Throws(WeakKeyException) else Ok(HmacShaKey(bytes))
  }

  /** The JwtUtil bean: configuration plus the signing key `init` sets. */
  class JwtUtil {
    const secret: string
    const accessTokenExpirationMs: nat
    var signingKey: Option<Key>

    constructor (secret: string, accessTokenExpirationMs: nat)
      ensures this.secret == secret && this.accessTokenExpirationMs == accessTokenExpirationMs
      ensures signingKey.None?
    {
      this.secret := secret;
      this.accessTokenExpirationMs := accessTokenExpirationMs;
      signingKey := None;
    }

    /** `init()`: Base64-decodes the secret (the decoder is a parameter) and makes the key.
        A secret that is not Base64 ends in a RuntimeException; a key shorter than 256
        bits ends in the WeakKeyException of `hmacShaKeyFor`, which is not caught here. */
    method Init(base64Decode: string -> Option<seq<byte>>) returns (r: Result<()>)
      modifies this
      ensures base64Decode(secret).None? ==>
        r == Throws(RuntimeException("Invalid JWT secret key configuration."))
        && signingKey == old(signingKey)
      ensures base64Decode(secret).Some? ==>
        match HmacShaKeyFor(base64Decode(secret).value)
        case Ok(key) => r == Ok(()) && signingKey == Some(key)
        case Throws(e) => r == Throws(e) && signingKey == old(signingKey)
    {
      var keyBytes := base64Decode(secret);
      if keyBytes.None? {
        return Throws(RuntimeException("Invalid JWT secret key configuration."));
      }
      var key := HmacShaKeyFor(keyBytes.value);
      if key.Throws? {
        return Throws(key.exception);
      }
      signingKey := Some(key.value);
      r := Ok(());
    }

    /** The bean as the other components use it once `init` has succeeded. */
    function AsCodec(lib: JwtLibrary): (c: Codec)
      reads this
      requires signingKey.Some?
      ensures c.lib == lib && Some(c.signingKey) == signingKey
      ensures c.accessTokenExpirationMs == accessTokenExpirationMs
    {
      Codec(lib, signingKey.value, accessTokenExpirationMs)
    }
  }

  /** The expiry an access token issued at `issuedAt` carries, in whole seconds. */
  function TokenExpiry(jwt: Codec, issuedAt: nat): nat {
    NumericDate(issuedAt + jwt.accessTokenExpirationMs)
  }

  /** Issue-then-read round trip: until its expiry (whole seconds), a token issued for
      `username` yields its claims and that subject, and is not expired. */
  lemma AccessTokenRoundTrip(jwt: Codec, username: string, issuedAt: nat, at: nat)
    requires Sound(jwt.lib)
    requires at <= TokenExpiry(jwt, issuedAt)
    ensures var token := GenerateAccessToken(jwt, username, issuedAt);
      && ExtractAllClaims(jwt, token, at) == Ok(AsSigned(AccessClaims(username, issuedAt, jwt.accessTokenExpirationMs)))
      && GetUsernameFromToken(jwt, token, at) == Ok(username)
      && !IsTokenExpired(jwt, token, at, at)
  {
  }

  /** After its expiry, the same token makes claim extraction throw ExpiredJwtException
      (never an IllegalArgumentException) and counts as expired. */
  lemma ExpiredAccessToken(jwt: Codec, username: string, issuedAt: nat, at: nat)
    requires Sound(jwt.lib)
    requires TokenExpiry(jwt, issuedAt) < at
    ensures var token := GenerateAccessToken(jwt, username, issuedAt);
      && ExtractAllClaims(jwt, token, at) == Throws(ExpiredJwtException)
      && GetUsernameFromToken(jwt, token, at) == Throws(ExpiredJwtException)
      && forall comparedAt :: IsTokenExpired(jwt, token, at, comparedAt)
  {
  }

  /** Validation of an issued token, for every name and all three readings in order:
      expired before the subject is read, it throws ExpiredJwtException; expired before
      `new Date()` is read, it is false; otherwise it is true for the token's own user
      and false for every other name. */
  lemma ValidationOfIssuedToken(jwt: Codec, username: string, issuedAt: nat, name: string, clock: ValidationClock)
    requires Sound(jwt.lib) && InOrder(clock)
    ensures var token := GenerateAccessToken(jwt, username, issuedAt);
      ValidateAccessToken(jwt, token, name, clock) ==
        if TokenExpiry(jwt, issuedAt) < clock.subjectAt then Throws(ExpiredJwtException)
        else if TokenExpiry(jwt, issuedAt) < clock.comparedAt then Ok(false)
        else Ok(name == username)
  {
    var token := GenerateAccessToken(jwt, username, issuedAt);
    var e := TokenExpiry(jwt, issuedAt);
    if e < clock.subjectAt {
      ExpiredAccessToken(jwt, username, issuedAt, clock.subjectAt);
    } else {
      AccessTokenRoundTrip(jwt, username, issuedAt, clock.subjectAt);
      if e < clock.expiryParsedAt {
        ExpiredAccessToken(jwt, username, issuedAt, clock.expiryParsedAt);
      } else {
        AccessTokenRoundTrip(jwt, username, issuedAt, clock.expiryParsedAt);
      }
    }
  }

  /** An issued token is never the empty string, which the parser rejects outright. */
  lemma AccessTokenNotEmpty(jwt: Codec, username: string, issuedAt: nat)
    requires Sound(jwt.lib)
    ensures GenerateAccessToken(jwt, username, issuedAt) != ""
  {
    var c := AccessClaims(username, issuedAt, jwt.accessTokenExpirationMs);
    var o := jwt.lib.parseClaimsJws(jwt.lib.compact(c, jwt.signingKey), jwt.signingKey, 0);
    assert o.Parsed? || o.Expired?;
  }

  /** The empty token reads as an invalid token, not as an expired one. */
  lemma EmptyTokenIsInvalid(jwt: Codec, at: nat)
    requires Sound(jwt.lib)
    ensures ExtractAllClaims(jwt, "", at) == Throws(IllegalArgumentException("Invalid JWT token"))
    ensures forall comparedAt :: IsTokenExpired(jwt, "", at, comparedAt)
  {
  }

  // ----- a library that meets Sound -----------------------------------------------------

  /** `n` in unary. */
  function Unary(n: nat): (u: string)
    ensures |u| == n && forall i :: 0 <= i < n ==> u[i] == 'x'
  {
    seq(n, _ => 'x')
  }

  /** The number of leading `'x'` in `s`. */
  function CountX(s: string): (n: nat)
    ensures n <= |s|
  {
    if |s| > 0 && s[0] == 'x' then 1 + CountX(s[1..]) else 0
  }

  lemma {:induction false} CountXUnary(n: nat, rest: string)
    requires |rest| > 0 && rest[0] != 'x'
    ensures CountX(Unary(n) + rest) == n
  {
    if n > 0 {
      assert (Unary(n) + rest)[1..] == Unary(n - 1) + rest;
      CountXUnary(n - 1, rest);
    } else {
      assert Unary(n) + rest == rest;
    }
  }

  /** A token spelling the claims out: the whole seconds of `iat` and `exp` in unary,
      then the subject. */
  function EncodeClaims(c: Claims): string {
    "J" + Unary(c.issuedAt / 1000) + "." + Unary(c.expiration / 1000) + "." + c.subject
  }

  function DecodeClaims(token: string): Option<Claims> {
    if |token| == 0 || token[0] != 'J' then None
    else
      var t := token[1..];
      var i := CountX(t);
      if i == |t| || t[i] != '.' then None
      else
        var u := t[i + 1..];
        var e := CountX(u);
        if e == |u| || u[e] != '.' then None
        else Some(Claims(u[e + 1..], i * 1000, e * 1000))
  }

  lemma DecodeEncode(c: Claims)
    ensures DecodeClaims(EncodeClaims(c)) == Some(AsSigned(c))
  {
    var rest := "." + c.subject;
    var u := Unary(c.expiration / 1000) + rest;
    var t := Unary(c.issuedAt / 1000) + "." + u;
    assert EncodeClaims(c) == "J" + t;
    assert EncodeClaims(c)[1..] == t;
    CountXUnary(c.issuedAt / 1000, "." + u);
    assert t == Unary(c.issuedAt / 1000) + ("." + u);
    assert t[c.issuedAt / 1000 + 1..] == u;
    CountXUnary(c.expiration / 1000, rest);
    assert u[c.expiration / 1000 + 1..] == c.subject;
  }

  /** A library that signs by spelling the claims out and parses by reading them back,
      ignoring the key. */
  function SpellingLibrary(): JwtLibrary {
    JwtLibrary(
      (c: Claims, k: Key) => EncodeClaims(c),
      (token: string, k: Key, now: nat) =>
        if token == "" then EmptyOrInvalid
        else match DecodeClaims(token)
          case None => Malformed
          case Some(d) => if d.expiration < now then Expired(d) else Parsed(d))
  }

  /** `Sound` can be met, so the lemmas that assume it are not vacuous. */
  lemma SoundIsSatisfiable()
    ensures Sound(SpellingLibrary())
  {
    var lib := SpellingLibrary();
    forall c: Claims, k: Key, now: nat
      ensures lib.parseClaimsJws(lib.compact(c, k), k, now) ==
        if NumericDate(c.expiration) < now then Expired(AsSigned(c)) else Parsed(AsSigned(c))
    {
      DecodeEncode(c);
    }
  }
}
