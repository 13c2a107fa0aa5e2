/** JwtAuthenticationFilter: for each request, reads a bearer token from the
    `Authorization` header (section 2.1 of RFC 6750), and, when the security context
    holds no authentication yet, installs one for the token's user once the token has
    been validated against that user. The clock is read when the subject is extracted
    (`parsedAt`), and three more times during validation (a `ValidationClock`). */
module JwtAuthenticationFilter {
  import opened Lang
  import opened Entities
  import opened Repositories
  import opened Jwt
  import opened UserDetailsService

  const BearerPrefix := "Bearer "

  /** The token of an `Authorization` header: the text after `"Bearer "`. */
  function BearerToken(authHeader: Option<string>): (r: Option<string>)
    ensures r.Some? <==> authHeader.Some? && StartsWith(authHeader.value, BearerPrefix)
    ensures r.Some? ==> authHeader.value == BearerPrefix + r.value
  {
    if authHeader.Some? && StartsWith(authHeader.value, BearerPrefix) then
      assert authHeader.value == authHeader.value[..7] + authHeader.value[7..];
      Some(authHeader.value[7..])
    else None
  }

  /** The try block around `getUsernameFromToken`: an IllegalArgumentException or an
      ExpiredJwtException leaves the name null; any other exception escapes. */
  function CaughtUsername(jwt: Codec, token: string, now: nat): (r: Result<Option<string>>)
    ensures r == Ok(None) <==>
      (GetUsernameFromToken(jwt, token, now).Throws? &&
       (GetUsernameFromToken(jwt, token, now).exception.IllegalArgumentException?
        || GetUsernameFromToken(jwt, token, now).exception == ExpiredJwtException))
    ensures r.Ok? && r.value.Some? <==> GetUsernameFromToken(jwt, token, now).Ok?
    ensures r.Ok? && r.value.Some? ==> r.value.value == GetUsernameFromToken(jwt, token, now).value
    ensures r.Throws? ==> r.exception == OtherJwtException
  {
    match GetUsernameFromToken(jwt, token, now)
    case Ok(name) => Ok(Some(name))
    case Throws(e) =>
      if e.IllegalArgumentException? || e == ExpiredJwtException then Ok(None) else Throws(e)
  }

  /** One pass of `doFilterInternal`: the authentication the context holds afterwards,
      and `Ok(())` when the chain is continued or the exception that escapes instead. */
  function FilterRequest(jwt: Codec, users: seq<User>, authHeader: Option<string>,
                         current: Option<Authentication>, parsedAt: nat, validation: ValidationClock)
    : (r: (Option<Authentication>, Result<()>))
    ensures current.Some? ==> r.0 == current
    ensures r.0 != current ==> r.0.Some? && r.0.value.IsAuthenticated() && r.1.Ok?
  {
    match BearerToken(authHeader)
    case None => (current, Ok(()))
    case Some(token) =>
      match CaughtUsername(jwt, token, parsedAt)
      case Throws(e) => (current, Throws(e))
      case Ok(None) => (current, Ok(()))
      case Ok(Some(name)) =>
        if current.Some? then (current, Ok(()))
        else match LoadUserByUsername(users, name)
          case Throws(e) => (current, Throws(e))
          case Ok(details) =>
            match ValidateAccessToken(jwt, token, details.username, validation)
            case Throws(e) => (current, Throws(e))
            case Ok(valid) => (if valid then Some(AuthenticatedToken(details)) else current, Ok(()))
  }

  /** The per-thread security context. */
  class SecurityContext {
    var authentication: Option<Authentication>

    constructor ()
      ensures authentication.None?
    {
      authentication := None;
    }
  }

  /** `doFilterInternal(request, response, filterChain)`. */
  method DoFilterInternal(jwt: Codec, userRepo: UserRepo, authHeader: Option<string>,
                          context: SecurityContext, parsedAt: nat, validation: ValidationClock)
    returns (r: Result<()>)
    modifies context
    ensures (context.authentication, r) ==
      FilterRequest(jwt, userRepo.users, authHeader, old(context.authentication), parsedAt, validation)
  {
    var token: Option<string> := None;
    var usernameFromToken: Option<string> := None;
    if authHeader.Some? && StartsWith(authHeader.value, BearerPrefix) {
      token := Some(authHeader.value[7..]);
      var extracted := GetUsernameFromToken(jwt, token.value, parsedAt);
      if extracted.Ok? {
        usernameFromToken := Some(extracted.value);
      } else if !(extracted.exception.IllegalArgumentException? || extracted.exception == ExpiredJwtException) {
        return Throws(extracted.exception);
      }
      if usernameFromToken.Some? && context.authentication.None? {
        var userDetails := LoadUserByUsername(userRepo.users, usernameFromToken.value);
        if userDetails.Throws? {
          return Throws(userDetails.exception);
        }
        var valid := ValidateAccessToken(jwt, token.value, userDetails.value.username, validation);
        if valid.Throws? {
          return Throws(valid.exception);
        }
        if valid.value {
          context.authentication := Some(AuthenticatedToken(userDetails.value));
        }
      }
    }
    r := Ok(());
  }

  // ----- properties -------------------------------------------------------------------

  /** The header a client sends for a token yields exactly that token. */
  lemma BearerTokenRoundTrip(token: string)
    ensures BearerToken(Some(BearerPrefix + token)) == Some(token)
  {
    assert (BearerPrefix + token)[..7] == BearerPrefix;
  }

  /** Without a bearer header, nothing changes and the chain continues. */
  lemma NoBearerHeaderPassesThrough(jwt: Codec, users: seq<User>, authHeader: Option<string>,
                                    current: Option<Authentication>, parsedAt: nat, validation: ValidationClock)
    requires authHeader.None? || !StartsWith(authHeader.value, BearerPrefix)
    ensures FilterRequest(jwt, users, authHeader, current, parsedAt, validation) == (current, Ok(()))
  {
  }

  /** An invalid or expired token is swallowed: nothing changes and the chain continues. */
  lemma RejectedTokenIsSwallowed(jwt: Codec, users: seq<User>, token: string,
                                 current: Option<Authentication>, parsedAt: nat, validation: ValidationClock)
    requires GetUsernameFromToken(jwt, token, parsedAt).Throws?
    requires GetUsernameFromToken(jwt, token, parsedAt).exception.IllegalArgumentException?
          || GetUsernameFromToken(jwt, token, parsedAt).exception == ExpiredJwtException
    ensures FilterRequest(jwt, users, Some(BearerPrefix + token), current, parsedAt, validation) == (current, Ok(()))
  {
    BearerTokenRoundTrip(token);
  }

  /** An existing authentication is kept, and the user collection is not consulted:
      the outcome is the same whatever users are stored. */
  lemma ExistingAuthenticationKept(jwt: Codec, users: seq<User>, others: seq<User>, authHeader: Option<string>,
                                   current: Option<Authentication>, parsedAt: nat, validation: ValidationClock)
    requires current.Some?
    ensures FilterRequest(jwt, users, authHeader, current, parsedAt, validation).0 == current
    ensures FilterRequest(jwt, users, authHeader, current, parsedAt, validation)
         == FilterRequest(jwt, others, authHeader, current, parsedAt, validation)
  {
  }

  /** An identity is installed only for a bearer token whose subject names a stored
      user and which validates against that user's name; the identity carries that
      user's details and authorities. */
  lemma InstalledOnlyAfterValidation(jwt: Codec, users: seq<User>, authHeader: Option<string>,
                                     current: Option<Authentication>, parsedAt: nat, validation: ValidationClock)
    requires FilterRequest(jwt, users, authHeader, current, parsedAt, validation).0 != current
    ensures current.None? && BearerToken(authHeader).Some?
    ensures var token := BearerToken(authHeader).value;
      && GetUsernameFromToken(jwt, token, parsedAt).Ok?
      && var details := LoadUserByUsername(users, GetUsernameFromToken(jwt, token, parsedAt).value);
      && details.Ok?
      && ValidateAccessToken(jwt, token, details.value.username, validation) == Ok(true)
      && FilterRequest(jwt, users, authHeader, current, parsedAt, validation)
         == (Some(AuthenticatedToken(details.value)), Ok(()))
  {
  }

  /** A token that names a stored user but fails validation against that user
      installs nothing, and the chain continues. */
  lemma FailedValidationPassesThrough(jwt: Codec, users: seq<User>, token: string, details: UserDetails,
                                      parsedAt: nat, validation: ValidationClock)
    requires GetUsernameFromToken(jwt, token, parsedAt).Ok?
    requires LoadUserByUsername(users, GetUsernameFromToken(jwt, token, parsedAt).value) == Ok(details)
    requires ValidateAccessToken(jwt, token, details.username, validation) == Ok(false)
    ensures FilterRequest(jwt, users, Some(BearerPrefix + token), None, parsedAt, validation) == (None, Ok(()))
  {
    BearerTokenRoundTrip(token);
  }

  /** A well-formed token for a user that is no longer stored makes the lookup's
      UsernameNotFoundException escape: the chain is not continued. */
  lemma UnknownUserEscapes(jwt: Codec, users: seq<User>, token: string, parsedAt: nat, validation: ValidationClock)
    requires GetUsernameFromToken(jwt, token, parsedAt).Ok?
    requires FindUserByUsername(users, GetUsernameFromToken(jwt, token, parsedAt).value).None?
    ensures FilterRequest(jwt, users, Some(BearerPrefix + token), None, parsedAt, validation) ==
      (None, Throws(UsernameNotFoundException("User not found: " + GetUsernameFromToken(jwt, token, parsedAt).value)))
  {
    BearerTokenRoundTrip(token);
  }

  /** The readings of one filter pass, in the order it takes them. */
  predicate ReadingsInOrder(parsedAt: nat, validation: ValidationClock) {
    parsedAt <= validation.subjectAt && InOrder(validation)
  }

  /** A token issued for a stored user and presented before it expires authenticates
      that user with the authorities of the user's roles. */
  lemma IssuedTokenAuthenticates(jwt: Codec, users: seq<User>, u: User, issuedAt: nat, parsedAt: nat, validation: ValidationClock)
    requires Sound(jwt.lib) && UsersValid(users) && u in users && u.username != ""
    requires ReadingsInOrder(parsedAt, validation) && validation.comparedAt <= TokenExpiry(jwt, issuedAt)
    ensures var token := GenerateAccessToken(jwt, u.username, issuedAt);
      FilterRequest(jwt, users, Some(BearerPrefix + token), None, parsedAt, validation) ==
        (Some(AuthenticatedToken(UserDetails(u.username, u.password, Authorities(u.roles)))), Ok(()))
  {
    var token := GenerateAccessToken(jwt, u.username, issuedAt);
    BearerTokenRoundTrip(token);
    AccessTokenRoundTrip(jwt, u.username, issuedAt, parsedAt);
    ValidationOfIssuedToken(jwt, u.username, issuedAt, u.username, validation);
    LoadStoredUser(users, u);
  }

  /** A token that expires after the subject is read by validation but before the
      expiration is compared makes validation false: nothing is installed and the
      chain continues. */
  lemma ExpiryDuringValidationPassesThrough(jwt: Codec, users: seq<User>, u: User, issuedAt: nat,
                                            parsedAt: nat, validation: ValidationClock)
    requires Sound(jwt.lib) && UsersValid(users) && u in users && u.username != ""
    requires ReadingsInOrder(parsedAt, validation)
    requires validation.subjectAt <= TokenExpiry(jwt, issuedAt) < validation.comparedAt
    ensures var token := GenerateAccessToken(jwt, u.username, issuedAt);
      FilterRequest(jwt, users, Some(BearerPrefix + token), None, parsedAt, validation) == (None, Ok(()))
  {
    var token := GenerateAccessToken(jwt, u.username, issuedAt);
    BearerTokenRoundTrip(token);
    AccessTokenRoundTrip(jwt, u.username, issuedAt, parsedAt);
    ValidationOfIssuedToken(jwt, u.username, issuedAt, u.username, validation);
    LoadStoredUser(users, u);
  }

  /** A token that expires between subject extraction and validation's own first parse
      makes validation's ExpiredJwtException escape the filter, because it is thrown
      outside the try block. */
  lemma ExpiryBetweenReadsEscapes(jwt: Codec, users: seq<User>, u: User, issuedAt: nat,
                                  parsedAt: nat, validation: ValidationClock)
    requires Sound(jwt.lib) && UsersValid(users) && u in users && u.username != ""
    requires ReadingsInOrder(parsedAt, validation)
    requires parsedAt <= TokenExpiry(jwt, issuedAt) < validation.subjectAt
    ensures var token := GenerateAccessToken(jwt, u.username, issuedAt);
      FilterRequest(jwt, users, Some(BearerPrefix + token), None, parsedAt, validation) ==
        (None, Throws(ExpiredJwtException))
  {
    var token := GenerateAccessToken(jwt, u.username, issuedAt);
    BearerTokenRoundTrip(token);
    AccessTokenRoundTrip(jwt, u.username, issuedAt, parsedAt);
    ValidationOfIssuedToken(jwt, u.username, issuedAt, u.username, validation);
    LoadStoredUser(users, u);
  }
}
