/** AuthService: sign-up and log-in. Sign-up stores a new user with the encoded password
    and issues an access token; log-in authenticates the credentials first and only then
    issues an access token. The password encoder is a parameter, and the authentication
    manager is Spring's default provider for a user-details service: it loads the user,
    checks the password with the encoder, and hides an unknown user behind the same
    BadCredentialsException as a wrong password. */
module AuthService {
  import opened Lang
  import opened Entities
  import opened Repositories
  import opened Jwt
  import opened UserDetailsService

  datatype SignupRequest = SignupRequest(username: string, password: string, email: string)
  datatype LoginRequest = LoginRequest(username: string, password: string)
  datatype AuthResponse = AuthResponse(message: string, token: Option<string>)

  /** A PasswordEncoder: `encode(raw)`, and `matches(raw, encoded)`. */
  datatype PasswordEncoder = PasswordEncoder(encode: string -> string, matches: (string, string) -> bool)

  const AlreadyExistsMessage := "User Already exists"
  const RegisteredMessage := "UserSuccessfully Registered"
  const LoginMessage := "Login successful"

  /** `authenticationManager.authenticate(new UsernamePasswordAuthenticationToken(username,
      password))`. */
  function Authenticate(users: seq<User>, encoder: PasswordEncoder, username: string, password: string)
    : (r: Result<Authentication>)
    ensures r.Ok? <==>
      (LoadUserByUsername(users, username).Ok?
       && encoder.matches(password, LoadUserByUsername(users, username).value.password))
    ensures r.Ok? ==> r.value == AuthenticatedToken(LoadUserByUsername(users, username).value)
    ensures FindUserByUsername(users, username).None? ==> r == Throws(BadCredentialsException)
  {
    match LoadUserByUsername(users, username)
    case Throws(e) =>
      if e.UsernameNotFoundException? then Throws(BadCredentialsException)
      else Throws(InternalAuthenticationServiceException)
    case Ok(details) =>
      if encoder.matches(password, details.password) then Ok(AuthenticatedToken(details))
      else Throws(BadCredentialsException)
  }

  /** The user `registerUser` builds: no photo, no roles, the password encoded. */
  function NewUser(request: SignupRequest, encoder: PasswordEncoder, generatedId: string): (u: User)
    ensures u.username == request.username && u.email == request.email
    ensures u.password == encoder.encode(request.password)
    ensures u.roles == {} && u.profilePhotoUrl.None? && u.profilePhotoPublicId.None?
  {
    User(generatedId, request.username, request.email, encoder.encode(request.password), None, None, {})
  }

  /** `registerUser(signupRequest)` when the clock reads `now`: the new collection and
      the response. Only the username is checked beforehand; an email that is already
      taken reaches the unique index, which refuses the insert. */
  function Registration(users: seq<User>, encoder: PasswordEncoder, jwt: Codec, request: SignupRequest,
                        generatedId: string, now: nat)
    : (r: (seq<User>, Result<AuthResponse>))
    ensures FindUserByUsername(users, request.username).Some? ==>
      r == (users, Ok(AuthResponse(AlreadyExistsMessage, None)))
    ensures FindUserByUsername(users, request.username).None? ==>
      (r.1.Throws? <==> exists i :: 0 <= i < |users| && (users[i].email == request.email || users[i].id == generatedId))
    ensures r.1.Throws? ==> r.0 == users && r.1.exception == DuplicateKeyException
    ensures r.1.Ok? && FindUserByUsername(users, request.username).None? ==>
      && r.0 == users + [NewUser(request, encoder, generatedId)]
      && r.1.value == AuthResponse(RegisteredMessage, Some(GenerateAccessToken(jwt, request.username, now)))
  {
    if FindUserByUsername(users, request.username).Some? then
      (users, Ok(AuthResponse(AlreadyExistsMessage, None)))
    else
      var user := NewUser(request, encoder, generatedId);
      match InsertUser(users, user)
      case Throws(e) => (users, Throws(e))
      case Ok(s) => (s, Ok(AuthResponse(RegisteredMessage, Some(GenerateAccessToken(jwt, user.username, now)))))
  }

  /** `registerUser` on the `users` collection. */
  method RegisterUser(userRepo: UserRepo, encoder: PasswordEncoder, jwt: Codec, request: SignupRequest,
                      generatedId: string, now: nat)
    returns (r: Result<AuthResponse>)
    requires userRepo.Valid()
    modifies userRepo
    ensures userRepo.Valid()
    ensures (userRepo.users, r) == Registration(old(userRepo.users), encoder, jwt, request, generatedId, now)
  {
    if FindUserByUsername(userRepo.users, request.username).Some? {
      return Ok(AuthResponse(AlreadyExistsMessage, None));
    }
    var user := NewUser(request, encoder, generatedId);
    var saved := InsertUser(userRepo.users, user);
    if saved.Throws? {
      return Throws(saved.exception);
    }
    InsertUserKeepsValid(userRepo.users, user);
    userRepo.users := saved.value;
    var token := GenerateAccessToken(jwt, user.username, now);
    r := Ok(AuthResponse(RegisteredMessage, Some(token)));
  }

  /** `loginUser(loginRequest)` when the clock reads `now`: authentication comes first,
      and its exception ends the call before any token is made. Reads only. */
  function LoginUser(users: seq<User>, encoder: PasswordEncoder, jwt: Codec, request: LoginRequest, now: nat)
    : (r: Result<AuthResponse>)
    ensures Authenticate(users, encoder, request.username, request.password).Throws? ==>
      r == Throws(Authenticate(users, encoder, request.username, request.password).exception)
    ensures r.Ok? <==> Authenticate(users, encoder, request.username, request.password).Ok?
    ensures r.Ok? ==> r.value == AuthResponse(LoginMessage, Some(GenerateAccessToken(jwt, request.username, now)))
  {
    var authentication :- Authenticate(users, encoder, request.username, request.password);
    match FindUserByUsername(users, request.username)
    case None => Throws(NoSuchElementException)
    case Some(u) => Ok(AuthResponse(LoginMessage, Some(GenerateAccessToken(jwt, u.username, now))))
  }

  // ----- properties -------------------------------------------------------------------

  /** Sign-up keeps the unique indexes of the `users` collection. */
  lemma RegistrationKeepsValid(users: seq<User>, encoder: PasswordEncoder, jwt: Codec, request: SignupRequest,
                               generatedId: string, now: nat)
    requires UsersValid(users)
    ensures UsersValid(Registration(users, encoder, jwt, request, generatedId, now).0)
  {
    if FindUserByUsername(users, request.username).None? {
      var user := NewUser(request, encoder, generatedId);
      if InsertUser(users, user).Ok? {
        InsertUserKeepsValid(users, user);
      }
    }
  }

  /** A new username, email and id are all a sign-up needs; the user then is stored
      and is found under that name. */
  lemma FreshRegistrationSucceeds(users: seq<User>, encoder: PasswordEncoder, jwt: Codec, request: SignupRequest,
                                  generatedId: string, now: nat)
    requires UsersValid(users)
    requires forall i :: 0 <= i < |users| ==>
      users[i].username != request.username && users[i].email != request.email && users[i].id != generatedId
    ensures var (s, r) := Registration(users, encoder, jwt, request, generatedId, now);
      && r == Ok(AuthResponse(RegisteredMessage, Some(GenerateAccessToken(jwt, request.username, now))))
      && FindUserByUsername(s, request.username) == Some(NewUser(request, encoder, generatedId))
  {
    var user := NewUser(request, encoder, generatedId);
    var s := Registration(users, encoder, jwt, request, generatedId, now).0;
    RegistrationKeepsValid(users, encoder, jwt, request, generatedId, now);
    assert s[|users|] == user;
    FindUserByUsernameUnique(s, user);
  }

  /** The token a sign-up returns names the new user until it expires. */
  lemma RegistrationTokenNamesUser(users: seq<User>, encoder: PasswordEncoder, jwt: Codec, request: SignupRequest,
                                   generatedId: string, now: nat, at: nat)
    requires Sound(jwt.lib)
    requires Registration(users, encoder, jwt, request, generatedId, now).1.Ok?
    requires Registration(users, encoder, jwt, request, generatedId, now).1.value.token.Some?
    requires at <= NumericDate(now + jwt.accessTokenExpirationMs)
    ensures GetUsernameFromToken(jwt, Registration(users, encoder, jwt, request, generatedId, now).1.value.token.value, at)
         == Ok(request.username)
  {
    AccessTokenRoundTrip(jwt, request.username, now, at);
  }

  /** A wrong password and an unknown user end the same way, with no token. */
  lemma RejectedLoginIssuesNoToken(users: seq<User>, encoder: PasswordEncoder, jwt: Codec, request: LoginRequest, now: nat)
    requires FindUserByUsername(users, request.username).None?
      || (LoadUserByUsername(users, request.username).Ok?
          && !encoder.matches(request.password, LoadUserByUsername(users, request.username).value.password))
    ensures LoginUser(users, encoder, jwt, request, now) == Throws(BadCredentialsException)
  {
  }
}
