/** End-to-end properties that span several services: sign-up, login, the
    per-request filter and the URL rules taken together. */
module Scenarios {
  import opened Lang
  import opened Entities
  import opened Repositories
  import opened Jwt
  import opened UserDetailsService
  import opened JwtAuthenticationFilter
  import opened AuthService
  import opened SecurityConfig
  import opened BlogService
  import opened UserService

  /** A user who has just signed up can log in with the same password, and is given a
      token for their name. */
  lemma SignupThenLogin(users: seq<User>, encoder: PasswordEncoder, jwt: Codec, request: SignupRequest,
                        generatedId: string, signedUpAt: nat, loggedInAt: nat)
    requires UsersValid(users) && request.username != ""
    requires forall i :: 0 <= i < |users| ==>
      users[i].username != request.username && users[i].email != request.email && users[i].id != generatedId
    requires encoder.matches(request.password, encoder.encode(request.password))
    ensures var s := Registration(users, encoder, jwt, request, generatedId, signedUpAt).0;
      LoginUser(s, encoder, jwt, LoginRequest(request.username, request.password), loggedInAt)
        == Ok(AuthResponse(LoginMessage, Some(GenerateAccessToken(jwt, request.username, loggedInAt))))
  {
    var s := Registration(users, encoder, jwt, request, generatedId, signedUpAt).0;
    FreshRegistrationSucceeds(users, encoder, jwt, request, generatedId, signedUpAt);
    RegistrationKeepsValid(users, encoder, jwt, request, generatedId, signedUpAt);
    var u := NewUser(request, encoder, generatedId);
    LoadStoredUser(s, u);
  }

  /** An authenticated caller without authorities may edit under `/api/blogs` but may
      not create a blog. */
  lemma RolelessCallerCannotCreateBlog(details: UserDetails)
    requires details.authorities == {}
    ensures !Allowed(Post, "/api/blogs", Some(AuthenticatedToken(details)))
    ensures Allowed(Put, "/api/blogs", Some(AuthenticatedToken(details)))
  {
    CreateBlogNeedsRole();
    EditsNeedLogin(Put, "/api/blogs");
  }

  /** Sign-up grants no role. The token it returns authenticates the new user with no
      authorities, so that user may edit under `/api/blogs` but may not create a blog. */
  lemma SignedUpUserCannotCreateBlog(users: seq<User>, encoder: PasswordEncoder, jwt: Codec, request: SignupRequest,
                                     generatedId: string, now: nat, parsedAt: nat, validation: ValidationClock)
    requires Sound(jwt.lib) && UsersValid(users) && request.username != ""
    requires forall i :: 0 <= i < |users| ==>
      users[i].username != request.username && users[i].email != request.email && users[i].id != generatedId
    requires ReadingsInOrder(parsedAt, validation) && validation.comparedAt <= TokenExpiry(jwt, now)
    ensures var (s, r) := Registration(users, encoder, jwt, request, generatedId, now);
      && r.Ok? && r.value.token.Some?
      && var (auth, outcome) := FilterRequest(jwt, s, Some(BearerPrefix + r.value.token.value), None, parsedAt, validation);
      && outcome.Ok? && auth.Some? && auth.value.GetName() == request.username
      && auth.value.GetAuthorities() == {}
      && !Allowed(Post, "/api/blogs", auth)
      && Allowed(Put, "/api/blogs", auth)
  {
    var (s, r) := Registration(users, encoder, jwt, request, generatedId, now);
    var u := NewUser(request, encoder, generatedId);
    FreshRegistrationSucceeds(users, encoder, jwt, request, generatedId, now);
    RegistrationKeepsValid(users, encoder, jwt, request, generatedId, now);
    assert s == users + [u] && s[|users|] == u;
    IssuedTokenAuthenticates(jwt, s, u, now, parsedAt, validation);
    var details := UserDetails(u.username, u.password, Authorities(u.roles));
    assert details.authorities == {};
    RolelessCallerCannotCreateBlog(details);
  }

  /** `createBlog` and the user operations name the caller differently: they agree on
      every caller except the anonymous principal, which `createBlog` would accept as
      author "anonymousUser" and `getCurrentUsername` refuses. */
  lemma CallerNamesAgree(auth: Option<Authentication>)
    ensures GetCurrentUsername(auth).Ok? ==> PrincipalName(auth) == GetCurrentUsername(auth)
    ensures PrincipalName(auth).Ok? && GetCurrentUsername(auth).Throws? ==>
      auth.value.GetPrincipal() == NamePrincipal("anonymousUser") && PrincipalName(auth) == Ok("anonymousUser")
  {
    if auth.Some? && auth.value.IsAuthenticated() && auth.value.GetPrincipal().NamePrincipal? {
      assert auth.value.GetName() == auth.value.GetPrincipal().name;
    }
  }

  /** The anonymous request never reaches `createBlog`: the URL rules refuse it first. */
  lemma AnonymousCannotCreateBlog(blogs: seq<Blog>, blog: Blog, generatedId: string, now: nat)
    ensures !Allowed(Post, "/api/blogs", Some(AnonymousToken))
    ensures PrincipalName(Some(AnonymousToken)) == Ok("anonymousUser")
    ensures GetCurrentUsername(Some(AnonymousToken)).Throws?
  {
    CreateBlogNeedsRole();
  }
}
