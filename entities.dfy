/** The records of the blog backend (the documents of its three collections) and the
    Spring Security values the authentication code builds: user details and the
    authentication held by the security context. */
module Entities {
  import opened Lang

  /** The role enum; a role's authority name is its constant name. */
  datatype Role = RoleUser | RoleAdmin {
    function Name(): (n: string)
      ensures StartsWith(n, "ROLE_")
    {
      match this
      case RoleUser => "ROLE_USER"
      case RoleAdmin => "ROLE_ADMIN"
    }
  }

  /** A document of the `users` collection. `username`, `email` and `id` are unique. */
  datatype User = User(
    id: string,
    username: string,
    email: string,
    password: string,  // the encoded password
    profilePhotoUrl: Option<string>,
    profilePhotoPublicId: Option<string>,
    roles: set<Role>)

  /** A document of the `blogs` collection, with the fields the services use. Dates are
      milliseconds since the epoch. `id` is absent on a blog that has not been saved. */
  datatype Blog = Blog(
    id: Option<string>,
    authorUsername: Option<string>,
    topic: string,
    title: string,
    subtitle: string,
    content: string,
    createdAt: nat,
    updatedAt: nat,
    isPublished: bool)

  /** A document of the `refresh_tokens` collection; `token` has a unique index. */
  datatype RefreshToken = RefreshToken(id: string, token: string, username: string, expiryDate: nat)

  /** Spring Security's `UserDetails` as built by the user-details service. */
  datatype UserDetails = UserDetails(username: string, password: string, authorities: set<string>)

  /** The principal of an authentication: a `UserDetails`, or a plain name. */
  datatype Principal = DetailsPrincipal(details: UserDetails) | NamePrincipal(name: string)

  /** The authentication object held by the security context. */
  datatype Authentication =
      // a UsernamePasswordAuthenticationToken
    | PasswordToken(principal: Principal, authorities: set<string>, authenticated: bool)
      // what Spring's anonymous filter installs when no one is logged in
    | AnonymousToken
  {
    function GetPrincipal(): Principal {
      if AnonymousToken? then NamePrincipal("anonymousUser") else principal
    }

    function GetAuthorities(): set<string> {
      if AnonymousToken? then {"ROLE_ANONYMOUS"} else authorities
    }

    predicate IsAuthenticated() {
      AnonymousToken? || authenticated
    }

    /** `getName()`: the user name of a `UserDetails` principal, else the principal's text. */
    function GetName(): string {
      match GetPrincipal()
      case DetailsPrincipal(d) => d.username
      case NamePrincipal(n) => n
    }
  }

  /** The three-argument UsernamePasswordAuthenticationToken constructor, which marks the
      token authenticated. */
  function AuthenticatedToken(details: UserDetails): (a: Authentication)
    ensures a.IsAuthenticated() && a.GetName() == details.username
    ensures a.GetAuthorities() == details.authorities
  {
    PasswordToken(DetailsPrincipal(details), details.authorities, true)
  }
}
