# BlogApp security and record services, modelled in Dafny

This project models the core of the BlogApp backend, a Spring Boot service over MongoDB. It covers:

- the refresh-token store (`RefreshTokenService`);
- the access-token wrapper around the JWT library (`JwtUtil`, RFC 7519 claims `sub`, `iat` and `exp`, HS256 as in section 3.2 of RFC 7518);
- the per-request bearer-token filter (`JwtAuthenticationFilter`, section 2.1 of RFC 6750);
- user lookup for Spring Security (`MyUserDetailsService`);
- sign-up and login (`AuthService`);
- the URL authorization table (`SecurityConfig`);
- the ownership and self guards (`BlogSecurityService`, `UserSecurityService`);
- the blog, user and image services (`BlogService`, `UserService`, `ImageUploadService`).

The model takes the form of the code:

- State the code changes in place is a class with a sequence field: the `users`, `blogs` and `refresh_tokens` collections (`Repositories.UserRepo`, `Repositories.BlogRepo`, `RefreshTokens.RefreshTokenService`), the signing key of `JwtUtil`, and the security context (`JwtAuthenticationFilter.SecurityContext`).
- Each state-changing operation is a method. Its `ensures` ties the new state and the result to a pure function of the old state, such as `UserService.UpdateProfilePhotoIn` or `JwtAuthenticationFilter.FilterRequest`. The properties the code promises are lemmas about those functions.
- The unique indexes of the collections are enforced as invariants: `@Indexed(unique = true)` on `username` and `email`, and on the refresh token's `token` value. An insert or upsert that would break one is refused with `DuplicateKeyException` and changes nothing.
- MongoDB `save` inserts a document without an id under a store-assigned id, and replaces the stored document with the same id otherwise.

Everything the code reaches outside itself is a parameter:

- the clock: one `nat` per reading of `System.currentTimeMillis`, `new Date()` or `Instant.now()`;
- `UUID.randomUUID()` and the document id the store assigns;
- the Base64 decoder;
- the JWT library: a `compact` function plus a `parseClaimsJws` outcome. The ghost predicate `Jwt.Sound` states what is relied on: a round trip truncates dates to whole seconds, a token is expired when its `exp` is before the parse's reading, and the empty string is refused as empty. `Jwt.SoundIsSatisfiable` exhibits a library that meets it;
- the password encoder and the Cloudinary client.

Java exceptions are values of one `Exception` datatype, carried by `Result<T> = Ok(value) | Throws(exception)`.

Files (one module each):

- `lang.dfy`: Option, Result, exceptions, ASCII case folding.
- `seqs.dfy`: filtering, searching and uniqueness on sequences.
- `entities.dfy`: the documents, `UserDetails` and `Authentication`.
- `repositories.dfy`: the collections.
- One file per service.
- `scenarios.dfy`: properties that span several services.

## Model

| member | source | states |
|---|---|---|
| Entities.Role.Name | src/main/java/in/raghunath/blogapp/service/MyUserDetailsService.java:37-39 | every role name, used as an authority, carries the "ROLE_" prefix the URL rules test for |
| Entities.AuthenticatedToken | src/main/java/in/raghunath/blogapp/filter/JwtAuthenticationFilter.java:62-67 | the token built from loaded details is authenticated, named by the details' username and holds exactly their authorities |
| Repositories.FindUserByUsername | src/main/java/in/raghunath/blogapp/service/UserService.java:60-62 | the user found has that username; none is found exactly when no stored user has it |
| Repositories.FindUserById | src/main/java/in/raghunath/blogapp/service/UserSecurityService.java:34-38 | the user found has that id; none is found exactly when no stored user has it |
| Repositories.ExistsUserById | src/main/java/in/raghunath/blogapp/service/UserService.java:66-68 | an id exists exactly when the lookup by id finds a user |
| Repositories.InsertUser | src/main/java/in/raghunath/blogapp/model/User.java:22-32 | a new user is appended unless it shares an id, username or email with a stored user, in which case the insert throws DuplicateKeyException |
| Repositories.SaveUser | src/main/java/in/raghunath/blogapp/model/User.java:22-32 | an upsert by id: the saved user is stored, every user with another id is kept, and a clash with another user's username or email throws DuplicateKeyException |
| Repositories.SaveUserKeepsValid | src/main/java/in/raghunath/blogapp/model/User.java:25-32 | a successful save keeps usernames and emails unique, and the saved user is the one found by its id |
| Repositories.SaveStoredUserSucceeds | src/main/java/in/raghunath/blogapp/service/UserService.java:114 | re-saving a stored user with the same id, username and email never clashes |
| Repositories.InsertUserKeepsValid | src/main/java/in/raghunath/blogapp/model/User.java:25-32 | a successful insert keeps ids, usernames and emails unique |
| Repositories.DeleteUserKeepsValid | src/main/java/in/raghunath/blogapp/service/UserService.java:86 | deleting by id keeps the unique indexes |
| Repositories.DeleteUserById | src/main/java/in/raghunath/blogapp/service/UserService.java:86 | every remaining user is a stored one with another id, and every stored user with another id remains |
| Repositories.FindUserByUsernameUnique | src/main/java/in/raghunath/blogapp/model/User.java:25-27 | under the unique index, a stored user is the one found by its username |
| Repositories.FindUserByIdUnique | src/main/java/in/raghunath/blogapp/model/User.java:22-23 | a stored user is the one found by its id |
| Repositories.SaveBlog | src/main/java/in/raghunath/blogapp/service/BlogService.java:48 | a blog without an id is inserted under the assigned id, refused only when that id is taken; a blog with an id replaces the stored one; other blogs are kept |
| Repositories.FindBlogById | src/main/java/in/raghunath/blogapp/service/BlogService.java:60-64 | the blog found has that id; none is found exactly when no stored blog has it |
| Repositories.ExistsBlogById | src/main/java/in/raghunath/blogapp/service/BlogService.java:82-85 | an id exists exactly when the lookup by id finds a blog |
| Repositories.DeleteBlogById | src/main/java/in/raghunath/blogapp/service/BlogService.java:86 | every remaining blog is a stored one with another id, and every stored blog with another id remains |
| Repositories.SaveBlogKeepsValid | src/main/java/in/raghunath/blogapp/service/BlogService.java:48 | a save keeps blog ids unique and the saved blog is found by its id |
| Repositories.DeleteBlogKeepsValid | src/main/java/in/raghunath/blogapp/service/BlogService.java:86 | deleting by id keeps blog ids unique |
| Repositories.FindBlogByIdUnique | src/main/java/in/raghunath/blogapp/service/BlogService.java:61 | a stored blog is the one found by its id |
| RefreshTokens.FindRefreshTokenByToken | src/main/java/in/raghunath/blogapp/service/RefreshTokenService.java:27-29 | a record is found only with that value, and none exactly when no record holds it |
| RefreshTokens.RefreshTokenService.FindByToken | src/main/java/in/raghunath/blogapp/service/RefreshTokenService.java:27-29 | the same lookup on the service's records, which it does not change |
| RefreshTokens.InsertRefreshToken | src/main/java/in/raghunath/blogapp/model/RefreshToken.java:19-25 | a record is appended unless its id or token value is already stored, in which case DuplicateKeyException is thrown |
| RefreshTokens.NewRefreshToken | src/main/java/in/raghunath/blogapp/service/RefreshTokenService.java:36-39 | the new record holds the username, the UUID as value, and expires `refreshTokenDurationMs` after the reading |
| RefreshTokens.RefreshTokenService.CreateRefreshToken | src/main/java/in/raghunath/blogapp/service/RefreshTokenService.java:31-43 | an unknown user throws RuntimeException with the code's message and stores nothing; otherwise exactly the new record is appended and returned, or the unique index refuses it; token values stay unique |
| RefreshTokens.InsertRefreshTokenKeepsValid | src/main/java/in/raghunath/blogapp/service/RefreshTokenService.java:39-41 | inserting keeps ids and token values unique |
| RefreshTokens.FreshRefreshTokenInserts | src/main/java/in/raghunath/blogapp/service/RefreshTokenService.java:39-41 | a fresh id and fresh value are enough for the insert to succeed |
| RefreshTokens.FindAfterInsert | src/main/java/in/raghunath/blogapp/service/RefreshTokenService.java:27-41 | after a successful create, looking up the new value finds the new record |
| RefreshTokens.RefreshTokenService.VerifyExpiration | src/main/java/in/raghunath/blogapp/service/RefreshTokenService.java:45-51 | an expiry strictly before the reading deletes that record and throws TokenRefreshException with the code's message; an expiry at or after it returns the token and changes nothing |
| RefreshTokens.DeleteRefreshTokenById | src/main/java/in/raghunath/blogapp/service/RefreshTokenService.java:47 | removes the records with that id and keeps every other |
| RefreshTokens.DeleteRefreshTokenByIdKeepsValid | src/main/java/in/raghunath/blogapp/service/RefreshTokenService.java:47 | deleting keeps the unique indexes |
| RefreshTokens.ExpiredTokenIsGone | src/main/java/in/raghunath/blogapp/service/RefreshTokenService.java:46-48 | once an expired stored token is deleted its value is no longer found, and every other record remains |
| RefreshTokens.DeleteRefreshTokensByToken | src/main/java/in/raghunath/blogapp/service/RefreshTokenService.java:54-56 | removes every record with that value and only those; the value is not found afterwards |
| RefreshTokens.RefreshTokenService.DeleteByToken | src/main/java/in/raghunath/blogapp/service/RefreshTokenService.java:54-56 | the service's records become that deletion, and stay valid |
| RefreshTokens.DeleteByTokenIdempotent | src/main/java/in/raghunath/blogapp/service/RefreshTokenService.java:54-56 | deleting a value twice is deleting it once |
| RefreshTokens.DeleteByTokenAbsent | src/main/java/in/raghunath/blogapp/service/RefreshTokenService.java:54-56 | deleting a value no record holds changes nothing |
| RefreshTokens.DeleteRefreshTokensByUsername | src/main/java/in/raghunath/blogapp/service/RefreshTokenService.java:59-61 | removes all and only the records of that user |
| RefreshTokens.RefreshTokenService.DeleteByUsername | src/main/java/in/raghunath/blogapp/service/RefreshTokenService.java:59-61 | the service's records become that deletion, and stay valid |
| RefreshTokens.DeleteByUsernameIdempotent | src/main/java/in/raghunath/blogapp/service/RefreshTokenService.java:59-61 | deleting a user's records twice is deleting them once |
| Jwt.HmacShaKeyFor | src/main/java/in/raghunath/blogapp/util/JwtUtil.java:34 | a key is made exactly from 32 or more bytes; shorter input throws WeakKeyException |
| Jwt.JwtUtil.Init | src/main/java/in/raghunath/blogapp/util/JwtUtil.java:31-40 | a secret that is not Base64 throws RuntimeException("Invalid JWT secret key configuration.") and sets no key; a short key's WeakKeyException is not caught; otherwise the key is set from the decoded bytes |
| Jwt.JwtUtil.AsCodec | src/main/java/in/raghunath/blogapp/util/JwtUtil.java:43-45 | the codec uses the initialised key and the configured expiration |
| Jwt.NumericDate | src/main/java/in/raghunath/blogapp/util/JwtUtil.java:53-54 | a date as a JWT NumericDate: whole seconds, at most one second earlier |
| Jwt.AccessClaims | src/main/java/in/raghunath/blogapp/util/JwtUtil.java:50-56 | the claims of a new access token: subject the username, issued at the reading, expiring `accessTokenExpirationMs` later |
| Jwt.GenerateAccessToken | src/main/java/in/raghunath/blogapp/util/JwtUtil.java:50-57 | the token is the access claims of that user and reading, signed with the initialised key |
| Jwt.AsSigned | src/main/java/in/raghunath/blogapp/util/JwtUtil.java:53-54 | signing keeps the subject and truncates the expiration to whole seconds |
| Jwt.ExtractAllClaims | src/main/java/in/raghunath/blogapp/util/JwtUtil.java:66-89 | parsed claims are returned; an expired token's ExpiredJwtException passes unchanged; unsupported, malformed, bad-signature and empty tokens become IllegalArgumentException with the code's four messages |
| Jwt.GetUsernameFromToken | src/main/java/in/raghunath/blogapp/util/JwtUtil.java:61-64 | the subject of the parsed claims, or the extraction's exception |
| Jwt.IsTokenExpired | src/main/java/in/raghunath/blogapp/util/JwtUtil.java:96-106 | false exactly when the second parse succeeds and the expiration is not before the later `new Date()` reading; a parse that finds the token expired, and every other parse failure, count as expired |
| Jwt.ValidateAccessToken | src/main/java/in/raghunath/blogapp/util/JwtUtil.java:109-112 | throws exactly when the subject cannot be read at the first reading; true exactly when that subject equals the username and the token is not expired at the two later readings |
| Jwt.AccessTokenRoundTrip | src/main/java/in/raghunath/blogapp/util/JwtUtil.java:50-106 | a token issued for a user, read up to its expiry second, yields the signed claims and that user, and is not expired |
| Jwt.ExpiredAccessToken | src/main/java/in/raghunath/blogapp/util/JwtUtil.java:73-100 | after its expiry second, reading the token throws ExpiredJwtException, and it counts as expired whatever `new Date()` reads |
| Jwt.ValidationOfIssuedToken | src/main/java/in/raghunath/blogapp/util/JwtUtil.java:96-112 | for readings in order, validating an issued token throws ExpiredJwtException when it expired before the subject is read, is false when it expired before `new Date()` is read, and otherwise is true for its own user and false for every other name |
| Jwt.AccessTokenNotEmpty | src/main/java/in/raghunath/blogapp/util/JwtUtil.java:50-56 | an issued token is never the empty string |
| Jwt.EmptyTokenIsInvalid | src/main/java/in/raghunath/blogapp/util/JwtUtil.java:85-104 | the empty token becomes IllegalArgumentException("Invalid JWT token") and counts as expired whatever `new Date()` reads |
| Jwt.SoundIsSatisfiable | src/main/java/in/raghunath/blogapp/util/JwtUtil.java:66-72 | a library exists that signs and parses as the model assumes, so every property assuming it is about a possible library |
| UserDetailsService.Authorities | src/main/java/in/raghunath/blogapp/service/MyUserDetailsService.java:38-40 | the authorities are the names of the user's roles, no more and no fewer |
| UserDetailsService.AuthoritiesExact | src/main/java/in/raghunath/blogapp/service/MyUserDetailsService.java:38-40 | a role is held exactly when its name is among the authorities |
| UserDetailsService.LoadUserByUsername | src/main/java/in/raghunath/blogapp/service/MyUserDetailsService.java:29-48 | an unknown name throws UsernameNotFoundException("User not found: " + name); the builder refuses an empty name; otherwise the stored user's name, password and role names |
| UserDetailsService.LoadStoredUser | src/main/java/in/raghunath/blogapp/service/MyUserDetailsService.java:33-47 | a stored user with a non-empty name loads as exactly its own details |
| JwtAuthenticationFilter.BearerToken | src/main/java/in/raghunath/blogapp/filter/JwtAuthenticationFilter.java:41-42 | a token is taken exactly from a header that starts with "Bearer ", and the header is that prefix followed by the token |
| JwtAuthenticationFilter.BearerTokenRoundTrip | src/main/java/in/raghunath/blogapp/filter/JwtAuthenticationFilter.java:41-42 | the header a client sends for a token gives back that token |
| JwtAuthenticationFilter.CaughtUsername | src/main/java/in/raghunath/blogapp/filter/JwtAuthenticationFilter.java:43-50 | IllegalArgumentException and ExpiredJwtException are swallowed and leave no name; any other JWT exception escapes |
| JwtAuthenticationFilter.FilterRequest | src/main/java/in/raghunath/blogapp/filter/JwtAuthenticationFilter.java:31-84 | an existing authentication is kept; a new one is installed only with the chain continued, and it is authenticated |
| JwtAuthenticationFilter.DoFilterInternal | src/main/java/in/raghunath/blogapp/filter/JwtAuthenticationFilter.java:31-84 | the context afterwards and the outcome are those of one filter pass |
| JwtAuthenticationFilter.NoBearerHeaderPassesThrough | src/main/java/in/raghunath/blogapp/filter/JwtAuthenticationFilter.java:78-83 | without a bearer header the context is unchanged and the chain continues |
| JwtAuthenticationFilter.RejectedTokenIsSwallowed | src/main/java/in/raghunath/blogapp/filter/JwtAuthenticationFilter.java:43-83 | an invalid or expired token changes nothing and the chain continues |
| JwtAuthenticationFilter.ExistingAuthenticationKept | src/main/java/in/raghunath/blogapp/filter/JwtAuthenticationFilter.java:53 | an existing authentication is never replaced, and the outcome does not depend on the stored users |
| JwtAuthenticationFilter.InstalledOnlyAfterValidation | src/main/java/in/raghunath/blogapp/filter/JwtAuthenticationFilter.java:53-72 | an identity appears only for a bearer token whose subject is a stored user and which validates against that user's name; it carries that user's details and authorities |
| JwtAuthenticationFilter.FailedValidationPassesThrough | src/main/java/in/raghunath/blogapp/filter/JwtAuthenticationFilter.java:59-83 | a token that fails validation installs nothing and the chain continues |
| JwtAuthenticationFilter.UnknownUserEscapes | src/main/java/in/raghunath/blogapp/filter/JwtAuthenticationFilter.java:55 | a readable token for a user no longer stored lets UsernameNotFoundException escape |
| JwtAuthenticationFilter.IssuedTokenAuthenticates | src/main/java/in/raghunath/blogapp/filter/JwtAuthenticationFilter.java:41-72 | a token issued for a stored user, with all four readings in order and up to its expiry second, installs that user with the authorities of its roles |
| JwtAuthenticationFilter.ExpiryBetweenReadsEscapes | src/main/java/in/raghunath/blogapp/filter/JwtAuthenticationFilter.java:44-59 | a token that expires after the filter reads its subject but before validation does makes validation's ExpiredJwtException escape, because it is thrown outside the try block |
| JwtAuthenticationFilter.ExpiryDuringValidationPassesThrough | src/main/java/in/raghunath/blogapp/filter/JwtAuthenticationFilter.java:59-83 | a token that expires after validation reads its subject but before the expiration is compared validates as false: nothing is installed and the chain continues |
| AuthService.Authenticate | src/main/java/in/raghunath/blogapp/service/AuthService.java:51-56 | succeeds exactly when the user loads and the password matches its hash; an unknown user gives BadCredentialsException |
| AuthService.NewUser | src/main/java/in/raghunath/blogapp/service/AuthService.java:38-41 | the new user has the request's username and email, the encoded password, no roles and no photo |
| AuthService.Registration | src/main/java/in/raghunath/blogapp/service/AuthService.java:33-47 | an existing username returns "User Already exists" without a token and saves nothing; only the username is checked first, so a taken email or id fails at the index; otherwise exactly the new user is appended and "UserSuccessfully Registered" comes with its token |
| AuthService.RegisterUser | src/main/java/in/raghunath/blogapp/service/AuthService.java:33-47 | the collection and the response are those of the registration, and the unique indexes hold |
| AuthService.RegistrationKeepsValid | src/main/java/in/raghunath/blogapp/service/AuthService.java:38-42 | sign-up keeps usernames, emails and ids unique |
| AuthService.FreshRegistrationSucceeds | src/main/java/in/raghunath/blogapp/service/AuthService.java:34-46 | a new username, email and id register, and the new user is then found under that name |
| AuthService.RegistrationTokenNamesUser | src/main/java/in/raghunath/blogapp/service/AuthService.java:44-46 | the token a sign-up returns names the new user until it expires |
| AuthService.LoginUser | src/main/java/in/raghunath/blogapp/service/AuthService.java:49-61 | a rejected authentication is rethrown with no token; otherwise "Login successful" with a token for the username; the collection is only read |
| AuthService.RejectedLoginIssuesNoToken | src/main/java/in/raghunath/blogapp/service/AuthService.java:51-56 | an unknown user and a wrong password both end in BadCredentialsException |
| SecurityConfig.FirstMatch | src/main/java/in/raghunath/blogapp/config/SecurityConfig.java:38-47 | the position of the first rule matching the method and the path |
| SecurityConfig.RequiredAccess | src/main/java/in/raghunath/blogapp/config/SecurityConfig.java:38-47 | the access of a matching rule before which no rule matches |
| SecurityConfig.Granted | src/main/java/in/raghunath/blogapp/config/SecurityConfig.java:39-46 | without an authentication only permit-all is granted; anything else is granted only to an authenticated token |
| SecurityConfig.Allowed | src/main/java/in/raghunath/blogapp/config/SecurityConfig.java:38-47 | a request is allowed only when its first matching rule permits all or the caller is authenticated |
| SecurityConfig.PublicSubtreesPermitted | src/main/java/in/raghunath/blogapp/config/SecurityConfig.java:39 | every method on the `/auth`, `/actuator`, `/swagger-ui` and `/v3` subtrees is permitted to all |
| SecurityConfig.ApiIsNotPublic | src/main/java/in/raghunath/blogapp/config/SecurityConfig.java:39-45 | no path under `/api` lies under a public root |
| SecurityConfig.ResourceIsUnderApi | src/main/java/in/raghunath/blogapp/config/SecurityConfig.java:40-45 | the blog and user subtrees lie under `/api` |
| SecurityConfig.PublicRuleSkipsApi | src/main/java/in/raghunath/blogapp/config/SecurityConfig.java:39 | the public rule never decides a path under `/api` |
| SecurityConfig.PublicReads | src/main/java/in/raghunath/blogapp/config/SecurityConfig.java:40 | GET on `/api/blogs`, `/api/users` and below is permitted to all |
| SecurityConfig.CreateBlogNeedsRole | src/main/java/in/raghunath/blogapp/config/SecurityConfig.java:41-42 | POST on `/api/blogs` needs ROLE_USER or ROLE_ADMIN |
| SecurityConfig.EditsNeedLogin | src/main/java/in/raghunath/blogapp/config/SecurityConfig.java:43-44 | PUT under `/api/blogs` or `/api/users`, and DELETE under `/api/blogs`, need only a login |
| SecurityConfig.OtherApiNeedsAdmin | src/main/java/in/raghunath/blogapp/config/SecurityConfig.java:45 | any other request under `/api` needs ROLE_ADMIN, DELETE of a user included |
| SecurityConfig.UnlistedPathNeedsLogin | src/main/java/in/raghunath/blogapp/config/SecurityConfig.java:46 | a path outside every listed root needs only a login |
| SecurityConfig.AnonymousGetsOnlyPublic | src/main/java/in/raghunath/blogapp/config/SecurityConfig.java:38-47 | with no authentication, or the anonymous one, a request is allowed exactly when its rule permits all |
| BlogSecurityService.IsOwner | src/main/java/in/raghunath/blogapp/service/BlogSecurityService.java:25-44 | a null id or name gives false without a lookup; a missing blog throws ResourceNotFoundException; true exactly when the author is set and equals the name ignoring case |
| BlogSecurityService.IsOwnerOfStoredBlog | src/main/java/in/raghunath/blogapp/service/BlogSecurityService.java:33-43 | for a stored blog the answer is the case-folded comparison of author and name |
| BlogSecurityService.AuthorOwnsBlog | src/main/java/in/raghunath/blogapp/service/BlogSecurityService.java:39-43 | a blog's author owns it |
| UserSecurityService.IsSelf | src/main/java/in/raghunath/blogapp/service/UserSecurityService.java:26-45 | a null id or name gives false without a lookup; a missing user throws RuntimeException; true exactly when the stored username equals the name ignoring case |
| UserSecurityService.IsSelfOfStoredUser | src/main/java/in/raghunath/blogapp/service/UserSecurityService.java:34-44 | for a stored user the answer is the case-folded comparison of the two names |
| UserSecurityService.UserIsSelf | src/main/java/in/raghunath/blogapp/service/UserSecurityService.java:40-44 | a user is itself under any casing of its name |
| Lang.EqualsIgnoreCaseIsLowerCaseEquality | src/main/java/in/raghunath/blogapp/service/BlogSecurityService.java:41 | comparing ignoring case is comparing the lower-cased strings |
| Lang.EqualsIgnoreCaseIsEquivalence | src/main/java/in/raghunath/blogapp/service/UserSecurityService.java:42 | comparing ignoring case is reflexive, symmetric and transitive |
| BlogService.PrincipalName | src/main/java/in/raghunath/blogapp/service/BlogService.java:29-42 | an absent or unauthenticated authentication throws IllegalStateException; a UserDetails principal gives its username; the anonymous token gives "anonymousUser" |
| BlogService.Authored | src/main/java/in/raghunath/blogapp/service/BlogService.java:43-46 | the blog gets the author, the timestamps and the published flag; the rest is as sent |
| BlogService.CreateBlogIn | src/main/java/in/raghunath/blogapp/service/BlogService.java:28-50 | no principal name throws and saves nothing; otherwise the authored blog is saved |
| BlogService.CreateBlog | src/main/java/in/raghunath/blogapp/service/BlogService.java:28-50 | the collection and result are those of the creation, and blog ids stay unique |
| BlogService.CreatedBlogIsStored | src/main/java/in/raghunath/blogapp/service/BlogService.java:43-48 | a new blog is stored under the assigned id, authored by the caller and published, and is found by that id |
| BlogService.CreateWithStoredIdReplaces | src/main/java/in/raghunath/blogapp/service/BlogService.java:48 | a blog sent with a stored id replaces that blog |
| BlogService.GetBlogById | src/main/java/in/raghunath/blogapp/service/BlogService.java:60-64 | the stored blog with that id, or ResourceNotFoundException("Blog not found with id: " + id) |
| BlogService.GetStoredBlog | src/main/java/in/raghunath/blogapp/service/BlogService.java:60-64 | a stored blog is returned by its id |
| BlogService.GetAllPublishedBlogs | src/main/java/in/raghunath/blogapp/service/BlogService.java:56-58 | all and only the published blogs |
| BlogService.Revised | src/main/java/in/raghunath/blogapp/service/BlogService.java:67-72 | title, subtitle, content and topic come from the request and `updatedAt` from the clock; id, author, `createdAt` and publish status are kept |
| BlogService.UpdateBlogIn | src/main/java/in/raghunath/blogapp/service/BlogService.java:66-74 | a missing id throws and changes nothing; otherwise the revised blog is returned |
| BlogService.UpdateBlog | src/main/java/in/raghunath/blogapp/service/BlogService.java:66-74 | the collection and result are those of the update, and blog ids stay unique |
| BlogService.UpdateKeepsOtherBlogs | src/main/java/in/raghunath/blogapp/service/BlogService.java:66-74 | the revised blog is stored and every other blog is kept |
| BlogService.Toggled | src/main/java/in/raghunath/blogapp/service/BlogService.java:78 | only the publish flag changes, to its negation |
| BlogService.TogglePublishIn | src/main/java/in/raghunath/blogapp/service/BlogService.java:76-80 | a missing id throws and changes nothing; otherwise the toggled blog is stored |
| BlogService.TogglePublishStatus | src/main/java/in/raghunath/blogapp/service/BlogService.java:76-80 | the collection and result are those of the toggle, and blog ids stay unique |
| BlogService.ToggleTwiceRestores | src/main/java/in/raghunath/blogapp/service/BlogService.java:76-80 | toggling twice restores the collection |
| BlogService.DeleteBlogIn | src/main/java/in/raghunath/blogapp/service/BlogService.java:82-87 | a missing id throws and changes nothing; otherwise only blogs with other ids remain, and all of them do |
| BlogService.DeleteBlogById | src/main/java/in/raghunath/blogapp/service/BlogService.java:82-87 | the collection and result are those of the deletion, and blog ids stay unique |
| BlogService.DeleteRemovesExactlyThatBlog | src/main/java/in/raghunath/blogapp/service/BlogService.java:82-87 | a stored id is no longer found, and every other blog remains |
| ImageUploadService.PublicIdFor | src/main/java/in/raghunath/blogapp/service/ImageUploadService.java:47 | with a folder, exactly the folder, then "/", then the UUID (prefix, suffix and length fix the value); without one, the UUID itself |
| ImageUploadService.PublicIdsDistinct | src/main/java/in/raghunath/blogapp/service/ImageUploadService.java:47-55 | distinct UUIDs give distinct public ids, so `overwrite` replaces only on a repeated UUID |
| ImageUploadService.UploadRequest | src/main/java/in/raghunath/blogapp/service/ImageUploadService.java:36-58 | a null or empty file, then a missing or non-image content type, throw IllegalArgumentException with the code's messages; exactly the other files give the request with that public id and `overwrite` true |
| ImageUploadService.UploadCalls | src/main/java/in/raghunath/blogapp/service/ImageUploadService.java:36-58 | no request unless the file is present, non-empty and of an `image/` type; then exactly one upload under the folder and UUID's public id, with `overwrite` set |
| ImageUploadService.Upload | src/main/java/in/raghunath/blogapp/service/ImageUploadService.java:35-68 | the store's result unchanged; an I/O failure becomes IOException("Failed to upload image to Cloudinary."); an unchecked failure passes through |
| ImageUploadService.Delete | src/main/java/in/raghunath/blogapp/service/ImageUploadService.java:77-88 | the store's result; an I/O failure becomes IOException("Failed to delete image from Cloudinary."); an unchecked failure passes through |
| ImageUploadService.RejectedFileNeverUploaded | src/main/java/in/raghunath/blogapp/service/ImageUploadService.java:36-43 | a refused file gives an IllegalArgumentException that does not depend on the store |
| ImageUploadService.DeleteDependsOnlyOnDestroy | src/main/java/in/raghunath/blogapp/service/ImageUploadService.java:77-88 | delete makes no checks of its own: its outcome depends only on the store's answer for that id, and its only failures are the wrapped IOException and the unchecked store failure |
| UserService.GetCurrentUsername | src/main/java/in/raghunath/blogapp/service/UserService.java:41-52 | throws IllegalStateException exactly for an absent, unauthenticated or anonymous-principal authentication; otherwise the principal's name |
| UserService.GetUserByUsername | src/main/java/in/raghunath/blogapp/service/UserService.java:60-63 | the stored user with that name, or UsernameNotFoundException("User not found: " + name) exactly when there is none |
| UserService.CallerRecord | src/main/java/in/raghunath/blogapp/service/UserService.java:69-71 | the stored record of the caller; an unresolved caller gives getCurrentUsername's IllegalStateException, and an authenticated caller with no stored record gives UsernameNotFoundException("User not found: " + name) |
| UserService.CallerRecordIsStoredUser | src/main/java/in/raghunath/blogapp/service/UserService.java:69-71 | under the unique index the caller's record is the stored user with the caller's name |
| UserService.PhotoDeletion | src/main/java/in/raghunath/blogapp/service/UserService.java:73-108 | at most one request, made exactly for a non-null, non-empty photo id, and only ever the deletion of that id |
| UserService.DeleteUserByIdIn | src/main/java/in/raghunath/blogapp/service/UserService.java:65-87 | an unknown id throws UserNotFoundException("User not found with id: " + id) and changes nothing; otherwise the target is deleted exactly when the caller resolves, and the photo delete requested is the caller's, whatever the store answers |
| UserService.DeleteUserById | src/main/java/in/raghunath/blogapp/service/UserService.java:65-87 | the collection, the outcome and the store requests are those of the deletion, and the unique indexes hold |
| UserService.DeleteUserByIdRemovesTarget | src/main/java/in/raghunath/blogapp/service/UserService.java:69-86 | for a stored caller and target, exactly the target is removed and the caller's photo is the one requested for deletion |
| UserService.DeleteUserByIdDeletesCallersPhoto | src/main/java/in/raghunath/blogapp/service/UserService.java:69-75 | an admin deleting another user requests the deletion of the admin's own photo, which the admin's record still names, and not the removed user's |
| UserService.DeleteUserByIdCorrected | src/main/java/in/raghunath/blogapp/service/UserService.java:65-87 | the intended deletion: an unknown id throws and a caller without a record fails as in the code; on success the target is removed |
| UserService.CorrectedDeletesTargetPhoto | src/main/java/in/raghunath/blogapp/service/UserService.java:65-87 | corrected, the photo requested for deletion is the target's own, whichever stored user the caller is |
| UserService.CorrectionChangesOnlyThePhoto | src/main/java/in/raghunath/blogapp/service/UserService.java:65-87 | the correction leaves the collection and the outcome as the code has them, for every caller and id; only the store request differs |
| UserService.WithoutPhoto | src/main/java/in/raghunath/blogapp/service/UserService.java:111-122 | both photo fields cleared and nothing else changed |
| UserService.ClearOldPhoto | src/main/java/in/raghunath/blogapp/service/UserService.java:102-130 | no photo: nothing happens; an unchecked delete failure keeps the record as it was; a successful or I/O-failed delete clears both fields and saves that |
| UserService.ClearOldPhotoOfStoredUser | src/main/java/in/raghunath/blogapp/service/UserService.java:105-127 | for a stored caller the first step never throws, keeps the indexes, and the record in memory is the stored one, with id, username and email kept |
| UserService.MissingDetails | src/main/java/in/raghunath/blogapp/service/UserService.java:149-157 | an IOException with the code's message, or the cleanup's unchecked failure; cleanup is requested exactly when the id came back |
| UserService.UpdateProfilePhotoIn | src/main/java/in/raghunath/blogapp/service/UserService.java:92-170 | an unresolved caller throws before any store request; a successful result holds exactly the keys "url" and "publicId" |
| UserService.UpdateProfilePhoto | src/main/java/in/raghunath/blogapp/service/UserService.java:92-170 | the collection, the result and the store requests are those of the replacement, and the unique indexes hold |
| UserService.UpdateProfilePhotoKeepsValid | src/main/java/in/raghunath/blogapp/service/UserService.java:114-162 | every save in the replacement keeps usernames and emails unique |
| UserService.PhotoReplaced | src/main/java/in/raghunath/blogapp/service/UserService.java:160-169 | on success the stored record holds the upload's `secure_url` and `public_id`, the map returns them under "url" and "publicId", other users are kept, and the old photo's deletion came before the upload |
| UserService.FailedUploadAfterOldPhotoCleared | src/main/java/in/raghunath/blogapp/service/UserService.java:105-142 | a failed upload, the file checks included, is rethrown without new fields, after the old photo was already cleared unless its deletion failed unchecked |
| UserService.MissingDetailsThrows | src/main/java/in/raghunath/blogapp/service/UserService.java:146-157 | a result without URL or id throws and sets no new field; the new image, when it has an id, is the last deletion requested |
| Scenarios.SignupThenLogin | src/main/java/in/raghunath/blogapp/service/AuthService.java:33-61 | a user who has just signed up logs in with the same password and gets a token for their name |
| Scenarios.RolelessCallerCannotCreateBlog | src/main/java/in/raghunath/blogapp/config/SecurityConfig.java:41-43 | an authenticated caller without authorities may edit blogs but not create one |
| Scenarios.SignedUpUserCannotCreateBlog | src/main/java/in/raghunath/blogapp/service/AuthService.java:38-46 | sign-up grants no role, so the new user's token authenticates with no authorities and POST `/api/blogs` is refused |
| Scenarios.CallerNamesAgree | src/main/java/in/raghunath/blogapp/service/BlogService.java:32-39 | the two ways of naming the caller agree except on the anonymous principal, which only createBlog accepts |
| Scenarios.AnonymousCannotCreateBlog | src/main/java/in/raghunath/blogapp/config/SecurityConfig.java:41-42 | the anonymous caller, whom createBlog would name "anonymousUser", is refused by the URL rules first |

## Left out

- HMAC-SHA256 signing, Base64 decoding and BCrypt hashing are parameters. Their cryptographic properties are not modelled; `Jwt.Sound` only states how the library's outcome depends on the token, and the library `Jwt.SoundIsSatisfiable` exhibits ignores the key.
- The JWT library's outcomes other than the five the code names become a single `OtherFailure`, which escapes as `OtherJwtException`.
- Cloudinary, file bytes and `MultipartFile`: only emptiness, the content type and the store's answer (result map, I/O failure, unchecked failure) are modelled.
- UUIDs, store-assigned ids and clock readings are parameters, not real randomness or time.
- Logging, `@Transactional`, `@PreAuthorize` evaluation, `WebAuthenticationDetailsSource` and the thread-local holder are left out. The security context is an explicit value.
- Controllers, DTO validation annotations, `getAllBlogs`, `getAllUsers` and the regex search query are left out; they hold no decision logic.
- The code has no refresh endpoint: `loginUser` issues only an access token (`src/main/java/in/raghunath/blogapp/service/AuthService.java:49-61`), logout only clears the security context (`src/main/java/in/raghunath/blogapp/controller/AuthController.java:39-43`), and nothing rotates refresh tokens or sets a refresh cookie, so none of these is modelled.
- A failure of `filterChain.doFilter` itself is not modelled.
- Case folding is ASCII only; Java's `equalsIgnoreCase` also folds other scripts.
- Dates are unbounded naturals: `long` overflow is not modelled.
- A null subject claim, null values in the upload map and a `ClassCastException` on the map's values are not modelled.
- `Role.java` is not part of this model. The two roles the code uses, `ROLE_USER` and `ROLE_ADMIN`, are modelled.
- `Blog.java` lacks `authorUsername`, `isPublished` and `updatedAt`, which the services and queries use; the model has the fields the services use.
- `UserRepo.java` declares `findByUserName` returning `User`, while the services call `findByUsername(...)` returning `Optional`; the model follows the services.
- `AuthService` calls `jwtUtil.generateToken`, which `JwtUtil.java` does not define; it is modelled as `generateAccessToken`.
- The `**` patterns are modelled as "equals X or starts with X/". Trailing-slash and MVC path matching are not.
- In `AuthService.Authenticate`, a lookup failure other than a missing user becomes InternalAuthenticationServiceException, as Spring's default provider does.
- The `username == null` check in `updateProfilePhoto` is unreachable, since `getCurrentUsername` never returns null, so it is not modelled. Likewise `User.username` is never null, so the null-username branch of `isSelf` on the stored side is not modelled.
- BlogService.Authored: `createBlog` reads the clock twice, for `createdAt` and `updatedAt`; the model uses one reading for both.
- Jwt.AccessClaims: `generateAccessToken` reads the clock twice, for `iat` and `exp`; the model uses one reading for both.
- UserService.DeleteUserByIdIn: the outcome of the photo deletion is not a parameter, because every outcome is logged and dropped; the model records only the request.

## Findings

| source | as written | input that shows it | evidently intended | confidence | as-written member | corrected member |
|---|---|---|---|---|---|---|
| src/main/java/in/raghunath/blogapp/service/UserService.java:69-75 | `deleteUserById` reads the photo id from the caller's record (`getUserByUsername(getCurrentUsername())`) and asks the store to delete that photo before deleting the target | admin `1` with photo `photo-a` deletes user `2` with photo `photo-b`: the store is asked to destroy `photo-a`, which the admin's surviving record still names, and `photo-b` is orphaned | delete the photo of the user being deleted | not executed | UserService.DeleteUserByIdDeletesCallersPhoto | UserService.DeleteUserByIdCorrected |
