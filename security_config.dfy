// SecurityConfig: the URL authorization table of `securityFilterChain`. The rules are
// tried in the order they are declared and the first rule whose method and path
// pattern match the request decides what the request needs. A pattern `X/**` matches
// `X` itself and every path below `X/`.
module SecurityConfig {
  import opened Lang
  import opened Entities
  import opened Seqs

  datatype HttpMethod = Get | Post | Put | Delete | Patch | Head | Options | Trace

  datatype PathPattern =
    | Exact(path: string)      // "/api/blogs"
    | Subtree(root: string)    // "/api/blogs/**"
    | AnyPath                  // anyRequest()

  predicate PatternMatches(p: PathPattern, path: string) {
    match p
    case Exact(x) => path == x
    case Subtree(x) => path == x || StartsWith(path, x + "/")
    case AnyPath => true
  }

  /** What a rule demands of the request's authentication. */
  datatype Access = PermitAll | Authenticated | HasAnyAuthority(authorities: set<string>)

  /** One `requestMatchers(...)` line: an optional method, its patterns, its access. */
  datatype Rule = Rule(httpMethod: Option<HttpMethod>, patterns: seq<PathPattern>, access: Access)

  predicate RuleMatches(rule: Rule, httpMethod: HttpMethod, path: string) {
    (rule.httpMethod.None? || rule.httpMethod == Some(httpMethod))
    && exists i :: 0 <= i < |rule.patterns| && PatternMatches(rule.patterns[i], path)
  }

  const UserAuthority := RoleUser.Name()
  const AdminAuthority := RoleAdmin.Name()

  /** The table, in declaration order. */
  const Rules: seq<Rule> := [
    Rule(None, [Subtree("/auth"), Subtree("/actuator"), Subtree("/swagger-ui"), Subtree("/v3")], PermitAll),
    Rule(Some(Get), [Exact("/api/blogs"), Subtree("/api/blogs"), Exact("/api/users"), Subtree("/api/users")], PermitAll),
    Rule(Some(Post), [Exact("/api/blogs")], HasAnyAuthority({UserAuthority, AdminAuthority})),
    Rule(Some(Put), [Subtree("/api/blogs"), Subtree("/api/users")], Authenticated),
    Rule(Some(Delete), [Subtree("/api/blogs")], Authenticated),
    Rule(None, [Subtree("/api")], HasAnyAuthority({AdminAuthority})),
    Rule(None, [AnyPath], Authenticated)
  ]

  /** The position of the first rule matching the request. */
  function FirstMatch(rules: seq<Rule>, httpMethod: HttpMethod, path: string): (r: Option<nat>)
    ensures r.Some? ==> r.value < |rules| && RuleMatches(rules[r.value], httpMethod, path)
    ensures r.Some? ==> forall j :: 0 <= j < r.value ==> !RuleMatches(rules[j], httpMethod, path)
    ensures r.None? <==> forall j :: 0 <= j < |rules| ==> !RuleMatches(rules[j], httpMethod, path)
  {
    IndexWhere(rules, (rule: Rule) => RuleMatches(rule, httpMethod, path))
  }

  /** What the table demands of a request: the access of the first matching rule (the
      last rule matches every request). */
  function RequiredAccess(httpMethod: HttpMethod, path: string): (a: Access)
    ensures exists i :: (0 <= i < |Rules| && RuleMatches(Rules[i], httpMethod, path) && a == Rules[i].access
                         && forall j :: 0 <= j < i ==> !RuleMatches(Rules[j], httpMethod, path))
  {
    assert RuleMatches(Rules[6], httpMethod, path) by {
      assert PatternMatches(Rules[6].patterns[0], path);
    }
    match FirstMatch(Rules, httpMethod, path)
    case Some(i) => Rules[i].access
    case None => assert false; Authenticated
  }

  /** Whether an authentication satisfies an access rule. `authenticated()` refuses the
      anonymous token; an authority check needs an authenticated token holding one of
      the authorities. */
  predicate Granted(access: Access, auth: Option<Authentication>)
    ensures auth.None? ==> (Granted(access, auth) <==> access == PermitAll)
    ensures Granted(access, auth) && access != PermitAll ==> auth.Some? && auth.value.IsAuthenticated()
  {
    match access
    case PermitAll => true
    case Authenticated => auth.Some? && auth.value.IsAuthenticated() && !auth.value.AnonymousToken?
    case HasAnyAuthority(s) =>
      auth.Some? && auth.value.IsAuthenticated() && exists a :: a in s && a in auth.value.GetAuthorities()
  }

  /** The authorization decision for a request. */
  predicate Allowed(httpMethod: HttpMethod, path: string, auth: Option<Authentication>)
    ensures Allowed(httpMethod, path, auth) ==>
      RequiredAccess(httpMethod, path) == PermitAll || (auth.Some? && auth.value.IsAuthenticated())
  {
    Granted(RequiredAccess(httpMethod, path), auth)
  }

  // ----- properties -------------------------------------------------------------------

  /** The rule at `k` is the first to match, so it decides. */
  lemma FirstMatchIs(rules: seq<Rule>, httpMethod: HttpMethod, path: string, k: nat)
    requires k < |rules| && RuleMatches(rules[k], httpMethod, path)
    requires forall j :: 0 <= j < k ==> !RuleMatches(rules[j], httpMethod, path)
    ensures FirstMatch(rules, httpMethod, path) == Some(k)
  {
  }

  predicate Under(path: string, root: string) {
    PatternMatches(Subtree(root), path)
  }

  /** A path under a root begins with that root. */
  lemma UnderChars(path: string, root: string)
    ensures Under(path, root) ==> |root| <= |path| && forall k :: 0 <= k < |root| ==> path[k] == root[k]
  {
    if Under(path, root) && path != root {
      assert forall k :: 0 <= k < |root| ==> path[k] == path[..|root| + 1][k] == (root + "/")[k];
    }
  }

  /** Two roots that differ at a position both have share no path. */
  lemma DisjointRoots(path: string, a: string, b: string, k: nat)
    requires k < |a| && k < |b| && a[k] != b[k]
    ensures !(Under(path, a) && Under(path, b))
  {
    UnderChars(path, a);
    UnderChars(path, b);
  }

  /** A path under `/api` lies under none of the public roots. */
  lemma ApiIsNotPublic(path: string)
    ensures Under(path, "/api") ==>
      !Under(path, "/auth") && !Under(path, "/actuator") && !Under(path, "/swagger-ui") && !Under(path, "/v3")
  {
    DisjointRoots(path, "/api", "/auth", 2);
    DisjointRoots(path, "/api", "/actuator", 2);
    DisjointRoots(path, "/api", "/swagger-ui", 1);
    DisjointRoots(path, "/api", "/v3", 1);
  }

  /** A path under `/api/blogs` or `/api/users` is under `/api`. */
  lemma ResourceIsUnderApi(path: string, root: string)
    requires root == "/api/blogs" || root == "/api/users"
    ensures Under(path, root) ==> Under(path, "/api")
  {
    if Under(path, root) {
      UnderChars(path, root);
      assert path[..5] == "/api/" by {
        assert forall k :: 0 <= k < 5 ==> path[..5][k] == root[k] == "/api/"[k];
      }
    }
  }

  /** A path under one of the roots `/auth`, `/actuator`, `/swagger-ui` or `/v3` is
      open to every method and every caller. */
  lemma PublicSubtreesPermitted(httpMethod: HttpMethod, path: string)
    requires Under(path, "/auth") || Under(path, "/actuator") || Under(path, "/swagger-ui") || Under(path, "/v3")
    ensures RequiredAccess(httpMethod, path) == PermitAll
  {
    var i := if Under(path, "/auth") then 0 else if Under(path, "/actuator") then 1
             else if Under(path, "/swagger-ui") then 2 else 3;
    assert PatternMatches(Rules[0].patterns[i], path);
    FirstMatchIs(Rules, httpMethod, path, 0);
  }

  /** Rule 0 does not govern `/api`. */
  lemma PublicRuleSkipsApi(httpMethod: HttpMethod, path: string)
    requires Under(path, "/api")
    ensures !RuleMatches(Rules[0], httpMethod, path)
  {
    ApiIsNotPublic(path);
  }

  /** Reading blogs and users is open to every caller. */
  lemma PublicReads(path: string)
    requires Under(path, "/api/blogs") || Under(path, "/api/users")
    ensures RequiredAccess(Get, path) == PermitAll
  {
    ResourceIsUnderApi(path, "/api/blogs");
    ResourceIsUnderApi(path, "/api/users");
    PublicRuleSkipsApi(Get, path);
    var i := if Under(path, "/api/blogs") then 1 else 3;
    assert PatternMatches(Rules[1].patterns[i], path);
    FirstMatchIs(Rules, Get, path, 1);
  }

  /** Creating a blog needs the user or the admin authority. */
  lemma CreateBlogNeedsRole()
    ensures RequiredAccess(Post, "/api/blogs") == HasAnyAuthority({"ROLE_USER", "ROLE_ADMIN"})
  {
    ResourceIsUnderApi("/api/blogs", "/api/blogs");
    PublicRuleSkipsApi(Post, "/api/blogs");
    assert PatternMatches(Rules[2].patterns[0], "/api/blogs");
    FirstMatchIs(Rules, Post, "/api/blogs", 2);
  }

  /** Editing a blog or a user, and deleting a blog, need only a login. */
  lemma EditsNeedLogin(httpMethod: HttpMethod, path: string)
    requires (httpMethod == Put && (Under(path, "/api/blogs") || Under(path, "/api/users")))
          || (httpMethod == Delete && Under(path, "/api/blogs"))
    ensures RequiredAccess(httpMethod, path) == Authenticated
  {
    ResourceIsUnderApi(path, "/api/blogs");
    ResourceIsUnderApi(path, "/api/users");
    PublicRuleSkipsApi(httpMethod, path);
    if httpMethod == Put {
      var i := if Under(path, "/api/blogs") then 0 else 1;
      assert PatternMatches(Rules[3].patterns[i], path);
      FirstMatchIs(Rules, httpMethod, path, 3);
    } else {
      assert PatternMatches(Rules[4].patterns[0], path);
      FirstMatchIs(Rules, httpMethod, path, 4);
    }
  }

  /** Every other request under `/api` needs the admin authority: deleting a user, and
      creating one through `/api/users`, among them. */
  lemma OtherApiNeedsAdmin(httpMethod: HttpMethod, path: string)
    requires Under(path, "/api")
    requires httpMethod != Get || !(Under(path, "/api/blogs") || Under(path, "/api/users"))
    requires httpMethod != Post || path != "/api/blogs"
    requires httpMethod != Put || !(Under(path, "/api/blogs") || Under(path, "/api/users"))
    requires httpMethod != Delete || !Under(path, "/api/blogs")
    ensures RequiredAccess(httpMethod, path) == HasAnyAuthority({"ROLE_ADMIN"})
  {
    PublicRuleSkipsApi(httpMethod, path);
    assert PatternMatches(Rules[5].patterns[0], path);
    FirstMatchIs(Rules, httpMethod, path, 5);
  }

  /** A path outside every listed root needs only a login. */
  lemma UnlistedPathNeedsLogin(httpMethod: HttpMethod, path: string)
    requires !Under(path, "/auth") && !Under(path, "/actuator") && !Under(path, "/swagger-ui") && !Under(path, "/v3")
    requires !Under(path, "/api")
    ensures RequiredAccess(httpMethod, path) == Authenticated
  {
    ResourceIsUnderApi(path, "/api/blogs");
    ResourceIsUnderApi(path, "/api/users");
    assert PatternMatches(Rules[6].patterns[0], path);
    FirstMatchIs(Rules, httpMethod, path, 6);
  }

  /** A caller without a login, or with the anonymous token, gets exactly the requests
      whose first matching rule permits all. */
  lemma AnonymousGetsOnlyPublic(httpMethod: HttpMethod, path: string)
    ensures Allowed(httpMethod, path, None) <==> RequiredAccess(httpMethod, path) == PermitAll
    ensures Allowed(httpMethod, path, Some(AnonymousToken)) <==> RequiredAccess(httpMethod, path) == PermitAll
  {
    var a := RequiredAccess(httpMethod, path);
    if a.HasAnyAuthority? {
      var i :| 0 <= i < |Rules| && RuleMatches(Rules[i], httpMethod, path) && a == Rules[i].access
        && forall j :: 0 <= j < i ==> !RuleMatches(Rules[j], httpMethod, path);
      assert "ROLE_ANONYMOUS" !in a.authorities;
    }
  }
}
