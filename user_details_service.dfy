/** MyUserDetailsService: turns a stored user into Spring Security's `UserDetails`, with
    one authority per role, named after the role. */
module UserDetailsService {
  import opened Lang
  import opened Entities
  import opened Repositories

  /** The authorities of a role set: the set of the roles' names. */
  function Authorities(roles: set<Role>): (a: set<string>)
    ensures forall r :: r in roles ==> r.Name() in a
    ensures forall n :: n in a ==> exists r :: r in roles && r.Name() == n
  {
    set r | r in roles :: r.Name()
  }

  /** Spring's `User` constructor refuses a null or empty username. */
  const EmptyValuesMessage := "Cannot pass null or empty values to constructor"

  /** `loadUserByUsername(username)`: an unknown name throws UsernameNotFoundException;
      a stored user becomes details with its own name, encoded password and the names of
      its roles. Reads the collection only. */
  function LoadUserByUsername(users: seq<User>, username: string): (r: Result<UserDetails>)
    ensures FindUserByUsername(users, username).None? ==>
      r == Throws(UsernameNotFoundException("User not found: " + username))
    ensures FindUserByUsername(users, username).Some? ==> (r.Ok? <==> username != "")
    ensures r.Ok? ==> exists u :: (u in users && u.username == username
      && r.value == UserDetails(u.username, u.password, Authorities(u.roles)))
    ensures r.Ok? ==> r.value.username == username
  {
    match FindUserByUsername(users, username)
    case None => Throws(UsernameNotFoundException("User not found: " + username))
    case Some(u) =>
      if u.username == "" then Throws(IllegalArgumentException(EmptyValuesMessage))
      else Ok(UserDetails(u.username, u.password, Authorities(u.roles)))
  }

  /** A role is granted exactly when its authority name is present: role names do not
      collide, so the authority set loses nothing. */
  lemma AuthoritiesExact(roles: set<Role>, r: Role)
    ensures r in roles <==> r.Name() in Authorities(roles)
  {
    if r.Name() in Authorities(roles) {
      var q :| q in roles && q.Name() == r.Name();
      assert q.Name()[5] == r.Name()[5];
    }
  }

  /** Under the unique username index, the details are those of the one stored user. */
  lemma LoadStoredUser(users: seq<User>, u: User)
    requires UsersValid(users) && u in users && u.username != ""
    ensures LoadUserByUsername(users, u.username) == Ok(UserDetails(u.username, u.password, Authorities(u.roles)))
  {
    FindUserByUsernameUnique(users, u);
  }
}
