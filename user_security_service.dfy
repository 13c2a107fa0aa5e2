/** UserSecurityService: the guard that lets a user act on their own account. */
module UserSecurityService {
  import opened Lang
  import opened Entities
  import opened Repositories

  function SelfNotFoundMessage(userId: string): string {
    "User not found with id: " + userId + " for self check"
  }

  /** `isSelf(userId, username)`: false for a null argument, without a lookup; an
      unknown id throws a RuntimeException; otherwise whether the stored user's name
      equals the given name ignoring case. Reads the collection only. */
  function IsSelf(users: seq<User>, userId: Option<string>, username: Option<string>): (r: Result<bool>)
    ensures userId.None? || username.None? ==> r == Ok(false)
    ensures userId.Some? && username.Some? && FindUserById(users, userId.value).None? ==>
      r == Throws(RuntimeException(SelfNotFoundMessage(userId.value)))
    ensures r.Throws? ==> userId.Some? && username.Some? && FindUserById(users, userId.value).None?
    ensures r == Ok(true) <==>
      (userId.Some? && username.Some? && FindUserById(users, userId.value).Some?
       && EqualsIgnoreCase(FindUserById(users, userId.value).value.username, username.value))
  {
    if username.None? || userId.None? then Ok(false)
    else match FindUserById(users, userId.value)
      case None => Throws(RuntimeException(SelfNotFoundMessage(userId.value)))
      case Some(user) => Ok(EqualsIgnoreCase(user.username, username.value))
  }

  /** For a stored user, the check is name equality after lower-casing both names. */
  lemma IsSelfOfStoredUser(users: seq<User>, u: User, username: string)
    requires UsersValid(users) && u in users
    ensures IsSelf(users, Some(u.id), Some(username)) == Ok(LowerCase(u.username) == LowerCase(username))
  {
    FindUserByIdUnique(users, u);
    EqualsIgnoreCaseIsLowerCaseEquality(u.username, username);
  }

  /** Every stored user passes the check for their own account, whatever the letter
      case of the name presented. */
  lemma UserIsSelf(users: seq<User>, u: User, username: string)
    requires UsersValid(users) && u in users && LowerCase(username) == LowerCase(u.username)
    ensures IsSelf(users, Some(u.id), Some(username)) == Ok(true)
  {
    IsSelfOfStoredUser(users, u, username);
  }
}
