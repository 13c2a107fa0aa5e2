/** UserService: the caller's identity, user lookup, account deletion and the
    profile-photo replacement protocol. The image store is a parameter; every request
    the service sends it is reported, in order, as a `StorageCall`. */
module UserService {
  import opened Lang
  import opened Seqs
  import opened Entities
  import opened Repositories
  import opened ImageUploadService

  const UnauthenticatedMessage := "User must be authenticated for this operation."
  const ProfileFolder := "profile_photos"
  const MissingDetailsMessage := "Image upload failed to return necessary details from Cloudinary."

  function UserNotFoundMessage(id: string): string {
    "User not found with id: " + id
  }

  /** `getCurrentUsername()`: refuses an absent or unauthenticated authentication and
      the anonymous principal; otherwise the principal's user name. */
  function GetCurrentUsername(auth: Option<Authentication>): (r: Result<string>)
    ensures r.Throws? <==>
      auth.None? || !auth.value.IsAuthenticated() || auth.value.GetPrincipal() == NamePrincipal("anonymousUser")
    ensures r.Throws? ==> r.exception == IllegalStateException(UnauthenticatedMessage)
    ensures r.Ok? ==> r.value == auth.value.GetName()
    ensures auth == Some(AnonymousToken) ==> r.Throws?
  {
    if auth.None? || !auth.value.IsAuthenticated() || auth.value.GetPrincipal() == NamePrincipal("anonymousUser") then
      Throws(IllegalStateException(UnauthenticatedMessage))
    else match auth.value.GetPrincipal()
      case DetailsPrincipal(details) => Ok(details.username)
      case NamePrincipal(name) => Ok(name)
  }

  /** `getUserByUsername(username)`. */
  function GetUserByUsername(users: seq<User>, username: string): (r: Result<User>)
    ensures r.Throws? <==> FindUserByUsername(users, username).None?
    ensures r.Throws? ==> r.exception == UsernameNotFoundException("User not found: " + username)
    ensures r.Ok? ==> r.value in users && r.value.username == username
  {
    match FindUserByUsername(users, username)
    case None => Throws(UsernameNotFoundException("User not found: " + username))
    case Some(u) => Ok(u)
  }

  /** `getUserByUsername(getCurrentUsername())`: the stored record of the caller. */
  function CallerRecord(users: seq<User>, auth: Option<Authentication>): (r: Result<User>)
    ensures GetCurrentUsername(auth).Throws? ==> r == Throws(GetCurrentUsername(auth).exception)
    ensures GetCurrentUsername(auth).Ok? && FindUserByUsername(users, GetCurrentUsername(auth).value).None? ==>
      r == Throws(UsernameNotFoundException("User not found: " + GetCurrentUsername(auth).value))
    ensures r.Ok? ==> r.value in users && GetCurrentUsername(auth) == Ok(r.value.username)
  {
    var username :- GetCurrentUsername(auth);
    GetUserByUsername(users, username)
  }

  /** A stored photo id that the code treats as present: non-null and non-empty. */
  predicate HasPhoto(publicId: Option<string>) {
    publicId.Some? && publicId.value != ""
  }

  /** The store request for a stored photo id: at most one, only for a non-null,
      non-empty id, and only ever a deletion of that id. */
  function PhotoDeletion(publicId: Option<string>): (calls: seq<StorageCall>)
    ensures |calls| <= 1
    ensures calls != [] <==> publicId.Some? && publicId.value != ""
    ensures forall i :: 0 <= i < |calls| ==> calls[i] == DestroyRequested(publicId.value)
  {
    if HasPhoto(publicId) then [DestroyRequested(publicId.value)] else []
  }

  // ----- deleteUserById ---------------------------------------------------------------

  /** `deleteUserById(id)` as written: the new collection, the outcome, and the store
      requests. An unknown id throws before anything else; then the CALLER's record is
      fetched and the caller's photo is requested for deletion, whatever the store
      answers (every failure is logged and dropped); then the target is deleted. */
  function DeleteUserByIdIn(users: seq<User>, auth: Option<Authentication>, id: string)
    : (r: (seq<User>, Result<()>, seq<StorageCall>))
    ensures !ExistsUserById(users, id) ==> r == (users, Throws(UserNotFoundException(UserNotFoundMessage(id))), [])
    ensures r.1.Throws? ==> r.0 == users && r.2 == []
    ensures r.1.Ok? <==> ExistsUserById(users, id) && CallerRecord(users, auth).Ok?
    ensures r.1.Ok? ==>
      r.0 == Repositories.DeleteUserById(users, id) && r.2 == PhotoDeletion(CallerRecord(users, auth).value.profilePhotoPublicId)
  {
    if !ExistsUserById(users, id) then (users, Throws(UserNotFoundException(UserNotFoundMessage(id))), [])
    else match CallerRecord(users, auth)
      case Throws(e) => (users, Throws(e), [])
      case Ok(currentUser) => (Repositories.DeleteUserById(users, id), Ok(()), PhotoDeletion(currentUser.profilePhotoPublicId))
  }

  /** `deleteUserById` with the evidently intended photo: the target's, fetched by id.
      The caller's record is still looked up, as the code does, so the error cases are
      those of the code as written. */
  function DeleteUserByIdCorrected(users: seq<User>, auth: Option<Authentication>, id: string)
    : (r: (seq<User>, Result<()>, seq<StorageCall>))
    ensures !ExistsUserById(users, id) ==> r == (users, Throws(UserNotFoundException(UserNotFoundMessage(id))), [])
    ensures r.1.Throws? ==> r.0 == users && r.2 == []
    ensures r.1.Ok? <==> ExistsUserById(users, id) && CallerRecord(users, auth).Ok?
    ensures r.1.Ok? ==> r.0 == Repositories.DeleteUserById(users, id)
  {
    if !ExistsUserById(users, id) then (users, Throws(UserNotFoundException(UserNotFoundMessage(id))), [])
    else match CallerRecord(users, auth)
      case Throws(e) => (users, Throws(e), [])
      case Ok(_) =>
        var target := FindUserById(users, id).value;
        (Repositories.DeleteUserById(users, id), Ok(()), PhotoDeletion(target.profilePhotoPublicId))
  }

  /** The correction changes only the store requests: the collection and the outcome
      are those of the code as written, for every caller and id. */
  lemma CorrectionChangesOnlyThePhoto(users: seq<User>, auth: Option<Authentication>, id: string)
    ensures DeleteUserByIdCorrected(users, auth, id).0 == DeleteUserByIdIn(users, auth, id).0
    ensures DeleteUserByIdCorrected(users, auth, id).1 == DeleteUserByIdIn(users, auth, id).1
  {
  }

  method DeleteUserById(userRepo: UserRepo, auth: Option<Authentication>, id: string)
    returns (r: Result<()>, calls: seq<StorageCall>)
    requires userRepo.Valid()
    modifies userRepo
    ensures userRepo.Valid()
    ensures (userRepo.users, r, calls) == DeleteUserByIdIn(old(userRepo.users), auth, id)
  {
    if !ExistsUserById(userRepo.users, id) {
      return Throws(UserNotFoundException(UserNotFoundMessage(id))), [];
    }
    var currentUser := CallerRecord(userRepo.users, auth);
    if currentUser.Throws? {
      return Throws(currentUser.exception), [];
    }
    var oldPublicId := currentUser.value.profilePhotoPublicId;
    calls := [];
    if HasPhoto(oldPublicId) {
      calls := [DestroyRequested(oldPublicId.value)];
    }
    DeleteUserKeepsValid(userRepo.users, id);
    userRepo.users := Repositories.DeleteUserById(userRepo.users, id);
    r := Ok(());
  }

  // ----- updateProfilePhoto -----------------------------------------------------------

  /** The old photo with both fields cleared. */
  function WithoutPhoto(u: User): (v: User)
    ensures v.profilePhotoUrl.None? && v.profilePhotoPublicId.None?
    ensures v.(profilePhotoUrl := u.profilePhotoUrl, profilePhotoPublicId := u.profilePhotoPublicId) == u
  {
    u.(profilePhotoUrl := None, profilePhotoPublicId := None)
  }

  /** Step 1 of `updateProfilePhoto`: the old photo. Gives the collection, the caller's
      record as held in memory afterwards, an exception that escapes, and the requests.
      A successful or I/O-failed deletion clears both photo fields and saves that; a
      save failing after a successful deletion is caught with the rest; any other
      deletion failure leaves the record as it was. */
  function ClearOldPhoto(users: seq<User>, currentUser: User, cloudinary: Cloudinary)
    : (r: (seq<User>, User, Result<()>, seq<StorageCall>))
    ensures r.3 == PhotoDeletion(currentUser.profilePhotoPublicId)
    ensures !HasPhoto(currentUser.profilePhotoPublicId) ==> r == (users, currentUser, Ok(()), [])
    ensures HasPhoto(currentUser.profilePhotoPublicId) && cloudinary.destroy(currentUser.profilePhotoPublicId.value).RuntimeFailure? ==>
      r.0 == users && r.1 == currentUser && r.2.Ok?
    ensures HasPhoto(currentUser.profilePhotoPublicId) && !cloudinary.destroy(currentUser.profilePhotoPublicId.value).RuntimeFailure? ==>
      r.1 == WithoutPhoto(currentUser) && (SaveUser(users, r.1).Ok? ==> r.0 == SaveUser(users, r.1).value && r.2.Ok?)
  {
    var oldPublicId := currentUser.profilePhotoPublicId;
    if !HasPhoto(oldPublicId) then (users, currentUser, Ok(()), [])
    else
      var calls := [DestroyRequested(oldPublicId.value)];
      var cleared := WithoutPhoto(currentUser);
      match Delete(oldPublicId.value, cloudinary)
      case Ok(_) =>
        (match SaveUser(users, cleared)
         case Ok(s) => (s, cleared, Ok(()), calls)
         case Throws(_) => (users, cleared, Ok(()), calls))
      case Throws(e) =>
        if e.IOException? then
          match SaveUser(users, cleared)
          case Ok(s) => (s, cleared, Ok(()), calls)
          case Throws(e2) => (users, cleared, Throws(e2), calls)
        else (users, currentUser, Ok(()), calls)
  }

  /** Step 3's check of the upload result: an id to clean up when the URL or the id is
      missing. Only the cleanup's unchecked failure escapes instead of the IOException. */
  function MissingDetails(m: map<string, string>, cloudinary: Cloudinary): (r: (Exception, seq<StorageCall>))
    requires "secure_url" !in m || "public_id" !in m
    ensures "public_id" !in m ==> r == (IOException(MissingDetailsMessage), [])
    ensures "public_id" in m ==> r.1 == [DestroyRequested(m["public_id"])]
    ensures r.0 == IOException(MissingDetailsMessage) || r.0 == StorageRuntimeException
  {
    if "public_id" in m then
      match Delete(m["public_id"], cloudinary)
      case Throws(e) =>
        if e.IOException? then (IOException(MissingDetailsMessage), [DestroyRequested(m["public_id"])])
        else (e, [DestroyRequested(m["public_id"])])
      case Ok(_) => (IOException(MissingDetailsMessage), [DestroyRequested(m["public_id"])])
    else (IOException(MissingDetailsMessage), [])
  }

  /** `updateProfilePhoto(file)` with the UUID drawn: the new collection, the returned
      map, and the store requests. */
  function UpdateProfilePhotoIn(users: seq<User>, auth: Option<Authentication>, file: Option<MultipartFile>,
                                uuid: string, cloudinary: Cloudinary)
    : (r: (seq<User>, Result<map<string, string>>, seq<StorageCall>))
    ensures CallerRecord(users, auth).Throws? ==> r == (users, Throws(CallerRecord(users, auth).exception), [])
    ensures r.1.Ok? ==> r.1.value.Keys == {"url", "publicId"}
  {
    match CallerRecord(users, auth)
    case Throws(e) => (users, Throws(e), [])
    case Ok(currentUser) =>
      var (s, user, cleared, calls) := ClearOldPhoto(users, currentUser, cloudinary);
      if cleared.Throws? then (s, Throws(cleared.exception), calls)
      else
        var uploadCalls := calls + UploadCalls(file, Some(ProfileFolder), uuid);
        match Upload(file, Some(ProfileFolder), uuid, cloudinary)
        case Throws(e) => (s, Throws(e), uploadCalls)
        case Ok(m) =>
          if "secure_url" !in m || "public_id" !in m then
            var (e, cleanup) := MissingDetails(m, cloudinary);
            (s, Throws(e), uploadCalls + cleanup)
          else
            var updated := user.(profilePhotoUrl := Some(m["secure_url"]), profilePhotoPublicId := Some(m["public_id"]));
            match SaveUser(s, updated)
            case Throws(e) => (s, Throws(e), uploadCalls)
            case Ok(s2) => (s2, Ok(map["url" := m["secure_url"], "publicId" := m["public_id"]]), uploadCalls)
  }

  method UpdateProfilePhoto(userRepo: UserRepo, auth: Option<Authentication>, file: Option<MultipartFile>,
                            uuid: string, cloudinary: Cloudinary)
    returns (r: Result<map<string, string>>, calls: seq<StorageCall>)
    requires userRepo.Valid()
    modifies userRepo
    ensures userRepo.Valid()
    ensures (userRepo.users, r, calls) == UpdateProfilePhotoIn(old(userRepo.users), auth, file, uuid, cloudinary)
  {
    var currentUser := CallerRecord(userRepo.users, auth);
    if currentUser.Throws? {
      return Throws(currentUser.exception), [];
    }
    var user := currentUser.value;
    calls := [];
    // 1. the old photo
    var oldPublicId := user.profilePhotoPublicId;
    if HasPhoto(oldPublicId) {
      calls := [DestroyRequested(oldPublicId.value)];
      var deleted := Delete(oldPublicId.value, cloudinary);
      if deleted.Ok? || deleted.exception.IOException? {
        user := WithoutPhoto(user);
        var saved := SaveUser(userRepo.users, user);
        if saved.Ok? {
          SaveUserKeepsValid(userRepo.users, user);
          userRepo.users := saved.value;
        } else if deleted.Throws? {
          return Throws(saved.exception), calls;
        }
      }
    }
    // 2. the upload
    calls := calls + UploadCalls(file, Some(ProfileFolder), uuid);
    var uploadResult := Upload(file, Some(ProfileFolder), uuid, cloudinary);
    if uploadResult.Throws? {
      return Throws(uploadResult.exception), calls;
    }
    // 3. the new details
    var m := uploadResult.value;
    if "secure_url" !in m || "public_id" !in m {
      if "public_id" in m {
        calls := calls + [DestroyRequested(m["public_id"])];
        var cleanup := Delete(m["public_id"], cloudinary);
        if cleanup.Throws? && !cleanup.exception.IOException? {
          return Throws(cleanup.exception), calls;
        }
      }
      assert calls + [] == calls;
      return Throws(IOException(MissingDetailsMessage)), calls;
    }
    user := user.(profilePhotoUrl := Some(m["secure_url"]), profilePhotoPublicId := Some(m["public_id"]));
    var saved := SaveUser(userRepo.users, user);
    if saved.Throws? {
      return Throws(saved.exception), calls;
    }
    SaveUserKeepsValid(userRepo.users, user);
    userRepo.users := saved.value;
    // 4. the result
    r := Ok(map["url" := m["secure_url"], "publicId" := m["public_id"]]);
  }

  // ----- properties -------------------------------------------------------------------

  /** Under the unique username index, the caller's record is the stored user with the
      caller's name. */
  lemma CallerRecordIsStoredUser(users: seq<User>, auth: Option<Authentication>, u: User)
    requires UsersValid(users) && u in users && GetCurrentUsername(auth) == Ok(u.username)
    ensures CallerRecord(users, auth) == Ok(u)
  {
    FindUserByUsernameUnique(users, u);
  }

  /** As written, deletion removes exactly the target, and asks the store to delete
      the photo of the caller. */
  lemma DeleteUserByIdRemovesTarget(users: seq<User>, auth: Option<Authentication>, caller: User, target: User)
    requires UsersValid(users) && caller in users && target in users
    requires GetCurrentUsername(auth) == Ok(caller.username)
    ensures var (s, r, calls) := DeleteUserByIdIn(users, auth, target.id);
      && r == Ok(())
      && FindUserById(s, target.id).None?
      && (forall i :: 0 <= i < |users| && users[i].id != target.id ==> users[i] in s)
      && UsersValid(s)
      && calls == PhotoDeletion(caller.profilePhotoPublicId)
  {
    CallerRecordIsStoredUser(users, auth, caller);
    DeleteUserKeepsValid(users, target.id);
  }

  /** The discrepancy: an admin with a photo deletes another user with a photo. The
      store is asked to delete the admin's photo, which the admin's surviving record
      still names, and never the removed user's. */
  lemma DeleteUserByIdDeletesCallersPhoto()
    ensures var admin := User("1", "admin", "admin@example.com", "x", Some("url-a"), Some("photo-a"), {RoleAdmin});
      var bob := User("2", "bob", "bob@example.com", "y", Some("url-b"), Some("photo-b"), {RoleUser});
      var auth := Some(AuthenticatedToken(UserDetails("admin", "x", {"ROLE_ADMIN"})));
      var (s, r, calls) := DeleteUserByIdIn([admin, bob], auth, "2");
      && r == Ok(())
      && calls == [DestroyRequested("photo-a")]
      && FindUserById(s, "1") == Some(admin)
      && admin.profilePhotoPublicId == Some("photo-a")
      && DestroyRequested("photo-b") !in calls
  {
    var admin := User("1", "admin", "admin@example.com", "x", Some("url-a"), Some("photo-a"), {RoleAdmin});
    var bob := User("2", "bob", "bob@example.com", "y", Some("url-b"), Some("photo-b"), {RoleUser});
    var users := [admin, bob];
    assert UsersValid(users);
    assert ExistsUserById(users, "2") by { assert users[1].id == "2"; }
    var auth := Some(AuthenticatedToken(UserDetails("admin", "x", {"ROLE_ADMIN"})));
    CallerRecordIsStoredUser(users, auth, admin);
    DeleteUserKeepsValid(users, "2");
    FindUserByIdUnique(Repositories.DeleteUserById(users, "2"), admin);
  }

  /** Corrected, deletion removes exactly the target and asks the store to delete the
      target's own photo, whoever the caller is. */
  lemma CorrectedDeletesTargetPhoto(users: seq<User>, auth: Option<Authentication>, target: User)
    requires UsersValid(users) && target in users && CallerRecord(users, auth).Ok?
    ensures var (s, r, calls) := DeleteUserByIdCorrected(users, auth, target.id);
      && r == Ok(())
      && FindUserById(s, target.id).None?
      && UsersValid(s)
      && calls == PhotoDeletion(target.profilePhotoPublicId)
  {
    FindUserByIdUnique(users, target);
    DeleteUserKeepsValid(users, target.id);
  }

  /** Step 1 on a stored caller: never throws, keeps the indexes, and leaves the record
      held in memory as the stored one. */
  lemma ClearOldPhotoOfStoredUser(users: seq<User>, u: User, cloudinary: Cloudinary)
    requires UsersValid(users) && u in users
    ensures var (s, user, result, calls) := ClearOldPhoto(users, u, cloudinary);
      && result.Ok?
      && UsersValid(s) && user in s
      && FindUserById(s, u.id) == Some(user)
      && user.id == u.id && user.username == u.username && user.email == u.email
      && forall i :: 0 <= i < |users| && users[i].id != u.id ==> users[i] in s
  {
    var (s, user, result, calls) := ClearOldPhoto(users, u, cloudinary);
    if s == users {
      FindUserByIdUnique(users, u);
      assert user == u by {
        if user != u {
          SaveStoredUserSucceeds(users, u, WithoutPhoto(u));
        }
      }
    } else {
      SaveStoredUserSucceeds(users, u, WithoutPhoto(u));
      SaveUserKeepsValid(users, WithoutPhoto(u));
    }
  }

  /** The common setting of the photo lemmas: a stored caller, authenticated. */
  ghost predicate StoredCaller(users: seq<User>, auth: Option<Authentication>, u: User) {
    UsersValid(users) && u in users && GetCurrentUsername(auth) == Ok(u.username)
  }

  /** `updateProfilePhoto` keeps the unique indexes, whatever happens. */
  lemma UpdateProfilePhotoKeepsValid(users: seq<User>, auth: Option<Authentication>, file: Option<MultipartFile>,
                                     uuid: string, cloudinary: Cloudinary)
    requires UsersValid(users)
    ensures UsersValid(UpdateProfilePhotoIn(users, auth, file, uuid, cloudinary).0)
  {
    var caller := CallerRecord(users, auth);
    if caller.Ok? {
      var u := caller.value;
      ClearOldPhotoOfStoredUser(users, u, cloudinary);
      var (s, user, cleared, calls) := ClearOldPhoto(users, u, cloudinary);
      var upload := Upload(file, Some(ProfileFolder), uuid, cloudinary);
      if cleared.Ok? && upload.Ok? && "secure_url" in upload.value && "public_id" in upload.value {
        var m := upload.value;
        var updated := user.(profilePhotoUrl := Some(m["secure_url"]), profilePhotoPublicId := Some(m["public_id"]));
        SaveStoredUserSucceeds(s, user, updated);
        SaveUserKeepsValid(s, updated);
      }
    }
  }

  /** A successful upload that names the new image replaces both photo fields of the
      caller's stored record, returns them, and leaves every other user as stored. The
      store is asked to delete the old photo first, then to upload. */
  lemma PhotoReplaced(users: seq<User>, auth: Option<Authentication>, u: User, file: Option<MultipartFile>,
                      uuid: string, cloudinary: Cloudinary, m: map<string, string>)
    requires StoredCaller(users, auth, u)
    requires Upload(file, Some(ProfileFolder), uuid, cloudinary) == Ok(m)
    requires "secure_url" in m && "public_id" in m
    ensures var (s, r, calls) := UpdateProfilePhotoIn(users, auth, file, uuid, cloudinary);
      && r == Ok(map["url" := m["secure_url"], "publicId" := m["public_id"]])
      && FindUserById(s, u.id) == Some(u.(profilePhotoUrl := Some(m["secure_url"]), profilePhotoPublicId := Some(m["public_id"])))
      && (forall i :: 0 <= i < |users| && users[i].id != u.id ==> users[i] in s)
      && calls == PhotoDeletion(u.profilePhotoPublicId) + UploadCalls(file, Some(ProfileFolder), uuid)
  {
    CallerRecordIsStoredUser(users, auth, u);
    ClearOldPhotoOfStoredUser(users, u, cloudinary);
    var (s, user, cleared, calls) := ClearOldPhoto(users, u, cloudinary);
    var updated := user.(profilePhotoUrl := Some(m["secure_url"]), profilePhotoPublicId := Some(m["public_id"]));
    assert updated == u.(profilePhotoUrl := Some(m["secure_url"]), profilePhotoPublicId := Some(m["public_id"]));
    SaveStoredUserSucceeds(s, user, updated);
    SaveUserKeepsValid(s, updated);
  }

  /** A failed upload, the file checks included, is rethrown after the old photo has
      already been handled: unless its deletion failed unchecked, the stored record no
      longer names any photo. */
  lemma FailedUploadAfterOldPhotoCleared(users: seq<User>, auth: Option<Authentication>, u: User,
                                         file: Option<MultipartFile>, uuid: string, cloudinary: Cloudinary)
    requires StoredCaller(users, auth, u)
    requires Upload(file, Some(ProfileFolder), uuid, cloudinary).Throws?
    ensures var (s, r, calls) := UpdateProfilePhotoIn(users, auth, file, uuid, cloudinary);
      && r == Throws(Upload(file, Some(ProfileFolder), uuid, cloudinary).exception)
      && s == ClearOldPhoto(users, u, cloudinary).0
      && (HasPhoto(u.profilePhotoPublicId) && !cloudinary.destroy(u.profilePhotoPublicId.value).RuntimeFailure? ==>
            FindUserById(s, u.id) == Some(WithoutPhoto(u)))
      && (UploadRequest(file, Some(ProfileFolder), uuid).Throws? ==> calls == PhotoDeletion(u.profilePhotoPublicId))
  {
    CallerRecordIsStoredUser(users, auth, u);
    ClearOldPhotoOfStoredUser(users, u, cloudinary);
    assert PhotoDeletion(u.profilePhotoPublicId) + [] == PhotoDeletion(u.profilePhotoPublicId);
  }

  /** An upload result without the URL or the id is an IOException, or the unchecked
      failure of cleaning up the half-uploaded image when that fails; either way the
      photo fields are not set and the new image, if it has an id, is asked to be
      deleted last. */
  lemma MissingDetailsThrows(users: seq<User>, auth: Option<Authentication>, u: User, file: Option<MultipartFile>,
                             uuid: string, cloudinary: Cloudinary, m: map<string, string>)
    requires StoredCaller(users, auth, u)
    requires Upload(file, Some(ProfileFolder), uuid, cloudinary) == Ok(m)
    requires "secure_url" !in m || "public_id" !in m
    ensures var (s, r, calls) := UpdateProfilePhotoIn(users, auth, file, uuid, cloudinary);
      && s == ClearOldPhoto(users, u, cloudinary).0
      && (r == Throws(IOException(MissingDetailsMessage))
          || ("public_id" in m && cloudinary.destroy(m["public_id"]).RuntimeFailure? && r == Throws(StorageRuntimeException)))
      && ("public_id" in m ==> calls[|calls| - 1] == DestroyRequested(m["public_id"]))
  {
    CallerRecordIsStoredUser(users, auth, u);
    ClearOldPhotoOfStoredUser(users, u, cloudinary);
  }
}
