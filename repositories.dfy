/** The `users` and `blogs` collections of the document store and the repository calls
    the services make on them. A collection is a sequence of documents. A write that
    would give two documents the same value of a unique index (`_id`, and the fields
    annotated `@Indexed(unique = true)`) throws DuplicateKeyException and changes nothing.
    `save` inserts a document without an id under a freshly generated one (a parameter
    here) and replaces the document whose id the argument carries. */
module Repositories {
  import opened Lang
  import opened Seqs
  import opened Entities

  // ----- users -----------------------------------------------------------------------

  function UserId(u: User): string { u.id }
  function UserName(u: User): string { u.username }
  function UserEmail(u: User): string { u.email }

  /** The unique indexes of the `users` collection: `_id`, `username`, `email`. */
  ghost predicate UsersValid(users: seq<User>) {
    UniqueBy(users, UserId) && UniqueBy(users, UserName) && UniqueBy(users, UserEmail)
  }

  /** `findByUsername`. */
  function FindUserByUsername(users: seq<User>, username: string): (r: Option<User>)
    ensures r.Some? ==> r.value in users && r.value.username == username
    ensures r.None? <==> forall i :: 0 <= i < |users| ==> users[i].username != username
  {
    Find(users, (u: User) => u.username == username)
  }

  /** `findById`. */
  function FindUserById(users: seq<User>, id: string): (r: Option<User>)
    ensures r.Some? ==> r.value in users && r.value.id == id
    ensures r.None? <==> forall i :: 0 <= i < |users| ==> users[i].id != id
  {
    Find(users, (u: User) => u.id == id)
  }

  /** `existsById`. */
  predicate ExistsUserById(users: seq<User>, id: string)
    ensures ExistsUserById(users, id) <==> FindUserById(users, id).Some?
  {
    exists i :: 0 <= i < |users| && users[i].id == id
  }

  /** Whether `u` would share a unique key with the stored document `v`. */
  predicate UserClash(v: User, u: User) {
    v.id == u.id || v.username == u.username || v.email == u.email
  }

  /** `save` of a new user: an insert. */
  function InsertUser(users: seq<User>, u: User): (r: Result<seq<User>>)
    ensures r.Throws? <==> exists i :: 0 <= i < |users| && UserClash(users[i], u)
    ensures r.Throws? ==> r.exception == DuplicateKeyException
    ensures r.Ok? ==> r.value == users + [u]
  {
    if exists i :: 0 <= i < |users| && UserClash(users[i], u) then Throws(DuplicateKeyException)
    else Ok(users + [u])
  }

  /** `save` of a fetched user: replaces the document with `u`'s id (inserting it if it
      is gone), unless another document holds `u`'s username or email. */
  function SaveUser(users: seq<User>, u: User): (r: Result<seq<User>>)
    ensures r.Throws? <==>
      exists i :: 0 <= i < |users| && users[i].id != u.id && UserClash(users[i], u)
    ensures r.Throws? ==> r.exception == DuplicateKeyException
    ensures r.Ok? ==> u in r.value
    ensures r.Ok? ==> forall i :: 0 <= i < |users| && users[i].id != u.id ==> users[i] in r.value
    ensures r.Ok? ==> forall i :: 0 <= i < |r.value| ==> r.value[i] == u || r.value[i] in users
    ensures r.Ok? ==> ExistsUserById(users, u.id) ==> |r.value| == |users|
  {
    if exists i :: 0 <= i < |users| && users[i].id != u.id && UserClash(users[i], u) then
      Throws(DuplicateKeyException)
    else match IndexWhere(users, (v: User) => v.id == u.id)
      case Some(i) =>
        assert users[i := u][i] == u;
        assert forall j :: 0 <= j < |users| && j != i ==> users[i := u][j] == users[j];
        Ok(users[i := u])
      case None =>
        assert (users + [u])[|users|] == u;
        Ok(users + [u])
  }

  /** `deleteById`. */
  function DeleteUserById(users: seq<User>, id: string): (r: seq<User>)
    ensures forall i :: 0 <= i < |r| ==> r[i] in users && r[i].id != id
    ensures forall i :: 0 <= i < |users| && users[i].id != id ==> users[i] in r
  {
    Filter(users, (u: User) => u.id != id)
  }

  /** Inserting keeps the unique indexes. */
  lemma InsertUserKeepsValid(users: seq<User>, u: User)
    requires UsersValid(users) && InsertUser(users, u).Ok?
    ensures UsersValid(InsertUser(users, u).value)
  {
    AppendKeepsUniqueBy(users, u, UserId);
    AppendKeepsUniqueBy(users, u, UserName);
    AppendKeepsUniqueBy(users, u, UserEmail);
  }

  /** Saving keeps the unique indexes, and the saved user is then the one found by id. */
  lemma SaveUserKeepsValid(users: seq<User>, u: User)
    requires UsersValid(users) && SaveUser(users, u).Ok?
    ensures UsersValid(SaveUser(users, u).value)
    ensures FindUserById(SaveUser(users, u).value, u.id) == Some(u)
  {
    var s := SaveUser(users, u).value;
    match IndexWhere(users, (v: User) => v.id == u.id)
    case Some(i) =>
      UpdateKeepsUniqueBy(users, i, u, UserId);
      UpdateKeepsUniqueBy(users, i, u, UserName);
      UpdateKeepsUniqueBy(users, i, u, UserEmail);
      FindUserByIdUnique(s, u);
    case None =>
      AppendKeepsUniqueBy(users, u, UserId);
      AppendKeepsUniqueBy(users, u, UserName);
      AppendKeepsUniqueBy(users, u, UserEmail);
      FindUserByIdUnique(s, u);
  }

  /** Saving a stored user back with its id, username and email unchanged never clashes. */
  lemma SaveStoredUserSucceeds(users: seq<User>, u: User, v: User)
    requires UsersValid(users) && u in users
    requires v.id == u.id && v.username == u.username && v.email == u.email
    ensures SaveUser(users, v).Ok?
  {
    var k :| 0 <= k < |users| && users[k] == u;
    forall i | 0 <= i < |users| && users[i].id != v.id ensures !UserClash(users[i], v) {
      assert i != k;
    }
  }

  /** Deleting keeps the unique indexes. */
  lemma DeleteUserKeepsValid(users: seq<User>, id: string)
    requires UsersValid(users)
    ensures UsersValid(DeleteUserById(users, id))
  {
    var keep := (u: User) => u.id != id;
    FilterKeepsUniqueBy(users, keep, UserId);
    FilterKeepsUniqueBy(users, keep, UserName);
    FilterKeepsUniqueBy(users, keep, UserEmail);
  }

  /** Under the unique username index, the lookup by username finds the one such user. */
  lemma FindUserByUsernameUnique(users: seq<User>, u: User)
    requires UsersValid(users) && u in users
    ensures FindUserByUsername(users, u.username) == Some(u)
  {
    FindUnique(users, UserName, u.username, (v: User) => v.username == u.username, u);
  }

  /** Under the unique id index, the lookup by id finds the one such user. */
  lemma FindUserByIdUnique(users: seq<User>, u: User)
    requires UsersValid(users) && u in users
    ensures FindUserById(users, u.id) == Some(u)
  {
    FindUnique(users, UserId, u.id, (v: User) => v.id == u.id, u);
  }

  /** The `users` collection. */
  class UserRepo {
    var users: seq<User>

    ghost predicate Valid()
      reads this
    {
      UsersValid(users)
    }

    constructor ()
      ensures Valid() && users == []
    {
      users := [];
    }
  }

  // ----- blogs -----------------------------------------------------------------------

  function BlogId(b: Blog): Option<string> { b.id }

  /** Every stored blog has an id, and no two share one. */
  ghost predicate BlogsValid(blogs: seq<Blog>) {
    (forall i :: 0 <= i < |blogs| ==> blogs[i].id.Some?) && UniqueBy(blogs, BlogId)
  }

  /** `findById`. */
  function FindBlogById(blogs: seq<Blog>, id: string): (r: Option<Blog>)
    ensures r.Some? ==> r.value in blogs && r.value.id == Some(id)
    ensures r.None? <==> forall i :: 0 <= i < |blogs| ==> blogs[i].id != Some(id)
  {
    Find(blogs, (b: Blog) => b.id == Some(id))
  }

  /** `existsById`. */
  predicate ExistsBlogById(blogs: seq<Blog>, id: string)
    ensures ExistsBlogById(blogs, id) <==> FindBlogById(blogs, id).Some?
  {
    exists i :: 0 <= i < |blogs| && blogs[i].id == Some(id)
  }

  /** `save`: a blog without an id is inserted under `generatedId`; a blog with an id
      replaces the stored blog with that id, or is inserted if there is none. Returns the
      new collection and the saved blog. */
  function SaveBlog(blogs: seq<Blog>, b: Blog, generatedId: string): (r: Result<(seq<Blog>, Blog)>)
    ensures r.Throws? <==> b.id.None? && ExistsBlogById(blogs, generatedId)
    ensures r.Throws? ==> r.exception == DuplicateKeyException
    ensures r.Ok? ==> r.value.1 == (if b.id.None? then b.(id := Some(generatedId)) else b)
    ensures r.Ok? ==> r.value.1 in r.value.0
    ensures r.Ok? ==> forall i :: 0 <= i < |blogs| && blogs[i].id != r.value.1.id ==> blogs[i] in r.value.0
    ensures r.Ok? ==> forall i :: 0 <= i < |r.value.0| ==> r.value.0[i] == r.value.1 || r.value.0[i] in blogs
  {
    var saved := if b.id.None? then b.(id := Some(generatedId)) else b;
    if b.id.None? && ExistsBlogById(blogs, generatedId) then Throws(DuplicateKeyException)
    else match IndexWhere(blogs, (v: Blog) => v.id == saved.id)
      case Some(i) =>
        assert blogs[i := saved][i] == saved;
        assert forall j :: 0 <= j < |blogs| && j != i ==> blogs[i := saved][j] == blogs[j];
        Ok((blogs[i := saved], saved))
      case None =>
        assert (blogs + [saved])[|blogs|] == saved;
        Ok((blogs + [saved], saved))
  }

  /** `deleteById`. */
  function DeleteBlogById(blogs: seq<Blog>, id: string): (r: seq<Blog>)
    ensures forall i :: 0 <= i < |r| ==> r[i] in blogs && r[i].id != Some(id)
    ensures forall i :: 0 <= i < |blogs| && blogs[i].id != Some(id) ==> blogs[i] in r
  {
    Filter(blogs, (b: Blog) => b.id != Some(id))
  }

  /** Saving keeps every blog identified and the ids unique, and the saved blog is then
      the one found by its id. */
  lemma SaveBlogKeepsValid(blogs: seq<Blog>, b: Blog, generatedId: string)
    requires BlogsValid(blogs) && SaveBlog(blogs, b, generatedId).Ok?
    ensures BlogsValid(SaveBlog(blogs, b, generatedId).value.0)
    ensures var (s, saved) := SaveBlog(blogs, b, generatedId).value;
      FindBlogById(s, saved.id.value) == Some(saved)
  {
    var (s, saved) := SaveBlog(blogs, b, generatedId).value;
    match IndexWhere(blogs, (v: Blog) => v.id == saved.id)
    case Some(i) =>
      UpdateKeepsUniqueBy(blogs, i, saved, BlogId);
      FindBlogByIdUnique(s, saved);
    case None =>
      AppendKeepsUniqueBy(blogs, saved, BlogId);
      FindBlogByIdUnique(s, saved);
  }

  /** Deleting keeps the blog ids unique. */
  lemma DeleteBlogKeepsValid(blogs: seq<Blog>, id: string)
    requires BlogsValid(blogs)
    ensures BlogsValid(DeleteBlogById(blogs, id))
  {
    FilterKeepsUniqueBy(blogs, (b: Blog) => b.id != Some(id), BlogId);
  }

  /** Under the unique id index, the lookup by id finds the one such blog. */
  lemma FindBlogByIdUnique(blogs: seq<Blog>, b: Blog)
    requires BlogsValid(blogs) && b in blogs
    ensures FindBlogById(blogs, b.id.value) == Some(b)
  {
    FindUnique(blogs, BlogId, b.id, (v: Blog) => v.id == Some(b.id.value), b);
  }

  /** The `blogs` collection. */
  class BlogRepo {
    var blogs: seq<Blog>

    ghost predicate Valid()
      reads this
    {
      BlogsValid(blogs)
    }

    constructor ()
      ensures Valid() && blogs == []
    {
      blogs := [];
    }
  }
}
