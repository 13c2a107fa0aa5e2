/** BlogService: the record-update rules for blogs. Each operation reads the `blogs`
    collection, changes fields of one blog and saves it, or deletes it. The clock and
    the id the store generates are parameters; the authentication is the one the
    security context holds. */
module BlogService {
  import opened Lang
  import opened Seqs
  import opened Entities
  import opened Repositories

  const UnauthenticatedMessage := "User must be authenticated to create a blog."

  function NotFoundMessage(id: string): string {
    "Blog not found with id: " + id
  }

  /** The author name `createBlog` takes from the authentication: absent or
      unauthenticated throws; a `UserDetails` principal gives its username, any other
      principal its name (the anonymous token passes as "anonymousUser"). */
  function PrincipalName(auth: Option<Authentication>): (r: Result<string>)
    ensures r.Throws? <==> auth.None? || !auth.value.IsAuthenticated()
    ensures r.Throws? ==> r.exception == IllegalStateException(UnauthenticatedMessage)
    ensures r.Ok? && auth.value.GetPrincipal().DetailsPrincipal? ==>
      r.value == auth.value.GetPrincipal().details.username
    ensures auth == Some(AnonymousToken) ==> r == Ok("anonymousUser")
  {
    if auth.Some? && auth.value.IsAuthenticated() then
      match auth.value.GetPrincipal()
      case DetailsPrincipal(details) => Ok(details.username)
      case NamePrincipal(_) => Ok(auth.value.GetName())
    else Throws(IllegalStateException(UnauthenticatedMessage))
  }

  /** The blog `createBlog` saves: authored by `author`, created and updated `now`,
      published; everything else as the client sent it. */
  function Authored(blog: Blog, author: string, now: nat): (b: Blog)
    ensures b.authorUsername == Some(author) && b.isPublished
    ensures b.createdAt == now && b.updatedAt == now
    ensures b.id == blog.id && b.topic == blog.topic && b.title == blog.title
    ensures b.subtitle == blog.subtitle && b.content == blog.content
  {
    blog.(authorUsername := Some(author), createdAt := now, updatedAt := now, isPublished := true)
  }

  /** `createBlog(blog)`: the new collection and the saved blog. */
  function CreateBlogIn(blogs: seq<Blog>, blog: Blog, auth: Option<Authentication>, generatedId: string, now: nat)
    : (r: (seq<Blog>, Result<Blog>))
    ensures PrincipalName(auth).Throws? ==> r == (blogs, Throws(IllegalStateException(UnauthenticatedMessage)))
    ensures r.1.Throws? ==> r.0 == blogs
    ensures r.1.Ok? ==>
      PrincipalName(auth).Ok? && SaveBlog(blogs, Authored(blog, PrincipalName(auth).value, now), generatedId) == Ok((r.0, r.1.value))
  {
    match PrincipalName(auth)
    case Throws(e) => (blogs, Throws(e))
    case Ok(name) =>
      match SaveBlog(blogs, Authored(blog, name, now), generatedId)
      case Throws(e) => (blogs, Throws(e))
      case Ok((s, saved)) => (s, Ok(saved))
  }

  /** `getBlogById(id)`. */
  function GetBlogById(blogs: seq<Blog>, id: string): (r: Result<Blog>)
    ensures r.Throws? <==> FindBlogById(blogs, id).None?
    ensures r.Throws? ==> r.exception == ResourceNotFoundException(NotFoundMessage(id))
    ensures r.Ok? ==> r.value in blogs && r.value.id == Some(id)
  {
    match FindBlogById(blogs, id)
    case None => Throws(ResourceNotFoundException(NotFoundMessage(id)))
    case Some(blog) => Ok(blog)
  }

  /** `getAllPublishedBlogs()`: the published blogs, all of them and only them. */
  function GetAllPublishedBlogs(blogs: seq<Blog>): (r: seq<Blog>)
    ensures forall i :: 0 <= i < |r| ==> r[i] in blogs && r[i].isPublished
    ensures forall i :: 0 <= i < |blogs| && blogs[i].isPublished ==> blogs[i] in r
  {
    Filter(blogs, (b: Blog) => b.isPublished)
  }

  /** The fields `updateBlog` copies from the request; the rest of the stored blog stays. */
  function Revised(existing: Blog, details: Blog, now: nat): (b: Blog)
    ensures b.title == details.title && b.subtitle == details.subtitle
    ensures b.content == details.content && b.topic == details.topic && b.updatedAt == now
    ensures b.id == existing.id && b.authorUsername == existing.authorUsername
    ensures b.createdAt == existing.createdAt && b.isPublished == existing.isPublished
  {
    existing.(title := details.title, subtitle := details.subtitle, content := details.content,
              topic := details.topic, updatedAt := now)
  }

  /** `updateBlog(id, blogDetails)`. The fetched blog carries its id, so the save
      replaces it and generates nothing. */
  function UpdateBlogIn(blogs: seq<Blog>, id: string, details: Blog, now: nat): (r: (seq<Blog>, Result<Blog>))
    ensures FindBlogById(blogs, id).None? ==> r == (blogs, Throws(ResourceNotFoundException(NotFoundMessage(id))))
    ensures FindBlogById(blogs, id).Some? ==> r.1 == Ok(Revised(FindBlogById(blogs, id).value, details, now))
  {
    match GetBlogById(blogs, id)
    case Throws(e) => (blogs, Throws(e))
    case Ok(existing) =>
      var (s, saved) := SaveBlog(blogs, Revised(existing, details, now), id).value;
      (s, Ok(saved))
  }

  /** The stored blog with its publish flag flipped. */
  function Toggled(b: Blog): (t: Blog)
    ensures t.isPublished == !b.isPublished
    ensures t.(isPublished := b.isPublished) == b
  {
    b.(isPublished := !b.isPublished)
  }

  /** `togglePublishStatus(id)`. */
  function TogglePublishIn(blogs: seq<Blog>, id: string): (r: (seq<Blog>, Result<()>))
    ensures FindBlogById(blogs, id).None? ==> r == (blogs, Throws(ResourceNotFoundException(NotFoundMessage(id))))
    ensures FindBlogById(blogs, id).Some? ==> r.1.Ok? && Toggled(FindBlogById(blogs, id).value) in r.0
  {
    match GetBlogById(blogs, id)
    case Throws(e) => (blogs, Throws(e))
    case Ok(existing) => (SaveBlog(blogs, Toggled(existing), id).value.0, Ok(()))
  }

  /** `deleteBlogById(id)`: an unknown id throws and deletes nothing. */
  function DeleteBlogIn(blogs: seq<Blog>, id: string): (r: (seq<Blog>, Result<()>))
    ensures !ExistsBlogById(blogs, id) ==> r == (blogs, Throws(ResourceNotFoundException(NotFoundMessage(id))))
    ensures ExistsBlogById(blogs, id) ==> r.1.Ok?
    ensures forall i :: 0 <= i < |r.0| ==> r.0[i] in blogs && r.0[i].id != Some(id)
    ensures forall i :: 0 <= i < |blogs| && blogs[i].id != Some(id) ==> blogs[i] in r.0
  {
    if !ExistsBlogById(blogs, id) then (blogs, Throws(ResourceNotFoundException(NotFoundMessage(id))))
    else (Repositories.DeleteBlogById(blogs, id), Ok(()))
  }

  // ----- the service over the `blogs` collection --------------------------------------

  method CreateBlog(blogRepo: BlogRepo, blog: Blog, auth: Option<Authentication>, generatedId: string, now: nat)
    returns (r: Result<Blog>)
    requires blogRepo.Valid()
    modifies blogRepo
    ensures blogRepo.Valid()
    ensures (blogRepo.blogs, r) == CreateBlogIn(old(blogRepo.blogs), blog, auth, generatedId, now)
  {
    var author := PrincipalName(auth);
    if author.Throws? {
      return Throws(author.exception);
    }
    var b := Authored(blog, author.value, now);
    var saved := SaveBlog(blogRepo.blogs, b, generatedId);
    if saved.Throws? {
      return Throws(saved.exception);
    }
    SaveBlogKeepsValid(blogRepo.blogs, b, generatedId);
    blogRepo.blogs := saved.value.0;
    r := Ok(saved.value.1);
  }

  method UpdateBlog(blogRepo: BlogRepo, id: string, details: Blog, now: nat) returns (r: Result<Blog>)
    requires blogRepo.Valid()
    modifies blogRepo
    ensures blogRepo.Valid()
    ensures (blogRepo.blogs, r) == UpdateBlogIn(old(blogRepo.blogs), id, details, now)
  {
    var existing := GetBlogById(blogRepo.blogs, id);
    if existing.Throws? {
      return Throws(existing.exception);
    }
    var b := Revised(existing.value, details, now);
    SaveBlogKeepsValid(blogRepo.blogs, b, id);
    var saved := SaveBlog(blogRepo.blogs, b, id).value;
    blogRepo.blogs := saved.0;
    r := Ok(saved.1);
  }

  method TogglePublishStatus(blogRepo: BlogRepo, id: string) returns (r: Result<()>)
    requires blogRepo.Valid()
    modifies blogRepo
    ensures blogRepo.Valid()
    ensures (blogRepo.blogs, r) == TogglePublishIn(old(blogRepo.blogs), id)
  {
    var existing := GetBlogById(blogRepo.blogs, id);
    if existing.Throws? {
      return Throws(existing.exception);
    }
    var b := Toggled(existing.value);
    SaveBlogKeepsValid(blogRepo.blogs, b, id);
    blogRepo.blogs := SaveBlog(blogRepo.blogs, b, id).value.0;
    r := Ok(());
  }

  method DeleteBlogById(blogRepo: BlogRepo, id: string) returns (r: Result<()>)
    requires blogRepo.Valid()
    modifies blogRepo
    ensures blogRepo.Valid()
    ensures (blogRepo.blogs, r) == DeleteBlogIn(old(blogRepo.blogs), id)
  {
    if !ExistsBlogById(blogRepo.blogs, id) {
      return Throws(ResourceNotFoundException(NotFoundMessage(id)));
    }
    DeleteBlogKeepsValid(blogRepo.blogs, id);
    blogRepo.blogs := Repositories.DeleteBlogById(blogRepo.blogs, id);
    r := Ok(());
  }

  // ----- properties -------------------------------------------------------------------

  /** A blog created without an id is stored under the generated id, authored by the
      caller, published, and is then the blog found under that id. */
  lemma CreatedBlogIsStored(blogs: seq<Blog>, blog: Blog, auth: Option<Authentication>, generatedId: string, now: nat)
    requires BlogsValid(blogs) && blog.id.None? && !ExistsBlogById(blogs, generatedId)
    requires PrincipalName(auth).Ok?
    ensures var (s, r) := CreateBlogIn(blogs, blog, auth, generatedId, now);
      && r == Ok(Authored(blog, PrincipalName(auth).value, now).(id := Some(generatedId)))
      && GetBlogById(s, generatedId) == r
      && BlogsValid(s)
      && forall i :: 0 <= i < |blogs| ==> blogs[i] in s
  {
    SaveBlogKeepsValid(blogs, Authored(blog, PrincipalName(auth).value, now), generatedId);
  }

  /** A client-supplied id is kept: creating a blog with the id of a stored blog
      replaces that blog, author and dates included. */
  lemma CreateWithStoredIdReplaces(blogs: seq<Blog>, blog: Blog, auth: Option<Authentication>, generatedId: string, now: nat)
    requires BlogsValid(blogs) && blog.id.Some? && ExistsBlogById(blogs, blog.id.value)
    requires PrincipalName(auth).Ok?
    ensures var (s, r) := CreateBlogIn(blogs, blog, auth, generatedId, now);
      && r == Ok(Authored(blog, PrincipalName(auth).value, now))
      && GetBlogById(s, blog.id.value) == r
      && |s| == |blogs|
  {
    var b := Authored(blog, PrincipalName(auth).value, now);
    SaveBlogKeepsValid(blogs, b, generatedId);
  }

  /** Under the unique id index, a stored blog is the one `getBlogById` returns. */
  lemma GetStoredBlog(blogs: seq<Blog>, b: Blog)
    requires BlogsValid(blogs) && b in blogs
    ensures GetBlogById(blogs, b.id.value) == Ok(b)
  {
    FindBlogByIdUnique(blogs, b);
  }

  /** An update of a stored blog leaves every other blog in place and is the blog found
      under its id afterwards. */
  lemma UpdateKeepsOtherBlogs(blogs: seq<Blog>, b: Blog, details: Blog, now: nat)
    requires BlogsValid(blogs) && b in blogs
    ensures var (s, r) := UpdateBlogIn(blogs, b.id.value, details, now);
      && r == Ok(Revised(b, details, now))
      && GetBlogById(s, b.id.value) == r
      && forall i :: 0 <= i < |blogs| && blogs[i] != b ==> blogs[i] in s
  {
    FindBlogByIdUnique(blogs, b);
    SaveBlogKeepsValid(blogs, Revised(b, details, now), b.id.value);
    forall i | 0 <= i < |blogs| && blogs[i] != b ensures blogs[i].id != b.id {
      var k :| 0 <= k < |blogs| && blogs[k] == b;
      assert i != k;
    }
  }

  /** Toggling the publish status twice gives back the collection as it was. */
  lemma ToggleTwiceRestores(blogs: seq<Blog>, id: string)
    requires BlogsValid(blogs) && ExistsBlogById(blogs, id)
    ensures TogglePublishIn(TogglePublishIn(blogs, id).0, id) == (blogs, Ok(()))
  {
    var b := FindBlogById(blogs, id).value;
    var i := IndexWhere(blogs, (v: Blog) => v.id == Some(id)).value;
    assert blogs[i] == b by { FindBlogByIdUnique(blogs, b); }
    var once := TogglePublishIn(blogs, id).0;
    assert once == blogs[i := Toggled(b)];
    SaveBlogKeepsValid(blogs, Toggled(b), id);
    assert FindBlogById(once, id) == Some(Toggled(b));
    assert Toggled(Toggled(b)) == b;
    assert once[i := b] == blogs;
  }

  /** A deleted blog is gone, and it was the only one to go. */
  lemma DeleteRemovesExactlyThatBlog(blogs: seq<Blog>, id: string)
    requires BlogsValid(blogs) && ExistsBlogById(blogs, id)
    ensures var (s, r) := DeleteBlogIn(blogs, id);
      && r == Ok(())
      && GetBlogById(s, id) == Throws(ResourceNotFoundException(NotFoundMessage(id)))
      && BlogsValid(s)
      && forall i :: 0 <= i < |blogs| && blogs[i].id != Some(id) ==> blogs[i] in s
  {
    DeleteBlogKeepsValid(blogs, id);
  }
}
