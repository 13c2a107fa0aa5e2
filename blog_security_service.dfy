/** BlogSecurityService: the ownership guard behind the blog endpoints' method-level
    checks. */
module BlogSecurityService {
  import opened Lang
  import opened Entities
  import opened Repositories

  function OwnershipNotFoundMessage(blogId: string): string {
    "Blog not found with id: " + blogId + " for ownership check"
  }

  /** `isOwner(blogId, username)`: false for a null argument, without a lookup; an
      unknown blog throws; otherwise whether the blog has an author equal to the name
      ignoring case. Reads the collection only. */
  function IsOwner(blogs: seq<Blog>, blogId: Option<string>, username: Option<string>): (r: Result<bool>)
    ensures blogId.None? || username.None? ==> r == Ok(false)
    ensures blogId.Some? && username.Some? && FindBlogById(blogs, blogId.value).None? ==>
      r == Throws(ResourceNotFoundException(OwnershipNotFoundMessage(blogId.value)))
    ensures r.Throws? ==> blogId.Some? && username.Some? && FindBlogById(blogs, blogId.value).None?
    ensures r == Ok(true) <==>
      (blogId.Some? && username.Some? && FindBlogById(blogs, blogId.value).Some?
       && var author := FindBlogById(blogs, blogId.value).value.authorUsername;
          author.Some? && EqualsIgnoreCase(author.value, username.value))
  {
    if username.None? || blogId.None? then Ok(false)
    else match FindBlogById(blogs, blogId.value)
      case None => Throws(ResourceNotFoundException(OwnershipNotFoundMessage(blogId.value)))
      case Some(blog) =>
        Ok(blog.authorUsername.Some? && EqualsIgnoreCase(blog.authorUsername.value, username.value))
  }

  /** For a stored blog, ownership is author equality after lower-casing both names. */
  lemma IsOwnerOfStoredBlog(blogs: seq<Blog>, b: Blog, username: string)
    requires BlogsValid(blogs) && b in blogs
    ensures IsOwner(blogs, b.id, Some(username)) ==
      Ok(b.authorUsername.Some? && LowerCase(b.authorUsername.value) == LowerCase(username))
  {
    FindBlogByIdUnique(blogs, b);
    if b.authorUsername.Some? {
      EqualsIgnoreCaseIsLowerCaseEquality(b.authorUsername.value, username);
    }
  }

  /** The author of a stored blog owns it. */
  lemma AuthorOwnsBlog(blogs: seq<Blog>, b: Blog)
    requires BlogsValid(blogs) && b in blogs && b.authorUsername.Some?
    ensures IsOwner(blogs, b.id, b.authorUsername) == Ok(true)
  {
    FindBlogByIdUnique(blogs, b);
    EqualsIgnoreCaseIsEquivalence(b.authorUsername.value, b.authorUsername.value, b.authorUsername.value);
  }
}
