/**
 * The blog platform's state: the `users`, `posts` and `comments` tables as
 * sequences of rows in storage order, the upload directory as a set of file
 * names, and the next value of each table's AUTO_INCREMENT counter. `Site`
 * holds that state together with the session of the request being served.
 */
module Blog {
  import opened Base
  import opened Query
  import opened Config
  import opened Uploads

  /** A `users` row; `password` is the stored `password_hash` value. */
  datatype User = User(id: int, username: string, email: string, password: string, role: string,
                       profileImage: Option<string>, createdAt: int)

  /** A `posts` row. */
  datatype Post = Post(id: int, title: string, slug: string, content: string, excerpt: string,
                       featuredImage: Option<string>, authorId: int, status: string, createdAt: int)

  /** A `comments` row. */
  datatype Comment = Comment(id: int, postId: int, authorId: int, content: string, status: string, createdAt: int)

  /** All of the database and the upload directory. */
  datatype Store = Store(users: seq<User>, posts: seq<Post>, comments: seq<Comment>, files: set<string>,
                         nextUserId: int, nextPostId: int, nextCommentId: int)

  function UserId(u: User): int { u.id }
  function Username(u: User): string { u.username }
  function UserEmail(u: User): string { u.email }
  function PostId(p: Post): int { p.id }
  function PostSlug(p: Post): string { p.slug }
  function CommentId(c: Comment): int { c.id }

  /** User ids are positive, below the counter and distinct; usernames and emails are distinct. */
  ghost predicate ValidUsers(users: seq<User>, next: int) {
    0 < next
    && (forall i :: 0 <= i < |users| ==> 0 < users[i].id < next)
    && DistinctBy(users, UserId) && DistinctBy(users, Username) && DistinctBy(users, UserEmail)
  }

  /** Post ids are positive, below the counter and distinct; slugs are distinct. */
  ghost predicate ValidPosts(posts: seq<Post>, next: int) {
    0 < next
    && (forall i :: 0 <= i < |posts| ==> 0 < posts[i].id < next)
    && DistinctBy(posts, PostId) && DistinctBy(posts, PostSlug)
  }

  /** Comment ids are positive, below the counter and distinct. */
  ghost predicate ValidComments(comments: seq<Comment>, next: int) {
    0 < next
    && (forall i :: 0 <= i < |comments| ==> 0 < comments[i].id < next)
    && DistinctBy(comments, CommentId)
  }

  /**
   * What the tables promise: AUTO_INCREMENT primary keys, unique usernames,
   * emails and post slugs.
   */
  ghost predicate Valid(db: Store) {
    ValidUsers(db.users, db.nextUserId) && ValidPosts(db.posts, db.nextPostId)
    && ValidComments(db.comments, db.nextCommentId)
  }

  /**
   * What the pages get from outside PHP code they can see: `uniqid()`, whether
   * `move_uploaded_file` succeeds, the clock (`NOW()`, `time()`), whether the
   * page's write statement (`dbOk`) and its guarded read query (`queryOk`) run
   * without a `PDOException`, and the built-ins `strip_tags`,
   * `filter_var(..., FILTER_VALIDATE_EMAIL)`, `password_verify`,
   * `password_hash`, `filter_var(..., FILTER_SANITIZE_URL)`,
   * `htmlspecialchars` and `urlencode`.
   */
  datatype Env = Env(token: string, moveOk: bool, now: int, dbOk: bool, queryOk: bool,
                     stripTags: string -> string, validEmail: string -> bool,
                     verify: (string, string) -> bool, hash: string -> string,
                     sanitizeUrl: string -> string, escapeHtml: string -> string, urlEncode: string -> string)

  /** `SELECT ... FROM posts WHERE id = ?`, first row. */
  function PostById(posts: seq<Post>, id: int): Option<Post> {
    First(posts, (p: Post) => p.id == id)
  }

  /** `SELECT ... FROM users WHERE id = ?`, first row. */
  function UserById(users: seq<User>, id: int): Option<User> {
    First(users, (u: User) => u.id == id)
  }

  /** The state after an action function of an admin page, and the exception it threw, if any. */
  datatype Change = Change(db: Store, error: Option<Error>)

  /** The state of the site while one request runs. */
  class Site {
    var users: seq<User>
    var posts: seq<Post>
    var comments: seq<Comment>
    var files: set<string>
    var nextUserId: int
    var nextPostId: int
    var nextCommentId: int
    var session: Session

    /** The database and the upload directory as one value. */
    function Db(): Store
      reads this
    {
      Store(users, posts, comments, files, nextUserId, nextPostId, nextCommentId)
    }

    constructor (db: Store, s: Session)
      ensures Db() == db && session == s
    {
      users, posts, comments, files := db.users, db.posts, db.comments, db.files;
      nextUserId, nextPostId, nextCommentId := db.nextUserId, db.nextPostId, db.nextCommentId;
      session := s;
    }

    /**
     * The upload helpers of add_post.php, edit_post.php and profile.php run on
     * the directory: checks first, then the old file is unlinked, then the new
     * one moved in. The image name (or the exception) is returned.
     */
    method UploadImage(file: Option<UploadedFile>, current: Option<string>, prefix: string, token: string, moveOk: bool)
      returns (image: Result<Option<string>>)
      modifies this
      ensures Upload(image, files) == ReplaceImage(old(files), file, current, prefix, token, moveOk)
      ensures Db() == old(Db()).(files := files) && session == old(session)
    {
      if !Received(file) {
        return Ok(current);
      }
      var f := file.value;
      var rejected := CheckImage(f.declaredType, f.size, PostImageTypes, TypeRejected);
      if rejected.Some? {
        return Err(rejected.value);
      }
      if Truthy(current) && current.value in files {
        files := files - {current.value};
      }
      var name := StoredName(prefix, token, f.name);
      if !moveOk {
        return Err(Msg(MoveFailed));
      }
      files := files + {name};
      return Ok(Some(name));
    }

    /** The image step of the edit and profile handlers: remove, replace or keep. */
    method ChangeImage(remove: bool, file: Option<UploadedFile>, current: Option<string>, prefix: string,
                       token: string, moveOk: bool) returns (image: Result<Option<string>>)
      modifies this
      ensures Upload(image, files) == ChooseImage(old(files), remove, file, current, prefix, token, moveOk)
      ensures Db() == old(Db()).(files := files) && session == old(session)
    {
      if remove {
        if Truthy(current) && current.value in files {
          files := files - {current.value};
        }
        return Ok(None);
      } else if file.Some? {
        image := UploadImage(file, current, prefix, token, moveOk);
      } else {
        return Ok(current);
      }
    }
  }
}
