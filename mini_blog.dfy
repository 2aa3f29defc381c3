/**
 * The second, smaller application, mini-blog-admin: a `posts` table whose
 * `image` column is a plain string ('' for none), a `users` table, and an
 * `uploads/` directory. Its create and edit pages share one validation.
 */
module MiniBlog {
  import opened Base
  import opened Php
  import opened Query
  import opened Config
  import opened Uploads

  /** A `posts` row of mini-blog-admin. */
  datatype MiniPost = MiniPost(id: int, title: string, content: string, image: string, createdAt: int)

  /** A `users` row of mini-blog-admin; `password` is the stored hash. */
  datatype MiniUser = MiniUser(id: int, username: string, password: string)

  /** Both tables, the next AUTO_INCREMENT post id, and the upload directory. */
  datatype MiniStore = MiniStore(posts: seq<MiniPost>, users: seq<MiniUser>, files: set<string>, nextId: int)

  /**
   * How one `execute()` of a write ends: it returns true, it returns false,
   * or it throws a `PDOException` with the given message (which error mode
   * the connection uses is up to db.php, which is not part of this model).
   */
  datatype Exec = Done | Failed | Raised(message: string)

  /** What the pages get from outside: `time()`, `move_uploaded_file`, the write's outcome, `password_verify`. */
  datatype MiniEnv = MiniEnv(now: nat, moveOk: bool, exec: Exec, verify: (string, string) -> bool)

  /** How a request ends, with the state it leaves. */
  datatype MiniStep = MiniStep(db: MiniStore, session: Session, response: Response)

  function MiniPostId(p: MiniPost): int { p.id }

  /** Post ids are positive, below the counter and distinct. */
  ghost predicate MiniValid(db: MiniStore) {
    0 < db.nextId && (forall i :: 0 <= i < |db.posts| ==> 0 < db.posts[i].id < db.nextId)
    && DistinctBy(db.posts, MiniPostId)
  }

  const MiniLoginPage := "login.php"
  const ListPage := "posts.php"

  /** `$allowed_types`: note the non-standard "image/jpg" next to "image/jpeg". */
  const MiniImageTypes: seq<string> := ["image/jpeg", "image/jpg", "image/png", "image/gif"]

  /** The entries a create or edit request can push onto `$errors`. */
  datatype Problem = TitleMissing | ContentMissing | BadType | Oversized | MoveFailed | DbFailed | DbRaised(message: string)

  /** The text of each entry. */
  function Text(p: Problem): string {
    match p
    case TitleMissing => "Title is required"
    case ContentMissing => "Content is required"
    case BadType => "Invalid image type. Only JPEG, PNG, and GIF allowed."
    case Oversized => "Image size too large. Maximum 5MB allowed."
    case MoveFailed => "Failed to upload image"
    case DbFailed => "Database error occurred"
    case DbRaised(m) => "Database error: " + m
  }

  /** The page lists the entries of `$errors`. */
  function Messages(ps: seq<Problem>): (r: seq<Error>)
    ensures |r| == |ps| && forall i :: 0 <= i < |ps| ==> r[i] == Msg(Text(ps[i]))
  {
    if ps == [] then [] else [Msg(Text(ps[0]))] + Messages(ps[1..])
  }

  /** A post form of create_post.php or edit_post.php; absent text fields are "". */
  datatype MiniForm = MiniForm(title: string, content: string, image: Option<UploadedFile>)

  function FieldProblems(title: string, content: string): (r: seq<Problem>)
    ensures TitleMissing in r <==> Empty(title)
    ensures ContentMissing in r <==> Empty(content)
    ensures r == [] || r == [TitleMissing] || r == [ContentMissing] || r == [TitleMissing, ContentMissing]
  {
    (if Empty(title) then [TitleMissing] else []) + (if Empty(content) then [ContentMissing] else [])
  }

  /** A received file is checked for its declared type and, independently, its size. */
  function ImageProblems(file: Option<UploadedFile>): (r: seq<Problem>)
    ensures BadType in r <==> Received(file) && file.value.declaredType !in MiniImageTypes
    ensures Oversized in r <==> Received(file) && file.value.size > MaxImageBytes
    ensures r == [] || r == [BadType] || r == [Oversized] || r == [BadType, Oversized]
  {
    if !Received(file) then []
    else
      (if file.value.declaredType !in MiniImageTypes then [BadType] else [])
      + (if file.value.size > MaxImageBytes then [Oversized] else [])
  }

  /**
   * The checks both post forms run on the trimmed title and content: every
   * failing check adds its entry, none stops the others.
   */
  function Validate(title: string, content: string, file: Option<UploadedFile>): (r: seq<Problem>)
    ensures |r| <= 4
    ensures TitleMissing in r <==> Empty(title)
    ensures ContentMissing in r <==> Empty(content)
    ensures BadType in r <==> Received(file) && file.value.declaredType !in MiniImageTypes
    ensures Oversized in r <==> Received(file) && file.value.size > MaxImageBytes
    ensures forall p :: p in r ==> p in {TitleMissing, ContentMissing, BadType, Oversized}
  {
    FieldProblems(title, content) + ImageProblems(file)
  }

  /** `time() . '_' . $name`: the stored name of an upload. */
  function StoredAs(now: nat, name: string): string {
    Decimal(now) + "_" + name
  }

  /** The directory, the image column's value, and the errors, after the upload step of a post form. */
  datatype Staged = Staged(files: set<string>, image: string, errors: seq<Problem>)

  /** `SELECT * FROM posts WHERE id = ?`, first row. */
  function MiniPostById(posts: seq<MiniPost>, id: int): Option<MiniPost> {
    First(posts, (p: MiniPost) => p.id == id)
  }

  function NewestFirst(p: MiniPost): int {
    -p.createdAt
  }

  /** `SELECT * FROM posts ORDER BY created_at DESC`: every row, newest first. */
  function ListPosts(db: MiniStore): (r: seq<MiniPost>)
    ensures forall i, j :: 0 <= i < j < |r| ==> r[i].createdAt >= r[j].createdAt
    ensures multiset(r) == multiset(db.posts)
  {
    var r := SortBy(db.posts, NewestFirst);
    assert forall i, j :: 0 <= i < j < |r| ==> NewestFirst(r[i]) <= NewestFirst(r[j]);
    r
  }

  /** The state of mini-blog-admin while one request runs. */
  class MiniSite {
    var posts: seq<MiniPost>
    var users: seq<MiniUser>
    var files: set<string>
    var nextId: int
    var session: Session

    function Db(): MiniStore
      reads this
    {
      MiniStore(posts, users, files, nextId)
    }

    constructor (db: MiniStore, s: Session)
      ensures Db() == db && session == s
    {
      posts, users, files, nextId := db.posts, db.users, db.files, db.nextId;
      session := s;
    }
  }
}
