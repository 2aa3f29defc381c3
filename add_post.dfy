/**
 * admin/add_post.php: slug allocation by sequential probing (`makeSlug`,
 * shared with the edit page, which excludes the edited post) and the handler
 * that validates the form, allocates the slug, stores the image, fills in the
 * excerpt and inserts the post.
 */
module AddPost {
  import opened Base
  import opened Php
  import opened Query
  import opened Config
  import opened Uploads
  import opened Blog

  // ---------------------------------------------------------- slug probing

  /** The `k`-th slug tried: the base itself, then `base-1`, `base-2`, ... */
  function Candidate(base: string, k: nat): (r: string)
    ensures k == 0 <==> |r| == |base|
  {
    if k == 0 then base else base + "-" + Decimal(k)
  }

  /** Different probe numbers give different slugs. */
  lemma CandidateInjective(base: string, j: nat, k: nat)
    requires Candidate(base, j) == Candidate(base, k)
    ensures j == k
  {
    if j != 0 && k != 0 {
      var a, b := Candidate(base, j), Candidate(base, k);
      assert a[|base| + 1..] == Decimal(j);
      assert b[|base| + 1..] == Decimal(k);
      DecimalInjective(j, k);
    }
  }

  /** The slugs tried before probe `k`. */
  ghost function Probed(base: string, k: nat): set<string> {
    set j | 0 <= j < k :: Candidate(base, j)
  }

  lemma {:induction false} ProbedSize(base: string, k: nat)
    ensures |Probed(base, k)| == k
  {
    if k > 0 {
      ProbedSize(base, k - 1);
      assert Probed(base, k) == Probed(base, k - 1) + {Candidate(base, k - 1)};
      if Candidate(base, k - 1) in Probed(base, k - 1) {
        var j :| 0 <= j < k - 1 && Candidate(base, j) == Candidate(base, k - 1);
        CandidateInjective(base, j, k - 1);
      }
    }
  }

  lemma {:induction false} SubsetSize<T>(a: set<T>, b: set<T>)
    requires a <= b
    ensures |a| <= |b|
  {
    if a != {} {
      var x :| x in a;
      SubsetSize(a - {x}, b - {x});
    }
  }

  /** When the first `k` probes all hit taken slugs, there are at least `k` taken slugs. */
  lemma ProbeBound(base: string, k: nat, taken: set<string>)
    requires forall j :: 0 <= j < k ==> Candidate(base, j) in taken
    ensures k <= |taken|
  {
    ProbedSize(base, k);
    SubsetSize(Probed(base, k), taken);
  }

  /**
   * The number of the first free probe at or after `k`: the probe loop ends
   * after at most `|taken| + 1` queries.
   */
  function FirstFree(base: string, taken: set<string>, k: nat): (n: nat)
    requires forall j :: 0 <= j < k ==> Candidate(base, j) in taken
    ensures k <= n <= |taken|
    ensures Candidate(base, n) !in taken
    ensures forall j :: 0 <= j < n ==> Candidate(base, j) in taken
    decreases |taken| - k
  {
    ProbeBound(base, k, taken);
    if Candidate(base, k) !in taken then k
    else
      ProbeBound(base, k + 1, taken);
      FirstFree(base, taken, k + 1)
  }

  /** The first free probe is the least one: any free probe with all earlier ones taken is it. */
  lemma {:induction false} FirstFreeIsLeast(base: string, taken: set<string>, k: nat, n: nat)
    requires forall j :: 0 <= j < k ==> Candidate(base, j) in taken
    requires k <= n && Candidate(base, n) !in taken
    requires forall j :: 0 <= j < n ==> Candidate(base, j) in taken
    ensures FirstFree(base, taken, k) == n
    decreases n - k
  {
    if k < n {
      assert Candidate(base, k) in taken;
      ProbeBound(base, k + 1, taken);
      FirstFreeIsLeast(base, taken, k + 1, n);
    }
  }

  /** The slugs a probe query finds: every post's, except the post with id `exclude`. */
  function TakenSlugs(posts: seq<Post>, exclude: Option<int>): set<string> {
    set i | 0 <= i < |posts| && (exclude.None? || posts[i].id != exclude.value) :: posts[i].slug
  }

  /** `SELECT id FROM posts WHERE slug = ? [AND id != ?]` finds a row. */
  predicate SlugInUse(posts: seq<Post>, slug: string, exclude: Option<int>) {
    slug in TakenSlugs(posts, exclude)
  }

  /** What `makeSlug` returns: the first free probe of the slug base. */
  function SlugFor(title: string, posts: seq<Post>, exclude: Option<int>): (slug: string)
    ensures !SlugInUse(posts, slug, exclude)
    ensures exists n: nat :: n <= |TakenSlugs(posts, exclude)| && slug == Candidate(SlugBase(title), n)
  {
    var base := SlugBase(title);
    var n := FirstFree(base, TakenSlugs(posts, exclude), 0);
    Candidate(base, n)
  }

  /**
   * `makeSlug($title, $pdo[, $excludeId])`: the base is not trimmed of `-`;
   * probe `base`, then `base-1`, `base-2`, ... until no other post has it.
   */
  method MakeSlug(title: string, posts: seq<Post>, exclude: Option<int>) returns (slug: string)
    ensures slug == SlugFor(title, posts, exclude)
    ensures !SlugInUse(posts, slug, exclude)
  {
    var originalSlug := SlugBase(title);
    slug := originalSlug;
    var counter: nat := 1;
    ghost var taken := TakenSlugs(posts, exclude);
    while true
      invariant slug == Candidate(originalSlug, counter - 1)
      invariant forall j :: 0 <= j < counter - 1 ==> Candidate(originalSlug, j) in taken
      decreases |taken| - counter
    {
      if !SlugInUse(posts, slug, exclude) {
        break;
      }
      ProbeBound(originalSlug, counter, taken);
      slug := originalSlug + "-" + Decimal(counter);
      counter := counter + 1;
    }
    FirstFreeIsLeast(originalSlug, taken, 0, counter - 1);
  }

  /** `makeSlug` keeps the `-` a trailing "!" becomes; `createSlug` strips it. */
  lemma MakeSlugKeepsTrailingHyphen()
    ensures SlugBase("Hello" + "!") == "hello" + "-"
    ensures CreateSlug("Hello" + "!") == "hello"
  {
    assert Word("Hello") && Separator("!");
    TrailingSeparator("Hello", "!");
    HelloLowerPieces();
  }

  /** A title whose base is already taken, with nothing else in the way, gets the suffix `-1`. */
  lemma SecondPostGetsSuffix(title: string, posts: seq<Post>)
    requires TakenSlugs(posts, None) == {SlugBase(title)}
    ensures SlugFor(title, posts, None) == SlugBase(title) + "-1"
  {
    var base := SlugBase(title);
    OnlyBaseTaken(base, TakenSlugs(posts, None));
    assert Candidate(base, 1) == base + "-1" by {
      assert Decimal(1) == "1";
    }
  }

  /** With only the base taken, the second probe is the first free one. */
  lemma OnlyBaseTaken(base: string, taken: set<string>)
    requires taken == {base}
    ensures FirstFree(base, taken, 0) == 1
  {
    assert Candidate(base, 0) in taken;
    assert |Candidate(base, 1)| != |base|;
    FirstFreeIsLeast(base, taken, 0, 1);
  }

  /** A second post titled "Hello, World! 2024" (written in its pieces) gets "hello-world-2024-1". */
  lemma SecondHelloWorld(posts: seq<Post>)
    requires TakenSlugs(posts, None) == {"hello" + "-" + "world" + "-" + "2024"}
    ensures SlugFor("Hello" + ", " + "World" + "! " + "2024", posts, None) == "hello" + "-" + "world" + "-" + "2024" + "-1"
  {
    assert Word("Hello") && Word("World") && Word("2024") && Separator(", ") && Separator("! ");
    CreateSlugThreeWords("Hello", ", ", "World", "! ", "2024");
    HelloLowerPieces();
    SecondPostGetsSuffix("Hello" + ", " + "World" + "! " + "2024", posts);
  }

  // --------------------------------------------------------------- handler

  /**
   * The post form as submitted: absent text fields are "", `status` is absent
   * or the submitted value, `image` the `$_FILES` entry if any, `removeImage`
   * whether `remove_image` was submitted equal to '1' (edit form only).
   */
  datatype PostForm = PostForm(title: string, content: string, excerpt: string, status: Option<string>,
                               image: Option<UploadedFile>, removeImage: bool)

  const TitleRequired := "Title is required."
  const ContentRequired := "Content is required."
  const PostsPage := "posts.php"

  /** An empty excerpt becomes the first 200 bytes of the tag-stripped content and "...", even for short content. */
  function AutoExcerpt(excerpt: string, content: string, stripTags: string -> string): (r: string)
    ensures !Empty(excerpt) ==> r == excerpt
    ensures Empty(excerpt) ==> 3 <= |r| <= 203 && r[|r| - 3..] == "..." && r[..|r| - 3] == Prefix(stripTags(content), 200)
  {
    if Empty(excerpt) then Prefix(stripTags(content), 200) + "..." else excerpt
  }

  /** The first validation failure of the add and edit forms, title first. */
  function ValidatePost(title: string, content: string): (r: Option<Error>)
    ensures r.None? <==> !Empty(title) && !Empty(content)
    ensures Empty(title) ==> r == Some(Msg(TitleRequired))
    ensures !Empty(title) && Empty(content) ==> r == Some(Msg(ContentRequired))
  {
    if Empty(title) then Some(Msg(TitleRequired))
    else if Empty(content) then Some(Msg(ContentRequired))
    else None
  }

  /** The flash message after a successful insert. */
  function SavedMessage(status: string): string {
    "Post " + (if status == "published" then "published" else "saved") + " successfully!"
  }

  /** A session-and-state pair, the result of a request on the blog platform. */
  datatype Step = Step(db: Store, session: Session, response: Response)

  /** The row the insert writes. */
  function NewPost(db: Store, author: int, title: string, slug: string, content: string, excerpt: string,
                   image: Option<string>, status: string, now: int): Post {
    Post(db.nextPostId, title, slug, content, excerpt, image, author, status, now)
  }

  /**
   * The whole of a POST to add_post.php: login required; title, then content,
   * must be non-empty; the slug is allocated and the image stored before the
   * insert; a failing insert leaves the stored image behind.
   */
  function AddPostSpec(db: Store, s: Session, form: PostForm, env: Env): (r: Step)
    ensures r.session == s && r.db.users == db.users && r.db.comments == db.comments
    ensures !IsLoggedIn(s) ==> r.db == db && r.response == Redirected(Redirect(LoginPage, None))
    ensures r.db != db ==> IsLoggedIn(s) && ValidatePost(TrimWs(form.title), TrimWs(form.content)).None?
    ensures r.db.posts != db.posts ==> env.dbOk && |r.db.posts| == |db.posts| + 1 && r.db.posts[..|db.posts|] == db.posts
    ensures Valid(db) ==> Valid(r.db)
  {
    if !IsLoggedIn(s) then Step(db, s, Redirected(Redirect(LoginPage, None)))
    else
      var title, content := TrimWs(form.title), TrimWs(form.content);
      match ValidatePost(title, content)
      case Some(e) => Step(db, s, Shown([e]))
      case None =>
        InsertPost(db, s, title, SlugFor(title, db.posts, None), content, TrimWs(form.excerpt),
                   form.status.GetOr("draft"), form.image, env)
  }

  /** The part of the add handler after validation and slug allocation: upload, excerpt, insert. */
  function InsertPost(db: Store, s: Session, title: string, slug: string, content: string, excerpt: string,
                      status: string, image: Option<UploadedFile>, env: Env): (r: Step)
    requires IsLoggedIn(s)
    ensures r.session == s && r.db.users == db.users && r.db.comments == db.comments
    ensures Valid(db) && !SlugInUse(db.posts, slug, None) ==> Valid(r.db)
    ensures r.db.files == AddImage(db.files, image, env.token, env.moveOk).files
    ensures r.db.posts != db.posts <==> r.response.Redirected?
    ensures r.response.Redirected? ==>
      env.dbOk && AddImage(db.files, image, env.token, env.moveOk).image.Ok?
      && r.response == Redirected(Redirect(PostsPage, Some(Success(SavedMessage(status)))))
      && r.db.posts == db.posts + [NewPost(db, s.userId.value, title, slug, content, AutoExcerpt(excerpt, content, env.stripTags),
                                           AddImage(db.files, image, env.token, env.moveOk).image.value, status, env.now)]
      && r.db.nextPostId == db.nextPostId + 1
    ensures !r.response.Redirected? ==> r.db.posts == db.posts && r.db.nextPostId == db.nextPostId
  {
    var up := AddImage(db.files, image, env.token, env.moveOk);
    var db1 := db.(files := up.files);
    if up.image.Err? then Step(db1, s, Shown([up.image.error]))
    else if !env.dbOk then Step(db1, s, Shown([Db("")]))
    else
      var p := NewPost(db, s.userId.value, title, slug, content, AutoExcerpt(excerpt, content, env.stripTags),
                       up.image.value, status, env.now);
      InsertKeepsValid(db, p);
      Step(db1.(posts := db.posts + [p], nextPostId := db.nextPostId + 1), s,
           Redirected(Redirect(PostsPage, Some(Success(SavedMessage(status))))))
  }

  /** Without a login the page redirects to the login form and changes nothing. */
  lemma AddPostNeedsLogin(db: Store, s: Session, form: PostForm, env: Env)
    requires !IsLoggedIn(s)
    ensures AddPostSpec(db, s, form, env) == Step(db, s, Redirected(Redirect(LoginPage, None)))
  {
  }

  /** A missing title or content is reported before slug allocation or any upload: nothing changes. */
  lemma AddPostValidatesFirst(db: Store, s: Session, form: PostForm, env: Env)
    requires IsLoggedIn(s) && ValidatePost(TrimWs(form.title), TrimWs(form.content)).Some?
    ensures AddPostSpec(db, s, form, env) == Step(db, s, Shown([ValidatePost(TrimWs(form.title), TrimWs(form.content)).value]))
  {
  }

  /**
   * A post is added only by a logged-in author whose form validates and whose
   * insert succeeds; the one appended row has the next id, the trimmed title
   * and content, the allocated slug, the excerpt rule's excerpt, the stored
   * upload's name, the author's id and the status (default "draft").
   */
  lemma AddPostAppends(db: Store, s: Session, form: PostForm, env: Env)
    requires AddPostSpec(db, s, form, env).db.posts != db.posts
    ensures IsLoggedIn(s) && ValidatePost(TrimWs(form.title), TrimWs(form.content)).None? && env.dbOk
    ensures AddPostSpec(db, s, form, env).response
            == Redirected(Redirect(PostsPage, Some(Success(SavedMessage(form.status.GetOr("draft"))))))
    ensures AddImage(db.files, form.image, env.token, env.moveOk).image.Ok?
    ensures AddPostSpec(db, s, form, env).db.posts
            == db.posts + [Post(db.nextPostId, TrimWs(form.title), SlugFor(TrimWs(form.title), db.posts, None),
                                TrimWs(form.content), AutoExcerpt(TrimWs(form.excerpt), TrimWs(form.content), env.stripTags),
                                AddImage(db.files, form.image, env.token, env.moveOk).image.value,
                                s.userId.value, form.status.GetOr("draft"), env.now)]
  {
  }

  /** A form without a received file adds a post with no featured image and writes no file. */
  lemma AddPostWithoutFile(db: Store, s: Session, form: PostForm, env: Env)
    requires IsLoggedIn(s) && ValidatePost(TrimWs(form.title), TrimWs(form.content)).None? && env.dbOk
    requires !Received(form.image)
    ensures AddPostSpec(db, s, form, env).db.files == db.files
    ensures |AddPostSpec(db, s, form, env).db.posts| == |db.posts| + 1
    ensures AddPostSpec(db, s, form, env).db.posts[|db.posts|].featuredImage.None?
  {
  }

  /** An accepted and moved file is stored as `post_` + token + "." + extension, and the new row names it. */
  lemma AddPostStoresUpload(db: Store, s: Session, form: PostForm, env: Env)
    requires IsLoggedIn(s) && ValidatePost(TrimWs(form.title), TrimWs(form.content)).None? && env.dbOk
    requires Received(form.image) && env.moveOk
    requires CheckImage(form.image.value.declaredType, form.image.value.size, PostImageTypes, TypeRejected).None?
    ensures AddPostSpec(db, s, form, env).db.files == db.files + {StoredName("post_", env.token, form.image.value.name)}
    ensures |AddPostSpec(db, s, form, env).db.posts| == |db.posts| + 1
    ensures AddPostSpec(db, s, form, env).db.posts[|db.posts|].featuredImage
            == Some(StoredName("post_", env.token, form.image.value.name))
  {
  }

  /**
   * A received file of the wrong declared type or over 5 MB is refused with
   * its message before anything is written: no row, no file.
   */
  lemma AddPostRejectsBadImage(db: Store, s: Session, form: PostForm, env: Env)
    requires IsLoggedIn(s) && ValidatePost(TrimWs(form.title), TrimWs(form.content)).None?
    requires Received(form.image)
    requires CheckImage(form.image.value.declaredType, form.image.value.size, PostImageTypes, TypeRejected).Some?
    ensures AddPostSpec(db, s, form, env)
            == Step(db, s, Shown([CheckImage(form.image.value.declaredType, form.image.value.size,
                                             PostImageTypes, TypeRejected).value]))
  {
  }

  /** Inserting a post with the next id and a slug no post has keeps the tables valid. */
  lemma InsertKeepsValid(db: Store, p: Post)
    requires p.id == db.nextPostId
    ensures ValidPosts(db.posts, db.nextPostId) && !SlugInUse(db.posts, p.slug, None) ==>
      ValidPosts(db.posts + [p], db.nextPostId + 1)
  {
    if ValidPosts(db.posts, db.nextPostId) && !SlugInUse(db.posts, p.slug, None) {
      forall i | 0 <= i < |db.posts| ensures PostSlug(db.posts[i]) != PostSlug(p) {
        assert db.posts[i].slug in TakenSlugs(db.posts, None);
      }
      AppendKeepsDistinct(db.posts, p, PostSlug);
      AppendKeepsDistinct(db.posts, p, PostId);
    }
  }

  /** A post insert that fails after a successful upload leaves the new file in the directory, named by no row. */
  lemma FailedInsertOrphansImage(db: Store, s: Session, form: PostForm, env: Env)
    requires IsLoggedIn(s) && ValidatePost(TrimWs(form.title), TrimWs(form.content)).None?
    requires Received(form.image) && !env.dbOk && env.moveOk
    requires CheckImage(form.image.value.declaredType, form.image.value.size, PostImageTypes, TypeRejected).None?
    ensures StoredName("post_", env.token, form.image.value.name) in AddPostSpec(db, s, form, env).db.files
    ensures AddPostSpec(db, s, form, env).db.posts == db.posts
    ensures AddPostSpec(db, s, form, env).response == Shown([Db("")])
  {
  }

  /**
   * The request handler of add_post.php, in the order the page runs it: the
   * login guard, trimming, validation, `makeSlug`, `uploadImage`, the excerpt
   * rule, the insert.
   */
  method HandleAddPost(site: Site, form: PostForm, env: Env) returns (response: Response)
    modifies site
    ensures Step(site.Db(), site.session, response) == AddPostSpec(old(site.Db()), old(site.session), form, env)
  {
    var guard := Guard(site.session, false);
    if guard.Some? {
      return Redirected(guard.value);
    }
    var title := TrimWs(form.title);
    var content := TrimWs(form.content);
    var excerpt := TrimWs(form.excerpt);
    var status := form.status.GetOr("draft");
    if Empty(title) {
      return Shown([Msg(TitleRequired)]);
    }
    if Empty(content) {
      return Shown([Msg(ContentRequired)]);
    }
    var slug := MakeSlug(title, site.posts, None);
    response := StorePost(site, title, slug, content, excerpt, status, form.image, env);
  }

  /** The rest of the handler once the slug is known: `uploadImage`, the excerpt rule, the insert. */
  method StorePost(site: Site, title: string, slug: string, content: string, excerpt: string, status: string,
                   image: Option<UploadedFile>, env: Env) returns (response: Response)
    requires IsLoggedIn(site.session)
    modifies site
    ensures Step(site.Db(), site.session, response) ==
            InsertPost(old(site.Db()), old(site.session), title, slug, content, excerpt, status, image, env)
  {
    var featuredImage: Option<string> := None;
    if image.Some? {
      var uploaded := site.UploadImage(image, None, "post_", env.token, env.moveOk);
      if uploaded.Err? {
        return Shown([uploaded.error]);
      }
      featuredImage := uploaded.value;
    }
    var fullExcerpt := AutoExcerpt(excerpt, content, env.stripTags);
    if !env.dbOk {
      return Shown([Db("")]);
    }
    site.posts := site.posts + [Post(site.nextPostId, title, slug, content, fullExcerpt, featuredImage,
                                     site.session.userId.value, status, env.now)];
    site.nextPostId := site.nextPostId + 1;
    return Redirected(Redirect(PostsPage, Some(Success(SavedMessage(status)))));
  }
}
