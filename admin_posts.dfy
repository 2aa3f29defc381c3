/**
 * admin/posts.php: the admin-only `deletePost`, the listing query `getPosts`
 * (its WHERE clauses and bound parameters built from the filters, a join on
 * the author and an approved-comment count, newest first) and `getPostStats`.
 */
module AdminPosts {
  import opened Base
  import opened Php
  import opened Query
  import opened Config
  import opened Uploads
  import opened Blog
  import opened AddPost

  const Unauthorized := "Unauthorized action."
  const PostNotFound := "Post not found."
  const DeletedMessage := "Post deleted successfully!"

  // ------------------------------------------------------------- deletePost

  /** The posts left by `DELETE FROM posts WHERE id = ?`. */
  function PostsWithout(posts: seq<Post>, id: int): (r: seq<Post>)
    ensures forall p :: p in r <==> p in posts && p.id != id
  {
    Where(posts, OtherPost(id))
  }

  function OtherPost(id: int): Post -> bool {
    (p: Post) => p.id != id
  }

  function NotOnPost(id: int): Comment -> bool {
    (c: Comment) => c.postId != id
  }

  /** The comments left once the schema's ON DELETE CASCADE removes those on post `id`. */
  function CommentsWithoutPost(comments: seq<Comment>, id: int): (r: seq<Comment>)
    ensures forall c :: c in r <==> c in comments && c.postId != id
  {
    Where(comments, NotOnPost(id))
  }

  /**
   * `deletePost($pdo, $postId)`: a non-admin is refused before any lookup; a
   * missing post throws and changes nothing; otherwise the featured image is
   * unlinked, then the row is deleted (a failing DELETE throws, the file is
   * already gone).
   */
  function DeletePostSpec(db: Store, s: Session, id: int, dbOk: bool): (r: Change)
    ensures !IsAdmin(s) ==> r == Change(db, Some(Msg(Unauthorized)))
    ensures IsAdmin(s) && PostById(db.posts, id).None? ==> r == Change(db, Some(Msg(PostNotFound)))
    ensures r.db.users == db.users && r.db.nextPostId == db.nextPostId
    ensures r.error.None? <==> IsAdmin(s) && PostById(db.posts, id).Some? && dbOk
    ensures r.error.None? ==> r.db.posts == PostsWithout(db.posts, id) && r.db.comments == CommentsWithoutPost(db.comments, id)
                              && r.db.files == Unlink(db.files, PostById(db.posts, id).value.featuredImage)
    ensures r.error.Some? ==> r.db.posts == db.posts && r.db.comments == db.comments
  {
    if !IsAdmin(s) then Change(db, Some(Msg(Unauthorized)))
    else match PostById(db.posts, id)
      case None => Change(db, Some(Msg(PostNotFound)))
      case Some(post) =>
        var files := Unlink(db.files, post.featuredImage);
        if !dbOk then Change(db.(files := files), Some(Db("")))
        else Change(db.(files := files, posts := PostsWithout(db.posts, id), comments := CommentsWithoutPost(db.comments, id)), None)
  }

  /** After a delete, no post and no comment refers to the deleted id, and nothing else is removed. */
  lemma DeletePostRemovesAll(db: Store, s: Session, id: int, dbOk: bool)
    requires DeletePostSpec(db, s, id, dbOk).error.None?
    ensures forall p :: p in DeletePostSpec(db, s, id, dbOk).db.posts <==> p in db.posts && p.id != id
    ensures forall c :: c in DeletePostSpec(db, s, id, dbOk).db.comments <==> c in db.comments && c.postId != id
  {
  }

  /** The removed post's image file is gone even when the DELETE itself fails. */
  lemma DeletePostUnlinksFirst(db: Store, s: Session, id: int, dbOk: bool)
    requires IsAdmin(s) && PostById(db.posts, id).Some? && Truthy(PostById(db.posts, id).value.featuredImage)
    ensures PostById(db.posts, id).value.featuredImage.value !in DeletePostSpec(db, s, id, dbOk).db.files
  {
  }

  /** Deleting a post keeps ids and slugs unique. */
  lemma DeletePostKeepsValid(db: Store, s: Session, id: int, dbOk: bool)
    requires Valid(db)
    ensures Valid(DeletePostSpec(db, s, id, dbOk).db)
  {
    WhereKeepsDistinct(db.posts, OtherPost(id), PostId);
    WhereKeepsDistinct(db.posts, OtherPost(id), PostSlug);
    WhereKeepsDistinct(db.comments, NotOnPost(id), CommentId);
    var r := DeletePostSpec(db, s, id, dbOk).db;
    assert forall i :: 0 <= i < |r.posts| ==> r.posts[i] in db.posts;
    assert forall i :: 0 <= i < |r.comments| ==> r.comments[i] in db.comments;
  }

  /**
   * The posts page with `?delete=id`: only an admin's request reaches
   * `deletePost`; it redirects back with the success or the exception's
   * message. Any other request shows the listing.
   */
  function PostsPageSpec(db: Store, s: Session, delete: Option<int>, dbOk: bool): (r: Step)
    ensures r.session == s
    ensures !IsLoggedIn(s) ==> r == Step(db, s, Redirected(Redirect(LoginPage, None)))
    ensures IsLoggedIn(s) && !(delete.Some? && IsAdmin(s)) ==> r == Step(db, s, Shown([]))
  {
    if !IsLoggedIn(s) then Step(db, s, Redirected(Redirect(LoginPage, None)))
    else if delete.Some? && IsAdmin(s) then
      var c := DeletePostSpec(db, s, delete.value, dbOk);
      Step(c.db, s, Redirected(Redirect(PostsPage, Some(if c.error.None? then Success(DeletedMessage) else Failure(c.error.value)))))
    else Step(db, s, Shown([]))
  }

  /** The page never reaches the Unauthorized exception: the delete parameter from a non-admin is ignored. */
  lemma PostsPageNeverUnauthorized(db: Store, s: Session, delete: Option<int>, dbOk: bool)
    ensures PostsPageSpec(db, s, delete, dbOk).response != Redirected(Redirect(PostsPage, Some(Failure(Msg(Unauthorized)))))
  {
  }

  /** `deletePost` run on the site. */
  method DeletePost(site: Site, id: int, dbOk: bool) returns (error: Option<Error>)
    modifies site
    ensures Change(site.Db(), error) == DeletePostSpec(old(site.Db()), old(site.session), id, dbOk)
    ensures site.session == old(site.session)
  {
    if !IsAdmin(site.session) {
      return Some(Msg(Unauthorized));
    }
    var found := PostById(site.posts, id);
    if found.None? {
      return Some(Msg(PostNotFound));
    }
    var image := found.value.featuredImage;
    if Truthy(image) && image.value in site.files {
      site.files := site.files - {image.value};
    }
    assert site.files == Unlink(old(site.files), image);
    if !dbOk {
      return Some(Db(""));
    }
    site.posts := PostsWithout(site.posts, id);
    site.comments := CommentsWithoutPost(site.comments, id);
    return None;
  }

  /** The delete branch of the posts page. */
  method HandlePostsPage(site: Site, delete: Option<int>, dbOk: bool) returns (response: Response)
    modifies site
    ensures Step(site.Db(), site.session, response) == PostsPageSpec(old(site.Db()), old(site.session), delete, dbOk)
  {
    var guard := Guard(site.session, false);
    if guard.Some? {
      return Redirected(guard.value);
    }
    if delete.Some? && IsAdmin(site.session) {
      var error := DeletePost(site, delete.value, dbOk);
      var flash := if error.None? then Success(DeletedMessage) else Failure(error.value);
      return Redirected(Redirect(PostsPage, Some(flash)));
    }
    return Shown([]);
  }

  // --------------------------------------------------------------- getPosts

  /** The listing filters: `$_GET['status'] ?? ''` and the trimmed `$_GET['search'] ?? ''`. */
  datatype Filters = Filters(status: string, search: string)

  /** One entry of `$whereClause`. */
  datatype Cond = ByAuthor(author: int) | ByStatus(status: string) | BySearch(term: string)

  /** A bound parameter. */
  datatype Param = IntParam(n: int) | TextParam(text: string)

  /** The conditions `getPosts` appends, in order: author for a non-admin, then a non-empty status, then a non-empty search. */
  function Conditions(userId: int, isAdmin: bool, f: Filters): (r: seq<Cond>)
    ensures ByAuthor(userId) in r <==> !isAdmin
    ensures ByStatus(f.status) in r <==> !Empty(f.status)
    ensures BySearch(f.search) in r <==> !Empty(f.search)
    ensures forall c :: c in r ==> c == ByAuthor(userId) || c == ByStatus(f.status) || c == BySearch(f.search)
    ensures !isAdmin ==> r[0] == ByAuthor(userId)
    ensures |r| <= 3
  {
    (if !isAdmin then [ByAuthor(userId)] else [])
    + (if !Empty(f.status) then [ByStatus(f.status)] else [])
    + (if !Empty(f.search) then [BySearch(f.search)] else [])
  }

  const AuthorText := "p.author_id = "
  const StatusText := "p.status = "
  const TitleLike := "(p.title LIKE "
  const ContentLike := " OR p.content LIKE "

  /**
   * The SQL text of one condition: "p.author_id = ?", "p.status = ?" and
   * "(p.title LIKE ? OR p.content LIKE ?)", written around their placeholders.
   */
  function Clause(c: Cond): string {
    match c
    case ByAuthor(_) => AuthorText + "?"
    case ByStatus(_) => StatusText + "?"
    case BySearch(_) => TitleLike + "?" + ContentLike + "?" + ")"
  }

  /** The parameters one condition appends to `$params`. */
  function ParamsOf(c: Cond): seq<Param> {
    match c
    case ByAuthor(a) => [IntParam(a)]
    case ByStatus(st) => [TextParam(st)]
    case BySearch(t) => [TextParam("%" + t + "%"), TextParam("%" + t + "%")]
  }

  function AllParams(cs: seq<Cond>): seq<Param> {
    if cs == [] then [] else ParamsOf(cs[0]) + AllParams(cs[1..])
  }

  /** `implode(" AND ", $whereClause)`. */
  function JoinAnd(cs: seq<Cond>): string {
    if cs == [] then "" else if |cs| == 1 then Clause(cs[0]) else Clause(cs[0]) + " AND " + JoinAnd(cs[1..])
  }

  /** The WHERE part of the query, empty when there is no condition. */
  function WhereText(cs: seq<Cond>): string {
    if cs == [] then "" else " WHERE " + JoinAnd(cs)
  }

  /** The number of `?` placeholders in a text. */
  function Placeholders(s: string): (n: nat)
    ensures n <= |s|
  {
    if s == [] then 0 else (if s[0] == '?' then 1 else 0) + Placeholders(s[1..])
  }

  lemma {:induction false} PlaceholdersConcat(a: string, b: string)
    ensures Placeholders(a + b) == Placeholders(a) + Placeholders(b)
  {
    if a == [] {
      assert a + b == b;
    } else {
      assert (a + b)[0] == a[0] && (a + b)[1..] == a[1..] + b;
      PlaceholdersConcat(a[1..], b);
    }
  }

  /** A text without `?` has no placeholder. */
  lemma {:induction false} NoPlaceholders(s: string)
    requires '?' !in s
    ensures Placeholders(s) == 0
  {
    if s != [] {
      assert s[0] != '?' && '?' !in s[1..];
      NoPlaceholders(s[1..]);
    }
  }

  /** `text` + "?": one placeholder more than `text`. */
  lemma OnePlaceholder(text: string)
    requires '?' !in text
    ensures Placeholders(text + "?") == 1
  {
    NoPlaceholders(text);
    PlaceholdersConcat(text, "?");
  }

  /** Each condition's text carries as many placeholders as the parameters it binds. */
  lemma ClauseBindsParams(c: Cond)
    ensures Placeholders(Clause(c)) == |ParamsOf(c)|
  {
    match c
    case ByAuthor(_) =>
      OnePlaceholder(AuthorText);
    case ByStatus(_) =>
      OnePlaceholder(StatusText);
    case BySearch(_) =>
      var a, b := TitleLike + "?", ContentLike + "?";
      OnePlaceholder(TitleLike);
      OnePlaceholder(ContentLike);
      PlaceholdersConcat(a, b);
      PlaceholdersConcat(a + b, ")");
      NoPlaceholders(")");
      assert Clause(c) == a + b + ")";
  }

  /** The whole WHERE text has as many placeholders as `$params` has entries. */
  lemma {:induction false} QueryBindsParams(cs: seq<Cond>)
    ensures Placeholders(WhereText(cs)) == |AllParams(cs)|
  {
    JoinBindsParams(cs);
    if cs != [] {
      PlaceholdersConcat(" WHERE ", JoinAnd(cs));
    }
  }

  lemma {:induction false} JoinBindsParams(cs: seq<Cond>)
    ensures Placeholders(JoinAnd(cs)) == |AllParams(cs)|
  {
    if cs != [] {
      ClauseBindsParams(cs[0]);
      JoinBindsParams(cs[1..]);
      if |cs| > 1 {
        PlaceholdersConcat(Clause(cs[0]) + " AND ", JoinAnd(cs[1..]));
        PlaceholdersConcat(Clause(cs[0]), " AND ");
      }
      assert AllParams(cs) == ParamsOf(cs[0]) + AllParams(cs[1..]);
    }
  }

  /** The parameter count `getPosts` binds: one for the author, one for the status, two for the search. */
  lemma ParamCount(userId: int, isAdmin: bool, f: Filters)
    ensures Placeholders(WhereText(Conditions(userId, isAdmin, f))) == |AllParams(Conditions(userId, isAdmin, f))|
    ensures |AllParams(Conditions(userId, isAdmin, f))|
            == (if !isAdmin then 1 else 0) + (if !Empty(f.status) then 1 else 0) + (if !Empty(f.search) then 2 else 0)
  {
    QueryBindsParams(Conditions(userId, isAdmin, f));
    var a := if !isAdmin then [ByAuthor(userId)] else [];
    var b := if !Empty(f.status) then [ByStatus(f.status)] else [];
    var c := if !Empty(f.search) then [BySearch(f.search)] else [];
    ParamsAppend(a, b);
    ParamsAppend(a + b, c);
  }

  lemma {:induction false} ParamsAppend(a: seq<Cond>, b: seq<Cond>)
    ensures AllParams(a + b) == AllParams(a) + AllParams(b)
  {
    if a == [] {
      assert a + b == b;
    } else {
      assert (a + b)[0] == a[0] && (a + b)[1..] == a[1..] + b;
      ParamsAppend(a[1..], b);
    }
  }

  /** What one condition demands of a post. `LIKE '%t%'` is read as a substring test. */
  predicate Holds(c: Cond, p: Post) {
    match c
    case ByAuthor(a) => p.authorId == a
    case ByStatus(st) => p.status == st
    case BySearch(t) => Contains(p.title, t) || Contains(p.content, t)
  }

  /** A listed row: `p.*`, `u.username as author_name` and the approved-comment count. */
  datatype PostRow = PostRow(post: Post, authorName: string, commentCount: nat)

  /** `(SELECT COUNT(*) FROM comments WHERE post_id = p.id AND status = 'approved')`. */
  function ApprovedCount(comments: seq<Comment>, postId: int): nat {
    |Where(comments, (c: Comment) => c.postId == postId && c.status == "approved")|
  }

  /** The row the join produces for a post whose author exists. */
  function RowOf(db: Store, p: Post): PostRow
    requires UserById(db.users, p.authorId).Some?
  {
    PostRow(p, UserById(db.users, p.authorId).value.username, ApprovedCount(db.comments, p.id))
  }

  /** The posts the query selects: the join on the author keeps posts whose author exists; all conditions ANDed. */
  predicate Selected(db: Store, cs: seq<Cond>, p: Post) {
    UserById(db.users, p.authorId).Some? && forall c :: c in cs ==> Holds(c, p)
  }

  function Selector(db: Store, cs: seq<Cond>): Post -> bool {
    (p: Post) => Selected(db, cs, p)
  }

  function SelectedPosts(db: Store, cs: seq<Cond>): seq<Post> {
    Where(db.posts, Selector(db, cs))
  }

  /** The selected posts, the ones with an author and passing every condition. */
  lemma SelectedJoined(db: Store, cs: seq<Cond>)
    ensures forall p :: p in SelectedPosts(db, cs) <==> p in db.posts && Selected(db, cs, p)
  {
  }

  function Rows(db: Store, ps: seq<Post>): (r: seq<PostRow>)
    requires forall p :: p in ps ==> UserById(db.users, p.authorId).Some?
    ensures |r| == |ps|
    ensures forall i :: 0 <= i < |ps| ==> r[i] == RowOf(db, ps[i])
  {
    if ps == [] then [] else [RowOf(db, ps[0])] + Rows(db, ps[1..])
  }

  function CreatedAtDesc(r: PostRow): int {
    -r.post.createdAt
  }

  /** `getPosts($pdo, $userId, $isAdmin, $filters)`: the selected rows, `ORDER BY p.created_at DESC`. */
  function GetPosts(db: Store, userId: int, isAdmin: bool, f: Filters): (r: seq<PostRow>)
    ensures forall i, j :: 0 <= i < j < |r| ==> r[i].post.createdAt >= r[j].post.createdAt
    ensures |r| == |SelectedPosts(db, Conditions(userId, isAdmin, f))|
  {
    var selected := SelectedPosts(db, Conditions(userId, isAdmin, f));
    SelectedJoined(db, Conditions(userId, isAdmin, f));
    var r := SortBy(Rows(db, selected), CreatedAtDesc);
    assert forall i, j :: 0 <= i < j < |r| ==> CreatedAtDesc(r[i]) <= CreatedAtDesc(r[j]);
    r
  }

  /**
   * A row is listed iff it is the joined row of a stored post whose author
   * exists and which passes every filter: the author for a non-admin, the
   * status when one is given, the search in the title or the content when one is given.
   */
  lemma GetPostsMembers(db: Store, userId: int, isAdmin: bool, f: Filters, x: PostRow)
    ensures x in GetPosts(db, userId, isAdmin, f) <==>
      x.post in db.posts && UserById(db.users, x.post.authorId).Some? && x == RowOf(db, x.post)
      && (isAdmin || x.post.authorId == userId)
      && (Empty(f.status) || x.post.status == f.status)
      && (Empty(f.search) || Contains(x.post.title, f.search) || Contains(x.post.content, f.search))
  {
    var cs := Conditions(userId, isAdmin, f);
    var selected := SelectedPosts(db, cs);
    SelectedJoined(db, cs);
    var rows := Rows(db, selected);
    assert multiset(GetPosts(db, userId, isAdmin, f)) == multiset(rows);
    assert x in GetPosts(db, userId, isAdmin, f) <==> x in multiset(rows);
    RowsMembers(db, selected, x);
    ConditionsMeaning(userId, isAdmin, f, x.post);
  }

  /** A row is among the joined rows iff its post is in the list and it is that post's row. */
  lemma RowsMembers(db: Store, ps: seq<Post>, x: PostRow)
    requires forall p :: p in ps ==> UserById(db.users, p.authorId).Some?
    ensures x in Rows(db, ps) <==> x.post in ps && x == RowOf(db, x.post)
  {
    var r := Rows(db, ps);
    if x in r {
      var i :| 0 <= i < |r| && r[i] == x;
      assert ps[i] == x.post;
    }
    if x.post in ps && x == RowOf(db, x.post) {
      var i :| 0 <= i < |ps| && ps[i] == x.post;
      assert r[i] == x;
    }
  }

  /** The conditions, ANDed, say: the author for a non-admin, the status when given, the search when given. */
  lemma ConditionsMeaning(userId: int, isAdmin: bool, f: Filters, p: Post)
    ensures (forall c :: c in Conditions(userId, isAdmin, f) ==> Holds(c, p)) <==>
      (isAdmin || p.authorId == userId)
      && (Empty(f.status) || p.status == f.status)
      && (Empty(f.search) || Contains(p.title, f.search) || Contains(p.content, f.search))
  {
    var cs := Conditions(userId, isAdmin, f);
    assert forall c :: c in cs ==> (!isAdmin && c == ByAuthor(userId)) || (!Empty(f.status) && c == ByStatus(f.status))
                                   || (!Empty(f.search) && c == BySearch(f.search));
    if !isAdmin { assert ByAuthor(userId) in cs; }
    if !Empty(f.status) { assert ByStatus(f.status) in cs; }
    if !Empty(f.search) { assert BySearch(f.search) in cs; }
  }

  /** A non-admin sees only their own posts; an admin with no filters sees every post whose author exists. */
  lemma GetPostsScope(db: Store, userId: int, isAdmin: bool, f: Filters)
    ensures !isAdmin ==> forall x :: x in GetPosts(db, userId, isAdmin, f) ==> x.post.authorId == userId
    ensures isAdmin && f == Filters("", "") ==>
      forall p :: p in db.posts && UserById(db.users, p.authorId).Some? ==> RowOf(db, p) in GetPosts(db, userId, isAdmin, f)
  {
    forall x | x in GetPosts(db, userId, isAdmin, f) ensures isAdmin || x.post.authorId == userId {
      GetPostsMembers(db, userId, isAdmin, f, x);
    }
    forall p | p in db.posts && UserById(db.users, p.authorId).Some? && isAdmin && f == Filters("", "")
      ensures RowOf(db, p) in GetPosts(db, userId, isAdmin, f)
    {
      GetPostsMembers(db, userId, isAdmin, f, RowOf(db, p));
    }
  }

  // ----------------------------------------------------------- getPostStats

  datatype Stats = Stats(total: nat, published: nat, draft: nat)

  /** The posts a user's statistics count: all for an admin, their own otherwise. */
  predicate InScope(userId: int, isAdmin: bool, p: Post) {
    isAdmin || p.authorId == userId
  }

  /** The filter of one statistics query: the scope, and the status when one is given. */
  function Counted(userId: int, isAdmin: bool, status: Option<string>): Post -> bool {
    (p: Post) => InScope(userId, isAdmin, p) && (status.None? || p.status == status.value)
  }

  function CountScoped(posts: seq<Post>, userId: int, isAdmin: bool, status: Option<string>): nat {
    |Where(posts, Counted(userId, isAdmin, status))|
  }

  /** `getPostStats`: total, published and draft counts over the user's scope; the last two never exceed the first. */
  function GetPostStats(db: Store, userId: int, isAdmin: bool): (r: Stats)
    ensures r.published + r.draft <= r.total
  {
    var st := Stats(CountScoped(db.posts, userId, isAdmin, None), CountScoped(db.posts, userId, isAdmin, Some("published")),
                    CountScoped(db.posts, userId, isAdmin, Some("draft")));
    WhereDisjointCount(db.posts, Counted(userId, isAdmin, Some("published")), Counted(userId, isAdmin, Some("draft")),
                       Counted(userId, isAdmin, None));
    st
  }

  /**
   * When every post's author exists, the statistics agree with the listing:
   * the total is the length of the unfiltered list, the published count the
   * length of the list filtered on 'published'.
   */
  lemma StatsMatchListing(db: Store, userId: int, isAdmin: bool)
    requires forall p :: p in db.posts ==> UserById(db.users, p.authorId).Some?
    ensures GetPostStats(db, userId, isAdmin).total == |GetPosts(db, userId, isAdmin, Filters("", ""))|
    ensures GetPostStats(db, userId, isAdmin).published == |GetPosts(db, userId, isAdmin, Filters("published", ""))|
    ensures GetPostStats(db, userId, isAdmin).draft == |GetPosts(db, userId, isAdmin, Filters("draft", ""))|
  {
    ScopeMatches(db, userId, isAdmin, None, Filters("", ""));
    ScopeMatches(db, userId, isAdmin, Some("published"), Filters("published", ""));
    ScopeMatches(db, userId, isAdmin, Some("draft"), Filters("draft", ""));
  }

  lemma ScopeMatches(db: Store, userId: int, isAdmin: bool, status: Option<string>, f: Filters)
    requires forall p :: p in db.posts ==> UserById(db.users, p.authorId).Some?
    requires f.search == "" && (status.None? <==> f.status == "") && (status.Some? ==> !Empty(status.value) && f.status == status.value)
    ensures CountScoped(db.posts, userId, isAdmin, status) == |SelectedPosts(db, Conditions(userId, isAdmin, f))|
  {
    var cs := Conditions(userId, isAdmin, f);
    forall p | p in db.posts
      ensures Counted(userId, isAdmin, status)(p) == Selector(db, cs)(p)
    {
      assert forall c :: c in cs ==> c == ByAuthor(userId) || c == ByStatus(f.status);
      if !isAdmin { assert ByAuthor(userId) in cs; }
      if status.Some? { assert ByStatus(f.status) in cs; }
    }
    WhereCongruent(db.posts, Counted(userId, isAdmin, status), Selector(db, cs));
  }
}
