/**
 * public/post.php: `PostViewer` shows one published post by its slug with
 * its approved comments, and lets a signed-in visitor add a comment.
 */
module PostPage {
  import opened Base
  import opened Php
  import opened Query
  import opened Config
  import opened Blog
  import opened AddPost

  const EnterComment := "Please enter a comment."
  const CommentFailed := "Failed to post comment. Please try again."
  const CommentPosted := "Your comment has been posted!"
  const HomePage := "index.php"
  const PostPath := "post.php?slug="

  /** A joined row of `getPost`: `p.*`, the author's username and profile image. */
  datatype PostView = PostView(post: Post, authorName: string, authorImage: Option<string>)

  /** A joined row of `getComments`: `c.*`, the author's username and profile image. */
  datatype CommentView = CommentView(comment: Comment, authorName: string, authorImage: Option<string>)

  /** `WHERE p.slug = ? AND p.status = 'published'`, inside the join on the author. */
  function PublicBySlug(db: Store, slug: string): Post -> bool {
    (p: Post) => p.slug == slug && p.status == "published" && UserById(db.users, p.authorId).Some?
  }

  /**
   * `getPost($slug)`: the first published post with that slug whose author
   * exists, joined with the author; a failed query reads as "no post".
   */
  function GetPost(db: Store, slug: string, queryOk: bool): (r: Option<PostView>)
    ensures r.Some? ==> queryOk && r.value.post in db.posts && r.value.post.slug == slug
                        && r.value.post.status == "published"
                        && UserById(db.users, r.value.post.authorId).Some?
                        && r.value.authorName == UserById(db.users, r.value.post.authorId).value.username
                        && r.value.authorImage == UserById(db.users, r.value.post.authorId).value.profileImage
    ensures r.None? <==> !queryOk || forall i :: 0 <= i < |db.posts| ==> !PublicBySlug(db, slug)(db.posts[i])
  {
    if !queryOk then None
    else
      match First(db.posts, PublicBySlug(db, slug))
      case None => None
      case Some(p) =>
        var u := UserById(db.users, p.authorId).value;
        Some(PostView(p, u.username, u.profileImage))
  }

  /** A draft is never shown, whatever its slug. */
  lemma DraftNeverShown(db: Store, slug: string, queryOk: bool, i: int)
    requires ValidPosts(db.posts, db.nextPostId)
    requires 0 <= i < |db.posts| && db.posts[i].slug == slug && db.posts[i].status != "published"
    ensures GetPost(db, slug, queryOk).None?
  {
    forall j | 0 <= j < |db.posts|
      ensures !PublicBySlug(db, slug)(db.posts[j])
    {
      if j != i {
        assert PostSlug(db.posts[j]) != PostSlug(db.posts[i]);
      }
    }
  }

  /** With unique slugs, a published post whose author exists is found by its slug. */
  lemma PublishedFoundBySlug(db: Store, i: int)
    requires ValidPosts(db.posts, db.nextPostId)
    requires 0 <= i < |db.posts| && db.posts[i].status == "published" && UserById(db.users, db.posts[i].authorId).Some?
    ensures GetPost(db, db.posts[i].slug, true).Some? && GetPost(db, db.posts[i].slug, true).value.post == db.posts[i]
  {
    var slug := db.posts[i].slug;
    var r := First(db.posts, PublicBySlug(db, slug));
    assert PublicBySlug(db, slug)(db.posts[i]);
    var k :| 0 <= k < |db.posts| && db.posts[k] == r.value && PublicBySlug(db, slug)(db.posts[k]);
    assert PostSlug(db.posts[k]) == PostSlug(db.posts[i]);
  }

  /** `WHERE c.post_id = ? AND c.status = 'approved'`, inside the join on the author. */
  predicate Listed(db: Store, postId: int, c: Comment) {
    c.postId == postId && c.status == "approved" && UserById(db.users, c.authorId).Some?
  }

  function ListedSelector(db: Store, postId: int): Comment -> bool {
    (c: Comment) => Listed(db, postId, c)
  }

  /** The joined row of a comment whose author exists. */
  function CommentRowOf(db: Store, c: Comment): CommentView
    requires UserById(db.users, c.authorId).Some?
  {
    var u := UserById(db.users, c.authorId).value;
    CommentView(c, u.username, u.profileImage)
  }

  function CommentRows(db: Store, cs: seq<Comment>): (r: seq<CommentView>)
    requires forall c :: c in cs ==> UserById(db.users, c.authorId).Some?
    ensures |r| == |cs|
    ensures forall i :: 0 <= i < |cs| ==> r[i] == CommentRowOf(db, cs[i])
  {
    if cs == [] then [] else [CommentRowOf(db, cs[0])] + CommentRows(db, cs[1..])
  }

  function CreatedAsc(v: CommentView): int {
    v.comment.createdAt
  }

  /**
   * `getComments($postId)`: the approved comments of the post whose author
   * exists, joined, `ORDER BY c.created_at ASC`; a failed query gives none.
   */
  function GetComments(db: Store, postId: int, queryOk: bool): (r: seq<CommentView>)
    ensures forall i, j :: 0 <= i < j < |r| ==> r[i].comment.createdAt <= r[j].comment.createdAt
    ensures !queryOk ==> r == []
    ensures queryOk ==> |r| == |Where(db.comments, ListedSelector(db, postId))|
  {
    if !queryOk then []
    else
      var listed := Where(db.comments, ListedSelector(db, postId));
      var r := SortBy(CommentRows(db, listed), CreatedAsc);
      assert forall i, j :: 0 <= i < j < |r| ==> CreatedAsc(r[i]) <= CreatedAsc(r[j]);
      r
  }

  /** A joined row is listed iff it is the row of a stored, approved comment of that post whose author exists. */
  lemma GetCommentsMembers(db: Store, postId: int, x: CommentView)
    ensures x in GetComments(db, postId, true) <==>
      x.comment in db.comments && x.comment.postId == postId && x.comment.status == "approved"
      && UserById(db.users, x.comment.authorId).Some? && x == CommentRowOf(db, x.comment)
  {
    var listed := Where(db.comments, ListedSelector(db, postId));
    var rows := CommentRows(db, listed);
    assert multiset(GetComments(db, postId, true)) == multiset(rows);
    assert x in GetComments(db, postId, true) <==> x in multiset(rows);
    if x in rows {
      var i :| 0 <= i < |rows| && rows[i] == x;
      assert listed[i] == x.comment;
    }
    if x.comment in listed && UserById(db.users, x.comment.authorId).Some? && x == CommentRowOf(db, x.comment) {
      var i :| 0 <= i < |listed| && listed[i] == x.comment;
      assert rows[i] == x;
    }
  }

  /** The row the insert writes; `status` is the column's default, which the page does not name. */
  function NewComment(db: Store, postId: int, authorId: int, content: string, status: string, now: int): Comment {
    Comment(db.nextCommentId, postId, authorId, content, status, now)
  }

  /**
   * `addComment($postId, $authorId, $content)`: content that is empty after
   * trimming ("" or "0") is refused; otherwise the trimmed content is
   * inserted, and a failed insert gives the generic message.
   */
  function AddComment(db: Store, postId: int, authorId: int, content: string, defaultStatus: string,
                      dbOk: bool, now: int): (r: Change)
    ensures r.db.users == db.users && r.db.posts == db.posts && r.db.files == db.files
    ensures r.db.nextUserId == db.nextUserId && r.db.nextPostId == db.nextPostId
    ensures Empty(TrimWs(content)) ==> r == Change(db, Some(Msg(EnterComment)))
    ensures !Empty(TrimWs(content)) && !dbOk ==> r == Change(db, Some(Msg(CommentFailed)))
    ensures r.error.None? <==> !Empty(TrimWs(content)) && dbOk
    ensures r.error.None? ==>
      r.db.comments == db.comments + [NewComment(db, postId, authorId, TrimWs(content), defaultStatus, now)]
      && r.db.nextCommentId == db.nextCommentId + 1
    ensures r.error.Some? ==> r.db == db
    ensures ValidComments(db.comments, db.nextCommentId) ==> ValidComments(r.db.comments, r.db.nextCommentId)
  {
    if Empty(TrimWs(content)) then Change(db, Some(Msg(EnterComment)))
    else if !dbOk then Change(db, Some(Msg(CommentFailed)))
    else
      var c := NewComment(db, postId, authorId, TrimWs(content), defaultStatus, now);
      InsertCommentKeepsValid(db.comments, db.nextCommentId, c);
      Change(db.(comments := db.comments + [c], nextCommentId := db.nextCommentId + 1), None)
  }

  /** Appending a comment with the next id keeps the comments table valid. */
  lemma InsertCommentKeepsValid(comments: seq<Comment>, next: int, c: Comment)
    requires c.id == next
    ensures ValidComments(comments, next) ==> ValidComments(comments + [c], next + 1)
  {
    if ValidComments(comments, next) {
      AppendKeepsDistinct(comments, c, CommentId);
    }
  }

  /** A comment of whitespace only is refused, and so is one that trims to "0". */
  lemma BlankCommentRefused(db: Store, postId: int, authorId: int, content: string, defaultStatus: string,
                            dbOk: bool, now: int)
    requires (forall i :: 0 <= i < |content| ==> content[i] in Whitespace) || TrimWs(content) == "0"
    ensures AddComment(db, postId, authorId, content, defaultStatus, dbOk, now) == Change(db, Some(Msg(EnterComment)))
  {
  }

  /**
   * A request to post.php?slug=... ; `comment` is `$_POST['content'] ?? ''`
   * on a POST and `None` on a GET. A missing or unknown slug goes home; a
   * comment is processed only for a signed-in visitor, on the shown post.
   */
  function PostPageSpec(db: Store, s: Session, slug: string, comment: Option<string>, defaultStatus: string,
                        env: Env): (r: Step)
    ensures r.session == s
    ensures Empty(slug) || GetPost(db, slug, env.queryOk).None? ==>
      r == Step(db, s, Redirected(Redirect(HomePage, None)))
    ensures comment.None? || !IsLoggedIn(s) ==> r.db == db
    ensures r.db != db ==>
      IsLoggedIn(s) && comment.Some? && GetPost(db, slug, env.queryOk).Some?
      && r.db == AddComment(db, GetPost(db, slug, env.queryOk).value.post.id, s.userId.value, comment.value,
                            defaultStatus, env.dbOk, env.now).db
    ensures Valid(db) ==> Valid(r.db)
  {
    if Empty(slug) then Step(db, s, Redirected(Redirect(HomePage, None)))
    else
      match GetPost(db, slug, env.queryOk)
      case None => Step(db, s, Redirected(Redirect(HomePage, None)))
      case Some(view) =>
        if comment.Some? && IsLoggedIn(s) then
          var c := AddComment(db, view.post.id, s.userId.value, comment.value, defaultStatus, env.dbOk, env.now);
          if c.error.Some? then Step(c.db, s, Shown([c.error.value]))
          else Step(c.db, s, Redirected(Redirect(PostPath + env.urlEncode(slug), Some(Success(CommentPosted)))))
        else Step(db, s, Shown([]))
  }

  /** A comment a signed-in visitor posts on a shown post is listed there exactly when the column's default is 'approved'. */
  lemma PostedCommentListedIff(db: Store, s: Session, slug: string, content: string, defaultStatus: string, env: Env)
    requires IsLoggedIn(s) && !Empty(slug) && env.dbOk && !Empty(TrimWs(content))
    requires GetPost(db, slug, env.queryOk).Some? && UserById(db.users, s.userId.value).Some?
    ensures var r := PostPageSpec(db, s, slug, Some(content), defaultStatus, env);
            var view := GetPost(db, slug, env.queryOk).value;
            var c := NewComment(db, view.post.id, s.userId.value, TrimWs(content), defaultStatus, env.now);
            r.response == Redirected(Redirect(PostPath + env.urlEncode(slug), Some(Success(CommentPosted))))
            && (CommentRowOf(r.db, c) in GetComments(r.db, view.post.id, true) <==> defaultStatus == "approved")
  {
    var r := PostPageSpec(db, s, slug, Some(content), defaultStatus, env);
    var view := GetPost(db, slug, env.queryOk).value;
    var c := NewComment(db, view.post.id, s.userId.value, TrimWs(content), defaultStatus, env.now);
    assert r.db.comments == db.comments + [c] && r.db.users == db.users;
    assert c in r.db.comments;
    GetCommentsMembers(r.db, view.post.id, CommentRowOf(r.db, c));
  }

  /** `addComment` run on the site. */
  method InsertComment(site: Site, postId: int, authorId: int, content: string, defaultStatus: string, env: Env)
    returns (error: Option<Error>)
    modifies site
    ensures Change(site.Db(), error) == AddComment(old(site.Db()), postId, authorId, content, defaultStatus, env.dbOk, env.now)
    ensures site.session == old(site.session)
  {
    ghost var want := AddComment(site.Db(), postId, authorId, content, defaultStatus, env.dbOk, env.now);
    var text := TrimWs(content);
    if Empty(text) {
      assert want == Change(site.Db(), Some(Msg(EnterComment)));
      return Some(Msg(EnterComment));
    }
    if !env.dbOk {
      assert want == Change(site.Db(), Some(Msg(CommentFailed)));
      return Some(Msg(CommentFailed));
    }
    var c := NewComment(site.Db(), postId, authorId, text, defaultStatus, env.now);
    assert want.db == site.Db().(comments := site.comments + [c], nextCommentId := site.nextCommentId + 1);
    site.comments, site.nextCommentId := site.comments + [c], site.nextCommentId + 1;
    return None;
  }

  /** The request handler of post.php. */
  method HandlePostPage(site: Site, slug: string, comment: Option<string>, defaultStatus: string, env: Env)
    returns (response: Response)
    modifies site
    ensures Step(site.Db(), site.session, response) == PostPageSpec(old(site.Db()), old(site.session), slug, comment, defaultStatus, env)
  {
    if Empty(slug) {
      return Redirected(Redirect(HomePage, None));
    }
    var view := GetPost(site.Db(), slug, env.queryOk);
    if view.None? {
      return Redirected(Redirect(HomePage, None));
    }
    if comment.Some? && IsLoggedIn(site.session) {
      var error := InsertComment(site, view.value.post.id, site.session.userId.value, comment.value, defaultStatus, env);
      if error.Some? {
        return Shown([error.value]);
      }
      return Redirected(Redirect(PostPath + env.urlEncode(slug), Some(Success(CommentPosted))));
    }
    return Shown([]);
  }
}
