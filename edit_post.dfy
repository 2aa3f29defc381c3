/**
 * admin/edit_post.php: the ownership-scoped lookup of the post being edited
 * and the handler that validates the form, re-allocates the slug only when the
 * title changed, removes or replaces the featured image and updates the row.
 */
module EditPost {
  import opened Base
  import opened Php
  import opened Query
  import opened Config
  import opened Uploads
  import opened Blog
  import opened AddPost

  const InvalidPostId := "Invalid post ID."
  const NotFoundOrDenied := "Post not found or access denied."
  const UpdatedMessage := "Post updated successfully!"

  /**
   * The page's SELECT: by id alone for an admin, by id and author for anyone
   * else; `fetch()` returns the first such row.
   */
  function EditablePost(posts: seq<Post>, s: Session, id: int): (r: Option<Post>)
    requires IsLoggedIn(s)
    ensures r.Some? ==> r.value in posts && r.value.id == id && (IsAdmin(s) || r.value.authorId == s.userId.value)
    ensures r.None? <==> forall i :: 0 <= i < |posts| ==>
      !(posts[i].id == id && (IsAdmin(s) || posts[i].authorId == s.userId.value))
  {
    if IsAdmin(s) then First(posts, (p: Post) => p.id == id)
    else First(posts, (p: Post) => p.id == id && p.authorId == s.userId.value)
  }

  /** `UPDATE posts SET ... WHERE id = ?`: every row with the id of `p` becomes `p`, the rest stay. */
  function SetPost(posts: seq<Post>, p: Post): (r: seq<Post>)
    ensures |r| == |posts|
    ensures forall i :: 0 <= i < |posts| ==> r[i] == if posts[i].id == p.id then p else posts[i]
  {
    if posts == [] then [] else [if posts[0].id == p.id then p else posts[0]] + SetPost(posts[1..], p)
  }

  /**
   * A POST to edit_post.php?id=`id` (`form == None` is a plain view): login
   * required; id 0 and a post that is missing or not the user's redirect back
   * with an error; the form is validated as on the add page; the slug is
   * re-allocated, excluding this post, only when the trimmed title differs
   * from the stored one.
   */
  function EditPostSpec(db: Store, s: Session, id: int, form: Option<PostForm>, env: Env): (r: Step)
    ensures r.session == s && r.db.users == db.users && r.db.comments == db.comments
    ensures r.db.nextPostId == db.nextPostId
  {
    if !IsLoggedIn(s) then Step(db, s, Redirected(Redirect(LoginPage, None)))
    else if id == 0 then Step(db, s, Redirected(Redirect(PostsPage, Some(Failure(Msg(InvalidPostId))))))
    else match EditablePost(db.posts, s, id)
      case None => Step(db, s, Redirected(Redirect(PostsPage, Some(Failure(Msg(NotFoundOrDenied))))))
      case Some(post) =>
        if form.None? then Step(db, s, Shown([]))
        else
          var f := form.value;
          var title, content := TrimWs(f.title), TrimWs(f.content);
          match ValidatePost(title, content)
          case Some(e) => Step(db, s, Shown([e]))
          case None =>
            var slug := if title != post.title then SlugFor(title, db.posts, Some(id)) else post.slug;
            UpdatePost(db, s, post, title, slug, content, TrimWs(f.excerpt), f.status.GetOr("draft"),
                       f.removeImage, f.image, env)
  }

  /** The row the update writes: the stored post with the submitted fields. */
  function EditedPost(post: Post, title: string, slug: string, content: string, excerpt: string,
                      image: Option<string>, status: string): Post {
    post.(title := title, slug := slug, content := content, excerpt := excerpt, featuredImage := image, status := status)
  }

  /**
   * `r` holds the posts of `db` with the row of `post.id` rewritten: same id,
   * author and creation time, the new title, slug and status; no other row changed.
   */
  ghost predicate Edited(db: Store, r: Step, post: Post, title: string, slug: string, status: string) {
    |r.db.posts| == |db.posts|
    && forall i :: 0 <= i < |db.posts| ==>
      if db.posts[i].id == post.id then
        r.db.posts[i].id == post.id && r.db.posts[i].authorId == post.authorId
        && r.db.posts[i].createdAt == post.createdAt && r.db.posts[i].title == title
        && r.db.posts[i].slug == slug && r.db.posts[i].status == status
      else r.db.posts[i] == db.posts[i]
  }

  /** The part of the edit handler after validation and the slug: image step, excerpt rule, update. */
  function UpdatePost(db: Store, s: Session, post: Post, title: string, slug: string, content: string, excerpt: string,
                      status: string, remove: bool, image: Option<UploadedFile>, env: Env): (r: Step)
    ensures r.session == s && r.db.users == db.users && r.db.comments == db.comments
    ensures r.db.nextPostId == db.nextPostId && r.db.nextUserId == db.nextUserId && r.db.nextCommentId == db.nextCommentId
    ensures r.db.files == ChooseImage(db.files, remove, image, post.featuredImage, "post_", env.token, env.moveOk).files
    ensures Valid(db) && !SlugInUse(db.posts, slug, Some(post.id)) ==> Valid(r.db)
    ensures r.response.Redirected? ==> env.dbOk && r.response == Redirected(Redirect(PostsPage, Some(Success(UpdatedMessage))))
                                       && Edited(db, r, post, title, slug, status)
    ensures r.response.Redirected? ==>
      ChooseImage(db.files, remove, image, post.featuredImage, "post_", env.token, env.moveOk).image.Ok?
      && r.db.posts == SetPost(db.posts, EditedPost(post, title, slug, content, AutoExcerpt(excerpt, content, env.stripTags),
                                                    ChooseImage(db.files, remove, image, post.featuredImage, "post_", env.token, env.moveOk).image.value,
                                                    status))
    ensures !r.response.Redirected? ==> r.db.posts == db.posts
    ensures r.response.Redirected? <==>
      env.dbOk && ChooseImage(db.files, remove, image, post.featuredImage, "post_", env.token, env.moveOk).image.Ok?
  {
    var up := ChooseImage(db.files, remove, image, post.featuredImage, "post_", env.token, env.moveOk);
    var db1 := db.(files := up.files);
    if up.image.Err? then Step(db1, s, Shown([up.image.error]))
    else if !env.dbOk then Step(db1, s, Shown([Db("")]))
    else
      var p := EditedPost(post, title, slug, content, AutoExcerpt(excerpt, content, env.stripTags), up.image.value, status);
      SetPostKeepsValid(db.posts, db.nextPostId, p);
      Step(db1.(posts := SetPost(db.posts, p)), s, Redirected(Redirect(PostsPage, Some(Success(UpdatedMessage)))))
  }

  /** Rewriting a row under its own id with a slug no other post has keeps ids and slugs unique. */
  lemma SetPostKeepsValid(posts: seq<Post>, next: int, p: Post)
    ensures ValidPosts(posts, next) && !SlugInUse(posts, p.slug, Some(p.id)) ==> ValidPosts(SetPost(posts, p), next)
  {
    if ValidPosts(posts, next) && !SlugInUse(posts, p.slug, Some(p.id)) {
      var r := SetPost(posts, p);
      forall i, j | 0 <= i < |r| && 0 <= j < |r| && i != j
        ensures PostId(r[i]) != PostId(r[j]) && PostSlug(r[i]) != PostSlug(r[j])
      {
        assert PostId(posts[i]) != PostId(posts[j]);
        if posts[i].id == p.id && posts[j].id != p.id {
          assert posts[j].slug in TakenSlugs(posts, Some(p.id));
        } else if posts[j].id == p.id && posts[i].id != p.id {
          assert posts[i].slug in TakenSlugs(posts, Some(p.id));
        }
      }
    }
  }

  /** A stored post's own slug is in use by no other post. */
  lemma OwnSlugFree(posts: seq<Post>, next: int, post: Post)
    requires ValidPosts(posts, next) && post in posts
    ensures !SlugInUse(posts, post.slug, Some(post.id))
  {
    var k :| 0 <= k < |posts| && posts[k] == post;
    forall i | 0 <= i < |posts| && posts[i].id != post.id ensures PostSlug(posts[i]) != PostSlug(posts[k]) {
    }
  }

  /** A non-admin asking for a post that is missing or someone else's is redirected back, and nothing changes. */
  lemma EditNeedsOwnership(db: Store, s: Session, id: int, form: Option<PostForm>, env: Env)
    requires IsLoggedIn(s) && id != 0 && !IsAdmin(s)
    requires forall i :: 0 <= i < |db.posts| && db.posts[i].id == id ==> db.posts[i].authorId != s.userId.value
    ensures EditPostSpec(db, s, id, form, env)
            == Step(db, s, Redirected(Redirect(PostsPage, Some(Failure(Msg(NotFoundOrDenied))))))
  {
  }

  /** An admin may edit any post: the lookup succeeds whenever a post has the id. */
  lemma AdminFindsAnyPost(posts: seq<Post>, s: Session, id: int, k: int)
    requires IsLoggedIn(s) && IsAdmin(s) && 0 <= k < |posts| && posts[k].id == id
    ensures EditablePost(posts, s, id).Some?
  {
  }

  /** Keeping the title keeps the slug, even when another post now has a colliding one. */
  lemma EditKeepsSlug(db: Store, s: Session, id: int, f: PostForm, env: Env, post: Post)
    requires IsLoggedIn(s) && id != 0 && EditablePost(db.posts, s, id) == Some(post)
    requires ValidatePost(TrimWs(f.title), TrimWs(f.content)).None? && TrimWs(f.title) == post.title
    ensures EditPostSpec(db, s, id, Some(f), env) ==
            UpdatePost(db, s, post, post.title, post.slug, TrimWs(f.content), TrimWs(f.excerpt),
                       f.status.GetOr("draft"), f.removeImage, f.image, env)
  {
  }

  /** A changed title gets the first free probe of its slug base, this post's own slug not counting as taken. */
  lemma EditReslugs(db: Store, s: Session, id: int, f: PostForm, env: Env, post: Post)
    requires IsLoggedIn(s) && id != 0 && EditablePost(db.posts, s, id) == Some(post)
    requires ValidatePost(TrimWs(f.title), TrimWs(f.content)).None? && TrimWs(f.title) != post.title
    ensures EditPostSpec(db, s, id, Some(f), env) ==
            UpdatePost(db, s, post, TrimWs(f.title), SlugFor(TrimWs(f.title), db.posts, Some(id)), TrimWs(f.content),
                       TrimWs(f.excerpt), f.status.GetOr("draft"), f.removeImage, f.image, env)
    ensures !SlugInUse(db.posts, SlugFor(TrimWs(f.title), db.posts, Some(id)), Some(post.id))
  {
  }

  /** Editing keeps ids and slugs unique, whether the slug is kept or re-allocated. */
  lemma EditKeepsValid(db: Store, s: Session, id: int, form: Option<PostForm>, env: Env)
    requires Valid(db)
    ensures Valid(EditPostSpec(db, s, id, form, env).db)
  {
    if IsLoggedIn(s) && id != 0 && EditablePost(db.posts, s, id).Some? && form.Some? {
      var post := EditablePost(db.posts, s, id).value;
      OwnSlugFree(db.posts, db.nextPostId, post);
    }
  }

  /**
   * `remove_image` wins over a submitted file: the current image is unlinked
   * (even if the update then fails) and the column becomes NULL.
   */
  lemma EditRemoveWins(db: Store, s: Session, post: Post, title: string, slug: string, content: string, excerpt: string,
                       status: string, image: Option<UploadedFile>, env: Env)
    requires Truthy(post.featuredImage)
    ensures post.featuredImage.value !in UpdatePost(db, s, post, title, slug, content, excerpt, status, true, image, env).db.files
    ensures env.dbOk ==>
      UpdatePost(db, s, post, title, slug, content, excerpt, status, true, image, env).db.posts
      == SetPost(db.posts, EditedPost(post, title, slug, content, AutoExcerpt(excerpt, content, env.stripTags), None, status))
  {
  }

  /** Without removal or a received file the row keeps its image and no file is touched. */
  lemma EditNoFileKeepsImage(db: Store, s: Session, post: Post, title: string, slug: string, content: string,
                             excerpt: string, status: string, image: Option<UploadedFile>, env: Env)
    requires !Received(image) && env.dbOk
    ensures UpdatePost(db, s, post, title, slug, content, excerpt, status, false, image, env).db.files == db.files
    ensures UpdatePost(db, s, post, title, slug, content, excerpt, status, false, image, env).db.posts
            == SetPost(db.posts, EditedPost(post, title, slug, content, AutoExcerpt(excerpt, content, env.stripTags),
                                            post.featuredImage, status))
  {
  }

  /**
   * An accepted, moved replacement: the old file is unlinked, the new one is
   * stored as `post_` + token + "." + extension, and the row names it.
   */
  lemma EditStoresNewImage(db: Store, s: Session, post: Post, title: string, slug: string, content: string,
                           excerpt: string, status: string, image: Option<UploadedFile>, env: Env)
    requires Received(image) && env.moveOk && env.dbOk
    requires CheckImage(image.value.declaredType, image.value.size, PostImageTypes, TypeRejected).None?
    ensures UpdatePost(db, s, post, title, slug, content, excerpt, status, false, image, env).db.files
            == Unlink(db.files, post.featuredImage) + {StoredName("post_", env.token, image.value.name)}
    ensures UpdatePost(db, s, post, title, slug, content, excerpt, status, false, image, env).db.posts
            == SetPost(db.posts, EditedPost(post, title, slug, content, AutoExcerpt(excerpt, content, env.stripTags),
                                            Some(StoredName("post_", env.token, image.value.name)), status))
  {
  }

  /**
   * A replacement whose move fails: the old file is already gone, the row still
   * names it, and the error is shown.
   */
  lemma EditMoveFailureLosesImage(db: Store, s: Session, post: Post, title: string, slug: string, content: string,
                                  excerpt: string, status: string, image: Option<UploadedFile>, env: Env)
    requires Received(image) && !env.moveOk && Truthy(post.featuredImage)
    requires CheckImage(image.value.declaredType, image.value.size, PostImageTypes, TypeRejected).None?
    ensures UpdatePost(db, s, post, title, slug, content, excerpt, status, false, image, env).response == Shown([Msg(MoveFailed)])
    ensures UpdatePost(db, s, post, title, slug, content, excerpt, status, false, image, env).db.posts == db.posts
    ensures post.featuredImage.value !in UpdatePost(db, s, post, title, slug, content, excerpt, status, false, image, env).db.files
  {
    ReplaceLosesOldFile(db.files, image, post.featuredImage, "post_", env.token);
  }

  /**
   * The request handler of edit_post.php, in the order the page runs it: the
   * login guard, the id check, the scoped lookup, trimming, validation and the
   * slug rule.
   */
  method HandleEditPost(site: Site, id: int, form: Option<PostForm>, env: Env) returns (response: Response)
    modifies site
    ensures Step(site.Db(), site.session, response) == EditPostSpec(old(site.Db()), old(site.session), id, form, env)
  {
    var guard := Guard(site.session, false);
    if guard.Some? {
      return Redirected(guard.value);
    }
    if id == 0 {
      return Redirected(Redirect(PostsPage, Some(Failure(Msg(InvalidPostId)))));
    }
    var found := EditablePost(site.posts, site.session, id);
    if found.None? {
      return Redirected(Redirect(PostsPage, Some(Failure(Msg(NotFoundOrDenied)))));
    }
    var post := found.value;
    if form.None? {
      return Shown([]);
    }
    var title := TrimWs(form.value.title);
    var content := TrimWs(form.value.content);
    var excerpt := TrimWs(form.value.excerpt);
    var status := form.value.status.GetOr("draft");
    if Empty(title) {
      return Shown([Msg(TitleRequired)]);
    }
    if Empty(content) {
      return Shown([Msg(ContentRequired)]);
    }
    var slug := post.slug;
    if title != post.title {
      slug := MakeSlug(title, site.posts, Some(id));
    }
    response := ApplyEdit(site, post, title, slug, content, excerpt, status, form.value.removeImage, form.value.image, env);
  }

  /** The rest of the handler: remove or replace the image, the excerpt rule, the update. */
  method ApplyEdit(site: Site, post: Post, title: string, slug: string, content: string, excerpt: string,
                   status: string, remove: bool, image: Option<UploadedFile>, env: Env) returns (response: Response)
    modifies site
    ensures Step(site.Db(), site.session, response) ==
            UpdatePost(old(site.Db()), old(site.session), post, title, slug, content, excerpt, status, remove, image, env)
  {
    var featuredImage := site.ChangeImage(remove, image, post.featuredImage, "post_", env.token, env.moveOk);
    if featuredImage.Err? {
      return Shown([featuredImage.error]);
    }
    var fullExcerpt := AutoExcerpt(excerpt, content, env.stripTags);
    if !env.dbOk {
      return Shown([Db("")]);
    }
    site.posts := SetPost(site.posts, EditedPost(post, title, slug, content, fullExcerpt, featuredImage.value, status));
    return Redirected(Redirect(PostsPage, Some(Success(UpdatedMessage))));
  }
}
