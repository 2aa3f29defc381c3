/**
 * mini-blog-admin/edit_post.php: the same validation as creation; a new
 * file is moved in first and the old one unlinked only after the move
 * succeeded; the update runs only when no problem was found.
 */
module MiniEdit {
  import opened Base
  import opened Php
  import opened Query
  import opened Config
  import opened Uploads
  import opened MiniBlog

  /**
   * The upload step of edit_post.php, `current` being the stored image: only
   * a received file with no error so far is moved in; after a successful move
   * the old file is unlinked and the new name taken; a failed move keeps the
   * old name.
   */
  function ReplaceUpload(files: set<string>, errors: seq<Problem>, file: Option<UploadedFile>, current: string,
                         now: nat, moveOk: bool): (r: Staged)
    ensures errors != [] || !Received(file) ==> r == Staged(files, current, errors)
    ensures errors == [] && Received(file) && !moveOk ==> r == Staged(files, current, [MoveFailed])
    ensures errors == [] && Received(file) && moveOk ==>
      r == Staged(Unlink(files + {StoredAs(now, file.value.name)}, Some(current)), StoredAs(now, file.value.name), [])
  {
    if errors == [] && Received(file) then
      var name := StoredAs(now, file.value.name);
      if moveOk then Staged(Unlink(files + {name}, Some(current)), name, [])
      else Staged(files, current, [MoveFailed])
    else Staged(files, current, errors)
  }

  /** Every row with the id gets the new title, content and image. */
  function SetMiniPost(posts: seq<MiniPost>, p: MiniPost): (r: seq<MiniPost>)
    ensures |r| == |posts|
    ensures forall i :: 0 <= i < |posts| ==> r[i] == if posts[i].id == p.id then p else posts[i]
  {
    if posts == [] then [] else [if posts[0].id == p.id then p else posts[0]] + SetMiniPost(posts[1..], p)
  }

  /** Rewriting rows in place keeps every id, so the table stays valid. */
  lemma SetMiniPostKeepsValid(db: MiniStore, p: MiniPost)
    ensures MiniValid(db) ==> MiniValid(db.(posts := SetMiniPost(db.posts, p)))
  {
    if MiniValid(db) {
      var r := SetMiniPost(db.posts, p);
      forall i, j | 0 <= i < |r| && 0 <= j < |r| && i != j
        ensures MiniPostId(r[i]) != MiniPostId(r[j])
      {
        assert MiniPostId(r[i]) == MiniPostId(db.posts[i]) && MiniPostId(r[j]) == MiniPostId(db.posts[j]);
      }
    }
  }

  /**
   * A request to edit_post.php?id=... (`form == None` is a plain view): a
   * missing id or post goes back to the list; the update, when it runs,
   * writes the trimmed title and content and the image the upload step chose.
   */
  function EditSpec(db: MiniStore, s: Session, id: int, form: Option<MiniForm>, env: MiniEnv): (r: MiniStep)
    ensures r.session == s && r.db.users == db.users && r.db.nextId == db.nextId
    ensures !IsLoggedIn(s) ==> r == MiniStep(db, s, Redirected(Redirect(MiniLoginPage, None)))
    ensures IsLoggedIn(s) && (id == 0 || MiniPostById(db.posts, id).None?) ==>
      r == MiniStep(db, s, Redirected(Redirect(ListPage, None)))
    ensures r.db.posts != db.posts ==>
      IsLoggedIn(s) && form.Some? && env.exec.Done? && MiniPostById(db.posts, id).Some?
      && Validate(TrimWs(form.value.title), TrimWs(form.value.content), form.value.image) == []
    ensures MiniValid(db) ==> MiniValid(r.db)
  {
    if !IsLoggedIn(s) then MiniStep(db, s, Redirected(Redirect(MiniLoginPage, None)))
    else if id == 0 then MiniStep(db, s, Redirected(Redirect(ListPage, None)))
    else
      match MiniPostById(db.posts, id)
      case None => MiniStep(db, s, Redirected(Redirect(ListPage, None)))
      case Some(post) =>
        if form.None? then MiniStep(db, s, Shown([]))
        else
          var title, content := TrimWs(form.value.title), TrimWs(form.value.content);
          var staged := ReplaceUpload(db.files, Validate(title, content, form.value.image), form.value.image,
                                      post.image, env.now, env.moveOk);
          Update(db.(files := staged.files), s, post.(title := title, content := content, image := staged.image),
                 staged.errors, env.exec)
  }

  /** The UPDATE of edit_post.php, once the upload step has run. */
  function Update(db: MiniStore, s: Session, edited: MiniPost, errors: seq<Problem>, exec: Exec): (r: MiniStep)
    ensures r.session == s && r.db.users == db.users && r.db.nextId == db.nextId && r.db.files == db.files
    ensures errors == [] && exec.Done? ==>
      r == MiniStep(db.(posts := SetMiniPost(db.posts, edited)), s, Redirected(Redirect(ListPage, None)))
    ensures !(errors == [] && exec.Done?) ==> r.db == db
    ensures errors != [] ==> r.response == Shown(Messages(errors))
    ensures MiniValid(db) ==> MiniValid(r.db)
  {
    if errors != [] then MiniStep(db, s, Shown(Messages(errors)))
    else
      match exec
      case Done =>
        SetMiniPostKeepsValid(db, edited);
        MiniStep(db.(posts := SetMiniPost(db.posts, edited)), s, Redirected(Redirect(ListPage, None)))
      case Failed => MiniStep(db, s, Shown(Messages([DbFailed])))
      case Raised(m) => MiniStep(db, s, Shown(Messages([DbRaised(m)])))
  }

  /** A failed move leaves the directory and the stored image name as they were. */
  lemma FailedMoveKeepsOldImage(files: set<string>, file: Option<UploadedFile>, current: string, now: nat)
    requires Received(file)
    ensures ReplaceUpload(files, [], file, current, now, false) == Staged(files, current, [MoveFailed])
    ensures current in files ==> current in ReplaceUpload(files, [], file, current, now, false).files
  {
  }

  /** After a successful move the new file is in the directory and the old one gone. */
  lemma ReplaceMovesThenUnlinks(files: set<string>, file: Option<UploadedFile>, current: string, now: nat)
    requires Received(file) && !Empty(current) && current != StoredAs(now, file.value.name)
    ensures StoredAs(now, file.value.name) in ReplaceUpload(files, [], file, current, now, true).files
    ensures current !in ReplaceUpload(files, [], file, current, now, true).files
  {
  }

  /**
   * Moving first and unlinking second loses the new file when it arrives
   * under the name already stored (same second, same original name): the
   * row then names a file that no longer exists.
   */
  lemma SameNameReplaceLosesFile(files: set<string>, file: Option<UploadedFile>, now: nat)
    requires Received(file)
    ensures var name := StoredAs(now, file.value.name);
            var r := ReplaceUpload(files, [], file, name, now, true);
            r.image == name && name !in r.files
  {
    var name := StoredAs(now, file.value.name);
    assert |name| >= 2 by {
      assert |Decimal(now)| >= 1;
    }
  }

  /** Without a new file the stored image name is written back unchanged. */
  lemma NoFileKeepsImage(db: MiniStore, s: Session, id: int, f: MiniForm, env: MiniEnv, post: MiniPost)
    requires IsLoggedIn(s) && id != 0 && MiniPostById(db.posts, id) == Some(post) && !Received(f.image)
    requires Validate(TrimWs(f.title), TrimWs(f.content), f.image) == [] && env.exec.Done?
    ensures EditSpec(db, s, id, Some(f), env).db
            == db.(posts := SetMiniPost(db.posts, post.(title := TrimWs(f.title), content := TrimWs(f.content))))
  {
    assert post.(title := TrimWs(f.title), content := TrimWs(f.content), image := post.image)
           == post.(title := TrimWs(f.title), content := TrimWs(f.content));
  }

  /** An update that fails after a replace leaves the row naming the old file, which is already unlinked. */
  lemma FailedUpdateAfterReplace(db: MiniStore, s: Session, id: int, f: MiniForm, env: MiniEnv, post: MiniPost)
    requires IsLoggedIn(s) && id != 0 && MiniPostById(db.posts, id) == Some(post)
    requires Received(f.image) && env.moveOk && !env.exec.Done?
    requires Validate(TrimWs(f.title), TrimWs(f.content), f.image) == []
    requires !Empty(post.image) && post.image != StoredAs(env.now, f.image.value.name)
    ensures EditSpec(db, s, id, Some(f), env).db.posts == db.posts
    ensures post.image !in EditSpec(db, s, id, Some(f), env).db.files
  {
    var title, content := TrimWs(f.title), TrimWs(f.content);
    var staged := ReplaceUpload(db.files, [], f.image, post.image, env.now, env.moveOk);
    assert post.image !in staged.files;
    assert EditSpec(db, s, id, Some(f), env)
           == Update(db.(files := staged.files), s, post.(title := title, content := content, image := staged.image),
                     [], env.exec);
  }

  /** The upload step run on the site. */
  method MoveReplacement(site: MiniSite, errors: seq<Problem>, file: Option<UploadedFile>, current: string,
                         now: nat, moveOk: bool) returns (image: string, errorsAfter: seq<Problem>)
    modifies site
    ensures Staged(site.files, image, errorsAfter) == ReplaceUpload(old(site.files), errors, file, current, now, moveOk)
    ensures site.Db() == old(site.Db()).(files := site.files) && site.session == old(site.session)
  {
    image, errorsAfter := current, errors;
    if Received(file) && errors == [] {
      var name := StoredAs(now, file.value.name);
      if moveOk {
        site.files := site.files + {name};
        if Truthy(Some(current)) && current in site.files {
          site.files := site.files - {current};
        }
        assert site.files == Unlink(old(site.files) + {name}, Some(current));
        image := name;
      } else {
        errorsAfter := errorsAfter + [MoveFailed];
      }
    }
  }

  /** The request handler of edit_post.php. */
  method HandleEdit(site: MiniSite, id: int, form: Option<MiniForm>, env: MiniEnv) returns (response: Response)
    modifies site
    ensures MiniStep(site.Db(), site.session, response) == EditSpec(old(site.Db()), old(site.session), id, form, env)
  {
    if !IsLoggedIn(site.session) {
      return Redirected(Redirect(MiniLoginPage, None));
    }
    if id == 0 {
      return Redirected(Redirect(ListPage, None));
    }
    var post := MiniPostById(site.posts, id);
    if post.None? {
      return Redirected(Redirect(ListPage, None));
    }
    if form.None? {
      return Shown([]);
    }
    var title := TrimWs(form.value.title);
    var content := TrimWs(form.value.content);
    var errors := Validate(title, content, form.value.image);
    ghost var db0 := site.Db();
    var image;
    image, errors := MoveReplacement(site, errors, form.value.image, post.value.image, env.now, env.moveOk);
    var edited := post.value.(title := title, content := content, image := image);
    assert EditSpec(db0, site.session, id, form, env) == Update(site.Db(), site.session, edited, errors, env.exec);
    if errors != [] {
      return Shown(Messages(errors));
    }
    match env.exec
    case Done =>
      site.posts := SetMiniPost(site.posts, edited);
      return Redirected(Redirect(ListPage, None));
    case Failed =>
      return Shown(Messages([DbFailed]));
    case Raised(m) =>
      return Shown(Messages([DbRaised(m)]));
  }
}
