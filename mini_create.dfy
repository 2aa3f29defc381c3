/**
 * mini-blog-admin/create_post.php: validation that collects every problem,
 * an upload attempted only when there is none so far, and an insert only
 * when the list is still empty.
 */
module MiniCreate {
  import opened Base
  import opened Php
  import opened Query
  import opened Config
  import opened Uploads
  import opened MiniBlog

  /**
   * The upload step of create_post.php: only a received file with no error
   * so far is moved in, under `time() . '_' . name`; otherwise the image
   * column stays ''.
   */
  function CreateUpload(files: set<string>, errors: seq<Problem>, file: Option<UploadedFile>, now: nat,
                        moveOk: bool): (r: Staged)
    ensures errors != [] || !Received(file) ==> r == Staged(files, "", errors)
    ensures errors == [] && Received(file) ==>
      r.image == StoredAs(now, file.value.name)
      && (moveOk ==> r.files == files + {r.image} && r.errors == [])
      && (!moveOk ==> r.files == files && r.errors == [MoveFailed])
  {
    if errors == [] && Received(file) then
      var name := StoredAs(now, file.value.name);
      if moveOk then Staged(files + {name}, name, []) else Staged(files, name, [MoveFailed])
    else Staged(files, "", errors)
  }

  /** The row the insert writes. */
  function NewMiniPost(db: MiniStore, title: string, content: string, image: string, now: int): MiniPost {
    MiniPost(db.nextId, title, content, image, now)
  }

  /**
   * A request to create_post.php (`form == None` is a plain view). When the
   * list of problems is empty the insert runs: success redirects to the
   * list; a false result or an exception adds its entry.
   */
  function CreateSpec(db: MiniStore, s: Session, form: Option<MiniForm>, env: MiniEnv): (r: MiniStep)
    ensures r.session == s && r.db.users == db.users
    ensures !IsLoggedIn(s) ==> r == MiniStep(db, s, Redirected(Redirect(MiniLoginPage, None)))
    ensures r.db.posts != db.posts ==>
      IsLoggedIn(s) && form.Some? && env.exec.Done?
      && Validate(TrimWs(form.value.title), TrimWs(form.value.content), form.value.image) == []
      && r.response == Redirected(Redirect(ListPage, None))
    ensures r.db.files != db.files ==>
      IsLoggedIn(s) && form.Some? && Received(form.value.image) && env.moveOk
      && Validate(TrimWs(form.value.title), TrimWs(form.value.content), form.value.image) == []
    ensures MiniValid(db) ==> MiniValid(r.db)
  {
    if !IsLoggedIn(s) then MiniStep(db, s, Redirected(Redirect(MiniLoginPage, None)))
    else if form.None? then MiniStep(db, s, Shown([]))
    else
      var title, content := TrimWs(form.value.title), TrimWs(form.value.content);
      var staged := CreateUpload(db.files, Validate(title, content, form.value.image), form.value.image,
                                 env.now, env.moveOk);
      Insert(db.(files := staged.files), s, title, content, staged, env)
  }

  /** The insert of create_post.php, once the upload step has run. */
  function Insert(db: MiniStore, s: Session, title: string, content: string, staged: Staged, env: MiniEnv): (r: MiniStep)
    ensures r.session == s && r.db.users == db.users && r.db.files == db.files
    ensures r.db.posts != db.posts ==> staged.errors == [] && env.exec.Done?
    ensures staged.errors == [] && env.exec.Done? ==>
      r == MiniStep(db.(posts := db.posts + [NewMiniPost(db, title, content, staged.image, env.now)],
                        nextId := db.nextId + 1), s, Redirected(Redirect(ListPage, None)))
    ensures staged.errors != [] ==> r == MiniStep(db, s, Shown(Messages(staged.errors)))
    ensures MiniValid(db) ==> MiniValid(r.db)
  {
    if staged.errors != [] then MiniStep(db, s, Shown(Messages(staged.errors)))
    else
      match env.exec
      case Done =>
        var p := NewMiniPost(db, title, content, staged.image, env.now);
        InsertKeepsValid(db, p);
        MiniStep(db.(posts := db.posts + [p], nextId := db.nextId + 1), s, Redirected(Redirect(ListPage, None)))
      case Failed => MiniStep(db, s, Shown(Messages([DbFailed])))
      case Raised(m) => MiniStep(db, s, Shown(Messages([DbRaised(m)])))
  }

  /** Appending a row with the next id keeps the table valid. */
  lemma InsertKeepsValid(db: MiniStore, p: MiniPost)
    requires p.id == db.nextId
    ensures MiniValid(db) ==> MiniValid(db.(posts := db.posts + [p], nextId := db.nextId + 1))
  {
    if MiniValid(db) {
      AppendKeepsDistinct(db.posts, p, MiniPostId);
    }
  }

  /** A form with a problem neither moves a file nor inserts, and shows every problem found. */
  lemma ProblemsBlockUploadAndInsert(db: MiniStore, s: Session, f: MiniForm, env: MiniEnv)
    requires IsLoggedIn(s) && Validate(TrimWs(f.title), TrimWs(f.content), f.image) != []
    ensures CreateSpec(db, s, Some(f), env)
            == MiniStep(db, s, Shown(Messages(Validate(TrimWs(f.title), TrimWs(f.content), f.image))))
  {
  }

  /** Without a file the image column is ''; with one it is the time-stamped original name. */
  lemma StoredImageName(db: MiniStore, s: Session, f: MiniForm, env: MiniEnv)
    requires IsLoggedIn(s) && Validate(TrimWs(f.title), TrimWs(f.content), f.image) == [] && env.exec.Done?
    requires !Received(f.image) || env.moveOk
    ensures CreateSpec(db, s, Some(f), env).db.posts
            == db.posts + [MiniPost(db.nextId, TrimWs(f.title), TrimWs(f.content),
                                    if Received(f.image) then StoredAs(env.now, f.image.value.name) else "", env.now)]
  {
  }

  /** An insert that fails after a successful move leaves the moved file in the directory, named by no row. */
  lemma FailedInsertOrphansFile(db: MiniStore, s: Session, f: MiniForm, env: MiniEnv)
    requires IsLoggedIn(s) && Validate(TrimWs(f.title), TrimWs(f.content), f.image) == []
    requires Received(f.image) && env.moveOk && !env.exec.Done?
    ensures CreateSpec(db, s, Some(f), env).db.posts == db.posts
    ensures CreateSpec(db, s, Some(f), env).db.files == db.files + {StoredAs(env.now, f.image.value.name)}
  {
  }

  /** The upload step run on the site. */
  method MoveUpload(site: MiniSite, errors: seq<Problem>, file: Option<UploadedFile>, now: nat, moveOk: bool)
    returns (image: string, errorsAfter: seq<Problem>)
    modifies site
    ensures Staged(site.files, image, errorsAfter) == CreateUpload(old(site.files), errors, file, now, moveOk)
    ensures site.Db() == old(site.Db()).(files := site.files) && site.session == old(site.session)
  {
    image, errorsAfter := "", errors;
    if Received(file) && errors == [] {
      image := StoredAs(now, file.value.name);
      if moveOk {
        site.files := site.files + {image};
      } else {
        errorsAfter := errorsAfter + [MoveFailed];
      }
    }
  }

  /** The request handler of create_post.php. */
  method HandleCreate(site: MiniSite, form: Option<MiniForm>, env: MiniEnv) returns (response: Response)
    modifies site
    ensures MiniStep(site.Db(), site.session, response) == CreateSpec(old(site.Db()), old(site.session), form, env)
  {
    if !IsLoggedIn(site.session) {
      return Redirected(Redirect(MiniLoginPage, None));
    }
    if form.None? {
      return Shown([]);
    }
    var title := TrimWs(form.value.title);
    var content := TrimWs(form.value.content);
    var errors := Validate(title, content, form.value.image);
    var image;
    image, errors := MoveUpload(site, errors, form.value.image, env.now, env.moveOk);
    if errors != [] {
      return Shown(Messages(errors));
    }
    match env.exec
    case Done =>
      site.posts := site.posts + [NewMiniPost(site.Db(), title, content, image, env.now)];
      site.nextId := site.nextId + 1;
      return Redirected(Redirect(ListPage, None));
    case Failed =>
      return Shown(Messages([DbFailed]));
    case Raised(m) =>
      return Shown(Messages([DbRaised(m)]));
  }
}
