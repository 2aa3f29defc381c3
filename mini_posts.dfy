/**
 * mini-blog-admin/posts.php: `?delete=id` reads the image name, deletes the
 * row, and unlinks the file only when the DELETE reported success. Any
 * signed-in user may delete any post.
 */
module MiniPosts {
  import opened Base
  import opened Php
  import opened Query
  import opened Config
  import opened Uploads
  import opened MiniBlog

  const Deleted := "Post deleted successfully"
  const DeleteFailed := "Error deleting post"

  function OtherMiniPost(id: int): MiniPost -> bool {
    (p: MiniPost) => p.id != id
  }

  /** `SELECT image FROM posts WHERE id = ?`, read before the delete; a missing row reads as ''. */
  function ImageOf(posts: seq<MiniPost>, id: int): (r: string)
    ensures MiniPostById(posts, id).Some? ==> r == MiniPostById(posts, id).value.image
    ensures MiniPostById(posts, id).None? ==> r == ""
  {
    match MiniPostById(posts, id)
    case None => ""
    case Some(p) => p.image
  }

  /**
   * A request to posts.php, `delete` being `$_GET['delete']`. Only a login is
   * required. A DELETE that succeeds removes every row with the id and then the
   * file; one that returns false changes nothing; one that throws is not caught.
   */
  function PostsSpec(db: MiniStore, s: Session, delete: Option<int>, exec: Exec): (r: MiniStep)
    ensures r.session == s && r.db.users == db.users && r.db.nextId == db.nextId
    ensures !IsLoggedIn(s) ==> r == MiniStep(db, s, Redirected(Redirect(MiniLoginPage, None)))
    ensures IsLoggedIn(s) && delete.Some? && exec.Done? ==>
      r.db.posts == Where(db.posts, OtherMiniPost(delete.value))
      && r.db.files == Unlink(db.files, Some(ImageOf(db.posts, delete.value)))
      && r.response == Notified(Deleted)
    ensures !(IsLoggedIn(s) && delete.Some? && exec.Done?) ==> r.db == db
    ensures IsLoggedIn(s) && delete.Some? && exec.Raised? ==> r.response == Aborted
    ensures MiniValid(db) ==> MiniValid(r.db)
  {
    if !IsLoggedIn(s) then MiniStep(db, s, Redirected(Redirect(MiniLoginPage, None)))
    else if delete.None? then MiniStep(db, s, Shown([]))
    else
      var id := delete.value;
      var image := ImageOf(db.posts, id);
      match exec
      case Done =>
        var rest := Where(db.posts, OtherMiniPost(id));
        DeleteKeepsValid(db, id);
        MiniStep(db.(posts := rest, files := Unlink(db.files, Some(image))), s, Notified(Deleted))
      case Failed => MiniStep(db, s, Shown([Msg(DeleteFailed)]))
      case Raised(_) => MiniStep(db, s, Aborted)
  }

  /** Removing rows keeps the table valid. */
  lemma DeleteKeepsValid(db: MiniStore, id: int)
    ensures MiniValid(db) ==> MiniValid(db.(posts := Where(db.posts, OtherMiniPost(id))))
  {
    if MiniValid(db) {
      WhereKeepsDistinct(db.posts, OtherMiniPost(id), MiniPostId);
      var rest := Where(db.posts, OtherMiniPost(id));
      forall i | 0 <= i < |rest| ensures 0 < rest[i].id < db.nextId {
        assert rest[i] in db.posts;
      }
    }
  }

  /** After a successful delete no row has the id and the file the row named is gone. */
  lemma DeleteRemovesRowAndFile(db: MiniStore, s: Session, id: int, p: MiniPost)
    requires IsLoggedIn(s) && p in db.posts && p.id == id && !Empty(p.image)
    requires MiniValid(db)
    ensures forall q :: q in PostsSpec(db, s, Some(id), Done).db.posts ==> q.id != id
    ensures p.image !in PostsSpec(db, s, Some(id), Done).db.files
  {
    var k :| 0 <= k < |db.posts| && db.posts[k] == p;
    var r := MiniPostById(db.posts, id);
    var j :| 0 <= j < |db.posts| && db.posts[j] == r.value && r.value.id == id;
    assert MiniPostId(db.posts[j]) == MiniPostId(db.posts[k]);
  }

  /** A DELETE that does not succeed leaves the file in place. */
  lemma FailedDeleteKeepsFile(db: MiniStore, s: Session, id: int, exec: Exec)
    requires !exec.Done?
    ensures PostsSpec(db, s, Some(id), exec).db.files == db.files
  {
  }

  /** Deleting an id no row has still reports success, and removes no file. */
  lemma DeleteMissingReportsSuccess(db: MiniStore, s: Session, id: int)
    requires IsLoggedIn(s) && forall i :: 0 <= i < |db.posts| ==> db.posts[i].id != id
    ensures PostsSpec(db, s, Some(id), Done) == MiniStep(db, s, Notified(Deleted))
  {
    WhereAll(db.posts, OtherMiniPost(id));
  }

  /** A filter every row passes keeps the table as it is. */
  lemma {:induction false} WhereAll(s: seq<MiniPost>, keep: MiniPost -> bool)
    requires forall i :: 0 <= i < |s| ==> keep(s[i])
    ensures Where(s, keep) == s
  {
    if s != [] {
      WhereAll(s[1..], keep);
    }
  }

  /** The request handler of posts.php (the listing that follows is `ListPosts`). */
  method HandlePosts(site: MiniSite, delete: Option<int>, exec: Exec) returns (response: Response)
    modifies site
    ensures MiniStep(site.Db(), site.session, response) == PostsSpec(old(site.Db()), old(site.session), delete, exec)
  {
    if !IsLoggedIn(site.session) {
      return Redirected(Redirect(MiniLoginPage, None));
    }
    if delete.None? {
      return Shown([]);
    }
    var id := delete.value;
    var image := ImageOf(site.posts, id);
    match exec
    case Done =>
      site.posts := Where(site.posts, OtherMiniPost(id));
      if Truthy(Some(image)) && image in site.files {
        site.files := site.files - {image};
      }
      assert site.files == Unlink(old(site.files), Some(image));
      return Notified(Deleted);
    case Failed =>
      return Shown([Msg(DeleteFailed)]);
    case Raised(_) =>
      return Aborted;
  }
}
