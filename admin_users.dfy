/**
 * admin/users.php: the admin-only user management page, with `deleteUser`
 * (the schema's ON DELETE CASCADE also removes the user's posts and comments,
 * and the comments on those posts) and `updateUserRole`.
 */
module AdminUsers {
  import opened Base
  import opened Query
  import opened Config
  import opened Uploads
  import opened Blog
  import opened AddPost

  const SelfDelete := "You cannot delete your own account."
  const UserNotFound := "User not found."
  const SelfRole := "You cannot change your own role."
  const InvalidRole := "Invalid role specified."
  const UserDeleted := "User deleted successfully!"
  const RoleUpdated := "User role updated successfully!"
  const UsersPage := "users.php"

  /** The roles `updateUserRole` accepts. */
  const AllowedRoles: seq<string> := ["user", "admin"]

  // -------------------------------------------------------------- deleteUser

  function OtherUser(id: int): User -> bool {
    (u: User) => u.id != id
  }

  function NotByAuthor(id: int): Post -> bool {
    (p: Post) => p.authorId != id
  }

  /** The ids of the posts `author` wrote. */
  function PostsOf(posts: seq<Post>, author: int): set<int> {
    set i | 0 <= i < |posts| && posts[i].authorId == author :: posts[i].id
  }

  /** A comment survives the cascade unless its author or its post's author is the deleted user. */
  function SurvivingComment(posts: seq<Post>, id: int): Comment -> bool {
    (c: Comment) => c.authorId != id && c.postId !in PostsOf(posts, id)
  }

  /** The tables after `DELETE FROM users WHERE id = ?` and its cascade. */
  function WithoutUser(db: Store, id: int): (r: Store)
    ensures r.files == db.files && r.nextUserId == db.nextUserId && r.nextPostId == db.nextPostId
    ensures forall u :: u in r.users <==> u in db.users && u.id != id
    ensures forall p :: p in r.posts <==> p in db.posts && p.authorId != id
    ensures forall c :: c in r.comments <==> c in db.comments && c.authorId != id && c.postId !in PostsOf(db.posts, id)
  {
    db.(users := Where(db.users, OtherUser(id)), posts := Where(db.posts, NotByAuthor(id)),
        comments := Where(db.comments, SurvivingComment(db.posts, id)))
  }

  /**
   * `deleteUser($pdo, $userId, $currentUserId)`: deleting oneself is refused
   * before any lookup; an unknown id throws and changes nothing; otherwise the
   * profile image is unlinked, then the row (and by cascade its posts and
   * comments) is deleted.
   */
  function DeleteUserSpec(db: Store, id: int, current: int, dbOk: bool): (r: Change)
    ensures id == current ==> r == Change(db, Some(Msg(SelfDelete)))
    ensures id != current && UserById(db.users, id).None? ==> r == Change(db, Some(Msg(UserNotFound)))
    ensures r.error.None? <==> id != current && UserById(db.users, id).Some? && dbOk
    ensures r.error.None? ==> r.db == WithoutUser(db, id).(files := Unlink(db.files, UserById(db.users, id).value.profileImage))
    ensures r.error.Some? ==> r.db.users == db.users && r.db.posts == db.posts && r.db.comments == db.comments
  {
    if id == current then Change(db, Some(Msg(SelfDelete)))
    else match UserById(db.users, id)
      case None => Change(db, Some(Msg(UserNotFound)))
      case Some(user) =>
        var files := Unlink(db.files, user.profileImage);
        if !dbOk then Change(db.(files := files), Some(Db("")))
        else Change(WithoutUser(db, id).(files := files), None)
  }

  /** Deleting a user keeps every table's keys unique. */
  lemma DeleteUserKeepsValid(db: Store, id: int, current: int, dbOk: bool)
    requires Valid(db)
    ensures Valid(DeleteUserSpec(db, id, current, dbOk).db)
  {
    WhereKeepsDistinct(db.users, OtherUser(id), UserId);
    WhereKeepsDistinct(db.users, OtherUser(id), Username);
    WhereKeepsDistinct(db.users, OtherUser(id), UserEmail);
    WhereKeepsDistinct(db.posts, NotByAuthor(id), PostId);
    WhereKeepsDistinct(db.posts, NotByAuthor(id), PostSlug);
    WhereKeepsDistinct(db.comments, SurvivingComment(db.posts, id), CommentId);
    var r := WithoutUser(db, id);
    assert forall i :: 0 <= i < |r.users| ==> r.users[i] in db.users;
    assert forall i :: 0 <= i < |r.posts| ==> r.posts[i] in db.posts;
    assert forall i :: 0 <= i < |r.comments| ==> r.comments[i] in db.comments;
  }

  /**
   * The cascade removes the user's posts but not their image files: a post's
   * featured image other than the profile image stays in the directory.
   */
  lemma DeleteUserOrphansImages(db: Store, id: int, current: int, p: Post)
    requires DeleteUserSpec(db, id, current, true).error.None?
    requires p in db.posts && p.authorId == id && Truthy(p.featuredImage) && p.featuredImage.value in db.files
    requires p.featuredImage != UserById(db.users, id).value.profileImage
    ensures p !in DeleteUserSpec(db, id, current, true).db.posts
    ensures p.featuredImage.value in DeleteUserSpec(db, id, current, true).db.files
  {
  }

  // ---------------------------------------------------------- updateUserRole

  /** `UPDATE users SET role = ? WHERE id = ?`: only the rows with that id change, and only their role. */
  function SetRole(users: seq<User>, id: int, role: string): (r: seq<User>)
    ensures |r| == |users|
    ensures forall i :: 0 <= i < |users| ==> r[i] == if users[i].id == id then users[i].(role := role) else users[i]
  {
    if users == [] then [] else [if users[0].id == id then users[0].(role := role) else users[0]] + SetRole(users[1..], id, role)
  }

  /**
   * `updateUserRole($pdo, $userId, $newRole, $currentUserId)`: changing one's
   * own role is refused before the role is looked at; only 'user' and 'admin'
   * are accepted; an unknown id is not an error and changes nothing.
   */
  function UpdateRoleSpec(db: Store, id: int, role: string, current: int, dbOk: bool): (r: Change)
    ensures id == current ==> r == Change(db, Some(Msg(SelfRole)))
    ensures id != current && role !in AllowedRoles ==> r == Change(db, Some(Msg(InvalidRole)))
    ensures r.error.None? <==> id != current && role in AllowedRoles && dbOk
    ensures r.error.None? ==> r.db == db.(users := SetRole(db.users, id, role))
    ensures r.error.Some? ==> r.db == db
  {
    if id == current then Change(db, Some(Msg(SelfRole)))
    else if role !in AllowedRoles then Change(db, Some(Msg(InvalidRole)))
    else if !dbOk then Change(db, Some(Db("")))
    else Change(db.(users := SetRole(db.users, id, role)), None)
  }

  /** A role change keeps ids, usernames and emails, so the tables stay valid. */
  lemma UpdateRoleKeepsValid(db: Store, id: int, role: string, current: int, dbOk: bool)
    requires Valid(db)
    ensures Valid(UpdateRoleSpec(db, id, role, current, dbOk).db)
  {
    var r := SetRole(db.users, id, role);
    assert forall i :: 0 <= i < |r| ==>
      UserId(r[i]) == UserId(db.users[i]) && Username(r[i]) == Username(db.users[i]) && UserEmail(r[i]) == UserEmail(db.users[i]);
  }

  /** When every stored role is allowed, every role after a role change still is. */
  lemma UpdateRoleKeepsRolesAllowed(db: Store, id: int, role: string, current: int, dbOk: bool)
    requires forall u :: u in db.users ==> u.role in AllowedRoles
    ensures forall u :: u in UpdateRoleSpec(db, id, role, current, dbOk).db.users ==> u.role in AllowedRoles
  {
    var r := UpdateRoleSpec(db, id, role, current, dbOk).db.users;
    forall u | u in r ensures u.role in AllowedRoles {
      var i :| 0 <= i < |r| && r[i] == u;
      if r != db.users {
        assert db.users[i] in db.users;
      }
    }
  }

  // -------------------------------------------------------------------- page

  /** The request to users.php: `?delete=id`, or a posted role update. */
  datatype UsersRequest = UsersRequest(delete: Option<int>, roleUpdate: Option<RoleUpdate>)
  datatype RoleUpdate = RoleUpdate(userId: int, role: string)

  /** The flash a finished admin action leaves. */
  function Outcome(c: Change, success: string): Flash {
    if c.error.None? then Success(success) else Failure(c.error.value)
  }

  /**
   * users.php: login and admin required; a delete request is handled first,
   * then a role update, each redirecting back with a flash; otherwise the list is shown.
   */
  function UsersPageSpec(db: Store, s: Session, req: UsersRequest, dbOk: bool): (r: Step)
    ensures r.session == s
    ensures Guard(s, true).Some? ==> r == Step(db, s, Redirected(Guard(s, true).value))
  {
    match Guard(s, true)
    case Some(g) => Step(db, s, Redirected(g))
    case None =>
      if req.delete.Some? then
        var c := DeleteUserSpec(db, req.delete.value, s.userId.value, dbOk);
        Step(c.db, s, Redirected(Redirect(UsersPage, Some(Outcome(c, UserDeleted)))))
      else if req.roleUpdate.Some? then
        var c := UpdateRoleSpec(db, req.roleUpdate.value.userId, req.roleUpdate.value.role, s.userId.value, dbOk);
        Step(c.db, s, Redirected(Redirect(UsersPage, Some(Outcome(c, RoleUpdated)))))
      else Step(db, s, Shown([]))
  }

  /** Whatever an admin does on the page, their own row stays as it was: not deleted and with the same role. */
  lemma AdminCannotDemoteOrDeleteSelf(db: Store, s: Session, req: UsersRequest, dbOk: bool, me: User)
    requires IsLoggedIn(s) && me in db.users && me.id == s.userId.value
    ensures me in UsersPageSpec(db, s, req, dbOk).db.users
  {
    var r := UsersPageSpec(db, s, req, dbOk).db.users;
    if Guard(s, true).None? && req.delete.None? && req.roleUpdate.Some? {
      var c := UpdateRoleSpec(db, req.roleUpdate.value.userId, req.roleUpdate.value.role, s.userId.value, dbOk);
      if c.error.None? {
        var i :| 0 <= i < |db.users| && db.users[i] == me;
        assert r[i] == me;
      }
    }
  }

  /** `deleteUser` run on the site. */
  method DeleteUser(site: Site, id: int, current: int, dbOk: bool) returns (error: Option<Error>)
    modifies site
    ensures Change(site.Db(), error) == DeleteUserSpec(old(site.Db()), id, current, dbOk)
    ensures site.session == old(site.session)
  {
    ghost var want := DeleteUserSpec(site.Db(), id, current, dbOk);
    if id == current {
      assert want == Change(site.Db(), Some(Msg(SelfDelete)));
      return Some(Msg(SelfDelete));
    }
    var found := UserById(site.users, id);
    if found.None? {
      assert want == Change(site.Db(), Some(Msg(UserNotFound)));
      return Some(Msg(UserNotFound));
    }
    var image := found.value.profileImage;
    if Truthy(image) && image.value in site.files {
      site.files := site.files - {image.value};
    }
    assert site.files == Unlink(old(site.files), image);
    if !dbOk {
      assert want == Change(site.Db(), Some(Db("")));
      return Some(Db(""));
    }
    var after := WithoutUser(site.Db(), id);
    assert want.db == after;
    site.users, site.posts, site.comments := after.users, after.posts, after.comments;
    return None;
  }

  /** `updateUserRole` run on the site. */
  method UpdateUserRole(site: Site, id: int, role: string, current: int, dbOk: bool) returns (error: Option<Error>)
    modifies site
    ensures Change(site.Db(), error) == UpdateRoleSpec(old(site.Db()), id, role, current, dbOk)
    ensures site.session == old(site.session)
  {
    if id == current {
      return Some(Msg(SelfRole));
    }
    if role !in AllowedRoles {
      return Some(Msg(InvalidRole));
    }
    if !dbOk {
      return Some(Db(""));
    }
    site.users := SetRole(site.users, id, role);
    return None;
  }

  /** The request handler of users.php. */
  method HandleUsersPage(site: Site, req: UsersRequest, dbOk: bool) returns (response: Response)
    modifies site
    ensures Step(site.Db(), site.session, response) == UsersPageSpec(old(site.Db()), old(site.session), req, dbOk)
  {
    var guard := Guard(site.session, true);
    if guard.Some? {
      return Redirected(guard.value);
    }
    if req.delete.Some? {
      var error := DeleteUser(site, req.delete.value, site.session.userId.value, dbOk);
      return Redirected(Redirect(UsersPage, Some(Outcome(Change(site.Db(), error), UserDeleted))));
    }
    if req.roleUpdate.Some? {
      var error := UpdateUserRole(site, req.roleUpdate.value.userId, req.roleUpdate.value.role, site.session.userId.value, dbOk);
      return Redirected(Redirect(UsersPage, Some(Outcome(Change(site.Db(), error), RoleUpdated))));
    }
    return Shown([]);
  }
}
