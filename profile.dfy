/**
 * admin/profile.php: the signed-in user's own profile. The handler checks the
 * username and email, their uniqueness among the other users, the
 * password-change chain, then removes or replaces the profile image and
 * updates the row and the session's username.
 */
module Profile {
  import opened Base
  import opened Php
  import opened Query
  import opened Config
  import opened Uploads
  import opened Blog
  import opened AddPost

  const ProfileUserNotFound := "User not found."
  const NameAndEmailRequired := "Username and email are required."
  const InvalidEmail := "Please enter a valid email address."
  const AlreadyTaken := "Username or email already exists."
  const CurrentPasswordRequired := "Current password is required to set a new password."
  const CurrentPasswordWrong := "Current password is incorrect."
  const NewPasswordShort := "New password must be at least 6 characters long."
  const NewPasswordMismatch := "New passwords do not match."
  const ProfileUpdated := "Profile updated successfully!"
  const ProfilePage := "profile.php"

  /** The profile form as submitted; absent fields are "". */
  datatype ProfileForm = ProfileForm(username: string, email: string, currentPassword: string, newPassword: string,
                                     confirmPassword: string, removeImage: bool, image: Option<UploadedFile>)

  /** The first two checks, on the trimmed values: both present, then a valid email. */
  function ValidateProfile(username: string, email: string, validEmail: string -> bool): (r: Option<Error>)
    ensures r.None? <==> !Empty(username) && !Empty(email) && validEmail(email)
    ensures (Empty(username) || Empty(email)) ==> r == Some(Msg(NameAndEmailRequired))
    ensures !Empty(username) && !Empty(email) && !validEmail(email) ==> r == Some(Msg(InvalidEmail))
  {
    if Empty(username) || Empty(email) then Some(Msg(NameAndEmailRequired))
    else if !validEmail(email) then Some(Msg(InvalidEmail))
    else None
  }

  function ClashesWith(username: string, email: string, self: int): User -> bool {
    (u: User) => (u.username == username || u.email == email) && u.id != self
  }

  /** `SELECT id FROM users WHERE (username = ? OR email = ?) AND id != ?` finds a row. */
  function Taken(users: seq<User>, username: string, email: string, self: int): (r: bool)
    ensures r <==> exists i :: 0 <= i < |users| && users[i].id != self
                               && (users[i].username == username || users[i].email == email)
  {
    First(users, ClashesWith(username, email, self)).Some?
  }

  /** A user's own username and email never count as taken against themselves. */
  lemma OwnNamesNotTaken(users: seq<User>, next: int, me: User)
    requires ValidUsers(users, next) && me in users
    ensures !Taken(users, me.username, me.email, me.id)
  {
    var k :| 0 <= k < |users| && users[k] == me;
    forall i | 0 <= i < |users| && users[i].id != me.id
      ensures users[i].username != me.username && users[i].email != me.email
    {
      assert Username(users[i]) != Username(users[k]) && UserEmail(users[i]) != UserEmail(users[k]);
    }
  }

  /**
   * The password column after the change chain: an empty new password keeps the
   * stored hash; otherwise the current password must be given and verify, the
   * chosen one be at least 6 bytes and equal its confirmation, and it is hashed.
   */
  function PasswordChange(stored: string, given: string, chosen: string, repeated: string,
                          verify: (string, string) -> bool, hash: string -> string): (r: Result<string>)
    ensures Empty(chosen) ==> r == Ok(stored)
    ensures !Empty(chosen) ==> (r.Ok? <==> !Empty(given) && verify(given, stored) && |chosen| >= 6 && chosen == repeated)
    ensures !Empty(chosen) && r.Ok? ==> r.value == hash(chosen)
    ensures !Empty(chosen) && Empty(given) ==> r == Err(Msg(CurrentPasswordRequired))
  {
    if Empty(chosen) then Ok(stored)
    else if Empty(given) then Err(Msg(CurrentPasswordRequired))
    else if !verify(given, stored) then Err(Msg(CurrentPasswordWrong))
    else if |chosen| < 6 then Err(Msg(NewPasswordShort))
    else if chosen != repeated then Err(Msg(NewPasswordMismatch))
    else Ok(hash(chosen))
  }

  /** The chain stops at the first failing check, in the page's order. */
  lemma PasswordChecksInOrder(stored: string, given: string, chosen: string, repeated: string,
                              verify: (string, string) -> bool, hash: string -> string)
    requires !Empty(chosen) && !Empty(given)
    ensures !verify(given, stored) ==> PasswordChange(stored, given, chosen, repeated, verify, hash) == Err(Msg(CurrentPasswordWrong))
    ensures verify(given, stored) && |chosen| < 6 ==> PasswordChange(stored, given, chosen, repeated, verify, hash) == Err(Msg(NewPasswordShort))
    ensures verify(given, stored) && |chosen| >= 6 && chosen != repeated ==>
      PasswordChange(stored, given, chosen, repeated, verify, hash) == Err(Msg(NewPasswordMismatch))
  {
  }

  /** `UPDATE users SET ... WHERE id = ?`: every row with the id of `u` becomes `u`, the rest stay. */
  function SetUser(users: seq<User>, u: User): (r: seq<User>)
    ensures |r| == |users|
    ensures forall i :: 0 <= i < |users| ==> r[i] == if users[i].id == u.id then u else users[i]
  {
    if users == [] then [] else [if users[0].id == u.id then u else users[0]] + SetUser(users[1..], u)
  }

  /**
   * A request to profile.php (`form == None` is a plain view): login required;
   * the session's user must exist; the checks run in order, and every one of
   * them before any file is touched.
   */
  function ProfileSpec(db: Store, s: Session, form: Option<ProfileForm>, env: Env): (r: Step)
    ensures r.db.posts == db.posts && r.db.comments == db.comments
    ensures r.db.nextUserId == db.nextUserId && r.db.nextPostId == db.nextPostId && r.db.nextCommentId == db.nextCommentId
    ensures r.session == s || (r.session == s.(username := r.session.username) && r.response.Redirected?)
    ensures ValidUsers(db.users, db.nextUserId) ==> ValidUsers(r.db.users, r.db.nextUserId)
  {
    if !IsLoggedIn(s) then Step(db, s, Redirected(Redirect(LoginPage, None)))
    else match UserById(db.users, s.userId.value)
      case None => Step(db, s, Redirected(Redirect(IndexPage, Some(Failure(Msg(ProfileUserNotFound))))))
      case Some(user) =>
        if form.None? then Step(db, s, Shown([]))
        else
          var f := form.value;
          var username, email := TrimWs(f.username), TrimWs(f.email);
          match ValidateProfile(username, email, env.validEmail)
          case Some(e) => Step(db, s, Shown([e]))
          case None =>
            if Taken(db.users, username, email, s.userId.value) then Step(db, s, Shown([Msg(AlreadyTaken)]))
            else match PasswordChange(user.password, f.currentPassword, f.newPassword, f.confirmPassword, env.verify, env.hash)
              case Err(e) => Step(db, s, Shown([e]))
              case Ok(hashed) => SaveProfile(db, s, user, username, email, hashed, f.removeImage, f.image, env)
  }

  /** The part of the handler after every check: the image step, the update, the session. */
  function SaveProfile(db: Store, s: Session, user: User, username: string, email: string, hashed: string,
                       remove: bool, image: Option<UploadedFile>, env: Env): (r: Step)
    requires IsLoggedIn(s) && user.id == s.userId.value
    ensures r.db.posts == db.posts && r.db.comments == db.comments
    ensures r.db.nextUserId == db.nextUserId && r.db.nextPostId == db.nextPostId && r.db.nextCommentId == db.nextCommentId
    ensures r.db.files == ChooseImage(db.files, remove, image, user.profileImage, "profile_", env.token, env.moveOk).files
    ensures r.response.Redirected? ==>
      env.dbOk && ChooseImage(db.files, remove, image, user.profileImage, "profile_", env.token, env.moveOk).image.Ok?
      && r.session == s.(username := Some(username))
      && r.response == Redirected(Redirect(ProfilePage, Some(Success(ProfileUpdated))))
      && r.db.users == SetUser(db.users, user.(username := username, email := email, password := hashed,
                                               profileImage := ChooseImage(db.files, remove, image, user.profileImage,
                                                                           "profile_", env.token, env.moveOk).image.value))
    ensures !r.response.Redirected? ==> r.session == s && r.db.users == db.users
    ensures ValidUsers(db.users, db.nextUserId) && !Taken(db.users, username, email, user.id) ==> ValidUsers(r.db.users, r.db.nextUserId)
  {
    var up := ChooseImage(db.files, remove, image, user.profileImage, "profile_", env.token, env.moveOk);
    var db1 := db.(files := up.files);
    if up.image.Err? then Step(db1, s, Shown([up.image.error]))
    else if !env.dbOk then Step(db1, s, Shown([Db("")]))
    else
      var u := user.(username := username, email := email, password := hashed, profileImage := up.image.value);
      SetUserKeepsValid(db.users, db.nextUserId, u);
      Step(db1.(users := SetUser(db.users, u)), s.(username := Some(username)),
           Redirected(Redirect(ProfilePage, Some(Success(ProfileUpdated)))))
  }

  /** Rewriting one's own row with a username and email no other user has keeps the users table valid. */
  lemma SetUserKeepsValid(users: seq<User>, next: int, u: User)
    ensures ValidUsers(users, next) && !Taken(users, u.username, u.email, u.id) ==> ValidUsers(SetUser(users, u), next)
  {
    if ValidUsers(users, next) && !Taken(users, u.username, u.email, u.id) {
      var r := SetUser(users, u);
      forall i, j | 0 <= i < |r| && 0 <= j < |r| && i != j
        ensures UserId(r[i]) != UserId(r[j]) && Username(r[i]) != Username(r[j]) && UserEmail(r[i]) != UserEmail(r[j])
      {
        assert UserId(users[i]) != UserId(users[j]);
      }
    }
  }

  /** A failing check leaves the tables, the directory and the session as they were. */
  lemma ProfileChecksBeforeFiles(db: Store, s: Session, f: ProfileForm, env: Env)
    requires IsLoggedIn(s) && UserById(db.users, s.userId.value).Some?
    requires ValidateProfile(TrimWs(f.username), TrimWs(f.email), env.validEmail).Some?
             || Taken(db.users, TrimWs(f.username), TrimWs(f.email), s.userId.value)
             || PasswordChange(UserById(db.users, s.userId.value).value.password, f.currentPassword, f.newPassword,
                               f.confirmPassword, env.verify, env.hash).Err?
    ensures ProfileSpec(db, s, Some(f), env).db == db && ProfileSpec(db, s, Some(f), env).session == s
    ensures ProfileSpec(db, s, Some(f), env).response.Shown?
  {
  }

  /** Submitting one's own current username and email passes the uniqueness check. */
  lemma ProfileKeepsOwnNames(db: Store, s: Session, f: ProfileForm, env: Env)
    requires Valid(db) && IsLoggedIn(s) && UserById(db.users, s.userId.value).Some?
    requires TrimWs(f.username) == UserById(db.users, s.userId.value).value.username
    requires TrimWs(f.email) == UserById(db.users, s.userId.value).value.email
    ensures !Taken(db.users, TrimWs(f.username), TrimWs(f.email), s.userId.value)
  {
    OwnNamesNotTaken(db.users, db.nextUserId, UserById(db.users, s.userId.value).value);
  }

  /** An empty new password goes on to the update with the stored hash. */
  lemma ProfileKeepsPassword(db: Store, s: Session, f: ProfileForm, env: Env)
    requires IsLoggedIn(s) && UserById(db.users, s.userId.value).Some? && Empty(f.newPassword)
    requires ValidateProfile(TrimWs(f.username), TrimWs(f.email), env.validEmail).None?
    requires !Taken(db.users, TrimWs(f.username), TrimWs(f.email), s.userId.value)
    ensures ProfileSpec(db, s, Some(f), env) ==
      SaveProfile(db, s, UserById(db.users, s.userId.value).value, TrimWs(f.username), TrimWs(f.email),
                  UserById(db.users, s.userId.value).value.password, f.removeImage, f.image, env)
  {
  }

  /** `remove_image` wins over an upload: the current file is unlinked and the column cleared. */
  lemma ProfileRemoveWins(db: Store, s: Session, user: User, username: string, email: string, hashed: string,
                          image: Option<UploadedFile>, env: Env)
    requires IsLoggedIn(s) && user.id == s.userId.value && Truthy(user.profileImage) && env.dbOk
    ensures user.profileImage.value !in SaveProfile(db, s, user, username, email, hashed, true, image, env).db.files
    ensures SaveProfile(db, s, user, username, email, hashed, true, image, env).db.users
            == SetUser(db.users, user.(username := username, email := email, password := hashed, profileImage := None))
  {
  }

  /** Every profile request keeps the users table valid. */
  lemma ProfileKeepsValid(db: Store, s: Session, form: Option<ProfileForm>, env: Env)
    requires Valid(db)
    ensures Valid(ProfileSpec(db, s, form, env).db)
  {
    var r := ProfileSpec(db, s, form, env).db;
    assert ValidUsers(r.users, r.nextUserId);
  }

  /** The request handler of profile.php, up to the end of the checks. */
  method HandleProfile(site: Site, form: Option<ProfileForm>, env: Env) returns (response: Response)
    modifies site
    ensures Step(site.Db(), site.session, response) == ProfileSpec(old(site.Db()), old(site.session), form, env)
  {
    var guard := Guard(site.session, false);
    if guard.Some? {
      return Redirected(guard.value);
    }
    var found := UserById(site.users, site.session.userId.value);
    if found.None? {
      return Redirected(Redirect(IndexPage, Some(Failure(Msg(ProfileUserNotFound)))));
    }
    var user := found.value;
    if form.None? {
      return Shown([]);
    }
    var username := TrimWs(form.value.username);
    var email := TrimWs(form.value.email);
    if Empty(username) || Empty(email) {
      return Shown([Msg(NameAndEmailRequired)]);
    }
    if !env.validEmail(email) {
      return Shown([Msg(InvalidEmail)]);
    }
    if Taken(site.users, username, email, site.session.userId.value) {
      return Shown([Msg(AlreadyTaken)]);
    }
    var f := form.value;
    var hashed := ChangePassword(user.password, f.currentPassword, f.newPassword, f.confirmPassword, env);
    if hashed.Err? {
      return Shown([hashed.error]);
    }
    response := StoreProfile(site, user, username, email, hashed.value, f.removeImage, f.image, env);
  }

  /** The password block of the handler: the stored hash, or the new password's hash once every check passes. */
  method ChangePassword(stored: string, given: string, chosen: string, repeated: string, env: Env)
    returns (r: Result<string>)
    ensures r == PasswordChange(stored, given, chosen, repeated, env.verify, env.hash)
  {
    r := Ok(stored);
    if !Empty(chosen) {
      if Empty(given) {
        return Err(Msg(CurrentPasswordRequired));
      }
      if !env.verify(given, stored) {
        return Err(Msg(CurrentPasswordWrong));
      }
      if |chosen| < 6 {
        return Err(Msg(NewPasswordShort));
      }
      if chosen != repeated {
        return Err(Msg(NewPasswordMismatch));
      }
      r := Ok(env.hash(chosen));
    }
  }

  /** The rest of the handler: the image step, the update and the session's username. */
  method StoreProfile(site: Site, user: User, username: string, email: string, hashed: string,
                      remove: bool, image: Option<UploadedFile>, env: Env) returns (response: Response)
    requires IsLoggedIn(site.session) && user.id == site.session.userId.value
    modifies site
    ensures Step(site.Db(), site.session, response) ==
            SaveProfile(old(site.Db()), old(site.session), user, username, email, hashed, remove, image, env)
  {
    var profileImage := site.ChangeImage(remove, image, user.profileImage, "profile_", env.token, env.moveOk);
    if profileImage.Err? {
      return Shown([profileImage.error]);
    }
    if !env.dbOk {
      return Shown([Db("")]);
    }
    site.users := SetUser(site.users, user.(username := username, email := email, password := hashed,
                                            profileImage := profileImage.value));
    site.session := site.session.(username := Some(username));
    return Redirected(Redirect(ProfilePage, Some(Success(ProfileUpdated))));
  }
}
