/**
 * public/register.php: `RegisterController` validates the form collecting
 * every error, checks that the username and email are free, stores the
 * optional profile image, and inserts the user, removing the image again when
 * the insert fails.
 */
module Register {
  import opened Base
  import opened Php
  import opened Query
  import opened Config
  import opened Uploads
  import opened Blog
  import opened AddPost

  const UsernameRequired := "Username is required."
  const UsernameShort := "Username must be at least 3 characters."
  const EmailRequired := "Email is required."
  const EmailInvalid := "Please enter a valid email address."
  const PasswordRequired := "Password is required."
  const PasswordShort := "Password must be at least 6 characters."
  const PasswordMismatch := "Passwords do not match."
  const NameOrEmailTaken := "Username or email already exists."
  const RegistrationFailed := "Registration failed. Please try again."
  const Registered := "Registration successful! You can now login."
  const LoginForm := "login.php"

  /** The role a new row gets: the INSERT names no role, so it is the column's default, taken to be 'user'. */
  const DefaultRole := "user"

  /** The registration form as submitted; absent fields are "". */
  datatype RegisterForm = RegisterForm(username: string, email: string, password: string, confirm: string,
                                       image: Option<UploadedFile>)

  /** The checks `validateInput` can fail, in the order it runs them. */
  datatype Problem = UsernameMissing | UsernameTooShort | EmailMissing | EmailMalformed
                   | PasswordMissing | PasswordTooShort | Mismatch

  /** The field a problem belongs to, in the order `validateInput` checks them; the mismatch comes last. */
  function Rank(p: Problem): nat {
    match p
    case UsernameMissing | UsernameTooShort => 0
    case EmailMissing | EmailMalformed => 1
    case PasswordMissing | PasswordTooShort => 2
    case Mismatch => 3
  }

  /** The message each failed check appends to `$errors`. */
  function Text(p: Problem): string {
    match p
    case UsernameMissing => UsernameRequired
    case UsernameTooShort => UsernameShort
    case EmailMissing => EmailRequired
    case EmailMalformed => EmailInvalid
    case PasswordMissing => PasswordRequired
    case PasswordTooShort => PasswordShort
    case Mismatch => PasswordMismatch
  }

  /** The page shows the messages of the failed checks, in order. */
  function Messages(ps: seq<Problem>): (r: seq<Error>)
    ensures |r| == |ps| && forall i :: 0 <= i < |ps| ==> r[i] == Msg(Text(ps[i]))
  {
    if ps == [] then [] else [Msg(Text(ps[0]))] + Messages(ps[1..])
  }

  /** The username check on the trimmed username: required, then at least three characters. */
  function UsernameProblems(name: string): (r: seq<Problem>)
    ensures r == [] || r == [UsernameMissing] || r == [UsernameTooShort]
    ensures UsernameMissing in r <==> Empty(name)
    ensures UsernameTooShort in r <==> !Empty(name) && |name| < 3
  {
    if Empty(name) then [UsernameMissing]
    else if |name| < 3 then [UsernameTooShort]
    else []
  }

  /** The email check: emptiness is judged on the trimmed email, validity on the email as submitted. */
  function EmailProblems(trimmed: string, email: string, validEmail: string -> bool): (r: seq<Problem>)
    ensures r == [] || r == [EmailMissing] || r == [EmailMalformed]
    ensures EmailMissing in r <==> Empty(trimmed)
    ensures EmailMalformed in r <==> !Empty(trimmed) && !validEmail(email)
  {
    if Empty(trimmed) then [EmailMissing]
    else if !validEmail(email) then [EmailMalformed]
    else []
  }

  /** The password check, on the password as typed: required, then at least six characters. */
  function PasswordProblems(password: string): (r: seq<Problem>)
    ensures r == [] || r == [PasswordMissing] || r == [PasswordTooShort]
    ensures PasswordMissing in r <==> Empty(password)
    ensures PasswordTooShort in r <==> !Empty(password) && |password| < 6
  {
    if Empty(password) then [PasswordMissing]
    else if |password| < 6 then [PasswordTooShort]
    else []
  }

  /**
   * The four checks of `validateInput` on the trimmed username `name` and
   * trimmed email `trimmed`: all of them run, and each problem is reported
   * exactly when its condition holds.
   */
  function Problems(name: string, trimmed: string, email: string, password: string, confirm: string,
                    validEmail: string -> bool): (r: seq<Problem>)
    ensures |r| <= 4
    ensures UsernameMissing in r <==> Empty(name)
    ensures UsernameTooShort in r <==> !Empty(name) && |name| < 3
    ensures EmailMissing in r <==> Empty(trimmed)
    ensures EmailMalformed in r <==> !Empty(trimmed) && !validEmail(email)
    ensures PasswordMissing in r <==> Empty(password)
    ensures PasswordTooShort in r <==> !Empty(password) && |password| < 6
    ensures Mismatch in r <==> password != confirm
    ensures r == [] <==> !Empty(name) && |name| >= 3 && !Empty(trimmed) && validEmail(email)
                         && !Empty(password) && |password| >= 6 && password == confirm
  {
    var u, e, p := UsernameProblems(name), EmailProblems(trimmed, email, validEmail), PasswordProblems(password);
    var m := if password != confirm then [Mismatch] else [];
    assert |u + e + p + m| == 0 <==> u == e == p == m == [];
    u + e + p + m
  }

  /**
   * The problems come in field order, username, email, password, then the
   * mismatch, so no field is reported twice.
   */
  lemma ProblemsInFieldOrder(name: string, trimmed: string, email: string, password: string, confirm: string,
                             validEmail: string -> bool)
    ensures var r := Problems(name, trimmed, email, password, confirm, validEmail);
      forall i, j :: 0 <= i < j < |r| ==> Rank(r[i]) < Rank(r[j])
  {
    RankedParts(UsernameProblems(name), EmailProblems(trimmed, email, validEmail), PasswordProblems(password),
                if password != confirm then [Mismatch] else []);
  }

  /** One problem at most from each field, concatenated in field order, is ordered by field. */
  lemma RankedParts(u: seq<Problem>, e: seq<Problem>, p: seq<Problem>, m: seq<Problem>)
    requires |u| <= 1 && |e| <= 1 && |p| <= 1 && |m| <= 1
    requires forall i :: 0 <= i < |u| ==> Rank(u[i]) == 0
    requires forall i :: 0 <= i < |e| ==> Rank(e[i]) == 1
    requires forall i :: 0 <= i < |p| ==> Rank(p[i]) == 2
    requires forall i :: 0 <= i < |m| ==> Rank(m[i]) == 3
    ensures forall i, j :: 0 <= i < j < |u + e + p + m| ==> Rank((u + e + p + m)[i]) < Rank((u + e + p + m)[j])
  {
    var r := u + e + p + m;
    forall i | 0 <= i < |r|
      ensures Rank(r[i]) == if i < |u| then 0 else if i < |u| + |e| then 1 else if i < |u| + |e| + |p| then 2 else 3
    {
      if i < |u| { assert r[i] == u[i]; }
      else if i < |u| + |e| { assert r[i] == e[i - |u|]; }
      else if i < |u| + |e| + |p| { assert r[i] == p[i - |u| - |e|]; }
      else { assert r[i] == m[i - |u| - |e| - |p|]; }
    }
  }

  /**
   * `validateInput($data)`: every check runs, none stops the others; at most
   * one problem per field, the mismatch independently of the password checks.
   */
  function ValidateInput(f: RegisterForm, validEmail: string -> bool): (r: seq<Problem>)
    ensures |r| <= 4
    ensures UsernameMissing in r <==> Empty(TrimWs(f.username))
    ensures UsernameTooShort in r <==> !Empty(TrimWs(f.username)) && |TrimWs(f.username)| < 3
    ensures EmailMissing in r <==> Empty(TrimWs(f.email))
    ensures EmailMalformed in r <==> !Empty(TrimWs(f.email)) && !validEmail(f.email)
    ensures PasswordMissing in r <==> Empty(f.password)
    ensures PasswordTooShort in r <==> !Empty(f.password) && |f.password| < 6
    ensures Mismatch in r <==> f.password != f.confirm
    ensures forall i, j :: 0 <= i < j < |r| ==> Rank(r[i]) < Rank(r[j])
    ensures r == [] <==> !Empty(TrimWs(f.username)) && |TrimWs(f.username)| >= 3 && !Empty(TrimWs(f.email))
                         && validEmail(f.email) && !Empty(f.password) && |f.password| >= 6 && f.password == f.confirm
  {
    ProblemsInFieldOrder(TrimWs(f.username), TrimWs(f.email), f.email, f.password, f.confirm, validEmail);
    Problems(TrimWs(f.username), TrimWs(f.email), f.email, f.password, f.confirm, validEmail)
  }

  /** An empty form reports a missing username, email and password together, in that order. */
  lemma EmptyFormReportsAll(validEmail: string -> bool)
    ensures ValidateInput(RegisterForm("", "", "", "", None), validEmail)
            == [UsernameMissing, EmailMissing, PasswordMissing]
  {
    assert TrimWs("") == "";
  }

  /** "0" counts as an empty username, as PHP's `empty()` has it. */
  lemma ZeroUsernameIsEmpty(f: RegisterForm, validEmail: string -> bool)
    requires f.username == "0"
    ensures UsernameMissing in ValidateInput(f, validEmail)
  {
    assert TrimWs("0") == "0" by {
      assert "0"[0] !in Whitespace;
    }
  }

  function Clashes(username: string, email: string): User -> bool {
    (u: User) => u.username == username || u.email == email
  }

  /**
   * `checkUniqueFields($username, $email)`: true iff the query runs and no
   * row has the username or the email; a database error reads as "not unique".
   */
  function CheckUniqueFields(users: seq<User>, username: string, email: string, queryOk: bool): (r: bool)
    ensures r <==> queryOk && forall i :: 0 <= i < |users| ==> users[i].username != username && users[i].email != email
  {
    queryOk && First(users, Clashes(username, email)).None?
  }

  /** The row the insert writes. */
  function NewUser(db: Store, username: string, email: string, hashed: string, image: Option<string>, now: int): User {
    User(db.nextUserId, username, email, hashed, DefaultRole, image, now)
  }

  /**
   * `createUser($data, $files)` on the trimmed username and email: the
   * uniqueness check comes before any upload; a failing upload throws; a
   * failing insert unlinks the uploaded file and throws the generic message.
   */
  function CreateUserSpec(db: Store, f: RegisterForm, env: Env): (r: Change)
    ensures r.db.posts == db.posts && r.db.comments == db.comments
    ensures r.db.nextPostId == db.nextPostId && r.db.nextCommentId == db.nextCommentId
    ensures !CheckUniqueFields(db.users, TrimWs(f.username), TrimWs(f.email), env.queryOk) ==>
      r == Change(db, Some(Msg(NameOrEmailTaken)))
    ensures r.error.None? <==> CheckUniqueFields(db.users, TrimWs(f.username), TrimWs(f.email), env.queryOk)
                               && RegisterUpload(db.files, f.image, env.token, env.moveOk).image.Ok? && env.dbOk
    ensures r.error.None? ==>
      r.db.users == db.users + [NewUser(db, TrimWs(f.username), TrimWs(f.email), env.hash(f.password),
                                        RegisterUpload(db.files, f.image, env.token, env.moveOk).image.value, env.now)]
      && r.db.nextUserId == db.nextUserId + 1
      && r.db.files == RegisterUpload(db.files, f.image, env.token, env.moveOk).files
    ensures r.error.Some? ==> r.db.users == db.users && r.db.nextUserId == db.nextUserId
    ensures ValidUsers(db.users, db.nextUserId) ==> ValidUsers(r.db.users, r.db.nextUserId)
  {
    var username, email := TrimWs(f.username), TrimWs(f.email);
    if !CheckUniqueFields(db.users, username, email, env.queryOk) then Change(db, Some(Msg(NameOrEmailTaken)))
    else
      var up := RegisterUpload(db.files, f.image, env.token, env.moveOk);
      SaveUser(db.(files := up.files), username, email, env.hash(f.password), up.image, env)
  }

  /**
   * The rest of `createUser` once the upload has run (`db.files` already holds
   * its file): the upload's exception, or the insert, whose failure unlinks the file.
   */
  function SaveUser(db: Store, username: string, email: string, hashed: string, image: Result<Option<string>>,
                    env: Env): (r: Change)
    ensures r.db.posts == db.posts && r.db.comments == db.comments
    ensures r.db.nextPostId == db.nextPostId && r.db.nextCommentId == db.nextCommentId
    ensures r.error.None? <==> image.Ok? && env.dbOk
    ensures r.error.None? ==>
      r.db.users == db.users + [NewUser(db, username, email, hashed, image.value, env.now)]
      && r.db.nextUserId == db.nextUserId + 1 && r.db.files == db.files
    ensures r.error.Some? ==> r.db.users == db.users && r.db.nextUserId == db.nextUserId
    ensures image.Ok? && !env.dbOk ==> r == Change(db.(files := Unlink(db.files, image.value)), Some(Msg(RegistrationFailed)))
    ensures CheckUniqueFields(db.users, username, email, true) && ValidUsers(db.users, db.nextUserId) ==>
      ValidUsers(r.db.users, r.db.nextUserId)
  {
    if image.Err? then Change(db, Some(image.error))
    else if !env.dbOk then Change(db.(files := Unlink(db.files, image.value)), Some(Msg(RegistrationFailed)))
    else
      var u := NewUser(db, username, email, hashed, image.value, env.now);
      InsertUserKeepsValid(db.users, db.nextUserId, u);
      Change(db.(users := db.users + [u], nextUserId := db.nextUserId + 1), None)
  }

  /** Appending a user with the next id and a username and email no one has keeps the users table valid. */
  lemma InsertUserKeepsValid(users: seq<User>, next: int, u: User)
    requires u.id == next
    ensures CheckUniqueFields(users, u.username, u.email, true) && ValidUsers(users, next) ==>
      ValidUsers(users + [u], next + 1)
  {
    if CheckUniqueFields(users, u.username, u.email, true) && ValidUsers(users, next) {
      AppendKeepsDistinct(users, u, UserId);
      AppendKeepsDistinct(users, u, Username);
      AppendKeepsDistinct(users, u, UserEmail);
    }
  }

  /** A name or email already in use is refused before any upload: the directory is untouched. */
  lemma TakenBeforeUpload(db: Store, f: RegisterForm, env: Env, i: int)
    requires 0 <= i < |db.users| && db.users[i].email == TrimWs(f.email)
    ensures CreateUserSpec(db, f, env) == Change(db, Some(Msg(NameOrEmailTaken)))
  {
  }

  /**
   * A failing insert removes the file its upload wrote: the directory ends
   * without the new name, and as it was when the name was new.
   */
  lemma FailedInsertRemovesUpload(db: Store, f: RegisterForm, env: Env, name: string)
    requires CheckUniqueFields(db.users, TrimWs(f.username), TrimWs(f.email), env.queryOk) && !env.dbOk
    requires RegisterUpload(db.files, f.image, env.token, env.moveOk).image == Ok(Some(name))
    ensures name !in CreateUserSpec(db, f, env).db.files
    ensures CreateUserSpec(db, f, env).db.files == db.files - {name}
    ensures CreateUserSpec(db, f, env).error == Some(Msg(RegistrationFailed))
  {
  }

  /**
   * A request to register.php (`form == None` is a plain view): a signed-in
   * visitor goes to the dashboard; errors are shown all together; success
   * redirects to the login form with a flash.
   */
  function RegisterSpec(db: Store, s: Session, form: Option<RegisterForm>, env: Env): (r: Step)
    ensures r.session == s && r.db.posts == db.posts && r.db.comments == db.comments
    ensures IsLoggedIn(s) ==> r == Step(db, s, Redirected(Redirect(DashboardPage, None)))
    ensures Valid(db) ==> Valid(r.db)
  {
    if IsLoggedIn(s) then Step(db, s, Redirected(Redirect(DashboardPage, None)))
    else if form.None? then Step(db, s, Shown([]))
    else
      var errors := ValidateInput(form.value, env.validEmail);
      if errors != [] then Step(db, s, Shown(Messages(errors)))
      else
        var c := CreateUserSpec(db, form.value, env);
        if c.error.None? then Step(c.db, s, Redirected(Redirect(LoginForm, Some(Success(Registered)))))
        else Step(c.db, s, Shown([c.error.value]))
  }

  /** A visitor is added only when the form validates, the names are free and the insert succeeds. */
  lemma RegisterAddsOnlyValid(db: Store, s: Session, f: RegisterForm, env: Env)
    requires RegisterSpec(db, s, Some(f), env).db.users != db.users
    ensures !IsLoggedIn(s) && ValidateInput(f, env.validEmail) == [] && env.dbOk
    ensures CheckUniqueFields(db.users, TrimWs(f.username), TrimWs(f.email), env.queryOk)
    ensures RegisterSpec(db, s, Some(f), env).response == Redirected(Redirect(LoginForm, Some(Success(Registered))))
  {
  }

  /** `handleImageUpload`, when a file is present, run on the upload directory. */
  method RegisterImage(site: Site, file: Option<UploadedFile>, token: string, moveOk: bool)
    returns (image: Result<Option<string>>)
    modifies site
    ensures Upload(image, site.files) == RegisterUpload(old(site.files), file, token, moveOk)
    ensures site.Db() == old(site.Db()).(files := site.files) && site.session == old(site.session)
  {
    if !Received(file) {
      return Ok(None);
    }
    var f := file.value;
    var rejected := CheckImage(f.sniffedType, f.size, RegisterImageTypes, RegisterTypeRejected);
    if rejected.Some? {
      return Err(rejected.value);
    }
    var name := "profile_" + token + "." + Lower(Extension(f.name));
    if !moveOk {
      return Err(Msg(RegisterMoveFailed));
    }
    site.files := site.files + {name};
    return Ok(Some(name));
  }

  /** The insert of `createUser` and its cleanup, run on the site. */
  method StoreUser(site: Site, username: string, email: string, hashed: string, image: Result<Option<string>>,
                   env: Env) returns (error: Option<Error>)
    modifies site
    ensures Change(site.Db(), error) == SaveUser(old(site.Db()), username, email, hashed, image, env)
    ensures site.session == old(site.session)
  {
    if image.Err? {
      return Some(image.error);
    }
    if !env.dbOk {
      var profileImage := image.value;
      if Truthy(profileImage) && profileImage.value in site.files {
        site.files := site.files - {profileImage.value};
      }
      assert site.files == Unlink(old(site.files), profileImage);
      return Some(Msg(RegistrationFailed));
    }
    site.users := site.users + [NewUser(site.Db(), username, email, hashed, image.value, env.now)];
    site.nextUserId := site.nextUserId + 1;
    return None;
  }

  /** `createUser` run on the site. */
  method CreateUser(site: Site, f: RegisterForm, env: Env) returns (error: Option<Error>)
    modifies site
    ensures Change(site.Db(), error) == CreateUserSpec(old(site.Db()), f, env)
    ensures site.session == old(site.session)
  {
    var username := TrimWs(f.username);
    var email := TrimWs(f.email);
    if !CheckUniqueFields(site.users, username, email, env.queryOk) {
      return Some(Msg(NameOrEmailTaken));
    }
    var image := RegisterImage(site, f.image, env.token, env.moveOk);
    error := StoreUser(site, username, email, env.hash(f.password), image, env);
  }

  /** The request handler of register.php. */
  method HandleRegister(site: Site, form: Option<RegisterForm>, env: Env) returns (response: Response)
    modifies site
    ensures Step(site.Db(), site.session, response) == RegisterSpec(old(site.Db()), old(site.session), form, env)
  {
    if IsLoggedIn(site.session) {
      return Redirected(Redirect(DashboardPage, None));
    }
    if form.None? {
      return Shown([]);
    }
    var errors := ValidateInput(form.value, env.validEmail);
    if errors != [] {
      return Shown(Messages(errors));
    }
    var error := CreateUser(site, form.value, env);
    if error.None? {
      return Redirected(Redirect(LoginForm, Some(Success(Registered))));
    }
    return Shown([error.value]);
  }
}
