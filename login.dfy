/**
 * public/login.php: `LoginController::authenticate` looks a user up by
 * username or email, checks the password and writes the session; the page
 * then redirects to the requested target.
 */
module Login {
  import opened Base
  import opened Php
  import opened Query
  import opened Config
  import opened Uploads
  import opened Blog
  import opened AddPost
  import opened Register

  const BothRequired := "Please enter both username/email and password."
  const InvalidCredentials := "Invalid username/email or password."
  const Unavailable := "Login system temporarily unavailable. Please try again later."

  /** The submitted login form; absent fields are "". */
  datatype LoginForm = LoginForm(username: string, password: string)

  /** `WHERE username = ? OR email = ?`, both bound to the one input. */
  function NameOrEmail(login: string): User -> bool {
    (u: User) => u.username == login || u.email == login
  }

  /** The session `authenticate` writes for a matched row: its id, username and role. */
  function SessionOf(u: User): (r: Session)
    ensures IsLoggedIn(r) && r.userId == Some(u.id)
    ensures IsAdmin(r) <==> u.role == "admin"
  {
    Session(Some(u.id), Some(u.username), Some(u.role))
  }

  /**
   * `authenticate($username, $password)`: either the new session or the
   * exception's message. Empty fields are refused before the query; a failed
   * query gives the "temporarily unavailable" message; an unknown login and a
   * wrong password give the same message.
   */
  function Authenticate(users: seq<User>, login: string, password: string, queryOk: bool,
                        verify: (string, string) -> bool): (r: Result<Session>)
    ensures Empty(login) || Empty(password) ==> r == Err(Msg(BothRequired))
    ensures !Empty(login) && !Empty(password) && !queryOk ==> r == Err(Msg(Unavailable))
    ensures r.Err? ==> r.error in {Msg(BothRequired), Msg(Unavailable), Msg(InvalidCredentials)}
    ensures r.Ok? <==> !Empty(login) && !Empty(password) && queryOk
                       && exists i :: 0 <= i < |users| && NameOrEmail(login)(users[i])
                                      && (forall j :: 0 <= j < i ==> !NameOrEmail(login)(users[j]))
                                      && verify(password, users[i].password)
    ensures r.Ok? ==> exists i :: 0 <= i < |users| && NameOrEmail(login)(users[i])
                                  && (forall j :: 0 <= j < i ==> !NameOrEmail(login)(users[j]))
                                  && r.value == SessionOf(users[i])
  {
    if Empty(login) || Empty(password) then Err(Msg(BothRequired))
    else if !queryOk then Err(Msg(Unavailable))
    else
      match First(users, NameOrEmail(login))
      case None => Err(Msg(InvalidCredentials))
      case Some(u) => if verify(password, u.password) then Ok(SessionOf(u)) else Err(Msg(InvalidCredentials))
  }

  /** An unknown login and a known login with a wrong password are told apart by nothing. */
  lemma UnknownAndWrongPasswordAlike(users: seq<User>, other: seq<User>, login: string, password: string,
                                     verify: (string, string) -> bool)
    requires !Empty(login) && !Empty(password)
    requires forall i :: 0 <= i < |users| ==> !NameOrEmail(login)(users[i])
    requires |other| > 0 && NameOrEmail(login)(other[0]) && !verify(password, other[0].password)
    ensures Authenticate(users, login, password, true, verify) == Authenticate(other, login, password, true, verify)
    ensures Authenticate(users, login, password, true, verify) == Err(Msg(InvalidCredentials))
  {
  }

  /** The same input is tried against the email column: a user can sign in with either. */
  lemma SignInByEmail(users: seq<User>, i: int, password: string, verify: (string, string) -> bool)
    requires 0 <= i < |users| && !Empty(users[i].email) && !Empty(password)
    requires forall j :: 0 <= j < |users| ==> users[j].username != users[i].email
    requires DistinctBy(users, UserEmail)
    requires verify(password, users[i].password)
    ensures Authenticate(users, users[i].email, password, true, verify) == Ok(SessionOf(users[i]))
  {
    var login := users[i].email;
    forall j | 0 <= j < i
      ensures !NameOrEmail(login)(users[j])
    {
      assert users[j].email != login by {
        assert UserEmail(users[j]) != UserEmail(users[i]);
      }
    }
  }

  /**
   * A user who has just registered can sign in with the username and the
   * password they chose, unless an earlier row's email equals that username:
   * registration only compares usernames with usernames and emails with
   * emails, while sign-in tries the input against both columns.
   */
  lemma RegisteredUserCanSignIn(db: Store, f: RegisterForm, reg: Env, queryOk: bool, verify: (string, string) -> bool)
    requires CreateUserSpec(db, f, reg).error.None?
    requires !Empty(TrimWs(f.username)) && !Empty(f.password)
    requires forall j :: 0 <= j < |db.users| ==> db.users[j].email != TrimWs(f.username)
    requires verify(f.password, reg.hash(f.password)) && queryOk
    ensures Authenticate(CreateUserSpec(db, f, reg).db.users, TrimWs(f.username), f.password, queryOk, verify)
            == Ok(Session(Some(db.nextUserId), Some(TrimWs(f.username)), Some(DefaultRole)))
  {
    var login := TrimWs(f.username);
    var up := RegisterUpload(db.files, f.image, reg.token, reg.moveOk);
    var u := NewUser(db, login, TrimWs(f.email), reg.hash(f.password), up.image.value, reg.now);
    assert CreateUserSpec(db, f, reg).db.users == db.users + [u];
    assert CheckUniqueFields(db.users, login, TrimWs(f.email), reg.queryOk);
    SignInAfterAppend(db.users, u, f.password, queryOk, verify);
  }

  /** A row appended after rows none of which has its username as username or email is found by that username. */
  lemma SignInAfterAppend(users: seq<User>, u: User, password: string, queryOk: bool, verify: (string, string) -> bool)
    requires !Empty(u.username) && !Empty(password) && queryOk && verify(password, u.password)
    requires forall j :: 0 <= j < |users| ==> users[j].username != u.username && users[j].email != u.username
    ensures Authenticate(users + [u], u.username, password, queryOk, verify) == Ok(SessionOf(u))
  {
    FirstAppended(users, u, NameOrEmail(u.username));
  }

  /** The shadowing the previous lemma excludes does happen: an earlier email equal to the new username wins. */
  lemma EmailShadowsNewUsername(verify: (string, string) -> bool)
    requires verify("secret1", "h")
    ensures Authenticate([User(1, "alice", "bob@x.io", "h", "user", None, 0), User(2, "bob@x.io", "b@y.io", "k", "user", None, 0)],
                         "bob@x.io", "secret1", true, verify) == Ok(Session(Some(1), Some("alice"), Some("user")))
  {
    var users := [User(1, "alice", "bob@x.io", "h", "user", None, 0), User(2, "bob@x.io", "b@y.io", "k", "user", None, 0)];
    assert NameOrEmail("bob@x.io")(users[0]);
  }

  /**
   * A request to login.php (`form == None` is a plain view); `target` is
   * `$_GET['redirect']`. A signed-in visitor goes to the dashboard; success
   * sets the session and redirects, through the URL sanitizer, with a welcome
   * flash; failure shows the message.
   */
  function LoginSpec(db: Store, s: Session, form: Option<LoginForm>, target: Option<string>, env: Env): (r: Step)
    ensures r.db == db
    ensures IsLoggedIn(s) ==> r == Step(db, s, Redirected(Redirect(DashboardPage, None)))
    ensures !IsLoggedIn(s) && form.Some? ==>
      (IsLoggedIn(r.session) <==>
         Authenticate(db.users, TrimWs(form.value.username), form.value.password, env.queryOk, env.verify).Ok?)
    ensures !IsLoggedIn(s) && r.session != s ==> r.response.Redirected? && IsLoggedIn(r.session)
  {
    if IsLoggedIn(s) then Step(db, s, Redirected(Redirect(DashboardPage, None)))
    else if form.None? then Step(db, s, Shown([]))
    else
      var login := TrimWs(form.value.username);
      match Authenticate(db.users, login, form.value.password, env.queryOk, env.verify)
      case Err(e) => Step(db, s, Shown([e]))
      case Ok(t) =>
        Step(db, t, Redirected(Redirect(env.sanitizeUrl(target.GetOr(DashboardPage)),
                                        Some(Success("Welcome back, " + env.escapeHtml(t.username.value) + "!")))))
  }

  /** `authenticate` run on the site: only the session changes, and only on success. */
  method AuthenticateUser(site: Site, login: string, password: string, env: Env) returns (error: Option<Error>)
    modifies site
    ensures site.Db() == old(site.Db())
    ensures var r := Authenticate(old(site.users), login, password, env.queryOk, env.verify);
            (r.Ok? ==> error.None? && site.session == r.value) && (r.Err? ==> error == Some(r.error) && site.session == old(site.session))
  {
    if Empty(login) || Empty(password) {
      return Some(Msg(BothRequired));
    }
    if !env.queryOk {
      return Some(Msg(Unavailable));
    }
    var user := First(site.users, NameOrEmail(login));
    if user.None? || !env.verify(password, user.value.password) {
      return Some(Msg(InvalidCredentials));
    }
    site.session := SessionOf(user.value);
    return None;
  }

  /** The request handler of login.php. */
  method HandleLogin(site: Site, form: Option<LoginForm>, target: Option<string>, env: Env) returns (response: Response)
    modifies site
    ensures Step(site.Db(), site.session, response) == LoginSpec(old(site.Db()), old(site.session), form, target, env)
  {
    if IsLoggedIn(site.session) {
      return Redirected(Redirect(DashboardPage, None));
    }
    if form.None? {
      return Shown([]);
    }
    var error := AuthenticateUser(site, TrimWs(form.value.username), form.value.password, env);
    if error.Some? {
      return Shown([error.value]);
    }
    var welcome := "Welcome back, " + env.escapeHtml(site.session.username.value) + "!";
    return Redirected(Redirect(env.sanitizeUrl(target.GetOr(DashboardPage)), Some(Success(welcome))));
  }
}
