/**
 * mini-blog-admin/login.php: both fields must be truthy; the user is looked
 * up by username only; success writes `user_id` and `username` and leaves
 * any `role` as it was.
 */
module MiniLogin {
  import opened Base
  import opened Php
  import opened Query
  import opened Config
  import opened MiniBlog

  const FillIn := "Please fill in all fields"
  const Invalid := "Invalid username or password"

  /** The submitted form, untrimmed; absent fields are "". */
  datatype Credentials = Credentials(username: string, password: string)

  function NamedBy(username: string): MiniUser -> bool {
    (u: MiniUser) => u.username == username
  }

  /**
   * A request to login.php (`form == None` is a plain view). A falsy field
   * ("" or "0") stops before any lookup; success redirects to the list.
   */
  function MiniLoginSpec(db: MiniStore, s: Session, form: Option<Credentials>, verify: (string, string) -> bool): (r: MiniStep)
    ensures r.db == db
    ensures form.Some? && (Empty(form.value.username) || Empty(form.value.password)) ==>
      r == MiniStep(db, s, Shown([Msg(FillIn)]))
    ensures r.session != s ==> r.response == Redirected(Redirect(ListPage, None))
    ensures r.response == Redirected(Redirect(ListPage, None)) <==>
      form.Some? && !Empty(form.value.username) && !Empty(form.value.password)
      && exists i :: 0 <= i < |db.users| && db.users[i].username == form.value.username
                     && (forall j :: 0 <= j < i ==> db.users[j].username != form.value.username)
                     && verify(form.value.password, db.users[i].password)
                     && r.session == s.(userId := Some(db.users[i].id), username := Some(db.users[i].username))
  {
    if form.None? then MiniStep(db, s, Shown([]))
    else if Empty(form.value.username) || Empty(form.value.password) then MiniStep(db, s, Shown([Msg(FillIn)]))
    else
      match First(db.users, NamedBy(form.value.username))
      case Some(u) =>
        if verify(form.value.password, u.password) then
          MiniStep(db, s.(userId := Some(u.id), username := Some(u.username)), Redirected(Redirect(ListPage, None)))
        else MiniStep(db, s, Shown([Msg(Invalid)]))
      case None => MiniStep(db, s, Shown([Msg(Invalid)]))
  }

  /** An unknown username and a wrong password give the same page. */
  lemma UnknownAndWrongPasswordAlike(db: MiniStore, other: MiniStore, s: Session, c: Credentials,
                                     verify: (string, string) -> bool)
    requires !Empty(c.username) && !Empty(c.password)
    requires forall i :: 0 <= i < |db.users| ==> db.users[i].username != c.username
    requires |other.users| > 0 && other.users[0].username == c.username && !verify(c.password, other.users[0].password)
    ensures MiniLoginSpec(db, s, Some(c), verify).response == MiniLoginSpec(other, s, Some(c), verify).response
            == Shown([Msg(Invalid)])
  {
    assert NamedBy(c.username)(other.users[0]);
  }

  /** The email is never consulted: a user is found by username or not at all. */
  lemma LookupByUsernameOnly(db: MiniStore, s: Session, c: Credentials, verify: (string, string) -> bool)
    requires forall i :: 0 <= i < |db.users| ==> db.users[i].username != c.username
    ensures MiniLoginSpec(db, s, Some(c), verify).session == s
  {
  }

  /** Signing in sets the id and the username; the role key keeps whatever it held. */
  lemma SignInKeepsRole(db: MiniStore, s: Session, c: Credentials, verify: (string, string) -> bool)
    ensures MiniLoginSpec(db, s, Some(c), verify).session.role == s.role
  {
  }

  /** The request handler of login.php. */
  method HandleMiniLogin(site: MiniSite, form: Option<Credentials>, verify: (string, string) -> bool)
    returns (response: Response)
    modifies site
    ensures site.Db() == old(site.Db())
    ensures MiniStep(site.Db(), site.session, response) == MiniLoginSpec(old(site.Db()), old(site.session), form, verify)
  {
    if form.None? {
      return Shown([]);
    }
    var username, password := form.value.username, form.value.password;
    if Empty(username) || Empty(password) {
      return Shown([Msg(FillIn)]);
    }
    var user := First(site.users, NamedBy(username));
    if user.Some? && verify(password, user.value.password) {
      site.session := site.session.(userId := Some(user.value.id), username := Some(user.value.username));
      return Redirected(Redirect(ListPage, None));
    }
    return Shown([Msg(Invalid)]);
  }
}
