/**
 * The login handler's credential test and the `login_required` guard.
 * The Flask session, the request form and the cookies are plain values here:
 * each handler takes the users table, the current session and the request
 * and returns the new session together with what it sends back.
 */
module Auth {

  import opened Wrappers
  import Text

  /** A row of the users table; `password` is a nullable column. */
  datatype User = User(id: int, username: string, password: Option<string>)

  /** The two session keys the handlers set. */
  datatype Session = Session(userId: Option<int>, username: Option<string>)

  datatype FlashCategory = Success | Error
  datatype Flash = Flash(message: string, category: FlashCategory)

  /** A `Set-Cookie` header; `expires` is in seconds, on the same clock as `now`. */
  datatype Cookie = Cookie(name: string, value: string, expires: int)

  /** The posted login form; `remember` is the checkbox value, absent when unchecked. */
  datatype LoginForm = LoginForm(username: string, password: string, remember: Option<string>)

  datatype LoginRequest = ShowLoginPage | SubmitLogin(form: LoginForm)

  datatype LoginResponse = RedirectHome(cookie: Option<Cookie>) | RenderLoginPage

  datatype LoginReply = LoginReply(session: Session, flashes: seq<Flash>, response: LoginResponse)

  /**
   * What the guard does with a request: run the view with a session, send the
   * client to the login page, or fail on a column the row does not have, with
   * the session as written up to that point.
   */
  datatype GuardOutcome = RunView(session: Session) | RedirectToLogin | MissingColumn(column: string, session: Session)

  const REMEMBER_ME := "remember_me"
  const SECONDS_PER_DAY := 24 * 60 * 60
  const REMEMBER_DAYS := 7
  const LOGIN_OK := "Login successful!"
  const LOGIN_FAILED := "Invalid username or password"

  const EMPTY_SESSION := Session(None, None)

  /** `username TEXT NOT NULL UNIQUE`. */
  ghost predicate UniqueUsernames(users: seq<User>) {
    forall i, j :: 0 <= i < j < |users| ==> users[i].username != users[j].username
  }

  /** `id` is the primary key. */
  ghost predicate UniqueIds(users: seq<User>) {
    forall i, j :: 0 <= i < j < |users| ==> users[i].id != users[j].id
  }

  /** Python truthiness of an optional string: present and non-empty. */
  predicate Truthy(v: Option<string>) {
    v.Some? && v.value != ""
  }

  /** `SELECT * FROM users WHERE username = ?` followed by `fetchone()`: the first matching row. */
  function FindByUsername(users: seq<User>, username: string): (r: Option<nat>)
    ensures r.None? ==> forall j :: 0 <= j < |users| ==> users[j].username != username
    ensures r.Some? ==> r.value < |users| && users[r.value].username == username
    ensures r.Some? ==> forall j :: 0 <= j < r.value ==> users[j].username != username
  {
    if users == [] then None
    else if users[0].username == username then Some(0)
    else match FindByUsername(users[1..], username)
      case None => None
      case Some(k) => Some(k + 1)
  }

  /**
   * `SELECT * FROM users WHERE id = ?` with the cookie's text as parameter,
   * followed by `fetchone()`: the first row whose id is spelled that way.
   */
  function FindById(users: seq<User>, idText: string): (r: Option<nat>)
    ensures r.None? ==> forall j :: 0 <= j < |users| ==> Text.DecimalText(users[j].id) != idText
    ensures r.Some? ==> r.value < |users| && Text.DecimalText(users[r.value].id) == idText
  {
    if users == [] then None
    else if Text.DecimalText(users[0].id) == idText then Some(0)
    else match FindById(users[1..], idText)
      case None => None
      case Some(k) => Some(k + 1)
  }

  /** The credential test: a row was found and its stored password equals the supplied one. */
  predicate CredentialsMatch(users: seq<User>, username: string, password: string) {
    var found := FindByUsername(users, username);
    found.Some? && users[found.value].password == Some(password)
  }

  /** The `/login` handler; `now` stands for `datetime.now()`. */
  function Login(users: seq<User>, session: Session, request: LoginRequest, now: int): LoginReply {
    match request
    case ShowLoginPage =>
      LoginReply(session, [], RenderLoginPage)
    case SubmitLogin(form) =>
      if CredentialsMatch(users, form.username, form.password) then
        var user := users[FindByUsername(users, form.username).value];
        var cookie :=
          if Truthy(form.remember)
          then Some(Cookie(REMEMBER_ME, Text.DecimalText(user.id), now + REMEMBER_DAYS * SECONDS_PER_DAY))
          else None;
        LoginReply(Session(Some(user.id), Some(user.username)), [Flash(LOGIN_OK, Success)], RedirectHome(cookie))
      else
        LoginReply(session, [Flash(LOGIN_FAILED, Error)], RenderLoginPage)
  }

  /**
   * A submitted login succeeds exactly when some user has that username and
   * that stored password (usernames being unique).
   */
  lemma LoginSucceedsIffCredentialsMatch(users: seq<User>, session: Session, form: LoginForm, now: int)
    requires UniqueUsernames(users)
    ensures Login(users, session, SubmitLogin(form), now).response.RedirectHome?
        <==> exists i :: 0 <= i < |users| && users[i].username == form.username && users[i].password == Some(form.password)
  {
    var found := FindByUsername(users, form.username);
    if i :| 0 <= i < |users| && users[i].username == form.username && users[i].password == Some(form.password) {
      assert found.Some? && found.value == i;
    }
  }

  /**
   * What a successful login does: the session names the user, a success
   * message is flashed, and with "remember" checked a `remember_me` cookie
   * holding the user's id expires seven days from now.
   */
  lemma LoginSuccessEffects(users: seq<User>, session: Session, form: LoginForm, now: int, i: nat)
    requires UniqueUsernames(users)
    requires i < |users| && users[i].username == form.username && users[i].password == Some(form.password)
    ensures var reply := Login(users, session, SubmitLogin(form), now);
      && reply.session == Session(Some(users[i].id), Some(users[i].username))
      && reply.flashes == [Flash(LOGIN_OK, Success)]
      && reply.response.cookie
         == (if Truthy(form.remember)
             then Some(Cookie(REMEMBER_ME, Text.DecimalText(users[i].id), now + 7 * 86400))
             else None)
  {
    assert FindByUsername(users, form.username) == Some(i);
  }

  /**
   * When no user with that username has that stored password, the login
   * leaves the session as it was, flashes an error and shows the form again.
   */
  lemma LoginFailureEffects(users: seq<User>, session: Session, form: LoginForm, now: int)
    requires forall i :: 0 <= i < |users| && users[i].username == form.username ==> users[i].password != Some(form.password)
    ensures Login(users, session, SubmitLogin(form), now) == LoginReply(session, [Flash(LOGIN_FAILED, Error)], RenderLoginPage)
  {
  }

  /**
   * `login_required`, reading the username column: the view runs when the
   * session already names a user, or when the `remember_me` cookie names an
   * existing user, whose id and username are then put into the session.
   */
  function LoginRequired(users: seq<User>, session: Session, rememberMe: Option<string>): GuardOutcome {
    if session.userId.Some? then RunView(session)
    else if !Truthy(rememberMe) then RedirectToLogin
    else match FindById(users, rememberMe.value)
      case None => RedirectToLogin
      case Some(i) => RunView(Session(Some(users[i].id), Some(users[i].username)))
  }

  /**
   * `login_required` as written: on the cookie path it stores the user's id
   * in the session and then reads the column `name`, which the users table
   * does not have, so indexing the row raises and the view never runs.
   */
  function LoginRequiredAsWritten(users: seq<User>, session: Session, rememberMe: Option<string>): GuardOutcome {
    if session.userId.Some? then RunView(session)
    else if !Truthy(rememberMe) then RedirectToLogin
    else match FindById(users, rememberMe.value)
      case None => RedirectToLogin
      case Some(i) => MissingColumn("name", session.(userId := Some(users[i].id)))
  }

  /** The guard never fails, and runs the view exactly when the session or the cookie identifies a user. */
  lemma LoginRequiredRunsViewIff(users: seq<User>, session: Session, rememberMe: Option<string>)
    ensures !LoginRequired(users, session, rememberMe).MissingColumn?
    ensures LoginRequired(users, session, rememberMe).RunView?
        <==> || session.userId.Some?
             || (Truthy(rememberMe) && exists j :: 0 <= j < |users| && Text.DecimalText(users[j].id) == rememberMe.value)
    ensures LoginRequired(users, session, rememberMe).RunView? ==> LoginRequired(users, session, rememberMe).session.userId.Some?
    ensures session.userId.Some? ==> LoginRequired(users, session, rememberMe) == RunView(session)
  {
  }

  /**
   * With a cookie spelling a user's id and no session user id, the guard runs
   * the view with that user's id and username in the session.
   */
  lemma GuardRestoresNamedUser(users: seq<User>, session: Session, j: nat)
    requires UniqueIds(users)
    requires session.userId.None? && j < |users|
    ensures LoginRequired(users, session, Some(Text.DecimalText(users[j].id)))
        == RunView(Session(Some(users[j].id), Some(users[j].username)))
  {
    var text := Text.DecimalText(users[j].id);
    Text.DecimalTextSign(users[j].id);
    var i := FindById(users, text).value;
    Text.DecimalTextInjective(users[i].id, users[j].id);
  }

  /**
   * Logging in with "remember" checked hands out a cookie that, on a later
   * request without a session, lets the guard restore the same session.
   */
  lemma {:induction false} RememberedLoginPassesGuard(users: seq<User>, session: Session, form: LoginForm, now: int)
    requires UniqueIds(users)
    requires CredentialsMatch(users, form.username, form.password) && Truthy(form.remember)
    ensures var reply := Login(users, session, SubmitLogin(form), now);
      && reply.response.RedirectHome? && reply.response.cookie.Some?
      && LoginRequired(users, EMPTY_SESSION, Some(reply.response.cookie.value.value)) == RunView(reply.session)
  {
    var i := FindByUsername(users, form.username).value;
    GuardRestoresNamedUser(users, EMPTY_SESSION, i);
  }

  /**
   * As written, the view runs only when the session already has a user id.
   * A cookie spelling a user's id makes the request fail after that id has
   * been stored in the session, the session's username left as it was.
   */
  lemma AsWrittenGuardNeverRestores(users: seq<User>, session: Session, rememberMe: Option<string>)
    ensures LoginRequiredAsWritten(users, session, rememberMe).RunView? <==> session.userId.Some?
    ensures forall j ::
              0 <= j < |users| && session.userId.None? && rememberMe == Some(Text.DecimalText(users[j].id))
              ==> LoginRequiredAsWritten(users, session, rememberMe) == MissingColumn("name", Session(Some(users[j].id), session.username))
  {
    forall j | 0 <= j < |users| && session.userId.None? && rememberMe == Some(Text.DecimalText(users[j].id))
      ensures LoginRequiredAsWritten(users, session, rememberMe) == MissingColumn("name", Session(Some(users[j].id), session.username))
    {
      Text.DecimalTextSign(users[j].id);
      var i := FindById(users, rememberMe.value).value;
      Text.DecimalTextInjective(users[i].id, users[j].id);
    }
  }

  /** A concrete request on which the two guards differ: a fresh visit with a valid cookie for user 1. */
  lemma AsWrittenGuardRejectsRememberedUser()
    ensures var users := [User(1, "Alexa", Some("alexa123"))];
      && LoginRequiredAsWritten(users, EMPTY_SESSION, Some("1")) == MissingColumn("name", Session(Some(1), None))
      && LoginRequired(users, EMPTY_SESSION, Some("1")) == RunView(Session(Some(1), Some("Alexa")))
  {
    assert Text.DecimalText(1) == "1";
  }
}
