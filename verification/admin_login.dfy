/**
 * `POST /login` of backend/src/routes/admin.js: look the admin up by normalised email,
 * check the password against the stored hash, and hand back a signed token with a
 * profile that carries no secret. The bcrypt comparison and the JWT signer
 * (backend/src/auth.js) are parameters.
 */
module AdminLogin {
  import opened Wrappers
  import opened Text
  import opened Schema
  import opened AdminInput

  const MissingMessage := "Email and password are required"
  const InvalidMessage := "Invalid credentials"

  /** The request body; `None` when the key is absent. */
  datatype LoginBody = LoginBody(email: Option<string>, password: Option<string>)

  /** What `signAdminToken` puts in the token: `sub`, `email` and `role`. */
  datatype Claims = Claims(sub: int, email: string, role: string)

  /** The admin as the response shows it: no password hash, no creation time. */
  datatype Profile = Profile(id: int, email: string, role: string)

  datatype LoginResponse = LoggedIn(token: string, admin: Profile) | MissingCredentials | InvalidCredentials
  {
    function Status(): int {
      match this
      case LoggedIn(_, _) => 200
      case MissingCredentials => 400
      case InvalidCredentials => 401
    }

    function Error(): Option<string> {
      match this
      case LoggedIn(_, _) => None
      case MissingCredentials => Some(MissingMessage)
      case InvalidCredentials => Some(InvalidMessage)
    }
  }

  /** `String(req.body.email || '').trim().toLowerCase()` */
  function LoginEmail(body: LoginBody): (email: string)
    ensures Trimmed(email)
    ensures forall i :: 0 <= i < |email| ==> !('A' <= email[i] <= 'Z')
    ensures body.email.Some? && Trimmed(body.email.value) ==> email == Lower(body.email.value)
  {
    var t := Trim(Str(body.email));
    LowerKeepsTrimmed(t);
    if body.email.Some? && Trimmed(body.email.value) then TrimOfTrimmed(body.email.value); Lower(t)
    else Lower(t)
  }

  /** `String(req.body.password || '')`; the password is not trimmed. */
  function LoginPassword(body: LoginBody): (password: string)
    ensures Truthy(body.password) ==> password == body.password.value
    ensures !Truthy(body.password) ==> password == []
  {
    Str(body.password)
  }

  /**
   * The login handler. `matches(password, hash)` is `bcrypt.compareSync`; `sign` is
   * `signAdminToken` reduced to the claims it signs.
   */
  function Login(admins: seq<AdminRow>, body: LoginBody, matches: (string, string) -> bool,
                 sign: Claims -> string): (r: LoginResponse)
    ensures r.MissingCredentials? <==> LoginEmail(body) == [] || LoginPassword(body) == []
    ensures r.LoggedIn? ==>
      exists a :: (a in admins && a.email == LoginEmail(body) && matches(LoginPassword(body), a.passwordHash) &&
                   r.admin == Profile(a.id, a.email, a.role) && r.token == sign(Claims(a.id, a.email, a.role)))
  {
    var email := LoginEmail(body);
    var password := LoginPassword(body);
    if email == [] || password == [] then MissingCredentials
    else match FindAdmin(admins, email)
      case None => InvalidCredentials
      case Some(admin) =>
        if !matches(password, admin.passwordHash) then InvalidCredentials
        else LoggedIn(sign(Claims(admin.id, admin.email, admin.role)), Profile(admin.id, admin.email, admin.role))
  }

  /**
   * With unique emails, a login succeeds exactly when both fields are given and some
   * admin with that email accepts the password.
   */
  lemma LoginSucceedsIff(admins: seq<AdminRow>, body: LoginBody, matches: (string, string) -> bool,
                         sign: Claims -> string)
    requires EmailsUnique(admins)
    ensures Login(admins, body, matches, sign).LoggedIn? <==>
      LoginEmail(body) != [] && LoginPassword(body) != [] &&
      exists a :: a in admins && a.email == LoginEmail(body) && matches(LoginPassword(body), a.passwordHash)
  {
    var email := LoginEmail(body);
    if email != [] && LoginPassword(body) != [] {
      var found := FindAdmin(admins, email);
      if a :| a in admins && a.email == email && matches(LoginPassword(body), a.passwordHash) {
        assert found.Some?;
        var i :| 0 <= i < |admins| && admins[i] == a;
        var j :| 0 <= j < |admins| && admins[j] == found.value;
        assert admins[i].email == admins[j].email;
        assert i == j;
      }
    }
  }

  /**
   * An unknown email and a wrong password are answered alike: the same 401 response,
   * so the reply does not reveal which accounts exist.
   */
  lemma UnknownEmailLooksLikeWrongPassword(admins: seq<AdminRow>, body1: LoginBody, body2: LoginBody,
                                           matches: (string, string) -> bool, sign: Claims -> string)
    requires LoginEmail(body1) != [] && LoginPassword(body1) != []
    requires forall a :: a in admins ==> a.email != LoginEmail(body1)
    requires LoginEmail(body2) != [] && LoginPassword(body2) != []
    requires exists a :: a in admins && a.email == LoginEmail(body2)
    requires forall a :: a in admins && a.email == LoginEmail(body2) ==> !matches(LoginPassword(body2), a.passwordHash)
    ensures Login(admins, body1, matches, sign) == Login(admins, body2, matches, sign) == InvalidCredentials
    ensures Login(admins, body1, matches, sign).Status() == 401
    ensures Login(admins, body1, matches, sign).Error() == Login(admins, body2, matches, sign).Error()
  {
  }

  /** Surrounding spaces and letter case in the typed email do not matter. */
  lemma EmailNormalised(admins: seq<AdminRow>, body: LoginBody, typed: string,
                        matches: (string, string) -> bool, sign: Claims -> string)
    requires body.email == Some(typed)
    ensures Login(admins, body, matches, sign) ==
      Login(admins, LoginBody(Some(Lower(Trim(typed))), body.password), matches, sign)
  {
    var t := Trim(typed);
    var normalised := LoginBody(Some(Lower(t)), body.password);
    LowerKeepsTrimmed(t);
    LowerIdempotent(t);
    assert LoginEmail(normalised) == LoginEmail(body);
    assert LoginPassword(normalised) == LoginPassword(body);
  }
}
