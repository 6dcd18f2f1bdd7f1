/** `loginAction` of src/app/admin/login/actions.ts: a cascade of early
    redirects, then a session cookie for the normalised e-mail. The signing
    secret, the admin table and bcrypt's compare are parameters. */
module AdminLogin {
  import opened Wrappers
  import opened JsText
  import opened AdminForms
  import opened Store

  const ConfigError := "/admin/login?error=config"
  const NoAdminError := "/admin/login?error=no_admin"
  const InvalidError := "/admin/login?error=invalid"
  const CredentialsError := "/admin/login?error=credentials"

  datatype LoginInput = LoginInput(email: string, password: string)

  /** `loginSchema`: an e-mail of at least one character after trimming and
      a password of at least one character, not trimmed. */
  function ParseLoginForm(form: Form): (r: Option<LoginInput>)
    ensures r.Some? <==> "email" in form && Trim(form["email"]) != [] && "password" in form && form["password"] != []
    ensures r.Some? ==> r.value == LoginInput(Trim(form["email"]), form["password"])
  {
    var email := TrimmedMin(FormValue(form, "email"), 1);
    if email.None? || "password" !in form || form["password"] == [] then None
    else Some(LoginInput(email.value, form["password"]))
  }

  /** `email.trim().toLowerCase()`: the key the admin table is searched by. */
  function NormalizeEmail(email: string): (r: string)
    ensures |r| <= |email|
  {
    LowerAsciiString(Trim(email))
  }

  /** How the cascade ends: a redirect to the login page with an error, or
      a session for this e-mail and a redirect to `/admin`. */
  datatype LoginResult = Refused(location: string) | SignedIn(email: string)

  /** The cascade: secret configured, then at least one admin, then the
      form, then the stored hash compared with the password. `admins` maps
      an e-mail to its password hash; an unknown e-mail is refused exactly
      as a wrong password is. */
  function LoginDecision(configured: bool, admins: map<string, string>, form: Form,
                         compare: (string, string) -> bool): (r: LoginResult)
    ensures !configured ==> r == Refused(ConfigError)
    ensures configured && |admins| == 0 ==> r == Refused(NoAdminError)
    ensures configured && |admins| > 0 && ParseLoginForm(form).None? ==> r == Refused(InvalidError)
    ensures r.Refused? ==> r.location in {ConfigError, NoAdminError, InvalidError, CredentialsError}
    ensures r.SignedIn? <==>
      && configured && |admins| > 0 && ParseLoginForm(form).Some?
      && NormalizeEmail(form["email"]) in admins
      && compare(form["password"], admins[NormalizeEmail(form["email"])])
    ensures r.SignedIn? ==> r.email == NormalizeEmail(form["email"])
    ensures configured && |admins| > 0 && ParseLoginForm(form).Some?
            && !(NormalizeEmail(form["email"]) in admins
                 && compare(form["password"], admins[NormalizeEmail(form["email"])])) ==>
      r == Refused(CredentialsError)
  {
    if !configured then Refused(ConfigError)
    else if |admins| == 0 then Refused(NoAdminError)
    else match ParseLoginForm(form)
      case None => Refused(InvalidError)
      case Some(input) =>
        var key := LowerAsciiString(Trim(input.email));
        TrimIdempotent(form["email"]);
        var valid := if key in admins then compare(input.password, admins[key]) else false;
        if !valid then Refused(CredentialsError) else SignedIn(key)
  }

  /** The outcome depends on the e-mail only through its normalised form:
      surrounding whitespace and ASCII letter case do not matter. */
  lemma LoginIgnoresEmailSpelling(configured: bool, admins: map<string, string>, f1: Form, f2: Form,
                                  compare: (string, string) -> bool)
    requires "email" in f1 && "email" in f2 && NormalizeEmail(f1["email"]) == NormalizeEmail(f2["email"])
    requires ("password" in f1 <==> "password" in f2) && ("password" in f1 ==> f1["password"] == f2["password"])
    ensures LoginDecision(configured, admins, f1, compare) == LoginDecision(configured, admins, f2, compare)
  {
  }

  /** An unknown e-mail and a wrong password for a known one end the same
      way, so the answer does not reveal which e-mails are admins. */
  lemma UnknownEmailLikeWrongPassword(admins: map<string, string>, unknown: Form, wrong: Form,
                                      compare: (string, string) -> bool)
    requires |admins| > 0
    requires ParseLoginForm(unknown).Some? && NormalizeEmail(unknown["email"]) !in admins
    requires ParseLoginForm(wrong).Some? && NormalizeEmail(wrong["email"]) in admins
    requires !compare(wrong["password"], admins[NormalizeEmail(wrong["email"])])
    ensures LoginDecision(true, admins, unknown, compare) == LoginDecision(true, admins, wrong, compare)
            == Refused(CredentialsError)
  {
  }

  /** `loginAction`: the only state change is the session cookie, set on
      success. */
  method LoginAction(jar: SessionJar, configured: bool, admins: map<string, string>, form: Form,
                     compare: (string, string) -> bool) returns (outcome: Outcome)
    modifies jar
    ensures LoginDecision(configured, admins, form, compare).Refused? ==>
      outcome == Redirect(LoginDecision(configured, admins, form, compare).location) && jar.session == old(jar.session)
    ensures LoginDecision(configured, admins, form, compare).SignedIn? ==>
      outcome == Redirect("/admin") && jar.session == Some(LoginDecision(configured, admins, form, compare).email)
  {
    match LoginDecision(configured, admins, form, compare) {
      case Refused(location) =>
        outcome := Redirect(location);
      case SignedIn(email) =>
        jar.session := Some(email);
        outcome := Redirect("/admin");
    }
  }
}
