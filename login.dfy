/** LoginController: the login form and the registration form.  Login trims the
    identifier, never the password, and refuses blank input before asking the store.
    Registration runs its checks in a fixed order (fields present, password length,
    confirmation, username free, email free) and creates the account only when all pass. */
module Login {
  import opened JavaLang
  import opened BCrypt
  import opened Schema
  import opened UserDao
  import opened Session

  // ---------------------------------------------------------------------------
  // Login

  datatype LoginForm = LoginForm(username: string, password: string)

  /** The identifier and password handleLogin passes on, or None when it stops at
      "Please enter both username and password.". */
  function Credentials(form: LoginForm): (r: Option<(string, string)>)
    ensures r.None? <==> IsBlank(form.username) || form.password == []
    ensures r.Some? ==> r.value.0 != [] && r.value.1 == form.password
  {
    TrimEmptyIffBlank(form.username);
    var identifier := Trim(form.username);
    if identifier == [] || form.password == [] then None else Some((identifier, form.password))
  }

  datatype LoginOutcome = MissingCredentials | LoggedIn | Refused

  function LoginMessage(o: LoginOutcome): string {
    match o
    case MissingCredentials => "Please enter both username and password."
    case Refused => "Invalid username/email or password."
    case LoggedIn => ""
  }

  /** handleLogin.  A user is stored in the session only when the store authenticates the
      trimmed identifier with the password as typed; otherwise the session keeps what it
      held, and an unknown identifier and a wrong password give the same message. */
  method HandleLogin(form: LoginForm, db: Database, session: SessionManager) returns (outcome: LoginOutcome)
    modifies session
    ensures Credentials(form).None? ==> outcome == MissingCredentials && session.currentUser == old(session.currentUser)
    ensures Credentials(form).Some? ==>
      var (identifier, password) := Credentials(form).value;
      var user := if db.Online() then Login(db.users, identifier, password) else None;
      (outcome == LoggedIn <==> user.Some?) &&
      (outcome == LoggedIn ==> session.currentUser == user) &&
      (outcome != LoggedIn ==> outcome == Refused && session.currentUser == old(session.currentUser))
    ensures outcome == LoggedIn ==>
      session.currentUser.Some? && session.currentUser.value in db.users &&
      CheckPw(form.password, session.currentUser.value.password)
  {
    var request := Credentials(form);
    if request.None? {
      return MissingCredentials;
    }
    var user := AuthenticateUser(db, request.value.0, request.value.1);
    if user.Some? {
      session.SetCurrentUser(user);
      return LoggedIn;
    }
    return Refused;
  }

  // ---------------------------------------------------------------------------
  // Registration

  datatype RegisterForm = RegisterForm(username: string, email: string, password: string, confirm: string)

  datatype RegisterError =
    | MissingField | PasswordTooShort | PasswordMismatch | UsernameTaken | EmailTaken | RegistrationFailed

  function RegisterMessage(e: RegisterError): string {
    match e
    case MissingField => "Please fill in all fields."
    case PasswordTooShort => "Password must be at least 6 characters long."
    case PasswordMismatch => "Passwords do not match."
    case UsernameTaken => "Username already exists."
    case EmailTaken => "Email already exists."
    case RegistrationFailed => "Registration failed. Please try again."
  }

  const MinPasswordLength: nat := 6

  /** The three checks that need no store, in order; None when all pass. */
  function FormCheck(f: RegisterForm): (r: Option<RegisterError>)
    ensures r == Some(MissingField) <==> IsBlank(f.username) || IsBlank(f.email) || f.password == []
    ensures r == Some(PasswordTooShort) <==>
      !IsBlank(f.username) && !IsBlank(f.email) && 0 < |f.password| < MinPasswordLength
    ensures r == Some(PasswordMismatch) <==>
      !IsBlank(f.username) && !IsBlank(f.email) && |f.password| >= MinPasswordLength && f.password != f.confirm
    ensures r.None? <==>
      !IsBlank(f.username) && !IsBlank(f.email) && |f.password| >= MinPasswordLength && f.password == f.confirm
  {
    TrimEmptyIffBlank(f.username);
    TrimEmptyIffBlank(f.email);
    if Trim(f.username) == [] || Trim(f.email) == [] || f.password == [] then Some(MissingField)
    else if |f.password| < MinPasswordLength then Some(PasswordTooShort)
    else if f.password != f.confirm then Some(PasswordMismatch)
    else None
  }

  datatype RegisterOutcome = Rejected(error: RegisterError) | Registered

  /** What handleRegisterSubmit ends in, given whether the store is reachable and the users
      it holds.  Without a connection both existence checks answer "free" and the insert
      fails, so the generic failure is shown. */
  function RegisterVerdict(f: RegisterForm, online: bool, users: seq<User>): RegisterOutcome {
    match FormCheck(f)
    case Some(e) => Rejected(e)
    case None =>
      if online && Taken(users, ByUsername(Trim(f.username))) then Rejected(UsernameTaken)
      else if online && Taken(users, ByEmail(Trim(f.email))) then Rejected(EmailTaken)
      else if !online then Rejected(RegistrationFailed)
      else Registered
  }

  /** An account is created exactly when the form passes, the store is reachable, and
      neither the trimmed username nor the trimmed email is in use; the username check
      comes before the email check. */
  lemma RegisterVerdictMeaning(f: RegisterForm, online: bool, users: seq<User>)
    ensures RegisterVerdict(f, online, users) == Registered <==>
      FormCheck(f).None? && online &&
      !Taken(users, ByUsername(Trim(f.username))) && !Taken(users, ByEmail(Trim(f.email)))
    ensures RegisterVerdict(f, online, users) == Rejected(EmailTaken) ==>
      online && !Taken(users, ByUsername(Trim(f.username)))
    ensures FormCheck(f).Some? ==> RegisterVerdict(f, online, users) == Rejected(FormCheck(f).value)
  {
  }

  /** Registering and then logging in with the same username and password: the login form
      passes its guard, and the store returns the new account exactly when no earlier
      account's email equals the trimmed username (the lookup matches username OR email and
      takes the oldest row).  Logging in by the email works exactly when no earlier
      account's username equals that email. */
  lemma RegisterThenLogin(f: RegisterForm, users: seq<User>, salt: Salt, id: int, now: nat)
    requires RegisterVerdict(f, true, users) == Registered
    ensures Credentials(LoginForm(f.username, f.password)) == Some((Trim(f.username), f.password))
    ensures var u := NewUser(Trim(f.username), Trim(f.email), f.password, salt, id, now);
      Login(users + [u], Trim(f.username), f.password) == Some(u) <==> !Taken(users, ByEmail(Trim(f.username)))
    ensures var u := NewUser(Trim(f.username), Trim(f.email), f.password, salt, id, now);
      Login(users + [u], Trim(f.email), f.password) == Some(u) <==> !Taken(users, ByUsername(Trim(f.email)))
  {
    RegisterVerdictMeaning(f, true, users);
    TrimEmptyIffBlank(f.username);
    var u := NewUser(Trim(f.username), Trim(f.email), f.password, salt, id, now);
    SignUpThenLogin(users, u, f.password, salt);
    SignUpThenLoginByEmail(users, u, f.password, salt);
  }

  /** handleRegisterSubmit.  `salt` stands for BCrypt.gensalt(). */
  method HandleRegisterSubmit(f: RegisterForm, db: Database, salt: Salt) returns (outcome: RegisterOutcome)
    requires db.Valid()
    modifies db`users, db`nextUserId, db`clock
    ensures db.Valid()
    ensures outcome == RegisterVerdict(f, old(db.Online()), old(db.users))
    ensures outcome == Registered ==>
      db.users == old(db.users) + [NewUser(Trim(f.username), Trim(f.email), f.password, salt, old(db.nextUserId), old(db.clock))] &&
      db.nextUserId == old(db.nextUserId) + 1 && db.clock == old(db.clock) + 1
    ensures outcome != Registered ==> db.users == old(db.users) && db.nextUserId == old(db.nextUserId) && db.clock == old(db.clock)
  {
    var username := Trim(f.username);
    var email := Trim(f.email);
    var checked := FormCheck(f);
    if checked.Some? {
      return Rejected(checked.value);
    }
    var usernameTaken := UsernameExists(db, username);
    if usernameTaken {
      return Rejected(UsernameTaken);
    }
    var emailTaken := EmailExists(db, email);
    if emailTaken {
      return Rejected(EmailTaken);
    }
    var created := CreateUser(db, username, email, f.password, salt);
    if created {
      return Registered;
    }
    return Rejected(RegistrationFailed);
  }
}
