/** The auth blueprint: the password and login rules, the ordered checks of
    registration, and the effect of signing in and out on the session.
    Password hashing is not modelled: `hashOf` stands for the hash the
    registration stores (werkzeug salts it at random, so it is a parameter)
    and `check` for werkzeug's verification of a password against a stored
    hash. */
module Auth {
  import opened Common
  import opened Text
  import opened Tables

  // ---- validate_password ---------------------------------------------------------

  /** The password rules, in the order they are checked. */
  datatype PasswordError = TooShort | NoUpper | NoLower | NoDigit

  function PasswordMessage(e: PasswordError): (r: string) {
    match e
    case TooShort => "Password must be at least 10 characters long."
    case NoUpper => "Password must contain at least one uppercase letter."
    case NoLower => "Password must contain at least one lowercase letter."
    case NoDigit => "Password must contain at least one digit."
  }

  const MinPasswordLength := 10

  /** Some character of `s` satisfies `p` (`re.search` of a character class). */
  function AnyChar(s: string, p: char -> bool): (r: bool)
    ensures r <==> exists i :: 0 <= i < |s| && p(s[i])
  {
    if s == [] then false
    else if p(s[0]) then true
    else
      var r := AnyChar(s[1..], p);
      assert forall i :: 1 <= i < |s| ==> s[i] == s[1..][i - 1];
      r
  }

  /** `validate_password`: `None` for an acceptable password, otherwise the
      first rule it breaks. */
  function ValidatePassword(pw: string): (r: Option<PasswordError>) {
    if |pw| < MinPasswordLength then Some(TooShort)
    else if !AnyChar(pw, IsUpper) then Some(NoUpper)
    else if !AnyChar(pw, IsLower) then Some(NoLower)
    else if !AnyChar(pw, IsDigit) then Some(NoDigit)
    else None
  }

  /** The password breaks rule `e`. */
  ghost predicate Breaks(pw: string, e: PasswordError) {
    match e
    case TooShort => |pw| < MinPasswordLength
    case NoUpper => forall i :: 0 <= i < |pw| ==> !IsUpper(pw[i])
    case NoLower => forall i :: 0 <= i < |pw| ==> !IsLower(pw[i])
    case NoDigit => forall i :: 0 <= i < |pw| ==> !IsDigit(pw[i])
  }

  /** A rule comes before another in the checking order. */
  predicate Before(a: PasswordError, b: PasswordError) {
    || (a.TooShort? && !b.TooShort?)
    || (a.NoUpper? && (b.NoLower? || b.NoDigit?))
    || (a.NoLower? && b.NoDigit?)
  }

  /** A password is accepted exactly when it has at least ten characters, an
      upper-case letter, a lower-case letter and a digit; a rejection names a
      rule the password breaks, and no earlier rule is broken. */
  lemma ValidatePasswordSpec(pw: string, e: PasswordError, earlier: PasswordError)
    ensures ValidatePassword(pw).None? <==>
      && |pw| >= MinPasswordLength
      && (exists i :: 0 <= i < |pw| && IsUpper(pw[i]))
      && (exists i :: 0 <= i < |pw| && IsLower(pw[i]))
      && (exists i :: 0 <= i < |pw| && IsDigit(pw[i]))
    ensures ValidatePassword(pw) == Some(e) ==> Breaks(pw, e) && (Before(earlier, e) ==> !Breaks(pw, earlier))
  {
    if ValidatePassword(pw) == Some(e) && Before(earlier, e) {
      assert !AnyChar(pw, IsUpper) ==> Breaks(pw, NoUpper);
    }
  }

  // ---- validate_login ------------------------------------------------------------

  datatype LoginProblem = BlankLogin | LoginTaken

  function LoginProblemMessage(e: LoginProblem): (r: string) {
    match e
    case BlankLogin => "Login cannot be empty."
    case LoginTaken => "User with this login already exists."
  }

  /** `validate_login`: a blank login is refused first, then one that some
      user already has (compared exactly, as the query does). */
  function ValidateLogin(us: seq<User>, login: string): (r: Option<LoginProblem>) {
    if Strip(login) == [] then Some(BlankLogin)
    else if UserByLogin(us, login).Some? then Some(LoginTaken)
    else None
  }

  /** A login is accepted exactly when it is not all whitespace and no user
      has it; a blank login is always reported as blank. */
  lemma ValidateLoginSpec(us: seq<User>, login: string)
    ensures ValidateLogin(us, login).None? <==> !IsBlank(login) && forall u :: u in us ==> u.login != login
    ensures ValidateLogin(us, login) == Some(BlankLogin) <==> IsBlank(login)
    ensures ValidateLogin(us, login) == Some(LoginTaken) <==> !IsBlank(login) && exists u :: u in us && u.login == login
  {
  }

  // ---- register --------------------------------------------------------------------

  /** The reasons `register` turns a form away, in the order it checks them. */
  datatype RegisterError =
    | LoginEmpty
    | PasswordEmpty
    | ConfirmationEmpty
    | Mismatch
    | WeakPassword(rule: PasswordError)
    | LoginRejected(problem: LoginProblem)

  function RegisterMessage(e: RegisterError): (r: string) {
    match e
    case LoginEmpty => "Login cannot be empty."
    case PasswordEmpty => "Password cannot be empty."
    case ConfirmationEmpty => "You must confirm your password."
    case Mismatch => "Passwords must match."
    case WeakPassword(rule) => PasswordMessage(rule)
    case LoginRejected(problem) => LoginProblemMessage(problem)
  }

  /** The checks of `register` on the submitted login (stripped first), password
      and confirmation; `None` when the user may be created. */
  function RegisterCheck(us: seq<User>, loginField: string, pw: string, pw2: string): (r: Option<RegisterError>) {
    var login := Strip(loginField);
    if login == [] then Some(LoginEmpty)
    else if pw == [] then Some(PasswordEmpty)
    else if pw2 == [] then Some(ConfirmationEmpty)
    else if pw != pw2 then Some(Mismatch)
    else if ValidatePassword(pw).Some? then Some(WeakPassword(ValidatePassword(pw).value))
    else if ValidateLogin(us, login).Some? then Some(LoginRejected(ValidateLogin(us, login).value))
    else None
  }

  lemma StripStripped(s: string)
    ensures Strip(s) != [] ==> Strip(Strip(s)) != []
  {
    var r := Strip(s);
    if r != [] {
      assert !IsSpace(r[0]);
    }
  }

  /** Registration succeeds exactly when the login is not blank and unused,
      the confirmation repeats the password, and the password keeps the
      rules. The order shows in what is reported: the password rules are
      only applied to a confirmed password, the login rules only to a login
      whose password passed, and `validate_login`'s blank-login refusal can
      never fire, since the login was stripped and found non-empty before. */
  lemma RegisterCheckSpec(us: seq<User>, loginField: string, pw: string, pw2: string)
    ensures RegisterCheck(us, loginField, pw, pw2).None? <==>
      && !IsBlank(loginField)
      && pw == pw2
      && ValidatePassword(pw).None?
      && forall u :: u in us ==> u.login != Strip(loginField)
    ensures RegisterCheck(us, loginField, pw, pw2) != Some(LoginRejected(BlankLogin))
    ensures RegisterCheck(us, loginField, pw, pw2).Some? && RegisterCheck(us, loginField, pw, pw2).value.WeakPassword? ==>
      !IsBlank(loginField) && pw != [] && pw == pw2
    ensures RegisterCheck(us, loginField, pw, pw2).Some? && RegisterCheck(us, loginField, pw, pw2).value.LoginRejected? ==>
      !IsBlank(loginField) && pw == pw2 && ValidatePassword(pw).None?
  {
    RegisterAccepts(us, loginField, pw, pw2);
    StripStripped(loginField);
    if ValidatePassword(pw).None? {
      assert |pw| >= MinPasswordLength;
    }
  }

  /** Each error is reported exactly when its check fails and every check
      before it passed: the blank login first, then the empty password, the
      empty confirmation, the mismatch, the first password rule broken, and
      last a login some user already has. */
  lemma RegisterCheckOrder(us: seq<User>, loginField: string, pw: string, pw2: string, rule: PasswordError)
    ensures RegisterCheck(us, loginField, pw, pw2) == Some(LoginEmpty) <==> IsBlank(loginField)
    ensures RegisterCheck(us, loginField, pw, pw2) == Some(PasswordEmpty) <==> !IsBlank(loginField) && pw == []
    ensures RegisterCheck(us, loginField, pw, pw2) == Some(ConfirmationEmpty) <==>
      !IsBlank(loginField) && pw != [] && pw2 == []
    ensures RegisterCheck(us, loginField, pw, pw2) == Some(Mismatch) <==>
      !IsBlank(loginField) && pw != [] && pw2 != [] && pw != pw2
    ensures RegisterCheck(us, loginField, pw, pw2) == Some(WeakPassword(rule)) <==>
      !IsBlank(loginField) && pw != [] && pw == pw2 && ValidatePassword(pw) == Some(rule)
    ensures RegisterCheck(us, loginField, pw, pw2) == Some(LoginRejected(LoginTaken)) <==>
      && !IsBlank(loginField) && pw == pw2 && ValidatePassword(pw).None?
      && exists u :: u in us && u.login == Strip(loginField)
  {
    StripStripped(loginField);
    ValidateLoginSpec(us, Strip(loginField));
    if ValidatePassword(pw).None? {
      assert |pw| >= MinPasswordLength;
    }
  }

  lemma RegisterAccepts(us: seq<User>, loginField: string, pw: string, pw2: string)
    ensures RegisterCheck(us, loginField, pw, pw2).None? <==>
      && !IsBlank(loginField)
      && pw == pw2
      && ValidatePassword(pw).None?
      && forall u :: u in us ==> u.login != Strip(loginField)
  {
    StripStripped(loginField);
    ValidateLoginSpec(us, Strip(loginField));
    if ValidatePassword(pw).None? {
      assert |pw| >= MinPasswordLength;
    }
  }

  /** A new row in the user table with the next id. */
  method AddUser(s: Store, login: string, hash: string, isAdmin: bool)
    requires s.Valid()
    requires forall u :: u in s.users ==> u.login != login
    modifies s
    ensures s.Valid()
    ensures s.users == old(s.users) + [User(NextUserId(old(s.users)), login, hash, isAdmin)]
    ensures s.posts == old(s.posts) && s.comments == old(s.comments) && s.reactions == old(s.reactions)
    ensures s.hashtags == old(s.hashtags) && s.links == old(s.links)
  {
    var us := s.users + [User(NextUserId(s.users), login, hash, isAdmin)];
    assert UsersOk(us, NextUserId(us)) by {
      assert forall i :: 0 <= i < |s.users| ==> us[i] == s.users[i] && s.users[i] in s.users;
    }
    s.users := us;
  }

  /** `register` on POST: the first failing check is reported and nothing is
      stored; otherwise one regular (not admin) user with the stripped login
      and the hash of the password is added. */
  method Register(s: Store, loginField: string, pw: string, pw2: string, hashOf: string -> string)
    returns (err: Option<RegisterError>)
    requires s.Valid()
    modifies s
    ensures s.Valid()
    ensures err == RegisterCheck(old(s.users), loginField, pw, pw2)
    ensures err.Some? ==> unchanged(s)
    ensures err.None? ==>
      && s.users == old(s.users) + [User(NextUserId(old(s.users)), Strip(loginField), hashOf(pw), false)]
      && s.posts == old(s.posts) && s.comments == old(s.comments) && s.reactions == old(s.reactions)
      && s.hashtags == old(s.hashtags) && s.links == old(s.links)
  {
    err := RegisterCheck(s.users, loginField, pw, pw2);
    if err.None? {
      AddUser(s, Strip(loginField), hashOf(pw), false);
    }
  }

  // ---- login and logout --------------------------------------------------------------

  /** Why `login` turns a form away. A missing user and a wrong password
      give the same answer. */
  datatype SignInError = NoLogin | NoPassword | BadCredentials

  function SignInMessage(e: SignInError): (r: string) {
    match e
    case NoLogin => "You must provide a login."
    case NoPassword => "You must provide a password."
    case BadCredentials => "Invalid login or password."
  }

  datatype Authentication = Accepted(user: User) | Refused(error: SignInError)

  /** The checks of `login` on POST: the stripped login and the password must
      be non-empty, and the user with that login must exist and accept the
      password. */
  function Authenticate(us: seq<User>, loginField: string, pw: string, check: (string, string) -> bool): (r: Authentication) {
    var login := Strip(loginField);
    if login == [] then Refused(NoLogin)
    else if pw == [] then Refused(NoPassword)
    else match UserByLogin(us, login)
      case None => Refused(BadCredentials)
      case Some(u) => if check(u.passwordHash, pw) then Accepted(u) else Refused(BadCredentials)
  }

  lemma SameLoginSameUser(us: seq<User>, next: nat, u: User, v: User)
    requires UsersOk(us, next) && u in us && v in us && u.login == v.login
    ensures u == v
  {
    var i :| 0 <= i < |us| && us[i] == u;
    var j :| 0 <= j < |us| && us[j] == v;
    assert i == j;
  }

  /** A user is signed in exactly when the form names that user's login
      (after stripping), a password is given, and it matches the stored hash.
      A form with both fields filled that fails is refused with one message,
      whether the login is unknown or the password wrong. */
  lemma AuthenticateSpec(us: seq<User>, next: nat, loginField: string, pw: string, check: (string, string) -> bool, u: User)
    requires UsersOk(us, next)
    ensures Authenticate(us, loginField, pw, check) == Accepted(u) <==>
      !IsBlank(loginField) && pw != [] && u in us && u.login == Strip(loginField) && check(u.passwordHash, pw)
    ensures Authenticate(us, loginField, pw, check).Refused? && !IsBlank(loginField) && pw != [] ==>
      Authenticate(us, loginField, pw, check).error == BadCredentials
  {
    var found := UserByLogin(us, Strip(loginField));
    if u in us && u.login == Strip(loginField) {
      SameLoginSameUser(us, next, u, found.value);
    }
  }

  lemma {:induction false} UserByLoginAppend(us: seq<User>, u: User)
    requires forall v :: v in us ==> v.login != u.login
    ensures UserByLogin(us + [u], u.login) == Some(u)
  {
    if us != [] {
      assert (us + [u])[1..] == us[1..] + [u];
      assert us[0] in us;
      assert forall v :: v in us[1..] ==> v in us;
      UserByLoginAppend(us[1..], u);
    }
  }

  /** A user who has just registered can sign in with the same login and
      password, provided the stored hash accepts that password. */
  lemma RegisterThenLogin(us: seq<User>, next: nat, loginField: string, pw: string, pw2: string,
                          hashOf: string -> string, check: (string, string) -> bool)
    requires RegisterCheck(us, loginField, pw, pw2).None?
    requires check(hashOf(pw), pw)
    ensures Authenticate(us + [User(next, Strip(loginField), hashOf(pw), false)], loginField, pw, check)
         == Accepted(User(next, Strip(loginField), hashOf(pw), false))
  {
    RegisterCheckSpec(us, loginField, pw, pw2);
    UserByLoginAppend(us, User(next, Strip(loginField), hashOf(pw), false));
  }

  /** The part of Flask's session the forum uses. */
  class Session {
    var userId: Option<nat>
    var userLogin: Option<string>

    /** A visitor who has not signed in. */
    constructor ()
      ensures userId.None? && userLogin.None?
    {
      userId, userLogin := None, None;
    }

    /** `login` on POST: on success both keys are set from the user's row;
        on any refusal the session is left as it was. */
    method Login(us: seq<User>, loginField: string, pw: string, check: (string, string) -> bool)
      returns (err: Option<SignInError>)
      modifies this
      ensures match Authenticate(us, loginField, pw, check)
        case Accepted(u) => err.None? && userId == Some(u.id) && userLogin == Some(u.login)
        case Refused(e) => err == Some(e) && userId == old(userId) && userLogin == old(userLogin)
    {
      match Authenticate(us, loginField, pw, check)
      case Accepted(u) =>
        userId := Some(u.id);
        userLogin := Some(u.login);
        err := None;
      case Refused(e) =>
        err := Some(e);
    }

    /** `logout`: both keys are removed, whether or not they were there. */
    method Logout()
      modifies this
      ensures userId.None? && userLogin.None?
    {
      userId := None;
      userLogin := None;
    }
  }
}
