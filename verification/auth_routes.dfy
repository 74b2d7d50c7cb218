/**
 * The account-recovery handlers of backend/routes/auth_routes.py, each a
 * transition from the table before the request to an outcome (standing for
 * the HTTP status and message) and the table after it.
 *
 * Inputs the handlers draw from the environment are parameters: the bcrypt
 * salt of each hash_password call and the number random.randint returns.
 */
module AuthRoutes {

  import opened Wrappers
  import opened Crypto
  import opened Decimal
  import opened Accounts

  datatype Outcome =
    | Registered                  // 201 "User registered successfully"
    | Conflict                    // 400 "Email or phone number already exists"
    | LoggedIn(token: Token)      // 200 "Login successful" with the token
    | InvalidCredentials          // 401 "Invalid email or password"
    | OtpSent(otp: string)        // 200 "OTP sent to email", the code echoed
    | EmailNotFound               // 404 "Email not found"
    | PasswordReset               // 200 "Password reset successful"
    | InvalidOtp                  // 400 "Invalid OTP"
    | ServerError                 // 500, an exception the handler does not catch

  function Status(o: Outcome): int
  {
    match o
    case Registered => 201
    case Conflict => 400
    case LoggedIn(_) => 200
    case InvalidCredentials => 401
    case OtpSent(_) => 200
    case EmailNotFound => 404
    case PasswordReset => 200
    case InvalidOtp => 400
    case ServerError => 500
  }

  /** What a handler answers, and the table it leaves behind. */
  datatype Step = Step(outcome: Outcome, store: Store)

  /** The body of a POST /register request. */
  datatype Registration = Registration(email: string, phone: string, username: string, password: string)

  /** The row an INSERT for this registration would write: the password is
      hashed first and only the hash is stored; no reset code is pending. */
  function NewAccount(c: Primitives, req: Registration, salt: Salt): Account
  {
    Account(req.phone, req.username, c.hash(salt, req.password), None)
  }

  /**
   * The INSERT of POST /register, with the duplicate case answered as the
   * handler intends. A row whose values overflow their columns is refused by
   * the database (MySQL strict mode) with an error the handler does not
   * catch, hence 500. A row whose email or phone number is already taken
   * violates a UNIQUE constraint, answered with 400. Otherwise exactly one
   * row is added.
   */
  function InsertAccount(s: Store, email: string, row: Account): (r: Step)
    requires row.otp.None?
    ensures r.outcome.Registered? || r.outcome.Conflict? || r.outcome.ServerError?
    ensures r.outcome.Registered? <==> FitsColumns(email, row) && email !in s && !PhoneTaken(s, row.phone)
    ensures r.outcome.Conflict? <==> FitsColumns(email, row) && (email in s || PhoneTaken(s, row.phone))
    ensures !r.outcome.Registered? ==> r.store == s
    ensures r.outcome.Registered? ==>
      && email !in s
      && email in r.store
      && r.store.Keys == s.Keys + {email}
      && |r.store| == |s| + 1
      && r.store[email] == row
      && OnlyTouches(s, r.store, email)
  {
    if !FitsColumns(email, row) then Step(ServerError, s)
    else if email in s || PhoneTaken(s, row.phone) then Step(Conflict, s)
    else
      InsertGrowsByOne(s, email, row);
      UpdateOnlyTouches(s, email, row);
      Step(Registered, s[email := row])
  }

  /** An insert, refused or not, keeps every constraint of the schema. */
  lemma InsertAccountKeepsValid(s: Store, email: string, row: Account)
    requires row.otp.None?
    ensures Valid(s) ==> Valid(InsertAccount(s, email, row).store)
  {
    if InsertAccount(s, email, row).outcome.Registered? {
      InsertKeepsValid(s, email, row);
    }
  }

  /**
   * POST /register, with the duplicate case answered as the handler intends.
   * The password is hashed before the database is reached: an empty one is
   * refused by the hasher with an error nobody catches, hence 500 with
   * nothing inserted. Otherwise the row holding the hash is inserted.
   */
  function Register(c: Primitives, s: Store, req: Registration, salt: Salt): (r: Step)
    ensures r.outcome.Registered? || r.outcome.Conflict? || r.outcome.ServerError?
    ensures req.password == "" ==> r == Step(ServerError, s)
    ensures r.outcome.Registered? <==>
      && req.password != ""
      && FitsColumns(req.email, NewAccount(c, req, salt))
      && req.email !in s
      && !PhoneTaken(s, req.phone)
    ensures r.outcome.Conflict? <==>
      && req.password != ""
      && FitsColumns(req.email, NewAccount(c, req, salt))
      && (req.email in s || PhoneTaken(s, req.phone))
    ensures !r.outcome.Registered? ==> r.store == s
    ensures r.outcome.Registered? ==>
      && req.email !in s
      && r.store.Keys == s.Keys + {req.email}
      && |r.store| == |s| + 1
      && r.store[req.email].phone == req.phone
      && r.store[req.email].username == req.username
      && r.store[req.email].pwHash == c.hash(salt, req.password)
      && r.store[req.email].otp == None
      && OnlyTouches(s, r.store, req.email)
    ensures Valid(s) ==> Valid(r.store)
  {
    match HashPassword(c, salt, req.password)
    case None => Step(ServerError, s)
    case Some(h) =>
      var row := Account(req.phone, req.username, h, None);
      InsertAccountKeepsValid(s, req.email, row);
      InsertAccount(s, req.email, row)
  }

  /**
   * POST /register exactly as written. The handler guards the INSERT with
   * `except MySQLdb.IntegrityError`, but the module never imports MySQLdb:
   * when the INSERT raises, evaluating that clause raises NameError, so every
   * refusal by the database, duplicates included, surfaces as a 500, as does
   * the hasher's refusal of an empty password.
   */
  function RegisterAsWritten(c: Primitives, s: Store, req: Registration, salt: Salt): (r: Step)
    ensures r.outcome.Registered? || r.outcome.ServerError?
    ensures r.outcome.Registered? <==>
      && req.password != ""
      && FitsColumns(req.email, NewAccount(c, req, salt))
      && req.email !in s
      && !PhoneTaken(s, req.phone)
    ensures !r.outcome.Registered? ==> r.store == s
    ensures r.outcome.Registered? ==>
      && req.email !in s
      && req.email in r.store
      && r.store.Keys == s.Keys + {req.email}
      && |r.store| == |s| + 1
      && r.store[req.email].phone == req.phone
      && r.store[req.email].username == req.username
      && r.store[req.email].pwHash == c.hash(salt, req.password)
      && r.store[req.email].otp == None
      && OnlyTouches(s, r.store, req.email)
    ensures Valid(s) ==> Valid(r.store)
  {
    match HashPassword(c, salt, req.password)
    case None => Step(ServerError, s)
    case Some(h) =>
      var row := Account(req.phone, req.username, h, None);
      InsertAccountKeepsValid(s, req.email, row);
      var inserted := InsertAccount(s, req.email, row);
      if inserted.outcome.Conflict? then Step(ServerError, s) else inserted
  }

  /** Adding a fitting row under a fresh email with an unused phone number
      keeps every constraint of the schema. */
  lemma InsertKeepsValid(s: Store, email: string, a: Account)
    requires email !in s
    requires FitsColumns(email, a)
    requires !PhoneTaken(s, a.phone)
    ensures Valid(s) ==> Valid(s[email := a])
  {
  }

  /** A row under a fresh email grows the table by exactly one. */
  lemma InsertGrowsByOne(s: Store, email: string, a: Account)
    requires email !in s
    ensures s[email := a].Keys == s.Keys + {email}
    ensures |s[email := a]| == |s| + 1
  {
  }

  /** Writing the row under one email leaves every other row as it was. */
  lemma UpdateOnlyTouches(s: Store, email: string, a: Account)
    ensures OnlyTouches(s, s[email := a], email)
  {
  }

  /**
   * POST /login: reads the row for the email and never writes. An unknown
   * email and a wrong password give the same answer.
   */
  function Login(c: Primitives, s: Store, email: string, password: string): (r: Step)
    ensures r.store == s
    ensures r.outcome.LoggedIn? <==> email in s && c.check(s[email].pwHash, password)
    ensures r.outcome.LoggedIn? ==> r.outcome.token == c.mint(email)
    ensures !r.outcome.LoggedIn? ==> r.outcome == InvalidCredentials
  {
    if email in s && c.check(s[email].pwHash, password) then Step(LoggedIn(c.mint(email)), s)
    else Step(InvalidCredentials, s)
  }

  /**
   * POST /forgot-password. The email is read with data.get, so it may be
   * absent (None); a lookup with NULL matches no row. For a known email the
   * drawn number `code` is stored, as decimal text, in that row's `otp`,
   * replacing any earlier code.
   */
  function ForgotPassword(s: Store, email: Option<string>, code: int): (r: Step)
    requires 100000 <= code <= 999999
    ensures r.outcome.OtpSent? <==> email.Some? && email.value in s
    ensures !r.outcome.OtpSent? ==> r.outcome == EmailNotFound && r.store == s
    ensures r.outcome.OtpSent? ==>
      && |r.outcome.otp| == OtpWidth
      && AllDigits(r.outcome.otp)
      && Value(r.outcome.otp) == code
    ensures r.outcome.OtpSent? ==>
      && email.Some? && email.value in s && email.value in r.store
      && r.store.Keys == s.Keys
      && r.store[email.value].otp == Some(r.outcome.otp)
      && r.store[email.value].phone == s[email.value].phone
      && r.store[email.value].username == s[email.value].username
      && r.store[email.value].pwHash == s[email.value].pwHash
      && OnlyTouches(s, r.store, email.value)
    ensures Valid(s) ==> Valid(r.store)
  {
    match email
    case Some(e) =>
      if e in s then
        var otp := ToDecimal(code);
        SixDigitCode(code);
        Step(OtpSent(otp), s[e := s[e].(otp := Some(otp))])
      else
        Step(EmailNotFound, s)
    case None => Step(EmailNotFound, s)
  }

  /**
   * POST /reset-password. The new password is hashed before the lookup, so
   * an empty one is a 500 that leaves the code pending. Otherwise the reset
   * succeeds exactly when the row for the email holds the supplied code (SQL
   * `otp = %s` never matches a NULL otp), and then one UPDATE sets the new
   * hash and clears the code.
   */
  function ResetPassword(c: Primitives, s: Store, email: string, otp: string, newPassword: string, salt: Salt): (r: Step)
    ensures r.outcome.PasswordReset? <==> newPassword != "" && email in s && s[email].otp == Some(otp)
    ensures newPassword == "" ==> r == Step(ServerError, s)
    ensures email in s && s[email].otp.None? ==> !r.outcome.PasswordReset? && r.store == s
    ensures !r.outcome.PasswordReset? && newPassword != "" ==> r == Step(InvalidOtp, s)
    ensures r.outcome.PasswordReset? ==>
      && email in s && email in r.store
      && r.store.Keys == s.Keys
      && r.store[email].pwHash == c.hash(salt, newPassword)
      && r.store[email].otp == None
      && r.store[email].phone == s[email].phone
      && r.store[email].username == s[email].username
      && OnlyTouches(s, r.store, email)
    ensures Valid(s) ==> Valid(r.store)
  {
    match HashPassword(c, salt, newPassword)
    case None => Step(ServerError, s)
    case Some(h) =>
      if email in s && s[email].otp == Some(otp) then
        Step(PasswordReset, s[email := s[email].(pwHash := h, otp := None)])
      else
        Step(InvalidOtp, s)
  }

  /** One request to the blueprint, together with what the environment
      supplies while it is handled (a salt, a drawn number). */
  datatype Request =
    | RegisterRequest(registration: Registration, salt: Salt)
    | LoginRequest(email: string, password: string)
    | ForgotRequest(forgotEmail: Option<string>, code: int)
    | ResetRequest(resetEmail: string, otp: string, newPassword: string, resetSalt: Salt)

  /** random.randint(100000, 999999) only draws numbers in its range. */
  predicate CodeInRange(req: Request)
  {
    req.ForgotRequest? ==> 100000 <= req.code <= 999999
  }

  /** Route a request to its handler. */
  function Handle(c: Primitives, s: Store, req: Request): (r: Step)
    requires CodeInRange(req)
    ensures Valid(s) ==> Valid(r.store)
    ensures s.Keys <= r.store.Keys
    ensures forall e :: e in s ==> r.store[e].phone == s[e].phone && r.store[e].username == s[e].username
  {
    match req
    case RegisterRequest(reg, salt) => Register(c, s, reg, salt)
    case LoginRequest(e, p) => Login(c, s, e, p)
    case ForgotRequest(e, n) => ForgotPassword(s, e, n)
    case ResetRequest(e, o, p, salt) => ResetPassword(c, s, e, o, p, salt)
  }

  /**
   * Handle requests one after another. The schema's constraints hold
   * throughout, and since no handler deletes a row or rewrites an email,
   * phone number or username, every account present at the start is still
   * there at the end with the same identity.
   */
  method Serve(c: Primitives, s: Store, reqs: seq<Request>) returns (outcomes: seq<Outcome>, s': Store)
    requires Valid(s)
    requires forall i :: 0 <= i < |reqs| ==> CodeInRange(reqs[i])
    ensures |outcomes| == |reqs|
    ensures Valid(s')
    ensures s.Keys <= s'.Keys
    ensures forall e :: e in s ==> s'[e].phone == s[e].phone && s'[e].username == s[e].username
  {
    outcomes := [];
    s' := s;
    var i := 0;
    while i < |reqs|
      invariant 0 <= i <= |reqs|
      invariant |outcomes| == i
      invariant Valid(s')
      invariant s.Keys <= s'.Keys
      invariant forall e :: e in s ==> s'[e].phone == s[e].phone && s'[e].username == s[e].username
    {
      var step := Handle(c, s', reqs[i]);
      outcomes := outcomes + [step.outcome];
      s' := step.store;
      i := i + 1;
    }
  }
}
