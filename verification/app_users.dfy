/**
 * The second register/login pair, in backend/app.py. It writes a different
 * table, `user`, with columns Username, Email, Password and PhoneNo, whose
 * definition is not part of this model: nothing is known about its
 * constraints, so the table is a sequence of rows in insertion order and a
 * refusal by the database is an explicit input `fault`, as is any other
 * store failure (connection, cursor, commit).
 */
module AppUsers {

  import opened Wrappers
  import opened Crypto

  datatype UserRow = UserRow(username: string, email: string, password: Hash, phoneNo: string)

  type UserTable = seq<UserRow>

  datatype Outcome =
    | FieldsRequired      // 400 "All fields are required" / "Email and password are required"
    | UserRegistered      // 201 "User registered successfully"
    | LoginSuccessful     // 200 "Login successful" (the row itself is returned too)
    | InvalidLogin        // 401 "Invalid email or password"
    | ServerError         // 500, the store's exception text

  function Status(o: Outcome): int
  {
    match o
    case FieldsRequired => 400
    case UserRegistered => 201
    case LoginSuccessful => 200
    case InvalidLogin => 401
    case ServerError => 500
  }

  datatype Step = Step(outcome: Outcome, table: UserTable)

  /** A JSON field read with data.get: absent or null is None. Python's
      all([...]) rejects a field that is None or the empty string. */
  predicate Falsy(field: Option<string>)
  {
    field.None? || field.value == ""
  }

  /** The body of a POST /register request to app.py. */
  datatype Signup = Signup(username: Option<string>, email: Option<string>, password: Option<string>, phoneNo: Option<string>)

  predicate Complete(req: Signup)
  {
    !Falsy(req.username) && !Falsy(req.email) && !Falsy(req.password) && !Falsy(req.phoneNo)
  }

  /**
   * The row `SELECT * ... WHERE Email = %s` followed by fetchone() yields:
   * the first row, in insertion order, with that email.
   */
  function FirstWithEmail(t: UserTable, email: string): (r: Option<nat>)
    ensures r.Some? ==> r.value < |t| && t[r.value].email == email
    ensures r.Some? ==> forall j :: 0 <= j < r.value ==> t[j].email != email
    ensures r.None? ==> forall j :: 0 <= j < |t| ==> t[j].email != email
  {
    if t == [] then None
    else if t[0].email == email then Some(0)
    else
      match FirstWithEmail(t[1..], email)
      case Some(i) => Some(i + 1)
      case None => None
  }

  /**
   * register_user: refuse an incomplete request before touching the store;
   * otherwise hash the password and insert one row holding the hash, not
   * the password.
   */
  function RegisterUser(c: Primitives, t: UserTable, req: Signup, salt: Salt, fault: bool): (r: Step)
    ensures r.outcome == FieldsRequired <==> !Complete(req)
    ensures r.outcome == UserRegistered <==> Complete(req) && !fault
    ensures r.outcome == ServerError <==> Complete(req) && fault
    ensures r.outcome != UserRegistered ==> r.table == t
    ensures r.outcome == UserRegistered ==>
      && |r.table| == |t| + 1
      && r.table[..|t|] == t
      && r.table[|t|].username == req.username.value
      && r.table[|t|].email == req.email.value
      && r.table[|t|].password == c.hash(salt, req.password.value)
      && r.table[|t|].phoneNo == req.phoneNo.value
  {
    if !Complete(req) then Step(FieldsRequired, t)
    else if fault then Step(ServerError, t)
    else
      var row := UserRow(req.username.value, req.email.value, c.hash(salt, req.password.value), req.phoneNo.value);
      Step(UserRegistered, t + [row])
  }

  /** The first row with this email exists and the password checks against
      its hash. */
  ghost predicate Authenticates(c: Primitives, t: UserTable, email: string, password: string)
  {
    exists i :: 0 <= i < |t| && t[i].email == email
      && (forall j :: 0 <= j < i ==> t[j].email != email)
      && c.check(t[i].password, password)
  }

  /**
   * login_user: refuse a request missing Email or Password before any
   * lookup; otherwise log in exactly when the first row with that email
   * checks against the password. The table is only read.
   */
  function LoginUser(c: Primitives, t: UserTable, email: Option<string>, password: Option<string>, fault: bool): (r: Step)
    ensures r.table == t
    ensures r.outcome == FieldsRequired <==> Falsy(email) || Falsy(password)
    ensures r.outcome == ServerError <==> !Falsy(email) && !Falsy(password) && fault
    ensures r.outcome == LoginSuccessful <==>
      !Falsy(email) && !Falsy(password) && !fault && Authenticates(c, t, email.value, password.value)
    ensures r.outcome != FieldsRequired && r.outcome != ServerError && r.outcome != LoginSuccessful ==>
      r.outcome == InvalidLogin
  {
    if Falsy(email) || Falsy(password) then Step(FieldsRequired, t)
    else if fault then Step(ServerError, t)
    else
      match FirstWithEmail(t, email.value)
      case Some(i) =>
        if c.check(t[i].password, password.value) then Step(LoginSuccessful, t)
        else Step(InvalidLogin, t)
      case None => Step(InvalidLogin, t)
  }

  /** Assuming bcrypt behaves on the password: a user who registers with an email no row has
      yet can then log in with the same password. */
  lemma RegisteredUserCanLogIn(c: Primitives, t: UserTable, req: Signup, salt: Salt)
    requires BcryptSound(c)
    requires Complete(req)
    requires WithinBcryptLimit(req.password.value)
    requires forall j :: 0 <= j < |t| ==> t[j].email != req.email.value
    ensures
      var t1 := RegisterUser(c, t, req, salt, false).table;
      LoginUser(c, t1, req.email, req.password, false).outcome == LoginSuccessful
  {
  }

  /**
   * Nothing in app.py stops a second row with the same email. If the table
   * has no unique index on Email, such a second registration succeeds but
   * its password never logs in: the lookup always finds the older row.
   */
  lemma EarlierRowShadows(c: Primitives, t: UserTable, req: Signup, salt: Salt)
    requires Complete(req)
    requires exists i :: 0 <= i < |t| && t[i].email == req.email.value
    requires forall i :: 0 <= i < |t| && t[i].email == req.email.value ==>
      !c.check(t[i].password, req.password.value)
    ensures
      var reg := RegisterUser(c, t, req, salt, false);
      && reg.outcome == UserRegistered
      && LoginUser(c, reg.table, req.email, req.password, false).outcome == InvalidLogin
  {
  }
}
