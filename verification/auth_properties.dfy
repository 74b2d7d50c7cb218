/**
 * Properties that relate several calls of the handlers of
 * backend/routes/auth_routes.py.
 */
module AuthProperties {

  import opened Wrappers
  import opened Crypto
  import opened Decimal
  import opened Accounts
  import opened AuthRoutes

  /** An unknown email and a known email with a wrong password get the very
      same answer, and neither changes the table. */
  lemma LoginFailuresIndistinguishable(c: Primitives, s: Store, unknown: string, p1: string, known: string, p2: string)
    requires unknown !in s
    requires known in s && !c.check(s[known].pwHash, p2)
    ensures Login(c, s, unknown, p1) == Login(c, s, known, p2) == Step(InvalidCredentials, s)
  {
  }

  /** A code can be used once: after a successful reset, the same email and
      code never reset again and leave the table as it is, whatever new
      password comes with them; with a non-empty one the answer is 400. */
  lemma OtpSingleUse(c: Primitives, s: Store, email: string, otp: string, p1: string, salt1: Salt, p2: string, salt2: Salt)
    requires ResetPassword(c, s, email, otp, p1, salt1).outcome.PasswordReset?
    ensures
      var s1 := ResetPassword(c, s, email, otp, p1, salt1).store;
      var again := ResetPassword(c, s1, email, otp, p2, salt2);
      && !again.outcome.PasswordReset?
      && again.store == s1
      && (p2 != "" ==> again.outcome == InvalidOtp)
  {
  }

  /** The code a forgot-password request sends back resets the password,
      unless the new password is empty: the hasher refuses that with a 500
      and the code stays pending. */
  lemma IssuedCodeResets(c: Primitives, s: Store, email: string, code: int, newPassword: string, salt: Salt)
    requires email in s
    requires 100000 <= code <= 999999
    ensures
      var sent := ForgotPassword(s, Some(email), code);
      var reset := ResetPassword(c, sent.store, email, ToDecimal(code), newPassword, salt);
      && sent.outcome == OtpSent(ToDecimal(code))
      && (newPassword != "" ==> reset.outcome == PasswordReset)
      && (newPassword == "" ==> reset == Step(ServerError, sent.store) && sent.store[email].otp == Some(ToDecimal(code)))
  {
  }

  /** A second forgot-password request overwrites the first code: the earlier
      code, if the two draws differ, no longer resets the password, and the
      attempt changes nothing. */
  lemma EarlierCodeRevoked(c: Primitives, s: Store, email: string, n1: int, n2: int, newPassword: string, salt: Salt)
    requires email in s
    requires 100000 <= n1 <= 999999 && 100000 <= n2 <= 999999
    requires n1 != n2
    ensures
      var s2 := ForgotPassword(ForgotPassword(s, Some(email), n1).store, Some(email), n2).store;
      var reset := ResetPassword(c, s2, email, ToDecimal(n1), newPassword, salt);
      && !reset.outcome.PasswordReset?
      && reset.store == s2
      && (newPassword != "" ==> reset.outcome == InvalidOtp)
  {
  }

  /** A code issued for another account does not reset an account that has
      no code pending, and the refused attempt changes nothing. */
  lemma ForeignCodeRefused(c: Primitives, s: Store, email: string, other: string, code: int, newPassword: string, salt: Salt)
    requires email in s && s[email].otp.None?
    requires other != email
    requires 100000 <= code <= 999999
    ensures
      var s1 := ForgotPassword(s, Some(other), code).store;
      var reset := ResetPassword(c, s1, email, ToDecimal(code), newPassword, salt);
      && !reset.outcome.PasswordReset?
      && reset.store == s1
      && (newPassword != "" ==> reset.outcome == InvalidOtp)
  {
  }

  /**
   * Recovery end to end, assuming bcrypt behaves (BcryptSound) on the two
   * passwords: after forgot-password and a reset with the code it sent, a
   * non-empty new password logs in and the old one, if different, no longer
   * does. An empty new password is refused with a 500 that changes nothing.
   */
  lemma RecoveryEndToEnd(c: Primitives, s: Store, email: string, code: int, oldPassword: string, newPassword: string, salt: Salt)
    requires BcryptSound(c)
    requires email in s
    requires 100000 <= code <= 999999
    requires WithinBcryptLimit(oldPassword) && WithinBcryptLimit(newPassword)
    requires oldPassword != newPassword
    ensures
      var sent := ForgotPassword(s, Some(email), code);
      var reset := ResetPassword(c, sent.store, email, sent.outcome.otp, newPassword, salt);
      newPassword != "" ==>
        && reset.outcome == PasswordReset
        && Login(c, reset.store, email, newPassword).outcome == LoggedIn(c.mint(email))
        && Login(c, reset.store, email, oldPassword).outcome == InvalidCredentials
    ensures
      var sent := ForgotPassword(s, Some(email), code);
      newPassword == "" ==>
        ResetPassword(c, sent.store, email, sent.outcome.otp, newPassword, salt) == Step(ServerError, sent.store)
  {
  }

  /** Assuming bcrypt behaves on the two passwords: right after a successful
      registration the password logs in, and any other password is refused. */
  lemma RegisterThenLogin(c: Primitives, s: Store, req: Registration, salt: Salt, other: string)
    requires BcryptSound(c)
    requires Register(c, s, req, salt).outcome.Registered?
    requires WithinBcryptLimit(req.password) && WithinBcryptLimit(other)
    requires other != req.password
    ensures
      var s1 := Register(c, s, req, salt).store;
      && Login(c, s1, req.email, req.password).outcome == LoggedIn(c.mint(req.email))
      && Login(c, s1, req.email, other).outcome == InvalidCredentials
  {
  }

  /** The sample account: a@x.com, phone 555-0100, user alice, password Secr3t!. */
  function Alice(): Registration
  {
    Registration("a@x.com", "555-0100", "alice", "Secr3t!")
  }

  /**
   * The sample session, first half, assuming bcrypt behaves: registering
   * alice on an empty table succeeds (201); her password then logs in and a
   * wrong one gets 401.
   */
  lemma SampleRegistration(c: Primitives, salt: Salt)
    requires BcryptSound(c)
    ensures
      var s1 := Register(c, map[], Alice(), salt);
      && s1.outcome == Registered
      && Login(c, s1.store, "a@x.com", "Secr3t!").outcome == LoggedIn(c.mint("a@x.com"))
      && Login(c, s1.store, "a@x.com", "wrong").outcome == InvalidCredentials
  {
    var empty: Store := map[];
    assert !PhoneTaken(empty, Alice().phone);
    SamplePasswordsWithinLimit();
    RegisterThenLogin(c, empty, Alice(), salt, "wrong");
  }

  /**
   * The sample session, second half, assuming bcrypt behaves: once alice is
   * registered, forgot-password sends her code (200), the reset with that
   * code succeeds (200), and from then on Secr3t! gets 401 while NewPass1
   * logs in.
   */
  lemma SampleRecovery(c: Primitives, code: int, salt1: Salt, salt2: Salt)
    requires BcryptSound(c)
    requires 100000 <= code <= 999999
    ensures
      var s1 := Register(c, map[], Alice(), salt1).store;
      var sent := ForgotPassword(s1, Some("a@x.com"), code);
      var reset := ResetPassword(c, sent.store, "a@x.com", sent.outcome.otp, "NewPass1", salt2);
      && sent.outcome == OtpSent(ToDecimal(code))
      && reset.outcome == PasswordReset
      && Login(c, reset.store, "a@x.com", "Secr3t!").outcome == InvalidCredentials
      && Login(c, reset.store, "a@x.com", "NewPass1").outcome == LoggedIn(c.mint("a@x.com"))
  {
    var s1 := Register(c, map[], Alice(), salt1).store;
    AliceRegistered(c, salt1);
    SamplePasswordsWithinLimit();
    RecoveryEndToEnd(c, s1, "a@x.com", code, "Secr3t!", "NewPass1", salt2);
  }

  /** Registering alice on an empty table adds her account. */
  lemma AliceRegistered(c: Primitives, salt: Salt)
    ensures "a@x.com" in Register(c, map[], Alice(), salt).store
  {
  }

  /** The sample passwords are short ASCII strings, well inside bcrypt's limit. */
  lemma SamplePasswordsWithinLimit()
    ensures WithinBcryptLimit("Secr3t!") && WithinBcryptLimit("wrong") && WithinBcryptLimit("NewPass1")
  {
    assert '\0' !in "Secr3t!";
    assert '\0' !in "wrong";
    assert '\0' !in "NewPass1";
  }

  /**
   * The import bug in register: a registration that fits the columns but
   * reuses an email or phone number gets 500 from the code as written,
   * where the intended answer is 400 (500 only for an empty password, which
   * the hasher refuses first). Both leave the table unchanged.
   */
  lemma DuplicateRegistrationAnswers500(c: Primitives, s: Store, req: Registration, salt: Salt)
    requires FitsColumns(req.email, NewAccount(c, req, salt))
    requires req.email in s || PhoneTaken(s, req.phone)
    ensures Status(RegisterAsWritten(c, s, req, salt).outcome) == 500
    ensures req.password != "" ==> Status(Register(c, s, req, salt).outcome) == 400
    ensures req.password == "" ==> Status(Register(c, s, req, salt).outcome) == 500
    ensures RegisterAsWritten(c, s, req, salt).store == Register(c, s, req, salt).store == s
  {
  }

  /** A concrete instance: registering alice twice. */
  lemma SecondRegistrationOfAlice(c: Primitives, salt1: Salt, salt2: Salt)
    ensures
      var s1 := Register(c, map[], Alice(), salt1).store;
      && Status(RegisterAsWritten(c, s1, Alice(), salt2).outcome) == 500
      && Status(Register(c, s1, Alice(), salt2).outcome) == 400
  {
  }

  /** Apart from the duplicate case, the code as written and the intended
      handler agree exactly. */
  lemma AsWrittenAgreesOffConflict(c: Primitives, s: Store, req: Registration, salt: Salt)
    requires !Register(c, s, req, salt).outcome.Conflict?
    ensures RegisterAsWritten(c, s, req, salt) == Register(c, s, req, salt)
  {
  }
}
