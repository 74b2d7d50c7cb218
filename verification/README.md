# Account backend: registration, login and password recovery

A Dafny model of the authentication core of a Flask/MySQL user-account
backend. The account routes (`backend/routes/auth_routes.py`) register a
user, log in with a bearer token, issue a six-digit one-time code
(forgot-password) and reset the password with that code. They run over the
`users` table of `backend/models/user_model.py`. A second, independent
register/login pair in `backend/app.py` writes a different table, `user`,
and adds a required-field check.

Each handler is a pure function from the table before the request to an
outcome (standing for the HTTP status and message) and the table after it.

- `Accounts`: the `users` table as a map `email -> Account`. Keying by
  email makes the UNIQUE email constraint structural. `Valid` states the
  rest of the schema: unique phone numbers and the VARCHAR widths
  (255, 20, 100, and 6 for `otp`). Every column except `otp` is NOT NULL,
  so only `otp` is an `Option`.
- `Crypto`: bcrypt and the JWT issuer are opaque. `Hash` and `Token` are
  abstract types. The primitives are function values:
  - `hash(salt, password)`: the salt bcrypt draws is an explicit input;
  - `check(hash, password)`;
  - `mint(email)`.

  `HashPassword` is `hash_password` of `backend/utils/security.py`: it
  refuses an empty password, as Flask-Bcrypt does. `BcryptSound` says that,
  among passwords of at most 72 UTF-8 bytes without a NUL character, a hash
  verifies exactly the password it was made from. It is an assumption about
  bcrypt and is only ever a hypothesis of a lemma.
- `Decimal`: `str()` of the drawn code, with its round trip and its length.
- `AuthRoutes`: `Register`, `Login`, `ForgotPassword` and `ResetPassword`,
  plus `Handle` (routing) and `Serve` (requests one after another).
- `AuthProperties`: properties that span several calls:
  - login failures are indistinguishable;
  - a code can be used only once;
  - a new code revokes the old one;
  - recovery works end to end;
  - the sample session (register, log in, recover, log in again) runs as
    expected;
  - the register import bug (see Findings).
- `AppUsers`: `register_user` and `login_user` of `app.py` over a sequence
  of rows. Any store failure is an explicit `fault` input.

Facts about the code that the model keeps:
- the reset code is drawn from 100000..999999, so it always has six digits;
- forgot-password returns the code in its response;
- an unknown email gets 404 from forgot-password;
- the account routes have no required-field check, so an empty password
  reaches the hasher, which refuses it with an uncaught error (500).

`register` in `auth_routes.py` is modelled with its evident intent: a
duplicate is refused with 400 and the table is unchanged. The code as
written answers 500 (see Findings). Both versions are defined and compared.

## Model

| member | source | states |
|---|---|---|
| Crypto.HashPassword | backend/utils/security.py:6-7 | Hashing fails exactly for the empty password. Otherwise the result is bcrypt's hash of the password under the drawn salt. |
| Crypto.Utf8Length | backend/app.py:48 | The length of `password.encode('utf-8')`, the bytes bcrypt reads, is at least its number of characters and at most four times that. |
| AuthRoutes.InsertAccount | backend/routes/auth_routes.py:19-24 | The INSERT, as intended: an email or phone already present is refused with 400, a value overflowing its column with 500, and either way the table is unchanged. Otherwise exactly the new key is added with the given row, and no other row changes. |
| AuthRoutes.InsertAccountKeepsValid | backend/models/user_model.py:9-13 | The INSERT, refused or not, keeps the unique phones and the column widths. |
| AuthRoutes.Register | backend/routes/auth_routes.py:14-24 | An empty password is refused by the hasher with 500 before the database is reached. An email or phone already present is refused (400, or 500 when a value overflows its column). Every refusal leaves the table unchanged. Otherwise exactly one account is added, holding the bcrypt hash of the password and no pending code, and no other row changes. The schema constraints are preserved. |
| AuthRoutes.RegisterAsWritten | backend/routes/auth_routes.py:14-27 | As written, an empty password and every refusal by the database, duplicates included, give 500 with the table unchanged. A fresh registration with a non-empty password that fits the columns adds exactly its row: the hash, no pending code, and no other row changed. The schema constraints are preserved. |
| AuthRoutes.InsertKeepsValid | backend/models/user_model.py:9-13 | Inserting a row that fits its columns, under a fresh email and with an unused phone number, keeps phone numbers unique and every column within its width. |
| AuthRoutes.Login | backend/routes/auth_routes.py:37-46 | Never writes. Succeeds with the token minted for the email iff an account with that email exists and its hash checks against the password. Otherwise the answer is 401 "Invalid email or password". |
| AuthRoutes.ForgotPassword | backend/routes/auth_routes.py:51-66 | An absent or unknown email gets 404 and the table is unchanged. For a known email, that account's otp becomes a six-digit string that reads back as the drawn number, replacing any earlier code. Every other column and every other account is unchanged. |
| AuthRoutes.ResetPassword | backend/routes/auth_routes.py:71-87 | An empty new password is refused by the hasher with 500 before the lookup, and the code stays pending. Otherwise the reset succeeds iff the account exists and its stored otp equals the supplied code, so an account with no pending code is never reset. On success the hash becomes the hash of the new password and the code is cleared, with nothing else changed. On failure the answer is 400 "Invalid OTP" and the table is unchanged. |
| AuthRoutes.Handle | backend/routes/auth_routes.py:8-87 | Every route preserves the schema constraints. No route deletes an account or changes its phone number or username. |
| AuthRoutes.Serve | backend/models/user_model.py:7-14 | Across any sequence of requests, the table keeps its unique phones and column widths. Every account present at the start is still there at the end, with the same phone number and username. |
| Decimal.ToDecimal | backend/routes/auth_routes.py:59 | str() of a number: at least one character, digits only, and no leading zero unless the number is zero. |
| Decimal.ValueOfToDecimal | backend/routes/auth_routes.py:59 | Reading the rendered digits back gives the number. |
| Decimal.ToDecimalInjective | backend/routes/auth_routes.py:59-60 | Different drawn numbers give different code strings. |
| Decimal.ToDecimalLength | backend/routes/auth_routes.py:59 | A number with k digits renders as exactly k characters. |
| Decimal.SixDigitCode | backend/models/user_model.py:13 | Every code drawn from 100000..999999 is six digits, so it fits the VARCHAR(6) otp column and reads back as the drawn number. |
| AuthProperties.RegisterThenLogin | backend/routes/auth_routes.py:14-44 | Assuming bcrypt is sound on the two passwords: right after a successful registration the password logs in with the token for that email, and any other password is refused. |
| AuthProperties.LoginFailuresIndistinguishable | backend/routes/auth_routes.py:42-46 | An unknown email and a wrong password for a known email produce the identical outcome and table. |
| AuthProperties.OtpSingleUse | backend/routes/auth_routes.py:73-81 | After a successful reset, the same email and code never reset again and leave the table unchanged, whatever the new password. With a non-empty new password the answer is 400 "Invalid OTP". |
| AuthProperties.IssuedCodeResets | backend/routes/auth_routes.py:58-81 | The code that forgot-password sends back resets the password of that account when the new password is non-empty. An empty new password gets 500, and the code stays pending. |
| AuthProperties.EarlierCodeRevoked | backend/routes/auth_routes.py:60-81 | After a second forgot-password, the first code no longer resets the password when the two draws differ, and the attempt leaves the table unchanged. |
| AuthProperties.ForeignCodeRefused | backend/routes/auth_routes.py:73-87 | A code issued for another account does not reset an account with no code pending, and the refused attempt changes nothing. |
| AuthProperties.RecoveryEndToEnd | backend/routes/auth_routes.py:42-81 | Assuming bcrypt is sound on the two passwords: after forgot-password and a reset with the sent code, a non-empty new password logs in and the old one is refused. An empty new password gets 500 and changes nothing. |
| AuthProperties.SampleRegistration | backend/routes/auth_routes.py:14-46 | First half of the sample session, assuming bcrypt is sound: registering a@x.com on an empty table succeeds (201), Secr3t! logs in with the token for a@x.com, and a wrong password gets 401. |
| AuthProperties.SampleRecovery | backend/routes/auth_routes.py:42-87 | Second half of the sample session, assuming bcrypt is sound: forgot-password sends the code (200), the reset with it succeeds (200), then Secr3t! gets 401 and NewPass1 logs in. |
| AuthProperties.DuplicateRegistrationAnswers500 | backend/routes/auth_routes.py:14-24 | A duplicate that fits the columns gets 500 from the code as written. The intended handler answers 400 for it, or 500 when the password is empty, because the hasher refuses that first. Both leave the table unchanged. |
| AuthProperties.SecondRegistrationOfAlice | backend/routes/auth_routes.py:19-24 | Concretely, registering a@x.com twice gets 500 as written and 400 as intended. |
| AuthProperties.AsWrittenAgreesOffConflict | backend/routes/auth_routes.py:18-27 | Outside the duplicate case, the code as written and the intended handler give the same outcome and table. |
| AppUsers.FirstWithEmail | backend/app.py:72-74 | The lookup finds the first row with the email, in insertion order, or reports that no row has it. Which row the database returns first is an assumption (see Left out). |
| AppUsers.RegisterUser | backend/app.py:34-58 | A missing or empty Username, Email, Password or PhoneNo gives 400 and inserts nothing. A store failure gives 500 and inserts nothing. Otherwise exactly one row is appended, holding the password hash and the other three fields, and the answer is 201. |
| AppUsers.LoginUser | backend/app.py:62-83 | A missing or empty Email or Password gives 400 before any lookup. A store failure gives 500. Otherwise the answer is 200 iff the first row with that Email checks against the password, and 401 if not. The table is never written. |
| AppUsers.RegisteredUserCanLogIn | backend/app.py:44-80 | Assuming bcrypt is sound on the password: after registering an email that no row has yet, logging in with the same password succeeds. |
| AppUsers.EarlierRowShadows | backend/app.py:50-80 | Without a unique index on Email, and with the lookup returning rows in insertion order, a second registration of an email succeeds but its password never logs in, because the lookup finds the older row. |

## Findings

| source | as written | input that shows it | evidently intended | confidence | as-written member | corrected member |
|---|---|---|---|---|---|---|
| backend/routes/auth_routes.py:23 | `except MySQLdb.IntegrityError`, with `MySQLdb` never imported: when the INSERT raises, the except clause itself raises NameError, which surfaces as 500 | registering a@x.com a second time (AuthProperties.SecondRegistrationOfAlice) | 400 "Email or phone number already exists", table unchanged | high; not executed | AuthRoutes.RegisterAsWritten | AuthRoutes.Register |

## Left out

- BcryptSound (assumed by RegisterThenLogin, RecoveryEndToEnd, SampleRegistration, SampleRecovery and RegisteredUserCanLogIn) covers only passwords of at most 72 UTF-8 bytes without a NUL character. bcrypt reads no further: before version 5 it silently truncates, so longer passwords sharing a 72-byte prefix verify against each other's hash.
- AuthRoutes.Register, AuthRoutes.ResetPassword and AppUsers.RegisterUser hash a password over 72 UTF-8 bytes like any other. bcrypt 5 refuses it with ValueError, which would be a 500. Older versions truncate it. The behaviour depends on the installed version.
- AuthRoutes.Login, AppUsers.LoginUser and AuthProperties.LoginFailuresIndistinguishable treat `check` as total for every password. Checking a password also hashes it, so under bcrypt 5 a password over 72 UTF-8 bytes raises while being checked against a known email's hash, which would be a 500. An unknown email short-circuits before the check and still gets 401. For such passwords the two failures are therefore told apart, and the lemma does not cover them.
- AppUsers.FirstWithEmail assumes `fetchone()` returns the oldest matching row. The query has no ORDER BY, so SQL leaves the order open. Insertion order holds for an InnoDB scan on an AUTO_INCREMENT key, but the `user` table's definition is not part of this model. AppUsers.EarlierRowShadows depends on this assumption.
- Token minting: `create_access_token` embeds the issue time, the expiry and a random token id, so two logins never return the same token. The model's `mint(email)` is a plain function of the email. The clock and that randomness are not modelled.
- Hash width: the model does not check that the password hash fits its VARCHAR(255) column, because `Hash` is opaque and its text is not modelled. bcrypt hashes are 60 characters.
- The AUTO_INCREMENT `id` column is not modelled. No handler reads it.
- Request parsing: a missing key in `auth_routes.py` raises KeyError (500) and is not modelled. JSON values that are not strings are not modelled either (numbers, booleans, and null apart from the forgot-password email). In `app.py`, only None and "" stand for Python-falsy values.
- MySQL collation is not modelled. Email and code comparisons are exact string equality, not case- and trailing-space-insensitive. A numeric `otp` compared against the VARCHAR column is also not modelled.
- Overlong values: MySQL is taken to run in strict mode, so a value that overflows its column is refused with an error, not truncated.
- Randomness: the reset code is an input restricted to 100000..999999. The quality of Python's `random` is not modelled.
- Response bodies other than the echoed reset code are not modelled: the full user row (hash included) returned by `app.py` login, and the exception text in `app.py`'s 500 responses.
- bcrypt and JWT internals (`backend/utils/security.py`) are not modelled. Only the abstract `hash`, `check` and `mint` are kept. `check` is total, so a stored value that is not a bcrypt hash (which makes `bcrypt.checkpw` raise in `app.py`) is not modelled.
- Connections, cursors, commits and the cursor left open on the 404 path are not modelled. Neither are the `check_db_connection` hook, the `home` route and `app.run`.
- Concurrency is not modelled. Requests are handled strictly one after another, so races between forgot-password and reset-password are out of scope.
- The definition (DDL) of the `user` table written by `app.py` is not part of this model. Its constraints are unknown, so every store refusal is the single `fault` input.
