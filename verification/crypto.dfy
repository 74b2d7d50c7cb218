/**
 * The password hasher and the token issuer the handlers call. The account
 * routes reach them through backend/utils/security.py (flask_bcrypt and
 * flask_jwt_extended); app.py calls the bcrypt package directly. Both are
 * treated as opaque: only the way the handlers use them is modelled.
 */
module Crypto {

  import opened Wrappers

  /** A stored bcrypt hash. Its text is not modelled. */
  type Hash(==)

  /** A signed bearer token (a JSON Web Token, RFC 7519). */
  type Token(==)

  /** The random salt bcrypt draws on every call. Making it an input turns
      the salted, nondeterministic hash into a function. */
  type Salt = nat

  /** The primitives as the handlers see them:
      - hash(salt, password): bcrypt with the given salt,
      - check(hash, password): does the password match the hash,
      - mint(email): an access token whose identity is the email. */
  datatype Primitives = Primitives(
    hash: (Salt, string) -> Hash,
    check: (Hash, string) -> bool,
    mint: string -> Token)

  /**
   * hash_password of backend/utils/security.py. Flask-Bcrypt's
   * generate_password_hash refuses an empty password with ValueError, which
   * no caller catches; that refusal is None here.
   */
  function HashPassword(c: Primitives, salt: Salt, password: string): (r: Option<Hash>)
    ensures r.None? <==> password == ""
    ensures r.Some? ==> r.value == c.hash(salt, password)
  {
    if password == "" then None else Some(c.hash(salt, password))
  }

  /** The number of bytes the UTF-8 encoding of one character takes. */
  function CharBytes(ch: char): nat
  {
    if ch as int < 0x80 then 1
    else if ch as int < 0x800 then 2
    else if ch as int < 0x1_0000 then 3
    else 4
  }

  /** The length of the UTF-8 encoding the handlers hash (password.encode). */
  function Utf8Length(s: string): (n: nat)
    ensures |s| <= n <= 4 * |s|
  {
    if s == [] then 0 else CharBytes(s[0]) + Utf8Length(s[1..])
  }

  /** bcrypt reads at most 72 bytes of a password, as a NUL-terminated
      string: only passwords inside that limit are told apart. */
  predicate WithinBcryptLimit(p: string)
  {
    Utf8Length(p) <= 72 && '\0' !in p
  }

  /** What bcrypt is trusted to do, never something the code establishes:
      among passwords within its limit, a hash verifies exactly the password
      it was made from, whatever the salt. Lemmas that need it take it as a
      hypothesis. */
  ghost predicate BcryptSound(c: Primitives)
  {
    forall salt: Salt, p: string, q: string
      :: WithinBcryptLimit(p) && WithinBcryptLimit(q) ==>
           (c.check(c.hash(salt, p), q) <==> p == q)
  }
}
