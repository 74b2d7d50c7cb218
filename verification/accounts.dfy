/**
 * The `users` table of backend/models/user_model.py: one row per account,
 * keyed by email. Keying the map by email makes "at most one account per
 * email" (the UNIQUE constraint on `email`) hold by construction; the
 * remaining column constraints are the predicate Valid.
 */
module Accounts {

  import opened Wrappers
  import opened Crypto

  /** Column widths of the `users` table. */
  const EmailWidth := 255
  const PhoneWidth := 20
  const UsernameWidth := 100
  const OtpWidth := 6

  /** One row without its key. Every column but `otp` is NOT NULL, so only
      `otp` is optional. The AUTO_INCREMENT id is never read by a handler. */
  datatype Account = Account(phone: string, username: string, pwHash: Hash, otp: Option<string>)

  /** The table: email -> the rest of the row. */
  type Store = map<string, Account>

  /** The row fits its VARCHAR columns. The password column holds a bcrypt
      hash, whose width is not modelled (Hash is opaque). */
  predicate FitsColumns(email: string, a: Account)
  {
    && |email| <= EmailWidth
    && |a.phone| <= PhoneWidth
    && |a.username| <= UsernameWidth
    && (a.otp.Some? ==> |a.otp.value| <= OtpWidth)
  }

  /** Some account already uses this phone number. */
  predicate PhoneTaken(s: Store, phone: string)
  {
    exists e :: e in s && s[e].phone == phone
  }

  /** The UNIQUE constraint on `phone_number`: the map is injective on phones. */
  ghost predicate PhonesUnique(s: Store)
  {
    forall e1, e2 :: e1 in s && e2 in s && s[e1].phone == s[e2].phone ==> e1 == e2
  }

  /** Every constraint the schema puts on the table. */
  ghost predicate Valid(s: Store)
  {
    && (forall e :: e in s ==> FitsColumns(e, s[e]))
    && PhonesUnique(s)
  }

  /** s' differs from s at most in the row keyed by `email`. */
  ghost predicate OnlyTouches(s: Store, s': Store, email: string)
  {
    forall e :: e != email ==> (e in s <==> e in s') && (e in s && e in s' ==> s[e] == s'[e])
  }
}
