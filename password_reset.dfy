/** The single-use password reset token row. */
module PasswordResets {
  import opened Common

  /** One row of `password_resets`. Only the SHA-256 hash of the token is
      stored, and `tokenHash` is unique across rows. */
  datatype PasswordReset = PasswordReset(
    id: Id,
    userId: Id,
    tokenHash: string,
    createdAt: int,
    expiresAt: int,
    used: bool,
    usedAt: Option<int>)

  /** `PasswordReset.is_expired`: strictly after the expiry instant. */
  predicate IsExpired(r: PasswordReset, now: int)
  {
    now > r.expiresAt
  }

  /** `PasswordReset.is_valid`: neither used nor expired. */
  predicate IsValid(r: PasswordReset, now: int)
  {
    !r.used && !IsExpired(r, now)
  }
}
