/** The failed-login counter row kept per e-mail address. */
module LoginAttempts {
  import opened Common

  /** One row of `login_attempts`; `email` is unique across rows and
      `lockedUntil` is null until a lockout has been set. */
  datatype LoginAttempt = LoginAttempt(
    id: Id,
    email: string,
    attemptCount: int,
    lastAttemptAt: int,
    lockedUntil: Option<int>)

  /** The column default of `attempt_count`. */
  const DefaultAttemptCount := 0

  /** `LoginAttempt.is_locked` at time `now`: never locked without a
      `locked_until`, otherwise locked strictly before that instant. */
  predicate IsLocked(a: LoginAttempt, now: int)
  {
    match a.lockedUntil
    case None => false
    case Some(until) => now < until
  }
}
