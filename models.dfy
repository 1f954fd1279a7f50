/** The two records of the authentication service, `User` and `ActivationCode`,
    with their construction defaults and the expiry rule of a code
    (src/services/models.py). */
module Models {
  import opened Wrappers

  /** An opaque user identity (a UUID string in the service). */
  type UserId = string

  /** An email address, compared exactly as stored. */
  type Email = string

  /** An instant in whole seconds on one UTC time axis. Timestamps without a
      time zone are read as UTC, so every comparison happens on this axis. */
  type Time = int

  /** Lifetime of an activation code: one minute. */
  const CodeTtl: int := 60

  datatype User = User(
    email: Email,
    passwordHash: string,
    id: UserId,
    isActive: bool,
    createdAt: Time)

  /** A code that activates the account of `userId`. `expiresAt` is optional in
      the record; a code without it never expires. */
  datatype ActivationCode = ActivationCode(
    userId: UserId,
    code: string,
    createdAt: Time,
    expiresAt: Option<Time>)

  /** A user built with the record's defaults: the account starts inactive. */
  function NewUser(email: Email, passwordHash: string, id: UserId, now: Time): (u: User)
    ensures !u.isActive
    ensures u.email == email && u.passwordHash == passwordHash && u.id == id
    ensures u.createdAt == now
  {
    User(email, passwordHash, id, false, now)
  }

  /** An activation code as the record's initialiser completes it: a missing
      expiry becomes one minute after creation, a supplied one is kept. */
  function NewActivationCode(userId: UserId, code: string, createdAt: Time, expiresAt: Option<Time>): (c: ActivationCode)
    ensures c.userId == userId && c.code == code && c.createdAt == createdAt
    ensures c.expiresAt.Some?
    ensures expiresAt.None? ==> c.expiresAt == Some(createdAt + CodeTtl)
    ensures expiresAt.Some? ==> c.expiresAt == expiresAt
  {
    match expiresAt
    case None => ActivationCode(userId, code, createdAt, Some(createdAt + CodeTtl))
    case Some(t) => ActivationCode(userId, code, createdAt, Some(t))
  }

  /** Whether `c` has expired at instant `now`: strictly after its expiry. */
  predicate IsExpired(c: ActivationCode, now: Time)
  {
    match c.expiresAt
    case None => false
    case Some(t) => now > t
  }

  /** A code built with the default expiry is valid up to and including the
      instant one minute after its creation, and expired from the next second on. */
  lemma DefaultExpiryWindow(userId: UserId, code: string, createdAt: Time, now: Time)
    ensures IsExpired(NewActivationCode(userId, code, createdAt, None), now) <==> now > createdAt + CodeTtl
    ensures !IsExpired(NewActivationCode(userId, code, createdAt, None), createdAt + CodeTtl)
  {
  }

  /** A code is not expired at the instant it expires. */
  lemma ValidAtExpiryInstant(c: ActivationCode)
    requires c.expiresAt.Some?
    ensures !IsExpired(c, c.expiresAt.value)
  {
  }

  /** A code without an expiry never expires. */
  lemma NoExpiryNeverExpires(c: ActivationCode, now: Time)
    requires c.expiresAt.None?
    ensures !IsExpired(c, now)
  {
  }

  /** Expiry is monotone in time: once expired, a code stays expired. */
  lemma ExpiryIsMonotone(c: ActivationCode, now: Time, later: Time)
    requires now <= later
    requires IsExpired(c, now)
    ensures IsExpired(c, later)
  {
  }
}
