/** Client runs of the account service: registration then activation within
    the minute or too late, an unknown code on a fresh service, a repeated
    registration, and two cleanups in a row. The runs hold for any service state
    that meets their requirements, except the unknown code, which uses a fresh
    service whose hasher keeps the password as its hash. */
module Scenarios {
  import opened Wrappers
  import opened Models
  import opened UserRepositories
  import opened ActivationCodeRepositories
  import opened Services
  import opened Codes

  /** A hasher that stores the password itself and ignores the salt. */
  function PlainHasher(): (h: Hasher)
    ensures SoundHasher(h)
    ensures !h.verify("other", h.hash("pw123456", "salt"))
  {
    Hasher((password: string, salt: string) => password, (password: string, stored: string) => password == stored)
  }

  method FreshService() returns (s: UserService)
    ensures fresh(s) && fresh(s.users) && fresh(s.activations)
    ensures s.Valid() && s.hasher == PlainHasher()
    ensures s.users.users == map[] && s.activations.codes == map[] && s.outbox == []
  {
    var users := new InMemoryUserRepository();
    var activations := new InMemoryActivationCodeRepository();
    s := new UserService(users, activations, PlainHasher());
  }

  /** For any fresh email: registering, then activating with the mailed code
      within its minute, activates the account, uses the code up, and the
      registered password then logs in. */
  method RegisterActivateLogin(s: UserService, email: Email, password: string, salt: string, newId: UserId,
                               now: Time, later: Time, draws: seq<string>)
    returns (registered: Result<Option<User>, AuthError>, activated: Result<bool, AuthError>,
             login: Result<User, AuthError>)
    requires s.Valid()
    requires newId != "" && newId !in s.users.users && !s.users.ExistsByEmail(email)
    requires forall i :: 0 <= i < |draws| ==> IsCode(draws[i])
    requires s.activations.CanDraw(newId, draws)
    requires now <= later <= now + CodeTtl
    modifies s, s.users, s.activations
    ensures s.Valid()
    ensures registered == Success(Some(NewUser(email, s.hasher.hash(password, salt), newId, now)))
    ensures activated == Success(true)
    ensures s.activations.GetByUserId(newId).None?
    ensures login == Success(NewUser(email, s.hasher.hash(password, salt), newId, now).(isActive := true))
    ensures s.users.GetByEmail(email) == Some(login.value) && s.users.ExistsByEmail(email)
    ensures s.activations.codes == old(s.activations.codes) - {newId}
    ensures |s.outbox| == |old(s.outbox)| + 1
  {
    ghost var codes0, outbox0 := s.activations.codes, s.outbox;
    registered := s.Register(email, password, salt, newId, now, draws);
    assert |s.outbox| == |outbox0| + 1;
    ghost var u := NewUser(email, s.hasher.hash(password, salt), newId, now);
    assert s.users.users[newId] == u;
    var code := s.outbox[|s.outbox| - 1].code;
    ghost var c := s.activations.codes[newId];
    assert s.activations.codes == codes0[newId := c];
    assert code == c.code && c.userId == newId && c.expiresAt == Some(now + CodeTtl);
    assert s.activations.GetByCode(code) == Some(c);
    activated := s.ActivateAccount(code, later);
    assert s.activations.codes == codes0[newId := c] - {newId};
    UpdateThenRemove(codes0, newId, c);
    assert s.users.users[newId] == u.(isActive := true);
    assert s.users.GetByEmail(email) == Some(u.(isActive := true));
    s.RegisteredPasswordAccepted(email, password, salt);
    login := s.Authenticate(email, password);
  }

  /** For any fresh email: a code used after its minute is over is refused and
      removed, the account stays inactive, and logging in is refused without
      saying more. */
  method RegisterActivateLate(s: UserService, email: Email, password: string, salt: string, newId: UserId,
                              now: Time, later: Time, draws: seq<string>)
    returns (activated: Result<bool, AuthError>, lookup: Option<ActivationCode>, login: Result<User, AuthError>)
    requires s.Valid()
    requires newId != "" && newId !in s.users.users && !s.users.ExistsByEmail(email)
    requires forall i :: 0 <= i < |draws| ==> IsCode(draws[i])
    requires s.activations.CanDraw(newId, draws)
    requires later > now + CodeTtl
    modifies s, s.users, s.activations
    ensures s.Valid()
    ensures activated == Failure(ActivationCodeExpired)
    ensures lookup.None? && s.activations.GetByUserId(newId).None?
    ensures login == Failure(InvalidCredentials)
  {
    var registered := s.Register(email, password, salt, newId, now, draws);
    ghost var u := NewUser(email, s.hasher.hash(password, salt), newId, now);
    assert s.users.users[newId] == u;
    var code := s.outbox[|s.outbox| - 1].code;
    ghost var c := s.activations.codes[newId];
    assert code == c.code && c.userId == newId && c.expiresAt == Some(now + CodeTtl);
    assert s.activations.GetByCode(code) == Some(c);
    activated := s.ActivateAccount(code, later);
    lookup := s.activations.GetByCode(code);
    assert s.users.GetByEmail(email) == Some(u);
    login := s.Authenticate(email, password);
  }

  /** A code that was never issued is refused. */
  method ActivateUnknownCode() returns (activated: Result<bool, AuthError>)
    ensures activated == Failure(InvalidActivationCode)
  {
    var s := FreshService();
    activated := s.ActivateAccount("0000", 0);
  }

  /** Registering an email that is already active is a silent no-op that
      sends no mail: the first password still logs in, and the second one,
      which the hash of the first does not accept, does not. */
  method RegisterTwice(s: UserService, email: Email, password: string, salt: string, newId: UserId,
                       now: Time, later: Time, draws: seq<string>, other: string, otherId: UserId)
    returns (second: Result<Option<User>, AuthError>, first: Result<User, AuthError>, rejected: Result<User, AuthError>)
    requires s.Valid()
    requires newId != "" && newId !in s.users.users && !s.users.ExistsByEmail(email)
    requires forall i :: 0 <= i < |draws| ==> IsCode(draws[i])
    requires s.activations.CanDraw(newId, draws)
    requires now <= later <= now + CodeTtl
    requires otherId != ""
    requires !s.hasher.verify(other, s.hasher.hash(password, salt))
    modifies s, s.users, s.activations
    ensures second == Success(None)
    ensures |s.outbox| == |old(s.outbox)| + 1
    ensures first.Success? && first.value.id == newId
    ensures rejected == Failure(InvalidCredentials)
    ensures s.Valid() && s.Authenticate(email, password) == first
  {
    var registered, activated;
    registered, activated, first := RegisterActivateLogin(s, email, password, salt, newId, now, later, draws);
    second := s.Register(email, other, salt, otherId, later, draws);
    assert s.users.GetByEmail(email) == Some(first.value);
    rejected := s.Authenticate(email, other);
  }

  /** A sweep followed at once by another: the second finds nothing left to
      remove. */
  method CleanupTwice(store: InMemoryActivationCodeRepository, now: Time) returns (firstSweep: nat, secondSweep: nat)
    requires store.Valid()
    modifies store
    ensures firstSweep == |ExpiredOwners(old(store.codes), now)|
    ensures secondSweep == 0
    ensures store.codes == Unexpired(old(store.codes), now)
  {
    firstSweep := store.CleanupExpired(now);
    CleanupAgainRemovesNothing(old(store.codes), now);
    secondSweep := store.CleanupExpired(now);
  }
}
