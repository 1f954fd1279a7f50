/** The account service: registration, activation by emailed code, resending a
    code, and the credential check, over the user store and the activation
    code store (src/services/user_service.py). The service keeps no state of
    its own besides the record of the mails it sent. */
module Services {
  import opened Wrappers
  import opened Models
  import opened Codes
  import BasicAuth
  import opened UserRepositories
  import opened ActivationCodeRepositories

  /** The failures the service reports; `Repository` carries a failure of the
      user store that the service lets through. */
  datatype AuthError =
    | UserNotFound
    | InvalidCredentials
    | InvalidActivationCode
    | ActivationCodeExpired
    | Repository(cause: StoreError)

  /** The salted password hash: `hash(password, salt)` builds a stored hash,
      `verify(password, stored)` checks a password against it. */
  datatype Hasher = Hasher(hash: (string, string) -> string, verify: (string, string) -> bool)

  /** A password is accepted by the hash built from it, whatever the salt. */
  ghost predicate SoundHasher(h: Hasher)
  {
    forall password, salt :: h.verify(password, h.hash(password, salt))
  }

  /** An activation mail: the code sent to an address. */
  datatype Mail = Mail(to: Email, code: string)

  /** Where the account of an email stands. */
  datatype Status = Unregistered | Pending | Active

  class UserService {
    const users: InMemoryUserRepository
    const activations: InMemoryActivationCodeRepository
    const hasher: Hasher
    /** The activation mails sent so far, oldest first. */
    var outbox: seq<Mail>

    ghost predicate Valid()
      reads this, users, activations
    {
      users.Valid() && activations.Valid() && SoundHasher(hasher)
    }

    /** Every live code belongs to a stored user whose account is not active
        yet. The service keeps this; only a store changed behind its back can
        break it. */
    ghost predicate Consistent()
      reads this, users, activations
    {
      forall u :: u in activations.codes ==> u in users.users && !users.users[u].isActive
    }

    /** The ids of the active accounts. */
    ghost function ActiveIds(): set<UserId>
      reads this, users
    {
      set id | id in users.users && users.users[id].isActive
    }

    constructor(users: InMemoryUserRepository, activations: InMemoryActivationCodeRepository, hasher: Hasher)
      requires users.Valid() && activations.Valid() && SoundHasher(hasher)
      ensures Valid()
      ensures this.users == users && this.activations == activations && this.hasher == hasher
      ensures outbox == []
    {
      this.users := users;
      this.activations := activations;
      this.hasher := hasher;
      outbox := [];
    }

    /** The state of the account of `email`. */
    function StatusOf(email: Email): (s: Status)
      requires Valid()
      reads this, users, activations
      ensures s == Unregistered <==> users.GetByEmail(email).None?
      ensures s == Active <==> users.GetByEmail(email).Some? && users.GetByEmail(email).value.id in ActiveIds()
    {
      match users.GetByEmail(email)
      case None => Unregistered
      case Some(u) => if u.isActive then Active else Pending
    }

    /** Registers `email` with `password`. An email already registered gives an
        empty result and changes nothing, so a caller cannot tell which emails
        exist. Otherwise the user is stored inactive with the password hashed
        with `salt`, a code is created for the id `newId` and mailed to
        `email`. `newId` stands for the fresh identifier, `draws` for the
        successive results of the code generator. */
    method Register(email: Email, password: string, salt: string, newId: UserId, now: Time, draws: seq<string>)
      returns (r: Result<Option<User>, AuthError>)
      requires Valid()
      requires newId != ""
      requires forall i :: 0 <= i < |draws| ==> IsCode(draws[i])
      requires !users.ExistsByEmail(email) && newId !in users.users ==> activations.CanDraw(newId, draws)
      modifies this, users, activations
      ensures Valid()
      ensures old(users.ExistsByEmail(email)) ==>
        r == Success(None) && unchanged(users, activations) && outbox == old(outbox)
      ensures !old(users.ExistsByEmail(email)) && newId in old(users.users) ==>
        r == Failure(Repository(DuplicateId)) && unchanged(users, activations) && outbox == old(outbox)
      ensures !old(users.ExistsByEmail(email)) && newId !in old(users.users) ==>
        var u := NewUser(email, hasher.hash(password, salt), newId, now);
        r == Success(Some(u))
        && users.users == old(users.users)[newId := u]
        && users.order == old(users.order) + [newId]
        && newId in activations.codes
        && activations.codes == old(activations.codes)[newId := activations.codes[newId]]
        && activations.codes[newId].code == draws[FirstFree(draws, OthersCodes(old(activations.codeIndex), newId))]
        && IsCode(activations.codes[newId].code)
        && activations.codes[newId].expiresAt == Some(now + CodeTtl)
        && outbox == old(outbox) + [Mail(email, activations.codes[newId].code)]
        && old(StatusOf(email)) == Unregistered && StatusOf(email) == Pending
      ensures old(ActiveIds()) <= ActiveIds()
      ensures old(Consistent()) ==> Consistent()
    {
      if users.ExistsByEmail(email) {
        return Success(None);
      }
      var passwordHash := hasher.hash(password, salt);
      var user := NewUser(email, passwordHash, newId, now);
      var created := users.Create(user);
      if created.Failure? {
        return Failure(Repository(created.error));
      }
      var code := activations.Create(created.value.id, now, draws);
      outbox := outbox + [Mail(email, code.code)];
      r := Success(Some(created.value));
    }

    /** Activates the account that `code` belongs to. An unknown code changes
        nothing; an expired one is deleted; a live one activates its owner and
        is used up. A live code whose owner is gone is kept and reported as
        `UserNotFound`. */
    method ActivateAccount(code: string, now: Time) returns (r: Result<bool, AuthError>)
      requires Valid()
      modifies users, activations
      ensures Valid()
      ensures old(activations.GetByCode(code)).None? ==>
        r == Failure(InvalidActivationCode) && unchanged(users, activations)
      ensures old(activations.GetByCode(code)).Some? ==>
        var c := old(activations.GetByCode(code)).value;
        (IsExpired(c, now) ==>
           r == Failure(ActivationCodeExpired) && unchanged(users)
           && activations.codes == old(activations.codes) - {c.userId})
        && (!IsExpired(c, now) && c.userId in old(users.users) ==>
           r == Success(true)
           && users.users == old(users.users)[c.userId := old(users.users)[c.userId].(isActive := true)]
           && users.order == old(users.order)
           && activations.codes == old(activations.codes) - {c.userId})
        && (!IsExpired(c, now) && c.userId !in old(users.users) ==>
           r == Failure(UserNotFound) && unchanged(users, activations))
      ensures r.Success? ==> r.value && activations.GetByCode(code).None?
      ensures r == Failure(ActivationCodeExpired) ==> activations.GetByCode(code).None?
      ensures old(ActiveIds()) <= ActiveIds()
      ensures old(Consistent()) ==> Consistent() && r != Failure(UserNotFound)
    {
      var found := activations.GetByCode(code);
      if found.None? {
        return Failure(InvalidActivationCode);
      }
      var c := found.value;
      if IsExpired(c, now) {
        var deleted := activations.Delete(c.userId);
        return Failure(ActivationCodeExpired);
      }
      var success := users.ActivateUser(c.userId);
      if success {
        var deleted := activations.Delete(c.userId);
        return Success(true);
      }
      r := Failure(UserNotFound);
    }

    /** Sends a new code to the inactive account of `email`, replacing its
        previous code. An active account gets `false`, no code and no mail. */
    method ResendActivationCode(email: Email, now: Time, draws: seq<string>) returns (r: Result<bool, AuthError>)
      requires Valid()
      requires forall i :: 0 <= i < |draws| ==> IsCode(draws[i])
      requires users.GetByEmail(email).Some? && !users.GetByEmail(email).value.isActive ==>
        activations.CanDraw(users.GetByEmail(email).value.id, draws)
      modifies this, activations
      ensures Valid()
      ensures unchanged(users)
      ensures old(users.GetByEmail(email)).None? ==>
        r == Failure(UserNotFound) && unchanged(activations) && outbox == old(outbox)
      ensures old(users.GetByEmail(email)).Some? && old(users.GetByEmail(email)).value.isActive ==>
        r == Success(false) && unchanged(activations) && outbox == old(outbox)
      ensures old(users.GetByEmail(email)).Some? && !old(users.GetByEmail(email)).value.isActive ==>
        var id := old(users.GetByEmail(email)).value.id;
        r == Success(true)
        && id in activations.codes
        && activations.codes == old(activations.codes)[id := activations.codes[id]]
        && activations.codes[id].code == draws[FirstFree(draws, OthersCodes(old(activations.codeIndex), id))]
        && IsCode(activations.codes[id].code)
        && activations.codes[id].expiresAt == Some(now + CodeTtl)
        && outbox == old(outbox) + [Mail(email, activations.codes[id].code)]
        && (id in old(activations.codes) && old(activations.codes)[id].code != activations.codes[id].code ==>
              activations.GetByCode(old(activations.codes)[id].code).None?)
      ensures old(Consistent()) ==> Consistent()
    {
      var found := users.GetByEmail(email);
      if found.None? {
        return Failure(UserNotFound);
      }
      var user := found.value;
      if user.isActive {
        return Success(false);
      }
      var code := activations.Create(user.id, now, draws);
      outbox := outbox + [Mail(email, code.code)];
      r := Success(true);
    }

    /** Checks `password` for the account of `email`: an unknown email is
        `UserNotFound`; an inactive account or a wrong password is
        `InvalidCredentials`; otherwise the stored user. */
    function Authenticate(email: Email, password: string): (r: Result<User, AuthError>)
      requires Valid()
      reads this, users, activations
      ensures r == Failure(UserNotFound) <==> StatusOf(email) == Unregistered
      ensures StatusOf(email) == Pending ==> r == Failure(InvalidCredentials)
      ensures r.Success? <==>
        StatusOf(email) == Active && hasher.verify(password, users.GetByEmail(email).value.passwordHash)
      ensures r.Success? ==>
        r.value.email == email && r.value.isActive && r.value.id in users.users && users.users[r.value.id] == r.value
      ensures r.Failure? ==> r.error == UserNotFound || r.error == InvalidCredentials
    {
      match users.GetByEmail(email)
      case None => Failure(UserNotFound)
      case Some(u) =>
        if !u.isActive then Failure(InvalidCredentials)
        else if hasher.verify(password, u.passwordHash) then Success(u)
        else Failure(InvalidCredentials)
    }

    /** The password an active account was registered with is accepted. */
    lemma RegisteredPasswordAccepted(email: Email, password: string, salt: string)
      requires Valid()
      requires users.GetByEmail(email).Some?
      requires users.GetByEmail(email).value.isActive
      requires users.GetByEmail(email).value.passwordHash == hasher.hash(password, salt)
      ensures Authenticate(email, password) == Success(users.GetByEmail(email).value)
    {
      assert hasher.verify(password, hasher.hash(password, salt));
    }

    /** Checks the credentials of an HTTP `Authorization` header in the Basic
        scheme: a header that does not parse is `InvalidCredentials`, one that
        does is checked as `Authenticate` checks the pair it carries. */
    function AuthenticateBasic(header: string): (r: Result<User, AuthError>)
      requires Valid()
      reads this, users, activations
      ensures !BasicAuth.HasBasicPrefix(header) ==> r == Failure(InvalidCredentials)
      ensures BasicAuth.ParseCredentials(header).None? ==> r == Failure(InvalidCredentials)
      ensures r.Success? ==> r.value.isActive && r.value.id in users.users && users.users[r.value.id] == r.value
      ensures r.Failure? ==> r.error == UserNotFound || r.error == InvalidCredentials
    {
      match BasicAuth.ParseCredentials(header)
      case None => Failure(InvalidCredentials)
      case Some((email, password)) => Authenticate(email, password)
    }

    /** The header a client builds from an email without a colon is checked
        exactly as the pair itself; the password may hold colons. */
    lemma AuthenticateBasicEncoded(email: Email, password: string)
      requires Valid()
      requires ':' !in email
      ensures AuthenticateBasic(BasicAuth.EncodeCredentials(email, password)) == Authenticate(email, password)
    {
      BasicAuth.ParseEncoded(email, password);
    }

    /** A header that gets through is the encoding of the pair it was checked
        as, possibly followed by a space and more text. */
    lemma AuthenticateBasicAccepts(header: string)
      requires Valid()
      requires AuthenticateBasic(header).Success?
      ensures BasicAuth.ParseCredentials(header).Some?
      ensures var (email, password) := BasicAuth.ParseCredentials(header).value;
        AuthenticateBasic(header) == Authenticate(email, password)
        && |BasicAuth.EncodeCredentials(email, password)| <= |header|
        && header[..|BasicAuth.EncodeCredentials(email, password)|] == BasicAuth.EncodeCredentials(email, password)
    {
      BasicAuth.EncodedParsed(header);
    }

    /** Removes the codes expired at `now` and returns how many. */
    method CleanupExpiredCodes(now: Time) returns (n: nat)
      requires Valid()
      modifies activations
      ensures Valid()
      ensures unchanged(users)
      ensures activations.codes == Unexpired(old(activations.codes), now)
      ensures n == |ExpiredOwners(old(activations.codes), now)|
      ensures old(Consistent()) ==> Consistent()
    {
      n := activations.CleanupExpired(now);
    }
  }
}
