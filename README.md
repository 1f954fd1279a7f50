# simple_auth: a Dafny model of the account core

This project models the account core of simple_auth, a small authentication service.
Users register with an email and a password. The account stays inactive until the user sends back a four-digit activation code, which was mailed to them and is valid for one minute. An active user then logs in with the password, either directly or through an HTTP `Authorization: Basic` header.

The model follows the source's structure:

- `Models` (`models.dfy`): the `User` and `ActivationCode` records, their construction defaults (an account starts inactive; a code expires 60 seconds after creation) and the strict expiry test.
- `UserRepositories` (`user_repository.dfy`): the in-memory user store, as a class with three fields:
  - the users dictionary;
  - the email index;
  - the dictionary's insertion order, which the paginated listing exposes.
  Its invariant says the email index is the exact inverse of the users' emails.
- `ActivationCodeRepositories` (`activation_code_repository.dfy`): the in-memory code store, as a class with the codes dictionary and the code index.
  - Its invariant says the index is the exact inverse of the codes: one live code per user, and no two users holding the same value.
  - The code generator's retry loop and the two-pass expiry sweep are modelled as loops.
- `Services` (`user_service.dfy`): the `UserService` class, which holds both stores, the password hasher and the record of the activation mails sent.
  - Registration, activation, resending a code and the sweep are methods.
  - The credential checks are functions of the store state.
- `Codes` (`codes.dfy`): four-digit codes. There are exactly ten thousand of them, so a redraw loop can only stop while fewer than ten thousand are taken.
- `Base64` (`base64.dfy`), `Utf8` (`utf8.dfy`) and `BasicAuth` (`basic_auth.dfy`): the Basic header.
  - The header is the prefix `Basic `, then the Base64 encoding (section 4 of RFC 4648) of the UTF-8 octets (RFC 3629) of `user:password`.
  - The pair is split at the first colon, as section 2 of RFC 7617 says.
  - Both codecs are proved to round-trip in both directions.
- `Scenarios` (`scenarios.dfy`): client runs of the service, each stated for every service state that meets its requirements:
  - register, activate within the minute, log in;
  - register, activate too late, fail to log in;
  - an unknown code on a fresh service;
  - a repeated registration with another password;
  - two sweeps in a row.

Time is an integer number of seconds on one UTC axis, passed in as `now`.
The sources of randomness are parameters:

- the fresh user id is `newId`;
- the successive outputs of the code generator are the sequence `draws`.

bcrypt is a `Hasher` value, a pair of functions. The service's invariant requires it to accept every password against a hash built from that password.

The activation-code store's `create` draws codes until one is free, with no bound on attempts. The model follows that code. The PostgreSQL store bounds the retry at ten attempts (src/persistances/repositories/implementations/postgresql_activation_code_repository.py:97-112); the in-memory store has no bound.

## Model

| member | source | states |
|---|---|---|
| Models.NewUser | src/services/models.py:13-21 | a new user carries the given email, hash, id and creation time, and starts inactive |
| Models.NewActivationCode | src/services/models.py:24-36 | without an expiry, the code expires `createdAt + 60`; a supplied expiry is kept unchanged |
| Models.DefaultExpiryWindow | src/services/models.py:33-36 | a default code is expired at `now` exactly when `now > createdAt + 60`, so it is still valid at the last instant |
| Models.ValidAtExpiryInstant | src/services/models.py:51 | a code is not expired at the instant of its expiry: the comparison is strict |
| Models.NoExpiryNeverExpires | src/services/models.py:41-42 | a code without expiry is never expired |
| Models.ExpiryIsMonotone | src/services/models.py:51 | once expired, a code stays expired at every later instant |
| Codes.ValueOfCodeOf | src/persistances/repositories/implementations/memory/activation_code_repository.py:23 | reading back the four-digit spelling of `n < 10000` gives `n` |
| Codes.CodeOfValueOf | src/persistances/repositories/implementations/memory/activation_code_repository.py:23 | every four-digit code is the spelling of the number it reads as |
| Codes.AllCodes | src/persistances/repositories/implementations/memory/activation_code_repository.py:23 | the four-digit codes form a set of exactly 10000 strings |
| Codes.FreeCodeExistsIff | src/persistances/repositories/implementations/memory/activation_code_repository.py:26-27 | a set of codes leaves some code free exactly when it holds fewer than 10000 |
| Base64.SextetsChars | src/services/user_service.py:112 | reading back the characters of any six-bit values gives the values |
| Base64.CharsSextets | src/services/user_service.py:112 | a string of alphabet characters is the spelling of the values read from it |
| Base64.DecodeEncodeSextets | src/services/user_service.py:112 | joining the padded groups of any octet string gives the octets back |
| Base64.EncodeDecodeSextets | src/services/user_service.py:112 | values that decode are exactly the padded groups of the octets they decode to |
| Base64.DecodeEncode | src/services/user_service.py:112 | decoding the encoding of any octets gives them back |
| Base64.EncodeDecode | src/services/user_service.py:112 | a string that decodes is the encoding of its octets, so every octet string has exactly one accepted encoding |
| Base64.CharsHaveNoSpace | src/services/user_service.py:111 | an encoding holds no space, so it survives the header's split at spaces |
| Utf8.DecodeEncode | src/services/user_service.py:112-114 | decoding the UTF-8 octets of any string gives the string back |
| Utf8.EncodeDecode | src/services/user_service.py:112-114 | octets that decode are exactly the encoding of the decoded string |
| BasicAuth.UpToSpace | src/services/user_service.py:111 | the token is the longest prefix without a space, and it stops at a space or at the end |
| BasicAuth.SplitAtFirstColon | src/services/user_service.py:115 | no result exactly when there is no colon; otherwise the user part holds no colon and `user + ":" + password` is the input |
| BasicAuth.SplitJoined | src/services/user_service.py:115 | splitting `user:password` with a colon-free user gives back that user and the whole password, colons included |
| BasicAuth.ParseCredentials | src/services/user_service.py:106-115 | a header without the `Basic ` prefix gives no pair; a pair it gives has a colon-free user |
| BasicAuth.ParseEncoded | src/services/user_service.py:106-115 | the header built from a colon-free user and any password parses back to that pair |
| BasicAuth.EncodedParsed | src/services/user_service.py:106-115 | a header that parses starts with the encoding of its pair, followed by nothing or by a space |
| UserRepositories.UpdatedIndex | src/persistances/repositories/implementations/memory/user_repository.py:42-44 | with an unchanged email the index is untouched; otherwise the new email maps to the id, the previous email is gone, and every other entry stays with the same id |
| UserRepositories.UpdateKeepsInverseIff | src/persistances/repositories/implementations/memory/user_repository.py:35-47 | replacing a record keeps the index inverse exactly when no other user holds the new email |
| UserRepositories.UpdateMayBreakIndex | src/persistances/repositories/implementations/memory/user_repository.py:42-44 | moving user 2 onto user 1's email breaks the index: the email now maps to user 2 and user 1 can no longer be found by it |
| UserRepositories.SliceFromEnd | src/persistances/repositories/implementations/memory/user_repository.py:61 | a negative bound `-k` counts from the end: `s[-k:]` is the last `k` elements and `s[:-k]` all but them, both cut at the length |
| UserRepositories.SlicePage | src/persistances/repositories/implementations/memory/user_repository.py:58-61 | with a non-negative offset and limit, a page is the run of positions `offset` to `offset + limit`, cut at the end, and has at most `limit` users |
| UserRepositories.SlicesTile | src/persistances/repositories/implementations/memory/user_repository.py:58-61 | consecutive pages concatenate to the combined page, so paging skips and repeats nothing |
| UserRepositories.Without | src/persistances/repositories/implementations/memory/user_repository.py:54 | deleting a key removes exactly that id from the insertion order and keeps the ids distinct; an absent id leaves the order as it was |
| UserRepositories.WithoutAt | src/persistances/repositories/implementations/memory/user_repository.py:54 | in an order without repeats, deleting the id at position `k` closes the gap: the ids before and after it keep their order |
| UserRepositories.InMemoryUserRepository.constructor | src/persistances/repositories/implementations/memory/user_repository.py:10-12 | a new store is empty and valid |
| UserRepositories.InMemoryUserRepository.GetById | src/persistances/repositories/implementations/memory/user_repository.py:26-28 | returns a user exactly when one is stored under the id, and that user carries the id |
| UserRepositories.InMemoryUserRepository.GetByEmail | src/persistances/repositories/implementations/memory/user_repository.py:30-33 | a returned user is stored and has that email; no user exactly when no stored user with a non-empty id has that email |
| UserRepositories.InMemoryUserRepository.ExistsByEmail | src/persistances/repositories/implementations/memory/user_repository.py:63-65 | true exactly when some stored user has that email |
| UserRepositories.InMemoryUserRepository.Create | src/persistances/repositories/implementations/memory/user_repository.py:14-24 | a taken id, then a taken email, fails with nothing changed; otherwise the user is stored, indexed and appended to the order, and is found by id, by email and by existence |
| UserRepositories.InMemoryUserRepository.Update | src/persistances/repositories/implementations/memory/user_repository.py:35-47 | an unknown id fails with nothing changed; otherwise the record is replaced and the index entry moved; the store stays valid exactly when the new email was not held by another user |
| UserRepositories.InMemoryUserRepository.UpdateChecked | src/persistances/repositories/implementations/memory/user_repository.py:35-47 | as `Update`, but an email held by another user fails with nothing changed, so the store always stays valid |
| UserRepositories.InMemoryUserRepository.Delete | src/persistances/repositories/implementations/memory/user_repository.py:49-56 | true exactly when the id was stored; then the user, its index entry and its place in the order are removed; false changes nothing |
| UserRepositories.InMemoryUserRepository.ActivateUser | src/persistances/repositories/implementations/memory/user_repository.py:67-75 | false for an unknown id with nothing changed; otherwise true, with only `isActive` set and the index and order untouched |
| UserRepositories.InMemoryUserRepository.AllUsers | src/persistances/repositories/implementations/memory/user_repository.py:60 | the stored users in insertion order, one per id in the order |
| UserRepositories.InMemoryUserRepository.ListAllDefault | src/persistances/repositories/implementations/memory/user_repository.py:58-61 | with the default `limit=100, offset=0`, the first 100 users in insertion order, or all of them when there are fewer |
| UserRepositories.InMemoryUserRepository.AllUsersListsEachOnce | src/persistances/repositories/implementations/memory/user_repository.py:60 | every stored user is listed, and no id is listed twice |
| UserRepositories.InMemoryUserRepository.ListAll | src/persistances/repositories/implementations/memory/user_repository.py:58-61 | every listed user is stored; with a non-negative offset and limit, the page is positions `offset` to `offset + limit` of the insertion order, at most `limit` users |
| ActivationCodeRepositories.RemoveKeepsInverse | src/persistances/repositories/implementations/memory/activation_code_repository.py:47-54 | removing a user's code from both maps keeps them inverse and leaves exactly the other users' codes |
| ActivationCodeRepositories.FirstFree | src/persistances/repositories/implementations/memory/activation_code_repository.py:23-27 | the first draw that is not taken: every earlier draw is taken |
| ActivationCodeRepositories.CleanupPartition | src/persistances/repositories/implementations/memory/activation_code_repository.py:56-67 | the kept and removed owners partition the codes, and their counts add up |
| ActivationCodeRepositories.CleanupAgainRemovesNothing | src/persistances/repositories/implementations/memory/activation_code_repository.py:56-67 | after a sweep at `now`, a second sweep at `now` finds nothing and keeps everything |
| ActivationCodeRepositories.CleanupLaterRemovesMore | src/persistances/repositories/implementations/memory/activation_code_repository.py:56-67 | a sweep at a later instant removes every code an earlier one would |
| ActivationCodeRepositories.InMemoryActivationCodeRepository.constructor | src/persistances/repositories/implementations/memory/activation_code_repository.py:13-15 | a new store is empty and valid |
| ActivationCodeRepositories.InMemoryActivationCodeRepository.FreeCodeExistsIffRoom | src/persistances/repositories/implementations/memory/activation_code_repository.py:26-27 | a code free for a user exists exactly while other users hold fewer than 10000 codes |
| ActivationCodeRepositories.InMemoryActivationCodeRepository.GetByUserId | src/persistances/repositories/implementations/memory/activation_code_repository.py:36-38 | returns a code exactly when the user holds one, and it is that user's |
| ActivationCodeRepositories.InMemoryActivationCodeRepository.GetByCode | src/persistances/repositories/implementations/memory/activation_code_repository.py:40-45 | a returned code has that value and is live; no code exactly when no user with a non-empty id holds that value |
| ActivationCodeRepositories.InMemoryActivationCodeRepository.Delete | src/persistances/repositories/implementations/memory/activation_code_repository.py:47-54 | true exactly when the user held a code; then the code and its index entry are gone; false changes nothing; afterwards the user holds no code |
| ActivationCodeRepositories.InMemoryActivationCodeRepository.Create | src/persistances/repositories/implementations/memory/activation_code_repository.py:17-34 | the old code is replaced by the first draw no other user holds, expiring at `now + 60`; it is four digits and unique; the old value no longer resolves; the new code is found by user and by value |
| ActivationCodeRepositories.UnexpiredIsRemoval | src/persistances/repositories/implementations/memory/activation_code_repository.py:56-67 | the codes kept by a sweep are the codes minus exactly the owners of expired ones |
| ActivationCodeRepositories.InMemoryActivationCodeRepository.DrawFree | src/persistances/repositories/implementations/memory/activation_code_repository.py:23-27 | the retry loop stops at the first draw that is not in the code index, and returns that draw |
| ActivationCodeRepositories.InMemoryActivationCodeRepository.Insert | src/persistances/repositories/implementations/memory/activation_code_repository.py:31-32 | storing a code for a user without one, under a free value, adds it to both maps, keeps them inverse, and makes it found by user and by value |
| ActivationCodeRepositories.InMemoryActivationCodeRepository.DeleteAll | src/persistances/repositories/implementations/memory/activation_code_repository.py:64-65 | deleting a list of owners one by one leaves exactly the codes of the owners not listed |
| ActivationCodeRepositories.InMemoryActivationCodeRepository.CollectExpired | src/persistances/repositories/implementations/memory/activation_code_repository.py:58-62 | lists exactly the owners of the codes expired at `now`, each once |
| ActivationCodeRepositories.InMemoryActivationCodeRepository.CleanupExpired | src/persistances/repositories/implementations/memory/activation_code_repository.py:56-67 | afterwards exactly the unexpired codes remain, and the result is the number of expired owners |
| Services.UserService.constructor | src/services/user_service.py:23-31 | the service holds the two stores and the hasher, and has sent no mail |
| Services.UserService.StatusOf | src/services/user_service.py:77-82 | an account is unregistered exactly when its email finds no user, and active exactly when it finds an active one |
| Services.UserService.Register | src/services/user_service.py:33-52 | a registered email gives an empty result with no change and no mail; otherwise one inactive user with the hashed password, one fresh code from the first free draw, expiring at `now + 60`, and one mail (email, code); the new id comes last in the insertion order; the draws are used only in that case; the account goes from unregistered to pending; active accounts stay active; the stores stay consistent |
| Services.UserService.ActivateAccount | src/services/user_service.py:54-73 | an unknown code fails with nothing changed; an expired code is deleted and fails; a live code activates its owner, leaves the insertion order alone and is used up, so the same code then fails; a missing owner fails with the code kept; on consistent stores that last case never happens |
| Services.UserService.ResendActivationCode | src/services/user_service.py:75-87 | an unknown email fails; an active account gets false with no code and no mail, and its draws are never needed; otherwise the code is replaced by the first free draw, one mail is sent, and the old value no longer resolves |
| Services.UserService.Authenticate | src/services/user_service.py:89-102 | `UserNotFound` exactly for an unregistered email; a pending account is `InvalidCredentials` whatever the password; success exactly for an active account whose hash accepts the password, returning that stored user |
| Services.UserService.RegisteredPasswordAccepted | src/services/user_service.py:40-42 | an active account accepts the password its hash was built from |
| Services.UserService.AuthenticateBasic | src/services/user_service.py:104-119 | a missing prefix or an unparsable header is `InvalidCredentials`; a success is an active stored user; the only failures are `UserNotFound` and `InvalidCredentials` |
| Services.UserService.AuthenticateBasicEncoded | src/services/user_service.py:104-119 | for a colon-free email, the header built from the pair is checked exactly as `Authenticate` checks the pair, even when the password holds colons |
| Services.UserService.AuthenticateBasicAccepts | src/services/user_service.py:104-119 | an accepted header starts with the encoding of the pair it was checked as |
| Services.UserService.CleanupExpiredCodes | src/services/user_service.py:125-127 | exactly the unexpired codes remain, the result counts the removed ones, and users are untouched |
| Scenarios.PlainHasher | src/services/user_service.py:40-42 | a hasher that accepts each password against its own hash and rejects another password |
| Scenarios.RegisterActivateLogin | src/services/user_service.py:33-102 | for any fresh email and id, registering and then activating within the minute with the mailed code succeeds, sends exactly one mail, uses the code up, and the registered password logs in as the now active user |
| Scenarios.RegisterActivateLate | src/services/user_service.py:54-102 | for any fresh email and id, activating more than 60 seconds after registration fails as expired, deletes the code so it no longer resolves, and login is then `InvalidCredentials` |
| Scenarios.ActivateUnknownCode | src/services/user_service.py:57-59 | on a fresh service, `0000`, never issued, is an invalid activation code |
| Scenarios.RegisterTwice | src/services/user_service.py:33-52 | after a first registration and activation, registering the same email again is an empty result that sends no mail; afterwards the first password still logs in as before, and another password is rejected as `InvalidCredentials` |
| Scenarios.CleanupTwice | src/persistances/repositories/implementations/memory/activation_code_repository.py:56-67 | on any store, a sweep removes the expired codes and counts them; a second sweep at the same instant removes none |

## Left out

- The PostgreSQL stores, the connection pool and its lock, the SMTP mailer, the HTTP routes, dependency wiring and settings are not part of this model. They are I/O, concurrency and configuration.
  - The mailer is the `outbox` sequence of (address, code) pairs.
  - The mailer's success flag is ignored by the source.
  - The 15-minute setting is never read by the logic.
- bcrypt is abstract: the salt is a parameter, and the only property assumed is that a hash accepts the password it was built from. Truncation of long passwords and the cost factor are not modelled.
- The clock is the `now` parameter, in whole seconds. Expiry decided within a fraction of a second is not distinguished.
- `uuid4` is the `newId` parameter. `Services.UserService.Register` requires it to be non-empty, as a UUID string always is.
- `random.choices` is the `draws` sequence.
- `ActivationCodeRepositories.InMemoryActivationCodeRepository.Create` requires some draw to be a code no other user holds. With 10000 codes taken, the source's loop never ends; `FreeCodeExistsIffRoom` states this bound, and the model does not run that case.
- BasicAuth.ParseCredentials decodes Base64 strictly, as section 4 of RFC 4648 describes, and so does `Services.UserService.AuthenticateBasic`, which relies on it. Python's default `b64decode` also accepts some tokens the model rejects, which the source then checks as credentials instead of failing:
  - it drops characters outside the alphabet;
  - it skips a `=` where no padding can start, in the first or second position of a group, so `=QUJD` decodes to `ABC`;
  - it skips a single `=` in the third position of a group when more data follows, so `QQ=QQ==` decodes to three octets;
  - it ignores non-zero leftover bits;
  - it ignores text after the padding.
- Services.UserService.AuthenticateBasic: for the same reason, a header the model refuses as `InvalidCredentials` may be checked as a pair by the source.
- Records are values. In the source, `activate_user` flips `is_active` on the very object the store holds, and callers holding that object see the change. The model replaces the stored record instead, so that sharing is not modelled. Likewise, setting `expires_at` on a code the store handed out changes the stored code in the source; the model's stored codes always expire 60 seconds after creation, and a later expiry is reached only through `now`.
- `get_user_by_email` (src/services/user_service.py:121-123) only forwards to the store's `GetByEmail` and has no member of its own.
- The abstract store interfaces and the exception classes are not modelled separately. The service's failures are the `AuthError` datatype. A store failure that `register` lets through is `Repository(DuplicateId)`, which happens only on an id collision.

## Findings

| source | as written | input that shows it | evidently intended | confidence | as-written member | corrected member |
|---|---|---|---|---|---|---|
| src/persistances/repositories/implementations/memory/user_repository.py:42-44 | `update` moves the index entry to the new email without checking whether another user holds it | users `1` with `a@example.com` and `2` with `b@example.com`; update user `2` to `a@example.com`. The index then maps `a@example.com` to `2`, and user `1` can no longer be found by email | emails stay unique, as `create` enforces at lines 19-20: an update to an email held by another user is refused | not executed; medium | UserRepositories.UpdateMayBreakIndex | UserRepositories.InMemoryUserRepository.UpdateChecked |

`UserRepositories.InMemoryUserRepository.Update` models the code as written: the store stays valid exactly when the new email is free. `UserRepositories.InMemoryUserRepository.ActivateUser` goes through `UpdateChecked`. It never changes an email, so its behaviour is the same either way.
