# Authentication token lifecycle, as a verified Dafny model

This project models the core of a TypeScript authentication backend:
registration, login, session tokens kept in Redis, and password-reset tokens kept in the database.
It is written as one sequential state machine. The state has four parts:

- the Redis key space: string keys map to a string or a set of strings;
- the user table: id, username, email, passwordHash and lastLoginAt, unique on id, username and email;
- the password-reset-token table, keyed by token digest;
- an outbox of sent emails.

Each service operation is a pure function from the state to a `Step`, which holds the result (a value or one of the four error kinds) and the next state.

Some inputs come from outside the program, and the model takes them as parameters:

- the random raw token (64 lower-case hex characters, from `randomBytes(32).toString('hex')`);
- the id the database generates for a new user;
- the clock (`now`, in milliseconds);
- the hash functions: SHA-256 in hex, and argon2's `hash`, `verify` and `needsRehash`, as function values in `Crypto.Hasher`;
- the configured reset-token lifetime. `src/core/constants.ts` is not part of this model, so this lifetime is a parameter.

Modules follow the source files:

| module | source |
|---|---|
| `Errors` | src/core/errors.ts |
| `Crypto` | the argon2 and SHA-256 collaborators |
| `Redis` | the Redis commands used |
| `UserRepo` | src/users/repo.ts |
| `AuthRepo` | src/auth/repo.ts |
| `UserService` | src/users/service.ts |
| `AuthService` | src/auth/service.ts |
| `AuthProperties` | lemmas that relate several operations |

The service functions follow the code as written, including its defects.
Each defect is stated as a lemma.
For the three listed under Findings, a corrected variant is defined next to the as-written one, and the intended property is proved about that variant.

## Model

| member | source | states |
|---|---|---|
| UserRepo.FindUnique | src/users/repo.ts:51-61 | a lookup returns a row of the table matching the key, and returns null exactly when no row matches |
| UserRepo.FindUniqueFindsTheRow | src/users/repo.ts:51-61 | on a table whose id, username and email columns are unique, the lookup returns the one matching row |
| UserRepo.GetUserByUsername | src/users/repo.ts:51-53 | returns a row with that username; null exactly when no row has it |
| UserRepo.GetUserById | src/users/repo.ts:55-57 | returns a row with that id; null exactly when no row has it |
| UserRepo.GetUserByEmail | src/users/repo.ts:59-61 | returns a row with that email; null exactly when no row has it |
| UserRepo.CreateUser | src/users/repo.ts:11-23 | the new row stores argon2's hash of the password (UserRepo.HashPassword, the uninterpreted `hashPassword`), keeps the table unique, has `lastLoginAt` set to the given time, is found afterwards by id, username and email; all earlier rows remain, and it is the only row added |
| UserRepo.ApplyUpdate | src/users/repo.ts:36-48 | a supplied field overwrites and an absent field stays; the id never changes; `lastLogin` writes the `lastLoginAt` column; the hash changes only for a non-empty password |
| UserRepo.UpdateUser | src/users/repo.ts:32-49 | only the row with that id changes, to the partial update of itself; the length and every other row stay; uniqueness holds; the returned row is the updated one |
| AuthRepo.AuthenticationTokenKeyInjective | src/auth/repo.ts:26-30 | the digest-key builder AuthRepo.AuthenticationTokenKey ("auth-tokens:" + digest) is injective: two digest keys are equal exactly when their digests are equal |
| AuthRepo.TokenOwnerKeyInjective | src/auth/repo.ts:32-34 | the owner-key builder AuthRepo.TokenOwnerKey ("auth-token-owners:" + user id) is injective: two owner keys are equal exactly when their user ids are equal |
| AuthRepo.KeyRangesDisjoint | src/auth/repo.ts:26-34 | no digest key equals an owner key, because "auth-tokens:" and "auth-token-owners:" differ at the eleventh character |
| AuthRepo.HashAuthenticationToken | src/auth/repo.ts:36-38 | a session-token digest is 64 hex characters |
| AuthRepo.HashPasswordResetToken | src/auth/repo.ts:81-83 | a reset-token digest is 64 hex characters, and is the same function as the session-token digest |
| AuthRepo.GetUserIdFromAuthenticationToken | src/auth/repo.ts:40-48 | returns the string stored at the digest key of the token, or null when that key is absent |
| AuthRepo.CreateAuthenticationToken | src/auth/repo.ts:7-20 | afterwards the token resolves to the user id and its digest joins the user's owner set; every other key is unchanged and the store stays well typed |
| AuthRepo.RemoveAuthenticationToken | src/auth/repo.ts:50-59 | afterwards the token resolves to nothing; the digest leaves this user's set only; every other key is unchanged |
| AuthRepo.RemoveAuthenticationTokenIdempotent | src/auth/repo.ts:50-59 | revoking the same token a second time leaves the store as after the first time |
| AuthRepo.RemoveIgnoresOwnership | src/auth/repo.ts:50-59 | revoking with the wrong user id still deletes the mapping, and the real owner's set keeps listing the digest |
| AuthRepo.IndexKeys | src/auth/repo.ts:66-72 | the loop builds exactly the keys "auth-tokens:" followed by the decimal index 0 .. n-1 |
| AuthRepo.RemoveAllAuthenticationTokens | src/auth/repo.ts:61-75 | the owner set and the index-derived keys are deleted; every other key is unchanged |
| AuthRepo.RemoveAllKeepsEverySession | src/auth/repo.ts:61-75 | after the sweep as written, every token resolves exactly as before, so no session is revoked |
| AuthRepo.RemoveAllAuthenticationTokensIntended | src/auth/repo.ts:61-75 | the sweep as intended deletes the digest key of every listed digest and the owner set, and nothing else |
| AuthRepo.RemoveAllIntendedRevokesListedSessions | src/auth/repo.ts:61-75 | after the intended sweep, a token whose digest the set listed resolves to nothing; any other token resolves as before |
| AuthRepo.GetPasswordResetToken | src/auth/repo.ts:115-121 | returns the row stored under that digest, or null when there is none |
| AuthRepo.CreatePasswordResetToken | src/auth/repo.ts:89-113 | the digest of the raw token then looks up the row {userId, tokenHash, lastLoginAt snapshot, expiresAt = now + lifetime in seconds}; exactly one key is added and no row changes or disappears |
| UserService.GetUserById | src/users/service.ts:5-13 | returns the row with that id when one exists, so its id equals the argument; otherwise a ResourceNotFoundError whose message contains the id; the table is only read |
| AuthService.VerifyAuthenticationToken | src/auth/service.ts:104-117 | returns the user id stored for the token's digest, or UnauthenticatedError when there is none; the state never changes |
| AuthService.RegisterUser | src/auth/service.ts:28-54 | a taken email gives the email message even when the username is also taken; a taken username gives the username message; either failure changes nothing; on success the new user is found by id, email and username, and its lastLoginAt is `now`; it is the only row added; the returned token verifies to its id; the digest joins the user's owner set; every other Redis key keeps its value; uniqueness holds |
| AuthService.FindLoginUser | src/auth/service.ts:67-78 | an identifier containing '@' is looked up by email, any other identifier by username; null exactly when no such row exists |
| AuthService.CompleteLogin | src/auth/service.ts:91-101 | the returned user is the row before the update; the issued token verifies to that user's id and its digest joins the user's owner set, with every other Redis key unchanged; the row's lastLoginAt becomes `now`; the hash is renewed only when argon2 asks for a rehash and the password is non-empty; other rows, reset tokens and the outbox are unchanged |
| AuthService.LoginUser | src/auth/service.ts:66-102 | an unknown identifier gives InvalidInputError("Invalid credentials provided."); a wrong password or a failing verify gives UnexpectedError; both leave the state unchanged; success happens exactly when verify matches |
| AuthService.LoginUserIntended | src/auth/service.ts:80-89 | the corrected login: InvalidInputError, always with the invalid-credentials message, exactly when the identifier is unknown or the password mismatches; a failing argon2 verify gives UnexpectedError with the login-failed message and no change; success exactly when argon2 reports a match, with the same state as the code as written |
| AuthService.RemoveAuthenticationToken | src/auth/service.ts:119-124 | always succeeds; afterwards the token fails to verify; the digest leaves the given user's set; no Redis key other than the digest key and that set changes; tables and outbox are unchanged |
| AuthService.SendPasswordResetRequest | src/auth/service.ts:130-164 | an unknown email changes nothing and raises nothing; a known email adds exactly one reset row (that user's id, a snapshot of their lastLoginAt, the expiry) and one 'reset-password' email to that user carrying the raw token |
| AuthService.ResetPassword | src/auth/service.ts:172-197 | succeeds exactly when a user has the email, a row has the token's digest, and that user's lastLoginAt is not after the row's snapshot; failure is InvalidInputError with no state change; success changes only that user's password hash, and only for a non-empty password |
| AuthService.ResetPasswordIntended | src/auth/service.ts:172-197 | the corrected reset succeeds exactly when a row has the token's digest, belongs to the user with that email, has not expired at `now`, and the user has not logged in after the row's `lastLoginAt` snapshot; a success rehashes that user's password when the new one is non-empty, leaves every other row alone and deletes the reset row; a failure changes nothing |
| AuthProperties.LoginMismatchReportsUnexpected | src/auth/service.ts:80-89 | a wrong password for a known identifier gives UnexpectedError, a response different from the one for an unknown identifier |
| AuthProperties.LoginIntendedHidesWhichFieldFailed | src/auth/service.ts:76-89 | under the corrected login, a wrong password and an unknown identifier give identical responses |
| AuthProperties.RegisterThenLogin | src/auth/service.ts:28-102 | after registering, logging in by email with the same password returns the new user |
| AuthProperties.LogoutIdempotent | src/auth/service.ts:119-124 | logging out the same token twice leaves the state as after logging out once |
| AuthProperties.LoginVoidsPendingReset | src/auth/service.ts:134-194 | after a reset request, a login by that user at a time after their previous lastLoginAt makes the emailed token fail with InvalidInputError |
| AuthProperties.ResetSucceedsAgain | src/auth/service.ts:172-196 | the reset row is not consumed, so a successful reset succeeds again with the same token |
| AuthProperties.ResetIgnoresExpiry | src/auth/service.ts:172-196 | changing a row's expiresAt never changes the outcome of a reset |
| AuthProperties.ResetNotBoundToTokenOwner | src/auth/service.ts:134-196 | a token requested for one user resets the password of another user whose email is supplied, when that user has not logged in after the snapshot |
| AuthProperties.ResetThenLogin | src/auth/service.ts:172-196 | after a successful reset, logging in by email with the new password succeeds |
| AuthProperties.ResetWithEmptyPasswordKeepsHash | src/users/repo.ts:40-42 | a successful reset with an empty new password leaves the user table unchanged |
| AuthProperties.ResetIntendedRefusesReplay | src/auth/service.ts:172-196 | under the corrected reset, a second use of a successfully used token fails |

## Left out

- Email delivery: `src/core/emails.ts` transport and configuration are not modelled. A send appends to the outbox and never fails, so a failing send does not reach the caller.
- Action URL: the `path.join` and `URLSearchParams` construction is not modelled. `path.join` would also collapse the "//" of an absolute APP_URL. The outbox keeps only the email and token the URL carries.
- Email locals from outside libraries: the user-agent fields and the `formatDuration` text are not modelled. Only the username is kept.
- Hashing internals: SHA-256 and argon2 are uninterpreted functions. argon2 salts each hash at random; the model's hash is a deterministic function.
- Concurrency: each operation is atomic and operations run one after another. Races between issuing and revoking all tokens are not modelled. Within login, the token is issued before lastLoginAt is stamped, but no intermediate step can fail here, so that order has no visible effect.
- UserRepo.CreateUser: requires the id, username and email to be free. The database would reject a duplicate with a unique-constraint exception, which the model does not represent. RegisterUser checks the email and username itself; the freshness of the generated id is RegisterUser's own precondition, standing for the randomness of the id generator.
- UserRepo.UpdateUser: requires the row to exist and a new username or email to be free. The database's record-not-found and unique-constraint exceptions are not represented. Every caller in the service meets this requirement.
- AuthRepo.CreateAuthenticationToken: requires the store to be well typed: digest keys hold strings and owner keys hold sets. Redis would answer WRONGTYPE otherwise. Every operation keeps the store well typed.
- AuthRepo.CreatePasswordResetToken: requires the digest of the fresh random token to be absent from the table. This stands for the randomness of 32 bytes; a collision would hit the unique `tokenHash` column.
- AuthRepo.RemoveAllKeepsEverySession: assumes the user has fewer than 10^63 sessions. Beyond that, an index string could reach 64 characters.
- lastLoginAt of a new user: the schema is not part of this model. CreateUser sets the column to the `now` it is given, and RegisterUser passes its own `now`.
- Time: dates are integers in milliseconds. `setSeconds(getSeconds() + n)` is modelled as adding n * 1000.
- Database collation: a case-insensitive email column could make the `existingUser.email === input.email` test in resetPassword meaningful. In this model it always holds, because the lookup was by that exact email.

## Findings

| source | as written | input that shows it | evidently intended | confidence | as-written member | corrected member |
|---|---|---|---|---|---|---|
| src/auth/repo.ts:68-74 | `for...in` over the SMEMBERS array yields its indices, so the DEL targets "auth-tokens:0" .. "auth-tokens:n-1" and the owner set | a user with one live session: the sweep deletes "auth-tokens:0" and the owner set, and the session's own digest key survives, so the token still verifies | iterate the members and delete the digest key of each | high, not executed | AuthRepo.RemoveAllKeepsEverySession | AuthRepo.RemoveAllIntendedRevokesListedSessions |
| src/auth/service.ts:80-89 | the InvalidInputError for a wrong password is thrown inside the `try`, and the `catch` turns it into UnexpectedError | a known username with a wrong password gets "Couldn't login user. Please try again." while an unknown one gets "Invalid credentials provided." | a mismatch gives the same InvalidInputError as an unknown identifier | high, not executed | AuthProperties.LoginMismatchReportsUnexpected | AuthProperties.LoginIntendedHidesWhichFieldFailed |
| src/auth/service.ts:172-196 | the reset row's userId is never compared with the user found by email | user A requests a reset; the token is redeemed with user B's email, and B's lastLoginAt is not after A's; B's password changes | the row must belong to the user whose email is supplied | high, not executed | AuthProperties.ResetNotBoundToTokenOwner | AuthService.ResetPasswordIntended |

The corrected reset also checks expiry at `now` and deletes the row on success, so a token cannot be used twice.
The rest of the model keeps the code's behaviour as written.
