/** The authentication service as a sequential state machine. Each
    operation takes the whole state (Redis, the user table, the reset-token
    table, the outbox of sent emails) and returns its result together with
    the next state. Randomness (raw tokens, new user ids) and the clock
    (`now`, in milliseconds) are parameters. */
module AuthService {
  import opened Errors
  import Crypto
  import Redis
  import UserRepo
  import AuthRepo

  const EmailTakenMessage := "User with that email already exists."
  const UsernameTakenMessage := "User with that username already exists."
  const InvalidCredentialsMessage := "Invalid credentials provided."
  const LoginFailedMessage := "Couldn't login user. Please try again."
  const InvalidTokenMessage := "Invalid authentication token provided."
  const InvalidResetMessage := "Invalid password reset token or email provided."
  const ResetPasswordTemplate := "reset-password"

  /** A sent email: template, recipient, and the locals the model keeps
      (the email and token carried by the action URL, the display name). */
  datatype Email = Email(template: string, to: string, email: string, resetToken: string, username: string)

  /** The collaborators and the configured reset-token lifetime in seconds. */
  datatype Config = Config(hasher: Crypto.Hasher, passwordResetTokenExpiresIn: nat)

  datatype State = State(
    store: Redis.Store,
    users: UserRepo.Table,
    resetTokens: AuthRepo.ResetTable,
    outbox: seq<Email>)

  /** What every operation keeps: Redis well typed, user columns unique,
      reset rows stored under their own digest. */
  ghost predicate Inv(s: State) {
    && AuthRepo.WellTyped(s.store)
    && UserRepo.Unique(s.users)
    && AuthRepo.KeyedByHash(s.resetTokens)
  }

  /** The user and the raw session token handed back by register and login. */
  datatype Session = Session(user: UserRepo.User, authenticationToken: string)

  datatype Step<T> = Step(result: Result<T>, state: State)

  ghost predicate EmailTaken(users: UserRepo.Table, email: string) {
    exists u :: u in users && u.email == email
  }

  ghost predicate UsernameTaken(users: UserRepo.Table, username: string) {
    exists u :: u in users && u.username == username
  }

  // ---------------------------------------------------------------------
  // Sessions

  /** `verifyAuthenticationToken`: the user id the token's digest maps to. */
  function VerifyAuthenticationToken(cfg: Config, s: State, token: string): (r: Step<string>)
    requires Inv(s)
    ensures r.state == s
    ensures r.result.Ok? <==> AuthRepo.AuthenticationTokenKey(AuthRepo.HashAuthenticationToken(cfg.hasher, token)) in s.store
    ensures r.result.Ok? ==>
      s.store[AuthRepo.AuthenticationTokenKey(AuthRepo.HashAuthenticationToken(cfg.hasher, token))] == Redis.Str(r.result.value)
    ensures r.result.Err? ==> r.result.error == UnauthenticatedError(InvalidTokenMessage)
  {
    match AuthRepo.GetUserIdFromAuthenticationToken(cfg.hasher, s.store, token)
    case None => Step(Err(UnauthenticatedError(InvalidTokenMessage)), s)
    case Some(userId) => Step(Ok(userId), s)
  }

  /** `registerUser`: the email is checked before the username; on success
      the user is created and a session token issued for it. */
  function RegisterUser(cfg: Config, s: State, username: string, email: string, password: string,
                        newId: string, raw: string, now: int): (r: Step<Session>)
    requires Inv(s)
    requires Crypto.IsHex64(raw)
    requires UserRepo.GetUserById(s.users, newId).None?
    ensures Inv(r.state)
    ensures EmailTaken(s.users, email) ==>
      r == Step(Err(InvalidInputError(EmailTakenMessage)), s)
    ensures !EmailTaken(s.users, email) && UsernameTaken(s.users, username) ==>
      r == Step(Err(InvalidInputError(UsernameTakenMessage)), s)
    ensures r.result.Ok? <==> !EmailTaken(s.users, email) && !UsernameTaken(s.users, username)
    ensures r.result.Ok? ==>
      var user := r.result.value.user;
      && user.id == newId && user.username == username && user.email == email
      && user.passwordHash == UserRepo.HashPassword(cfg.hasher, password)
      && r.result.value.authenticationToken == raw
      && VerifyAuthenticationToken(cfg, r.state, raw).result == Ok(newId)
      && UserRepo.GetUserByEmail(r.state.users, email) == Some(user)
      && UserRepo.GetUserByUsername(r.state.users, username) == Some(user)
      && UserRepo.GetUserById(r.state.users, newId) == Some(user)
      && user.lastLoginAt == now
      && |r.state.users| == |s.users| + 1
      && (forall u :: u in s.users ==> u in r.state.users)
      && (forall u :: u in r.state.users ==> u in s.users || u == user)
      && r.state.resetTokens == s.resetTokens && r.state.outbox == s.outbox
    ensures r.result.Ok? ==>
      var digest := AuthRepo.HashAuthenticationToken(cfg.hasher, raw);
      && Redis.SMembers(r.state.store, AuthRepo.TokenOwnerKey(newId))
           == Redis.SMembers(s.store, AuthRepo.TokenOwnerKey(newId)) + {digest}
      && (forall k :: k != AuthRepo.AuthenticationTokenKey(digest) && k != AuthRepo.TokenOwnerKey(newId) ==>
            Redis.SameAt(s.store, r.state.store, k))
  {
    if UserRepo.GetUserByEmail(s.users, email).Some? then
      Step(Err(InvalidInputError(EmailTakenMessage)), s)
    else if UserRepo.GetUserByUsername(s.users, username).Some? then
      Step(Err(InvalidInputError(UsernameTakenMessage)), s)
    else
      var (user, users') := UserRepo.CreateUser(cfg.hasher, s.users, newId, username, email, password, now);
      var store' := AuthRepo.CreateAuthenticationToken(cfg.hasher, s.store, user.id, raw);
      Step(Ok(Session(user, raw)), s.(store := store', users := users'))
  }

  /** The row a login identifier selects: by email when it contains '@',
      by username otherwise. */
  function FindLoginUser(users: UserRepo.Table, login: string): (r: Option<UserRepo.User>)
    ensures r.Some? ==> r.value in users
    ensures r.Some? && '@' in login ==> r.value.email == login
    ensures r.Some? && '@' !in login ==> r.value.username == login
    ensures '@' in login ==> (r.None? <==> !EmailTaken(users, login))
    ensures '@' !in login ==> (r.None? <==> !UsernameTaken(users, login))
  {
    if '@' in login then UserRepo.GetUserByEmail(users, login)
    else UserRepo.GetUserByUsername(users, login)
  }

  /** The row of a user after a successful login. */
  function LoggedInRow(h: Crypto.Hasher, user: UserRepo.User, password: string, now: int): UserRepo.User {
    var hash := if h.needsRehash(user.passwordHash) && password != ""
                then UserRepo.HashPassword(h, password) else user.passwordHash;
    user.(passwordHash := hash, lastLoginAt := now)
  }

  /** The success path of login, once the password matched: rehash when
      argon2 asks for it, issue a session token, stamp `lastLoginAt`. */
  function CompleteLogin(cfg: Config, s: State, user: UserRepo.User, password: string,
                         raw: string, now: int): (r: Step<Session>)
    requires Inv(s)
    requires Crypto.IsHex64(raw)
    requires user in s.users
    ensures Inv(r.state)
    ensures r.result == Ok(Session(user, raw))
    ensures Redis.SMembers(r.state.store, AuthRepo.TokenOwnerKey(user.id))
         == Redis.SMembers(s.store, AuthRepo.TokenOwnerKey(user.id)) + {AuthRepo.HashAuthenticationToken(cfg.hasher, raw)}
    ensures VerifyAuthenticationToken(cfg, r.state, raw).result == Ok(user.id)
    ensures UserRepo.GetUserById(r.state.users, user.id) == Some(LoggedInRow(cfg.hasher, user, password, now))
    ensures |r.state.users| == |s.users|
    ensures forall i :: 0 <= i < |s.users| && s.users[i].id != user.id ==> r.state.users[i] == s.users[i]
    ensures forall k :: (k != AuthRepo.AuthenticationTokenKey(AuthRepo.HashAuthenticationToken(cfg.hasher, raw))
                      && k != AuthRepo.TokenOwnerKey(user.id)) ==> Redis.SameAt(s.store, r.state.store, k)
    ensures r.state.resetTokens == s.resetTokens && r.state.outbox == s.outbox
  {
    var h := cfg.hasher;
    UserRepo.FindUniqueFindsTheRow(s.users, UserRepo.ById(user.id), user);
    var rehash := UserRepo.UpdateUserInput(None, None, Some(password), None);
    var users1 := if h.needsRehash(user.passwordHash)
                  then UserRepo.UpdateUser(h, s.users, user.id, rehash).1 else s.users;
    var store' := AuthRepo.CreateAuthenticationToken(h, s.store, user.id, raw);
    var stamp := UserRepo.UpdateUserInput(None, None, None, Some(now));
    var (row, users2) := UserRepo.UpdateUser(h, users1, user.id, stamp);
    assert row == LoggedInRow(h, user, password, now);
    Step(Ok(Session(user, raw)), s.(store := store', users := users2))
  }

  /** `loginUser` as written: a wrong password throws inside the `try`
      whose `catch` turns every error into `UnexpectedError`. */
  function LoginUser(cfg: Config, s: State, login: string, password: string,
                     raw: string, now: int): (r: Step<Session>)
    requires Inv(s)
    requires Crypto.IsHex64(raw)
    ensures Inv(r.state)
    ensures FindLoginUser(s.users, login).None? ==>
      r == Step(Err(InvalidInputError(InvalidCredentialsMessage)), s)
    ensures FindLoginUser(s.users, login).Some? &&
            cfg.hasher.argonVerify(FindLoginUser(s.users, login).value.passwordHash, password) != Crypto.Match ==>
      r == Step(Err(UnexpectedError(LoginFailedMessage)), s)
    ensures r.result.Ok? <==>
      FindLoginUser(s.users, login).Some? &&
      cfg.hasher.argonVerify(FindLoginUser(s.users, login).value.passwordHash, password) == Crypto.Match
    ensures r.result.Ok? ==> r == CompleteLogin(cfg, s, FindLoginUser(s.users, login).value, password, raw, now)
  {
    match FindLoginUser(s.users, login)
    case None => Step(Err(InvalidInputError(InvalidCredentialsMessage)), s)
    case Some(user) =>
      if cfg.hasher.argonVerify(user.passwordHash, password) == Crypto.Match then
        CompleteLogin(cfg, s, user, password, raw, now)
      else
        Step(Err(UnexpectedError(LoginFailedMessage)), s)
  }

  /** `loginUser` as intended: a mismatch reports the same
      `InvalidInputError` as an unknown identifier; only a failing verify
      is unexpected. */
  function LoginUserIntended(cfg: Config, s: State, login: string, password: string,
                             raw: string, now: int): (r: Step<Session>)
    requires Inv(s)
    requires Crypto.IsHex64(raw)
    ensures Inv(r.state)
    ensures r.result.Err? ==> r.state == s
    ensures r.result.Err? && r.result.error.InvalidInputError? ==>
      r.result.error.message == InvalidCredentialsMessage
    ensures r.result.Err? && r.result.error.InvalidInputError? <==>
      FindLoginUser(s.users, login).None? ||
      cfg.hasher.argonVerify(FindLoginUser(s.users, login).value.passwordHash, password) == Crypto.Mismatch
    ensures r.result.Ok? <==>
      FindLoginUser(s.users, login).Some? &&
      cfg.hasher.argonVerify(FindLoginUser(s.users, login).value.passwordHash, password) == Crypto.Match
    ensures FindLoginUser(s.users, login).Some? &&
            cfg.hasher.argonVerify(FindLoginUser(s.users, login).value.passwordHash, password) == Crypto.Failure ==>
      r == Step(Err(UnexpectedError(LoginFailedMessage)), s)
    ensures r.result.Ok? ==> r == LoginUser(cfg, s, login, password, raw, now)
  {
    match FindLoginUser(s.users, login)
    case None => Step(Err(InvalidInputError(InvalidCredentialsMessage)), s)
    case Some(user) =>
      match cfg.hasher.argonVerify(user.passwordHash, password)
      case Match => CompleteLogin(cfg, s, user, password, raw, now)
      case Mismatch => Step(Err(InvalidInputError(InvalidCredentialsMessage)), s)
      case Failure => Step(Err(UnexpectedError(LoginFailedMessage)), s)
  }

  /** `removeAuthenticationToken`: always succeeds. */
  function RemoveAuthenticationToken(cfg: Config, s: State, token: string, userId: string): (r: Step<()>)
    requires Inv(s)
    ensures Inv(r.state)
    ensures r.result == Ok(())
    ensures VerifyAuthenticationToken(cfg, r.state, token).result == Err(UnauthenticatedError(InvalidTokenMessage))
    ensures Redis.SMembers(r.state.store, AuthRepo.TokenOwnerKey(userId))
         == Redis.SMembers(s.store, AuthRepo.TokenOwnerKey(userId)) - {AuthRepo.HashAuthenticationToken(cfg.hasher, token)}
    ensures forall k :: (k != AuthRepo.AuthenticationTokenKey(AuthRepo.HashAuthenticationToken(cfg.hasher, token))
                      && k != AuthRepo.TokenOwnerKey(userId)) ==> Redis.SameAt(s.store, r.state.store, k)
    ensures r.state.users == s.users && r.state.resetTokens == s.resetTokens && r.state.outbox == s.outbox
  {
    Step(Ok(()), s.(store := AuthRepo.RemoveAuthenticationToken(cfg.hasher, s.store, token, userId)))
  }

  // ---------------------------------------------------------------------
  // Password reset

  /** `sendPasswordResetRequest`: for a known email, store a reset token
      snapshotting the user's `lastLoginAt` and mail it; for an unknown
      email, do nothing and report nothing. */
  function SendPasswordResetRequest(cfg: Config, s: State, email: string, raw: string, now: int): (r: Step<()>)
    requires Inv(s)
    requires Crypto.IsHex64(raw)
    requires AuthRepo.HashPasswordResetToken(cfg.hasher, raw) !in s.resetTokens
    ensures Inv(r.state)
    ensures r.result == Ok(())
    ensures !EmailTaken(s.users, email) ==> r.state == s
    ensures EmailTaken(s.users, email) ==>
      var user := UserRepo.GetUserByEmail(s.users, email).value;
      var digest := AuthRepo.HashPasswordResetToken(cfg.hasher, raw);
      && r.state.resetTokens.Keys == s.resetTokens.Keys + {digest}
      && r.state.resetTokens[digest] == AuthRepo.PasswordResetToken(
           user.id, digest, user.lastLoginAt, now + cfg.passwordResetTokenExpiresIn * 1000)
      && (forall d :: d in s.resetTokens ==> r.state.resetTokens[d] == s.resetTokens[d])
      && r.state.outbox == s.outbox + [Email(ResetPasswordTemplate, email, email, raw, user.username)]
      && r.state.users == s.users && r.state.store == s.store
  {
    match UserRepo.GetUserByEmail(s.users, email)
    case None => Step(Ok(()), s)
    case Some(user) =>
      var resets' := AuthRepo.CreatePasswordResetToken(
        cfg.hasher, s.resetTokens, user.id, user.lastLoginAt, raw, now, cfg.passwordResetTokenExpiresIn);
      var mail := Email(ResetPasswordTemplate, user.email, user.email, raw, user.username);
      Step(Ok(()), s.(resetTokens := resets', outbox := s.outbox + [mail]))
  }

  /** When `resetPassword` accepts: some user has that email, a reset row
      has the token's digest, and the user has not logged in since the
      row's snapshot. Neither the row's owner nor its expiry takes part. */
  ghost predicate ResetAccepted(s: State, digest: string, email: string) {
    && digest in s.resetTokens
    && exists u :: u in s.users && u.email == email && u.lastLoginAt <= s.resetTokens[digest].lastLoginAt
  }

  /** `resetPassword` as written. */
  function ResetPassword(cfg: Config, s: State, resetToken: string, email: string, newPassword: string): (r: Step<()>)
    requires Inv(s)
    ensures Inv(r.state)
    ensures r.result.Ok? <==> ResetAccepted(s, AuthRepo.HashPasswordResetToken(cfg.hasher, resetToken), email)
    ensures r.result.Err? ==> r == Step(Err(InvalidInputError(InvalidResetMessage)), s)
    ensures r.result.Ok? ==>
      var user := UserRepo.GetUserByEmail(s.users, email).value;
      && UserRepo.GetUserById(r.state.users, user.id) == Some(
           if newPassword != "" then user.(passwordHash := UserRepo.HashPassword(cfg.hasher, newPassword))
           else user)
      && |r.state.users| == |s.users|
      && (forall i :: 0 <= i < |s.users| && s.users[i].id != user.id ==> r.state.users[i] == s.users[i])
      && r.state.store == s.store && r.state.resetTokens == s.resetTokens && r.state.outbox == s.outbox
  {
    var digest := AuthRepo.HashPasswordResetToken(cfg.hasher, resetToken);
    var existingUser := UserRepo.GetUserByEmail(s.users, email);
    var record := AuthRepo.GetPasswordResetToken(s.resetTokens, digest);
    if !(existingUser.Some? && record.Some? && existingUser.value.email == email) then
      Step(Err(InvalidInputError(InvalidResetMessage)), s)
    else if existingUser.value.lastLoginAt > record.value.lastLoginAt then
      Step(Err(InvalidInputError(InvalidResetMessage)), s)
    else
      var user := existingUser.value;
      UserRepo.FindUniqueFindsTheRow(s.users, UserRepo.ById(user.id), user);
      var input := UserRepo.UpdateUserInput(None, None, Some(newPassword), None);
      var (_, users') := UserRepo.UpdateUser(cfg.hasher, s.users, user.id, input);
      Step(Ok(()), s.(users := users'))
  }

  /** `resetPassword` as intended: the row must belong to the user with that
      email and be unexpired at `now`, and a successful reset consumes it. */
  function ResetPasswordIntended(cfg: Config, s: State, resetToken: string, email: string,
                                 newPassword: string, now: int): (r: Step<()>)
    requires Inv(s)
    ensures Inv(r.state)
    ensures r.result.Err? ==> r == Step(Err(InvalidInputError(InvalidResetMessage)), s)
    ensures var digest := AuthRepo.HashPasswordResetToken(cfg.hasher, resetToken);
      r.result.Ok? <==>
        && ResetAccepted(s, digest, email)
        && (exists u :: u in s.users && u.email == email && u.id == s.resetTokens[digest].userId)
        && now <= s.resetTokens[digest].expiresAt
    ensures r.result.Ok? ==>
      var digest := AuthRepo.HashPasswordResetToken(cfg.hasher, resetToken);
      var user := UserRepo.GetUserByEmail(s.users, email).value;
      && UserRepo.GetUserById(r.state.users, user.id) == Some(
           if newPassword != "" then user.(passwordHash := UserRepo.HashPassword(cfg.hasher, newPassword))
           else user)
      && |r.state.users| == |s.users|
      && (forall i :: 0 <= i < |s.users| && s.users[i].id != user.id ==> r.state.users[i] == s.users[i])
      && r.state.resetTokens == s.resetTokens - {digest}
      && r.state.store == s.store && r.state.outbox == s.outbox
  {
    var digest := AuthRepo.HashPasswordResetToken(cfg.hasher, resetToken);
    var existingUser := UserRepo.GetUserByEmail(s.users, email);
    var record := AuthRepo.GetPasswordResetToken(s.resetTokens, digest);
    if !(existingUser.Some? && record.Some? && record.value.userId == existingUser.value.id) then
      Step(Err(InvalidInputError(InvalidResetMessage)), s)
    else if existingUser.value.lastLoginAt > record.value.lastLoginAt || now > record.value.expiresAt then
      Step(Err(InvalidInputError(InvalidResetMessage)), s)
    else
      var user := existingUser.value;
      UserRepo.FindUniqueFindsTheRow(s.users, UserRepo.ById(user.id), user);
      var input := UserRepo.UpdateUserInput(None, None, Some(newPassword), None);
      var (_, users') := UserRepo.UpdateUser(cfg.hasher, s.users, user.id, input);
      Step(Ok(()), s.(users := users', resetTokens := s.resetTokens - {digest}))
  }
}
