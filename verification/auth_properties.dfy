/** Properties that relate several operations of the authentication
    service: the reset-token lifecycle against logins, replays and expiry,
    and the two places where the code as written departs from its intent. */
module AuthProperties {
  import opened Errors
  import Crypto
  import UserRepo
  import AuthRepo
  import opened AuthService

  // ---------------------------------------------------------------------
  // Login

  /** As written, a wrong password for a known identifier is reported as
      `UnexpectedError`, which tells it apart from an unknown identifier. */
  lemma LoginMismatchReportsUnexpected(cfg: Config, s: State, known: string, unknown: string,
                                       password: string, raw: string, now: int)
    requires Inv(s) && Crypto.IsHex64(raw)
    requires FindLoginUser(s.users, known).Some?
    requires cfg.hasher.argonVerify(FindLoginUser(s.users, known).value.passwordHash, password) == Crypto.Mismatch
    requires FindLoginUser(s.users, unknown).None?
    ensures LoginUser(cfg, s, known, password, raw, now).result == Err(UnexpectedError(LoginFailedMessage))
    ensures LoginUser(cfg, s, known, password, raw, now).result != LoginUser(cfg, s, unknown, password, raw, now).result
  {
  }

  /** As intended, a wrong password and an unknown identifier give the very
      same response. */
  lemma LoginIntendedHidesWhichFieldFailed(cfg: Config, s: State, known: string, unknown: string,
                                           password: string, raw: string, now: int)
    requires Inv(s) && Crypto.IsHex64(raw)
    requires FindLoginUser(s.users, known).Some?
    requires cfg.hasher.argonVerify(FindLoginUser(s.users, known).value.passwordHash, password) == Crypto.Mismatch
    requires FindLoginUser(s.users, unknown).None?
    ensures LoginUserIntended(cfg, s, known, password, raw, now)
         == LoginUserIntended(cfg, s, unknown, password, raw, now)
         == Step(Err(InvalidInputError(InvalidCredentialsMessage)), s)
  {
  }

  /** A registered user can log in by email with the password they chose. */
  lemma RegisterThenLogin(cfg: Config, s: State, username: string, email: string, password: string,
                          newId: string, raw: string, now: int, raw2: string, later: int)
    requires Inv(s) && Crypto.IsHex64(raw) && Crypto.IsHex64(raw2)
    requires Crypto.ArgonSound(cfg.hasher)
    requires UserRepo.GetUserById(s.users, newId).None?
    requires '@' in email
    ensures var reg := RegisterUser(cfg, s, username, email, password, newId, raw, now);
      reg.result.Ok? ==>
        LoginUser(cfg, reg.state, email, password, raw2, later).result == Ok(Session(reg.result.value.user, raw2))
  {
  }

  // ---------------------------------------------------------------------
  // Sessions

  /** Logging out the same token twice leaves the state of logging out once. */
  lemma LogoutIdempotent(cfg: Config, s: State, token: string, userId: string)
    requires Inv(s)
    ensures var once := RemoveAuthenticationToken(cfg, s, token, userId).state;
      RemoveAuthenticationToken(cfg, once, token, userId).state == once
  {
    AuthRepo.RemoveAuthenticationTokenIdempotent(cfg.hasher, s.store, token, userId);
  }

  // ---------------------------------------------------------------------
  // Password reset

  /** A login after a reset request voids the emailed token: the login
      stamps `lastLoginAt` with a time after the snapshot in the row. */
  lemma LoginVoidsPendingReset(cfg: Config, s: State, email: string, resetRaw: string, requestedAt: int,
                               login: string, password: string, sessionRaw: string, now: int,
                               newPassword: string)
    requires Inv(s) && Crypto.IsHex64(resetRaw) && Crypto.IsHex64(sessionRaw)
    requires AuthRepo.HashPasswordResetToken(cfg.hasher, resetRaw) !in s.resetTokens
    requires UserRepo.GetUserByEmail(s.users, email).Some?
    requires now > UserRepo.GetUserByEmail(s.users, email).value.lastLoginAt
    ensures
      var s1 := SendPasswordResetRequest(cfg, s, email, resetRaw, requestedAt).state;
      var s2 := LoginUser(cfg, s1, login, password, sessionRaw, now);
      s2.result.Ok? && s2.result.value.user.email == email ==>
        ResetPassword(cfg, s2.state, resetRaw, email, newPassword)
          == Step(Err(InvalidInputError(InvalidResetMessage)), s2.state)
  {
  }

  /** The reset row is not consumed: a reset that succeeded succeeds again
      with the same token, for any new password. */
  lemma ResetSucceedsAgain(cfg: Config, s: State, resetToken: string, email: string,
                           newPassword: string, otherPassword: string)
    requires Inv(s)
    ensures var first := ResetPassword(cfg, s, resetToken, email, newPassword);
      first.result.Ok? ==> ResetPassword(cfg, first.state, resetToken, email, otherPassword).result == Ok(())
  {
  }

  /** The expiry column plays no part: any `expiresAt` gives the same outcome. */
  lemma ResetIgnoresExpiry(cfg: Config, s: State, resetToken: string, email: string,
                           newPassword: string, expiresAt: int)
    requires Inv(s)
    requires AuthRepo.HashPasswordResetToken(cfg.hasher, resetToken) in s.resetTokens
    ensures
      var digest := AuthRepo.HashPasswordResetToken(cfg.hasher, resetToken);
      var s' := s.(resetTokens := s.resetTokens[digest := s.resetTokens[digest].(expiresAt := expiresAt)]);
      ResetPassword(cfg, s', resetToken, email, newPassword).result
        == ResetPassword(cfg, s, resetToken, email, newPassword).result
  {
  }

  /** The row's owner plays no part: a token requested for one user resets
      the password of any other user whose email is supplied, as long as
      that user has not logged in after the first user's snapshot. */
  lemma ResetNotBoundToTokenOwner(cfg: Config, s: State, ownerEmail: string, otherEmail: string,
                                  resetRaw: string, requestedAt: int, newPassword: string)
    requires Inv(s) && Crypto.IsHex64(resetRaw)
    requires AuthRepo.HashPasswordResetToken(cfg.hasher, resetRaw) !in s.resetTokens
    requires UserRepo.GetUserByEmail(s.users, ownerEmail).Some?
    requires UserRepo.GetUserByEmail(s.users, otherEmail).Some?
    requires UserRepo.GetUserByEmail(s.users, otherEmail).value.lastLoginAt
          <= UserRepo.GetUserByEmail(s.users, ownerEmail).value.lastLoginAt
    requires newPassword != ""
    ensures
      var s1 := SendPasswordResetRequest(cfg, s, ownerEmail, resetRaw, requestedAt).state;
      var s2 := ResetPassword(cfg, s1, resetRaw, otherEmail, newPassword);
      var other := UserRepo.GetUserByEmail(s.users, otherEmail).value;
      && s2.result == Ok(())
      && s1.resetTokens[AuthRepo.HashPasswordResetToken(cfg.hasher, resetRaw)].userId == UserRepo.GetUserByEmail(s.users, ownerEmail).value.id
      && UserRepo.GetUserById(s2.state.users, other.id).value.passwordHash
           == UserRepo.HashPassword(cfg.hasher, newPassword)
  {
  }

  /** After a successful reset, logging in by email with the new password
      succeeds. */
  lemma ResetThenLogin(cfg: Config, s: State, resetToken: string, email: string, newPassword: string,
                       sessionRaw: string, now: int)
    requires Inv(s) && Crypto.IsHex64(sessionRaw)
    requires Crypto.ArgonSound(cfg.hasher)
    requires '@' in email && newPassword != ""
    ensures var r := ResetPassword(cfg, s, resetToken, email, newPassword);
      r.result.Ok? ==> LoginUser(cfg, r.state, email, newPassword, sessionRaw, now).result.Ok?
  {
  }

  /** An empty new password is falsy, so the stored hash stays as it was. */
  lemma ResetWithEmptyPasswordKeepsHash(cfg: Config, s: State, resetToken: string, email: string)
    requires Inv(s)
    ensures var r := ResetPassword(cfg, s, resetToken, email, "");
      r.result.Ok? ==> r.state.users == s.users
  {
  }

  /** As intended, a reset consumes its row, so a replay of the same token fails. */
  lemma ResetIntendedRefusesReplay(cfg: Config, s: State, resetToken: string, email: string,
                                   newPassword: string, now: int, email2: string, password2: string, later: int)
    requires Inv(s)
    ensures var first := ResetPasswordIntended(cfg, s, resetToken, email, newPassword, now);
      first.result.Ok? ==>
        ResetPasswordIntended(cfg, first.state, resetToken, email2, password2, later)
          == Step(Err(InvalidInputError(InvalidResetMessage)), first.state)
  {
  }
}
