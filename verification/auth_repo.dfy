/** The token repository: session tokens in Redis (digest -> user id,
    plus a per-user set of digests) and password-reset tokens in the
    database (digest -> record). Raw tokens never reach storage; only
    their SHA-256 hex digests do. The random raw token and the clock are
    parameters. */
module AuthRepo {
  import opened Errors
  import Crypto
  import opened Redis

  const AuthenticationTokenKeyPrefix := "auth-tokens:"
  const TokenOwnerKeyPrefix := "auth-token-owners:"

  // ---------------------------------------------------------------------
  // Keys

  /** The Redis key holding the owner of a session-token digest. */
  function AuthenticationTokenKey(digest: string): string {
    AuthenticationTokenKeyPrefix + digest
  }

  /** The Redis key holding the set of a user's session-token digests. */
  function TokenOwnerKey(userId: string): string {
    TokenOwnerKeyPrefix + userId
  }

  lemma AuthenticationTokenKeyInjective(a: string, b: string)
    ensures AuthenticationTokenKey(a) == AuthenticationTokenKey(b) <==> a == b
  {
    if AuthenticationTokenKey(a) == AuthenticationTokenKey(b) {
      var n := |AuthenticationTokenKeyPrefix|;
      assert a == AuthenticationTokenKey(a)[n..];
      assert b == AuthenticationTokenKey(b)[n..];
    }
  }

  lemma TokenOwnerKeyInjective(a: string, b: string)
    ensures TokenOwnerKey(a) == TokenOwnerKey(b) <==> a == b
  {
    if TokenOwnerKey(a) == TokenOwnerKey(b) {
      var n := |TokenOwnerKeyPrefix|;
      assert a == TokenOwnerKey(a)[n..];
      assert b == TokenOwnerKey(b)[n..];
    }
  }

  /** The two prefixes part at their eleventh character ('s' against '-'),
      so no digest key is an owner key. */
  lemma KeyRangesDisjoint(digest: string, userId: string)
    ensures AuthenticationTokenKey(digest) != TokenOwnerKey(userId)
  {
    assert AuthenticationTokenKey(digest)[10] == 's';
    assert TokenOwnerKey(userId)[10] == '-';
  }

  /** The shape the repository keeps: digest keys hold strings and owner
      keys hold sets, so no command it issues meets WRONGTYPE. */
  ghost predicate WellTyped(st: Store) {
    && (forall d :: HoldsString(st, AuthenticationTokenKey(d)))
    && (forall u :: HoldsSet(st, TokenOwnerKey(u)))
  }

  /** Changing a store only at `changed` keeps it well typed when those
      keys themselves end up with the right kind of value. */
  lemma WellTypedFrame(st: Store, st': Store, changed: set<string>)
    requires WellTyped(st)
    requires forall k :: k !in changed ==> SameAt(st, st', k)
    requires forall d :: AuthenticationTokenKey(d) in changed ==> HoldsString(st', AuthenticationTokenKey(d))
    requires forall u :: TokenOwnerKey(u) in changed ==> HoldsSet(st', TokenOwnerKey(u))
    ensures WellTyped(st')
  {
  }

  // ---------------------------------------------------------------------
  // Session tokens

  /** `createHash('sha256').update(token).digest('hex')`. */
  function HashAuthenticationToken(h: Crypto.Hasher, token: string): (r: string)
    ensures Crypto.Valid(h) ==> Crypto.IsHex64(r)
  {
    h.sha256Hex(token)
  }

  /** `getUserIdFromAuthenticationToken`: GET of the digest key. */
  function GetUserIdFromAuthenticationToken(h: Crypto.Hasher, st: Store, token: string): (r: Option<string>)
    requires WellTyped(st)
    ensures r.Some? <==> AuthenticationTokenKey(HashAuthenticationToken(h, token)) in st
    ensures r.Some? ==> st[AuthenticationTokenKey(HashAuthenticationToken(h, token))] == Str(r.value)
  {
    Get(st, AuthenticationTokenKey(HashAuthenticationToken(h, token)))
  }

  /** `createAuthenticationToken`: SET digest key to the user id, then SADD
      the digest to the user's owner set. `raw` is the generated token,
      which the source returns to its caller. */
  function CreateAuthenticationToken(h: Crypto.Hasher, st: Store, userId: string, raw: string): (r: Store)
    requires WellTyped(st)
    requires Crypto.IsHex64(raw)
    ensures WellTyped(r)
    ensures GetUserIdFromAuthenticationToken(h, r, raw) == Some(userId)
    ensures SMembers(r, TokenOwnerKey(userId)) == SMembers(st, TokenOwnerKey(userId)) + {HashAuthenticationToken(h, raw)}
    ensures forall k :: k != AuthenticationTokenKey(HashAuthenticationToken(h, raw)) && k != TokenOwnerKey(userId) ==>
      SameAt(st, r, k)
  {
    var digest := HashAuthenticationToken(h, raw);
    KeyRangesDisjoint(digest, userId);
    var st1 := Set(st, AuthenticationTokenKey(digest), userId);
    assert HoldsSet(st1, TokenOwnerKey(userId)) by {
      assert SameAt(st, st1, TokenOwnerKey(userId));
    }
    var st2 := SAdd(st1, TokenOwnerKey(userId), digest);
    assert SameAt(st1, st2, AuthenticationTokenKey(digest));
    forall d | AuthenticationTokenKey(d) in {AuthenticationTokenKey(digest), TokenOwnerKey(userId)}
      ensures HoldsString(st2, AuthenticationTokenKey(d))
    {
      KeyRangesDisjoint(d, userId);
    }
    forall u | TokenOwnerKey(u) in {AuthenticationTokenKey(digest), TokenOwnerKey(userId)}
      ensures HoldsSet(st2, TokenOwnerKey(u))
    {
      KeyRangesDisjoint(digest, u);
    }
    WellTypedFrame(st, st2, {AuthenticationTokenKey(digest), TokenOwnerKey(userId)});
    st2
  }

  /** `removeAuthenticationToken`: DEL of the digest key, whoever it maps
      to, then SREM of the digest from `userId`'s set only. */
  function RemoveAuthenticationToken(h: Crypto.Hasher, st: Store, token: string, userId: string): (r: Store)
    requires WellTyped(st)
    ensures WellTyped(r)
    ensures GetUserIdFromAuthenticationToken(h, r, token) == None
    ensures SMembers(r, TokenOwnerKey(userId)) == SMembers(st, TokenOwnerKey(userId)) - {HashAuthenticationToken(h, token)}
    ensures forall k :: k != AuthenticationTokenKey(HashAuthenticationToken(h, token)) && k != TokenOwnerKey(userId) ==>
      SameAt(st, r, k)
  {
    var digest := HashAuthenticationToken(h, token);
    KeyRangesDisjoint(digest, userId);
    var st1 := Del(st, {AuthenticationTokenKey(digest)});
    assert HoldsSet(st1, TokenOwnerKey(userId)) by {
      assert SameAt(st, st1, TokenOwnerKey(userId));
    }
    var st2 := SRem(st1, TokenOwnerKey(userId), digest);
    assert SameAt(st1, st2, AuthenticationTokenKey(digest));
    forall d | AuthenticationTokenKey(d) in {AuthenticationTokenKey(digest), TokenOwnerKey(userId)}
      ensures HoldsString(st2, AuthenticationTokenKey(d))
    {
      KeyRangesDisjoint(d, userId);
    }
    forall u | TokenOwnerKey(u) in {AuthenticationTokenKey(digest), TokenOwnerKey(userId)}
      ensures HoldsSet(st2, TokenOwnerKey(u))
    {
      KeyRangesDisjoint(digest, u);
    }
    WellTypedFrame(st, st2, {AuthenticationTokenKey(digest), TokenOwnerKey(userId)});
    st2
  }

  /** Revoking a token a second time changes nothing. */
  lemma RemoveAuthenticationTokenIdempotent(h: Crypto.Hasher, st: Store, token: string, userId: string)
    requires WellTyped(st)
    ensures var once := RemoveAuthenticationToken(h, st, token, userId);
      RemoveAuthenticationToken(h, once, token, userId) == once
  {
    var once := RemoveAuthenticationToken(h, st, token, userId);
    var twice := RemoveAuthenticationToken(h, once, token, userId);
    var dk := AuthenticationTokenKey(HashAuthenticationToken(h, token));
    var ok := TokenOwnerKey(userId);
    assert dk !in once && dk !in twice;
    assert SMembers(twice, ok) == SMembers(once, ok);
    assert SameAt(once, twice, ok);
    assert forall k :: SameAt(once, twice, k);
  }

  /** Revocation does not check ownership: the digest key goes even when
      it maps to another user, whose set keeps listing the digest. */
  lemma RemoveIgnoresOwnership(h: Crypto.Hasher, st: Store, token: string, userId: string, owner: string)
    requires WellTyped(st)
    requires owner != userId
    ensures var r := RemoveAuthenticationToken(h, st, token, userId);
      && GetUserIdFromAuthenticationToken(h, r, token) == None
      && SMembers(r, TokenOwnerKey(owner)) == SMembers(st, TokenOwnerKey(owner))
  {
    TokenOwnerKeyInjective(owner, userId);
    KeyRangesDisjoint(HashAuthenticationToken(h, token), owner);
  }

  // ---------------------------------------------------------------------
  // Revoking every session of a user

  function Pow10(k: nat): nat {
    if k == 0 then 1 else 10 * Pow10(k - 1)
  }

  function DigitChar(d: nat): char
    requires d < 10
  {
    "0123456789"[d]
  }

  /** The canonical decimal spelling of `n`: the property name JavaScript
      gives to array index `n`. */
  function Decimal(n: nat): string {
    if n < 10 then [DigitChar(n)] else Decimal(n / 10) + [DigitChar(n % 10)]
  }

  lemma {:induction false} DecimalLength(n: nat, k: nat)
    requires 1 <= k && n < Pow10(k)
    ensures |Decimal(n)| <= k
  {
    if n >= 10 {
      assert k >= 2;
      assert n / 10 < Pow10(k - 1);
      DecimalLength(n / 10, k - 1);
    }
  }

  /** `k` is the key built from one of the first `n` array indices. */
  ghost predicate IsIndexKey(k: string, n: nat) {
    exists i: nat :: i < n && k == AuthenticationTokenKey(Decimal(i))
  }

  /** The keys the `for...in` loop builds for an array of `n` digests:
      `for...in` yields the indices "0" .. "n-1", not the elements. */
  function IndexKeys(n: nat): (r: set<string>)
    ensures forall i :: 0 <= i < n ==> AuthenticationTokenKey(Decimal(i)) in r
    ensures forall k :: k in r ==> IsIndexKey(k, n)
  {
    if n == 0 then {} else IndexKeys(n - 1) + {AuthenticationTokenKey(Decimal(n - 1))}
  }

  /** `removeAllAuthenticationTokens` as written: SMEMBERS of the owner
      set, then one DEL of the index-derived keys and the owner key. */
  function RemoveAllAuthenticationTokens(st: Store, userId: string): (r: Store)
    requires WellTyped(st)
    ensures WellTyped(r)
    ensures TokenOwnerKey(userId) !in r
    ensures forall k :: k in IndexKeys(|SMembers(st, TokenOwnerKey(userId))|) ==> k !in r
    ensures forall k :: k != TokenOwnerKey(userId) && k !in IndexKeys(|SMembers(st, TokenOwnerKey(userId))|) ==>
      SameAt(st, r, k)
  {
    var hashes := SMembers(st, TokenOwnerKey(userId));
    var keys := IndexKeys(|hashes|) + {TokenOwnerKey(userId)};
    var r := Del(st, keys);
    WellTypedFrame(st, r, keys);
    r
  }

  /** The finding: the sweep revokes no session at all. A digest key holds
      64 hex characters after the prefix, an index key at most 63 digits,
      so as long as the user has fewer than 10^63 sessions every token
      resolves afterwards exactly as before. */
  lemma RemoveAllKeepsEverySession(h: Crypto.Hasher, st: Store, userId: string, token: string)
    requires Crypto.Valid(h)
    requires WellTyped(st)
    requires |SMembers(st, TokenOwnerKey(userId))| < Pow10(63)
    ensures GetUserIdFromAuthenticationToken(h, RemoveAllAuthenticationTokens(st, userId), token)
         == GetUserIdFromAuthenticationToken(h, st, token)
  {
    var n := |SMembers(st, TokenOwnerKey(userId))|;
    var digest := HashAuthenticationToken(h, token);
    assert Crypto.IsHex64(digest);
    KeyRangesDisjoint(digest, userId);
    if AuthenticationTokenKey(digest) in IndexKeys(n) {
      var i: nat :| i < n && AuthenticationTokenKey(digest) == AuthenticationTokenKey(Decimal(i));
      AuthenticationTokenKeyInjective(digest, Decimal(i));
      DecimalLength(i, 63);
      assert false;
    }
  }

  /** The digest keys of a set of digests. */
  function DigestKeys(hashes: set<string>): (r: set<string>)
    ensures forall d :: d in hashes ==> AuthenticationTokenKey(d) in r
    ensures forall k :: k in r ==> exists d :: d in hashes && k == AuthenticationTokenKey(d)
  {
    set d | d in hashes :: AuthenticationTokenKey(d)
  }

  /** `removeAllAuthenticationTokens` as intended: DEL the digest key of
      every member of the owner set, and the set itself. */
  function RemoveAllAuthenticationTokensIntended(st: Store, userId: string): (r: Store)
    requires WellTyped(st)
    ensures WellTyped(r)
    ensures TokenOwnerKey(userId) !in r
    ensures forall d :: d in SMembers(st, TokenOwnerKey(userId)) ==> AuthenticationTokenKey(d) !in r
    ensures forall k :: k != TokenOwnerKey(userId) && k !in DigestKeys(SMembers(st, TokenOwnerKey(userId))) ==>
      SameAt(st, r, k)
  {
    var keys := DigestKeys(SMembers(st, TokenOwnerKey(userId))) + {TokenOwnerKey(userId)};
    var r := Del(st, keys);
    WellTypedFrame(st, r, keys);
    r
  }

  /** After the intended sweep, no token whose digest the user's set listed
      resolves; tokens not listed resolve as before. */
  lemma RemoveAllIntendedRevokesListedSessions(h: Crypto.Hasher, st: Store, userId: string, token: string)
    requires WellTyped(st)
    ensures var r := RemoveAllAuthenticationTokensIntended(st, userId);
      && (HashAuthenticationToken(h, token) in SMembers(st, TokenOwnerKey(userId)) ==>
            GetUserIdFromAuthenticationToken(h, r, token) == None)
      && (HashAuthenticationToken(h, token) !in SMembers(st, TokenOwnerKey(userId)) ==>
            GetUserIdFromAuthenticationToken(h, r, token) == GetUserIdFromAuthenticationToken(h, st, token))
  {
    var digest := HashAuthenticationToken(h, token);
    KeyRangesDisjoint(digest, userId);
    if AuthenticationTokenKey(digest) in DigestKeys(SMembers(st, TokenOwnerKey(userId))) {
      var d :| d in SMembers(st, TokenOwnerKey(userId)) && AuthenticationTokenKey(digest) == AuthenticationTokenKey(d);
      AuthenticationTokenKeyInjective(digest, d);
    }
  }

  // ---------------------------------------------------------------------
  // Password-reset tokens

  /** A row of the reset-token table; times are in milliseconds. */
  datatype PasswordResetToken = PasswordResetToken(
    userId: string,
    tokenHash: string,
    lastLoginAt: int,
    expiresAt: int)

  /** The table, keyed by its unique `tokenHash` column. */
  type ResetTable = map<string, PasswordResetToken>

  predicate KeyedByHash(t: ResetTable) {
    forall d :: d in t ==> t[d].tokenHash == d
  }

  /** `hashPasswordResetToken`: the same SHA-256 hex as for session tokens. */
  function HashPasswordResetToken(h: Crypto.Hasher, token: string): (r: string)
    ensures Crypto.Valid(h) ==> Crypto.IsHex64(r)
    ensures r == HashAuthenticationToken(h, token)
  {
    h.sha256Hex(token)
  }

  /** `getPasswordResetToken`: the row with that digest, or null. */
  function GetPasswordResetToken(t: ResetTable, tokenHash: string): (r: Option<PasswordResetToken>)
    ensures r.Some? <==> tokenHash in t
    ensures r.Some? ==> r.value == t[tokenHash]
    ensures r.Some? && KeyedByHash(t) ==> r.value.tokenHash == tokenHash
  {
    if tokenHash in t then Some(t[tokenHash]) else None
  }

  /** `createPasswordResetToken`: inserts a row for the digest of the
      generated token `raw`, snapshotting `lastLoginAt` and expiring
      `expiresIn` seconds after `now`. A fresh random token has a digest
      not yet in the table. */
  function CreatePasswordResetToken(h: Crypto.Hasher, t: ResetTable, userId: string, lastLoginAt: int,
                                    raw: string, now: int, expiresIn: nat): (r: ResetTable)
    requires Crypto.IsHex64(raw)
    requires HashPasswordResetToken(h, raw) !in t
    ensures GetPasswordResetToken(r, HashPasswordResetToken(h, raw))
         == Some(PasswordResetToken(userId, HashPasswordResetToken(h, raw), lastLoginAt, now + expiresIn * 1000))
    ensures r.Keys == t.Keys + {HashPasswordResetToken(h, raw)}
    ensures forall d :: d in t ==> r[d] == t[d]
    ensures KeyedByHash(t) ==> KeyedByHash(r)
  {
    var digest := HashPasswordResetToken(h, raw);
    t[digest := PasswordResetToken(userId, digest, lastLoginAt, now + expiresIn * 1000)]
  }
}
