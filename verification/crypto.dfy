/** The hashing collaborators, kept uninterpreted: SHA-256 in hex for
    token digests and argon2 for passwords. */
module Crypto {

  predicate IsHexDigit(c: char) {
    '0' <= c <= '9' || 'a' <= c <= 'f'
  }

  /** 32 bytes written as lower-case hex: the shape of every raw token
      (`randomBytes(32).toString('hex')`) and of every SHA-256 hex digest. */
  predicate IsHex64(s: string) {
    |s| == 64 && forall i :: 0 <= i < |s| ==> IsHexDigit(s[i])
  }

  /** How `argon2.verify(hash, plain)` settles: resolves true, resolves
      false, or rejects (a malformed stored hash, a library failure). */
  datatype VerifyOutcome = Match | Mismatch | Failure

  /** The deterministic functions the core is parameterised by. */
  datatype Hasher = Hasher(
    sha256Hex: string -> string,
    argonHash: string -> string,
    argonVerify: (string, string) -> VerifyOutcome,
    needsRehash: string -> bool)

  /** SHA-256 hex digests are always 64 hex characters. */
  ghost predicate Valid(h: Hasher) {
    forall s :: IsHex64(h.sha256Hex(s))
  }

  /** argon2 accepts the password a hash was made from. */
  ghost predicate ArgonSound(h: Hasher) {
    forall p :: h.argonVerify(h.argonHash(p), p) == Match
  }
}
