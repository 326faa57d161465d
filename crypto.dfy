/** The two cryptographic libraries the core calls, as abstract functions with
    the one law each that the core depends on. */
module Crypto {
  import opened Wrappers
  import opened Js
  import Text

  /** `q` carries every property of `p` with the same value; it may carry more
      (jsonwebtoken adds the `iat` claim), and a property whose value is
      undefined reads back as undefined because JSON drops it. */
  predicate Extends(q: Obj, p: Obj) {
    forall k :: k in p ==> Get(q, k) == p[k]
  }

  /** `jwt.sign(payload, SECRET_KEY)` and `jwt.verify(token, SECRET_KEY)`;
      verification that throws (bad signature, malformed or expired token) is
      `None`. */
  datatype Signer = Signer(sign: Obj -> string, verify: string -> Option<Obj>) {
    /** A token this server signed verifies to its payload, and as a compact
        JWS (base64url segments joined by dots) it has no white space at
        either end. */
    ghost predicate Sound() {
      forall p :: Text.Trimmed(sign(p)) && verify(sign(p)).Some? && Extends(verify(sign(p)).value, p)
    }
  }

  lemma SignedVerifies(signer: Signer, p: Obj)
    requires signer.Sound()
    ensures Text.Trimmed(signer.sign(p))
    ensures signer.verify(signer.sign(p)).Some?
    ensures Extends(signer.verify(signer.sign(p)).value, p)
  {
  }

  /** `bcrypt.hash(plaintext, BCRYPT_WORK_FACTOR)` and
      `bcrypt.compare(plaintext, digest)`. */
  datatype Hasher = Hasher(hash: string -> string, compare: (string, string) -> bool) {
    /** A password matches its own digest. */
    ghost predicate Sound() {
      forall p :: compare(p, hash(p))
    }
  }
}
