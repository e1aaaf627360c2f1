/** The cryptographic primitives as a record of functions, the laws the rest of
    the model assumes of them, and an instance showing that the laws are
    consistent. Randomness is an explicit argument. Secrecy is not modelled, and
    unforgeability is an assumption about runs, stated with the protocols. */
module Crypto {
  import opened Wrappers
  import opened Bytes

  datatype Suite = Suite(
    sha256: bytes -> bytes,
    hkdf: (bytes, bytes, bytes) -> bytes,                     // key material, salt, info
    aeadSeal: (bytes, bytes, bytes, bytes) -> bytes,          // key, nonce, plaintext, aad
    aeadOpen: (bytes, bytes, bytes, bytes) -> Option<bytes>,  // key, nonce, ciphertext, aad
    xPub: bytes -> bytes,                                     // X25519 private to public
    xExchange: (bytes, bytes) -> Option<bytes>,               // private, peer public
    kemPub: bytes -> bytes,                                   // ML-KEM private to public
    kemEncap: (bytes, bytes) -> Option<(bytes, bytes)>,       // public, coins to (ciphertext, secret)
    kemDecap: (bytes, bytes) -> Option<bytes>,                // private, ciphertext
    edPub: bytes -> bytes,
    edSign: (bytes, bytes) -> bytes,                          // private, message
    edVerify: (bytes, bytes, bytes) -> bool,                  // public, message, signature
    mldsaPub: bytes -> bytes,
    mldsaSign: (bytes, bytes, bytes) -> bytes,                // private, message, coins
    mldsaVerify: (bytes, bytes, bytes) -> bool)               // public, message, signature

  const KEM_CT_LEN := 1088

  /** SHA-256 and HKDF (section 2 of RFC 5869) are functions into 32 bytes. */
  ghost predicate HashLaws(c: Suite) {
    && (forall b :: |c.sha256(b)| == 32)
    && (forall k, s, i :: |c.hkdf(k, s, i)| == 32)
  }

  /** Sections 7.1 and 7.2 of NIST SP 800-38D: opening undoes sealing, and the
      16-byte tag is the only difference in length. */
  ghost predicate AeadLaws(c: Suite) {
    && (forall k, n, p, a :: |c.aeadSeal(k, n, p, a)| == |p| + 16)
    && (forall k, n, p, a :: c.aeadOpen(k, n, c.aeadSeal(k, n, p, a), a) == Some(p))
    && (forall k, n, t, a :: c.aeadOpen(k, n, t, a).Some? ==> |t| == |c.aeadOpen(k, n, t, a).value| + 16)
  }

  /** Section 6.1 of RFC 7748: public values and shared secrets have 32 bytes,
      other public values are refused, and the exchange of two honest pairs
      commutes. */
  ghost predicate ExchangeLaws(c: Suite) {
    && (forall k :: |c.xPub(k)| == 32)
    && (forall k, p :: c.xExchange(k, p).Some? ==> |p| == 32 && |c.xExchange(k, p).value| == 32)
    && (forall a, b :: c.xExchange(a, c.xPub(b)).Some? && c.xExchange(a, c.xPub(b)) == c.xExchange(b, c.xPub(a)))
  }

  /** Sections 7 and 8 of FIPS 203: ML-KEM-768 ciphertexts have 1088 bytes and
      decapsulation undoes encapsulation. */
  ghost predicate KemLaws(c: Suite) {
    && (forall p, r :: c.kemEncap(p, r).Some? ==> |c.kemEncap(p, r).value.0| == KEM_CT_LEN)
    && (forall k, r :: c.kemEncap(c.kemPub(k), r).Some?)
    && (forall k, r :: c.kemDecap(k, c.kemEncap(c.kemPub(k), r).value.0) == Some(c.kemEncap(c.kemPub(k), r).value.1))
  }

  /** Honest signatures verify; Ed25519 ones have 64 bytes and ML-DSA-65 ones
      3309 (section 4 of FIPS 204). */
  ghost predicate SignatureLaws(c: Suite) {
    && (forall k, m :: |c.edSign(k, m)| == 64 && c.edVerify(c.edPub(k), m, c.edSign(k, m)))
    && (forall k, m, r :: |c.mldsaSign(k, m, r)| == 3309 && c.mldsaVerify(c.mldsaPub(k), m, c.mldsaSign(k, m, r)))
  }

  ghost predicate Lawful(c: Suite) {
    HashLaws(c) && AeadLaws(c) && ExchangeLaws(c) && KemLaws(c) && SignatureLaws(c)
  }

  // ---- a lawful instance --------------------------------------------------

  function ToyOpen(t: bytes): Option<bytes> {
    if 16 <= |t| && t[|t| - 16..] == Zeros(16) then Some(t[..|t| - 16]) else None
  }

  function Toy(): Suite {
    Suite(
      b => Zeros(32),
      (k, s, i) => Zeros(32),
      (k, n, p, a) => p + Zeros(16),
      (k, n, t, a) => ToyOpen(t),
      k => Zeros(32),
      (k, p) => if |p| == 32 then Some(Zeros(32)) else None,
      k => [],
      (p, r) => Some((Zeros(KEM_CT_LEN), Zeros(32))),
      (k, t) => Some(Zeros(32)),
      k => [],
      (k, m) => Zeros(64),
      (k, m, s) => true,
      k => [],
      (k, m, r) => Zeros(3309),
      (k, m, s) => true)
  }

  /** The laws have a model, so nothing proved from them is vacuous. */
  lemma LawsAreConsistent()
    ensures Lawful(Toy())
  {}
}
