/** Hybrid signatures and the hybrid wrap of the content key (src/hybrid.py). */
module Hybrid {
  import opened Wrappers
  import opened Bytes
  import opened Crypto
  import opened Framing

  // ---- signatures ----------------------------------------------------------

  function HybridSign(c: Suite, edKey: bytes, mldsaKey: bytes, msg: bytes, coins: bytes): Result<bytes, FrameError> {
    Frame([c.edSign(edKey, msg), c.mldsaSign(mldsaKey, msg, coins)])
  }

  /** `Err` is the exception `unframe` raises, which the caller does not catch. */
  function HybridVerify(c: Suite, edPub: bytes, mldsaPub: bytes, msg: bytes, blob: bytes): Result<bool, FrameError> {
    var parts := Unframe(blob);
    if parts.Err? then Err(parts.error)
    else if |parts.value| != 2 then Ok(false)
    else Ok(c.edVerify(edPub, msg, parts.value[0]) && c.mldsaVerify(mldsaPub, msg, parts.value[1]))
  }

  /** Signing never raises and its output always verifies. */
  lemma HybridSignVerifies(c: Suite, edKey: bytes, mldsaKey: bytes, msg: bytes, coins: bytes)
    requires Lawful(c)
    ensures var s := HybridSign(c, edKey, mldsaKey, msg, coins);
            s.Ok? && HybridVerify(c, c.edPub(edKey), c.mldsaPub(mldsaKey), msg, s.value) == Ok(true)
  {
    var parts := [c.edSign(edKey, msg), c.mldsaSign(mldsaKey, msg, coins)];
    assert forall p :: p in parts ==> p == parts[0] || p == parts[1];
    FrameThenUnframe(parts);
  }

  // ---- content-key wrap ------------------------------------------------------

  const WRAP_INFO := Ascii("botsmaster/krs-cek-hybrid-wrap/v1")
  const WRAP_NONCE_LEN := 12

  datatype Wrap = Wrap(xPub: bytes, kemCt: bytes, wrapped: bytes)

  /** What `wrap_cek` draws at random. */
  datatype WrapCoins = WrapCoins(xKey: bytes, kem: bytes, nonce: bytes)

  function WrapKey(c: Suite, classical: bytes, pqc: bytes, salt: bytes): bytes {
    c.hkdf(classical + pqc, salt, WRAP_INFO)
  }

  /** `wrap_cek`; `None` when the exchange or the encapsulation refuses the
      client's public values. */
  function WrapCek(c: Suite, clientX: bytes, clientKem: bytes, cek: bytes, r: WrapCoins): Option<Wrap> {
    var xPub := c.xPub(r.xKey);
    var classical := c.xExchange(r.xKey, clientX);
    var kem := c.kemEncap(clientKem, r.kem);
    if classical.None? || kem.None? then None
    else
      var key := WrapKey(c, classical.value, kem.value.1, clientX + clientKem + xPub);
      Some(Wrap(xPub, kem.value.0, r.nonce + c.aeadSeal(key, r.nonce, cek, [])))
  }

  /** `unwrap_cek`; `None` when any primitive refuses. A slice past the end is short. */
  function UnwrapCek(c: Suite, xKey: bytes, kemKey: bytes, clientX: bytes, clientKem: bytes, w: Wrap): Option<bytes> {
    var classical := c.xExchange(xKey, w.xPub);
    var pqc := c.kemDecap(kemKey, w.kemCt);
    if classical.None? || pqc.None? then None
    else
      var key := WrapKey(c, classical.value, pqc.value, clientX + clientKem + w.xPub);
      var cut := if |w.wrapped| < WRAP_NONCE_LEN then |w.wrapped| else WRAP_NONCE_LEN;
      c.aeadOpen(key, w.wrapped[..cut], w.wrapped[cut..], [])
  }

  /** Wrapping to a client's two public values never fails, has fixed sizes, and
      the client's two private values recover the key. */
  lemma WrapThenUnwrap(c: Suite, xKey: bytes, kemKey: bytes, cek: bytes, r: WrapCoins)
    requires Lawful(c) && |r.nonce| == WRAP_NONCE_LEN
    ensures var w := WrapCek(c, c.xPub(xKey), c.kemPub(kemKey), cek, r);
            w.Some? && UnwrapCek(c, xKey, kemKey, c.xPub(xKey), c.kemPub(kemKey), w.value) == Some(cek)
  {
    assert c.xExchange(r.xKey, c.xPub(xKey)) == c.xExchange(xKey, c.xPub(r.xKey));
    assert c.kemEncap(c.kemPub(kemKey), r.kem).Some?;
    var w := WrapCek(c, c.xPub(xKey), c.kemPub(kemKey), cek, r).value;
    var key := WrapKey(c, c.xExchange(xKey, w.xPub).value, c.kemDecap(kemKey, w.kemCt).value,
                       c.xPub(xKey) + c.kemPub(kemKey) + w.xPub);
    assert w.wrapped[..WRAP_NONCE_LEN] == r.nonce;
    assert w.wrapped[WRAP_NONCE_LEN..] == c.aeadSeal(key, r.nonce, cek, []);
  }

  /** Two different inputs of the key derivation with one output. */
  ghost predicate HkdfCollision(c: Suite, ikm: bytes, salt: bytes, ikm': bytes, salt': bytes, info: bytes) {
    (ikm != ikm' || salt != salt') && c.hkdf(ikm, salt, info) == c.hkdf(ikm', salt', info)
  }

  /** A ciphertext made under one key that opens under another. */
  ghost predicate OpensElsewhere(c: Suite, key: bytes, key': bytes, nonce: bytes, p: bytes) {
    key != key' && c.aeadOpen(key', nonce, c.aeadSeal(key, nonce, p, []), []).Some?
  }

  /** Recovery needs both secrets and both public values. Whoever opens a wrap
      has the X25519 secret and the ML-KEM secret of the wrap and names the two
      public values it was made for, unless the key derivation has collided or
      AES-GCM has opened under a key other than the sealing one. */
  lemma RecoveryNeedsBothSecrets(c: Suite, clientX: bytes, clientKem: bytes, cek: bytes, r: WrapCoins, w: Wrap,
                                 xKey: bytes, kemKey: bytes, otherX: bytes, otherKem: bytes)
    requires Lawful(c) && |r.nonce| == 12 && |otherX| == 32
    requires WrapCek(c, clientX, clientKem, cek, r) == Some(w)
    requires UnwrapCek(c, xKey, kemKey, otherX, otherKem, w).Some?
    ensures c.xExchange(r.xKey, clientX).Some? && c.kemEncap(clientKem, r.kem).Some?
    ensures c.xExchange(xKey, w.xPub).Some? && c.kemDecap(kemKey, w.kemCt).Some?
    ensures var s, q := c.xExchange(r.xKey, clientX).value, c.kemEncap(clientKem, r.kem).value.1;
            var s', q' := c.xExchange(xKey, w.xPub).value, c.kemDecap(kemKey, w.kemCt).value;
            var salt, salt' := clientX + clientKem + c.xPub(r.xKey), otherX + otherKem + c.xPub(r.xKey);
            var info := Ascii("botsmaster/krs-cek-hybrid-wrap/v1");
            || (s == s' && q == q' && clientX == otherX && clientKem == otherKem)
            || HkdfCollision(c, s + q, salt, s' + q', salt', info)
            || OpensElsewhere(c, c.hkdf(s + q, salt, info), c.hkdf(s' + q', salt', info), r.nonce, cek)
  {
    var s, q := c.xExchange(r.xKey, clientX).value, c.kemEncap(clientKem, r.kem).value.1;
    var s', q' := c.xExchange(xKey, w.xPub).value, c.kemDecap(kemKey, w.kemCt).value;
    var salt, salt' := clientX + clientKem + w.xPub, otherX + otherKem + w.xPub;
    assert w.wrapped[..12] == r.nonce;
    assert w.wrapped[12..] == c.aeadSeal(c.hkdf(s + q, salt, WRAP_INFO), r.nonce, cek, []);
    if s + q == s' + q' && salt == salt' {
      PrefixSplit(s, q, s', q');
      SaltSplit(clientX, clientKem, otherX, otherKem, w.xPub);
    }
  }

  lemma PrefixSplit(a: bytes, b: bytes, a': bytes, b': bytes)
    requires |a| == |a'| && a + b == a' + b'
    ensures a == a' && b == b'
  {
    assert a == (a + b)[..|a|] && a' == (a' + b')[..|a|];
    assert b == (a + b)[|a|..] && b' == (a' + b')[|a|..];
  }

  lemma SaltSplit(x: bytes, k: bytes, x': bytes, k': bytes, last: bytes)
    requires |x| == |x'| && x + k + last == x' + k' + last
    ensures x == x' && k == k'
  {
    var p, p' := x + k, x' + k';
    assert p == (p + last)[..|p + last| - |last|] && p' == (p' + last)[..|p' + last| - |last|];
    PrefixSplit(x, k, x', k');
  }

  /** In particular the ML-KEM secret alone matters: with everything else the
      same, a different one does not open the wrap. */
  lemma RecoveryNeedsKemSecret(c: Suite, xKey: bytes, kemKey: bytes, otherKem: bytes, cek: bytes, r: WrapCoins, w: Wrap)
    requires Lawful(c) && |r.nonce| == 12
    requires WrapCek(c, c.xPub(xKey), c.kemPub(kemKey), cek, r) == Some(w)
    requires c.kemDecap(otherKem, w.kemCt).Some? && c.kemDecap(otherKem, w.kemCt) != c.kemDecap(kemKey, w.kemCt)
    requires UnwrapCek(c, xKey, otherKem, c.xPub(xKey), c.kemPub(kemKey), w).Some?
    ensures var s := c.xExchange(r.xKey, c.xPub(xKey)).value;
            var q, q' := c.kemDecap(kemKey, w.kemCt).value, c.kemDecap(otherKem, w.kemCt).value;
            var salt, info := c.xPub(xKey) + c.kemPub(kemKey) + w.xPub, Ascii("botsmaster/krs-cek-hybrid-wrap/v1");
            || HkdfCollision(c, s + q, salt, s + q', salt, info)
            || OpensElsewhere(c, c.hkdf(s + q, salt, info), c.hkdf(s + q', salt, info), r.nonce, cek)
  {
    RecoveryNeedsBothSecrets(c, c.xPub(xKey), c.kemPub(kemKey), cek, r, w, xKey, otherKem,
                             c.xPub(xKey), c.kemPub(kemKey));
    assert c.xExchange(r.xKey, c.xPub(xKey)) == c.xExchange(xKey, c.xPub(r.xKey));
  }

  lemma WrapSizes(c: Suite, clientX: bytes, clientKem: bytes, cek: bytes, r: WrapCoins)
    requires Lawful(c) && |r.nonce| == WRAP_NONCE_LEN
    requires WrapCek(c, clientX, clientKem, cek, r).Some?
    ensures var w := WrapCek(c, clientX, clientKem, cek, r).value;
            |w.xPub| == 32 && |w.kemCt| == KEM_CT_LEN && |w.wrapped| == WRAP_NONCE_LEN + |cek| + 16
  {}
}
