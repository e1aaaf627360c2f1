/** Sealed blobs and their two openers: `aes_gcm_seal` and `aes_gcm_open` in
    src/cloud_protection.py, and the Rust function in key_unwrap/src/lib.rs with
    its binding in src/rust_unwrap.py. */
module Unwrap {
  import opened Wrappers
  import opened Bytes
  import opened Crypto

  const INFO := Ascii("cloud-protection/aes-256-gcm/v3")
  const SALT_LEN := 16
  const NONCE_LEN := 12
  const TAG_LEN := 16
  const HEAD_LEN := SALT_LEN + NONCE_LEN

  /** `b[:n]` */
  function Take(b: bytes, n: nat): bytes {
    if |b| < n then b else b[..n]
  }

  function SubKey(c: Suite, master: bytes, salt: bytes): bytes {
    c.hkdf(Take(master, 32), salt, INFO)
  }

  function AesGcmSeal(c: Suite, plaintext: bytes, master: bytes, aad: bytes, salt: bytes, nonce: bytes): bytes {
    salt + nonce + c.aeadSeal(SubKey(c, master, salt), nonce, plaintext, aad)
  }

  datatype OpenError = TooShort | InvalidTag

  function AesGcmOpen(c: Suite, blob: bytes, master: bytes, aad: bytes): Result<bytes, OpenError> {
    if |blob| < HEAD_LEN + TAG_LEN then Err(TooShort)
    else
      var salt, nonce, ct := blob[..SALT_LEN], blob[SALT_LEN..HEAD_LEN], blob[HEAD_LEN..];
      var p := c.aeadOpen(SubKey(c, master, salt), nonce, ct, aad);
      if p.None? then Err(InvalidTag) else Ok(p.value)
  }

  /** What authentic means, for a blob of at least 44 bytes: AES-GCM opens what
      follows the salt and the nonce, with the additional data, under the key
      derived from the first 32 bytes of the master key and the salt. */
  ghost predicate Authenticates(c: Suite, master: bytes, blob: bytes, aad: bytes, p: bytes) {
    && |blob| >= 44
    && c.aeadOpen(c.hkdf(if |master| < 32 then master else master[..32], blob[..16],
                         Ascii("cloud-protection/aes-256-gcm/v3")),
                  blob[16..28], blob[28..], aad) == Some(p)
  }

  lemma OpenExact(c: Suite, blob: bytes, master: bytes, aad: bytes, p: bytes)
    ensures AesGcmOpen(c, blob, master, aad) == Ok(p) <==> Authenticates(c, master, blob, aad, p)
    ensures AesGcmOpen(c, blob, master, aad) == Err(TooShort) <==> |blob| < 44
  {}

  lemma SealThenOpen(c: Suite, p: bytes, master: bytes, aad: bytes, salt: bytes, nonce: bytes)
    requires Lawful(c) && |salt| == SALT_LEN && |nonce| == NONCE_LEN
    ensures AesGcmOpen(c, AesGcmSeal(c, p, master, aad, salt, nonce), master, aad) == Ok(p)
  {
    var ct := c.aeadSeal(SubKey(c, master, salt), nonce, p, aad);
    var blob := salt + nonce + ct;
    assert |ct| == |p| + TAG_LEN;
    assert blob[..SALT_LEN] == salt && blob[SALT_LEN..HEAD_LEN] == nonce && blob[HEAD_LEN..] == ct;
  }

  // ---- the Rust function ---------------------------------------------------------

  const E_NULL := -1
  const E_MASTER_SHORT := -2
  const E_NONCE_LEN := -3
  const E_CT_SHORT := -4
  const E_DECRYPT := -6
  const E_OUT_CAP := -7

  /** A borrowed C buffer: a pointer that may be null, and a length. */
  datatype Slice = Null | Slice(data: bytes)

  class Cell {
    var len: nat

    constructor ()
      ensures len == 0
    {
      len := 0;
    }
  }

  /** The return code when no plaintext is delivered, and the plaintext otherwise. */
  function RustVerdict(c: Suite, master: Slice, salt: Slice, nonce: Slice, ct: Slice, aad: Slice,
                       noOut: bool, cap: nat): Result<bytes, int> {
    if master.Null? || salt.Null? || nonce.Null? || ct.Null? || noOut then Err(E_NULL)
    else if |master.data| < 32 then Err(E_MASTER_SHORT)
    else if |nonce.data| != NONCE_LEN then Err(E_NONCE_LEN)
    else if |ct.data| < TAG_LEN then Err(E_CT_SHORT)
    else if cap < |ct.data| - TAG_LEN then Err(E_OUT_CAP)
    else
      var key := c.hkdf(master.data[..32], salt.data, INFO);
      var p := c.aeadOpen(key, nonce.data, ct.data, if aad.Null? then [] else aad.data);
      if p.None? then Err(E_DECRYPT)
      else if |p.value| > cap then Err(E_OUT_CAP)
      else Ok(p.value)
  }

  ghost predicate Given(master: Slice, salt: Slice, nonce: Slice, ct: Slice, noOut: bool) {
    !master.Null? && !salt.Null? && !nonce.Null? && !ct.Null? && !noOut
  }

  /** What AES-GCM makes of the arguments; a null pointer is no additional data. */
  ghost function Decrypted(c: Suite, master: Slice, salt: Slice, nonce: Slice, ct: Slice, aad: Slice): Option<bytes>
    requires Given(master, salt, nonce, ct, false) && |master.data| >= 32
  {
    c.aeadOpen(c.hkdf(master.data[..32], salt.data, Ascii("cloud-protection/aes-256-gcm/v3")), nonce.data, ct.data,
               if aad == Null then [] else aad.data)
  }

  /** When each code is returned, and when a plaintext. */
  lemma RustVerdictExact(c: Suite, master: Slice, salt: Slice, nonce: Slice, ct: Slice, aad: Slice,
                         noOut: bool, cap: nat, p: bytes)
    ensures var v := RustVerdict(c, master, salt, nonce, ct, aad, noOut, cap);
            && (v == Err(-1) <==> !Given(master, salt, nonce, ct, noOut))
            && (Given(master, salt, nonce, ct, noOut) ==>
                  && (v == Err(-2) <==> |master.data| < 32)
                  && (v == Err(-3) <==> |master.data| >= 32 && |nonce.data| != 12)
                  && (v == Err(-4) <==> |master.data| >= 32 && |nonce.data| == 12 && |ct.data| < 16)
                  && (|master.data| >= 32 && |nonce.data| == 12 && |ct.data| >= 16 ==>
                        var d := Decrypted(c, master, salt, nonce, ct, aad);
                        && (v == Err(-6) <==> cap >= |ct.data| - 16 && d == None)
                        && (v == Err(-7) <==> cap < |ct.data| - 16 || (d.Some? && |d.value| > cap))
                        && (v == Ok(p) <==> cap >= |ct.data| - 16 && d == Some(p) && |p| <= cap)))
  {}

  /** `bmsr_hkdf_aesgcm_open`. Whatever the primitives do, a success writes the
      plaintext within the stated capacity and nothing else, and a failure
      writes nothing. The expand error has no branch: 32 bytes are always within
      the limit of HKDF-SHA512. */
  method BmsrOpen(c: Suite, master: Slice, salt: Slice, nonce: Slice, ct: Slice, aad: Slice,
                  out: array?<byte>, cap: nat, outLen: Cell?) returns (rc: int)
    requires out != null ==> cap <= out.Length
    modifies out, outLen
    ensures var v := RustVerdict(c, master, salt, nonce, ct, aad, out == null || outLen == null, cap);
            && (v.Err? ==> rc == v.error && rc < 0)
            && (v.Err? && out != null ==> out[..] == old(out[..]))
            && (v.Err? && outLen != null ==> outLen.len == old(outLen.len))
            && (v.Ok? ==> rc == 0 && out != null && outLen != null && outLen.len == |v.value| <= cap
                          && out[..|v.value|] == v.value && out[|v.value|..] == old(out[|v.value|..]))
  {
    if master.Null? || salt.Null? || nonce.Null? || ct.Null? || out == null || outLen == null {
      return E_NULL;
    }
    if |master.data| < 32 {
      return E_MASTER_SHORT;
    }
    if |nonce.data| != NONCE_LEN {
      return E_NONCE_LEN;
    }
    if |ct.data| < TAG_LEN {
      return E_CT_SHORT;
    }
    var ptLen := |ct.data| - TAG_LEN;
    if cap < ptLen {
      return E_OUT_CAP;
    }
    var extra := if aad.Null? || |aad.data| == 0 then [] else aad.data;
    assert extra == if aad.Null? then [] else aad.data;
    var subkey := c.hkdf(master.data[..32], salt.data, INFO);
    var answer := c.aeadOpen(subkey, nonce.data, ct.data, extra);
    if answer.None? {
      return E_DECRYPT;
    }
    var pt := answer.value;
    if |pt| != ptLen {
      if |pt| > cap {
        return E_OUT_CAP;
      }
    }
    forall i | 0 <= i < |pt| {
      out[i] := pt[i];
    }
    outLen.len := |pt|;
    return 0;
  }

  // ---- the binding -----------------------------------------------------------------

  datatype RustUnwrapError = NotBuilt | BlobTooShort | Code(rc: int)

  /** What the binding makes of a blob when the library is present. */
  function RustOpen(c: Suite, master: bytes, blob: bytes, aad: bytes): Result<bytes, RustUnwrapError> {
    if |blob| < HEAD_LEN + TAG_LEN then Err(BlobTooShort)
    else
      var v := RustVerdict(c, Slice(master), Slice(blob[..SALT_LEN]), Slice(blob[SALT_LEN..HEAD_LEN]),
                           Slice(blob[HEAD_LEN..]), Slice(aad), false, |blob| - HEAD_LEN - TAG_LEN);
      if v.Err? then Err(Code(v.error)) else Ok(v.value)
  }

  /** `hkdf_aesgcm_open`: allocates the output buffer and the length cell, calls
      the Rust function and reads both back. */
  method HkdfAesGcmOpen(c: Suite, built: bool, master: bytes, blob: bytes, aad: bytes)
    returns (r: Result<bytes, RustUnwrapError>)
    ensures r == if built then RustOpen(c, master, blob, aad) else Err(NotBuilt)
  {
    if !built {
      return Err(NotBuilt);
    }
    if |blob| < HEAD_LEN + TAG_LEN {
      return Err(BlobTooShort);
    }
    var salt, nonce, ct := blob[..SALT_LEN], blob[SALT_LEN..HEAD_LEN], blob[HEAD_LEN..];
    var cap := |ct| - TAG_LEN;
    var out := new byte[if cap > 1 then cap else 1](i => 0);
    var outLen := new Cell();
    var rc := BmsrOpen(c, Slice(master), Slice(salt), Slice(nonce), Slice(ct), Slice(aad), out, cap, outLen);
    if rc != 0 {
      return Err(Code(rc));
    }
    r := Ok(out[..outLen.len]);
  }

  /** The binding delivers authentic plaintext, if the master key is long enough. */
  lemma RustOpenExact(c: Suite, master: bytes, blob: bytes, aad: bytes, p: bytes)
    ensures RustOpen(c, master, blob, aad) == Ok(p) <==>
            |master| >= 32 && Authenticates(c, master, blob, aad, p) && |p| + 44 <= |blob|
    ensures RustOpen(c, master, blob, aad) == Err(BlobTooShort) <==> |blob| < 44
    ensures RustOpen(c, master, blob, aad) == Err(Code(-2)) <==> |blob| >= 44 && |master| < 32
  {}

  function Opened<E>(r: Result<bytes, E>): Option<bytes> {
    if r.Ok? then Some(r.value) else None
  }

  /** For a master key of at least 32 bytes the two openers accept the same
      blobs with the same plaintext, and the binding never sees the capacity
      error, nor any other code but the one for a refused ciphertext. */
  lemma OpenersAgree(c: Suite, master: bytes, blob: bytes, aad: bytes)
    requires Lawful(c) && |master| >= 32
    ensures Opened(RustOpen(c, master, blob, aad)) == Opened(AesGcmOpen(c, blob, master, aad))
    ensures RustOpen(c, master, blob, aad).Err? && |blob| >= HEAD_LEN + TAG_LEN ==>
              RustOpen(c, master, blob, aad) == Err(Code(E_DECRYPT))
  {}

  ghost predicate AgreeOnAll(c: Suite, master: bytes) {
    forall blob, aad :: Opened(RustOpen(c, master, blob, aad)) == Opened(AesGcmOpen(c, blob, master, aad))
  }

  /** And 32 bytes is exactly the condition: for a shorter key Python still opens
      what was sealed with it, and Rust refuses. */
  lemma OpenersAgreeExactly(c: Suite, master: bytes)
    requires Lawful(c)
    ensures AgreeOnAll(c, master) <==> |master| >= 32
  {
    if |master| >= 32 {
      forall blob, aad ensures Opened(RustOpen(c, master, blob, aad)) == Opened(AesGcmOpen(c, blob, master, aad)) {
        OpenersAgree(c, master, blob, aad);
      }
    } else {
      var blob := AesGcmSeal(c, [], master, [], Zeros(SALT_LEN), Zeros(NONCE_LEN));
      SealThenOpen(c, [], master, [], Zeros(SALT_LEN), Zeros(NONCE_LEN));
      assert Opened(RustOpen(c, master, blob, [])) != Opened(AesGcmOpen(c, blob, master, []));
    }
  }
}
