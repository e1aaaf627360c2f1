/** The computations of the key-release exchange: what the server binds, signs
    and answers (src/krs_server.py) and what the client checks (src/krs_client.py).
    Hex, base64 and JSON text are taken as lossless, so messages are records. */
module KeyRelease {
  import opened Wrappers
  import opened Bytes
  import opened Crypto
  import opened Framing
  import opened Hybrid
  import opened Attestation
  import RC = ReplayCache

  // ---- binding -------------------------------------------------------------

  const BIND_TAG := Ascii("botsmaster-snp-binding-v2-hybrid")

  function BindingPreimage(xPub: bytes, kemPub: bytes, nonce: bytes): bytes {
    xPub + kemPub + nonce + BIND_TAG
  }

  /** `report_data_for` */
  function ReportDataFor(c: Suite, xPub: bytes, kemPub: bytes, nonce: bytes): bytes {
    c.sha256(BindingPreimage(xPub, kemPub, nonce))
  }

  /** With the handler's two 32-byte checks the unframed concatenation is
      injective, although the field in the middle has any length. */
  lemma BindingInjective(x: bytes, k: bytes, n: bytes, x': bytes, k': bytes, n': bytes)
    requires |x| == |x'| == 32 && |n| == |n'| == 32
    ensures BindingPreimage(x, k, n) == BindingPreimage(x', k', n') <==> x == x' && k == k' && n == n'
  {
    var p, p' := BindingPreimage(x, k, n), BindingPreimage(x', k', n');
    if p == p' {
      var e, e' := 32 + |k|, 32 + |k'|;
      assert |p| == e + 32 + |BIND_TAG| && |p'| == e' + 32 + |BIND_TAG|;
      assert x == p[..32] == p'[..32] == x';
      assert k == p[32..e] == p'[32..e'] == k';
      assert n == p[e..e + 32] == p'[e'..e' + 32] == n';
    }
  }

  /** Without the check on the nonce length it is not: a byte can move from the
      key into the nonce. */
  lemma BindingAmbiguousWithoutSizes(x: bytes, k: bytes, b: byte, n: bytes)
    ensures BindingPreimage(x, k + [b], n) == BindingPreimage(x, k, [b] + n)
    ensures k + [b] != k
  {}

  /** Two different byte strings with one hash. */
  ghost predicate Collision(c: Suite, p: bytes, q: bytes) {
    p != q && c.sha256(p) == c.sha256(q)
  }

  // ---- messages ------------------------------------------------------------

  datatype Body = Body(report: bytes, xPub: bytes, kemPub: bytes, nonce: bytes)

  /** A request as it arrives; `None` is a body that does not decode. */
  datatype Request = Request(path: string, body: Option<Body>)

  datatype Grant = Grant(w: Wrap, measurement: bytes, nonceEcho: bytes, signature: bytes)

  datatype Payload = Refusal(reason: string) | Release(grant: Grant)

  datatype Http = Http(status: nat, payload: Payload)

  const DENIED := Http(403, Refusal("denied"))

  /** The bytes both signatures cover: five fields, concatenated without framing. */
  function SignedBytes(w: Wrap, measurement: bytes, nonce: bytes): bytes {
    w.xPub + w.kemCt + w.wrapped + measurement + nonce
  }

  /** Equal signed bytes have equal nonces, and equal fields as soon as the
      sizes of all but one of the others agree. */
  lemma SignedBytesSplit(w: Wrap, m: bytes, n: bytes, w': Wrap, m': bytes, n': bytes)
    requires |n| == |n'| && SignedBytes(w, m, n) == SignedBytes(w', m', n')
    ensures n == n'
    ensures |w.xPub| == |w'.xPub| && |w.kemCt| == |w'.kemCt| && |m| == |m'| ==> w == w' && m == m'
  {
    var s, s' := SignedBytes(w, m, n), SignedBytes(w', m', n');
    assert n == s[|s| - |n|..] == s'[|s'| - |n'|..] == n';
    if |w.xPub| == |w'.xPub| && |w.kemCt| == |w'.kemCt| && |m| == |m'| {
      var a := |w.xPub|;
      var b := a + |w.kemCt|;
      var d := |s| - |n| - |m|;
      assert w.xPub == s[..a] == s'[..a] == w'.xPub;
      assert w.kemCt == s[a..b] == s'[a..b] == w'.kemCt;
      assert w.wrapped == s[b..d] == s'[b..d] == w'.wrapped;
      assert m == s[d..d + |m|] == s'[d..d + |m|] == m';
    }
  }

  /** A byte moved from the end of the wrapped key into the measurement keeps them. */
  lemma SignedBytesShift(w: Wrap, b: byte, m: bytes, n: bytes)
    ensures SignedBytes(w.(wrapped := w.wrapped + [b]), m, n) == SignedBytes(w, [b] + m, n)
  {
    assert w.wrapped + [b] + m == w.wrapped + ([b] + m);
  }

  // ---- server --------------------------------------------------------------

  /** `KrsConfig`, its cache capacity, and the assumption of a run: a broken
      signature scheme is one the network can forge. */
  datatype Config = Config(
    suite: Suite, edKey: bytes, mldsaKey: bytes, cek: bytes,
    verifier: Option<Verifier>, production: bool, cap: nat,
    edBroken: bool, mldsaBroken: bool)

  ghost predicate Valid(cfg: Config) {
    Lawful(cfg.suite) && |cfg.cek| == 32 && cfg.cap >= 1
  }

  datatype DenyReason =
    | BadPath | BadBody | BadParams | Replay | NoVerifier
    | NotAttested(error: AttestationError) | WrapFailed | SignFailed(frameError: FrameError)

  /** The checks before the replay cache is consulted. */
  function Screen(req: Request): Option<DenyReason> {
    if req.path != "/verify" then Some(BadPath)
    else if req.body.None? then Some(BadBody)
    else if |req.body.value.xPub| != 32 || |req.body.value.nonce| != 32 then Some(BadParams)
    else None
  }

  /** The path and the two sizes the handler insists on. */
  predicate WellFormed(req: Request) {
    req.path == "/verify" && req.body.Some? && |req.body.value.xPub| == 32 && |req.body.value.nonce| == 32
  }

  /** The checks pass exactly for well-formed requests, and are made in order. */
  lemma ScreenExact(req: Request)
    ensures Screen(req) == None <==> WellFormed(req)
    ensures Screen(req) == Some(BadPath) <==> req.path != "/verify"
    ensures Screen(req) == Some(BadBody) <==> req.path == "/verify" && req.body == None
    ensures Screen(req) == Some(BadParams) <==>
            && req.path == "/verify" && req.body.Some?
            && !(|req.body.value.xPub| == 32 && |req.body.value.nonce| == 32)
  {}

  /** `b"\xde\xad" * n` */
  function DeadBytes(n: nat): (b: bytes)
    ensures |b| == 2 * n
    ensures forall i :: 0 <= i < 2 * n ==> b[i] == if i % 2 == 0 then 0xDE else 0xAD
  {
    if n == 0 then [] else [0xDE, 0xAD] + DeadBytes(n - 1)
  }

  function Attest(cfg: Config, b: Body, chain: bool): Result<bytes, DenyReason> {
    if !cfg.production then Ok(DeadBytes(24))
    else if cfg.verifier.None? then Err(NoVerifier)
    else
      var r := Verify(cfg.verifier.value, chain, b.report, ReportDataFor(cfg.suite, b.xPub, b.kemPub, b.nonce));
      if r.Err? then Err(NotAttested(r.error)) else Ok(r.value)
  }

  /** In production, and only there, the report must be genuine for the request's
      public values and nonce. */
  ghost predicate Entitled(cfg: Config, b: Body, chain: bool) {
    cfg.production ==>
      && cfg.verifier.Some?
      && Genuine(cfg.verifier.value, chain, b.report,
                 cfg.suite.sha256(b.xPub + b.kemPub + b.nonce + Ascii("botsmaster-snp-binding-v2-hybrid")))
  }

  /** The report's measurement in production, and a fixed pattern otherwise. */
  ghost predicate Measured(cfg: Config, b: Body, m: bytes) {
    if cfg.production then |b.report| >= 0x0C0 && m == b.report[0x090..0x0C0]
    else |m| == 48 && forall i :: 0 <= i < 48 ==> m[i] == if i % 2 == 0 then 0xDE else 0xAD
  }

  /** The server attests exactly the requests that are to be attested, with
      exactly that measurement. */
  lemma AttestExact(cfg: Config, b: Body, chain: bool, m: bytes)
    ensures Attest(cfg, b, chain).Ok? <==> Entitled(cfg, b, chain)
    ensures Attest(cfg, b, chain) == Ok(m) <==> Entitled(cfg, b, chain) && Measured(cfg, b, m)
    ensures Attest(cfg, b, chain) == Err(NoVerifier) <==> cfg.production && cfg.verifier == None
  {
    if cfg.production {
      if cfg.verifier.Some? {
        VerifyExact(cfg.verifier.value, chain, b.report, ReportDataFor(cfg.suite, b.xPub, b.kemPub, b.nonce));
      }
    } else if Measured(cfg, b, m) {
      assert m == DeadBytes(24);
    }
  }

  lemma EntitledAttests(cfg: Config, b: Body, chain: bool) returns (m: bytes)
    requires Entitled(cfg, b, chain)
    ensures Attest(cfg, b, chain) == Ok(m) && Measured(cfg, b, m)
  {
    AttestExact(cfg, b, chain, []);
    m := Attest(cfg, b, chain).value;
    AttestExact(cfg, b, chain, m);
  }

  /** A report requested with one nonce, as the bootstrap does before it opens the
      session, does not attest a request that carries another, unless SHA-256
      has been made to collide. */
  lemma ReportBindsItsNonce(cfg: Config, b: Body, nonce: bytes, chain: bool)
    requires Valid(cfg) && cfg.production && |b.xPub| == 32 && |b.nonce| == |nonce| == 32
    requires |b.report| >= REPORT_LEN
    requires ReportData(b.report) == FitTo(ReportDataFor(cfg.suite, b.xPub, b.kemPub, nonce), 64)
    requires Attest(cfg, b, chain).Ok?
    ensures b.nonce == nonce || Collision(cfg.suite, BindingPreimage(b.xPub, b.kemPub, nonce),
                                          BindingPreimage(b.xPub, b.kemPub, b.nonce))
  {
    var p, q := BindingPreimage(b.xPub, b.kemPub, nonce), BindingPreimage(b.xPub, b.kemPub, b.nonce);
    assert |cfg.suite.sha256(p)| == 32 && |cfg.suite.sha256(q)| == 32;
    FetchedBindingIsExact(cfg.suite.sha256(p), cfg.suite.sha256(q), b.report);
    BindingInjective(b.xPub, b.kemPub, nonce, b.xPub, b.kemPub, b.nonce);
  }

  lemma AttestedLength(cfg: Config, b: Body, chain: bool)
    ensures Attest(cfg, b, chain).Ok? ==> |Attest(cfg, b, chain).value| == 48
  {}

  /** A release needs a well-formed request, a nonce not in the cache, an attested
      report and usable public values. */
  ghost predicate Releases(cfg: Config, seen: set<bytes>, req: Request, chain: bool, coins: WrapCoins) {
    && WellFormed(req) && cfg.suite.sha256(req.body.value.nonce) !in seen
    && Entitled(cfg, req.body.value, chain)
    && cfg.suite.xExchange(coins.xKey, req.body.value.xPub).Some?
    && cfg.suite.kemEncap(req.body.value.kemPub, coins.kem).Some?
  }

  /** These are the handler's own checks. */
  lemma ReleasesExact(cfg: Config, seen: set<bytes>, req: Request, chain: bool, coins: WrapCoins)
    ensures Releases(cfg, seen, req, chain, coins) <==>
            && Screen(req) == None && cfg.suite.sha256(req.body.value.nonce) !in seen
            && Attest(cfg, req.body.value, chain).Ok?
            && WrapCek(cfg.suite, req.body.value.xPub, req.body.value.kemPub, cfg.cek, coins).Some?
  {
    ScreenExact(req);
    if Screen(req) == None {
      AttestExact(cfg, req.body.value, chain, []);
    }
  }

  /** The response to a request: the wrapped key and the attested measurement,
      signed with the request's nonce, or the one refusal. */
  ghost predicate Answers(cfg: Config, seen: set<bytes>, req: Request, chain: bool, coins: WrapCoins,
                          mldsaCoins: bytes, http: Http)
  {
    && (http == DENIED || http.status == 200)
    && (http.status == 200 <==> Releases(cfg, seen, req, chain, coins))
    && (http.status == 200 ==>
          var b := req.body.value;
          && http.payload.Release?
          && var g := http.payload.grant;
             && Some(g.w) == WrapCek(cfg.suite, b.xPub, b.kemPub, cfg.cek, coins)
             && Measured(cfg, b, g.measurement) && g.nonceEcho == b.nonce
             && var msg := g.w.xPub + g.w.kemCt + g.w.wrapped + g.measurement + b.nonce;
                Ok(g.signature) == Frame([cfg.suite.edSign(cfg.edKey, msg),
                                          cfg.suite.mldsaSign(cfg.mldsaKey, msg, mldsaCoins)]))
  }

  /** Why a request is refused: the first check that fails. */
  function Reason(cfg: Config, seen: set<bytes>, req: Request, chain: bool): DenyReason {
    if req.path != "/verify" then BadPath
    else if req.body == None then BadBody
    else if !WellFormed(req) then BadParams
    else if cfg.suite.sha256(req.body.value.nonce) in seen then Replay
    else
      var m := Attest(cfg, req.body.value, chain);
      if m.Err? then m.error else WrapFailed
  }

  /** A well-formed request with a new nonce spends it, released or not. */
  function SeenAfter(cfg: Config, seen: set<bytes>, req: Request): set<bytes> {
    if WellFormed(req) && cfg.suite.sha256(req.body.value.nonce) !in seen
    then RC.AfterAdmit(seen, cfg.cap, cfg.suite.sha256(req.body.value.nonce)) else seen
  }

  /** The service object with its replay cache, serving one request at a time. */
  class KrsServer {
    const cfg: Config
    const cache: RC.ServerCache

    constructor (cfg: Config)
      ensures this.cfg == cfg && fresh(cache) && cache.cap == cfg.cap && cache.seen == {}
    {
      this.cfg := cfg;
      cache := new RC.ServerCache(cfg.cap);
    }

    /** `do_POST`. The signature of a release verifies under the server's keys. */
    method DoPost(req: Request, chain: bool, coins: WrapCoins, mldsaCoins: bytes) returns (http: Http)
      requires Valid(cfg) && cache.cap == cfg.cap && |coins.nonce| == WRAP_NONCE_LEN
      modifies cache
      ensures Answers(cfg, old(cache.seen), req, chain, coins, mldsaCoins, http)
      ensures http.status == 200 ==>
              && req.body.Some? && http.payload.Release?
              && var g := http.payload.grant;
                 HybridVerify(cfg.suite, cfg.suite.edPub(cfg.edKey), cfg.suite.mldsaPub(cfg.mldsaKey),
                              SignedBytes(g.w, g.measurement, req.body.value.nonce), g.signature) == Ok(true)
      ensures cache.seen == SeenAfter(cfg, old(cache.seen), req)
    {
      ReleasesExact(cfg, cache.seen, req, chain, coins);
      ScreenExact(req);
      if Screen(req).Some? {
        return DENIED;
      }
      var b := req.body.value;
      var fresh' := cache.Fresh(cfg.suite.sha256(b.nonce));
      if !fresh' {
        return DENIED;
      }
      var measurement := Attest(cfg, b, chain);
      if measurement.Err? {
        return DENIED;
      }
      AttestExact(cfg, b, chain, measurement.value);
      var w := WrapCek(cfg.suite, b.xPub, b.kemPub, cfg.cek, coins);
      if w.None? {
        return DENIED;
      }
      var msg := SignedBytes(w.value, measurement.value, b.nonce);
      HybridSignVerifies(cfg.suite, cfg.edKey, cfg.mldsaKey, msg, mldsaCoins);
      var sig := HybridSign(cfg.suite, cfg.edKey, cfg.mldsaKey, msg, mldsaCoins);
      http := Http(200, Release(Grant(w.value, measurement.value, b.nonce, sig.value)));
    }
  }

  // ---- client --------------------------------------------------------------

  datatype KrsError = Malformed | Refused | BadFrame(error: FrameError) | BadSignature | NonceMismatch | UnwrapFailed

  /** A reply after JSON decoding: not decodable, not `verified`, or six fields
      of any length. */
  datatype Reply = Garbled | NotVerified | Verified(grant: Grant)

  datatype ClientKeys = ClientKeys(xKey: bytes, kemKey: bytes)

  /** The checks of `release` on a reply, in order. */
  function CheckReply(cfg: Config, keys: ClientKeys, nonce: bytes, reply: Reply): Result<(bytes, bytes), KrsError> {
    var c := cfg.suite;
    match reply
    case Garbled => Err(Malformed)
    case NotVerified => Err(Refused)
    case Verified(g) =>
      var ok := HybridVerify(c, c.edPub(cfg.edKey), c.mldsaPub(cfg.mldsaKey),
                             SignedBytes(g.w, g.measurement, nonce), g.signature);
      if ok.Err? then Err(BadFrame(ok.error))
      else if !ok.value then Err(BadSignature)
      else if g.nonceEcho != nonce then Err(NonceMismatch)
      else
        var cek := UnwrapCek(c, keys.xKey, keys.kemKey, c.xPub(keys.xKey), c.kemPub(keys.kemKey), g.w);
        if cek.None? then Err(UnwrapFailed) else Ok((cek.value, g.measurement))
  }

  /** Both signatures are there and verify over the five fields in order. */
  ghost predicate SignedReply(cfg: Config, nonce: bytes, g: Grant) {
    var c, msg := cfg.suite, g.w.xPub + g.w.kemCt + g.w.wrapped + g.measurement + nonce;
    exists ed, mldsa ::
      && Unframe(g.signature) == Ok([ed, mldsa])
      && c.edVerify(c.edPub(cfg.edKey), msg, ed) && c.mldsaVerify(c.mldsaPub(cfg.mldsaKey), msg, mldsa)
  }

  /** The wrapped key opens, under the key derived from both secrets and from the
      client's and the server's public values. */
  ghost predicate OpensTo(c: Suite, keys: ClientKeys, w: Wrap, cek: bytes) {
    var s, q := c.xExchange(keys.xKey, w.xPub), c.kemDecap(keys.kemKey, w.kemCt);
    && s.Some? && q.Some?
    && var key := c.hkdf(s.value + q.value, c.xPub(keys.xKey) + c.kemPub(keys.kemKey) + w.xPub,
                         Ascii("botsmaster/krs-cek-hybrid-wrap/v1"));
       var cut := if |w.wrapped| < 12 then |w.wrapped| else 12;
       c.aeadOpen(key, w.wrapped[..cut], w.wrapped[cut..], []) == Some(cek)
  }

  lemma UnwrapExact(c: Suite, keys: ClientKeys, w: Wrap, cek: bytes)
    ensures UnwrapCek(c, keys.xKey, keys.kemKey, c.xPub(keys.xKey), c.kemPub(keys.kemKey), w) == Some(cek)
       <==> OpensTo(c, keys, w, cek)
  {}

  lemma SignedReplyExact(cfg: Config, nonce: bytes, g: Grant)
    ensures var c := cfg.suite;
            HybridVerify(c, c.edPub(cfg.edKey), c.mldsaPub(cfg.mldsaKey),
                         SignedBytes(g.w, g.measurement, nonce), g.signature) == Ok(true)
            <==> SignedReply(cfg, nonce, g)
  {
    var parts := Unframe(g.signature);
    if parts.Ok? && |parts.value| == 2 {
      assert parts.value == [parts.value[0], parts.value[1]];
    }
  }

  /** What a client returns and why it fails: the key and measurement of a reply
      exactly if the signatures verify, the nonce is echoed and the key opens;
      otherwise the error of the first of these that does not hold. */
  lemma CheckReplyExact(cfg: Config, keys: ClientKeys, nonce: bytes, g: Grant, cek: bytes, m: bytes)
    ensures var r := CheckReply(cfg, keys, nonce, Verified(g));
            && (r == Ok((cek, m)) <==>
                  && SignedReply(cfg, nonce, g) && g.nonceEcho == nonce
                  && OpensTo(cfg.suite, keys, g.w, cek) && m == g.measurement)
            && (r.Err? && r.error.BadFrame? <==> Unframe(g.signature).Err?)
            && (r == Err(BadSignature) <==> Unframe(g.signature).Ok? && !SignedReply(cfg, nonce, g))
            && (r == Err(NonceMismatch) <==> SignedReply(cfg, nonce, g) && g.nonceEcho != nonce)
            && (r == Err(UnwrapFailed) <==>
                  && SignedReply(cfg, nonce, g) && g.nonceEcho == nonce
                  && forall k :: !OpensTo(cfg.suite, keys, g.w, k))
    ensures CheckReply(cfg, keys, nonce, Garbled) == Err(Malformed)
    ensures CheckReply(cfg, keys, nonce, NotVerified) == Err(Refused)
  {
    SignedReplyExact(cfg, nonce, g);
    var c := cfg.suite;
    var answer := UnwrapCek(c, keys.xKey, keys.kemKey, c.xPub(keys.xKey), c.kemPub(keys.kemKey), g.w);
    forall k ensures answer == Some(k) <==> OpensTo(c, keys, g.w, k) {
      UnwrapExact(cfg.suite, keys, g.w, k);
    }
  }
}
