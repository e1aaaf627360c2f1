/** Every interleaving of key-release handlers and client sessions. A handler
    runs as parse, atomic replay check, attestation, wrap, sign and respond. The
    network may drop, duplicate, reorder, cross-deliver or invent replies, as far
    as an unbroken signature scheme lets it; requests reach handlers unaltered
    any number of times, and other authenticated parties may send any request
    except one that repeats the secret nonce of a running session. */
module KeyReleaseProtocol {
  import opened Wrappers
  import opened Bytes
  import opened Crypto
  import opened Framing
  import opened Hybrid
  import opened Attestation
  import opened KeyRelease
  import RC = ReplayCache

  // ---- states --------------------------------------------------------------

  /** How far a handler has come, with everything it decided on the way. `slot`
      is the position of its nonce among all accepted ones; a refused handler
      has one if it was refused after the replay check. */
  datatype Phase =
    | Denied(reason: DenyReason, at: Option<nat>)
    | Parsed
    | Fresh(slot: nat)
    | Attested(slot: nat, chain: bool, m: bytes)
    | Wrapped(slot: nat, chain: bool, m: bytes, coins: WrapCoins, w: Wrap)
    | Signed(slot: nat, chain: bool, m: bytes, coins: WrapCoins, w: Wrap, sig: bytes)
    | Released(slot: nat, chain: bool, m: bytes, coins: WrapCoins, w: Wrap, sig: bytes)

  datatype Handler = Handler(req: Request, phase: Phase)

  datatype Outcome = Waiting | Failed(error: KrsError) | Returned(reply: Grant, cek: bytes, m: bytes)

  datatype Client = Client(keys: ClientKeys, report: bytes, nonce: bytes, outcome: Outcome)

  datatype State = State(
    handlers: map<nat, Handler>, clients: map<nat, Client>,
    requests: set<Request>, cache: RC.History, signed: set<bytes>)

  const INIT := State(map[], map[], {}, RC.History({}, []), {})

  function ClientRequest(cfg: Config, cl: Client): Request {
    Request("/verify", Some(Body(cl.report, cfg.suite.xPub(cl.keys.xKey), cfg.suite.kemPub(cl.keys.kemKey), cl.nonce)))
  }

  /** What a handler has sent, if anything. */
  function Response(h: Handler): Option<Http> {
    match h.phase
    case Denied(_, _) => Some(DENIED)
    case Released(_, _, m, _, w, sig) =>
      if h.req.body.None? then None else Some(Http(200, Release(Grant(w, m, h.req.body.value.nonce, sig))))
    case _ => None
  }

  // ---- steps ---------------------------------------------------------------

  datatype Step =
    | StartClient(cid: nat, keys: ClientKeys, report: bytes, nonce: bytes)
    | InjectRequest(req: Request)
    | Accept(hid: nat, req: Request)
    | CheckReplay(hid: nat)
    | DoAttest(hid: nat, chain: bool)
    | DoWrap(hid: nat, coins: WrapCoins)
    | DoSign(hid: nat, mldsaCoins: bytes)
    | Respond(hid: nat)
    | Deliver(cid: nat, reply: Reply)

  /** An unbroken scheme verifies a message only if a handler has signed it. */
  predicate Unforgeable(cfg: Config, s: State, msg: bytes, sig: bytes) {
    var c, parts := cfg.suite, Unframe(sig);
    parts.Ok? && |parts.value| == 2 && msg !in s.signed ==>
      && (cfg.edBroken || !c.edVerify(c.edPub(cfg.edKey), msg, parts.value[0]))
      && (cfg.mldsaBroken || !c.mldsaVerify(c.mldsaPub(cfg.mldsaKey), msg, parts.value[1]))
  }

  predicate UsesNonce(req: Request, nonce: bytes) {
    req.body.Some? && req.body.value.nonce == nonce
  }

  predicate InPhase(s: State, hid: nat, p: Phase -> bool) {
    hid in s.handlers && s.handlers[hid].req.body.Some? && p(s.handlers[hid].phase)
  }

  predicate Enabled(cfg: Config, s: State, step: Step) {
    match step
    case StartClient(cid, _, _, nonce) =>
      cid !in s.clients && |nonce| == 32 && forall r :: r in s.requests ==> !UsesNonce(r, nonce)
    case InjectRequest(req) =>
      forall cid :: cid in s.clients && s.clients[cid].outcome.Waiting? ==> !UsesNonce(req, s.clients[cid].nonce)
    case Accept(hid, req) => hid !in s.handlers && req in s.requests
    case CheckReplay(hid) => InPhase(s, hid, (p: Phase) => p.Parsed?)
    case DoAttest(hid, _) => InPhase(s, hid, (p: Phase) => p.Fresh?)
    case DoWrap(hid, coins) => InPhase(s, hid, (p: Phase) => p.Attested?) && |coins.nonce| == WRAP_NONCE_LEN
    case DoSign(hid, _) => InPhase(s, hid, (p: Phase) => p.Wrapped?)
    case Respond(hid) => InPhase(s, hid, (p: Phase) => p.Signed?)
    case Deliver(cid, reply) =>
      && cid in s.clients && s.clients[cid].outcome.Waiting?
      && (reply.Verified? ==>
            var g := reply.grant;
            Unforgeable(cfg, s, SignedBytes(g.w, g.measurement, s.clients[cid].nonce), g.signature))
  }

  function SetPhase(s: State, hid: nat, p: Phase): State
    requires hid in s.handlers
  {
    s.(handlers := s.handlers[hid := s.handlers[hid].(phase := p)])
  }

  function Judge(r: Result<(bytes, bytes), KrsError>, reply: Reply): Outcome {
    if r.Err? || !reply.Verified? then Failed(if r.Err? then r.error else Malformed)
    else Returned(reply.grant, r.value.0, r.value.1)
  }

  function Apply(cfg: Config, s: State, step: Step): State
    requires Enabled(cfg, s, step)
  {
    match step
    case StartClient(cid, keys, report, nonce) =>
      var cl := Client(keys, report, nonce, Waiting);
      s.(clients := s.clients[cid := cl], requests := s.requests + {ClientRequest(cfg, cl)})
    case InjectRequest(req) => s.(requests := s.requests + {req})
    case Accept(hid, req) =>
      var deny := Screen(req);
      s.(handlers := s.handlers[hid := Handler(req, if deny.Some? then Denied(deny.value, None) else Parsed)])
    case CheckReplay(hid) =>
      var h := cfg.suite.sha256(s.handlers[hid].req.body.value.nonce);
      if h in s.cache.seen then SetPhase(s, hid, Denied(Replay, None))
      else SetPhase(s, hid, Fresh(|s.cache.accepted|)).(cache := RC.Offer(s.cache, cfg.cap, h))
    case DoAttest(hid, chain) =>
      var h := s.handlers[hid];
      var r := Attest(cfg, h.req.body.value, chain);
      SetPhase(s, hid, if r.Err? then Denied(r.error, Some(h.phase.slot))
                       else Attested(h.phase.slot, chain, r.value))
    case DoWrap(hid, coins) =>
      var h := s.handlers[hid];
      var w := WrapCek(cfg.suite, h.req.body.value.xPub, h.req.body.value.kemPub, cfg.cek, coins);
      SetPhase(s, hid, if w.None? then Denied(WrapFailed, Some(h.phase.slot))
                       else Wrapped(h.phase.slot, h.phase.chain, h.phase.m, coins, w.value))
    case DoSign(hid, mldsaCoins) =>
      var h := s.handlers[hid];
      var p := h.phase;
      var msg := SignedBytes(p.w, p.m, h.req.body.value.nonce);
      var sig := HybridSign(cfg.suite, cfg.edKey, cfg.mldsaKey, msg, mldsaCoins);
      var p' := if sig.Err? then Denied(SignFailed(sig.error), Some(p.slot))
                else Signed(p.slot, p.chain, p.m, p.coins, p.w, sig.value);
      SetPhase(s, hid, p').(signed := s.signed + {msg})
    case Respond(hid) =>
      var p := s.handlers[hid].phase;
      SetPhase(s, hid, Released(p.slot, p.chain, p.m, p.coins, p.w, p.sig))
    case Deliver(cid, reply) =>
      var cl := s.clients[cid];
      s.(clients := s.clients[cid := cl.(outcome := Judge(CheckReply(cfg, cl.keys, cl.nonce, reply), reply))])
  }

  /** The state after a run from `s`; `None` if some step was not enabled. */
  function Exec(cfg: Config, s: State, steps: seq<Step>): Option<State>
    decreases |steps|
  {
    if steps == [] then Some(s)
    else if !Enabled(cfg, s, steps[0]) then None
    else Exec(cfg, Apply(cfg, s, steps[0]), steps[1..])
  }

  // ---- the invariant ---------------------------------------------------------

  /** Where the nonce stands among the accepted ones, from the replay check on. */
  function Slot(p: Phase): Option<nat> {
    if p.Denied? then p.at else if p.Parsed? then None else Some(p.slot)
  }

  predicate HasSlot(p: Phase) {
    Slot(p).Some?
  }

  predicate HasSigned(h: Handler) {
    h.req.body.Some? && (h.phase.Signed? || h.phase.Released?)
  }

  /** Everything a handler holds is what the server computes from its request. */
  ghost predicate HandlerOk(cfg: Config, accepted: seq<bytes>, h: Handler) {
    var p := h.phase;
    && SlotOk(cfg, accepted, h)
    && (!p.Denied? ==>
          && Screen(h.req) == None
          && var b := h.req.body.value;
             && (!p.Parsed? && !p.Fresh? ==> Attest(cfg, b, p.chain) == Ok(p.m))
             && (!p.Parsed? && !p.Fresh? && !p.Attested? ==>
                   |p.coins.nonce| == WRAP_NONCE_LEN
                   && WrapCek(cfg.suite, b.xPub, b.kemPub, cfg.cek, p.coins) == Some(p.w)))
  }

  ghost predicate SlotOk(cfg: Config, accepted: seq<bytes>, h: Handler) {
    var slot := Slot(h.phase);
    slot.Some? ==>
      && h.req.body.Some? && slot.value < |accepted|
      && accepted[slot.value] == cfg.suite.sha256(h.req.body.value.nonce)
  }

  ghost predicate HandlersOk(cfg: Config, s: State) {
    forall hid :: hid in s.handlers ==>
      s.handlers[hid].req in s.requests && HandlerOk(cfg, s.cache.accepted, s.handlers[hid])
  }

  ghost predicate SlotsDistinct(s: State) {
    forall i, j :: i in s.handlers && j in s.handlers && i != j
      && HasSlot(s.handlers[i].phase)
      ==> Slot(s.handlers[i].phase) != Slot(s.handlers[j].phase)
  }

  /** While a session is running its nonce occurs in no request but its own. */
  ghost predicate NoncesOwned(cfg: Config, s: State) {
    forall cid :: cid in s.clients && s.clients[cid].outcome.Waiting? ==>
      && ClientRequest(cfg, s.clients[cid]) in s.requests
      && forall r :: r in s.requests && UsesNonce(r, s.clients[cid].nonce) ==> r == ClientRequest(cfg, s.clients[cid])
  }

  ghost predicate SignedByHandler(s: State, msg: bytes, hid: nat) {
    hid in s.handlers && HasSigned(s.handlers[hid])
    && msg == SignedBytes(s.handlers[hid].phase.w, s.handlers[hid].phase.m, s.handlers[hid].req.body.value.nonce)
  }

  ghost predicate SignedOk(s: State) {
    forall msg :: msg in s.signed ==> exists hid :: SignedByHandler(s, msg, hid)
  }

  /** The client and the handler ran one exchange: same request, hence same
      keys, report and nonce; the reply carries, in one string, what the handler
      signed; it carries the same fields exactly when it has the sizes of the
      protocol; and with the same fields the client holds the server's key. */
  ghost predicate Agree(cfg: Config, cl: Client, h: Handler) {
    && cl.outcome.Returned?
    && HasSigned(h)
    && h.req == Request("/verify", Some(Body(cl.report, cfg.suite.xPub(cl.keys.xKey),
                                             cfg.suite.kemPub(cl.keys.kemKey), cl.nonce)))
    && var r, p := cl.outcome.reply, h.phase;
       && r.nonceEcho == cl.nonce && cl.outcome.m == r.measurement
       && SignedBytes(r.w, r.measurement, cl.nonce) == SignedBytes(p.w, p.m, cl.nonce)
       && (|r.w.kemCt| == KEM_CT_LEN && |r.measurement| == 48 <==> r.w == p.w && r.measurement == p.m)
       && (r.w == p.w ==> cl.outcome.cek == cfg.cek)
  }

  /** A session that returned has a handler to match, if a scheme is unbroken. */
  ghost predicate Matched(cfg: Config, s: State, cl: Client) {
    cl.outcome.Returned? && !(cfg.edBroken && cfg.mldsaBroken) ==>
      exists hid :: hid in s.handlers && Agree(cfg, cl, s.handlers[hid])
  }

  ghost predicate ClientsOk(cfg: Config, s: State) {
    forall cid :: cid in s.clients ==> |s.clients[cid].nonce| == 32 && Matched(cfg, s, s.clients[cid])
  }

  ghost predicate CacheOk(cfg: Config, s: State)
    requires cfg.cap >= 1
  {
    RC.WellBlocked(s.cache.accepted, cfg.cap) && s.cache.seen == RC.CurrentBlock(s.cache.accepted, cfg.cap)
  }

  ghost predicate Inv(cfg: Config, s: State)
    requires cfg.cap >= 1
  {
    HandlersOk(cfg, s) && SlotsDistinct(s) && NoncesOwned(cfg, s) && SignedOk(s) && ClientsOk(cfg, s) && CacheOk(cfg, s)
  }

  // ---- preservation ----------------------------------------------------------

  /** What every step does to handlers: none disappears, requests stay, and a
      handler that has signed keeps what it signed. */
  ghost predicate HandlersGrow(s: State, s': State) {
    forall hid :: hid in s.handlers ==>
      && hid in s'.handlers && s'.handlers[hid].req == s.handlers[hid].req
      && (HasSigned(s.handlers[hid]) ==>
            HasSigned(s'.handlers[hid])
            && s'.handlers[hid].phase.w == s.handlers[hid].phase.w
            && s'.handlers[hid].phase.m == s.handlers[hid].phase.m)
  }

  lemma StepGrows(cfg: Config, s: State, step: Step)
    requires Enabled(cfg, s, step)
    ensures HandlersGrow(s, Apply(cfg, s, step))
  {}

  lemma HandlersKept(cfg: Config, s: State, step: Step)
    requires cfg.cap >= 1 && Enabled(cfg, s, step) && HandlersOk(cfg, s) && SlotsDistinct(s)
    ensures HandlersOk(cfg, Apply(cfg, s, step)) && SlotsDistinct(Apply(cfg, s, step))
  {
    if HandlerStep(step) {
      OneHandlerChanges(cfg, s, step);
      ChangedHandlerOk(cfg, s, step);
      SlotsBelow(cfg, s);
      OtherHandlersOk(cfg, s, Apply(cfg, s, step), step.hid);
      SlotsStayDistinct(s, Apply(cfg, s, step), step.hid);
    }
  }

  predicate HandlerStep(step: Step) {
    !step.StartClient? && !step.InjectRequest? && !step.Deliver?
  }

  lemma OneHandlerChanges(cfg: Config, s: State, step: Step)
    requires HandlerStep(step) && Enabled(cfg, s, step)
    ensures OnlyChanges(s, Apply(cfg, s, step), step.hid) && SlotKept(s, Apply(cfg, s, step), step.hid)
  {}

  lemma ChangedHandlerOk(cfg: Config, s: State, step: Step)
    requires HandlerStep(step) && Enabled(cfg, s, step) && HandlersOk(cfg, s)
    ensures var s' := Apply(cfg, s, step);
            && step.hid in s'.handlers && s'.handlers[step.hid].req in s.requests
            && HandlerOk(cfg, s'.cache.accepted, s'.handlers[step.hid])
  {
    if step.hid in s.handlers {
      assert HandlerOk(cfg, s.cache.accepted, s.handlers[step.hid]);
    }
  }

  ghost predicate SlotKept(s: State, s': State, hid: nat)
    requires hid in s'.handlers
  {
    HasSlot(s'.handlers[hid].phase) ==>
      || Slot(s'.handlers[hid].phase) == Some(|s.cache.accepted|)
      || (hid in s.handlers && Slot(s.handlers[hid].phase) == Slot(s'.handlers[hid].phase))
  }

  /** A step that changes one handler has only that one to answer for. */
  ghost predicate OnlyChanges(s: State, s': State, hid: nat) {
    && s'.handlers.Keys == s.handlers.Keys + {hid} && s'.requests == s.requests
    && (forall i :: i in s.handlers && i != hid ==> s'.handlers[i] == s.handlers[i])
    && s.cache.accepted <= s'.cache.accepted
  }

  lemma OtherHandlersOk(cfg: Config, s: State, s': State, hid: nat)
    requires HandlersOk(cfg, s) && OnlyChanges(s, s', hid)
    requires s'.handlers[hid].req in s.requests && HandlerOk(cfg, s'.cache.accepted, s'.handlers[hid])
    ensures HandlersOk(cfg, s')
  {
    forall i | i in s'.handlers
      ensures s'.handlers[i].req in s'.requests && HandlerOk(cfg, s'.cache.accepted, s'.handlers[i])
    {
      if i != hid {
        assert HandlerOk(cfg, s.cache.accepted, s.handlers[i]);
      }
    }
  }

  /** The changed handler keeps its slot or takes the newest one. */
  lemma SlotsStayDistinct(s: State, s': State, hid: nat)
    requires SlotsDistinct(s) && OnlyChanges(s, s', hid) && SlotKept(s, s', hid)
    requires forall i :: i in s.handlers && HasSlot(s.handlers[i].phase) ==>
               Slot(s.handlers[i].phase).value < |s.cache.accepted|
    ensures SlotsDistinct(s')
  {}

  lemma SlotsBelow(cfg: Config, s: State)
    requires HandlersOk(cfg, s)
    ensures forall i :: i in s.handlers && HasSlot(s.handlers[i].phase) ==>
              Slot(s.handlers[i].phase).value < |s.cache.accepted|
  {}

  lemma NoncesKept(cfg: Config, s: State, step: Step)
    requires Enabled(cfg, s, step) && NoncesOwned(cfg, s)
    ensures NoncesOwned(cfg, Apply(cfg, s, step))
  {}

  lemma CacheKept(cfg: Config, s: State, step: Step)
    requires cfg.cap >= 1 && Enabled(cfg, s, step) && CacheOk(cfg, s)
    ensures CacheOk(cfg, Apply(cfg, s, step))
  {
    if step.CheckReplay? {
      var h := cfg.suite.sha256(s.handlers[step.hid].req.body.value.nonce);
      if h !in s.cache.seen {
        RC.WellBlockedStep(s.cache.accepted, cfg.cap, h);
        RC.AdmitKeepsBlocks(s.cache.accepted, cfg.cap, h);
      }
    }
  }

  lemma SignedKept(cfg: Config, s: State, step: Step)
    requires Valid(cfg) && Enabled(cfg, s, step) && SignedOk(s)
    ensures SignedOk(Apply(cfg, s, step))
  {
    var s' := Apply(cfg, s, step);
    StepGrows(cfg, s, step);
    forall msg | msg in s'.signed ensures exists hid :: SignedByHandler(s', msg, hid) {
      if msg in s.signed {
        var hid :| SignedByHandler(s, msg, hid);
        assert SignedByHandler(s', msg, hid);
      } else {
        var p := s.handlers[step.hid].phase;
        HybridSignVerifies(cfg.suite, cfg.edKey, cfg.mldsaKey, msg, step.mldsaCoins);
        assert SignedByHandler(s', msg, step.hid);
      }
    }
  }

  /** A handler that ran the session's request and signed the reply's bytes
      agrees with the session. */
  lemma SignerAgrees(cfg: Config, accepted: seq<bytes>, cl: Client, h: Handler, g: Grant)
    requires Valid(cfg) && HasSigned(h) && HandlerOk(cfg, accepted, h) && h.req == ClientRequest(cfg, cl)
    requires CheckReply(cfg, cl.keys, cl.nonce, Verified(g)).Ok?
    requires SignedBytes(g.w, g.measurement, cl.nonce) == SignedBytes(h.phase.w, h.phase.m, cl.nonce)
    ensures Agree(cfg, cl.(outcome := Judge(CheckReply(cfg, cl.keys, cl.nonce, Verified(g)), Verified(g))), h)
  {
    var b, p := h.req.body.value, h.phase;
    SignedBytesSplit(g.w, g.measurement, cl.nonce, p.w, p.m, cl.nonce);
    WrapSizes(cfg.suite, b.xPub, b.kemPub, cfg.cek, p.coins);
    AttestedLength(cfg, b, p.chain);
    WrapThenUnwrap(cfg.suite, cl.keys.xKey, cl.keys.kemKey, cfg.cek, p.coins);
  }

  /** A reply that passes the client's checks was signed, for this session's
      request, by some handler. */
  lemma AcceptedReplyAgrees(cfg: Config, s: State, cl: Client, g: Grant)
    requires Valid(cfg) && HandlersOk(cfg, s) && SignedOk(s) && !(cfg.edBroken && cfg.mldsaBroken)
    requires forall r :: r in s.requests && UsesNonce(r, cl.nonce) ==> r == ClientRequest(cfg, cl)
    requires |cl.nonce| == 32 && Unforgeable(cfg, s, SignedBytes(g.w, g.measurement, cl.nonce), g.signature)
    requires CheckReply(cfg, cl.keys, cl.nonce, Verified(g)).Ok?
    ensures var outcome := Judge(CheckReply(cfg, cl.keys, cl.nonce, Verified(g)), Verified(g));
            exists hid :: hid in s.handlers && Agree(cfg, cl.(outcome := outcome), s.handlers[hid])
  {
    var msg := SignedBytes(g.w, g.measurement, cl.nonce);
    assert msg in s.signed;
    var hid :| SignedByHandler(s, msg, hid);
    var h := s.handlers[hid];
    assert HandlerOk(cfg, s.cache.accepted, h);
    SignedBytesSplit(g.w, g.measurement, cl.nonce, h.phase.w, h.phase.m, h.req.body.value.nonce);
    assert UsesNonce(h.req, cl.nonce);
    SignerAgrees(cfg, s.cache.accepted, cl, h, g);
  }

  lemma MatchedKept(cfg: Config, s: State, s': State, cl: Client)
    requires Matched(cfg, s, cl) && HandlersGrow(s, s')
    ensures Matched(cfg, s', cl)
  {}

  lemma DeliveredMatched(cfg: Config, s: State, cid: nat, reply: Reply)
    requires Valid(cfg) && HandlersOk(cfg, s) && NoncesOwned(cfg, s) && SignedOk(s) && ClientsOk(cfg, s)
    requires Enabled(cfg, s, Deliver(cid, reply))
    ensures Matched(cfg, s, Apply(cfg, s, Deliver(cid, reply)).clients[cid])
  {
    var cl := s.clients[cid];
    if CheckReply(cfg, cl.keys, cl.nonce, reply).Ok? && !(cfg.edBroken && cfg.mldsaBroken) {
      AcceptedReplyAgrees(cfg, s, cl, reply.grant);
    }
  }

  lemma ClientsKept(cfg: Config, s: State, step: Step)
    requires Valid(cfg) && Enabled(cfg, s, step)
    requires HandlersOk(cfg, s) && NoncesOwned(cfg, s) && SignedOk(s) && ClientsOk(cfg, s)
    ensures ClientsOk(cfg, Apply(cfg, s, step))
  {
    var s' := Apply(cfg, s, step);
    StepGrows(cfg, s, step);
    forall cid | cid in s'.clients ensures |s'.clients[cid].nonce| == 32 && Matched(cfg, s', s'.clients[cid]) {
      if cid in s.clients && s.clients[cid] == s'.clients[cid] {
        MatchedKept(cfg, s, s', s'.clients[cid]);
      } else if step.Deliver? {
        DeliveredMatched(cfg, s, cid, step.reply);
        MatchedKept(cfg, s, s', s'.clients[cid]);
      }
    }
  }

  lemma InvKept(cfg: Config, s: State, step: Step)
    requires Valid(cfg) && Enabled(cfg, s, step) && Inv(cfg, s)
    ensures Inv(cfg, Apply(cfg, s, step))
  {
    HandlersKept(cfg, s, step);
    NoncesKept(cfg, s, step);
    CacheKept(cfg, s, step);
    SignedKept(cfg, s, step);
    ClientsKept(cfg, s, step);
  }

  lemma {:induction false} RunKeepsInv(cfg: Config, s: State, steps: seq<Step>)
    requires Valid(cfg) && Inv(cfg, s) && Exec(cfg, s, steps).Some?
    ensures Inv(cfg, Exec(cfg, s, steps).value)
    decreases |steps|
  {
    if steps != [] {
      InvKept(cfg, s, steps[0]);
      RunKeepsInv(cfg, Apply(cfg, s, steps[0]), steps[1..]);
    }
  }

  /** The states at the end of runs. */
  ghost predicate Reachable(cfg: Config, s: State) {
    exists steps :: Exec(cfg, INIT, steps) == Some(s)
  }

  lemma ReachableInv(cfg: Config, s: State)
    requires Valid(cfg) && Reachable(cfg, s)
    ensures Inv(cfg, s)
  {
    var steps :| Exec(cfg, INIT, steps) == Some(s);
    RunKeepsInv(cfg, INIT, steps);
  }

  // ---- main results ----------------------------------------------------------

  /** Agreement. In every run, if at least one of the two signature schemes is
      unforgeable, a session that returned a key matches a handler that ran the
      session's own request. */
  lemma Agreement(cfg: Config, s: State, cid: nat)
    requires Valid(cfg) && Reachable(cfg, s) && !(cfg.edBroken && cfg.mldsaBroken)
    requires cid in s.clients && s.clients[cid].outcome.Returned?
    ensures exists hid :: hid in s.handlers && Agree(cfg, s.clients[cid], s.handlers[hid])
  {
    ReachableInv(cfg, s);
    assert Matched(cfg, s, s.clients[cid]);
  }

  /** A release whose key is wrapped to exactly the two public values of the
      request, after a report that is genuine for those values and the request's
      nonce, with the allowed measurement of that report. */
  ghost predicate SafeRelease(cfg: Config, h: Handler, response: Http) {
    && response.status == 200 && response.payload.Release? && h.phase.Released?
    && cfg.verifier.Some? && WellFormed(h.req)
    && var b, g := h.req.body.value, response.payload.grant;
       && g.nonceEcho == b.nonce
       && WrapCek(cfg.suite, b.xPub, b.kemPub, cfg.cek, h.phase.coins) == Some(g.w)
       && Genuine(cfg.verifier.value, h.phase.chain, b.report,
                  cfg.suite.sha256(b.xPub + b.kemPub + b.nonce + BIND_TAG))
       && g.measurement == b.report[0x090..0x0C0]
  }

  /** Release safety. In every production run, whatever a handler sends is the
      one refusal or a safe release. */
  lemma ReleaseSafety(cfg: Config, s: State, hid: nat)
    requires Valid(cfg) && Reachable(cfg, s) && cfg.production
    requires hid in s.handlers && Response(s.handlers[hid]).Some?
    ensures var response := Response(s.handlers[hid]).value;
            response == DENIED || SafeRelease(cfg, s.handlers[hid], response)
  {
    ReachableInv(cfg, s);
    HandlerIsSafe(cfg, s.cache.accepted, s.handlers[hid]);
  }

  lemma HandlerIsSafe(cfg: Config, accepted: seq<bytes>, h: Handler)
    requires cfg.production && HandlerOk(cfg, accepted, h) && Response(h).Some?
    ensures Response(h).value == DENIED || SafeRelease(cfg, h, Response(h).value)
  {
    if h.phase.Released? {
      var b := h.req.body.value;
      VerifyExact(cfg.verifier.value, h.phase.chain, b.report, ReportDataFor(cfg.suite, b.xPub, b.kemPub, b.nonce));
    }
  }

  /** One report releases the key to one pair of public values and one nonce,
      in every production run, unless SHA-256 has been made to collide. */
  lemma OneReportOneBinding(cfg: Config, s: State, i: nat, j: nat)
    requires Valid(cfg) && Reachable(cfg, s) && cfg.production
    requires i in s.handlers && j in s.handlers && HasSigned(s.handlers[i]) && HasSigned(s.handlers[j])
    requires s.handlers[i].req.body.value.report == s.handlers[j].req.body.value.report
    ensures var a, b := s.handlers[i].req.body.value, s.handlers[j].req.body.value;
            || (a.xPub == b.xPub && a.kemPub == b.kemPub && a.nonce == b.nonce)
            || Collision(cfg.suite, BindingPreimage(a.xPub, a.kemPub, a.nonce),
                         BindingPreimage(b.xPub, b.kemPub, b.nonce))
  {
    assert HandlersOk(cfg, s) by { ReachableInv(cfg, s); }
    var a, b := s.handlers[i].req.body.value, s.handlers[j].req.body.value;
    SignerAttested(cfg, s, i);
    SignerAttested(cfg, s, j);
    SameReportSameBinding(cfg, a, s.handlers[i].phase.chain, b, s.handlers[j].phase.chain);
  }

  lemma SignerAttested(cfg: Config, s: State, hid: nat)
    requires HandlersOk(cfg, s) && hid in s.handlers && HasSigned(s.handlers[hid])
    ensures var b := s.handlers[hid].req.body.value;
            |b.xPub| == 32 && |b.nonce| == 32 && Attest(cfg, b, s.handlers[hid].phase.chain).Ok?
  {
    assert HandlerOk(cfg, s.cache.accepted, s.handlers[hid]);
  }

  lemma SameReportSameBinding(cfg: Config, a: Body, achain: bool, b: Body, bchain: bool)
    requires Valid(cfg) && cfg.production && a.report == b.report
    requires |a.xPub| == |b.xPub| == 32 && |a.nonce| == |b.nonce| == 32
    requires Attest(cfg, a, achain).Ok? && Attest(cfg, b, bchain).Ok?
    ensures || (a.xPub == b.xPub && a.kemPub == b.kemPub && a.nonce == b.nonce)
            || Collision(cfg.suite, BindingPreimage(a.xPub, a.kemPub, a.nonce),
                         BindingPreimage(b.xPub, b.kemPub, b.nonce))
  {
    var p, q := BindingPreimage(a.xPub, a.kemPub, a.nonce), BindingPreimage(b.xPub, b.kemPub, b.nonce);
    assert |cfg.suite.sha256(p)| == 32 && |cfg.suite.sha256(q)| == 32;
    FetchedBindingIsExact(cfg.suite.sha256(p), cfg.suite.sha256(q), a.report);
    BindingInjective(a.xPub, a.kemPub, a.nonce, b.xPub, b.kemPub, b.nonce);
  }

  /** Replays. In every run, two different handlers that passed the replay check
      with one nonce, whatever became of them, did so in different cache blocks:
      at least the block of the earlier one had been forgotten. */
  lemma SameNonceAcrossBlocks(cfg: Config, s: State, i: nat, j: nat)
    requires Valid(cfg) && Reachable(cfg, s) && i != j && i in s.handlers && j in s.handlers
    requires var a, b := s.handlers[i], s.handlers[j];
             && HasSlot(a.phase) && HasSlot(b.phase) && Slot(a.phase).value <= Slot(b.phase).value
             && a.req.body.Some? && b.req.body.Some? && a.req.body.value.nonce == b.req.body.value.nonce
    ensures Slot(s.handlers[i].phase).value < RC.BlockStart(Slot(s.handlers[j].phase).value, cfg.cap)
  {
    ReachableInv(cfg, s);
    assert SlotOk(cfg, s.cache.accepted, s.handlers[i]) && SlotOk(cfg, s.cache.accepted, s.handlers[j]);
  }

  // ---- the assumptions are needed ----------------------------------------------

  function ToyConfig(edBroken: bool, mldsaBroken: bool): Config {
    Config(Toy(), [], [], Zeros(32), None, false, 1, edBroken, mldsaBroken)
  }

  /** A grant of zeros that the client accepts. */
  lemma ToyGrant(cfg: Config, keys: ClientKeys) returns (g: Grant)
    requires cfg.suite == Toy()
    ensures Lawful(Toy()) && CheckReply(cfg, keys, Zeros(32), Verified(g)).Ok?
  {
    LawsAreConsistent();
    var w, m := Wrap(Zeros(32), Zeros(KEM_CT_LEN), Zeros(60)), Zeros(48);
    HybridSignVerifies(Toy(), cfg.edKey, cfg.mldsaKey, SignedBytes(w, m, Zeros(32)), []);
    g := Grant(w, m, Zeros(32), HybridSign(Toy(), cfg.edKey, cfg.mldsaKey, SignedBytes(w, m, Zeros(32)), []).value);
    ToyUnwrap(keys, 60);
  }

  lemma ToyUnwrap(keys: ClientKeys, n: nat)
    requires n >= WRAP_NONCE_LEN + 16
    ensures UnwrapCek(Toy(), keys.xKey, keys.kemKey, Zeros(32), [], Wrap(Zeros(32), Zeros(KEM_CT_LEN), Zeros(n)))
         == Some(Zeros(n - WRAP_NONCE_LEN - 16))
  {
    var tail := Zeros(n)[WRAP_NONCE_LEN..];
    assert tail[|tail| - 16..] == Zeros(16) && tail[..|tail| - 16] == Zeros(n - WRAP_NONCE_LEN - 16);
  }

  /** With both schemes broken agreement fails: a session returns although no
      handler ever ran. */
  lemma OneSchemeIsNeeded() returns (cfg: Config, steps: seq<Step>)
    ensures Valid(cfg) && cfg.edBroken && cfg.mldsaBroken
    ensures var end := Exec(cfg, INIT, steps);
            end.Some? && end.value.handlers == map[] && 0 in end.value.clients && end.value.clients[0].outcome.Returned?
  {
    cfg := ToyConfig(true, true);
    var keys := ClientKeys([], []);
    var g := ToyGrant(cfg, keys);
    var start, deliver := StartClient(0, keys, [], Zeros(32)), Deliver(0, Verified(g));
    steps := [start, deliver];
    assert steps[1..] == [deliver] && [deliver][1..] == [];
    var s := Apply(cfg, INIT, start);
    assert Exec(cfg, s, [deliver]) == Exec(cfg, Apply(cfg, s, deliver), []);
  }

  // ---- honest exchange ---------------------------------------------------------

  lemma {:induction false} ExecAppend(cfg: Config, s: State, a: seq<Step>, b: seq<Step>)
    requires Exec(cfg, s, a).Some?
    ensures Exec(cfg, s, a + b) == Exec(cfg, Exec(cfg, s, a).value, b)
    decreases |a|
  {
    if a == [] {
      assert a + b == b;
    } else {
      assert (a + b)[1..] == a[1..] + b;
      ExecAppend(cfg, Apply(cfg, s, a[0]), a[1..], b);
    }
  }

  lemma ExecThree(cfg: Config, s: State, a: Step, b: Step, d: Step)
    requires Enabled(cfg, s, a)
    requires Enabled(cfg, Apply(cfg, s, a), b)
    requires Enabled(cfg, Apply(cfg, Apply(cfg, s, a), b), d)
    ensures Exec(cfg, s, [a, b, d]) == Some(Apply(cfg, Apply(cfg, Apply(cfg, s, a), b), d))
  {
    var s1 := Apply(cfg, s, a);
    var s2 := Apply(cfg, s1, b);
    assert [a, b, d][1..] == [b, d] && [b, d][1..] == [d] && [d][1..] == [];
    assert Exec(cfg, s2, [d]) == Exec(cfg, Apply(cfg, s2, d), []);
    assert Exec(cfg, s1, [b, d]) == Exec(cfg, s2, [d]);
  }

  function FirstHalf(hid: nat, req: Request, chain: bool): seq<Step> {
    [Accept(hid, req), CheckReplay(hid), DoAttest(hid, chain)]
  }

  function SecondHalf(hid: nat, coins: WrapCoins, mldsaCoins: bytes): seq<Step> {
    [DoWrap(hid, coins), DoSign(hid, mldsaCoins), Respond(hid)]
  }

  lemma ExecStep(cfg: Config, s: State, step: Step, rest: seq<Step>)
    requires Enabled(cfg, s, step)
    ensures Exec(cfg, s, [step] + rest) == Exec(cfg, Apply(cfg, s, step), rest)
  {
    assert ([step] + rest)[1..] == rest;
  }

  lemma FirstHalfRuns(cfg: Config, s: State, hid: nat, req: Request, chain: bool)
    requires hid !in s.handlers && req in s.requests && Screen(req) == None
    requires cfg.suite.sha256(req.body.value.nonce) !in s.cache.seen
    requires Attest(cfg, req.body.value, chain).Ok?
    ensures var end := Exec(cfg, s, FirstHalf(hid, req, chain));
            && end.Some? && hid in end.value.handlers
            && end.value.clients == s.clients && end.value.requests == s.requests
            && end.value.cache == RC.Offer(s.cache, cfg.cap, cfg.suite.sha256(req.body.value.nonce))
            && end.value.handlers[hid] ==
                 Handler(req, Attested(|s.cache.accepted|, chain, Attest(cfg, req.body.value, chain).value))
  {
    var s1 := Apply(cfg, s, Accept(hid, req));
    var s2 := Apply(cfg, s1, CheckReplay(hid));
    ExecThree(cfg, s, Accept(hid, req), CheckReplay(hid), DoAttest(hid, chain));
  }

  lemma SecondHalfRuns(cfg: Config, s: State, hid: nat, coins: WrapCoins, mldsaCoins: bytes, w: Wrap, sig: bytes)
    requires InPhase(s, hid, (p: Phase) => p.Attested?) && |coins.nonce| == WRAP_NONCE_LEN
    requires var h := s.handlers[hid];
             var b := h.req.body.value;
             && WrapCek(cfg.suite, b.xPub, b.kemPub, cfg.cek, coins) == Some(w)
             && var msg := SignedBytes(w, h.phase.m, b.nonce);
                HybridSign(cfg.suite, cfg.edKey, cfg.mldsaKey, msg, mldsaCoins) == Ok(sig)
    ensures var end := Exec(cfg, s, SecondHalf(hid, coins, mldsaCoins));
            var h := s.handlers[hid];
            && end.Some? && hid in end.value.handlers
            && end.value.clients == s.clients && end.value.requests == s.requests && end.value.cache == s.cache
            && end.value.handlers[hid] ==
                 h.(phase := Released(h.phase.slot, h.phase.chain, h.phase.m, coins, w, sig))
            && SignedBytes(w, h.phase.m, h.req.body.value.nonce) in end.value.signed
  {
    var s1 := Apply(cfg, s, DoWrap(hid, coins));
    var s2 := Apply(cfg, s1, DoSign(hid, mldsaCoins));
    ExecThree(cfg, s, DoWrap(hid, coins), DoSign(hid, mldsaCoins), Respond(hid));
  }

  /** One handler from its start to its response, without interruption. */
  function ServerRun(hid: nat, req: Request, chain: bool, coins: WrapCoins, mldsaCoins: bytes): seq<Step> {
    FirstHalf(hid, req, chain) + SecondHalf(hid, coins, mldsaCoins)
  }

  lemma ServerRuns(cfg: Config, s: State, hid: nat, req: Request, chain: bool, coins: WrapCoins, mldsaCoins: bytes,
                   m: bytes, w: Wrap, sig: bytes)
    requires hid !in s.handlers && req in s.requests && Screen(req) == None && |coins.nonce| == WRAP_NONCE_LEN
    requires cfg.suite.sha256(req.body.value.nonce) !in s.cache.seen
    requires Attest(cfg, req.body.value, chain) == Ok(m)
    requires WrapCek(cfg.suite, req.body.value.xPub, req.body.value.kemPub, cfg.cek, coins) == Some(w)
    requires var msg := SignedBytes(w, m, req.body.value.nonce);
             HybridSign(cfg.suite, cfg.edKey, cfg.mldsaKey, msg, mldsaCoins) == Ok(sig)
    ensures var end := Exec(cfg, s, ServerRun(hid, req, chain, coins, mldsaCoins));
            && end.Some? && hid in end.value.handlers
            && end.value.clients == s.clients && end.value.requests == s.requests
            && end.value.cache.seen == SeenAfter(cfg, s.cache.seen, req)
            && end.value.handlers[hid] == Handler(req, Released(|s.cache.accepted|, chain, m, coins, w, sig))
            && SignedBytes(w, m, req.body.value.nonce) in end.value.signed
  {
    ScreenExact(req);
    FirstHalfRuns(cfg, s, hid, req, chain);
    var a, b := FirstHalf(hid, req, chain), SecondHalf(hid, coins, mldsaCoins);
    SecondHalfRuns(cfg, Exec(cfg, s, a).value, hid, coins, mldsaCoins, w, sig);
    ExecAppend(cfg, s, a, b);
  }

  /** One handler from its start to its response, without interruption, as far
      as it gets: the request is answered as the method `DoPost` answers it, and
      the cache is left as that method leaves it. */
  lemma WholePostIsDoPost(cfg: Config, s: State, hid: nat, req: Request, chain: bool, coins: WrapCoins,
                          mldsaCoins: bytes) returns (n: nat, http: Http)
    requires Valid(cfg) && hid !in s.handlers && req in s.requests && |coins.nonce| == WRAP_NONCE_LEN
    ensures n <= 6
    ensures var end := Exec(cfg, s, ServerRun(hid, req, chain, coins, mldsaCoins)[..n]);
            && end.Some? && hid in end.value.handlers && Response(end.value.handlers[hid]) == Some(http)
            && Answers(cfg, s.cache.seen, req, chain, coins, mldsaCoins, http)
            && (http == DENIED ==>
                  && end.value.handlers[hid].phase.Denied?
                  && end.value.handlers[hid].phase.reason == Reason(cfg, s.cache.seen, req, chain))
            && end.value.cache.seen == SeenAfter(cfg, s.cache.seen, req)
            && end.value.clients == s.clients && end.value.requests == s.requests
  {
    var run := ServerRun(hid, req, chain, coins, mldsaCoins);
    if Releases(cfg, s.cache.seen, req, chain, coins) {
      n := 6;
      assert run[..6] == run;
      http := ReleasedRuns(cfg, s, hid, req, chain, coins, mldsaCoins);
    } else {
      n := RefusedRuns(cfg, s, hid, req, chain, coins, mldsaCoins);
      http := DENIED;
    }
  }

  lemma ReleasedRuns(cfg: Config, s: State, hid: nat, req: Request, chain: bool, coins: WrapCoins, mldsaCoins: bytes)
    returns (http: Http)
    requires Valid(cfg) && hid !in s.handlers && req in s.requests && |coins.nonce| == WRAP_NONCE_LEN
    requires Releases(cfg, s.cache.seen, req, chain, coins)
    ensures var end := Exec(cfg, s, ServerRun(hid, req, chain, coins, mldsaCoins));
            && end.Some? && hid in end.value.handlers && Response(end.value.handlers[hid]) == Some(http)
            && end.value.cache.seen == SeenAfter(cfg, s.cache.seen, req)
            && end.value.clients == s.clients && end.value.requests == s.requests
    ensures Answers(cfg, s.cache.seen, req, chain, coins, mldsaCoins, http)
  {
    var m, w, sig := ReleasedGrant(cfg, s.cache.seen, req, chain, coins, mldsaCoins);
    ServerRuns(cfg, s, hid, req, chain, coins, mldsaCoins, m, w, sig);
    http := Http(200, Release(Grant(w, m, req.body.value.nonce, sig)));
  }

  lemma ReleasedGrant(cfg: Config, seen: set<bytes>, req: Request, chain: bool, coins: WrapCoins, mldsaCoins: bytes)
    returns (m: bytes, w: Wrap, sig: bytes)
    requires Valid(cfg) && Releases(cfg, seen, req, chain, coins)
    ensures Screen(req) == None && Attest(cfg, req.body.value, chain) == Ok(m)
    ensures WrapCek(cfg.suite, req.body.value.xPub, req.body.value.kemPub, cfg.cek, coins) == Some(w)
    ensures var msg := SignedBytes(w, m, req.body.value.nonce);
            HybridSign(cfg.suite, cfg.edKey, cfg.mldsaKey, msg, mldsaCoins) == Ok(sig)
    ensures Answers(cfg, seen, req, chain, coins, mldsaCoins,
                    Http(200, Release(Grant(w, m, req.body.value.nonce, sig))))
  {
    ReleasesExact(cfg, seen, req, chain, coins);
    var b := req.body.value;
    m, w := Attest(cfg, b, chain).value, WrapCek(cfg.suite, b.xPub, b.kemPub, cfg.cek, coins).value;
    AttestExact(cfg, b, chain, m);
    HybridSignVerifies(cfg.suite, cfg.edKey, cfg.mldsaKey, SignedBytes(w, m, b.nonce), mldsaCoins);
    sig := HybridSign(cfg.suite, cfg.edKey, cfg.mldsaKey, SignedBytes(w, m, b.nonce), mldsaCoins).value;
  }

  ghost predicate Refuses(s: State, end: Option<State>, hid: nat, reason: DenyReason, seen: set<bytes>) {
    && end.Some? && hid in end.value.handlers
    && end.value.handlers[hid].phase.Denied? && end.value.handlers[hid].phase.reason == reason
    && end.value.cache.seen == seen
    && end.value.clients == s.clients && end.value.requests == s.requests
  }

  lemma RefusedRuns(cfg: Config, s: State, hid: nat, req: Request, chain: bool, coins: WrapCoins, mldsaCoins: bytes)
    returns (n: nat)
    requires hid !in s.handlers && req in s.requests && |coins.nonce| == WRAP_NONCE_LEN
    requires !Releases(cfg, s.cache.seen, req, chain, coins)
    ensures n <= 4
    ensures Refuses(s, Exec(cfg, s, ServerRun(hid, req, chain, coins, mldsaCoins)[..n]), hid,
                    Reason(cfg, s.cache.seen, req, chain), SeenAfter(cfg, s.cache.seen, req))
  {
    ReleasesExact(cfg, s.cache.seen, req, chain, coins);
    ScreenExact(req);
    var run := ServerRun(hid, req, chain, coins, mldsaCoins);
    var accept, replay := Accept(hid, req), CheckReplay(hid);
    if Screen(req).Some? {
      n := 1;
      assert run[..1] == [accept] + [];
      ExecStep(cfg, s, accept, []);
    } else if cfg.suite.sha256(req.body.value.nonce) in s.cache.seen {
      n := 2;
      assert run[..2] == [accept] + ([replay] + []);
      ExecStep(cfg, s, accept, [replay] + []);
      ExecStep(cfg, Apply(cfg, s, accept), replay, []);
    } else if Attest(cfg, req.body.value, chain).Err? {
      n := 3;
      assert run[..3] == FirstHalf(hid, req, chain);
      UnattestedRuns(cfg, s, hid, req, chain);
    } else {
      n := 4;
      assert run[..4] == FirstHalf(hid, req, chain) + ([DoWrap(hid, coins)] + []);
      UnwrappableRuns(cfg, s, hid, req, chain, coins);
    }
  }

  lemma UnattestedRuns(cfg: Config, s: State, hid: nat, req: Request, chain: bool)
    requires hid !in s.handlers && req in s.requests && Screen(req) == None
    requires cfg.suite.sha256(req.body.value.nonce) !in s.cache.seen && Attest(cfg, req.body.value, chain).Err?
    ensures Refuses(s, Exec(cfg, s, FirstHalf(hid, req, chain)), hid, Attest(cfg, req.body.value, chain).error,
                    RC.AfterAdmit(s.cache.seen, cfg.cap, cfg.suite.sha256(req.body.value.nonce)))
  {
    var s1 := Apply(cfg, s, Accept(hid, req));
    var s2 := Apply(cfg, s1, CheckReplay(hid));
    ExecThree(cfg, s, Accept(hid, req), CheckReplay(hid), DoAttest(hid, chain));
  }

  lemma UnwrappableRuns(cfg: Config, s: State, hid: nat, req: Request, chain: bool, coins: WrapCoins)
    requires hid !in s.handlers && req in s.requests && Screen(req) == None && |coins.nonce| == WRAP_NONCE_LEN
    requires cfg.suite.sha256(req.body.value.nonce) !in s.cache.seen && Attest(cfg, req.body.value, chain).Ok?
    requires WrapCek(cfg.suite, req.body.value.xPub, req.body.value.kemPub, cfg.cek, coins).None?
    ensures Refuses(s, Exec(cfg, s, FirstHalf(hid, req, chain) + ([DoWrap(hid, coins)] + [])), hid, WrapFailed,
                    RC.AfterAdmit(s.cache.seen, cfg.cap, cfg.suite.sha256(req.body.value.nonce)))
  {
    FirstHalfRuns(cfg, s, hid, req, chain);
    ExecAppend(cfg, s, FirstHalf(hid, req, chain), [DoWrap(hid, coins)] + []);
    ExecStep(cfg, Exec(cfg, s, FirstHalf(hid, req, chain)).value, DoWrap(hid, coins), []);
  }

  /** The exchange completes from every state: a session that is waiting, whose
      nonce is not in the cache and whose report attests, and one new handler run
      without interruption end with that handler's own response delivered and
      the client holding the server's key and the measurement of its report. In
      production the report attests if it is genuine. */
  lemma HonestExchange(cfg: Config, s: State, cid: nat, hid: nat, chain: bool, coins: WrapCoins, mldsaCoins: bytes)
    returns (grant: Grant)
    requires Valid(cfg) && cid in s.clients && s.clients[cid].outcome.Waiting? && hid !in s.handlers
    requires |s.clients[cid].nonce| == 32 && ClientRequest(cfg, s.clients[cid]) in s.requests
    requires cfg.suite.sha256(s.clients[cid].nonce) !in s.cache.seen && |coins.nonce| == WRAP_NONCE_LEN
    requires var cl := s.clients[cid];
             Entitled(cfg, Body(cl.report, cfg.suite.xPub(cl.keys.xKey), cfg.suite.kemPub(cl.keys.kemKey), cl.nonce),
                      chain)
    ensures var req := ClientRequest(cfg, s.clients[cid]);
            var end := Exec(cfg, s, ServerRun(hid, req, chain, coins, mldsaCoins) + [Deliver(cid, Verified(grant))]);
            && end.Some? && cid in end.value.clients && hid in end.value.handlers
            && Response(end.value.handlers[hid]) == Some(Http(200, Release(grant)))
            && end.value.clients[cid].outcome == Returned(grant, cfg.cek, grant.measurement)
            && Measured(cfg, req.body.value, grant.measurement)
  {
    var cl := s.clients[cid];
    var req := ClientRequest(cfg, cl);
    var m := EntitledAttests(cfg, req.body.value, chain);
    var w, sig := HonestGrant(cfg, cl.keys, cl.nonce, m, coins, mldsaCoins);
    grant := Grant(w, m, cl.nonce, sig);
    ExchangeRuns(cfg, s, cid, hid, chain, coins, mldsaCoins, m, w, sig, grant);
  }

  /** A handler runs the request of a waiting session, and then a reply that
      holds the signed bytes of the handler and passes the checks is delivered. */
  lemma ExchangeRuns(cfg: Config, s: State, cid: nat, hid: nat, chain: bool, coins: WrapCoins, mldsaCoins: bytes,
                     m: bytes, w: Wrap, sig: bytes, grant: Grant)
    requires cid in s.clients && s.clients[cid].outcome.Waiting? && hid !in s.handlers
    requires |s.clients[cid].nonce| == 32 && |coins.nonce| == WRAP_NONCE_LEN
    requires var req, nonce := ClientRequest(cfg, s.clients[cid]), s.clients[cid].nonce;
             && req in s.requests && Screen(req) == None && cfg.suite.sha256(nonce) !in s.cache.seen
             && Attest(cfg, req.body.value, chain) == Ok(m)
             && WrapCek(cfg.suite, req.body.value.xPub, req.body.value.kemPub, cfg.cek, coins) == Some(w)
             && HybridSign(cfg.suite, cfg.edKey, cfg.mldsaKey, SignedBytes(w, m, nonce), mldsaCoins) == Ok(sig)
             && SignedBytes(grant.w, grant.measurement, nonce) == SignedBytes(w, m, nonce)
    requires CheckReply(cfg, s.clients[cid].keys, s.clients[cid].nonce, Verified(grant)).Ok?
    ensures var req := ClientRequest(cfg, s.clients[cid]);
            var v := CheckReply(cfg, s.clients[cid].keys, s.clients[cid].nonce, Verified(grant)).value;
            var end := Exec(cfg, s, ServerRun(hid, req, chain, coins, mldsaCoins) + [Deliver(cid, Verified(grant))]);
            && end.Some? && cid in end.value.clients && hid in end.value.handlers
            && end.value.handlers[hid] == Handler(req, Released(|s.cache.accepted|, chain, m, coins, w, sig))
            && end.value.clients[cid] == s.clients[cid].(outcome := Returned(grant, v.0, v.1))
  {
    var req := ClientRequest(cfg, s.clients[cid]);
    ServerRuns(cfg, s, hid, req, chain, coins, mldsaCoins, m, w, sig);
    var run := ServerRun(hid, req, chain, coins, mldsaCoins);
    DeliverRuns(cfg, Exec(cfg, s, run).value, cid, grant);
    ExecAppend(cfg, s, run, [Deliver(cid, Verified(grant))]);
  }

  lemma HonestGrant(cfg: Config, keys: ClientKeys, nonce: bytes, m: bytes, coins: WrapCoins, mldsaCoins: bytes)
    returns (w: Wrap, sig: bytes)
    requires Valid(cfg) && |coins.nonce| == WRAP_NONCE_LEN
    ensures WrapCek(cfg.suite, cfg.suite.xPub(keys.xKey), cfg.suite.kemPub(keys.kemKey), cfg.cek, coins) == Some(w)
    ensures HybridSign(cfg.suite, cfg.edKey, cfg.mldsaKey, SignedBytes(w, m, nonce), mldsaCoins) == Ok(sig)
    ensures CheckReply(cfg, keys, nonce, Verified(Grant(w, m, nonce, sig))) == Ok((cfg.cek, m))
  {
    var c := cfg.suite;
    WrapThenUnwrap(c, keys.xKey, keys.kemKey, cfg.cek, coins);
    w := WrapCek(c, c.xPub(keys.xKey), c.kemPub(keys.kemKey), cfg.cek, coins).value;
    HybridSignVerifies(c, cfg.edKey, cfg.mldsaKey, SignedBytes(w, m, nonce), mldsaCoins);
    sig := HybridSign(c, cfg.edKey, cfg.mldsaKey, SignedBytes(w, m, nonce), mldsaCoins).value;
  }

  lemma DeliverRuns(cfg: Config, s: State, cid: nat, grant: Grant)
    requires cid in s.clients && s.clients[cid].outcome.Waiting?
    requires SignedBytes(grant.w, grant.measurement, s.clients[cid].nonce) in s.signed
    requires CheckReply(cfg, s.clients[cid].keys, s.clients[cid].nonce, Verified(grant)).Ok?
    ensures var end := Exec(cfg, s, [Deliver(cid, Verified(grant))]);
            var v := CheckReply(cfg, s.clients[cid].keys, s.clients[cid].nonce, Verified(grant)).value;
            && end.Some? && end.value.handlers == s.handlers && cid in end.value.clients
            && end.value.clients[cid] == s.clients[cid].(outcome := Returned(grant, v.0, v.1))
  {}

  /** A delivered reply decides its session and touches nothing else: the client
      fails with the error of the check, or returns what the check returned. */
  lemma DeliverExact(cfg: Config, s: State, cid: nat, reply: Reply)
    requires Enabled(cfg, s, Deliver(cid, reply))
    ensures var s', r := Apply(cfg, s, Deliver(cid, reply)),
                         CheckReply(cfg, s.clients[cid].keys, s.clients[cid].nonce, reply);
            && s' == s.(clients := s'.clients) && s'.clients.Keys == s.clients.Keys
            && (forall other :: other in s.clients && other != cid ==> s'.clients[other] == s.clients[other])
            && (r.Err? ==> s'.clients[cid] == s.clients[cid].(outcome := Failed(r.error)))
            && (r.Ok? ==> reply.Verified? && s'.clients[cid] ==
                                             s.clients[cid].(outcome := Returned(reply.grant, r.value.0, r.value.1)))
  {}

  // ---- the sizes are needed ------------------------------------------------------

  /** What the toy server computes for a client's request, and the altered reply:
      a byte of the wrapped key has moved into the measurement, under the same
      signature. */
  lemma MovedByte(cfg: Config, keys: ClientKeys) returns (w: Wrap, sig: bytes, g: Grant)
    requires cfg == ToyConfig(false, false)
    ensures WrapCek(cfg.suite, Zeros(32), [], cfg.cek, WrapCoins([], [], Zeros(12))) == Some(w)
    ensures HybridSign(cfg.suite, [], [], SignedBytes(w, DeadBytes(24), Zeros(32)), []) == Ok(sig)
    ensures SignedBytes(g.w, g.measurement, Zeros(32)) == SignedBytes(w, DeadBytes(24), Zeros(32))
    ensures CheckReply(cfg, keys, Zeros(32), Verified(g)) == Ok((Zeros(31), g.measurement))
    ensures |g.measurement| == 49
  {
    LawsAreConsistent();
    w := Wrap(Zeros(32), Zeros(KEM_CT_LEN), Zeros(60));
    assert Zeros(12) + (Zeros(32) + Zeros(16)) == Zeros(60);
    var msg := SignedBytes(w, DeadBytes(24), Zeros(32));
    HybridSignVerifies(Toy(), [], [], msg, []);
    sig := HybridSign(Toy(), [], [], msg, []).value;
    g := Grant(w.(wrapped := Zeros(59)), [0] + DeadBytes(24), Zeros(32), sig);
    assert g.w.wrapped + [0] == w.wrapped;
    SignedBytesShift(g.w, 0, DeadBytes(24), Zeros(32));
    ToyUnwrap(keys, 59);
  }

  function Started(cfg: Config, cl: Client): State {
    State(map[], map[0 := cl], {ClientRequest(cfg, cl)}, RC.History({}, []), {})
  }

  lemma StartRuns(cfg: Config, keys: ClientKeys, report: bytes, nonce: bytes, rest: seq<Step>)
    requires |nonce| == 32
    ensures Exec(cfg, INIT, [StartClient(0, keys, report, nonce)] + rest)
         == Exec(cfg, Started(cfg, Client(keys, report, nonce, Waiting)), rest)
  {
    var start := StartClient(0, keys, report, nonce);
    assert ([start] + rest)[1..] == rest;
    assert Apply(cfg, INIT, start) == Started(cfg, Client(keys, report, nonce, Waiting));
  }

  /** Without the sizes the fields need not agree. With both schemes unbroken, a
      session returns another key than the server's and another measurement
      than the handler that answered it attested. */
  lemma SizesAreNeeded() returns (cfg: Config, steps: seq<Step>)
    ensures Valid(cfg) && !cfg.edBroken && !cfg.mldsaBroken
    ensures var end := Exec(cfg, INIT, steps);
            && end.Some? && 0 in end.value.clients && 0 in end.value.handlers
            && var cl, h := end.value.clients[0], end.value.handlers[0];
               && cl.outcome.Returned? && h.phase.Released? && h.req == ClientRequest(cfg, cl)
               && cl.outcome.cek != cfg.cek && cl.outcome.m != h.phase.m
  {
    LawsAreConsistent();
    cfg := ToyConfig(false, false);
    var keys, coins := ClientKeys([], []), WrapCoins([], [], Zeros(12));
    var w, sig, g := MovedByte(cfg, keys);
    var cl := Client(keys, [], Zeros(32), Waiting);
    ExchangeRuns(cfg, Started(cfg, cl), 0, 0, false, coins, [], DeadBytes(24), w, sig, g);
    var run := ServerRun(0, ClientRequest(cfg, cl), false, coins, []) + [Deliver(0, Verified(g))];
    steps := [StartClient(0, keys, [], Zeros(32))] + run;
    StartRuns(cfg, keys, [], Zeros(32), run);
    assert |Zeros(31)| != |cfg.cek| && |g.measurement| != |DeadBytes(24)|;
  }
}
