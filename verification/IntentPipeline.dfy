/** From `IntentBuilder.build` through an arbitrary network to concurrent calls of
    `IntentVerifier.verify` (src/signed_order_intent.py). */
module IntentPipeline {
  import opened Wrappers
  import opened Bytes
  import opened Crypto
  import opened Intents
  import Banding

  // ---- the parts of one call -----------------------------------------------

  datatype Config = Config(c: Suite, rt: Runtime, key: bytes, bands: seq<Num>, maxAge: real)

  /** The band table is a nonempty list of finite numbers. */
  predicate Banded(cfg: Config) {
    cfg.bands != [] && forall b :: b in cfg.bands ==> cfg.rt.value(b).Finite?
  }

  ghost predicate Valid(cfg: Config) {
    Lawful(cfg.c) && LawfulRuntime(cfg.rt) && Banded(cfg)
  }

  function Pub(cfg: Config): bytes {
    cfg.c.edPub(cfg.key)
  }

  function OwnHash(cfg: Config): string {
    KeyHash(cfg.c, cfg.rt, Pub(cfg))
  }

  function BandValues(cfg: Config): seq<real>
    requires Banded(cfg)
  {
    seq(|cfg.bands|, i requires 0 <= i < |cfg.bands| => cfg.rt.value(cfg.bands[i]).r)
  }

  /** What the strategy asks for, and what `build` draws or reads itself. */
  datatype Order = Order(symbol: string, side: Num, rawSize: real, stopPrice: Num, targetPrice: Num,
                         timestamp: Num, intentId: string)

  function Build(cfg: Config, o: Order): Intent
    requires Banded(cfg)
  {
    var size := cfg.bands[Banding.BandIndex(BandValues(cfg), o.rawSize)];
    SignIntent(cfg.c, cfg.rt,
               Intent(o.symbol, o.side, size, o.stopPrice, o.targetPrice, o.timestamp, o.intentId, "", ""), cfg.key)
  }

  datatype Reason = Passed | Expired | FutureTimestamp | HashMismatch | Replayed | InvalidSignature

  /** Checks 1 and 2 of `verify`, on the clock reading taken at its start. */
  function Screen(cfg: Config, x: Intent, now: real): Reason {
    var late := CheckAge(cfg, cfg.rt.value(x.timestamp), now);
    if late != Passed then late
    else if x.publicKeyHash != OwnHash(cfg) then HashMismatch
    else Passed
  }

  /** Both comparisons are false for a NaN age. */
  function CheckAge(cfg: Config, timestamp: FloatValue, now: real): Reason {
    match timestamp
    case Finite(ts) => if now - ts > cfg.maxAge then Expired else if now - ts < -60.0 then FutureTimestamp else Passed
    case Infinite(positive) => if positive then FutureTimestamp else Expired
    case NaN => Passed
  }

  /** The clocks on which a timestamp is let through. */
  predicate Timely(cfg: Config, timestamp: FloatValue, now: real) {
    timestamp.NaN? || (timestamp.Finite? && timestamp.r - 60.0 <= now <= timestamp.r + cfg.maxAge)
  }

  /** What the first checks mean: which intents pass, and which of them stops the
      others. An age is too high when the timestamp lies more than the maximum
      age before the clock, or infinitely far. */
  lemma ScreenExact(cfg: Config, x: Intent, now: real)
    ensures var ts, own := cfg.rt.value(x.timestamp), cfg.rt.hex(cfg.c.sha256(cfg.c.edPub(cfg.key)));
            && (Screen(cfg, x, now) == Passed <==> Timely(cfg, ts, now) && x.publicKeyHash == own)
            && (Screen(cfg, x, now) == Expired <==>
                  ts == Infinite(false) || (ts.Finite? && ts.r + cfg.maxAge < now))
            && (Screen(cfg, x, now) == FutureTimestamp <==>
                  ts == Infinite(true) || (ts.Finite? && now <= ts.r + cfg.maxAge && now + 60.0 < ts.r))
            && (Screen(cfg, x, now) == HashMismatch <==> Timely(cfg, ts, now) && x.publicKeyHash != own)
  {}

  /** What a call of `verify` answers when the set of seen ids is `seen`, and what
      that set is afterwards. An id is spent by every call that gets past the
      screen, whether or not the signature then verifies; nothing else is. */
  predicate Accepts(cfg: Config, seen: set<string>, x: Intent, now: real) {
    Admissible(cfg, x, now) && x.intentId !in seen && VerifyIntent(cfg.c, cfg.rt, x, cfg.c.edPub(cfg.key))
  }

  function SeenAfter(cfg: Config, seen: set<string>, x: Intent, now: real): set<string> {
    if Admissible(cfg, x, now) then seen + {x.intentId} else seen
  }

  predicate Admissible(cfg: Config, x: Intent, now: real) {
    Timely(cfg, cfg.rt.value(x.timestamp), now) && x.publicKeyHash == cfg.rt.hex(cfg.c.sha256(cfg.c.edPub(cfg.key)))
  }

  /** The verifier as a single-threaded object. */
  class IntentVerifier {
    const cfg: Config
    var seen: set<string>

    constructor (cfg: Config)
      ensures this.cfg == cfg && seen == {}
    {
      this.cfg := cfg;
      seen := {};
    }

    method Verify(x: Intent, now: real) returns (ok: bool, reason: Reason)
      modifies this
      ensures ok <==> reason == Passed
      ensures ok <==> Accepts(cfg, old(seen), x, now)
      ensures !Admissible(cfg, x, now) ==> reason == Screen(cfg, x, now)
      ensures reason == Replayed <==> Admissible(cfg, x, now) && x.intentId in old(seen)
      ensures reason == InvalidSignature <==>
              && Admissible(cfg, x, now) && x.intentId !in old(seen)
              && !VerifyIntent(cfg.c, cfg.rt, x, cfg.c.edPub(cfg.key))
      ensures seen == SeenAfter(cfg, old(seen), x, now)
    {
      ScreenExact(cfg, x, now);
      reason := Screen(cfg, x, now);
      if reason == Passed {
        if x.intentId in seen {
          reason := Replayed;
        } else {
          seen := seen + {x.intentId};
          if !VerifyIntent(cfg.c, cfg.rt, x, Pub(cfg)) {
            reason := InvalidSignature;
          }
        }
      }
      ok := reason == Passed;
    }

    method ClearSeen()
      modifies this
      ensures seen == {}
    {
      seen := {};
    }
  }

  // ---- states and steps ------------------------------------------------------

  /** A call of `verify` between its three parts: screened, then past the locked
      replay check at position `at` of the admissions. */
  datatype Call = Screened(x: Intent, now: real) | Admitted(x: Intent, now: real, at: nat)

  datatype Admission = Admission(x: Intent, now: real, epoch: nat)

  /** `orders` holds what `build` has been asked for and signed. `epoch` counts
      the calls of `clear_seen`. `admissions` lists, in the order of the lock,
      every pass of the replay check; `accepted` holds the positions whose call
      went on to return True, each with the epoch in which it returned. */
  datatype State = State(
    orders: set<Order>, seen: set<string>, epoch: nat, calls: map<nat, Call>,
    admissions: seq<Admission>, accepted: map<nat, nat>)

  const INIT := State({}, {}, 0, map[], [], map[])

  datatype Step =
    | DoBuild(order: Order)
    | Begin(tid: nat, x: Intent, now: real)
    | Lock(tid: nat)
    | Finish(tid: nat)
    | Clear

  /** Ed25519 is unforgeable: a text on which a signature verifies was signed by
      `build`. */
  ghost predicate Unforgeable(cfg: Config, s: State, x: Intent)
    requires Banded(cfg)
  {
    var sig := cfg.rt.unhex(x.signature);
    sig.Some? && cfg.c.edVerify(cfg.c.edPub(cfg.key), cfg.rt.utf8(SigningText(cfg.rt, x)), sig.value) ==>
      WasSigned(cfg, s.orders, x)
  }

  /** The bytes of the intent are those `build` signed for one of the orders. */
  ghost predicate WasSigned(cfg: Config, orders: set<Order>, x: Intent)
    requires Banded(cfg)
  {
    exists o :: o in orders && SharesBytes(cfg, x, o)
  }

  /** The intent has the bytes that `build` signed for the order. */
  predicate SharesBytes(cfg: Config, x: Intent, o: Order)
    requires Banded(cfg)
  {
    cfg.rt.utf8(SigningText(cfg.rt, x)) == cfg.rt.utf8(SigningText(cfg.rt, Build(cfg, o)))
  }

  /** `Begin` takes any intent at all: altered, invented, repeated or reordered.
      Ids made by `token_hex` have no pipe. */
  ghost predicate Enabled(cfg: Config, s: State, step: Step)
    requires Banded(cfg)
  {
    match step
    case DoBuild(order) => PipeFree(order.intentId)
    case Begin(tid, _, _) => tid !in s.calls
    case Lock(tid) => tid in s.calls && s.calls[tid].Screened?
    case Finish(tid) => tid in s.calls && s.calls[tid].Admitted? && Unforgeable(cfg, s, s.calls[tid].x)
    case Clear => true
  }

  ghost function Apply(cfg: Config, s: State, step: Step): State
    requires Banded(cfg) && Enabled(cfg, s, step)
  {
    match step
    case DoBuild(order) => s.(orders := s.orders + {order})
    case Begin(tid, x, now) =>
      if Screen(cfg, x, now) != Passed then s else s.(calls := s.calls[tid := Screened(x, now)])
    case Lock(tid) =>
      var Screened(x, now) := s.calls[tid];
      if x.intentId in s.seen then s.(calls := s.calls - {tid})
      else s.(seen := s.seen + {x.intentId},
              calls := s.calls[tid := Admitted(x, now, |s.admissions|)],
              admissions := s.admissions + [Admission(x, now, s.epoch)])
    case Finish(tid) =>
      var Admitted(x, now, at) := s.calls[tid];
      s.(calls := s.calls - {tid},
         accepted := if VerifyIntent(cfg.c, cfg.rt, x, Pub(cfg)) then s.accepted[at := s.epoch] else s.accepted)
    case Clear => s.(seen := {}, epoch := s.epoch + 1)
  }

  ghost function Exec(cfg: Config, s: State, steps: seq<Step>): Option<State>
    requires Banded(cfg)
    decreases |steps|
  {
    if steps == [] then Some(s)
    else if !Enabled(cfg, s, steps[0]) then None
    else Exec(cfg, Apply(cfg, s, steps[0]), steps[1..])
  }

  // ---- the invariant ---------------------------------------------------------

  ghost predicate OrdersOk(s: State) {
    forall o :: o in s.orders ==> PipeFree(o.intentId)
  }

  ghost predicate CallsOk(cfg: Config, s: State) {
    forall tid :: tid in s.calls ==>
      var k := s.calls[tid];
      && Screen(cfg, k.x, k.now) == Passed
      && (k.Admitted? ==> k.at < |s.admissions| && s.admissions[k.at].x == k.x && s.admissions[k.at].now == k.now)
  }

  ghost predicate AdmissionsOk(cfg: Config, s: State) {
    && (forall i :: 0 <= i < |s.admissions| ==>
          Screen(cfg, s.admissions[i].x, s.admissions[i].now) == Passed && s.admissions[i].epoch <= s.epoch)
    && (forall i, j :: 0 <= i < j < |s.admissions| ==> s.admissions[i].epoch <= s.admissions[j].epoch)
    && (forall i, j :: 0 <= i < j < |s.admissions| && s.admissions[i].x.intentId == s.admissions[j].x.intentId
          ==> s.admissions[i].epoch < s.admissions[j].epoch)
  }

  /** The seen set is exactly the ids admitted since the last clear. */
  ghost predicate SeenExact(s: State) {
    forall id :: id in s.seen <==> AdmittedNow(s, id)
  }

  ghost predicate AdmittedNow(s: State, id: string) {
    exists i :: 0 <= i < |s.admissions| && s.admissions[i].epoch == s.epoch && s.admissions[i].x.intentId == id
  }

  /** Calls return True no earlier than they were admitted. */
  ghost predicate ReturnsOk(s: State) {
    forall k :: k in s.accepted ==> k < |s.admissions| && s.admissions[k].epoch <= s.accepted[k] <= s.epoch
  }

  ghost predicate AcceptedOk(cfg: Config, s: State)
    requires Banded(cfg)
  {
    forall k :: k in s.accepted ==> k < |s.admissions| && WasSigned(cfg, s.orders, s.admissions[k].x)
  }

  ghost predicate Inv(cfg: Config, s: State)
    requires Banded(cfg)
  {
    OrdersOk(s) && CallsOk(cfg, s) && AdmissionsOk(cfg, s) && SeenExact(s) && ReturnsOk(s) && AcceptedOk(cfg, s)
  }

  /** What `build` makes of an order: every field but the size as asked, the size
      rounded to the band of the one asked for, and a signature that verifies. */
  lemma BuildKeepsOrder(cfg: Config, o: Order)
    requires Valid(cfg)
    ensures var b := Build(cfg, o);
            && b.intentId == o.intentId && b.symbol == o.symbol && b.side == o.side && b.stopPrice == o.stopPrice
            && b.targetPrice == o.targetPrice && b.timestamp == o.timestamp
            && b.publicKeyHash == cfg.rt.hex(cfg.c.sha256(cfg.c.edPub(cfg.key)))
            && b.size in cfg.bands && cfg.rt.value(b.size) == Finite(Banding.CoarseBand(o.rawSize, BandValues(cfg)))
            && VerifyIntent(cfg.c, cfg.rt, b, Pub(cfg))
  {}

  /** The executor accepts a built intent exactly on the clocks within its time
      window, or at any time if its timestamp is NaN, and while its id is unseen. */
  lemma BuiltIntentPasses(cfg: Config, o: Order, seen: set<string>, now: real)
    requires Valid(cfg)
    ensures Screen(cfg, Build(cfg, o), now) == Passed <==> Timely(cfg, cfg.rt.value(o.timestamp), now)
    ensures Accepts(cfg, seen, Build(cfg, o), now) <==>
            Timely(cfg, cfg.rt.value(o.timestamp), now) && o.intentId !in seen
  {
    BuildKeepsOrder(cfg, o);
  }

  lemma SeenKept(cfg: Config, s: State, step: Step)
    requires Banded(cfg) && Enabled(cfg, s, step) && AdmissionsOk(cfg, s) && SeenExact(s)
    ensures SeenExact(Apply(cfg, s, step))
  {
    var s' := Apply(cfg, s, step);
    forall id ensures id in s'.seen <==> AdmittedNow(s', id) {
      assert forall i :: 0 <= i < |s.admissions| ==> s'.admissions[i] == s.admissions[i];
      if step.Lock? && |s.admissions| < |s'.admissions| {
        assert s'.admissions[|s.admissions|].x == s.calls[step.tid].x;
        if id in s.seen {
          var i :| 0 <= i < |s.admissions| && s.admissions[i].epoch == s.epoch && s.admissions[i].x.intentId == id;
          assert s'.admissions[i].x.intentId == id;
        }
      }
    }
  }

  /** A new admission of an unseen id comes after all others, and its id after
      all clears of the others. */
  lemma AdmissionAdded(cfg: Config, s: State, s': State, a: Admission)
    requires AdmissionsOk(cfg, s) && SeenExact(s) && a.x.intentId !in s.seen && a.epoch == s.epoch == s'.epoch
    requires Screen(cfg, a.x, a.now) == Passed && s'.admissions == s.admissions + [a]
    ensures AdmissionsOk(cfg, s')
  {
    forall i | 0 <= i < |s.admissions| && s.admissions[i].x.intentId == a.x.intentId
      ensures s.admissions[i].epoch < a.epoch
    {
      assert !AdmittedNow(s, a.x.intentId);
    }
  }

  lemma AdmissionsKept(cfg: Config, s: State, step: Step)
    requires Banded(cfg) && Enabled(cfg, s, step) && CallsOk(cfg, s) && AdmissionsOk(cfg, s) && SeenExact(s)
    ensures AdmissionsOk(cfg, Apply(cfg, s, step))
  {
    var s' := Apply(cfg, s, step);
    if step.Lock? && s'.admissions != s.admissions {
      var k := s.calls[step.tid];
      AdmissionAdded(cfg, s, s', Admission(k.x, k.now, s.epoch));
    } else {
      assert s'.admissions == s.admissions && s.epoch <= s'.epoch;
    }
  }

  lemma CallsKept(cfg: Config, s: State, step: Step)
    requires Banded(cfg) && Enabled(cfg, s, step) && CallsOk(cfg, s)
    ensures CallsOk(cfg, Apply(cfg, s, step))
  {}

  lemma ReturnsKept(cfg: Config, s: State, step: Step)
    requires Banded(cfg) && Enabled(cfg, s, step) && CallsOk(cfg, s) && AdmissionsOk(cfg, s) && ReturnsOk(s)
    ensures ReturnsOk(Apply(cfg, s, step))
  {}

  lemma AcceptedKept(cfg: Config, s: State, step: Step)
    requires Banded(cfg) && Enabled(cfg, s, step) && CallsOk(cfg, s) && AcceptedOk(cfg, s)
    ensures AcceptedOk(cfg, Apply(cfg, s, step))
  {
    var s' := Apply(cfg, s, step);
    assert s.orders <= s'.orders && s.admissions <= s'.admissions;
    forall k | k in s'.accepted ensures k < |s'.admissions| && WasSigned(cfg, s'.orders, s'.admissions[k].x) {
      AcceptedSigned(cfg, s, step, k);
      StillSigned(cfg, s.orders, s'.orders, s.admissions[k].x);
    }
  }

  lemma AcceptedSigned(cfg: Config, s: State, step: Step, k: nat)
    requires Banded(cfg) && Enabled(cfg, s, step) && CallsOk(cfg, s) && AcceptedOk(cfg, s)
    requires k in Apply(cfg, s, step).accepted
    ensures k < |s.admissions| && WasSigned(cfg, s.orders, s.admissions[k].x)
  {}

  lemma StillSigned(cfg: Config, orders: set<Order>, orders': set<Order>, x: Intent)
    requires Banded(cfg) && orders <= orders' && WasSigned(cfg, orders, x)
    ensures WasSigned(cfg, orders', x)
  {
    var o :| o in orders && SharesBytes(cfg, x, o);
    assert o in orders';
  }

  lemma InvKept(cfg: Config, s: State, step: Step)
    requires Banded(cfg) && Enabled(cfg, s, step) && Inv(cfg, s)
    ensures Inv(cfg, Apply(cfg, s, step))
  {
    SeenKept(cfg, s, step);
    AdmissionsKept(cfg, s, step);
    CallsKept(cfg, s, step);
    ReturnsKept(cfg, s, step);
    AcceptedKept(cfg, s, step);
  }

  lemma {:induction false} RunKeepsInv(cfg: Config, s: State, steps: seq<Step>)
    requires Banded(cfg) && Inv(cfg, s) && Exec(cfg, s, steps).Some?
    ensures Inv(cfg, Exec(cfg, s, steps).value)
    decreases |steps|
  {
    if steps != [] {
      InvKept(cfg, s, steps[0]);
      RunKeepsInv(cfg, Apply(cfg, s, steps[0]), steps[1..]);
    }
  }

  /** The states at the end of runs. */
  ghost predicate Reachable(cfg: Config, s: State)
    requires Banded(cfg)
  {
    exists steps :: Exec(cfg, INIT, steps) == Some(s)
  }

  lemma ReachableInv(cfg: Config, s: State)
    requires Banded(cfg) && Reachable(cfg, s)
    ensures Inv(cfg, s)
  {
    var steps :| Exec(cfg, INIT, steps) == Some(s);
    RunKeepsInv(cfg, INIT, steps);
  }

  // ---- main results ------------------------------------------------------------

  /** The intent carries the order: same side, prices and timestamp, the size the
      order's size is banded to, and the same id and symbol too, unless the
      symbol ordered had a pipe in it. */
  ghost predicate Carries(cfg: Config, x: Intent, o: Order)
    requires Banded(cfg)
  {
    && x.side == o.side && x.stopPrice == o.stopPrice && x.targetPrice == o.targetPrice && x.timestamp == o.timestamp
    && x.size in cfg.bands && cfg.rt.value(x.size) == Finite(Banding.CoarseBand(o.rawSize, BandValues(cfg)))
    && x.intentId + "|" + x.symbol == o.intentId + "|" + o.symbol
    && (PipeFree(o.symbol) ==> x.intentId == o.intentId && x.symbol == o.symbol)
  }

  /** End to end. In every run, whatever the network does, every intent the
      executor accepts carries an order the strategy placed. */
  lemma EndToEnd(cfg: Config, s: State, k: nat)
    requires Valid(cfg) && Reachable(cfg, s) && k in s.accepted
    ensures k < |s.admissions| && exists o :: o in s.orders && Carries(cfg, s.admissions[k].x, o)
  {
    ReachableInv(cfg, s);
    assert Screen(cfg, s.admissions[k].x, s.admissions[k].now) == Passed;
    SignedCarries(cfg, s.orders, s.admissions[k].x);
  }

  lemma SignedCarries(cfg: Config, orders: set<Order>, x: Intent)
    requires Valid(cfg) && (forall o :: o in orders ==> PipeFree(o.intentId))
    requires x.publicKeyHash == OwnHash(cfg) && WasSigned(cfg, orders, x)
    ensures exists o :: o in orders && Carries(cfg, x, o)
  {
    var o :| o in orders && SharesBytes(cfg, x, o);
    SharedBytesCarry(cfg, x, o);
  }

  lemma SharedBytesCarry(cfg: Config, x: Intent, o: Order)
    requires Valid(cfg) && PipeFree(o.intentId) && x.publicKeyHash == OwnHash(cfg) && SharesBytes(cfg, x, o)
    ensures Carries(cfg, x, o)
  {
    BuildKeepsOrder(cfg, o);
    assert PipeFree(OwnHash(cfg));
    SigningTextExact(cfg.rt, x, Build(cfg, o));
    if PipeFree(o.symbol) {
      PipeFreePrefix(o.intentId, o.symbol, x.intentId, x.symbol);
    }
  }

  /** No replay. In every run, two different acceptances of one id are separated
      by a `clear_seen` between their replay checks, and the set of seen ids is
      exactly what has been admitted since the last one. */
  lemma NoReplayBetweenClears(cfg: Config, s: State, i: nat, j: nat)
    requires Valid(cfg) && Reachable(cfg, s) && i in s.accepted && j in s.accepted && i < j
    ensures i < |s.admissions| && j < |s.admissions| && SeenExact(s)
    ensures s.admissions[i].x.intentId == s.admissions[j].x.intentId ==> s.admissions[i].epoch < s.admissions[j].epoch
  {
    ReachableInv(cfg, s);
  }

  // ---- returns and clears ------------------------------------------------------

  /** No id is accepted twice in one session, a session being what lies between
      two clears and an acceptance belonging to the session it returned in. */
  ghost predicate OncePerSession(s: State) {
    forall i, j ::
      i in s.accepted && j in s.accepted && i < j < |s.admissions|
      && s.admissions[i].x.intentId == s.admissions[j].x.intentId
      ==> s.accepted[i] != s.accepted[j]
  }

  /** In every run, two acceptances of one id return in one session only if the
      earlier call passed its replay check before a clear and returned after it. */
  lemma SharedSessionStraddles(cfg: Config, s: State, i: nat, j: nat)
    requires Valid(cfg) && Reachable(cfg, s) && i in s.accepted && j in s.accepted && i < j
    ensures i < j < |s.admissions|
    ensures s.admissions[i].x.intentId == s.admissions[j].x.intentId && s.accepted[i] == s.accepted[j] ==>
              s.admissions[i].epoch < s.accepted[i]
  {
    ReachableInv(cfg, s);
  }

  /** An intent that a call past the replay check can still accept. */
  ghost predicate Acceptable(cfg: Config, x: Intent)
    requires Banded(cfg)
  {
    && VerifyIntent(cfg.c, cfg.rt, x, Pub(cfg))
    && exists o: Order :: PipeFree(o.intentId) && SharesBytes(cfg, x, o)
  }

  /** No call is between its replay check and a True that it may return. */
  ghost predicate Idle(cfg: Config, s: State)
    requires Banded(cfg)
  {
    forall tid :: tid in s.calls && s.calls[tid].Admitted? ==> !Acceptable(cfg, s.calls[tid].x)
  }

  /** The steps run, and whenever one of them is a clear the verifier is idle. */
  ghost predicate Quiet(cfg: Config, s: State, steps: seq<Step>)
    requires Banded(cfg)
    decreases |steps|
  {
    steps == [] ||
    (&& Enabled(cfg, s, steps[0]) && (steps[0].Clear? ==> Idle(cfg, s))
     && Quiet(cfg, Apply(cfg, s, steps[0]), steps[1..]))
  }

  /** Calls that may still return True, and those that did, were admitted in the
      session of their return. */
  ghost predicate Current(cfg: Config, s: State)
    requires Banded(cfg)
  {
    CallsCurrent(cfg, s) && ReturnsCurrent(s)
  }

  ghost predicate CallsCurrent(cfg: Config, s: State)
    requires Banded(cfg)
  {
    forall tid :: tid in s.calls && s.calls[tid].Admitted? && Acceptable(cfg, s.calls[tid].x) ==>
      s.calls[tid].at < |s.admissions| && s.admissions[s.calls[tid].at].epoch == s.epoch
  }

  ghost predicate ReturnsCurrent(s: State) {
    forall k :: k in s.accepted ==> k < |s.admissions| && s.admissions[k].epoch == s.accepted[k]
  }

  lemma SignedIsAcceptable(cfg: Config, orders: set<Order>, x: Intent)
    requires Banded(cfg) && WasSigned(cfg, orders, x) && (forall o :: o in orders ==> PipeFree(o.intentId))
    requires VerifyIntent(cfg.c, cfg.rt, x, Pub(cfg))
    ensures Acceptable(cfg, x)
  {
    var o :| o in orders && SharesBytes(cfg, x, o);
    assert PipeFree(o.intentId) && SharesBytes(cfg, x, o);
  }

  lemma CallsCurrentKept(cfg: Config, s: State, step: Step)
    requires Banded(cfg) && Enabled(cfg, s, step) && CallsCurrent(cfg, s) && (step.Clear? ==> Idle(cfg, s))
    ensures CallsCurrent(cfg, Apply(cfg, s, step))
  {
    var s' := Apply(cfg, s, step);
    assert s.admissions <= s'.admissions;
    forall tid | tid in s'.calls && s'.calls[tid].Admitted? && Acceptable(cfg, s'.calls[tid].x)
      ensures s'.calls[tid].at < |s'.admissions| && s'.admissions[s'.calls[tid].at].epoch == s'.epoch
    {
      if tid in s.calls && s.calls[tid] == s'.calls[tid] {
        assert !step.Clear?;
      }
    }
  }

  lemma ReturnsCurrentKept(cfg: Config, s: State, step: Step)
    requires Banded(cfg) && Enabled(cfg, s, step) && CallsCurrent(cfg, s) && ReturnsCurrent(s)
    requires step.Finish? && VerifyIntent(cfg.c, cfg.rt, s.calls[step.tid].x, Pub(cfg)) ==>
               Acceptable(cfg, s.calls[step.tid].x)
    ensures ReturnsCurrent(Apply(cfg, s, step))
  {
    var s' := Apply(cfg, s, step);
    assert s.admissions <= s'.admissions;
    forall k | k in s'.accepted ensures k < |s'.admissions| && s'.admissions[k].epoch == s'.accepted[k] {
      if step.Finish? && k == s.calls[step.tid].at {
        assert s'.admissions == s.admissions;
      }
    }
  }

  lemma CurrentKept(cfg: Config, s: State, step: Step)
    requires Banded(cfg) && Enabled(cfg, s, step) && Inv(cfg, s) && Current(cfg, s)
    requires step.Clear? ==> Idle(cfg, s)
    ensures Current(cfg, Apply(cfg, s, step))
  {
    CallsCurrentKept(cfg, s, step);
    if step.Finish? && VerifyIntent(cfg.c, cfg.rt, s.calls[step.tid].x, Pub(cfg)) {
      SignedIsAcceptable(cfg, s.orders, s.calls[step.tid].x);
    }
    ReturnsCurrentKept(cfg, s, step);
  }

  lemma {:induction false} QuietRun(cfg: Config, s: State, steps: seq<Step>)
    requires Banded(cfg) && Inv(cfg, s) && Current(cfg, s) && Quiet(cfg, s, steps)
    ensures var end := Exec(cfg, s, steps); end.Some? && Inv(cfg, end.value) && Current(cfg, end.value)
    decreases |steps|
  {
    if steps != [] {
      InvKept(cfg, s, steps[0]);
      CurrentKept(cfg, s, steps[0]);
      QuietRun(cfg, Apply(cfg, s, steps[0]), steps[1..]);
    }
  }

  lemma CurrentAcceptsOnce(cfg: Config, s: State)
    requires Banded(cfg) && Inv(cfg, s) && Current(cfg, s)
    ensures OncePerSession(s)
  {}

  /** At most once. In every run that clears only while idle, no id is accepted
      twice between two clears, however its calls overlap. */
  lemma QuietRunsAcceptOnce(cfg: Config, steps: seq<Step>)
    requires Valid(cfg) && Quiet(cfg, INIT, steps)
    ensures Exec(cfg, INIT, steps).Some? && OncePerSession(Exec(cfg, INIT, steps).value)
  {
    QuietRun(cfg, INIT, steps);
    CurrentAcceptsOnce(cfg, Exec(cfg, INIT, steps).value);
  }

  lemma FreshTid(tids: set<nat>) returns (tid: nat)
    ensures tid !in tids && forall t :: t in tids ==> t < tid
    decreases |tids|
  {
    if tids == {} {
      tid := 0;
    } else {
      var t :| t in tids;
      var next := FreshTid(tids - {t});
      assert forall u :: u in tids ==> u == t || u in tids - {t};
      tid := if t < next then next else t + 1;
    }
  }

  lemma ExecStep(cfg: Config, s: State, step: Step, rest: seq<Step>)
    requires Banded(cfg) && Enabled(cfg, s, step)
    ensures Exec(cfg, s, [step] + rest) == Exec(cfg, Apply(cfg, s, step), rest)
    ensures !step.Clear? ==> (Quiet(cfg, s, [step] + rest) <==> Quiet(cfg, Apply(cfg, s, step), rest))
  {
    assert ([step] + rest)[1..] == rest;
  }

  /** A call in flight and a new one for the same intent both return True. */
  lemma TwoReturns(cfg: Config, s: State, tid: nat, other: nat) returns (steps: seq<Step>)
    requires Banded(cfg) && CallsOk(cfg, s) && tid in s.calls && s.calls[tid].Admitted? && other !in s.calls
    requires s.calls[tid].x.intentId !in s.seen && WasSigned(cfg, s.orders, s.calls[tid].x)
    requires VerifyIntent(cfg.c, cfg.rt, s.calls[tid].x, Pub(cfg))
    ensures Quiet(cfg, s, steps) && Exec(cfg, s, steps).Some?
    ensures !OncePerSession(Exec(cfg, s, steps).value)
  {
    var k, n := s.calls[tid], |s.admissions|;
    var begin, lock, first, second := Begin(other, k.x, k.now), Lock(other), Finish(tid), Finish(other);
    steps := [begin] + ([lock] + ([first] + ([second] + [])));
    var s1 := Apply(cfg, s, begin);
    var s2 := Apply(cfg, s1, lock);
    var s3 := Apply(cfg, s2, first);
    var s4 := Apply(cfg, s3, second);
    ExecStep(cfg, s, begin, [lock] + ([first] + ([second] + [])));
    ExecStep(cfg, s1, lock, [first] + ([second] + []));
    ExecStep(cfg, s2, first, [second] + []);
    ExecStep(cfg, s3, second, []);
    assert k.at in s4.accepted && n in s4.accepted && s4.accepted[k.at] == s4.accepted[n];
    assert s4.admissions[k.at].x == k.x && s4.admissions[n].x == k.x;
  }

  /** A clear while a call is in flight that may still return True can always be
      continued, with no other clear, so that one id is accepted twice. */
  lemma ClearInFlight(cfg: Config, s: State, tid: nat) returns (steps: seq<Step>)
    requires Banded(cfg) && Inv(cfg, s) && tid in s.calls && s.calls[tid].Admitted?
    requires Acceptable(cfg, s.calls[tid].x)
    ensures Quiet(cfg, Apply(cfg, s, Clear), steps) && Exec(cfg, Apply(cfg, s, Clear), steps).Some?
    ensures !OncePerSession(Exec(cfg, Apply(cfg, s, Clear), steps).value)
  {
    var s1 := Apply(cfg, s, Clear);
    var o: Order :| PipeFree(o.intentId) && SharesBytes(cfg, s.calls[tid].x, o);
    var s2 := Apply(cfg, s1, DoBuild(o));
    InvKept(cfg, s, Clear);
    InvKept(cfg, s1, DoBuild(o));
    assert o in s2.orders;
    var other := FreshTid(s.calls.Keys);
    var rest := TwoReturns(cfg, s2, tid, other);
    steps := [DoBuild(o)] + rest;
    ExecStep(cfg, s1, DoBuild(o), rest);
  }

  /** The exact condition. After a run that cleared only while idle, one more
      clear is harmless, for every continuation that clears only while idle,
      exactly when the verifier is idle. */
  lemma ClearExact(cfg: Config, steps: seq<Step>, s: State)
    requires Valid(cfg) && Quiet(cfg, INIT, steps) && Exec(cfg, INIT, steps) == Some(s)
    ensures Idle(cfg, s) <==>
            forall rest :: Quiet(cfg, Apply(cfg, s, Clear), rest) ==>
              Exec(cfg, Apply(cfg, s, Clear), rest).Some?
              && OncePerSession(Exec(cfg, Apply(cfg, s, Clear), rest).value)
  {
    QuietRun(cfg, INIT, steps);
    var s1 := Apply(cfg, s, Clear);
    if Idle(cfg, s) {
      InvKept(cfg, s, Clear);
      CurrentKept(cfg, s, Clear);
      forall rest | Quiet(cfg, s1, rest)
        ensures Exec(cfg, s1, rest).Some? && OncePerSession(Exec(cfg, s1, rest).value)
      {
        QuietRun(cfg, s1, rest);
        CurrentAcceptsOnce(cfg, Exec(cfg, s1, rest).value);
      }
    } else {
      var tid :| tid in s.calls && s.calls[tid].Admitted? && Acceptable(cfg, s.calls[tid].x);
      var rest := ClearInFlight(cfg, s, tid);
    }
  }

  /** And such runs exist for every order: a call that is overtaken by a clear
      and a second call for the same intent both return True, in one session. */
  lemma ReplayAcrossClear(cfg: Config, o: Order, now: real) returns (steps: seq<Step>)
    requires Valid(cfg) && PipeFree(o.intentId) && Timely(cfg, cfg.rt.value(o.timestamp), now)
    ensures Exec(cfg, INIT, steps).Some? && !OncePerSession(Exec(cfg, INIT, steps).value)
  {
    var x := Build(cfg, o);
    BuiltIntentPasses(cfg, o, {}, now);
    var build, begin, lock := DoBuild(o), Begin(0, x, now), Lock(0);
    var s1 := Apply(cfg, INIT, build);
    var s2 := Apply(cfg, s1, begin);
    var s3 := Apply(cfg, s2, lock);
    InvKept(cfg, INIT, build);
    InvKept(cfg, s1, begin);
    InvKept(cfg, s2, lock);
    assert PipeFree(o.intentId) && SharesBytes(cfg, x, o);
    var rest := ClearInFlight(cfg, s3, 0);
    steps := [build] + ([begin] + ([lock] + ([Clear] + rest)));
    ExecStep(cfg, INIT, build, [begin] + ([lock] + ([Clear] + rest)));
    ExecStep(cfg, s1, begin, [lock] + ([Clear] + rest));
    ExecStep(cfg, s2, lock, [Clear] + rest);
    ExecStep(cfg, s3, Clear, rest);
  }

  // ---- single calls ------------------------------------------------------------

  /** The steps of one call that nothing interrupts. */
  function WholeCall(cfg: Config, seen: set<string>, tid: nat, x: Intent, now: real): seq<Step> {
    if Screen(cfg, x, now) != Passed then [Begin(tid, x, now)]
    else if x.intentId in seen then [Begin(tid, x, now), Lock(tid)]
    else [Begin(tid, x, now), Lock(tid), Finish(tid)]
  }

  /** Without interruption the steps do what the method `Verify` does: same
      answer, same ids seen, and no trace in the calls. */
  lemma WholeCallIsVerify(cfg: Config, s: State, tid: nat, x: Intent, now: real)
    requires Banded(cfg) && tid !in s.calls && Unforgeable(cfg, s, x)
    ensures var end := Exec(cfg, s, WholeCall(cfg, s.seen, tid, x, now));
            && end.Some? && end.value.seen == SeenAfter(cfg, s.seen, x, now)
            && end.value.calls == s.calls && end.value.epoch == s.epoch && end.value.orders == s.orders
            && end.value.accepted ==
                 (if Accepts(cfg, s.seen, x, now) then s.accepted[|s.admissions| := s.epoch] else s.accepted)
  {
    var begin, lock, finish := Begin(tid, x, now), Lock(tid), Finish(tid);
    var s1 := Apply(cfg, s, begin);
    ScreenExact(cfg, x, now);
    if Screen(cfg, x, now) != Passed {
      ExecStep(cfg, s, begin, []);
    } else {
      var s2 := Apply(cfg, s1, lock);
      if x.intentId in s.seen {
        assert [begin, lock] == [begin] + ([lock] + []);
        ExecStep(cfg, s, begin, [lock] + []);
        ExecStep(cfg, s1, lock, []);
      } else {
        assert [begin, lock, finish] == [begin] + ([lock] + ([finish] + []));
        ExecStep(cfg, s, begin, [lock] + ([finish] + []));
        ExecStep(cfg, s1, lock, [finish] + []);
        ExecStep(cfg, s2, finish, []);
      }
    }
  }

  // ---- counting ----------------------------------------------------------------

  /** How many of the positions before `n` are acceptances of `id`. */
  ghost function Count(s: State, id: string, n: nat): nat
    requires n <= |s.admissions|
  {
    if n == 0 then 0 else
      Count(s, id, n - 1) + (if n - 1 in s.accepted && s.admissions[n - 1].x.intentId == id then 1 else 0)
  }

  lemma {:induction false} CountBound(cfg: Config, s: State, id: string, first: nat, n: nat)
    requires AdmissionsOk(cfg, s) && first < n <= |s.admissions|
    requires s.admissions[first].x.intentId == id && Count(s, id, first) == 0
    requires s.admissions[n - 1].x.intentId == id
    ensures Count(s, id, n) <= 1 + s.admissions[n - 1].epoch - s.admissions[first].epoch
    decreases n
  {
    if n - 1 > first {
      var m := Previous(s, id, first, n - 1);
      CountBound(cfg, s, id, first, m);
      assert s.admissions[m - 1].epoch < s.admissions[n - 1].epoch;
    }
  }

  /** The last admission of `id` before `n` bounds the count so far. */
  lemma {:induction false} Previous(s: State, id: string, first: nat, n: nat) returns (m: nat)
    requires first < n <= |s.admissions| && s.admissions[first].x.intentId == id
    ensures first < m <= n && s.admissions[m - 1].x.intentId == id && Count(s, id, m) == Count(s, id, n)
    decreases n
  {
    if s.admissions[n - 1].x.intentId == id {
      m := n;
    } else {
      m := Previous(s, id, first, n - 1);
    }
  }

  /** Bounded acceptance. In every run, the acceptances of one id between a first
      and a last one number at most one more than the clears between those two,
      and each was screened on a clock within [timestamp - 60, timestamp + max age],
      unless its timestamp was NaN. */
  lemma BoundedAcceptance(cfg: Config, s: State, id: string, first: nat, last: nat)
    requires Valid(cfg) && Reachable(cfg, s)
    requires first <= last < |s.admissions| && first in s.accepted && last in s.accepted
    requires s.admissions[first].x.intentId == s.admissions[last].x.intentId == id && Count(s, id, first) == 0
    ensures Count(s, id, last + 1) <= 1 + s.admissions[last].epoch - s.admissions[first].epoch
    ensures Timely(cfg, cfg.rt.value(s.admissions[last].x.timestamp), s.admissions[last].now)
  {
    ReachableInv(cfg, s);
    CountBound(cfg, s, id, first, last + 1);
    AdmittedTimely(cfg, s, last);
  }

  lemma AdmittedTimely(cfg: Config, s: State, k: nat)
    requires AdmissionsOk(cfg, s) && k < |s.admissions|
    ensures Timely(cfg, cfg.rt.value(s.admissions[k].x.timestamp), s.admissions[k].now)
  {
    assert Screen(cfg, s.admissions[k].x, s.admissions[k].now) == Passed;
  }
}
