/** The bootstrap sequence and its exits (`CloudProtection.bootstrap` in
    src/cloud_protection.py). Commands, devices, the kernel and the network are
    outcomes passed in. */
module Bootstrap {
  import opened Wrappers
  import opened Bytes
  import opened Crypto
  import opened Sequences
  import opened Attestation
  import opened ProtectedMemory
  import Pkg = Package
  import RC = ReplayCache
  import KeyRelease
  import Unwrap

  datatype Tee = SevSnp | Tdx

  /** What the outside world answers during one bootstrap. */
  datatype World = World(
    lockedDown: bool,                        // the lockdown check, asked in production only
    tee: Option<Tee>,                        // TEE detection
    nonce: bytes, xPub: bytes, kemPub: bytes,
    report: Option<bytes>,                   // the fetched report
    chain: bool,                             // the AMD signature chain
    krsClient: bool,                         // the key-service client could be set up
    release: Option<(bytes, bytes)>,         // content key and measurement, if asked
    hmacSecret: Option<bytes>,               // the Nitrokey's answer
    mounts: Option<bool>,                    // findmnt ran, and reported tmpfs
    order: seq<string>,                      // directory listing
    armed: bool)                             // signal handlers and monitor started

  /** `TEEAttestation`: what has been established so far. */
  class TeeAttestation {
    var teeType: Option<Tee>
    var measurement: Option<bytes>

    constructor ()
      ensures teeType == None && measurement == None
    {
      teeType, measurement := None, None;
    }

    /** `verify_attestation_report`, the development check. */
    method VerifyReport(report: bytes, expected: bytes) returns (ok: bool)
      modifies this
      ensures ok <==> && |report| >= OFF_MEASUREMENT + 48
                      && report[OFF_MEASUREMENT..OFF_MEASUREMENT + 48] == FitTo(expected, 48)
      ensures ok ==> teeType == Some(SevSnp) && measurement == Some(FitTo(expected, 48))
      ensures !ok ==> teeType == old(teeType) && measurement == old(measurement)
    {
      if |report| < 48 {
        return false;
      }
      var measured := ParseMeasurement(report);
      if measured.Err? || measured.value != FitTo(expected, 48) {
        return false;
      }
      teeType, measurement := Some(SevSnp), Some(measured.value);
      ok := true;
    }

    /** `verify_via_key_service`: it reads `tee_type`, which raises while unset,
        before it asks for the key. */
    method VerifyViaKeyService(release: Option<(bytes, bytes)>) returns (r: Option<(bytes, bytes)>)
      modifies this
      ensures r == if old(teeType).None? then None else release
      ensures teeType == old(teeType)
      ensures r.None? ==> measurement == old(measurement)
    {
      if teeType.None? || release.None? {
        return None;
      }
      measurement := Some(release.value.1);
      r := release;
    }
  }

  const MASTER_INFO := Ascii("hpvs-portfolio/v3")

  class CloudProtection {
    const c: Suite
    const production: bool
    const keyService: bool            // a key-service URL and its configuration are given
    const expected: Option<bytes>     // the expected measurement
    const minTcb: int
    const job: Pkg.Job                // the sealed directory; its key is filled in
    const registry: Registry
    const replay: RC.BootstrapCache
    var masterKey: ProtectedMemory?
    var output: Pkg.Tree

    constructor (c: Suite, production: bool, keyService: bool, expected: Option<bytes>, minTcb: int, job: Pkg.Job,
                 output: Pkg.Tree)
      ensures masterKey == null && fresh(registry) && fresh(replay) && replay.seen == {}
      ensures this.c == c && this.production == production && this.keyService == keyService
      ensures this.expected == expected && this.minTcb == minTcb && this.job == job && this.output == output
    {
      this.c, this.production, this.keyService := c, production, keyService;
      this.expected, this.minTcb, this.job := expected, minTcb, job;
      registry := new Registry();
      replay := new RC.BootstrapCache();
      masterKey, this.output := null, output;
    }

    /** The key the development path derives. */
    function DevKey(hmacSecret: bytes): bytes
      requires expected.Some?
    {
      c.hkdf(FitTo(expected.value, 48) + hmacSecret, [], MASTER_INFO)
    }

    /** Production: local verification, then the key service. */
    method AcquireFromService(w: World, report: bytes, att: TeeAttestation) returns (ok: bool)
      modifies this`masterKey, registry, att
      ensures old(att.teeType).None? ==> !ok
      ensures !ok ==> masterKey == old(masterKey)
      ensures ok ==> masterKey != null && fresh(masterKey) && fresh(masterKey.cells) && masterKey.Valid()
    {
      if !keyService || expected.None? {
        return false;
      }
      var binding := KeyRelease.ReportDataFor(c, w.xPub, w.kemPub, w.nonce);
      var verified := Verify(Verifier([expected.value], minTcb, true, false), w.chain, report, binding);
      if verified.Err? || !w.krsClient {
        return false;
      }
      var released := att.VerifyViaKeyService(w.release);
      if released.None? {
        return false;
      }
      var key := new ProtectedMemory(32, registry);
      var stored := key.Write(Unwrap.Take(released.value.0, 32));
      masterKey := key;
      ok := true;
    }

    /** Development: local measurement check, then the Nitrokey. */
    method AcquireFromNitrokey(w: World, report: bytes, att: TeeAttestation) returns (ok: bool)
      requires Lawful(c)
      modifies this`masterKey, registry, att
      ensures ok <==> && expected.Some? && w.hmacSecret.Some? && |report| >= OFF_MEASUREMENT + 48
                      && report[OFF_MEASUREMENT..OFF_MEASUREMENT + 48] == FitTo(expected.value, 48)
      ensures !ok ==> masterKey == old(masterKey)
      ensures ok ==> && masterKey != null && fresh(masterKey) && fresh(masterKey.cells) && masterKey.Valid()
                     && masterKey.Contents() == DevKey(w.hmacSecret.value)
    {
      if expected.None? {
        return false;
      }
      var matches := att.VerifyReport(report, expected.value);
      if !matches || w.hmacSecret.None? {
        return false;
      }
      var key := new ProtectedMemory(32, registry);
      var derived := c.hkdf(att.measurement.value + w.hmacSecret.value, [], MASTER_INFO);
      var stored := key.Write(derived, 0);
      assert key.Contents() == derived;
      masterKey := key;
      ok := true;
    }

    /** The package, with the key the development path derives. */
    function DevJob(hmacSecret: bytes): Pkg.Job
      requires expected.Some?
    {
      job.(master := DevKey(hmacSecret))
    }

    ghost predicate DevReport(report: bytes) {
      && expected.Some? && |report| >= OFF_MEASUREMENT + 48
      && report[OFF_MEASUREMENT..OFF_MEASUREMENT + 48] == FitTo(expected.value, 48)
    }

    /** Everything the development path needs from its surroundings. */
    ghost predicate DevWorld(w: World, seen: set<bytes>, disk: Pkg.Tree) {
      && w.tee == Some(SevSnp) && c.sha256(w.nonce) !in seen
      && w.report.Some? && DevReport(w.report.value) && w.hmacSecret.Some?
      && w.mounts.Some? && w.armed
      && w.order != [] && Pkg.AllOpen(DevJob(w.hmacSecret.value), w.order, |w.order|)
      && Pkg.Compatible(Elements(Pkg.Targets(w.order)), disk)
    }

    /** The nonces spent once the run has come far enough to check one. */
    function SeenAfter(w: World, seen: set<bytes>): set<bytes> {
      if (production && !w.lockedDown) || w.tee.None? || c.sha256(w.nonce) in seen then seen
      else RC.AfterAdmit(seen, RC.MAX_REPLAY_ENTRIES, c.sha256(w.nonce))
    }

    /** Stages 1 and 2: detection, the replay check, and a report. */
    method Enter(w: World) returns (ok: bool)
      modifies replay
      ensures ok ==> (production ==> w.lockedDown)
      ensures ok && !production ==> w.tee == Some(SevSnp) && c.sha256(w.nonce) !in old(replay.seen) && w.report.Some?
      ensures !production && w.tee == Some(SevSnp) && c.sha256(w.nonce) !in old(replay.seen) && w.report.Some? ==> ok
      ensures ok ==> w.report.Some?
      ensures replay.seen == SeenAfter(w, old(replay.seen))
    {
      if (production && !w.lockedDown) || w.tee.None? {
        return false;
      }
      var first := replay.CheckThenRecord(c.sha256(w.nonce));
      ok := first && w.tee == Some(SevSnp) && w.report.Some?;
    }

    /** Stage 3: the master key, with a fresh attestation record. */
    method Acquire(w: World, report: bytes) returns (ok: bool)
      requires Lawful(c)
      modifies this`masterKey, registry
      ensures ok <==> !production && DevReport(report) && w.hmacSecret.Some?
      ensures !ok ==> masterKey == old(masterKey)
      ensures ok ==> && masterKey != null && fresh(masterKey.cells) && masterKey.Valid()
                     && masterKey.Contents() == c.hkdf(FitTo(expected.value, 48) + w.hmacSecret.value, [],
                                                       Ascii("hpvs-portfolio/v3"))
    {
      var att := new TeeAttestation();
      if production {
        ok := AcquireFromService(w, report, att);
      } else {
        ok := AcquireFromNitrokey(w, report, att);
      }
    }

    /** Stages 4 to 6: the mount check, the package, and arming. */
    method Unseal(w: World) returns (ok: bool)
      requires masterKey != null && masterKey.Valid() && Pkg.Lists(w.order, job.sealed)
      modifies this`output
      ensures !production ==>
                (ok <==> && w.mounts.Some? && w.armed && w.order != []
                         && Pkg.AllOpen(job.(master := masterKey.Contents()), w.order, |w.order|)
                         && Pkg.Compatible(Elements(Pkg.Targets(w.order)), old(output)))
      ensures ok ==> output == Pkg.Written(job.(master := masterKey.Contents()), w.order, |w.order|, old(output))
    {
      if w.mounts.None? || (production && !w.mounts.value) {
        return false;
      }
      var key := masterKey.Read();
      assert masterKey.Contents()[0..masterKey.size] == masterKey.Contents();
      var r, out := Pkg.DecryptPackage(job.(master := key.value), production, w.order, output);
      output := out;
      ok := r.Ok? && r.value != 0 && w.armed;
    }

    /** The body of the `try`: true if it ran to its end, false if it raised. */
    method Run(w: World) returns (ok: bool)
      requires Lawful(c) && Pkg.Lists(w.order, job.sealed)
      modifies this`masterKey, this`output, registry, replay
      ensures ok <==> !production && DevWorld(w, old(replay.seen), old(output))
      ensures masterKey == old(masterKey) || (masterKey != null && fresh(masterKey.cells) && masterKey.Valid())
      ensures replay.seen == SeenAfter(w, old(replay.seen))
      ensures ok ==> && masterKey != null && masterKey.Valid()
                            && masterKey.Contents() == DevKey(w.hmacSecret.value)
                     && output == Pkg.Written(DevJob(w.hmacSecret.value), w.order, |w.order|, old(output))
    {
      ok := Enter(w);
      if ok {
        ok := Acquire(w, w.report.value);
      }
      if ok {
        ok := Unseal(w);
      }
    }

    /** `bootstrap`. It returns 0 exactly for a development run in which every
        stage succeeds; a production run always returns 1, because the type of
        the TEE is read before anything sets it. Whenever it returns 1, the
        master key is absent or all zero. */
    method Bootstrap(w: World) returns (code: int)
      requires Lawful(c) && Pkg.Lists(w.order, job.sealed) && (masterKey != null ==> masterKey.Valid())
      modifies this`masterKey, this`output, registry, replay, (if masterKey != null then {masterKey.cells} else {})
      ensures code == 0 || code == 1
      ensures code == 0 <==> !production && DevWorld(w, old(replay.seen), old(output))
      ensures code == 1 ==> masterKey == null || masterKey.Wiped()
      ensures (production && !w.lockedDown) || w.tee == None || c.sha256(w.nonce) in old(replay.seen) ==>
                replay.seen == old(replay.seen)
      ensures !((production && !w.lockedDown) || w.tee == None || c.sha256(w.nonce) in old(replay.seen)) ==>
                replay.seen == RC.AfterAdmit(old(replay.seen), 10000, c.sha256(w.nonce))
      ensures code == 0 ==> && masterKey != null && masterKey.Valid()
                            && masterKey.Contents() == c.hkdf(FitTo(expected.value, 48) + w.hmacSecret.value, [],
                                                              Ascii("hpvs-portfolio/v3"))
                            && output == Pkg.Written(job.(master := masterKey.Contents()), w.order, |w.order|,
                                                     old(output))
    {
      var ok := Run(w);
      if ok {
        return 0;
      }
      if masterKey != null {
        masterKey.Zeroise();
      }
      code := 1;
    }
  }
}
