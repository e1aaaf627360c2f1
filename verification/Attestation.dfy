/** SEV-SNP report requests, field parsing and the verifier (src/snp_verify.py).
    The AMD signature chain, checked by an external program, is a verdict passed
    in; the kernel's answer to the request is a byte string passed in. */
module Attestation {
  import opened Wrappers
  import opened Bytes

  const OFF_POLICY := 0x008
  const OFF_REPORT_DATA := 0x050
  const OFF_MEASUREMENT := 0x090
  const OFF_REPORTED_TCB := 0x180
  const REPORT_LEN := 1184
  const POLICY_DEBUG_BIT := 19
  const POLICY_SMT_BIT := 16

  datatype AttestationError =
    | FirmwareError | BadStatus | ReportTooSmall | ReportTruncated
    | ReportTooShort | ChainRejected | ReportDataMismatch | MeasurementNotAllowed
    | DebugPermitted | SmtPermitted | TcbBelowFloor

  // ---- fetching ------------------------------------------------------------

  /** `struct.pack_into("<I", ...)`, for a value that fits. */
  function Word(n: nat): (b: bytes)
    requires n < 0x1_0000_0000
    ensures |b| == 4 && LittleEndian(b) == n
  {
    var x := n / 256;
    var y := x / 256;
    LittleEndianCons(y / 256, []);
    LittleEndianCons(y % 256, [y / 256]);
    LittleEndianCons(x % 256, [y % 256, y / 256]);
    LittleEndianCons(n % 256, [x % 256, y % 256, y / 256]);
    assert [n % 256] + ([x % 256] + ([y % 256] + ([y / 256] + []))) == [n % 256, x % 256, y % 256, y / 256];
    [n % 256, x % 256, y % 256, y / 256]
  }

  lemma LittleEndianCons(b: byte, rest: bytes)
    ensures LittleEndian([b] + rest) == b + 256 * LittleEndian(rest)
  {
    assert ([b] + rest)[1..] == rest;
  }

  /** The 96-byte request: padded user data, then the privilege level as a
      little-endian word, then reserved zeros. A level that is no 32-bit word
      raises, and there is no request. */
  method BuildRequest(reportData: bytes, vmpl: int) returns (req: array?<byte>)
    ensures req == null <==> !(0 <= vmpl < 0x1_0000_0000)
    ensures req != null ==> fresh(req) && req.Length == 96
    ensures req != null ==> req[..64] == FitTo(reportData, 64) && LittleEndian(req[64..68]) == vmpl
                            && req[68..] == Zeros(28)
  {
    if !(0 <= vmpl < 0x1_0000_0000) {
      return null;
    }
    var rd, level := FitTo(reportData, 64), Word(vmpl);
    req := new byte[96](i => 0);
    forall i | 0 <= i < 64 {
      req[i] := rd[i];
    }
    forall i | 0 <= i < 4 {
      req[64 + i] := level[i];
    }
    assert req[64..68] == level;
  }

  /** What `fetch_report_ioctl` makes of the kernel's answer. */
  function ReadAnswer(firmwareError: nat, answer: bytes): (r: Result<bytes, AttestationError>)
    requires |answer| == 4000
    ensures r.Ok? ==> |r.value| == REPORT_LEN && r.value <= answer[32..]
  {
    if firmwareError != 0 then Err(FirmwareError)
    else if LittleEndian(answer[0..4]) != 0 then Err(BadStatus)
    else if LittleEndian(answer[4..8]) < REPORT_LEN then Err(ReportTooSmall)
    else Ok(answer[32..32 + REPORT_LEN])
  }

  /** The answer holds a report exactly when the firmware reported no error, the
      status bytes are zero and the size says so; it is the 1184 bytes after the
      32-byte header. The errors come in that order. */
  lemma ReadAnswerExact(firmwareError: nat, answer: bytes, report: bytes)
    requires |answer| == 4000
    ensures var r, zero := ReadAnswer(firmwareError, answer), answer[0..4] == [0, 0, 0, 0];
            var size := answer[4] as int + 0x100 * (answer[5] as int) + 0x1_0000 * (answer[6] as int)
                        + 0x100_0000 * (answer[7] as int);
            && (r == Ok(report) <==> firmwareError == 0 && zero && size >= 1184 && report == answer[32..1216])
            && (r == Err(FirmwareError) <==> firmwareError != 0)
            && (r == Err(BadStatus) <==> firmwareError == 0 && !zero)
            && (r == Err(ReportTooSmall) <==> firmwareError == 0 && zero && size < 1184)
  {
    LittleEndianOfFour(answer[0], answer[1], answer[2], answer[3]);
    LittleEndianOfFour(answer[4], answer[5], answer[6], answer[7]);
    assert answer[0..4] == [answer[0], answer[1], answer[2], answer[3]];
    assert answer[4..8] == [answer[4], answer[5], answer[6], answer[7]];
  }

  lemma LittleEndianOfFour(a: byte, b: byte, c: byte, d: byte)
    ensures LittleEndian([a, b, c, d])
         == a as int + 0x100 * (b as int) + 0x1_0000 * (c as int) + 0x100_0000 * (d as int)
  {
    LittleEndianCons(d, []);
    LittleEndianCons(c, [d]);
    LittleEndianCons(b, [c, d]);
    LittleEndianCons(a, [b, c, d]);
    assert [a] + ([b] + ([c] + ([d] + []))) == [a, b, c, d];
    assert [b] + [c, d] == [b, c, d] && [c] + [d] == [c, d] && [d] + [] == [d] && [a] + [b, c, d] == [a, b, c, d];
  }

  // ---- parsing -------------------------------------------------------------

  function ParseMeasurement(report: bytes): Result<bytes, AttestationError> {
    if |report| < OFF_MEASUREMENT + 48 then Err(ReportTruncated)
    else Ok(report[OFF_MEASUREMENT..OFF_MEASUREMENT + 48])
  }

  function ReportData(report: bytes): bytes
    requires |report| >= REPORT_LEN
  {
    report[OFF_REPORT_DATA..OFF_REPORT_DATA + 64]
  }

  function Policy(report: bytes): nat
    requires |report| >= REPORT_LEN
  {
    LittleEndian(report[OFF_POLICY..OFF_POLICY + 8])
  }

  function ReportedTcb(report: bytes): nat
    requires |report| >= REPORT_LEN
  {
    LittleEndian(report[OFF_REPORTED_TCB..OFF_REPORTED_TCB + 8])
  }

  // ---- verifying -----------------------------------------------------------

  datatype Verifier = Verifier(allowlist: seq<bytes>, minTcb: int, requireNoDebug: bool, requireSmtDisabled: bool) {
    function Allow(): set<bytes> {
      set m | m in allowlist :: FitTo(m, 48)
    }
  }

  function Verify(v: Verifier, chain: bool, report: bytes, expected: bytes): Result<bytes, AttestationError> {
    if |report| < REPORT_LEN then Err(ReportTooShort)
    else if !chain then Err(ChainRejected)
    else if ReportData(report) != FitTo(expected, 64) then Err(ReportDataMismatch)
    else
      var meas := ParseMeasurement(report);
      if meas.Err? then meas
      else if meas.value !in v.Allow() then Err(MeasurementNotAllowed)
      else if v.requireNoDebug && Bit(Policy(report), POLICY_DEBUG_BIT) then Err(DebugPermitted)
      else if v.requireSmtDisabled && Bit(Policy(report), POLICY_SMT_BIT) then Err(SmtPermitted)
      else if ReportedTcb(report) < v.minTcb then Err(TcbBelowFloor)
      else meas
  }

  /** The eight TCB bytes, compared most significant first with the bytes of the
      floor, whatever the width of the floor. */
  ghost predicate BelowFloor(tcb: bytes, floor: int)
    requires |tcb| == 8
  {
    floor > 0 && var f := WordBytes(floor); BelowMsbFirst(tcb + Zeros(|f| - 8), f)
  }

  lemma BelowFloorExact(tcb: bytes, floor: int)
    requires |tcb| == 8
    ensures BelowFloor(tcb, floor) <==> LittleEndian(tcb) < floor
  {
    if floor > 0 {
      var f := WordBytes(floor);
      LittleEndianPadded(tcb, |f| - 8);
      LittleEndianOrder(tcb + Zeros(|f| - 8), f);
    }
  }

  /** What acceptance means, read off single bytes of the report: bits 3 and 0
      of byte 0x00A, and the TCB bytes against the floor. */
  ghost predicate Genuine(v: Verifier, chain: bool, report: bytes, expected: bytes) {
    && chain
    && |report| >= REPORT_LEN
    && (forall i :: 0 <= i < 64 ==> report[0x050 + i] == if i < |expected| then expected[i] else 0)
    && (exists m :: m in v.allowlist && report[0x090..0x0C0] == FitTo(m, 48))
    && (v.requireNoDebug ==> !Bit(report[0x00A], 3))
    && (v.requireSmtDisabled ==> !Bit(report[0x00A], 0))
    && !BelowFloor(report[0x180..0x188], v.minTcb)
  }

  /** Verification accepts exactly the genuine reports and returns the 48
      measurement bytes. */
  lemma VerifyExact(v: Verifier, chain: bool, report: bytes, expected: bytes)
    ensures Verify(v, chain, report, expected).Ok? <==> Genuine(v, chain, report, expected)
    ensures Verify(v, chain, report, expected).Ok? ==>
              Verify(v, chain, report, expected).value == report[0x090..0x0C0]
    ensures Verify(v, chain, report, expected) == Err(ReportTooShort) <==> |report| < 1184
  {
    if |report| >= REPORT_LEN {
      var rd, policy := ReportData(report), report[OFF_POLICY..OFF_POLICY + 8];
      assert forall i :: 0 <= i < 64 ==> rd[i] == report[0x050 + i];
      if rd != FitTo(expected, 64) {
        var i :| 0 <= i < 64 && rd[i] != FitTo(expected, 64)[i];
        assert report[0x050 + i] != if i < |expected| then expected[i] else 0;
      }
      assert policy[2] == report[0x00A];
      LittleEndianBit(policy, POLICY_DEBUG_BIT);
      LittleEndianBit(policy, POLICY_SMT_BIT);
      BelowFloorExact(report[0x180..0x188], v.minTcb);
    }
  }

  /** The conditions in the order in which they are checked, each on single bytes
      of the report. */
  ghost predicate Holds(v: Verifier, chain: bool, report: bytes, expected: bytes, k: nat)
    requires |report| >= REPORT_LEN
  {
    match k
    case 0 => chain
    case 1 => forall i :: 0 <= i < 64 ==> report[0x050 + i] == if i < |expected| then expected[i] else 0
    case 2 => exists m :: m in v.allowlist && report[0x090..0x0C0] == FitTo(m, 48)
    case 3 => v.requireNoDebug ==> !Bit(report[0x00A], 3)
    case 4 => v.requireSmtDisabled ==> !Bit(report[0x00A], 0)
    case _ => !BelowFloor(report[0x180..0x188], v.minTcb)
  }

  const REASONS :=
    [ChainRejected, ReportDataMismatch, MeasurementNotAllowed, DebugPermitted, SmtPermitted, TcbBelowFloor]

  /** All conditions before number `k` hold. */
  ghost predicate HoldBefore(v: Verifier, chain: bool, report: bytes, expected: bytes, k: nat)
    requires |report| >= REPORT_LEN
  {
    forall j :: 0 <= j < k ==> Holds(v, chain, report, expected, j)
  }

  lemma HoldNext(v: Verifier, chain: bool, report: bytes, expected: bytes, k: nat)
    requires |report| >= REPORT_LEN
    ensures HoldBefore(v, chain, report, expected, k + 1) <==>
            HoldBefore(v, chain, report, expected, k) && Holds(v, chain, report, expected, k)
  {}

  /** A refusal of a report of full length names the first condition that does
      not hold. */
  lemma VerifyReason(v: Verifier, chain: bool, report: bytes, expected: bytes, k: nat)
    requires |report| >= REPORT_LEN && k < 6
    ensures Verify(v, chain, report, expected) == Err(REASONS[k]) <==>
            HoldBefore(v, chain, report, expected, k) && !Holds(v, chain, report, expected, k)
  {
    DataHolds(v, chain, report, expected);
    PolicyHolds(v, chain, report, expected);
    BelowFloorExact(report[0x180..0x188], v.minTcb);
    HoldNext(v, chain, report, expected, 0);
    HoldNext(v, chain, report, expected, 1);
    HoldNext(v, chain, report, expected, 2);
    HoldNext(v, chain, report, expected, 3);
    HoldNext(v, chain, report, expected, 4);
    assert k == 0 || k == 1 || k == 2 || k == 3 || k == 4 || k == 5;
  }

  lemma DataHolds(v: Verifier, chain: bool, report: bytes, expected: bytes)
    requires |report| >= REPORT_LEN
    ensures Holds(v, chain, report, expected, 1) <==> ReportData(report) == FitTo(expected, 64)
    ensures Holds(v, chain, report, expected, 2) <==> ParseMeasurement(report).value in v.Allow()
  {
    var rd := ReportData(report);
    assert forall i :: 0 <= i < 64 ==> rd[i] == report[0x050 + i];
    if rd != FitTo(expected, 64) {
      var i :| 0 <= i < 64 && rd[i] != FitTo(expected, 64)[i];
      assert report[0x050 + i] != if i < |expected| then expected[i] else 0;
    }
  }

  lemma PolicyHolds(v: Verifier, chain: bool, report: bytes, expected: bytes)
    requires |report| >= REPORT_LEN
    ensures Holds(v, chain, report, expected, 3) <==> !(v.requireNoDebug && Bit(Policy(report), POLICY_DEBUG_BIT))
    ensures Holds(v, chain, report, expected, 4) <==> !(v.requireSmtDisabled && Bit(Policy(report), POLICY_SMT_BIT))
  {
    var policy := report[OFF_POLICY..OFF_POLICY + 8];
    assert policy[2] == report[0x00A];
    LittleEndianBit(policy, POLICY_DEBUG_BIT);
    LittleEndianBit(policy, POLICY_SMT_BIT);
  }

  /** A floor that needs more than eight bytes refuses every report, and a floor
      of zero or less refuses none. */
  lemma ExtremeFloors(v: Verifier, chain: bool, report: bytes, expected: bytes)
    ensures v.minTcb >= 0x1_0000_0000_0000_0000 ==> Verify(v, chain, report, expected).Err?
    ensures v.minTcb <= 0 ==> Verify(v, chain, report, expected) != Err(TcbBelowFloor)
  {
    if |report| >= REPORT_LEN {
      LittleEndianBound(report[OFF_REPORTED_TCB..OFF_REPORTED_TCB + 8]);
      Pow2Of64();
    }
  }

  lemma Pow2Of64()
    ensures Pow2(64) == 0x1_0000_0000_0000_0000
  {
    Pow2Byte(0);
    Pow2Byte(8);
    Pow2Byte(16);
    Pow2Byte(24);
    Pow2Byte(32);
    Pow2Byte(40);
    Pow2Byte(48);
    Pow2Byte(56);
  }

  /** A report whose platform copied the padded request data into its data field
      passes the verifier's comparison for a 32-byte binding exactly when that
      is the binding it was requested with. */
  lemma FetchedBindingIsExact(requested: bytes, expected: bytes, report: bytes)
    requires |requested| == |expected| == 32 && |report| >= REPORT_LEN
    requires ReportData(report) == FitTo(requested, 64)
    ensures ReportData(report) == FitTo(expected, 64) <==> requested == expected
  {}
}
