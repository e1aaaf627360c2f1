/** Order intents, their signing bytes and signatures (src/signed_order_intent.py). */
module Intents {
  import opened Wrappers
  import opened Bytes
  import opened Crypto

  /** A Python number. A float is an opaque bit pattern (one for all NaNs). */
  datatype Num = Int(i: int) | Float(bits: nat)

  /** What a number is for arithmetic. */
  datatype FloatValue = Finite(r: real) | Infinite(positive: bool) | NaN

  datatype Intent = Intent(
    symbol: string, side: Num, size: Num, stopPrice: Num, targetPrice: Num, timestamp: Num,
    intentId: string, publicKeyHash: string, signature: string)

  /** The parts of the Python runtime the signing code rests on. */
  datatype Runtime = Runtime(
    str: Num -> string,                  // str(n)
    value: Num -> FloatValue,            // the number itself, for arithmetic
    trunc: nat -> Option<int>,           // int(float), refused for NaN and infinities
    float: int -> Option<nat>,           // float(int), refused on overflow
    parseInt: string -> Option<int>,     // int(str)
    parseFloat: string -> Option<nat>,   // float(str)
    hex: bytes -> string,
    unhex: string -> Option<bytes>,
    utf8: string -> bytes)

  predicate PipeFree(s: string) {
    '|' !in s
  }

  /** The integer between a number and zero that is nearest to the number. */
  function Truncated(r: real): int {
    if r >= 0.0 then r.Floor else -((-r).Floor)
  }

  lemma WholeIsTruncated(i: int)
    ensures Truncated(i as real) == i
  {
    assert (i as real).Floor == i && (-(i as real)).Floor == -i by { assert -(i as real) == (-i) as real; }
  }

  /** Integers up to this size are floats. */
  const EXACT := 0x20_0000_0000_0000

  /** Integers are themselves; `float` keeps integers of up to 53 bits; `int`
      truncates finite floats and refuses the others. */
  ghost predicate NumberLaws(rt: Runtime) {
    && (forall i :: rt.value(Int(i)) == Finite(i as real))
    && (forall i :: -EXACT <= i <= EXACT ==>
          rt.float(i).Some? && rt.value(Float(rt.float(i).value)) == Finite(i as real))
    && (forall b :: rt.trunc(b) ==
          if rt.value(Float(b)).Finite? then Some(Truncated(rt.value(Float(b)).r)) else None)
  }

  ghost predicate LawfulRuntime(rt: Runtime) {
    && NumberLaws(rt)
    && (forall n :: PipeFree(rt.str(n)))
    && (forall m, n :: rt.str(m) == rt.str(n) ==> m == n)
    && (forall b :: PipeFree(rt.hex(b)) && rt.unhex(rt.hex(b)) == Some(b))
    && (forall s, t :: rt.utf8(s) == rt.utf8(t) ==> s == t)
  }

  // ---- a lawful instance ------------------------------------------------------

  function Strokes(n: nat): string {
    seq(n, i => 'x')
  }

  function ToyStr(n: Num): string {
    match n
    case Int(i) => if i >= 0 then "+" + Strokes(i) else "-" + Strokes(-i)
    case Float(b) => "." + Strokes(b)
  }

  function ToyHex(b: bytes): (s: string)
    ensures PipeFree(s) && |s| == |b|
  {
    seq(|b|, i requires 0 <= i < |b| => ('a' as int + 40 + b[i]) as char)
  }

  function ToyUnhex(s: string): Option<bytes> {
    if forall i :: 0 <= i < |s| ==> 137 <= s[i] as int < 393
    then Some(seq(|s|, i requires 0 <= i < |s| => s[i] as int - 137)) else None
  }

  function ToyUtf8(s: string): bytes {
    if s == [] then [] else
      var c := s[0] as int;
      [c / 256 / 256, c / 256 % 256, c % 256] + ToyUtf8(s[1..])
  }

  /** Three digits in base 256 determine a number. */
  lemma ThreeDigits(c: nat, d: nat)
    requires c / 256 / 256 == d / 256 / 256 && c / 256 % 256 == d / 256 % 256 && c % 256 == d % 256
    ensures c == d
  {
    var p, q := c / 256, d / 256;
    assert p == 256 * (p / 256) + p % 256 && q == 256 * (q / 256) + q % 256;
  }

  lemma {:induction false} ToyUtf8Injective(s: string, t: string)
    requires ToyUtf8(s) == ToyUtf8(t)
    ensures s == t
  {
    if s != [] && t != [] {
      var a, b := ToyUtf8(s), ToyUtf8(t);
      assert a[3..] == ToyUtf8(s[1..]) && b[3..] == ToyUtf8(t[1..]);
      ToyUtf8Injective(s[1..], t[1..]);
      assert a[0] == b[0] && a[1] == b[1] && a[2] == b[2];
      ThreeDigits(s[0] as int, t[0] as int);
      assert s == [s[0]] + s[1..] && t == [t[0]] + t[1..];
    }
  }

  /** Floats that are integers, counted 0, -1, 1, -2, 2, ... */
  function ToyFloat(i: int): nat {
    if i >= 0 then 2 * i else -2 * i - 1
  }

  function ToyInt(b: nat): int {
    if b % 2 == 0 then b / 2 else -((b + 1) / 2)
  }

  function ToyValue(n: Num): FloatValue {
    match n
    case Int(i) => Finite(i as real)
    case Float(b) => Finite(ToyInt(b) as real)
  }

  function ToyRuntime(): Runtime {
    Runtime(ToyStr, ToyValue, (b: nat) => Some(ToyInt(b)), i => Some(ToyFloat(i)), s => None, s => None,
            ToyHex, ToyUnhex, ToyUtf8)
  }

  lemma ToyNumbers()
    ensures NumberLaws(ToyRuntime())
  {
    forall b: nat ensures Truncated(ToyInt(b) as real) == ToyInt(b) {
      WholeIsTruncated(ToyInt(b));
    }
    forall i: int ensures ToyInt(ToyFloat(i)) == i {
      ToyFloatIsExact(i);
    }
  }

  lemma ToyFloatIsExact(i: int)
    ensures ToyInt(ToyFloat(i)) == i
  {}

  lemma ToyStrPipeFree(n: Num)
    ensures PipeFree(ToyStr(n))
  {
    match n
    case Int(i) => assert '|' !in Strokes(if i >= 0 then i else -i);
    case Float(b) => assert '|' !in Strokes(b);
  }

  lemma ToyStrInjective(m: Num, n: Num)
    requires ToyStr(m) == ToyStr(n)
    ensures m == n
  {
    assert ToyStr(m)[0] == ToyStr(n)[0] && |ToyStr(m)| == |ToyStr(n)|;
  }

  lemma ToyHexRoundTrip(b: bytes)
    ensures ToyUnhex(ToyHex(b)) == Some(b)
  {
    assert ToyUnhex(ToyHex(b)).value == b;
  }

  /** The runtime laws have a model. */
  lemma RuntimeLawsAreConsistent()
    ensures LawfulRuntime(ToyRuntime())
  {
    ToyNumbers();
    forall n ensures PipeFree(ToyStr(n)) {
      ToyStrPipeFree(n);
    }
    forall m, n | ToyStr(m) == ToyStr(n) ensures m == n {
      ToyStrInjective(m, n);
    }
    forall b: bytes ensures ToyUnhex(ToyHex(b)) == Some(b) {
      ToyHexRoundTrip(b);
    }
    forall s, t | ToyUtf8(s) == ToyUtf8(t) ensures s == t {
      ToyUtf8Injective(s, t);
    }
  }

  // ---- signing bytes -----------------------------------------------------------

  /** `"|".join(parts)` */
  function Join(parts: seq<string>): string {
    if parts == [] then ""
    else if |parts| == 1 then parts[0]
    else Join(parts[..|parts| - 1]) + "|" + parts[|parts| - 1]
  }

  function SigningFields(rt: Runtime, x: Intent): seq<string> {
    [x.intentId, x.symbol, rt.str(x.side), rt.str(x.size), rt.str(x.stopPrice), rt.str(x.targetPrice),
     rt.str(x.timestamp), x.publicKeyHash]
  }

  /** `_serialize_for_signing` before encoding. */
  function SigningText(rt: Runtime, x: Intent): string {
    Join(SigningFields(rt, x))
  }

  /** The text written out: eight fields in a fixed order between seven pipes. */
  lemma SigningLayout(rt: Runtime, x: Intent)
    ensures SigningText(rt, x) ==
            x.intentId + "|" + x.symbol + "|" + rt.str(x.side) + "|" + rt.str(x.size) + "|" + rt.str(x.stopPrice)
            + "|" + rt.str(x.targetPrice) + "|" + rt.str(x.timestamp) + "|" + x.publicKeyHash
  {
    var p := SigningFields(rt, x);
    JoinFive(p);
    JoinLast(p, 5);
    JoinLast(p, 6);
    JoinLast(p, 7);
    assert p[..8] == p;
  }

  lemma JoinFive(p: seq<string>)
    requires |p| >= 5
    ensures Join(p[..5]) == p[0] + "|" + p[1] + "|" + p[2] + "|" + p[3] + "|" + p[4]
  {
    JoinLast(p, 1);
    JoinLast(p, 2);
    JoinLast(p, 3);
    JoinLast(p, 4);
    assert p[..1] == [p[0]];
  }

  lemma JoinLast(p: seq<string>, n: nat)
    requires 0 < n < |p|
    ensures Join(p[..n + 1]) == Join(p[..n]) + "|" + p[n]
  {
    assert p[..n + 1][..n] == p[..n];
  }

  lemma LastPipe(a: string, p: string, b: string, q: string)
    requires PipeFree(p) && PipeFree(q)
    ensures a + "|" + p == b + "|" + q <==> a == b && p == q
  {
    var s, t := a + "|" + p, b + "|" + q;
    if |s| == |t| {
      if |p| < |q| {
        assert t[|a|] == q[|a| - |b| - 1] != '|' == s[|a|];
      } else if |q| < |p| {
        assert s[|b|] == p[|b| - |a| - 1] != '|' == t[|b|];
      } else {
        assert a == s[..|a|] && b == t[..|b|] && p == s[|a| + 1..] && q == t[|b| + 1..];
      }
    }
  }

  lemma AppendedAlike(u: seq<string>, a: string, v: seq<string>, b: string)
    ensures u + [a] == v + [b] <==> u == v && a == b
  {
    var s, t := u + [a], v + [b];
    assert u == s[..|s| - 1] && v == t[..|t| - 1] && a == s[|s| - 1] && b == t[|t| - 1];
  }

  /** Joined texts are read from the right: if the last `k` parts are free of
      pipes on both sides, texts are equal exactly when those parts are equal
      one by one and the rest joins to the same text. */
  lemma {:induction false} JoinReadsFromRight(p: seq<string>, q: seq<string>, k: nat)
    requires |p| == |q| && k < |p|
    requires forall i :: |p| - k <= i < |p| ==> PipeFree(p[i]) && PipeFree(q[i])
    ensures Join(p) == Join(q) <==> p[|p| - k..] == q[|q| - k..] && Join(p[..|p| - k]) == Join(q[..|q| - k])
    decreases k
  {
    var n := |p| - 1;
    if k == 0 {
      assert p[..|p|] == p && q[..|q|] == q;
    } else {
      var p', q' := p[..n], q[..n];
      LastPipe(Join(p'), p[n], Join(q'), q[n]);
      JoinReadsFromRight(p', q', k - 1);
      assert p'[..|p'| - (k - 1)] == p[..|p| - k] && q'[..|q'| - (k - 1)] == q[..|q| - k];
      assert p[|p| - k..] == p'[|p'| - (k - 1)..] + [p[n]];
      assert q[|q| - k..] == q'[|q'| - (k - 1)..] + [q[n]];
      AppendedAlike(p'[|p'| - (k - 1)..], p[n], q'[|q'| - (k - 1)..], q[n]);
    }
  }

  predicate SameNumbers(x: Intent, y: Intent) {
    x.side == y.side && x.size == y.size && x.stopPrice == y.stopPrice
    && x.targetPrice == y.targetPrice && x.timestamp == y.timestamp
  }

  predicate SameSigned(x: Intent, y: Intent) {
    x.intentId == y.intentId && x.symbol == y.symbol && SameNumbers(x, y) && x.publicKeyHash == y.publicKeyHash
  }

  /** With pipe-free key hashes, two intents have equal signing bytes exactly
      when the six trailing fields are equal and `id|symbol` is the same text. */
  lemma SigningTextExact(rt: Runtime, x: Intent, y: Intent)
    requires LawfulRuntime(rt) && PipeFree(x.publicKeyHash) && PipeFree(y.publicKeyHash)
    ensures rt.utf8(SigningText(rt, x)) == rt.utf8(SigningText(rt, y)) <==>
            && SameNumbers(x, y) && x.publicKeyHash == y.publicKeyHash
            && x.intentId + "|" + x.symbol == y.intentId + "|" + y.symbol
  {
    var p, q := SigningFields(rt, x), SigningFields(rt, y);
    JoinReadsFromRight(p, q, 6);
    assert p[..2] == [x.intentId, x.symbol] && q[..2] == [y.intentId, y.symbol];
    assert Join(p[..2]) == x.intentId + "|" + x.symbol by { assert p[..2][..1] == [x.intentId]; }
    assert Join(q[..2]) == y.intentId + "|" + y.symbol by { assert q[..2][..1] == [y.intentId]; }
    var u, v := p[2..], q[2..];
    assert u == [p[2], p[3], p[4], p[5], p[6], p[7]] && v == [q[2], q[3], q[4], q[5], q[6], q[7]];
    if u == v {
      assert u[0] == v[0] && u[1] == v[1] && u[2] == v[2] && u[3] == v[3] && u[4] == v[4] && u[5] == v[5];
    }
  }

  /** Only one reading: no other intent shares the signing bytes of an intent. */
  ghost predicate UniqueReading(rt: Runtime, x: Intent) {
    forall y: Intent :: PipeFree(y.publicKeyHash) && rt.utf8(SigningText(rt, y)) == rt.utf8(SigningText(rt, x))
      ==> SameSigned(x, y)
  }

  lemma PipeFreePrefix(a: string, b: string, c: string, d: string)
    requires PipeFree(a) && PipeFree(b)
    ensures a + "|" + b == c + "|" + d <==> a == c && b == d
  {
    var s, t := a + "|" + b, c + "|" + d;
    if |s| == |t| {
      assert t[|c|] == '|';
      if |c| < |a| {
        assert s[|c|] == a[|c|] != '|';
      } else if |c| > |a| {
        assert s[|c|] == b[|c| - |a| - 1] != '|';
      } else {
        assert a == s[..|a|] && c == t[..|c|] && b == s[|a| + 1..] && d == t[|c| + 1..];
      }
    }
  }

  /** For an intent with a pipe-free id and key hash, as the builder makes them,
      the signing bytes determine all eight fields exactly when the symbol has
      no pipe. */
  lemma UniqueReadingExact(rt: Runtime, x: Intent)
    requires LawfulRuntime(rt) && PipeFree(x.publicKeyHash) && PipeFree(x.intentId)
    ensures UniqueReading(rt, x) <==> PipeFree(x.symbol)
  {
    if PipeFree(x.symbol) {
      forall y: Intent | PipeFree(y.publicKeyHash) && rt.utf8(SigningText(rt, y)) == rt.utf8(SigningText(rt, x))
        ensures SameSigned(x, y)
      {
        SigningTextExact(rt, x, y);
        PipeFreePrefix(x.intentId, x.symbol, y.intentId, y.symbol);
      }
    } else {
      var k :| 0 <= k < |x.symbol| && x.symbol[k] == '|';
      var y := x.(intentId := x.intentId + "|" + x.symbol[..k], symbol := x.symbol[k + 1..]);
      assert x.symbol == x.symbol[..k] + "|" + x.symbol[k + 1..];
      assert x.intentId + "|" + x.symbol == y.intentId + "|" + y.symbol;
      SigningTextExact(rt, x, y);
      assert |y.intentId| > |x.intentId|;
    }
  }

  // ---- signatures ----------------------------------------------------------------

  function KeyHash(c: Suite, rt: Runtime, pub: bytes): string {
    rt.hex(c.sha256(pub))
  }

  function SignIntent(c: Suite, rt: Runtime, x: Intent, key: bytes): Intent {
    var y := x.(publicKeyHash := KeyHash(c, rt, c.edPub(key)));
    y.(signature := rt.hex(c.edSign(key, rt.utf8(SigningText(rt, y)))))
  }

  predicate VerifyIntent(c: Suite, rt: Runtime, x: Intent, pub: bytes) {
    var sig := rt.unhex(x.signature);
    sig.Some? && c.edVerify(pub, rt.utf8(SigningText(rt, x)), sig.value)
  }

  /** An intent verifies exactly when its signature is the hex text of an Ed25519
      signature that verifies over the eight fields between pipes. */
  lemma VerifyIntentExact(c: Suite, rt: Runtime, x: Intent, pub: bytes)
    ensures VerifyIntent(c, rt, x, pub) <==>
            exists sig :: rt.unhex(x.signature) == Some(sig) &&
              c.edVerify(pub, rt.utf8(x.intentId + "|" + x.symbol + "|" + rt.str(x.side) + "|" + rt.str(x.size) + "|"
                                      + rt.str(x.stopPrice) + "|" + rt.str(x.targetPrice) + "|"
                                      + rt.str(x.timestamp) + "|" + x.publicKeyHash), sig)
  {
    SigningLayout(rt, x);
  }

  /** A signed intent verifies and keeps every field, with the hash of the public
      key filled in. */
  lemma SignThenVerify(c: Suite, rt: Runtime, x: Intent, key: bytes)
    requires Lawful(c) && LawfulRuntime(rt)
    ensures VerifyIntent(c, rt, SignIntent(c, rt, x, key), c.edPub(key))
    ensures var y := SignIntent(c, rt, x, key);
            && SameNumbers(y, x) && y.intentId == x.intentId && y.symbol == x.symbol
            && y.publicKeyHash == rt.hex(c.sha256(c.edPub(key)))
  {}

  /** `ProtectedSigningKey`: a seed that can be overwritten, after which signing
      raises. */
  class SigningKey {
    const suite: Suite
    const pub: bytes
    var seed: array?<byte>
    var key: Option<bytes>

    predicate Alive()
      reads this
    {
      seed != null
    }

    ghost predicate Valid()
      reads this, seed
    {
      (seed != null <==> key.Some?) && (key.Some? ==> seed[..] == key.value && pub == suite.edPub(key.value))
    }

    constructor (suite: Suite, bytes: bytes)
      ensures Valid() && Alive() && key == Some(bytes) && this.suite == suite && fresh(seed)
    {
      this.suite := suite;
      this.pub := suite.edPub(bytes);
      this.key := Some(bytes);
      var a := new byte[|bytes|](i requires 0 <= i < |bytes| => bytes[i]);
      this.seed := a;
      new;
      assert seed[..] == bytes;
    }

    method Sign(msg: bytes) returns (r: Option<bytes>)
      requires Valid()
      ensures r.Some? <==> Alive()
      ensures r.Some? ==> key.Some? && r.value == suite.edSign(key.value, msg)
    {
      if seed == null {
        return None;
      }
      r := Some(suite.edSign(key.value, msg));
    }

    /** The old seed is overwritten, not just dropped; a second call does nothing. */
    method Zeroize()
      requires Valid()
      modifies this, seed
      ensures Valid() && !Alive() && key == None
      ensures old(seed) != null ==> old(seed)[..] == Zeros(old(seed).Length)
    {
      if seed != null {
        forall i | 0 <= i < seed.Length {
          seed[i] := 0;
        }
        seed, key := null, None;
      }
    }
  }

  /** An intent object, which `sign_intent` edits in place. */
  class IntentObject {
    var fields: Intent

    constructor (fields: Intent)
      ensures this.fields == fields
    {
      this.fields := fields;
    }

    /** With a zeroized key the call raises after the key hash has been written. */
    method Sign(rt: Runtime, key: SigningKey) returns (ok: bool)
      requires key.Valid()
      modifies this
      ensures ok <==> key.Alive()
      ensures ok ==> key.key.Some? && fields == SignIntent(key.suite, rt, old(fields), key.key.value)
      ensures !ok ==> fields == old(fields).(publicKeyHash := rt.hex(key.suite.sha256(key.pub)))
    {
      fields := fields.(publicKeyHash := KeyHash(key.suite, rt, key.pub));
      var sig := key.Sign(rt.utf8(SigningText(rt, fields)));
      ok := sig.Some?;
      if ok {
        fields := fields.(signature := rt.hex(sig.value));
      }
    }
  }
}
