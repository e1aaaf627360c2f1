/** The dictionary form of an intent (`to_dict`, `from_dict` and their JSON
    versions in src/signed_order_intent.py). JSON text is taken as lossless. */
module IntentJson {
  import opened Wrappers
  import opened Crypto
  import opened Bytes
  import opened Intents

  datatype Value = Str(s: string) | Number(n: Num)

  /** A missing key, or a value that does not convert. */
  datatype DictError = KeyError | ValueError

  function ToDict(x: Intent): map<string, Value> {
    map["symbol" := Str(x.symbol), "side" := Number(x.side), "size" := Number(x.size),
        "stop_price" := Number(x.stopPrice), "target_price" := Number(x.targetPrice),
        "timestamp" := Number(x.timestamp), "intent_id" := Str(x.intentId),
        "public_key_hash" := Str(x.publicKeyHash), "signature" := Str(x.signature)]
  }

  /** `str(v)` */
  function AsText(rt: Runtime, v: Value): string {
    match v
    case Str(s) => s
    case Number(n) => rt.str(n)
  }

  /** `int(v)` */
  function AsInt(rt: Runtime, v: Value): Option<Num> {
    var i := match v
      case Str(s) => rt.parseInt(s)
      case Number(Int(i)) => Some(i)
      case Number(Float(b)) => rt.trunc(b);
    if i.None? then None else Some(Int(i.value))
  }

  /** `float(v)` */
  function AsFloat(rt: Runtime, v: Value): Option<Num> {
    var b := match v
      case Str(s) => rt.parseFloat(s)
      case Number(Int(i)) => rt.float(i)
      case Number(Float(b)) => Some(b);
    if b.None? then None else Some(Float(b.value))
  }

  function ReadText(rt: Runtime, d: map<string, Value>, key: string): Result<string, DictError> {
    if key !in d then Err(KeyError) else Ok(AsText(rt, d[key]))
  }

  function ReadInt(rt: Runtime, d: map<string, Value>, key: string): Result<Num, DictError> {
    if key !in d then Err(KeyError)
    else
      var n := AsInt(rt, d[key]);
      if n.None? then Err(ValueError) else Ok(n.value)
  }

  function ReadFloat(rt: Runtime, d: map<string, Value>, key: string): Result<Num, DictError> {
    if key !in d then Err(KeyError)
    else
      var n := AsFloat(rt, d[key]);
      if n.None? then Err(ValueError) else Ok(n.value)
  }

  /** `from_dict`: the first field that cannot be read, in this order, raises. */
  function FromDict(rt: Runtime, d: map<string, Value>): Result<Intent, DictError> {
    var symbol := ReadText(rt, d, "symbol");
    if symbol.Err? then Err(symbol.error) else
    var side := ReadInt(rt, d, "side");
    if side.Err? then Err(side.error) else
    var size := ReadFloat(rt, d, "size");
    if size.Err? then Err(size.error) else
    var stop := ReadFloat(rt, d, "stop_price");
    if stop.Err? then Err(stop.error) else
    var target := ReadFloat(rt, d, "target_price");
    if target.Err? then Err(target.error) else
    var timestamp := ReadInt(rt, d, "timestamp");
    if timestamp.Err? then Err(timestamp.error) else
    var id := ReadText(rt, d, "intent_id");
    if id.Err? then Err(id.error) else
    var hash := ReadText(rt, d, "public_key_hash");
    if hash.Err? then Err(hash.error) else
    var signature := ReadText(rt, d, "signature");
    if signature.Err? then Err(signature.error) else
    Ok(Intent(symbol.value, side.value, size.value, stop.value, target.value, timestamp.value,
              id.value, hash.value, signature.value))
  }

  // ---- what is read -----------------------------------------------------------

  /** `s` is the text of a value. */
  predicate TextOf(rt: Runtime, v: Value, s: string) {
    (v.Str? ==> s == v.s) && (v.Number? ==> s == rt.str(v.n))
  }

  /** `n` is what a value is as an integer: the number itself, a float cut off at
      the point, or a text read as an integer. */
  predicate IntOf(rt: Runtime, v: Value, n: Num) {
    && n.Int?
    && (v.Str? ==> rt.parseInt(v.s) == Some(n.i))
    && (v.Number? && v.n.Int? ==> n == v.n)
    && (v.Number? && v.n.Float? ==> rt.trunc(v.n.bits) == Some(n.i))
  }

  /** `n` is what a value is as a float. */
  predicate FloatOf(rt: Runtime, v: Value, n: Num) {
    && n.Float?
    && (v.Str? ==> rt.parseFloat(v.s) == Some(n.bits))
    && (v.Number? && v.n.Int? ==> rt.float(v.n.i) == Some(n.bits))
    && (v.Number? && v.n.Float? ==> n == v.n)
  }

  predicate HasKeys(d: map<string, Value>) {
    && "symbol" in d && "side" in d && "size" in d && "stop_price" in d && "target_price" in d
    && "timestamp" in d && "intent_id" in d && "public_key_hash" in d && "signature" in d
  }

  /** A dictionary is read as an intent exactly when every key is there and every
      field of the intent is the value under its key. */
  lemma FromDictExact(rt: Runtime, d: map<string, Value>, x: Intent)
    ensures FromDict(rt, d) == Ok(x) <==>
            && HasKeys(d)
            && TextOf(rt, d["symbol"], x.symbol) && IntOf(rt, d["side"], x.side)
            && FloatOf(rt, d["size"], x.size) && FloatOf(rt, d["stop_price"], x.stopPrice)
            && FloatOf(rt, d["target_price"], x.targetPrice) && IntOf(rt, d["timestamp"], x.timestamp)
            && TextOf(rt, d["intent_id"], x.intentId) && TextOf(rt, d["public_key_hash"], x.publicKeyHash)
            && TextOf(rt, d["signature"], x.signature)
  {
    FromDictReads(rt, d, x);
    ReadExact(rt, d, "symbol", x.symbol, x.side);
    ReadExact(rt, d, "side", x.symbol, x.side);
    ReadExact(rt, d, "size", x.symbol, x.size);
    ReadExact(rt, d, "stop_price", x.symbol, x.stopPrice);
    ReadExact(rt, d, "target_price", x.symbol, x.targetPrice);
    ReadExact(rt, d, "timestamp", x.symbol, x.timestamp);
    ReadExact(rt, d, "intent_id", x.intentId, x.side);
    ReadExact(rt, d, "public_key_hash", x.publicKeyHash, x.side);
    ReadExact(rt, d, "signature", x.signature, x.side);
  }

  lemma FromDictReads(rt: Runtime, d: map<string, Value>, x: Intent)
    ensures FromDict(rt, d) == Ok(x) <==>
            && ReadText(rt, d, "symbol") == Ok(x.symbol) && ReadInt(rt, d, "side") == Ok(x.side)
            && ReadFloat(rt, d, "size") == Ok(x.size) && ReadFloat(rt, d, "stop_price") == Ok(x.stopPrice)
            && ReadFloat(rt, d, "target_price") == Ok(x.targetPrice) && ReadInt(rt, d, "timestamp") == Ok(x.timestamp)
            && ReadText(rt, d, "intent_id") == Ok(x.intentId)
            && ReadText(rt, d, "public_key_hash") == Ok(x.publicKeyHash)
            && ReadText(rt, d, "signature") == Ok(x.signature)
  {}

  lemma ReadExact(rt: Runtime, d: map<string, Value>, key: string, s: string, n: Num)
    ensures ReadText(rt, d, key) == Ok(s) <==> key in d && TextOf(rt, d[key], s)
    ensures ReadInt(rt, d, key) == Ok(n) <==> key in d && IntOf(rt, d[key], n)
    ensures ReadFloat(rt, d, key) == Ok(n) <==> key in d && FloatOf(rt, d[key], n)
  {}

  datatype Kind = Text | Whole | Fraction

  const FIELDS: seq<(string, Kind)> :=
    [("symbol", Text), ("side", Whole), ("size", Fraction), ("stop_price", Fraction), ("target_price", Fraction),
     ("timestamp", Whole), ("intent_id", Text), ("public_key_hash", Text), ("signature", Text)]

  /** Why field number `k` cannot be read, if it cannot. */
  ghost function Fault(rt: Runtime, d: map<string, Value>, k: nat): Option<DictError>
    requires k < 9
  {
    var (key, kind) := FIELDS[k];
    if key !in d then Some(KeyError)
    else if kind == Whole && (forall n :: !IntOf(rt, d[key], n)) then Some(ValueError)
    else if kind == Fraction && (forall n :: !FloatOf(rt, d[key], n)) then Some(ValueError)
    else None
  }

  lemma ReadIntFault(rt: Runtime, d: map<string, Value>, key: string)
    requires key in d
    ensures ReadInt(rt, d, key).Ok? <==> exists n :: IntOf(rt, d[key], n)
  {
    if AsInt(rt, d[key]).Some? {
      assert IntOf(rt, d[key], AsInt(rt, d[key]).value);
    }
  }

  lemma ReadFloatFault(rt: Runtime, d: map<string, Value>, key: string)
    requires key in d
    ensures ReadFloat(rt, d, key).Ok? <==> exists n :: FloatOf(rt, d[key], n)
  {
    if AsFloat(rt, d[key]).Some? {
      assert FloatOf(rt, d[key], AsFloat(rt, d[key]).value);
    }
  }

  /** The error of reading field number `k`. */
  function ReadError(rt: Runtime, d: map<string, Value>, k: nat): Option<DictError>
    requires k < 9
  {
    var (key, kind) := FIELDS[k];
    match kind
    case Text => (var r := ReadText(rt, d, key); if r.Err? then Some(r.error) else None)
    case Whole => (var r := ReadInt(rt, d, key); if r.Err? then Some(r.error) else None)
    case Fraction => (var r := ReadFloat(rt, d, key); if r.Err? then Some(r.error) else None)
  }

  lemma ReadErrorIsFault(rt: Runtime, d: map<string, Value>, k: nat)
    requires k < 9
    ensures ReadError(rt, d, k) == Fault(rt, d, k)
  {
    var (key, kind) := FIELDS[k];
    if key in d {
      ReadIntFault(rt, d, key);
      ReadFloatFault(rt, d, key);
    }
  }

  /** A dictionary that is not read raises for the first field with a fault. */
  lemma FromDictFault(rt: Runtime, d: map<string, Value>, k: nat)
    requires k < 9 && Fault(rt, d, k).Some? && forall j :: 0 <= j < k ==> Fault(rt, d, j) == None
    ensures FromDict(rt, d) == Err(Fault(rt, d, k).value)
  {
    forall j | 0 <= j <= k ensures ReadError(rt, d, j) == Fault(rt, d, j) {
      ReadErrorIsFault(rt, d, j);
    }
    FirstReadError(rt, d, k);
  }

  lemma FirstReadError(rt: Runtime, d: map<string, Value>, k: nat)
    requires k < 9 && ReadError(rt, d, k).Some? && forall j :: 0 <= j < k ==> ReadError(rt, d, j) == None
    ensures FromDict(rt, d) == Err(ReadError(rt, d, k).value)
  {
    assert 0 < k ==> ReadError(rt, d, 0) == None;
    assert 1 < k ==> ReadError(rt, d, 1) == None;
    assert 2 < k ==> ReadError(rt, d, 2) == None;
    assert 3 < k ==> ReadError(rt, d, 3) == None;
    assert 4 < k ==> ReadError(rt, d, 4) == None;
    assert 5 < k ==> ReadError(rt, d, 5) == None;
    assert 6 < k ==> ReadError(rt, d, 6) == None;
    assert 7 < k ==> ReadError(rt, d, 7) == None;
    assert k == 0 || k == 1 || k == 2 || k == 3 || k == 4 || k == 5 || k == 6 || k == 7 || k == 8;
  }

  // ---- round trips ------------------------------------------------------------

  /** An intent sent as JSON and read back. */
  function RoundTrip(rt: Runtime, x: Intent): Result<Intent, DictError> {
    FromDict(rt, ToDict(x))
  }

  /** The field types the class declares; nothing enforces them on construction. */
  predicate Typed(x: Intent) {
    x.side.Int? && x.timestamp.Int? && x.size.Float? && x.stopPrice.Float? && x.targetPrice.Float?
  }

  /** A round trip succeeds exactly when integers in float fields and floats in
      integer fields convert; then texts are kept, such fields hold the converted
      number, and the others are kept too. */
  lemma RoundTripExact(rt: Runtime, x: Intent, y: Intent)
    ensures RoundTrip(rt, x) == Ok(y) <==>
            && y.symbol == x.symbol && y.intentId == x.intentId && y.publicKeyHash == x.publicKeyHash
            && y.signature == x.signature
            && IntOf(rt, Number(x.side), y.side) && IntOf(rt, Number(x.timestamp), y.timestamp)
            && FloatOf(rt, Number(x.size), y.size) && FloatOf(rt, Number(x.stopPrice), y.stopPrice)
            && FloatOf(rt, Number(x.targetPrice), y.targetPrice)
    ensures RoundTrip(rt, x).Ok? <==>
            && (x.side.Float? ==> rt.trunc(x.side.bits).Some?)
            && (x.timestamp.Float? ==> rt.trunc(x.timestamp.bits).Some?)
            && (x.size.Int? ==> rt.float(x.size.i).Some?) && (x.stopPrice.Int? ==> rt.float(x.stopPrice.i).Some?)
            && (x.targetPrice.Int? ==> rt.float(x.targetPrice.i).Some?)
    ensures RoundTrip(rt, x) != Err(KeyError)
  {
    FromDictExact(rt, ToDict(x), y);
  }

  /** An integer that is not too large is the same number as a float. */
  lemma FloatKeepsValue(rt: Runtime, n: Num, m: Num)
    requires NumberLaws(rt) && FloatOf(rt, Number(n), m) && (n.Int? ==> -EXACT <= n.i <= EXACT)
    ensures rt.value(m) == rt.value(n)
  {}

  /** A float as an integer is the number cut off at the point. */
  lemma IntTruncates(rt: Runtime, n: Num, m: Num)
    requires NumberLaws(rt) && IntOf(rt, Number(n), m)
    ensures rt.value(n).Finite? && rt.value(m) == Finite(Truncated(rt.value(n).r) as real)
  {
    if n.Int? {
      WholeIsTruncated(n.i);
    }
  }

  /** What the numbers of an intent are worth after the trip: size and prices are
      kept, unless they were integers of more than 53 bits; side and timestamp
      are cut off at the point. */
  lemma RoundTripKeepsValues(rt: Runtime, x: Intent)
    requires LawfulRuntime(rt) && RoundTrip(rt, x).Ok?
    ensures var y := RoundTrip(rt, x).value;
            && ((x.size.Int? ==> -EXACT <= x.size.i <= EXACT) ==> rt.value(y.size) == rt.value(x.size))
            && ((x.stopPrice.Int? ==> -EXACT <= x.stopPrice.i <= EXACT) ==>
                  rt.value(y.stopPrice) == rt.value(x.stopPrice))
            && ((x.targetPrice.Int? ==> -EXACT <= x.targetPrice.i <= EXACT) ==>
                  rt.value(y.targetPrice) == rt.value(x.targetPrice))
            && rt.value(x.side).Finite? && rt.value(y.side) == Finite(Truncated(rt.value(x.side).r) as real)
            && rt.value(x.timestamp).Finite?
            && rt.value(y.timestamp) == Finite(Truncated(rt.value(x.timestamp).r) as real)
  {
    var y := RoundTrip(rt, x).value;
    RoundTripExact(rt, x, y);
    IntTruncates(rt, x.side, y.side);
    IntTruncates(rt, x.timestamp, y.timestamp);
  }

  /** Whatever is read back has the declared types and is not changed by a second
      round trip; a round trip is the identity exactly on the declared types. */
  lemma RoundTripNormalises(rt: Runtime, x: Intent)
    ensures RoundTrip(rt, x) == Ok(x) <==> Typed(x)
    ensures RoundTrip(rt, x).Ok? ==>
              Typed(RoundTrip(rt, x).value) && RoundTrip(rt, RoundTrip(rt, x).value) == RoundTrip(rt, x)
  {
    RoundTripExact(rt, x, x);
    if RoundTrip(rt, x).Ok? {
      var y := RoundTrip(rt, x).value;
      RoundTripExact(rt, x, y);
      RoundTripExact(rt, y, y);
    }
  }

  /** A JSON round trip that succeeds keeps the bytes under the signature exactly
      when the intent had the declared types to begin with. */
  lemma RoundTripKeepsSigningBytes(rt: Runtime, x: Intent)
    requires LawfulRuntime(rt) && PipeFree(x.publicKeyHash) && RoundTrip(rt, x).Ok?
    ensures rt.utf8(SigningText(rt, RoundTrip(rt, x).value)) == rt.utf8(SigningText(rt, x)) <==> Typed(x)
  {
    var y := RoundTrip(rt, x).value;
    RoundTripExact(rt, x, y);
    SigningTextExact(rt, y, x);
    RoundTripNormalises(rt, x);
  }

  /** Hence a signed intent with the declared types survives transport, and an
      integer price, as in the class's own usage example, changes the bytes the
      executor checks. */
  lemma TypedIntentSurvives(c: Suite, rt: Runtime, x: Intent, key: bytes)
    requires Lawful(c) && LawfulRuntime(rt) && Typed(x)
    ensures var y := SignIntent(c, rt, x, key);
            RoundTrip(rt, y) == Ok(y) && VerifyIntent(c, rt, RoundTrip(rt, y).value, c.edPub(key))
  {
    SignThenVerify(c, rt, x, key);
    RoundTripNormalises(rt, SignIntent(c, rt, x, key));
  }
}
