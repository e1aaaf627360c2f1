/** Length-prefixed framing (`frame` / `unframe` in src/hybrid.py). */
module Framing {
  import opened Wrappers
  import opened Bytes

  const LIMIT := 0x1_0000_0000

  datatype FrameError = PartTooLong | TruncatedHeader

  /** `struct.pack(">I", n)` */
  function Header(n: nat): (h: bytes)
    requires n < LIMIT
    ensures |h| == 4
    ensures n == 0x100_0000 * (h[0] as int) + 0x1_0000 * (h[1] as int) + 0x100 * (h[2] as int) + (h[3] as int)
  {
    var a := n / 256;
    var b := a / 256;
    [b / 256, b % 256, a % 256, n % 256]
  }

  /** `struct.unpack(">I", h)` */
  function Length(h: bytes): (n: nat)
    requires |h| == 4
    ensures n < LIMIT
    ensures n == 0x100_0000 * (h[0] as int) + 0x1_0000 * (h[1] as int) + 0x100 * (h[2] as int) + (h[3] as int)
  {
    var a: int, b: int, c: int, d: int := h[0], h[1], h[2], h[3];
    256 * (256 * (256 * a + b) + c) + d
  }

  lemma HeaderRoundTrip(n: nat)
    requires n < LIMIT
    ensures Length(Header(n)) == n
  {}

  lemma LengthRoundTrip(h: bytes)
    requires |h| == 4
    ensures Header(Length(h)) == h
  {
    var p: int, q: int, r: int := h[0], h[1], h[2];
    var b := 256 * p + q;
    var a := 256 * b + r;
    assert Length(h) / 256 == a && a / 256 == b && b / 256 == p;
  }

  /** `frame`: packing a length of 2^32 or more raises. */
  function Frame(parts: seq<bytes>): (r: Result<bytes, FrameError>)
    ensures r.Ok? <==> forall p :: p in parts ==> |p| < LIMIT
  {
    if parts == [] then Ok([])
    else if |parts[0]| >= LIMIT then Err(PartTooLong)
    else
      assert parts == [parts[0]] + parts[1..];
      var rest := Frame(parts[1..]);
      if rest.Err? then rest else Ok(Header(|parts[0]|) + parts[0] + rest.value)
  }

  /** Where the part after a complete header ends: a length that runs past the
      blob is silently cut there. */
  function PartEnd(blob: bytes): (e: nat)
    requires |blob| >= 4
    ensures 4 <= e <= |blob|
  {
    var n := Length(blob[..4]);
    if 4 + n <= |blob| then 4 + n else |blob|
  }

  function Prepend(done: seq<bytes>, rest: Result<seq<bytes>, FrameError>): Result<seq<bytes>, FrameError> {
    if rest.Err? then rest else Ok(done + rest.value)
  }

  function Unframe(blob: bytes): Result<seq<bytes>, FrameError> {
    if blob == [] then Ok([])
    else if |blob| < 4 then Err(TruncatedHeader)
    else Prepend([blob[4..PartEnd(blob)]], Unframe(blob[PartEnd(blob)..]))
  }

  lemma PrependPrepend(done: seq<bytes>, p: bytes, rest: Result<seq<bytes>, FrameError>)
    ensures Prepend(done, Prepend([p], rest)) == Prepend(done + [p], rest)
    ensures Prepend([], rest) == rest
  {
    if rest.Ok? {
      assert done + ([p] + rest.value) == done + [p] + rest.value;
      assert [] + rest.value == rest.value;
    }
  }

  lemma SliceOfTail(b: bytes, start: nat, lo: nat, hi: nat)
    requires lo <= hi && start + hi <= |b|
    ensures b[start..][lo..hi] == b[start + lo..start + hi]
    ensures b[start..][hi..] == b[start + hi..]
  {}

  /** The big-endian number at a place of the blob. */
  function NumberAt(blob: bytes, i: nat): nat
    requires i + 4 <= |blob|
  {
    0x100_0000 * (blob[i] as int) + 0x1_0000 * (blob[i + 1] as int) + 0x100 * (blob[i + 2] as int)
    + (blob[i + 3] as int)
  }

  /** A header is read at `i`; the bytes it announces end at `j`, and the part is
      those of them that are there. */
  ghost predicate IsPart(blob: bytes, i: nat, j: nat, p: bytes) {
    && i + 4 <= |blob| && j == i + 4 + NumberAt(blob, i)
    && p == blob[i + 4..if j <= |blob| then j else |blob|]
  }

  /** The parts are read one after the other from the front, at these places. */
  ghost predicate ReadAt(blob: bytes, at: seq<nat>, parts: seq<bytes>) {
    && |at| == |parts| + 1 && at[0] == 0
    && forall k :: 0 <= k < |parts| ==> IsPart(blob, at[k], at[k + 1], parts[k])
  }

  /** What unframing means, read off the blob: it fails exactly when reading leads
      to a place with one to three bytes left, and otherwise yields the parts
      read once a place lies at or past the end. */
  ghost predicate Parsed(blob: bytes, at: seq<nat>, parts: seq<bytes>, r: Result<seq<bytes>, FrameError>) {
    && ReadAt(blob, at, parts)
    && var last := at[|parts|];
       if last < |blob| then last + 4 > |blob| && r == Err(TruncatedHeader) else r == Ok(parts)
  }

  lemma {:induction false} PlacesAgree(blob: bytes, a: seq<nat>, p: seq<bytes>, b: seq<nat>, q: seq<bytes>, k: nat)
    requires ReadAt(blob, a, p) && ReadAt(blob, b, q) && k <= |p| && k <= |q|
    ensures a[k] == b[k] && p[..k] == q[..k]
  {
    if k > 0 {
      PlacesAgree(blob, a, p, b, q, k - 1);
      assert IsPart(blob, a[k - 1], a[k - 1 + 1], p[k - 1]) && IsPart(blob, b[k - 1], b[k - 1 + 1], q[k - 1]);
      assert p[..k] == p[..k - 1] + [p[k - 1]] && q[..k] == q[..k - 1] + [q[k - 1]];
    }
  }

  /** There is only one way to read a blob. */
  lemma ParsedUnique(blob: bytes, a: seq<nat>, p: seq<bytes>, r: Result<seq<bytes>, FrameError>,
                     b: seq<nat>, q: seq<bytes>, r': Result<seq<bytes>, FrameError>)
    requires Parsed(blob, a, p, r) && Parsed(blob, b, q, r')
    ensures p == q && r == r'
  {
    ReadsNoFurther(blob, a, p, r, b, q);
    ReadsNoFurther(blob, b, q, r', a, p);
    PlacesAgree(blob, a, p, b, q, |p|);
    assert p[..|p|] == p && q[..|q|] == q;
  }

  lemma ReadsNoFurther(blob: bytes, a: seq<nat>, p: seq<bytes>, r: Result<seq<bytes>, FrameError>,
                       b: seq<nat>, q: seq<bytes>)
    requires Parsed(blob, a, p, r) && ReadAt(blob, b, q)
    ensures |q| <= |p|
  {
    if |p| < |q| {
      PlaceInside(blob, b, q, |p|);
      PlacesAgree(blob, a, p, b, q, |p|);
    }
  }

  lemma PlaceInside(blob: bytes, at: seq<nat>, parts: seq<bytes>, k: nat)
    requires ReadAt(blob, at, parts) && k < |parts|
    ensures at[k] + 4 <= |blob|
  {
    assert IsPart(blob, at[k], at[k + 1], parts[k]);
  }

  /** `Unframe` of the rest, after some parts have been read. */
  lemma {:induction false} ParsedFrom(blob: bytes, at: seq<nat>, parts: seq<bytes>)
    returns (at': seq<nat>, parts': seq<bytes>)
    requires ReadAt(blob, at, parts)
    ensures var i := at[|parts|];
            Parsed(blob, at', parts', Prepend(parts, Unframe(if i < |blob| then blob[i..] else [])))
    decreases |blob| - at[|parts|]
  {
    var i := at[|parts|];
    if i >= |blob| {
      at', parts' := at, parts;
      assert parts + [] == parts;
    } else if i + 4 > |blob| {
      at', parts' := at, parts;
    } else {
      var rest := blob[i..];
      var j, e := i + 4 + NumberAt(blob, i), PartEnd(rest);
      assert rest[..4] == blob[i..i + 4];
      SliceOfTail(blob, i, 4, e);
      var p := blob[i + 4..i + e];
      ReadOneMore(blob, at, parts, j, p);
      PrependPrepend(parts, p, Unframe(blob[i + e..]));
      assert blob[i + e..] == if j < |blob| then blob[j..] else [];
      at', parts' := ParsedFrom(blob, at + [j], parts + [p]);
    }
  }

  lemma ReadOneMore(blob: bytes, at: seq<nat>, parts: seq<bytes>, j: nat, p: bytes)
    requires ReadAt(blob, at, parts) && IsPart(blob, at[|parts|], j, p)
    ensures ReadAt(blob, at + [j], parts + [p])
  {
    var at', parts' := at + [j], parts + [p];
    forall k | 0 <= k < |parts'| ensures IsPart(blob, at'[k], at'[k + 1], parts'[k]) {
      if k < |parts| {
        assert IsPart(blob, at[k], at[k + 1], parts[k]);
      }
    }
  }

  /** Unframing yields what the blob says, and nothing else would. */
  lemma UnframeExact(blob: bytes, r: Result<seq<bytes>, FrameError>)
    ensures Unframe(blob) == r <==> exists at, parts :: Parsed(blob, at, parts, r)
  {
    assert blob[0..] == blob;
    PrependPrepend([], [], Unframe(blob));
    var at, parts := ParsedFrom(blob, [0], []);
    forall at', parts' | Parsed(blob, at', parts', r) ensures r == Unframe(blob) {
      ParsedUnique(blob, at', parts', r, at, parts, Unframe(blob));
    }
  }

  /** The loop of `unframe`: it stops on every blob with what the blob says. */
  method UnframeLoop(blob: bytes) returns (r: Result<seq<bytes>, FrameError>)
    ensures r == Unframe(blob)
    ensures exists at, parts :: Parsed(blob, at, parts, r)
  {
    UnframeExact(blob, Unframe(blob));
    var out: seq<bytes>, i := [], 0;
    assert blob[0..] == blob;
    PrependPrepend([], [], Unframe(blob));
    while i < |blob|
      invariant i >= 0
      invariant Unframe(blob) == Prepend(out, Unframe(if i < |blob| then blob[i..] else []))
    {
      ghost var start, rest := i, blob[i..];
      if |blob| - i < 4 {
        return Err(TruncatedHeader);
      }
      var n := Length(blob[i..i + 4]);
      assert rest[..4] == blob[i..i + 4];
      i := i + 4;
      var stop := if i + n <= |blob| then i + n else |blob|;
      assert PartEnd(rest) == stop - start;
      SliceOfTail(blob, start, 4, stop - start);
      PrependPrepend(out, blob[i..stop], Unframe(blob[stop..]));
      out := out + [blob[i..stop]];
      i := i + n;
      assert blob[stop..] == if i < |blob| then blob[i..] else [];
    }
    assert out + [] == out;
    return Ok(out);
  }

  /** Unframing undoes framing. */
  lemma {:induction false} FrameThenUnframe(parts: seq<bytes>)
    requires Frame(parts).Ok?
    ensures Unframe(Frame(parts).value) == Ok(parts)
  {
    if parts == [] {
    } else {
      var p, rest := parts[0], Frame(parts[1..]).value;
      var b := Frame(parts).value;
      assert b == Header(|p|) + p + rest;
      FrameThenUnframe(parts[1..]);
      HeaderRoundTrip(|p|);
      assert b[..4] == Header(|p|) && b[4..4 + |p|] == p && b[4 + |p|..] == rest;
      assert parts == [p] + parts[1..];
    }
  }

  lemma FrameInjective(p: seq<bytes>, q: seq<bytes>)
    requires Frame(p).Ok? && Frame(p) == Frame(q)
    ensures p == q
  {
    FrameThenUnframe(p);
    FrameThenUnframe(q);
  }

  /** No header, read in sequence from the front, promises more bytes than follow. */
  predicate Uncut(blob: bytes) {
    blob == [] || (|blob| >= 4 && 4 + Length(blob[..4]) <= |blob| && Uncut(blob[4 + Length(blob[..4])..]))
  }

  lemma FrameCons(p: bytes, parts: seq<bytes>, tail: bytes)
    requires |p| < LIMIT
    ensures Frame([p] + parts) == Ok(Header(|p|) + p + tail) <==> Frame(parts) == Ok(tail)
  {
    assert ([p] + parts)[1..] == parts;
    if Frame(parts).Ok? {
      var h, g := Header(|p|) + p, Frame(parts).value;
      if h + g == h + tail {
        assert g == (h + g)[|h|..] == (h + tail)[|h|..] == tail;
      }
    }
  }

  /** Framing undoes a successful unframing exactly when the last part was not
      cut short; together with `FrameThenUnframe`, the uncut blobs are exactly
      the outputs of `frame`. */
  lemma {:induction false} UnframeThenFrame(blob: bytes)
    requires Unframe(blob).Ok?
    ensures Frame(Unframe(blob).value) == Ok(blob) <==> Uncut(blob)
  {
    if blob == [] {
    } else {
      var n, e := Length(blob[..4]), PartEnd(blob);
      var p, tail := blob[4..e], blob[e..];
      UnframeThenFrame(tail);
      LengthRoundTrip(blob[..4]);
      HeaderRoundTrip(|p|);
      var parts := Unframe(tail).value;
      if 4 + n <= |blob| {
        assert blob == Header(|p|) + p + tail;
        FrameCons(p, parts, tail);
      } else if Frame(parts).Ok? {
        assert ([p] + parts)[1..] == parts;
        assert Frame([p] + parts).value[..4] == Header(|p|) != blob[..4];
      }
    }
  }

  lemma {:induction false} FrameIsUncut(parts: seq<bytes>)
    requires Frame(parts).Ok?
    ensures Uncut(Frame(parts).value)
  {
    FrameThenUnframe(parts);
    UnframeThenFrame(Frame(parts).value);
  }
}
