/** Byte strings: zero padding, little-endian integers and single bits. */
module Bytes {

  type byte = b: int | 0 <= b < 256

  type bytes = seq<byte>

  /** The bytes of an ASCII literal. */
  function Ascii(s: string): (b: bytes)
    ensures |b| == |s|
    ensures forall i :: 0 <= i < |s| && s[i] as int < 256 ==> b[i] == s[i] as int
  {
    seq(|s|, i requires 0 <= i < |s| => s[i] as int % 256)
  }

  function Zeros(n: nat): (z: bytes)
    ensures |z| == n && forall i :: 0 <= i < n ==> z[i] == 0
  {
    seq(n, i => 0)
  }

  /** `b[:n].ljust(n, b"\x00")`, the padding used on both sides of an attestation. */
  function FitTo(b: bytes, n: nat): (r: bytes)
    ensures |r| == n
    ensures forall i :: 0 <= i < n ==> r[i] == if i < |b| then b[i] else 0
  {
    if n <= |b| then b[..n] else b + Zeros(n - |b|)
  }

  /** Padding loses nothing but trailing zeros: two strings that fit are padded
      alike exactly when the longer one is the shorter one followed by zeros. */
  lemma FitToCollision(a: bytes, b: bytes, n: nat)
    requires |a| <= |b| <= n
    ensures FitTo(a, n) == FitTo(b, n) <==> b == a + Zeros(|b| - |a|)
  {}

  // ---- little-endian integers -------------------------------------------

  function LittleEndian(b: bytes): nat {
    if b == [] then 0 else b[0] + 256 * LittleEndian(b[1..])
  }

  /** Most-significant-byte-first comparison, read off the bytes alone: at the
      highest position where the strings differ, `a` has the smaller byte. */
  ghost predicate BelowMsbFirst(a: bytes, b: bytes)
    requires |a| == |b|
  {
    exists i :: 0 <= i < |a| && a[i] < b[i] && a[i + 1..] == b[i + 1..]
  }

  /** Only the first bytes differ, or the difference lies in the rest. */
  lemma BelowMsbFirstStep(a: bytes, b: bytes)
    requires |a| == |b| > 0
    ensures BelowMsbFirst(a, b) <==> BelowMsbFirst(a[1..], b[1..]) || (a[1..] == b[1..] && a[0] < b[0])
  {
    var a', b' := a[1..], b[1..];
    if BelowMsbFirst(a, b) {
      var i :| 0 <= i < |a| && a[i] < b[i] && a[i + 1..] == b[i + 1..];
      assert i > 0 ==> a'[i - 1] < b'[i - 1] && a'[i - 1 + 1..] == b'[i - 1 + 1..];
    }
    if BelowMsbFirst(a', b') {
      var i :| 0 <= i < |a'| && a'[i] < b'[i] && a'[i + 1..] == b'[i + 1..];
      assert a[i + 1] < b[i + 1] && a[i + 1 + 1..] == b[i + 1 + 1..];
    }
    if a' == b' && a[0] < b[0] {
      assert a[0] < b[0] && a[0 + 1..] == b[0 + 1..];
    }
  }

  /** For every width, comparing little-endian integers is comparing bytes from
      the most significant one down, and equal integers have equal bytes. */
  lemma {:induction false} LittleEndianOrder(a: bytes, b: bytes)
    requires |a| == |b|
    ensures LittleEndian(a) < LittleEndian(b) <==> BelowMsbFirst(a, b)
    ensures LittleEndian(a) == LittleEndian(b) <==> a == b
  {
    if a != [] {
      LittleEndianOrder(a[1..], b[1..]);
      BelowMsbFirstStep(a, b);
      assert a == [a[0]] + a[1..] && b == [b[0]] + b[1..];
    }
  }

  /** Zeros at the most significant end do not change the integer. */
  lemma {:induction false} LittleEndianPadded(b: bytes, n: nat)
    ensures LittleEndian(b + Zeros(n)) == LittleEndian(b)
    decreases |b|, n
  {
    if b != [] {
      assert (b + Zeros(n))[1..] == b[1..] + Zeros(n);
      LittleEndianPadded(b[1..], n);
    } else if n > 0 {
      assert b + Zeros(n) == Zeros(n) && Zeros(n)[1..] == b + Zeros(n - 1);
      LittleEndianPadded(b, n - 1);
    }
  }

  /** The little-endian bytes of an integer, at least eight of them. */
  function WordBytes(n: nat): (b: bytes)
    ensures |b| >= 8 && LittleEndian(b) == n
  {
    var d := Digits(n);
    if |d| >= 8 then d else LittleEndianPadded(d, 8 - |d|); d + Zeros(8 - |d|)
  }

  function Digits(n: nat): (b: bytes)
    ensures LittleEndian(b) == n
  {
    if n == 0 then [] else [n % 256] + Digits(n / 256)
  }

  // ---- single bits -------------------------------------------------------

  function Pow2(k: nat): (p: nat)
    ensures p > 0
  {
    if k == 0 then 1 else 2 * Pow2(k - 1)
  }

  lemma Pow2Byte(k: nat)
    ensures Pow2(k + 8) == 256 * Pow2(k)
  {
    assert Pow2(k + 4) == 16 * Pow2(k) by { assert Pow2(k + 2) == 4 * Pow2(k); }
    assert Pow2(k + 8) == 16 * Pow2(k + 4) by { assert Pow2(k + 6) == 4 * Pow2(k + 4); }
  }

  lemma {:induction false} LittleEndianBound(b: bytes)
    ensures LittleEndian(b) < Pow2(8 * |b|)
  {
    if b != [] {
      LittleEndianBound(b[1..]);
      Pow2Byte(8 * (|b| - 1));
    }
  }

  /** `(n >> k) & 1` */
  predicate Bit(n: nat, k: nat) {
    if k == 0 then n % 2 == 1 else Bit(n / 2, k - 1)
  }

  lemma {:induction false} BitBelow(x: nat, t: nat, j: nat, k: nat)
    requires k < j
    ensures Bit(x + Pow2(j) * t, k) <==> Bit(x, k)
  {
    var y := Pow2(j - 1) * t;
    assert Pow2(j) * t == 2 * y;
    if k > 0 {
      assert (x + 2 * y) / 2 == x / 2 + y;
      BitBelow(x / 2, t, j - 1, k - 1);
    }
  }

  lemma {:induction false} BitAbove(x: nat, t: nat, j: nat, k: nat)
    requires j <= k && x < Pow2(j)
    ensures Bit(x + Pow2(j) * t, k) <==> Bit(t, k - j)
  {
    if j == 0 {
      assert Pow2(0) * t == t;
    } else {
      var y := Pow2(j - 1) * t;
      assert Pow2(j) * t == 2 * y;
      assert (x + 2 * y) / 2 == x / 2 + y;
      BitAbove(x / 2, t, j - 1, k - 1);
    }
  }

  lemma QuotientUnique(n: nat, d: nat, q: nat, r: nat)
    requires d > 0 && n == q * d + r && r < d
    ensures n / d == q && n % d == r
  {
    var e := n / d - q;
    assert e * d == r - n % d by { assert n == (n / d) * d + n % d; }
    assert e * d < d && e * d + d > 0;
    assert e == 0;
  }

  /** Bit `k` of a little-endian integer of any width is bit `k % 8` of its
      byte `k / 8`. */
  lemma {:induction false} LittleEndianBit(b: bytes, k: nat)
    requires k / 8 < |b|
    ensures Bit(LittleEndian(b), k) <==> Bit(b[k / 8], k % 8)
  {
    var n, t := LittleEndian(b), LittleEndian(b[1..]);
    assert Pow2(8) == 256 by { assert Pow2(4) == 16; }
    if k < 8 {
      BitBelow(b[0], t, 8, k);
    } else {
      BitAbove(b[0], t, 8, k);
      LittleEndianBit(b[1..], k - 8);
      assert b[1..][(k - 8) / 8] == b[k / 8];
    }
  }
}
