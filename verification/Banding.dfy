/** Coarse size banding (`coarse_band` in src/signed_order_intent.py), over the
    reals. */
module Banding {

  const POWER_OF_TWO_BANDS: seq<real> :=
    [0.5, 1.0, 2.0, 4.0, 8.0, 16.0, 32.0, 64.0, 128.0, 256.0, 512.0, 1024.0]

  function Dist(a: real, b: real): real {
    if a < b then b - a else a - b
  }

  /** The position `min(bands, key=...)` picks: the first nearest member. */
  function Nearest(bands: seq<real>, size: real): (i: nat)
    requires bands != []
    ensures i < |bands|
    ensures forall j :: 0 <= j < |bands| ==> Dist(bands[i], size) <= Dist(bands[j], size)
    ensures forall j :: 0 <= j < i ==> Dist(bands[i], size) < Dist(bands[j], size)
  {
    var n := |bands| - 1;
    if n == 0 then 0
    else
      var i := Nearest(bands[..n], size);
      if Dist(bands[n], size) < Dist(bands[i], size) then n else i
  }

  function BandIndex(bands: seq<real>, size: real): (i: nat)
    requires bands != []
    ensures i < |bands|
  {
    if size <= 0.0 then 0 else Nearest(bands, size)
  }

  function CoarseBand(size: real, bands: seq<real> := []): real {
    var table := if bands == [] then POWER_OF_TWO_BANDS else bands;
    table[BandIndex(table, size)]
  }

  ghost predicate Table(bands: seq<real>) {
    && bands != [] && 0.0 < bands[0]
    && forall i, j :: 0 <= i < j < |bands| ==> bands[i] < bands[j]
  }

  /** Between the midpoints around member `i`; a midpoint belongs to the lower band. */
  ghost predicate InCell(bands: seq<real>, size: real, i: nat)
    requires i < |bands|
  {
    && (0 < i ==> bands[i - 1] + bands[i] < 2.0 * size)
    && (i + 1 < |bands| ==> 2.0 * size <= bands[i] + bands[i + 1])
  }

  lemma IndexInCell(bands: seq<real>, size: real)
    requires Table(bands)
    ensures InCell(bands, size, BandIndex(bands, size))
  {}

  /** For every positive increasing table: the band of a size is its cell, so
      every band's preimage is an interval cut at midpoints, ties going low. */
  lemma BandIsCell(bands: seq<real>, size: real, i: nat)
    requires Table(bands) && i < |bands|
    ensures CoarseBand(size, bands) == bands[i] <==> InCell(bands, size, i)
  {}

  /** The result is a nearest member of the table, whatever the size, also for
      the sizes of zero or less that skip the search. */
  lemma BandIsNearest(bands: seq<real>, size: real, j: nat)
    requires Table(bands) && j < |bands|
    ensures CoarseBand(size, bands) in bands
    ensures Dist(CoarseBand(size, bands), size) <= Dist(bands[j], size)
  {}

  /** Banding is monotone, and the identity on the table. */
  lemma BandIsMonotone(bands: seq<real>, s: real, t: real)
    requires Table(bands) && s <= t
    ensures CoarseBand(s, bands) <= CoarseBand(t, bands)
    ensures CoarseBand(CoarseBand(s, bands), bands) == CoarseBand(s, bands)
  {}

  // ---- doubling tables -------------------------------------------------------

  ghost predicate Doubling(bands: seq<real>) {
    && bands != [] && 0.0 < bands[0]
    && forall i :: 0 <= i && i + 1 < |bands| ==> bands[i + 1] == 2.0 * bands[i]
  }

  lemma {:induction false} DoublingGrows(bands: seq<real>, i: nat, j: nat)
    requires Doubling(bands) && i <= j < |bands|
    ensures 0.0 < bands[i] <= bands[j] && (i < j ==> bands[i] < bands[j])
    decreases j
  {
    if i < j {
      DoublingGrows(bands, i, j - 1);
      assert bands[j - 1 + 1] == 2.0 * bands[j - 1];
    } else if 0 < i {
      DoublingGrows(bands, i - 1, i - 1);
      assert bands[i - 1 + 1] == 2.0 * bands[i - 1];
    }
  }

  /** For a doubling table of any length, banding is off by at most a third of
      the size exactly for the sizes from three quarters of the first member to
      three halves of the last. */
  lemma DoublingError(bands: seq<real>, size: real)
    requires Doubling(bands)
    ensures Dist(CoarseBand(size, bands), size) <= size / 3.0
       <==> 0.75 * bands[0] <= size <= 1.5 * bands[|bands| - 1]
  {
    forall i, j | 0 <= i < j < |bands| ensures bands[i] < bands[j] {
      DoublingGrows(bands, i, j);
    }
    var i, n := BandIndex(bands, size), |bands| - 1;
    IndexInCell(bands, size);
    DoublingGrows(bands, 0, i);
    DoublingGrows(bands, i, n);
    if 0 < i {
      assert bands[i - 1 + 1] == 2.0 * bands[i - 1];
    }
    if i < n {
      assert bands[i + 1] == 2.0 * bands[i];
    }
  }

  /** The table used by default is one of these: between 0.375 and 1536. */
  lemma DefaultTable(size: real)
    ensures Doubling(POWER_OF_TWO_BANDS)
    ensures Dist(CoarseBand(size), size) <= size / 3.0 <==> 0.375 <= size <= 1536.0
  {
    DoublingError(POWER_OF_TWO_BANDS, size);
  }
}
