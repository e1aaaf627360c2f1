/** Locked buffers (`_page_down`, `_page_up` and `ProtectedMemory` in
    src/cloud_protection.py). The kernel calls themselves are not modelled. */
module ProtectedMemory {
  import opened Wrappers
  import opened Bytes

  // ---- page arithmetic -----------------------------------------------------------

  /** `a & ~m` on unbounded integers, bit by bit. */
  function AndNot(a: nat, m: nat): nat {
    if a == 0 then 0
    else (if a % 2 == 1 && m % 2 == 0 then 1 else 0) + 2 * AndNot(a / 2, m / 2)
  }

  /** The page size is the power of two with exponent `k`. */
  function Mask(k: nat): nat {
    Pow2(k) - 1
  }

  function PageDown(a: nat, k: nat): nat {
    AndNot(a, Mask(k))
  }

  function PageUp(a: nat, k: nat): nat {
    AndNot(a + Mask(k), Mask(k))
  }

  ghost predicate Aligned(a: nat, k: nat) {
    exists q: nat :: a == q * Pow2(k)
  }

  /** Alignment bit by bit: the `k` lowest bits are clear. */
  predicate LowBitsClear(a: nat, k: nat) {
    k == 0 || (a % 2 == 0 && LowBitsClear(a / 2, k - 1))
  }

  lemma {:induction false} AlignedIsLowBitsClear(a: nat, k: nat)
    ensures Aligned(a, k) <==> LowBitsClear(a, k)
  {
    if k == 0 {
      assert a == a * Pow2(0);
    } else {
      var p := Pow2(k - 1);
      AlignedIsLowBitsClear(a / 2, k - 1);
      if Aligned(a, k) {
        var q: nat :| a == q * Pow2(k);
        assert a == 2 * (q * p);
        assert a / 2 == q * p;
      }
      if a % 2 == 0 && Aligned(a / 2, k - 1) {
        var q: nat :| a / 2 == q * p;
        assert a == q * Pow2(k);
      }
    }
  }

  lemma {:induction false} AndNotZero(a: nat)
    ensures AndNot(a, 0) == a
  {
    if a > 0 {
      AndNotZero(a / 2);
    }
  }

  lemma MaskHalves(k: nat)
    requires k > 0
    ensures Mask(k) == 2 * Mask(k - 1) + 1
  {}

  lemma PageDownHalves(a: nat, k: nat)
    requires k > 0
    ensures PageDown(a, k) == 2 * PageDown(a / 2, k - 1)
  {}

  lemma PageUpHalves(a: nat, k: nat)
    requires k > 0
    ensures PageUp(a, k) == 2 * PageUp((a + 1) / 2, k - 1)
  {
    MaskHalves(k);
    assert (a + Mask(k)) / 2 == (a + 1) / 2 + Mask(k - 1);
    PageDownHalves(a + Mask(k), k);
  }

  lemma DoubleClear(a: nat, k: nat)
    requires k > 0
    ensures LowBitsClear(2 * a, k) <==> LowBitsClear(a, k - 1)
  {}

  /** Rounding down: clear the low bits, and no aligned number fits between. */
  lemma {:induction false} PageDownExact(a: nat, k: nat, x: nat)
    ensures LowBitsClear(PageDown(a, k), k) && PageDown(a, k) <= a
    ensures LowBitsClear(x, k) && x <= a ==> x <= PageDown(a, k)
    decreases k
  {
    if k == 0 {
      AndNotZero(a);
    } else {
      PageDownExact(a / 2, k - 1, x / 2);
      PageDownHalves(a, k);
      DoubleClear(PageDown(a / 2, k - 1), k);
    }
  }

  /** Rounding up, likewise from above. */
  lemma {:induction false} PageUpExact(a: nat, k: nat, x: nat)
    ensures LowBitsClear(PageUp(a, k), k) && a <= PageUp(a, k)
    ensures LowBitsClear(x, k) && a <= x ==> PageUp(a, k) <= x
    decreases k
  {
    if k == 0 {
      AndNotZero(a);
    } else {
      PageUpExact((a + 1) / 2, k - 1, x / 2);
      PageUpHalves(a, k);
      DoubleClear(PageUp((a + 1) / 2, k - 1), k);
    }
  }

  /** What `_lock` passes to `mlock` and `madvise`: an address and a length. */
  function LockedRange(addr: nat, size: nat, k: nat): (nat, int) {
    (PageDown(addr, k), PageUp(addr + size, k) - PageDown(addr, k))
  }

  /** For every power-of-two page size, the locked range is page-aligned, covers
      the buffer, and lies inside every other aligned range that covers it. */
  lemma LockedRangeIsSmallest(addr: nat, size: nat, k: nat, lo: nat, hi: nat)
    requires Aligned(lo, k) && Aligned(hi, k) && lo <= addr && addr + size <= hi
    ensures var (start, len) := LockedRange(addr, size, k);
            && len >= 0 && Aligned(start, k) && Aligned(start + len, k)
            && start <= addr && addr + size <= start + len
            && lo <= start && start + len <= hi
  {
    AlignedIsLowBitsClear(lo, k);
    AlignedIsLowBitsClear(hi, k);
    PageDownExact(addr, k, lo);
    PageUpExact(addr + size, k, hi);
    AlignedIsLowBitsClear(PageDown(addr, k), k);
    AlignedIsLowBitsClear(PageUp(addr + size, k), k);
  }

  lemma SliceOfSlice(s: bytes, from: nat, to: nat, lo: nat, hi: nat)
    requires from <= to <= |s| && lo <= hi <= to - from
    ensures s[from..to][lo..hi] == s[from + lo..from + hi]
  {
    var t := s[from..to];
    forall i | 0 <= i < hi - lo ensures t[lo..hi][i] == s[from + lo..from + hi][i] {
      assert t[lo + i] == s[from + lo + i];
    }
  }

  // ---- buffers ---------------------------------------------------------------------

  /** The class-level set of all buffers. */
  class Registry {
    var members: set<ProtectedMemory>

    constructor ()
      ensures members == {}
    {
      members := {};
    }

    /** `zeroise_all`: every registered buffer ends up all zero. */
    method ZeroiseAll()
      requires forall m :: m in members ==> m.Valid()
      modifies set m | m in members :: m.cells
      ensures forall m :: m in members ==> m.Wiped()
    {
      var todo := members;
      while todo != {}
        invariant todo <= members
        invariant forall m :: m in members - todo ==> m.Wiped()
        decreases |todo|
      {
        var m :| m in todo;
        label Before:
        m.Zeroise();
        forall other | other in members - todo ensures other.Wiped() {
          assert old@Before(other.Wiped());
          assert other.cells != m.cells ==> forall i :: 0 <= i < other.cells.Length ==>
              other.cells[i] == old@Before(other.cells[i]);
        }
        todo := todo - {m};
      }
    }
  }

  /** A buffer of `size` bytes at address `base` of the mapped memory around it.
      Addresses are not checked by the source: a call that leaves the mapped
      memory is a fault. */
  class ProtectedMemory {
    const cells: array<byte>
    const base: nat
    const size: nat

    ghost predicate Valid() {
      base + size <= cells.Length
    }

    ghost predicate Wiped()
      reads cells
    {
      forall i :: base <= i < base + size && i < cells.Length ==> cells[i] == 0
    }

    ghost function Contents(): (b: bytes)
      requires Valid()
      reads cells
    {
      cells[base..base + size]
    }

    constructor (size: nat, registry: Registry, before: nat := 0, after: nat := 0)
      modifies registry
      ensures Valid() && fresh(cells) && this.size == size && Wiped()
      ensures base == before && cells.Length == before + size + after
      ensures registry.members == old(registry.members) + {this}
    {
      this.size, base := size, before;
      cells := new byte[before + size + after](i => 0);
      new;
      registry.members := registry.members + {this};
    }

    /** Nothing, or bytes at mapped addresses only. */
    predicate Mapped(offset: int, n: int) {
      n <= 0 || (0 <= base + offset && base + offset + n <= cells.Length)
    }

    /** `write`: unless it would end past the buffer it stores the data, and it
        touches no other byte; otherwise it raises and stores nothing. A negative
        offset is let through and writes before the buffer. */
    method Write(data: bytes, offset: int := 0) returns (ok: bool)
      requires Valid() && (offset + |data| <= size ==> Mapped(offset, |data|))
      modifies cells
      ensures ok <==> offset + |data| <= size
      ensures ok ==> forall i :: 0 <= i < |data| ==> cells[base + offset + i] == data[i]
      ensures forall i :: 0 <= i < cells.Length && (!ok || i < base + offset || base + offset + |data| <= i) ==>
                cells[i] == old(cells[i])
      ensures 0 <= offset ==>
                forall i :: 0 <= i < cells.Length && (i < base || base + size <= i) ==> cells[i] == old(cells[i])
    {
      if offset + |data| > size {
        return false;
      }
      forall i | 0 <= i < |data| {
        cells[base + offset + i] := data[i];
      }
      ok := true;
    }

    /** The length `read` uses: a missing or zero one means up to the end. */
    function Wanted(offset: int, length: Option<int>): int {
      if length.None? || length.value == 0 then size - offset else length.value
    }

    /** The length of `memoryview(array of offset + n)[:n]`. */
    function Visible(offset: int, n: int): (m: int)
      requires 0 <= offset + n
      ensures 0 <= m
    {
      if n >= 0 then (if offset < 0 then offset + n else n)
      else if offset + n + n < 0 then 0 else offset + n + n
    }

    /** `read`. A place inside the buffer is read in full; a negative offset
        shortens the view by as much; it raises if not even that is left. */
    method Read(offset: int := 0, length: Option<int> := None) returns (view: Option<bytes>)
      requires Valid()
      requires var n := Wanted(offset, length); 0 <= offset + n ==> Mapped(offset, Visible(offset, n))
      ensures view.Some? <==> 0 <= offset + Wanted(offset, length)
      ensures view.Some? ==>
                var n := if length.Some? && length.value != 0 then length.value else size - offset;
                && (0 <= offset && 0 <= n ==> |view.value| == n)
                && (offset < 0 <= n ==> |view.value| == n + offset)
                && (n < 0 ==> |view.value| == if offset + 2 * n < 0 then 0 else offset + 2 * n)
                && forall i :: 0 <= i < |view.value| ==> view.value[i] == cells[base + offset + i]
      ensures 0 <= offset <= size && (length == None || length == Some(0)) ==> view == Some(Contents()[offset..])
      ensures length.Some? && 0 <= offset < offset + length.value <= size ==>
                view == Some(Contents()[offset..offset + length.value])
    {
      var n := Wanted(offset, length);
      var total := offset + n;
      if total < 0 {
        return None;
      }
      var m := if n >= 0 then (if total < n then total else n) else if total + n < 0 then 0 else total + n;
      view := Some(if m == 0 then [] else cells[base + offset..base + offset + m]);
      if 0 <= offset <= total <= size {
        SliceOfSlice(cells[..], base, base + size, offset, total);
        assert Contents()[offset..size] == Contents()[offset..];
      }
    }

    method Zeroise()
      requires Valid()
      modifies cells
      ensures Wiped()
      ensures forall i :: 0 <= i < cells.Length ==>
                cells[i] == if base <= i < base + size then 0 else old(cells[i])
    {
      forall i | base <= i < base + size {
        cells[i] := 0;
      }
    }

    /** What a read of the same place and length returns is what was written,
        exactly when the write ends inside the buffer and does not start before
        it; nothing written is read back only at the end of the buffer, since
        length zero asks for the rest. */
    method WriteThenRead(data: bytes, offset: int) returns (view: Option<bytes>)
      requires Valid() && 0 <= base + offset
      modifies cells
      ensures view == Some(data) <==>
              && offset + |data| <= size
              && (if |data| > 0 then 0 <= offset else offset == size || size == 0)
      ensures 0 <= offset <= offset + |data| <= size ==> (view == Some(data) <==> 0 < |data| || offset == size)
      ensures forall i :: 0 <= i < cells.Length && (i < base + offset || base + offset + |data| <= i) ==>
                cells[i] == old(cells[i])
    {
      var ok := Write(data, offset);
      if !ok {
        return None;
      }
      view := Read(offset, Some(|data|));
      if view.Some? && |view.value| == |data| {
        assert view.value == data;
      }
    }
  }
}
