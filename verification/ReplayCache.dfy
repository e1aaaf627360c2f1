/** The two bounded replay caches (`_ReplayCache` in src/krs_server.py and
    `ReplayCache` in src/cloud_protection.py). Both forget everything when full.
    Their behaviour over every run is described by cutting the sequence of
    accepted hashes into consecutive blocks of the capacity. */
module ReplayCache {
  import opened Bytes
  import opened Sequences

  /** The set after `h` has been admitted to `seen`. */
  function AfterAdmit(seen: set<bytes>, cap: nat, h: bytes): set<bytes> {
    (if |seen| >= cap then {} else seen) + {h}
  }

  class ServerCache {
    var seen: set<bytes>
    const cap: nat

    constructor (cap: nat := 100_000)
      ensures seen == {} && this.cap == cap
    {
      seen := {};
      this.cap := cap;
    }

    /** One step of a run, whatever has been accepted before. */
    method Fresh(h: bytes) returns (ok: bool)
      modifies this
      ensures ok <==> h !in old(seen)
      ensures seen == if ok then AfterAdmit(old(seen), cap, h) else old(seen)
      ensures forall accepted ::
                Offer(History(old(seen), accepted), cap, h) == History(seen, if ok then accepted + [h] else accepted)
    {
      if h in seen {
        return false;
      }
      if |seen| >= cap {
        seen := {};
      }
      seen := seen + {h};
      return true;
    }
  }

  const MAX_REPLAY_ENTRIES := 10000

  class BootstrapCache {
    var seen: set<bytes>

    constructor ()
      ensures seen == {}
    {
      seen := {};
    }

    method HasSeen(h: bytes) returns (r: bool)
      ensures r <==> h in seen
    {
      r := h in seen;
    }

    method Record(h: bytes)
      modifies this
      ensures seen == AfterAdmit(old(seen), MAX_REPLAY_ENTRIES, h)
    {
      if |seen| >= MAX_REPLAY_ENTRIES {
        seen := {};
      }
      seen := seen + {h};
    }

    /** `has_seen` followed by `record`, as `bootstrap` uses them, is `Fresh`. */
    method CheckThenRecord(h: bytes) returns (ok: bool)
      modifies this
      ensures ok <==> h !in old(seen)
      ensures seen == if ok then AfterAdmit(old(seen), MAX_REPLAY_ENTRIES, h) else old(seen)
      ensures forall accepted :: Offer(History(old(seen), accepted), MAX_REPLAY_ENTRIES, h)
                              == History(seen, if ok then accepted + [h] else accepted)
    {
      var replayed := HasSeen(h);
      if !replayed {
        Record(h);
      }
      ok := !replayed;
    }
  }

  // ---- runs ----------------------------------------------------------------

  datatype History = History(seen: set<bytes>, accepted: seq<bytes>)

  function Offer(s: History, cap: nat, h: bytes): History {
    if h in s.seen then s else History(AfterAdmit(s.seen, cap, h), s.accepted + [h])
  }

  /** The cache and the accepted hashes after a run of calls. */
  function OfferAll(cap: nat, calls: seq<bytes>): History {
    if calls == [] then History({}, [])
    else Offer(OfferAll(cap, calls[..|calls| - 1]), cap, calls[|calls| - 1])
  }

  /** Where the block holding the last of `n` accepted hashes begins. */
  function BlockStart(n: nat, cap: nat): (b: nat)
    requires cap >= 1
    ensures n > 0 ==> b < n <= b + cap
    ensures b <= n
  {
    if n <= cap then 0 else cap + BlockStart(n - cap, cap)
  }

  ghost function CurrentBlock(accepted: seq<bytes>, cap: nat): set<bytes>
    requires cap >= 1
  {
    Elements(accepted[BlockStart(|accepted|, cap)..])
  }

  /** Each hash is new to the block that was current when it was accepted. */
  ghost predicate WellBlocked(accepted: seq<bytes>, cap: nat)
    requires cap >= 1
  {
    forall i, j :: 0 <= i < j < |accepted| && BlockStart(j, cap) <= i ==> accepted[i] != accepted[j]
  }

  lemma {:induction false} BlockStartMonotone(m: nat, n: nat, cap: nat)
    requires cap >= 1 && m <= n
    ensures BlockStart(m, cap) <= BlockStart(n, cap)
  {
    if cap < m {
      BlockStartMonotone(m - cap, n - cap, cap);
    }
  }

  lemma {:induction false} BlockStartNext(n: nat, cap: nat)
    requires cap >= 1
    ensures BlockStart(n + 1, cap) == if n - BlockStart(n, cap) == cap then n else BlockStart(n, cap)
  {
    if cap < n {
      BlockStartNext(n - cap, cap);
    }
  }

  /** How many blocks `n` accepts have touched. */
  function Blocks(n: nat, cap: nat): nat
    requires cap >= 1
  {
    if n == 0 then 0 else 1 + Blocks(BlockStart(n, cap), cap)
  }

  lemma {:induction false} BlockStartCeiling(n: nat, cap: nat)
    requires cap >= 1 && n > 0
    ensures (n + cap - 1) / cap == (BlockStart(n, cap) + cap - 1) / cap + 1
  {
    if n <= cap {
      QuotientUnique(n + cap - 1, cap, 1, n - 1);
    } else {
      BlockStartCeiling(n - cap, cap);
      DivAddOne(n - 1, cap);
      DivAddOne(BlockStart(n - cap, cap) + cap - 1, cap);
    }
  }

  /** The blocks are counted by rounded-up division. */
  lemma {:induction false} BlocksIsCeiling(n: nat, cap: nat)
    requires cap >= 1
    ensures Blocks(n, cap) == (n + cap - 1) / cap
  {
    if n == 0 {
      QuotientUnique(cap - 1, cap, 0, cap - 1);
    } else {
      BlocksIsCeiling(BlockStart(n, cap), cap);
      BlockStartCeiling(n, cap);
    }
  }

  lemma DivAddOne(x: nat, d: nat)
    requires d > 0
    ensures (x + d) / d == x / d + 1
  {
    assert x + d == (x / d + 1) * d + x % d;
    QuotientUnique(x + d, d, x / d + 1, x % d);
  }

  lemma DistinctBlock(accepted: seq<bytes>, cap: nat)
    requires cap >= 1 && WellBlocked(accepted, cap)
    ensures Distinct(accepted[BlockStart(|accepted|, cap)..])
  {
    var b := BlockStart(|accepted|, cap);
    var s := accepted[b..];
    forall i, j | 0 <= i < j < |s| ensures s[i] != s[j] {
      BlockStartMonotone(b + j, |accepted|, cap);
      assert accepted[b + i] != accepted[b + j];
    }
  }

  lemma CurrentBlockSize(accepted: seq<bytes>, cap: nat)
    requires cap >= 1 && WellBlocked(accepted, cap)
    ensures |CurrentBlock(accepted, cap)| == |accepted| - BlockStart(|accepted|, cap) <= cap
  {
    DistinctBlock(accepted, cap);
    DistinctElements(accepted[BlockStart(|accepted|, cap)..]);
  }

  lemma BlockMembership(accepted: seq<bytes>, cap: nat, h: bytes)
    requires cap >= 1
    ensures h !in CurrentBlock(accepted, cap)
       <==> forall i :: BlockStart(|accepted|, cap) <= i < |accepted| ==> accepted[i] != h
  {}

  lemma WellBlockedStep(accepted: seq<bytes>, cap: nat, h: bytes)
    requires cap >= 1
    ensures WellBlocked(accepted + [h], cap) <==> WellBlocked(accepted, cap) && h !in CurrentBlock(accepted, cap)
  {
    var n, next := |accepted|, accepted + [h];
    BlockMembership(accepted, cap, h);
    assert forall i :: 0 <= i < n ==> next[i] == accepted[i];
    assert next[n] == h;
    if WellBlocked(next, cap) {
      forall i | BlockStart(n, cap) <= i < n ensures accepted[i] != h {
        assert next[i] != next[n];
      }
    }
  }

  lemma TailAppend(s: seq<bytes>, b: nat, h: bytes)
    requires b <= |s|
    ensures Elements((s + [h])[b..]) == Elements(s[b..]) + {h}
  {
    assert (s + [h])[b..] == s[b..] + [h];
    ElementsAppend(s[b..], h);
  }

  lemma CurrentBlockNext(accepted: seq<bytes>, cap: nat, h: bytes)
    requires cap >= 1
    ensures CurrentBlock(accepted + [h], cap)
         == (if |accepted| - BlockStart(|accepted|, cap) == cap then {} else CurrentBlock(accepted, cap)) + {h}
  {
    var n := |accepted|;
    BlockStartNext(n, cap);
    TailAppend(accepted, BlockStart(n + 1, cap), h);
  }

  /** One admission moves the block description forward. */
  lemma AdmitKeepsBlocks(accepted: seq<bytes>, cap: nat, h: bytes)
    requires cap >= 1 && WellBlocked(accepted, cap)
    ensures AfterAdmit(CurrentBlock(accepted, cap), cap, h) == CurrentBlock(accepted + [h], cap)
  {
    CurrentBlockSize(accepted, cap);
    CurrentBlockNext(accepted, cap, h);
  }

  /** In every run the cache is exactly the current block of the accepted hashes
      and never exceeds its capacity, and no accepted hash repeats within the
      block that was current at the time. */
  lemma {:induction false} CacheIsCurrentBlock(cap: nat, calls: seq<bytes>)
    requires cap >= 1
    ensures var s := OfferAll(cap, calls);
            && WellBlocked(s.accepted, cap)
            && s.seen == CurrentBlock(s.accepted, cap)
            && |s.seen| <= cap
  {
    if calls != [] {
      var n := |calls| - 1;
      CacheIsCurrentBlock(cap, calls[..n]);
      var s := OfferAll(cap, calls[..n]);
      if calls[n] !in s.seen {
        WellBlockedStep(s.accepted, cap, calls[n]);
        AdmitKeepsBlocks(s.accepted, cap, calls[n]);
      }
    }
    CurrentBlockSize(OfferAll(cap, calls).accepted, cap);
  }

  /** Conversely, every well-blocked sequence is accepted in full, so the
      description is exact. */
  lemma {:induction false} WellBlockedIsAccepted(cap: nat, calls: seq<bytes>)
    requires cap >= 1
    ensures WellBlocked(calls, cap) <==> OfferAll(cap, calls).accepted == calls
  {
    if calls != [] {
      var n := |calls| - 1;
      var prefix, h := calls[..n], calls[n];
      assert calls == prefix + [h];
      WellBlockedStep(prefix, cap, h);
      WellBlockedIsAccepted(cap, prefix);
      CacheIsCurrentBlock(cap, prefix);
      AcceptedLength(cap, prefix);
    }
  }

  lemma {:induction false} AcceptedLength(cap: nat, calls: seq<bytes>)
    ensures |OfferAll(cap, calls).accepted| <= |calls|
  {
    if calls != [] {
      AcceptedLength(cap, calls[..|calls| - 1]);
    }
  }

  lemma {:induction false} RepeatPerBlock(accepted: seq<bytes>, cap: nat, h: bytes)
    requires cap >= 1 && WellBlocked(accepted, cap)
    ensures multiset(accepted)[h] <= Blocks(|accepted|, cap)
    decreases |accepted|
  {
    if accepted != [] {
      var b := BlockStart(|accepted|, cap);
      var earlier, block := accepted[..b], accepted[b..];
      assert accepted == earlier + block;
      assert WellBlocked(earlier, cap) by {
        assert forall i :: 0 <= i < b ==> earlier[i] == accepted[i];
      }
      RepeatPerBlock(earlier, cap, h);
      DistinctBlock(accepted, cap);
      DistinctCount(block, h);
    }
  }

  /** In every run, no hash is accepted more often than `n / cap` rounded up,
      where `n` counts all accepts. */
  lemma RepeatBound(cap: nat, calls: seq<bytes>, h: bytes)
    requires cap >= 1
    ensures var accepted := OfferAll(cap, calls).accepted;
            multiset(accepted)[h] <= (|accepted| + cap - 1) / cap
  {
    var accepted := OfferAll(cap, calls).accepted;
    assert WellBlocked(accepted, cap) by { CacheIsCurrentBlock(cap, calls); }
    RepeatRoundedUp(accepted, cap, h);
  }

  lemma RepeatRoundedUp(accepted: seq<bytes>, cap: nat, h: bytes)
    requires cap >= 1 && WellBlocked(accepted, cap)
    ensures multiset(accepted)[h] <= (|accepted| + cap - 1) / cap
  {
    RepeatPerBlock(accepted, cap, h);
    BlocksIsCeiling(|accepted|, cap);
  }
}
