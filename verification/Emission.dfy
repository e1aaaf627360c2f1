/** The pending queue and the batch window (`IntentBuilder.enqueue` and
    `emit_batch` in src/signed_order_intent.py). `emit_batch` tests the window
    outside the lock and drains inside it, so in the concurrent model a call is
    two steps and others may come between. */
module Emission {
  import opened Wrappers
  import opened Intents

  /** What one call of `emit_batch` returns and leaves behind. Past the window, or
      forced, everything pending is drained; otherwise nothing changes. Only a
      nonempty batch restarts the window. */
  ghost predicate Emits(window: real, pending: seq<Intent>, lastEmit: real, now: real, force: bool,
                        batch: seq<Intent>, pending': seq<Intent>, lastEmit': real)
  {
    && batch + pending' == pending
    && (force || now - lastEmit >= window ==> pending' == [])
    && (!(force || now - lastEmit >= window) ==> batch == [])
    && lastEmit' == if batch != [] then now else lastEmit
  }

  /** The builder's queue as a single-threaded object. */
  class IntentQueue {
    const window: real
    var pending: seq<Intent>
    var lastEmit: real

    constructor (window: real)
      ensures this.window == window && pending == [] && lastEmit == 0.0
    {
      this.window := window;
      pending, lastEmit := [], 0.0;
    }

    method Enqueue(x: Intent) returns (depth: nat)
      modifies this`pending
      ensures pending == old(pending) + [x] && depth == |pending|
    {
      pending := pending + [x];
      depth := |pending|;
    }

    method EmitBatch(now: real, force: bool) returns (batch: seq<Intent>)
      modifies this
      ensures Emits(window, old(pending), old(lastEmit), now, force, batch, pending, lastEmit)
    {
      if !force && now - lastEmit < window {
        return [];
      }
      if pending == [] {
        return [];
      }
      lastEmit := now;
      batch := pending;
      pending := [];
    }
  }

  // ---- concurrent calls ---------------------------------------------------------

  /** A call that has passed the window test: its clock, the last emission it
      read, and how many batches had been drained by then. */
  datatype Test = Test(now: real, saw: real, forced: bool, testedAt: nat)

  datatype Batch = Batch(items: seq<Intent>, test: Test)

  datatype State = State(
    pending: seq<Intent>, lastEmit: real, tests: map<nat, Test>,
    enqueued: seq<Intent>, batches: seq<Batch>)

  const INIT := State([], 0.0, map[], [], [])

  datatype Step =
    | Enqueue(x: Intent)
    | TestWindow(tid: nat, now: real, force: bool)
    | Drain(tid: nat)

  predicate Enabled(s: State, step: Step) {
    match step
    case Enqueue(_) => true
    case TestWindow(tid, _, _) => tid !in s.tests
    case Drain(tid) => tid in s.tests
  }

  function Apply(window: real, s: State, step: Step): State
    requires Enabled(s, step)
  {
    match step
    case Enqueue(x) => s.(pending := s.pending + [x], enqueued := s.enqueued + [x])
    case TestWindow(tid, now, force) =>
      if !force && now - s.lastEmit < window then s
      else s.(tests := s.tests[tid := Test(now, s.lastEmit, force, |s.batches|)])
    case Drain(tid) =>
      var t := s.tests[tid];
      if s.pending == [] then s.(tests := s.tests - {tid})
      else s.(tests := s.tests - {tid}, pending := [], lastEmit := t.now, batches := s.batches + [Batch(s.pending, t)])
  }

  function Exec(window: real, s: State, steps: seq<Step>): Option<State>
    decreases |steps|
  {
    if steps == [] then Some(s)
    else if !Enabled(s, steps[0]) then None
    else Exec(window, Apply(window, s, steps[0]), steps[1..])
  }

  // ---- conservation --------------------------------------------------------------

  function Flatten(batches: seq<Batch>): seq<Intent> {
    if batches == [] then [] else Flatten(batches[..|batches| - 1]) + batches[|batches| - 1].items
  }

  ghost predicate Conserved(s: State) {
    Flatten(s.batches) + s.pending == s.enqueued
  }

  lemma ConservedKept(window: real, s: State, step: Step)
    requires Enabled(s, step) && Conserved(s)
    ensures Conserved(Apply(window, s, step))
  {}

  /** What the `enqueue` calls of a run hand over, in order. */
  function Handed(steps: seq<Step>): seq<Intent> {
    if steps == [] then [] else HandedBy(steps[0]) + Handed(steps[1..])
  }

  function HandedBy(step: Step): seq<Intent> {
    if step.Enqueue? then [step.x] else []
  }

  lemma StepHands(window: real, s: State, step: Step, rest: seq<Intent>)
    requires Enabled(s, step)
    ensures Apply(window, s, step).enqueued + rest == s.enqueued + (HandedBy(step) + rest)
  {}

  lemma {:induction false} RunConserves(window: real, s: State, steps: seq<Step>)
    requires Conserved(s) && Exec(window, s, steps).Some?
    ensures Conserved(Exec(window, s, steps).value)
    decreases |steps|
  {
    if steps != [] {
      ConservedKept(window, s, steps[0]);
      RunConserves(window, Apply(window, s, steps[0]), steps[1..]);
    }
  }

  lemma {:induction false} RunHands(window: real, s: State, steps: seq<Step>)
    requires Exec(window, s, steps).Some?
    ensures Exec(window, s, steps).value.enqueued == s.enqueued + Handed(steps)
    decreases |steps|
  {
    if steps == [] {
      assert s.enqueued + [] == s.enqueued;
    } else {
      StepHands(window, s, steps[0], Handed(steps[1..]));
      RunHands(window, Apply(window, s, steps[0]), steps[1..]);
    }
  }

  /** Conservation. In every interleaving, the batches in order followed by what
      is pending are exactly what was enqueued: nothing is lost, repeated or
      reordered. */
  lemma QueueConserves(window: real, steps: seq<Step>)
    requires Exec(window, INIT, steps).Some?
    ensures var end := Exec(window, INIT, steps).value;
            Flatten(end.batches) + end.pending == Handed(steps)
  {
    RunConserves(window, INIT, steps);
    RunHands(window, INIT, steps);
    assert [] + Handed(steps) == Handed(steps);
  }

  // ---- spacing ---------------------------------------------------------------------

  /** The clock of the latest of the first `n` batches. */
  function EmitTime(batches: seq<Batch>, n: nat): real
    requires n <= |batches|
  {
    if n == 0 then 0.0 else batches[n - 1].test.now
  }

  ghost predicate TestOk(window: real, batches: seq<Batch>, t: Test) {
    && t.testedAt <= |batches| && t.saw == EmitTime(batches, t.testedAt)
    && (!t.forced ==> t.now - t.saw >= window)
  }

  ghost predicate Spaced(window: real, s: State) {
    && s.lastEmit == EmitTime(s.batches, |s.batches|)
    && (forall tid :: tid in s.tests ==> TestOk(window, s.batches, s.tests[tid]))
    && (forall k :: 0 <= k < |s.batches| ==>
          TestOk(window, s.batches, s.batches[k].test) && s.batches[k].test.testedAt <= k && s.batches[k].items != [])
  }

  lemma SpacedKept(window: real, s: State, step: Step)
    requires Enabled(s, step) && Spaced(window, s)
    ensures Spaced(window, Apply(window, s, step))
  {
    var s' := Apply(window, s, step);
    assert s.batches <= s'.batches;
    assert forall n :: 0 <= n <= |s.batches| ==> EmitTime(s'.batches, n) == EmitTime(s.batches, n);
    forall k | 0 <= k < |s'.batches|
      ensures TestOk(window, s'.batches, s'.batches[k].test) && s'.batches[k].test.testedAt <= k
              && s'.batches[k].items != []
    {
      if k < |s.batches| {
        assert TestOk(window, s.batches, s.batches[k].test);
      } else {
        assert TestOk(window, s.batches, s.tests[step.tid]);
      }
    }
  }

  lemma {:induction false} RunSpaced(window: real, s: State, steps: seq<Step>)
    requires Spaced(window, s) && Exec(window, s, steps).Some?
    ensures Spaced(window, Exec(window, s, steps).value)
    decreases |steps|
  {
    if steps != [] {
      SpacedKept(window, s, steps[0]);
      RunSpaced(window, Apply(window, s, steps[0]), steps[1..]);
    }
  }

  /** In every interleaving, an unforced batch comes at least one window after
      the batch that was the latest when its call tested the window. */
  lemma SpacedFromTest(window: real, steps: seq<Step>, k: nat)
    requires Exec(window, INIT, steps).Some? && k < |Exec(window, INIT, steps).value.batches|
    ensures var batches := Exec(window, INIT, steps).value.batches;
            var t := batches[k].test;
            && t.testedAt <= k && batches[k].items != []
            && (!t.forced ==> t.now >= EmitTime(batches, t.testedAt) + window)
  {
    RunSpaced(window, INIT, steps);
  }

  /** `emit_batch` calls do not overlap: none tests the window while another is
      between its test and its drain. Enqueues may still come between. */
  predicate NonOverlapping(window: real, s: State, steps: seq<Step>)
    decreases |steps|
  {
    steps == [] ||
    (&& Enabled(s, steps[0]) && (steps[0].TestWindow? ==> s.tests == map[])
     && NonOverlapping(window, Apply(window, s, steps[0]), steps[1..]))
  }

  ghost predicate Undisturbed(s: State) {
    && (forall i, j :: i in s.tests && j in s.tests ==> i == j)
    && (forall tid :: tid in s.tests ==> s.tests[tid].testedAt == |s.batches|)
    && (forall k :: 0 <= k < |s.batches| ==> s.batches[k].test.testedAt == k)
  }

  lemma {:induction false} RunUndisturbed(window: real, s: State, steps: seq<Step>)
    requires Undisturbed(s) && NonOverlapping(window, s, steps)
    ensures Exec(window, s, steps).Some? && Undisturbed(Exec(window, s, steps).value)
    decreases |steps|
  {
    if steps != [] {
      RunUndisturbed(window, Apply(window, s, steps[0]), steps[1..]);
    }
  }

  lemma NextBatch(window: real, s: State, k: nat)
    requires Spaced(window, s) && Undisturbed(s) && 0 < k < |s.batches| && !s.batches[k].test.forced
    ensures s.batches[k].test.now >= s.batches[k - 1].test.now + window
  {}

  lemma {:induction false} SpanSum(window: real, batches: seq<Batch>, i: nat, j: nat)
    requires i <= j < |batches|
    requires forall k :: i < k <= j ==> batches[k].test.now >= batches[k - 1].test.now + window
    ensures batches[j].test.now - batches[i].test.now >= (j - i) as real * window
    decreases j
  {
    if i < j {
      SpanSum(window, batches, i, j - 1);
      assert (j - i) as real * window == (j - 1 - i) as real * window + window;
    }
  }

  /** Spacing. When `emit_batch` calls do not overlap, every unforced batch comes
      at least one window after the one before it, so batches `i` to `j`, all
      unforced after the first, span at least `j - i` windows. */
  lemma EmissionSpacing(window: real, steps: seq<Step>, i: nat, j: nat)
    requires NonOverlapping(window, INIT, steps) && Exec(window, INIT, steps).Some?
    requires i <= j < |Exec(window, INIT, steps).value.batches|
    requires forall k :: i < k <= j ==> !Exec(window, INIT, steps).value.batches[k].test.forced
    ensures var batches := Exec(window, INIT, steps).value.batches;
            batches[j].test.now - batches[i].test.now >= (j - i) as real * window
  {
    RunUndisturbed(window, INIT, steps);
    RunSpaced(window, INIT, steps);
    var s := Exec(window, INIT, steps).value;
    forall k | i < k <= j ensures s.batches[k].test.now >= s.batches[k - 1].test.now + window {
      NextBatch(window, s, k);
    }
    SpanSum(window, s.batches, i, j);
  }

  lemma ExecStep(window: real, s: State, step: Step, rest: seq<Step>)
    requires Enabled(s, step)
    ensures Exec(window, s, [step] + rest) == Exec(window, Apply(window, s, step), rest)
  {}

  /** When they do overlap it can fail, for every positive window: two calls that
      test before either drains emit two unforced batches at the same time. */
  lemma OverlapBreaksSpacing(window: real, x: Intent) returns (steps: seq<Step>)
    requires 0.0 < window
    ensures var end := Exec(window, INIT, steps);
            && end.Some? && |end.value.batches| == 2
            && var a, b := end.value.batches[0].test, end.value.batches[1].test;
               !a.forced && !b.forced && b.now < a.now + window
  {
    var add, t0, t1 := Enqueue(x), TestWindow(0, window, false), TestWindow(1, window, false);
    steps := [add] + ([t0] + ([t1] + ([Drain(0)] + ([add] + ([Drain(1)] + [])))));
    var s1 := Apply(window, INIT, add);
    var s2 := Apply(window, s1, t0);
    var s3 := Apply(window, s2, t1);
    var s4 := Apply(window, s3, Drain(0));
    var s5 := Apply(window, s4, add);
    ExecStep(window, INIT, add, [t0] + ([t1] + ([Drain(0)] + ([add] + ([Drain(1)] + [])))));
    ExecStep(window, s1, t0, [t1] + ([Drain(0)] + ([add] + ([Drain(1)] + []))));
    ExecStep(window, s2, t1, [Drain(0)] + ([add] + ([Drain(1)] + [])));
    ExecStep(window, s3, Drain(0), [add] + ([Drain(1)] + []));
    ExecStep(window, s4, add, [Drain(1)] + []);
    ExecStep(window, s5, Drain(1), []);
  }

  /** Without interruption the two steps of a call do what the method does. */
  lemma WholeCallIsEmit(window: real, s: State, tid: nat, now: real, force: bool)
    returns (steps: seq<Step>, batch: seq<Intent>)
    requires tid !in s.tests
    ensures steps == [TestWindow(tid, now, force)] || steps == [TestWindow(tid, now, force), Drain(tid)]
    ensures Exec(window, s, steps).Some?
    ensures var end := Exec(window, s, steps).value;
            && Emits(window, s.pending, s.lastEmit, now, force, batch, end.pending, end.lastEmit)
            && end.tests == s.tests && end.enqueued == s.enqueued
            && end.batches == s.batches + if batch == [] then []
                                          else [Batch(batch, Test(now, s.lastEmit, force, |s.batches|))]
  {
    var test := TestWindow(tid, now, force);
    var s1 := Apply(window, s, test);
    if tid in s1.tests {
      steps, batch := [test] + ([Drain(tid)] + []), s.pending;
      ExecStep(window, s, test, [Drain(tid)] + []);
      ExecStep(window, s1, Drain(tid), []);
    } else {
      steps, batch := [test] + [], [];
      ExecStep(window, s, test, []);
    }
  }

  // ---- the exact condition -------------------------------------------------------

  predicate SameButClock(a: Step, b: Step) {
    match a
    case TestWindow(tid, _, force) => b.TestWindow? && b.tid == tid && b.force == force
    case _ => a == b
  }

  /** The same calls in the same interleaving, on other clocks. */
  ghost predicate Retimed(a: seq<Step>, b: seq<Step>) {
    |a| == |b| && forall i :: 0 <= i < |a| ==> SameButClock(a[i], b[i])
  }

  predicate SameTest(t: Test, u: Test) {
    t.testedAt == u.testedAt && t.forced == u.forced
  }

  ghost predicate SameBatches(a: seq<Batch>, b: seq<Batch>) {
    |a| == |b| && forall k :: 0 <= k < |a| ==> a[k].items == b[k].items && SameTest(a[k].test, b[k].test)
  }

  /** States of two runs that differ in their clocks only. */
  ghost predicate Alike(s: State, s': State) {
    && s'.pending == s.pending && s'.enqueued == s.enqueued && s'.tests.Keys == s.tests.Keys
    && (forall tid :: tid in s.tests ==> SameTest(s.tests[tid], s'.tests[tid]))
    && SameBatches(s.batches, s'.batches)
  }

  /** Each unforced batch comes a window after the one before it. */
  ghost predicate SpacedOut(window: real, batches: seq<Batch>) {
    forall k :: 0 < k < |batches| && !batches[k].test.forced ==>
      batches[k].test.now >= batches[k - 1].test.now + window
  }

  /** A batch drained by the first call to do so since the call tested. */
  ghost predicate Fresh(batches: seq<Batch>) {
    forall k :: 0 < k < |batches| && !batches[k].test.forced ==> batches[k].test.testedAt == k
  }

  predicate Passes(window: real, s: State, step: Step) {
    step.TestWindow? ==> step.force || step.now - s.lastEmit >= window
  }

  lemma AlikeKept(window: real, s: State, s': State, step: Step, step': Step)
    requires Alike(s, s') && Enabled(s, step) && SameButClock(step, step')
    requires Passes(window, s, step) <==> Passes(window, s', step')
    ensures Enabled(s', step') && Alike(Apply(window, s, step), Apply(window, s', step'))
  {}

  lemma RetimedCons(step: Step, steps: seq<Step>, step': Step, rest: seq<Step>)
    requires steps != [] && steps[0] == step && SameButClock(step, step') && Retimed(steps[1..], rest)
    ensures Retimed(steps, [step'] + rest)
  {
    forall i | 0 <= i < |steps| ensures SameButClock(steps[i], ([step'] + rest)[i]) {
      if i > 0 {
        assert SameButClock(steps[1..][i - 1], rest[i - 1]);
      }
    }
  }

  // First every passing test gets a clock of its own.

  /** All clocks in use are different and lie before `c`, by a window or more. */
  ghost predicate OwnClocks(window: real, s: State, c: real) {
    && s.lastEmit + window <= c
    && (forall i :: i in s.tests ==> s.tests[i].now + window <= c)
    && (forall k :: 0 <= k < |s.batches| ==> s.batches[k].test.now + window <= c)
    && (forall i, j :: i in s.tests && j in s.tests && i != j ==> s.tests[i].now != s.tests[j].now)
    && (forall i, k :: i in s.tests && 0 <= k < |s.batches| ==> s.tests[i].now != s.batches[k].test.now)
    && (forall k, l :: 0 <= k < l < |s.batches| ==> s.batches[k].test.now != s.batches[l].test.now)
  }

  lemma OwnClocksKept(window: real, s: State, step: Step, c: real)
    requires 0.0 < window && Enabled(s, step) && OwnClocks(window, s, c)
    requires step.TestWindow? ==> step.now == c || !Passes(window, s, step)
    ensures OwnClocks(window, Apply(window, s, step), c + window)
  {}

  /** A step on the clock `c` if it is a test that passed, else on one that fails. */
  function OnClock(step: Step, passes: bool, c: real, lastEmit: real): Step {
    if step.TestWindow? then step.(now := if passes then c else lastEmit) else step
  }

  lemma {:induction false} Stagger(window: real, s: State, s': State, steps: seq<Step>, c: real)
    returns (steps': seq<Step>)
    requires 0.0 < window && Alike(s, s') && OwnClocks(window, s', c) && Exec(window, s, steps).Some?
    ensures Retimed(steps, steps') && Exec(window, s', steps').Some?
    ensures Alike(Exec(window, s, steps).value, Exec(window, s', steps').value)
    ensures exists d :: OwnClocks(window, Exec(window, s', steps').value, d)
    decreases |steps|
  {
    if steps == [] {
      steps' := [];
    } else {
      var step := steps[0];
      var step' := OnClock(step, Passes(window, s, step), c, s'.lastEmit);
      AlikeKept(window, s, s', step, step');
      OwnClocksKept(window, s', step', c);
      var t, t' := Apply(window, s, step), Apply(window, s', step');
      var rest := Stagger(window, t, t', steps[1..], c + window);
      steps' := [step'] + rest;
      RetimedCons(step, steps, step', rest);
      ExecStep(window, s', step', rest);
    }
  }

  // Then the test of one batch is delayed, with every test that saw that batch.

  /** The new clock of a test: by the number of batches it saw, and `h` later if
      its old clock is `c` or it saw `k` batches. */
  function Delayed(window: real, t: Test, k: nat, c: real, h: real): real {
    Windows(window, 1 + t.testedAt) + if t.now == c || t.testedAt >= k then h else 0.0
  }

  function Windows(window: real, n: nat): real {
    if n == 0 then 0.0 else Windows(window, n - 1) + window
  }

  ghost predicate AllDelayed(window: real, s: State, s': State, k: nat, c: real, h: real)
    requires Alike(s, s')
  {
    && (forall i :: i in s.tests ==> s'.tests[i].now == Delayed(window, s.tests[i], k, c, h))
    && (forall i :: 0 <= i < |s.batches| ==> s'.batches[i].test.now == Delayed(window, s.batches[i].test, k, c, h))
    && s'.lastEmit == EmitTime(s'.batches, |s'.batches|)
  }

  /** Batches before number `k - 1` do not have the clock `c`. */
  ghost predicate ClockAfter(batches: seq<Batch>, k: nat, c: real) {
    forall i :: 0 <= i < |batches| && i < k - 1 ==> batches[i].test.now != c
  }

  lemma LaterByAWindow(window: real, t: Test, u: Test, k: nat, c: real, h: real)
    requires 0.0 < window && 0.0 <= h && t.testedAt < u.testedAt && (u.testedAt < k ==> t.now != c)
    ensures Delayed(window, u, k, c, h) >= Delayed(window, t, k, c, h) + window
  {
    WindowsGrow(window, 1 + t.testedAt, u.testedAt);
  }

  lemma DelayedPasses(window: real, s: State, s': State, u: Test, k: nat, c: real, h: real)
    requires 0.0 < window && 0.0 <= h && Alike(s, s') && Spaced(window, s) && u.testedAt == |s.batches|
    requires AllDelayed(window, s, s', k, c, h) && ClockAfter(s.batches, k, c)
    ensures Delayed(window, u, k, c, h) - s'.lastEmit >= window
  {
    if u.testedAt == 0 {
      assert Windows(window, 1) == Windows(window, 0) + window;
    } else {
      LaterByAWindow(window, s.batches[u.testedAt - 1].test, u, k, c, h);
    }
  }

  lemma {:induction false} WindowsGrow(window: real, a: nat, b: nat)
    requires 0.0 < window && a <= b
    ensures Windows(window, a) <= Windows(window, b)
  {
    if a < b {
      WindowsGrow(window, a, b - 1);
    }
  }

  lemma AllDelayedKept(window: real, s: State, s': State, step: Step, step': Step, k: nat, c: real, h: real)
    requires Alike(s, s') && AllDelayed(window, s, s', k, c, h) && Enabled(s, step) && SameButClock(step, step')
    requires Passes(window, s, step) <==> Passes(window, s', step')
    requires step.TestWindow? && Passes(window, s, step) ==>
               step'.now == Delayed(window, Test(step.now, s.lastEmit, step.force, |s.batches|), k, c, h)
    ensures Enabled(s', step') && Alike(Apply(window, s, step), Apply(window, s', step'))
    ensures AllDelayed(window, Apply(window, s, step), Apply(window, s', step'), k, c, h)
  {
    AlikeKept(window, s, s', step, step');
  }

  lemma {:induction false} BatchesGrow(window: real, s: State, steps: seq<Step>)
    requires Exec(window, s, steps).Some?
    ensures s.batches <= Exec(window, s, steps).value.batches
    decreases |steps|
  {
    if steps != [] {
      BatchesGrow(window, Apply(window, s, steps[0]), steps[1..]);
    }
  }

  lemma {:induction false} Delay(window: real, s: State, s': State, steps: seq<Step>, k: nat, c: real, h: real)
    returns (steps': seq<Step>)
    requires 0.0 < window && 0.0 <= h && Spaced(window, s) && Exec(window, s, steps).Some?
    requires Alike(s, s') && AllDelayed(window, s, s', k, c, h)
    requires ClockAfter(Exec(window, s, steps).value.batches, k, c)
    ensures Retimed(steps, steps') && Exec(window, s', steps').Some?
    ensures Alike(Exec(window, s, steps).value, Exec(window, s', steps').value)
    ensures AllDelayed(window, Exec(window, s, steps).value, Exec(window, s', steps').value, k, c, h)
    decreases |steps|
  {
    if steps == [] {
      steps' := [];
    } else {
      var step := steps[0];
      var now := if step.TestWindow? then step.now else 0.0;
      var test := Test(now, s.lastEmit, false, |s.batches|);
      var clock := Delayed(window, test, k, c, h);
      var step' := OnClock(step, Passes(window, s, step), clock, s'.lastEmit);
      BatchesGrow(window, s, steps);
      DelayedPasses(window, s, s', test, k, c, h);
      AllDelayedKept(window, s, s', step, step', k, c, h);
      SpacedKept(window, s, step);
      var t, t' := Apply(window, s, step), Apply(window, s', step');
      var rest := Delay(window, t, t', steps[1..], k, c, h);
      steps' := [step'] + rest;
      RetimedCons(step, steps, step', rest);
      ExecStep(window, s', step', rest);
    }
  }

  lemma RetimedTwice(a: seq<Step>, b: seq<Step>, d: seq<Step>)
    requires Retimed(a, b) && Retimed(b, d)
    ensures Retimed(a, d)
  {
    forall i | 0 <= i < |a| ensures SameButClock(a[i], d[i]) {
      assert SameButClock(a[i], b[i]) && SameButClock(b[i], d[i]);
    }
  }

  lemma AlikeTwice(s: State, t: State, u: State)
    requires Alike(s, t) && Alike(t, u)
    ensures Alike(s, u)
  {
    forall k | 0 <= k < |s.batches|
      ensures s.batches[k].items == u.batches[k].items && SameTest(s.batches[k].test, u.batches[k].test)
    {
      assert SameTest(s.batches[k].test, t.batches[k].test) && SameTest(t.batches[k].test, u.batches[k].test);
    }
    forall tid | tid in s.tests ensures SameTest(s.tests[tid], u.tests[tid]) {
      assert SameTest(s.tests[tid], t.tests[tid]) && SameTest(t.tests[tid], u.tests[tid]);
    }
  }

  /** A batch whose call tested before another call drained can come too early:
      the same calls in the same interleaving, with the same batches, have
      clocks on which it does. */
  lemma StaleTestBreaksSpacing(window: real, steps: seq<Step>, k: nat) returns (steps': seq<Step>)
    requires 0.0 < window && Exec(window, INIT, steps).Some?
    requires var batches := Exec(window, INIT, steps).value.batches; k < |batches| && batches[k].test.testedAt < k
    ensures Retimed(steps, steps') && Exec(window, INIT, steps').Some?
    ensures Alike(Exec(window, INIT, steps).value, Exec(window, INIT, steps').value)
    ensures var batches := Exec(window, INIT, steps').value.batches;
            0 < k < |batches| && batches[k].test.now < batches[k - 1].test.now + window
  {
    var first := Stagger(window, INIT, INIT, steps, window);
    var end := Exec(window, INIT, first).value;
    var c, h := end.batches[k - 1].test.now, Windows(window, 1 + k);
    WindowsGrow(window, 0, 1 + k);
    steps' := Delay(window, INIT, INIT, first, k, c, h);
    var end' := Exec(window, INIT, steps').value;
    RetimedTwice(steps, first, steps');
    AlikeTwice(Exec(window, INIT, steps).value, end, end');
    var t := end.batches[k].test;
    assert t.now != c;
    WindowsGrow(window, 1 + t.testedAt, 1 + k);
    WindowsGrow(window, 0, 1 + end.batches[k - 1].test.testedAt);
  }

  lemma FreshIsSpacedOut(window: real, s: State)
    requires Spaced(window, s) && Fresh(s.batches)
    ensures SpacedOut(window, s.batches)
  {
    forall k | 0 < k < |s.batches| && !s.batches[k].test.forced
      ensures s.batches[k].test.now >= s.batches[k - 1].test.now + window
    {
      assert TestOk(window, s.batches, s.batches[k].test);
    }
  }

  /** Exactly when. A schedule keeps its unforced batches a window apart on every
      clock exactly when no unforced batch is drained by a call that tested
      before the batch ahead of it was drained. */
  lemma SpacingExact(window: real, steps: seq<Step>)
    requires 0.0 < window && Exec(window, INIT, steps).Some?
    ensures Fresh(Exec(window, INIT, steps).value.batches) <==>
            forall steps' :: Retimed(steps, steps') && Exec(window, INIT, steps').Some?
              && Alike(Exec(window, INIT, steps).value, Exec(window, INIT, steps').value)
              ==> SpacedOut(window, Exec(window, INIT, steps').value.batches)
  {
    var end := Exec(window, INIT, steps).value;
    RunSpaced(window, INIT, steps);
    if Fresh(end.batches) {
      forall steps' | Retimed(steps, steps') && Exec(window, INIT, steps').Some?
        && Alike(end, Exec(window, INIT, steps').value)
        ensures SpacedOut(window, Exec(window, INIT, steps').value.batches)
      {
        var end' := Exec(window, INIT, steps').value;
        RunSpaced(window, INIT, steps');
        assert forall k :: 0 <= k < |end.batches| ==> SameTest(end.batches[k].test, end'.batches[k].test);
        FreshIsSpacedOut(window, end');
      }
    } else {
      var k :| 0 < k < |end.batches| && !end.batches[k].test.forced && end.batches[k].test.testedAt != k;
      var steps' := StaleTestBreaksSpacing(window, steps, k);
      assert SameTest(end.batches[k].test, Exec(window, INIT, steps').value.batches[k].test);
    }
  }
}
