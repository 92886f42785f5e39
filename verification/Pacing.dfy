/** How fast the poll handler tries again while reads fail. */
module Pacing {
  import opened Integers
  import opened MeasurementPolicy
  import opened PolicyRuns

  // ----- Runs of failed ticks -----

  predicate AllFail(ts: seq<Tick>) { forall i: nat :: i < |ts| ==> ts[i].outcome.ReadFailed? }

  predicate Recovered(s: State) { s.failures == 0 && !s.inBackoff && s.step == 0 }

  /** The policy is recovered before the first tick and after every successful read. */
  lemma SuccessRecovers(c: PolicyConfig, ts: seq<Tick>)
    requires ts == [] || ts[|ts| - 1].outcome.ReadOk?
    ensures Recovered(Ticks(c, INITIAL, ts))
  {
  }

  /** The calls of failed ticks are failures and nothing else. */
  lemma {:induction false} FailedCalls(c: PolicyConfig, s: State, ts: seq<Tick>)
    requires AllFail(ts)
    ensures |Calls(c, s, ts)| == |ts| && TrailingFailures(Calls(c, s, ts)) == |ts|
    decreases |ts|
  {
    if ts != [] {
      var init := ts[..|ts| - 1];
      FailedCalls(c, s, init);
      assert Calls(c, s, ts) == Calls(c, s, init) + [Failed];
      assert Calls(c, s, ts)[..|init|] == Calls(c, s, init);
    }
  }

  lemma FailuresInStep(c: PolicyConfig, s: State, ts: seq<Tick>)
    requires Recovered(s) && AllFail(ts) && (WrapSafe(c) || |ts| < WRAP)
    ensures InStep(c, Ticks(c, s, ts), |ts|)
  {
    FailedCalls(c, s, ts);
    TicksAreCalls(c, s, ts);
    StaysInStep(c, s, 0, Calls(c, s, ts));
  }

  /** Without room for four escalations below the wrap, the failure that wraps the counter is not counted as one. */
  lemma WrapIsNotCounted(c: PolicyConfig, t: State, k: nat)
    requires k == WRAP - 1 && !WrapSafe(c) && InStep(c, t, k)
    ensures !InStep(c, Fail(c, t), k + 1)
  {
    assert t.step == k - c.failureThreshold < 3;
    assert Fail(c, t).step == t.step;
  }

  /**
   * The escalation follows the closed form through every outage exactly when the threshold leaves room for
   * four escalations below the counter's wrap.
   */
  lemma BackoffClosedFormIff(c: PolicyConfig, s: State)
    requires Recovered(s)
    ensures (forall ts: seq<Tick> :: AllFail(ts) ==> InStep(c, Ticks(c, s, ts), |ts|)) <==> WrapSafe(c)
  {
    if WrapSafe(c) {
      forall ts: seq<Tick> | AllFail(ts) ensures InStep(c, Ticks(c, s, ts), |ts|) { FailuresInStep(c, s, ts); }
    } else {
      var k: nat :| k == WRAP - 1;
      var t := Tick(ReadFailed, 0);
      var ts := seq(k, i => t);
      FailuresInStep(c, s, ts);
      WrapIsNotCounted(c, Ticks(c, s, ts), k);
      TicksSnoc(c, s, ts, t);
      assert !InStep(c, Ticks(c, s, ts + [t]), |ts + [t]|);
    }
  }

  // ----- Waits and restarts -----

  /** The delays that the ticks of a run schedule, added up. */
  function TotalWait(c: PolicyConfig, s: State, ts: seq<Tick>): nat
    decreases |ts|
  {
    if ts == [] then 0 else TotalWait(c, s, ts[..|ts| - 1]) + DelayOf(c, Ticks(c, s, ts))
  }

  /** The ticks of a run that find the policy in backoff and so start with a restart command. */
  function Restarts(c: PolicyConfig, s: State, ts: seq<Tick>): nat
    decreases |ts|
  {
    if ts == [] then 0 else Restarts(c, s, ts[..|ts| - 1]) + Bit(Ticks(c, s, ts[..|ts| - 1]).inBackoff)
  }

  lemma SumsSnoc(c: PolicyConfig, s: State, ts: seq<Tick>, t: Tick)
    ensures TotalWait(c, s, ts + [t]) == TotalWait(c, s, ts) + DelayOf(c, TickState(c, Ticks(c, s, ts), t))
    ensures Restarts(c, s, ts + [t]) == Restarts(c, s, ts) + Bit(Ticks(c, s, ts).inBackoff)
  {
    assert (ts + [t])[..|ts|] == ts;
  }

  lemma {:induction false} SumsConcat(c: PolicyConfig, s: State, a: seq<Tick>, b: seq<Tick>)
    ensures Ticks(c, s, a + b) == Ticks(c, Ticks(c, s, a), b)
    ensures TotalWait(c, s, a + b) == TotalWait(c, s, a) + TotalWait(c, Ticks(c, s, a), b)
    ensures Restarts(c, s, a + b) == Restarts(c, s, a) + Restarts(c, Ticks(c, s, a), b)
    decreases |b|
  {
    if b == [] {
      assert a + b == a;
    } else {
      var init, t := b[..|b| - 1], b[|b| - 1];
      SumsConcat(c, s, a, init);
      assert a + b == (a + init) + [t] && b == init + [t];
      SumsSnoc(c, s, a + init, t);
      TicksSnoc(c, s, a + init, t);
      SumsSnoc(c, Ticks(c, s, a), init, t);
    }
  }

  /** The first j waits of the backoff. */
  function Escalation(c: PolicyConfig, j: nat): nat {
    if j == 0 then 0
    else if j == 1 then c.backoffStepsMs[0]
    else if j == 2 then c.backoffStepsMs[0] + c.backoffStepsMs[1]
    else c.backoffStepsMs[0] + c.backoffStepsMs[1] + c.backoffStepsMs[2] + (j - 3) * c.backoffStepsMs[3]
  }

  /** The wait of an outage of n ticks: plain polls below the threshold, then the backoff. */
  function ClosedWait(c: PolicyConfig, n: nat): nat {
    if n < Limit(c) then n * c.pollIntervalMs
    else (Limit(c) - 1) * c.pollIntervalMs + Escalation(c, n - Limit(c) + 1)
  }

  lemma OneMore(k: int, b: int)
    ensures (k + 1) * b == k * b + b
  {
  }

  lemma ClosedWaitStep(c: PolicyConfig, n: nat)
    ensures ClosedWait(c, n + 1) == ClosedWait(c, n) + ClosedDelay(c, n + 1)
  {
    if n + 1 < Limit(c) {
      OneMore(n, c.pollIntervalMs);
    } else if n >= Limit(c) + 2 {
      OneMore(n - Limit(c) - 2, c.backoffStepsMs[3]);
    }
  }

  lemma {:induction false} FailureSums(c: PolicyConfig, s: State, ts: seq<Tick>)
    requires Recovered(s) && AllFail(ts) && (WrapSafe(c) || |ts| < WRAP)
    ensures TotalWait(c, s, ts) == ClosedWait(c, |ts|)
    ensures Restarts(c, s, ts) == Max(|ts| - Limit(c), 0)
    decreases |ts|
  {
    if ts != [] {
      var init := ts[..|ts| - 1];
      FailureSums(c, s, init);
      FailuresInStep(c, s, init);
      ClosedWaitStep(c, |init|);
      assert DelayOf(c, Ticks(c, s, ts)) == ClosedDelay(c, |ts|) by { FailuresInStep(c, s, ts); }
    }
  }

  /**
   * Pacing of an outage: whatever came before the last successful read, n failed ticks after it wait for
   * exactly the closed form and issue exactly max(n - F, 0) restart commands.
   */
  lemma OutagePacing(c: PolicyConfig, before: seq<Tick>, outage: seq<Tick>)
    requires before == [] || before[|before| - 1].outcome.ReadOk?
    requires AllFail(outage) && (WrapSafe(c) || |outage| < WRAP)
    ensures TotalWait(c, INITIAL, before + outage) == TotalWait(c, INITIAL, before) + ClosedWait(c, |outage|)
    ensures Restarts(c, INITIAL, before + outage) == Restarts(c, INITIAL, before) + Max(|outage| - Limit(c), 0)
  {
    SuccessRecovers(c, before);
    SumsConcat(c, INITIAL, before, outage);
    FailureSums(c, Ticks(c, INITIAL, before), outage);
  }

  // ----- Attempts -----

  /** Every tick comes at least the scheduled delay after the one before. */
  ghost predicate Paced(c: PolicyConfig, s: State, ts: seq<Tick>) {
    forall i :: 0 < i < |ts| ==> ts[i].nowMs >= ts[i - 1].nowMs + DelayOf(c, Ticks(c, s, ts[..i]))
  }

  lemma {:induction false} PacedElapsed(c: PolicyConfig, s: State, ts: seq<Tick>)
    requires ts != [] && Paced(c, s, ts)
    ensures ts[|ts| - 1].nowMs - ts[0].nowMs >= TotalWait(c, s, ts[..|ts| - 1])
    decreases |ts|
  {
    var n := |ts| - 1;
    if n > 0 {
      var init := ts[..n];
      assert Paced(c, s, init) by {
        forall i | 0 < i < n ensures init[i].nowMs >= init[i - 1].nowMs + DelayOf(c, Ticks(c, s, init[..i])) {
          assert init[..i] == ts[..i];
        }
      }
      PacedElapsed(c, s, init);
    }
  }

  /**
   * An outage that lasts T sees a bounded number of attempts, whatever else delays the ticks: the waits
   * between them fit into T, and each attempt past the ramp takes the last step of the backoff.
   */
  lemma AttemptBound(c: PolicyConfig, s: State, ts: seq<Tick>, T: int)
    requires Recovered(s) && AllFail(ts) && (WrapSafe(c) || |ts| < WRAP)
    requires ts != [] && Paced(c, s, ts) && ts[|ts| - 1].nowMs - ts[0].nowMs <= T
    ensures ClosedWait(c, |ts| - 1) <= T
    ensures |ts| >= Limit(c) + 3 ==>
      ClosedWait(c, Limit(c) + 2) + (|ts| - Limit(c) - 3) * c.backoffStepsMs[3] <= T
  {
    PacedElapsed(c, s, ts);
    FailureSums(c, s, ts[..|ts| - 1]);
  }
}
