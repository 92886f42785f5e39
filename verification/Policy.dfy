/** The poll, backoff and notify policy (src/measurement_service/measurement_policy.{h,cpp}). */
module MeasurementPolicy {
  import opened Integers
  import opened Sen66Fields
  import opened Sen66Protocol

  const WRAP: int := 0x1_0000_0000
  const BACKOFF_STEPS: nat := 4

  datatype ChangeThresholds = ChangeThresholds(pm: u16, temperature: u16, humidity: u16, co2: u16, index: u16)

  datatype ConfigFields = PolicyConfig(
    pollIntervalMs: u32, notifyIntervalMs: u32, failureThreshold: u32,
    backoffStepsMs: seq<u32>, thresholds: ChangeThresholds)

  type PolicyConfig = c: ConfigFields | |c.backoffStepsMs| == 4
    witness DEFAULT_CONFIG

  const DEFAULT_CONFIG: ConfigFields :=
    PolicyConfig(1000, 7000, 3, [2000, 5000, 10000, 30000], ChangeThresholds(50, 100, 300, 50, 20))

  function Threshold(t: ChangeThresholds, c: Channel): u16 {
    match c
    case Pm1p0 => t.pm
    case Pm2p5 => t.pm
    case Pm4p0 => t.pm
    case Pm10 => t.pm
    case Humidity => t.humidity
    case Temperature => t.temperature
    case VocIndex => t.index
    case NoxIndex => t.index
    case Co2 => t.co2
  }

  // ----- Significant changes -----

  function AbsDeltaU16(a: u16, b: u16): (d: u16)
    ensures a == b + d || b == a + d
  {
    if a > b then a - b else b - a
  }

  function AbsDeltaS16(a: i16, b: i16): (d: u16)
    ensures a == b + d || b == a + d
  {
    var diff := a - b;
    if diff < 0 then -diff else diff
  }

  function Distance(a: int, b: int): nat { if a < b then b - a else a - b }

  /** A channel valid in both snapshots whose value moved by at least its threshold. */
  predicate Moved(prev: Measurement, taken: Measurement, t: ChangeThresholds, c: Channel) {
    c in prev.valid && c in taken.valid && Distance(Raw(prev, c), Raw(taken, c)) >= Threshold(t, c)
  }

  function MovedMask(prev: Measurement, taken: Measurement, t: ChangeThresholds): Mask {
    set c: Channel | Moved(prev, taken, t, c)
  }

  /** The part of the mask that the first k channels decide. */
  ghost function MovedUpTo(prev: Measurement, taken: Measurement, t: ChangeThresholds, k: nat): Mask {
    set c: Channel | Index(c) < k && Moved(prev, taken, t, c)
  }

  method AddIf(mask: Mask, moved: bool, k: nat, ghost prev: Measurement, ghost taken: Measurement,
               ghost t: ChangeThresholds)
    returns (r: Mask)
    requires k < 9 && mask == MovedUpTo(prev, taken, t, k) && moved == Moved(prev, taken, t, CHANNELS[k])
    ensures r == MovedUpTo(prev, taken, t, k + 1)
  {
    IndexOfChannel(k);
    r := if moved then mask + {CHANNELS[k]} else mask;
  }

  /** A channel valid before and after whose value changed by at least the threshold. */
  predicate Exceeds(before: bool, x: int, after: bool, y: int, threshold: int) {
    before && after && (x - y >= threshold || y - x >= threshold)
  }

  /** Channel by channel, each with its own values and its own threshold. */
  lemma MovedFields(prev: Measurement, taken: Measurement, t: ChangeThresholds)
    ensures var mask, v, w := MovedMask(prev, taken, t), prev.valid, taken.valid;
      && (Pm1p0 in mask <==> Exceeds(Pm1p0 in v, prev.pm1p0, Pm1p0 in w, taken.pm1p0, t.pm))
      && (Pm2p5 in mask <==> Exceeds(Pm2p5 in v, prev.pm2p5, Pm2p5 in w, taken.pm2p5, t.pm))
      && (Pm4p0 in mask <==> Exceeds(Pm4p0 in v, prev.pm4p0, Pm4p0 in w, taken.pm4p0, t.pm))
      && (Pm10 in mask <==> Exceeds(Pm10 in v, prev.pm10, Pm10 in w, taken.pm10, t.pm))
      && (Humidity in mask <==> Exceeds(Humidity in v, prev.humidity, Humidity in w, taken.humidity, t.humidity))
      && (Temperature in mask <==>
            Exceeds(Temperature in v, prev.temperature, Temperature in w, taken.temperature, t.temperature))
      && (VocIndex in mask <==> Exceeds(VocIndex in v, prev.vocIndex, VocIndex in w, taken.vocIndex, t.index))
      && (NoxIndex in mask <==> Exceeds(NoxIndex in v, prev.noxIndex, NoxIndex in w, taken.noxIndex, t.index))
      && (Co2 in mask <==> Exceeds(Co2 in v, prev.co2, Co2 in w, taken.co2, t.co2))
  {
  }

  method ParticulateMask(prev: Measurement, taken: Measurement, t: ChangeThresholds) returns (mask: Mask)
    ensures mask == MovedUpTo(prev, taken, t, 4)
  {
    var bothValid := prev.valid * taken.valid;
    mask := {};
    mask := AddIf(mask, Pm1p0 in bothValid && AbsDeltaU16(prev.pm1p0, taken.pm1p0) >= t.pm, 0, prev, taken, t);
    mask := AddIf(mask, Pm2p5 in bothValid && AbsDeltaU16(prev.pm2p5, taken.pm2p5) >= t.pm, 1, prev, taken, t);
    mask := AddIf(mask, Pm4p0 in bothValid && AbsDeltaU16(prev.pm4p0, taken.pm4p0) >= t.pm, 2, prev, taken, t);
    mask := AddIf(mask, Pm10 in bothValid && AbsDeltaU16(prev.pm10, taken.pm10) >= t.pm, 3, prev, taken, t);
  }

  method DeltaMask(prev: Measurement, taken: Measurement, t: ChangeThresholds) returns (mask: Mask)
    ensures mask == MovedMask(prev, taken, t)
    ensures Pm1p0 in mask <==> Exceeds(Pm1p0 in prev.valid, prev.pm1p0, Pm1p0 in taken.valid, taken.pm1p0, t.pm)
    ensures Pm2p5 in mask <==> Exceeds(Pm2p5 in prev.valid, prev.pm2p5, Pm2p5 in taken.valid, taken.pm2p5, t.pm)
    ensures Pm4p0 in mask <==> Exceeds(Pm4p0 in prev.valid, prev.pm4p0, Pm4p0 in taken.valid, taken.pm4p0, t.pm)
    ensures Pm10 in mask <==> Exceeds(Pm10 in prev.valid, prev.pm10, Pm10 in taken.valid, taken.pm10, t.pm)
    ensures Humidity in mask <==>
      Exceeds(Humidity in prev.valid, prev.humidity, Humidity in taken.valid, taken.humidity, t.humidity)
    ensures Temperature in mask <==>
      Exceeds(Temperature in prev.valid, prev.temperature, Temperature in taken.valid, taken.temperature, t.temperature)
    ensures VocIndex in mask <==>
      Exceeds(VocIndex in prev.valid, prev.vocIndex, VocIndex in taken.valid, taken.vocIndex, t.index)
    ensures NoxIndex in mask <==>
      Exceeds(NoxIndex in prev.valid, prev.noxIndex, NoxIndex in taken.valid, taken.noxIndex, t.index)
    ensures Co2 in mask <==> Exceeds(Co2 in prev.valid, prev.co2, Co2 in taken.valid, taken.co2, t.co2)
  {
    var bothValid := prev.valid * taken.valid;
    mask := ParticulateMask(prev, taken, t);
    mask := AddIf(mask, Humidity in bothValid && AbsDeltaS16(prev.humidity, taken.humidity) >= t.humidity,
                  4, prev, taken, t);
    mask := AddIf(mask, Temperature in bothValid && AbsDeltaS16(prev.temperature, taken.temperature) >= t.temperature,
                  5, prev, taken, t);
    mask := AddIf(mask, VocIndex in bothValid && AbsDeltaS16(prev.vocIndex, taken.vocIndex) >= t.index,
                  6, prev, taken, t);
    mask := AddIf(mask, NoxIndex in bothValid && AbsDeltaS16(prev.noxIndex, taken.noxIndex) >= t.index,
                  7, prev, taken, t);
    mask := AddIf(mask, Co2 in bothValid && AbsDeltaU16(prev.co2, taken.co2) >= t.co2, 8, prev, taken, t);
    MovedFields(prev, taken, t);
  }

  // ----- The policy as a transition system -----

  datatype State = State(
    latest: Measurement, everValid: bool, lastUpdateMs: int,
    lastNotified: Measurement, lastNotifyMs: int, shouldNotify: bool, changedMask: Mask,
    failures: u32, inBackoff: bool, step: nat)

  const INITIAL := State(NO_MEASUREMENT, false, 0, NO_MEASUREMENT, 0, false, {}, 0, false, 0)

  datatype Event = Failed | Succeeded(m: Measurement, nowMs: int) | Marked(atMs: int)

  /** What a fresh snapshot has to report against the last notified one. */
  function ChangesOf(c: PolicyConfig, notified: Measurement, m: Measurement): Mask {
    Flipped(m.valid, notified.valid) + MovedMask(notified, m, c.thresholds)
  }

  /** Whether a fresh snapshot is worth a notification. */
  predicate Worthy(c: PolicyConfig, notified: Measurement, notifyMs: int, m: Measurement, nowMs: int) {
    && !(m.valid == {} && notified.valid == {})
    && (ChangesOf(c, notified, m) != {} || nowMs - notifyMs >= c.notifyIntervalMs)
  }

  /** One more on a 32-bit counter, which wraps. */
  function Increment(n: u32): u32 { if n == 0xFFFF_FFFF then 0 else n + 1 }

  function Fail(c: PolicyConfig, s: State): State {
    var n := Increment(s.failures);
    var t := s.(shouldNotify := false, changedMask := {}, failures := n);
    if n < c.failureThreshold then t
    else if !s.inBackoff then t.(inBackoff := true, step := 0)
    else if s.step + 1 < BACKOFF_STEPS then t.(step := s.step + 1)
    else t
  }

  function Succeed(c: PolicyConfig, s: State, m: Measurement, nowMs: int): State {
    var worthy := Worthy(c, s.lastNotified, s.lastNotifyMs, m, nowMs);
    State(m, s.everValid || m.valid != {}, nowMs, s.lastNotified, s.lastNotifyMs,
          worthy, if worthy then ChangesOf(c, s.lastNotified, m) else {}, 0, false, 0)
  }

  function Mark(s: State, nowMs: int): State {
    s.(lastNotified := s.latest, lastNotifyMs := nowMs, shouldNotify := false, changedMask := {})
  }

  function Next(c: PolicyConfig, s: State, e: Event): State {
    match e
    case Failed => Fail(c, s)
    case Succeeded(m, nowMs) => Succeed(c, s, m, nowMs)
    case Marked(atMs) => Mark(s, atMs)
  }

  /** The state after any history of calls. */
  function Run(c: PolicyConfig, s: State, es: seq<Event>): State
    decreases |es|
  {
    if es == [] then s else Next(c, Run(c, s, es[..|es| - 1]), es[|es| - 1])
  }

  function EventOf(err: int, m: Measurement, nowMs: int): Event {
    if err != 0 then Failed else Succeeded(m, nowMs)
  }

  datatype Reading = Nothing | Reading(m: Measurement, ageMs: int)

  function ReadingOf(s: State, nowMs: int): Reading {
    if s.everValid then Reading(s.latest, nowMs - s.lastUpdateMs) else Nothing
  }

  // ----- What a history leaves behind -----

  /** Some successful read of a history had a valid channel. */
  ghost predicate SomeValid(es: seq<Event>) {
    exists i :: 0 <= i < |es| && es[i].Succeeded? && es[i].m.valid != {}
  }

  const NEVER := Succeeded(NO_MEASUREMENT, 0)

  /** The last successful read of a history, or a given one if there is none. */
  function LastGood(es: seq<Event>, otherwise: Event := NEVER): (e: Event)
    requires otherwise.Succeeded?
    ensures e.Succeeded?
    decreases |es|
  {
    if es == [] then otherwise
    else if es[|es| - 1].Succeeded? then es[|es| - 1]
    else LastGood(es[..|es| - 1], otherwise)
  }

  lemma SomeValidSnoc(es: seq<Event>)
    requires es != []
    ensures var last := es[|es| - 1];
      SomeValid(es) <==> SomeValid(es[..|es| - 1]) || (last.Succeeded? && last.m.valid != {})
  {
    var init := es[..|es| - 1];
    if SomeValid(init) {
      var i :| 0 <= i < |init| && init[i].Succeeded? && init[i].m.valid != {};
      assert es[i] == init[i];
    }
    if SomeValid(es) {
      var i :| 0 <= i < |es| && es[i].Succeeded? && es[i].m.valid != {};
      if i < |es| - 1 { assert init[i] == es[i]; }
    }
  }

  /** The policy has ever been valid iff some read was, and holds the last successful read and its time. */
  lemma {:induction false} HistoryIsRemembered(c: PolicyConfig, es: seq<Event>)
    ensures var s := Run(c, INITIAL, es);
      && (s.everValid <==> SomeValid(es))
      && s.latest == LastGood(es).m && s.lastUpdateMs == LastGood(es).nowMs
    decreases |es|
  {
    if es != [] {
      HistoryIsRemembered(c, es[..|es| - 1]);
      SomeValidSnoc(es);
    }
  }

  /** How much of a history the last notification had seen: everything up to and including the last mark. */
  function LastMark(es: seq<Event>): (n: nat)
    ensures n <= |es| && (n > 0 ==> es[n - 1].Marked?)
    decreases |es|
  {
    if es == [] then 0
    else if es[|es| - 1].Marked? then |es|
    else LastMark(es[..|es| - 1])
  }

  /** The last notified measurement is the latest one at the last mark, and its time that of the mark. */
  lemma {:induction false} MarksAreRemembered(c: PolicyConfig, es: seq<Event>)
    ensures var s, n := Run(c, INITIAL, es), LastMark(es);
      && s.lastNotified == LastGood(es[..n]).m
      && s.lastNotifyMs == if n == 0 then 0 else es[n - 1].atMs
    decreases |es|
  {
    if es != [] {
      var init := es[..|es| - 1];
      MarksAreRemembered(c, init);
      if es[|es| - 1].Marked? {
        HistoryIsRemembered(c, init);
        assert es[..|es|] == es;
      } else {
        assert es[..LastMark(es)] == init[..LastMark(init)];
      }
    }
  }

  /** A channel to report: its validity changed, or it is valid on both sides and moved by its threshold. */
  ghost predicate Differs(c: PolicyConfig, notified: Measurement, m: Measurement) {
    exists k: Channel ::
      || (k in m.valid) != (k in notified.valid)
      || (&& k in m.valid && k in notified.valid
          && Distance(Raw(notified, k), Raw(m, k)) >= Threshold(c.thresholds, k))
  }

  lemma DiffersIffChanges(c: PolicyConfig, notified: Measurement, m: Measurement)
    ensures Differs(c, notified, m) <==> ChangesOf(c, notified, m) != {}
  {
    if Differs(c, notified, m) {
      var k: Channel :|
        || (k in m.valid) != (k in notified.valid)
        || (&& k in m.valid && k in notified.valid
            && Distance(Raw(notified, k), Raw(m, k)) >= Threshold(c.thresholds, k));
      assert k in ChangesOf(c, notified, m);
    }
    if ChangesOf(c, notified, m) != {} {
      var k: Channel :| k in ChangesOf(c, notified, m);
      assert k in Flipped(m.valid, notified.valid) || Moved(notified, m, c.thresholds, k);
    }
  }

  /**
   * After any history a notification is pending exactly when its last call was a successful read with
   * something valid in it or in the last notified measurement, and that read differs from the last notified
   * one or comes the whole interval after it.
   */
  lemma PendingIff(c: PolicyConfig, es: seq<Event>)
    ensures var s := Run(c, INITIAL, es);
      s.shouldNotify <==>
        && es != [] && es[|es| - 1].Succeeded?
        && var e := es[|es| - 1];
           && (e.m.valid != {} || s.lastNotified.valid != {})
           && (Differs(c, s.lastNotified, e.m) || e.nowMs >= s.lastNotifyMs + c.notifyIntervalMs)
  {
    if es != [] {
      var before, e := Run(c, INITIAL, es[..|es| - 1]), es[|es| - 1];
      if e.Succeeded? { DiffersIffChanges(c, before.lastNotified, e.m); }
    }
  }

  // ----- The closed form of the backoff, without any counter width -----

  /** Consecutive failures at the end of a history that follows k of them. */
  function TrailingFailures(es: seq<Event>, k: nat := 0): (n: nat)
    ensures n <= k + |es|
    decreases |es|
  {
    if es == [] then k else
      match es[|es| - 1]
      case Failed => TrailingFailures(es[..|es| - 1], k) + 1
      case Succeeded(_, _) => 0
      case Marked(_) => TrailingFailures(es[..|es| - 1], k)
  }

  /** The number of consecutive failures that starts the backoff. */
  function Limit(c: PolicyConfig): (f: nat)
    ensures f >= 1
  {
    Max(c.failureThreshold, 1)
  }

  predicate ClosedRestart(c: PolicyConfig, k: nat) { k >= Limit(c) }

  function ClosedDelay(c: PolicyConfig, k: nat): u32 {
    if k < Limit(c) then c.pollIntervalMs else c.backoffStepsMs[Min(k - Limit(c), 3)]
  }

  /** The machine agrees with the closed form after k consecutive failures. */
  predicate InStep(c: PolicyConfig, s: State, k: nat) {
    && s.failures == k % WRAP
    && s.inBackoff == ClosedRestart(c, k)
    && s.step == if k < Limit(c) then 0 else Min(k - Limit(c), 3)
  }

  /** The largest threshold for which four escalations fit below the counter's wrap. */
  predicate WrapSafe(c: PolicyConfig) { c.failureThreshold <= WRAP - 4 }

  lemma FailInStep(c: PolicyConfig, s: State, k: nat)
    requires InStep(c, s, k) && (WrapSafe(c) || k + 1 < WRAP)
    ensures InStep(c, Fail(c, s), k + 1)
  {
    assert Increment(k % WRAP) == (k + 1) % WRAP;
  }

  lemma {:induction false} StaysInStep(c: PolicyConfig, s: State, k: nat, es: seq<Event>)
    requires InStep(c, s, k) && (WrapSafe(c) || k + |es| < WRAP)
    ensures InStep(c, Run(c, s, es), TrailingFailures(es, k))
    decreases |es|
  {
    if es != [] {
      var init, last := es[..|es| - 1], es[|es| - 1];
      StaysInStep(c, s, k, init);
      if last.Failed? { FailInStep(c, Run(c, s, init), TrailingFailures(init, k)); }
    }
  }

  /** After any history, the wrapping machine is where the closed form says. */
  lemma HistoryInStep(c: PolicyConfig, es: seq<Event>)
    requires WrapSafe(c)
    ensures InStep(c, Run(c, INITIAL, es), TrailingFailures(es))
  {
    StaysInStep(c, INITIAL, 0, es);
  }

  /** The default pacing after k consecutive failures: three polls of a second, then 2, 5, 10 and 30 seconds. */
  lemma DefaultSchedule(k: nat)
    ensures ClosedRestart(DEFAULT_CONFIG, k) <==> k >= 3
    ensures ClosedDelay(DEFAULT_CONFIG, k)
         == if k < 3 then 1000 else if k == 3 then 2000 else if k == 4 then 5000 else if k == 5 then 10000 else 30000
    ensures DEFAULT_CONFIG.notifyIntervalMs == 7000
    ensures DEFAULT_CONFIG.thresholds
         == ChangeThresholds(pm := 50, temperature := 100, humidity := 300, co2 := 50, index := 20)
  {
  }

  // ----- The policy object -----

  class Policy {
    const config: PolicyConfig
    var latest: Measurement
    var everValid: bool
    var lastUpdateMs: int
    var lastNotified: Measurement
    var lastNotifyMs: int
    var shouldNotify: bool
    var changedMask: Mask
    var consecutiveFailures: u32
    var inBackoff: bool
    var backoffStepIndex: nat
    ghost var history: seq<Event>

    ghost function Abs(): State
      reads this
    {
      State(latest, everValid, lastUpdateMs, lastNotified, lastNotifyMs,
        shouldNotify, changedMask, consecutiveFailures, inBackoff, backoffStepIndex)
    }

    /** The fields are what the whole history of calls makes of them. */
    ghost predicate Valid()
      reads this
    {
      Abs() == Run(config, INITIAL, history) && backoffStepIndex < BACKOFF_STEPS
    }

    constructor (config: PolicyConfig)
      ensures Valid() && this.config == config && history == []
    {
      this.config := config;
      latest, everValid, lastUpdateMs := NO_MEASUREMENT, false, 0;
      lastNotified, lastNotifyMs, shouldNotify, changedMask := NO_MEASUREMENT, 0, false, {};
      consecutiveFailures, inBackoff, backoffStepIndex := 0, false, 0;
      history := [];
    }

    method OnReadResult(err: int, measurement: Measurement, nowMs: int)
      requires Valid()
      modifies this
      ensures Valid() && history == old(history) + [EventOf(err, measurement, nowMs)]
      ensures Abs() == Next(config, old(Abs()), EventOf(err, measurement, nowMs))
    {
      Receive(err, measurement, nowMs);
      history := history + [EventOf(err, measurement, nowMs)];
      assert history[..|history| - 1] == old(history);
    }

    /** OnReadResult without the bookkeeping of the ghost history. */
    method Receive(err: int, measurement: Measurement, nowMs: int)
      requires backoffStepIndex < BACKOFF_STEPS
      modifies this
      ensures Abs() == Next(config, old(Abs()), EventOf(err, measurement, nowMs))
      ensures history == old(history) && backoffStepIndex < BACKOFF_STEPS
    {
      shouldNotify := false;
      changedMask := {};

      if err != 0 {
        consecutiveFailures := Increment(consecutiveFailures);
        if consecutiveFailures >= config.failureThreshold {
          if !inBackoff {
            inBackoff := true;
            backoffStepIndex := 0;
          } else if backoffStepIndex + 1 < BACKOFF_STEPS {
            backoffStepIndex := backoffStepIndex + 1;
          }
        }
        return;
      }

      consecutiveFailures := 0;
      inBackoff := false;
      backoffStepIndex := 0;

      latest := measurement;
      lastUpdateMs := nowMs;
      if measurement.valid != {} {
        everValid := true;
      }
      EvaluateNotify(measurement);
    }

    method EvaluateNotify(taken: Measurement)
      requires !shouldNotify && changedMask == {}
      modifies this`shouldNotify, this`changedMask
      ensures shouldNotify == Worthy(config, lastNotified, lastNotifyMs, taken, lastUpdateMs)
      ensures changedMask == if shouldNotify then ChangesOf(config, lastNotified, taken) else {}
    {
      if taken.valid == {} && lastNotified.valid == {} {
        return;
      }
      var mask := Flipped(taken.valid, lastNotified.valid);
      var moved := DeltaMask(lastNotified, taken, config.thresholds);
      mask := mask + moved;
      var intervalElapsed := lastUpdateMs - lastNotifyMs >= config.notifyIntervalMs;
      if mask != {} || intervalElapsed {
        shouldNotify := true;
        changedMask := mask;
      }
    }

    method GetLatest(nowMs: int) returns (r: Reading)
      requires Valid()
      ensures r == ReadingOf(Abs(), nowMs)
      ensures r.Reading? <==> SomeValid(history)
      ensures r.Reading? ==> r == Reading(LastGood(history).m, nowMs - LastGood(history).nowMs)
    {
      HistoryIsRemembered(config, history);
      if !everValid {
        return Nothing;
      }
      return Reading(latest, nowMs - lastUpdateMs);
    }

    method MarkNotified(nowMs: int)
      requires Valid()
      modifies this
      ensures Valid() && history == old(history) + [Marked(nowMs)]
      ensures Abs() == Mark(old(Abs()), nowMs)
    {
      history := history + [Marked(nowMs)];
      assert history[..|history| - 1] == old(history);
      lastNotified := latest;
      lastNotifyMs := nowMs;
      shouldNotify := false;
      changedMask := {};
    }

    /** However long the history and however often the counter wrapped, the delay is the closed form's. */
    method NextDelayMs() returns (delay: u32)
      requires Valid()
      ensures delay == if inBackoff then config.backoffStepsMs[backoffStepIndex] else config.pollIntervalMs
      ensures WrapSafe(config) ==> delay == ClosedDelay(config, TrailingFailures(history))
    {
      if WrapSafe(config) { HistoryInStep(config, history); }
      if !inBackoff {
        return config.pollIntervalMs;
      }
      return config.backoffStepsMs[backoffStepIndex];
    }

    method NeedsRestart() returns (restart: bool)
      requires Valid()
      ensures restart == inBackoff
      ensures WrapSafe(config) ==> restart == ClosedRestart(config, TrailingFailures(history))
    {
      if WrapSafe(config) { HistoryInStep(config, history); }
      return inBackoff;
    }
  }
}
