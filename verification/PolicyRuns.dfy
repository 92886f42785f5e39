/** What the policy guarantees over whole runs. */
module PolicyRuns {
  import opened Integers
  import opened Sen66Fields
  import opened Sen66Protocol
  import opened MeasurementPolicy

  // ----- Ticks of the poll handler -----

  datatype Outcome = ReadFailed | ReadOk(m: Measurement)

  datatype Tick = Tick(outcome: Outcome, nowMs: int)

  function AfterRead(c: PolicyConfig, s: State, t: Tick): State {
    match t.outcome
    case ReadFailed => Fail(c, s)
    case ReadOk(m) => Succeed(c, s, m, t.nowMs)
  }

  /** The handler delivers a notification when the policy asks for one and has a snapshot to hand out. */
  predicate Notifies(c: PolicyConfig, s: State, t: Tick) {
    var h := AfterRead(c, s, t);
    h.shouldNotify && h.everValid
  }

  function TickState(c: PolicyConfig, s: State, t: Tick): State {
    var h := AfterRead(c, s, t);
    if Notifies(c, s, t) then Mark(h, t.nowMs) else h
  }

  function Ticks(c: PolicyConfig, s: State, ts: seq<Tick>): State
    decreases |ts|
  {
    if ts == [] then s else TickState(c, Ticks(c, s, ts[..|ts| - 1]), ts[|ts| - 1])
  }

  lemma TicksSnoc(c: PolicyConfig, s: State, ts: seq<Tick>, t: Tick)
    ensures Ticks(c, s, ts + [t]) == TickState(c, Ticks(c, s, ts), t)
  {
    assert (ts + [t])[..|ts|] == ts;
  }

  function DelayOf(c: PolicyConfig, s: State): u32 {
    if s.inBackoff then c.backoffStepsMs[Min(s.step, 3)] else c.pollIntervalMs
  }

  // ----- Ticks as calls of the policy -----

  function ReadOf(t: Tick): Event {
    match t.outcome
    case ReadFailed => Failed
    case ReadOk(m) => Succeeded(m, t.nowMs)
  }

  /** The reads of a run, and all its calls of the policy: after a notification the read is marked. */
  function Reads(ts: seq<Tick>): (es: seq<Event>)
    ensures |es| == |ts|
    decreases |ts|
  {
    if ts == [] then [] else Reads(ts[..|ts| - 1]) + [ReadOf(ts[|ts| - 1])]
  }

  function Calls(c: PolicyConfig, s: State, ts: seq<Tick>): seq<Event>
    decreases |ts|
  {
    if ts == [] then [] else
      var init, t := ts[..|ts| - 1], ts[|ts| - 1];
      var heard := Calls(c, s, init) + [ReadOf(t)];
      if Notifies(c, Ticks(c, s, init), t) then heard + [Marked(t.nowMs)] else heard
  }

  lemma RunSnoc(c: PolicyConfig, s: State, es: seq<Event>, e: Event)
    ensures Run(c, s, es + [e]) == Next(c, Run(c, s, es), e)
  {
    assert (es + [e])[..|es|] == es;
  }

  /** A run of ticks is the history of its calls, so what holds after every history holds after every run. */
  lemma {:induction false} TicksAreCalls(c: PolicyConfig, s: State, ts: seq<Tick>)
    ensures Ticks(c, s, ts) == Run(c, s, Calls(c, s, ts))
    decreases |ts|
  {
    if ts != [] {
      var init, t := ts[..|ts| - 1], ts[|ts| - 1];
      TicksAreCalls(c, s, init);
      RunSnoc(c, s, Calls(c, s, init), ReadOf(t));
      RunSnoc(c, s, Calls(c, s, init) + [ReadOf(t)], Marked(t.nowMs));
    }
  }

  // ----- What a run of ticks leaves behind -----

  /** The last successful read of a run, at first an empty measurement. */
  function LastRead(ts: seq<Tick>): Measurement { LastGood(Reads(ts)).m }

  /** The time of the last successful read of ts, or a given time if there is none. */
  function LastReadMs(ts: seq<Tick>, otherwise: int): int {
    LastGood(Reads(ts), Succeeded(NO_MEASUREMENT, otherwise)).nowMs
  }

  lemma LastGoodSnoc(es: seq<Event>, e: Event, otherwise: Event)
    requires otherwise.Succeeded?
    ensures LastGood(es + [e], otherwise) == if e.Succeeded? then e else LastGood(es, otherwise)
    ensures SomeValid(es + [e]) <==> SomeValid(es) || (e.Succeeded? && e.m.valid != {})
  {
    assert (es + [e])[..|es|] == es;
    SomeValidSnoc(es + [e]);
  }

  lemma LastReadStep(ts: seq<Tick>, otherwise: int)
    requires ts != []
    ensures var t := ts[|ts| - 1];
      LastReadMs(ts, otherwise) == if t.outcome.ReadOk? then t.nowMs else LastReadMs(ts[..|ts| - 1], otherwise)
  {
    LastGoodSnoc(Reads(ts[..|ts| - 1]), ReadOf(ts[|ts| - 1]), Succeeded(NO_MEASUREMENT, otherwise));
  }

  /** Marking leaves no trace in the reads. */
  lemma {:induction false} MarksAreNoReads(c: PolicyConfig, s: State, ts: seq<Tick>)
    ensures LastGood(Calls(c, s, ts)) == LastGood(Reads(ts))
    ensures SomeValid(Calls(c, s, ts)) <==> SomeValid(Reads(ts))
    decreases |ts|
  {
    if ts != [] {
      var init, t := ts[..|ts| - 1], ts[|ts| - 1];
      MarksAreNoReads(c, s, init);
      LastGoodSnoc(Calls(c, s, init), ReadOf(t), NEVER);
      LastGoodSnoc(Calls(c, s, init) + [ReadOf(t)], Marked(t.nowMs), NEVER);
      LastGoodSnoc(Reads(init), ReadOf(t), NEVER);
    }
  }

  /** After any run the policy holds the last successful read and its time, and knows whether any was valid. */
  lemma TicksAreRemembered(c: PolicyConfig, ts: seq<Tick>)
    ensures var s := Ticks(c, INITIAL, ts);
      && (s.everValid <==> SomeValid(Reads(ts)))
      && s.latest == LastRead(ts) && s.lastUpdateMs == LastReadMs(ts, 0)
  {
    TicksAreCalls(c, INITIAL, ts);
    HistoryIsRemembered(c, Calls(c, INITIAL, ts));
    MarksAreNoReads(c, INITIAL, ts);
  }

  // ----- Pending notifications are deliverable -----

  predicate Deliverable(s: State) {
    && (s.latest.valid != {} || s.lastNotified.valid != {} ==> s.everValid)
    && (s.shouldNotify ==> s.everValid)
  }

  /** However reads and marks are ordered, a wanted notification always has a snapshot to deliver. */
  lemma {:induction false} AlwaysDeliverable(c: PolicyConfig, es: seq<Event>, nowMs: int)
    ensures Deliverable(Run(c, INITIAL, es))
    ensures Run(c, INITIAL, es).shouldNotify ==> ReadingOf(Run(c, INITIAL, es), nowMs).Reading?
    decreases |es|
  {
    if es != [] { AlwaysDeliverable(c, es[..|es| - 1], nowMs); }
  }

  lemma {:induction false} TicksDeliverable(c: PolicyConfig, ts: seq<Tick>)
    ensures Deliverable(Ticks(c, INITIAL, ts))
    decreases |ts|
  {
    if ts != [] { TicksDeliverable(c, ts[..|ts| - 1]); }
  }

  // ----- The dead band -----

  /** Same validity, and every valid channel within its threshold. */
  predicate Quiet(t: ChangeThresholds, a: Measurement, b: Measurement) {
    && a.valid == b.valid
    && forall c: Channel :: c in a.valid ==> Distance(Raw(a, c), Raw(b, c)) < Threshold(t, c)
  }

  predicate DeadBand(c: PolicyConfig, s: State) {
    s.lastNotified == s.latest || Quiet(c.thresholds, s.lastNotified, s.latest)
  }

  /** Nothing to report means quiet, and the other way round. */
  lemma NoChangesIffQuiet(c: PolicyConfig, notified: Measurement, m: Measurement)
    ensures ChangesOf(c, notified, m) == {} <==> Quiet(c.thresholds, notified, m)
  {
    var changes := ChangesOf(c, notified, m);
    if changes == {} {
      forall k: Channel ensures k in m.valid <==> k in notified.valid { assert k !in Flipped(m.valid, notified.valid); }
      forall k: Channel | k in notified.valid
        ensures Distance(Raw(notified, k), Raw(m, k)) < Threshold(c.thresholds, k)
      {
        assert k !in MovedMask(notified, m, c.thresholds);
      }
    }
    if Quiet(c.thresholds, notified, m) {
      assert Flipped(m.valid, notified.valid) == {};
      assert MovedMask(notified, m, c.thresholds) == {};
    }
  }

  lemma TickKeepsDeadBand(c: PolicyConfig, s: State, t: Tick)
    requires DeadBand(c, s) && Deliverable(s)
    ensures DeadBand(c, TickState(c, s, t))
  {
    if t.outcome.ReadOk? { NoChangesIffQuiet(c, s.lastNotified, t.outcome.m); }
  }

  /**
   * After every tick of every run the last notified snapshot is the latest one or within every threshold
   * of it, so no drift, however slow, escapes, and failed ticks in between lose nothing.
   */
  lemma {:induction false} DeadBandAlways(c: PolicyConfig, ts: seq<Tick>)
    ensures DeadBand(c, Ticks(c, INITIAL, ts))
    decreases |ts|
  {
    if ts != [] {
      var init := ts[..|ts| - 1];
      DeadBandAlways(c, init);
      TicksDeliverable(c, init);
      TickKeepsDeadBand(c, Ticks(c, INITIAL, init), ts[|ts| - 1]);
    }
  }

  // ----- The changed mask -----

  /** The mask holds exactly the channels that flipped validity or moved by their threshold. */
  lemma ChangedMaskExact(c: PolicyConfig, notified: Measurement, m: Measurement, k: Channel)
    ensures k in ChangesOf(c, notified, m) <==>
      || (k in m.valid) != (k in notified.valid)
      || (k in m.valid && k in notified.valid && Distance(Raw(notified, k), Raw(m, k)) >= Threshold(c.thresholds, k))
  {
  }

  /**
   * After any history a pending notification names exactly the channels whose validity differs between the
   * latest and the last notified measurement or that moved by their threshold; with none pending the mask is empty.
   */
  lemma PendingMaskExact(c: PolicyConfig, es: seq<Event>, k: Channel)
    ensures var s := Run(c, INITIAL, es);
      k in s.changedMask <==>
        && s.shouldNotify
        && (|| (k in s.latest.valid) != (k in s.lastNotified.valid)
            || (&& k in s.latest.valid && k in s.lastNotified.valid
                && Distance(Raw(s.lastNotified, k), Raw(s.latest, k)) >= Threshold(c.thresholds, k)))
  {
    if es != [] {
      var before, e := Run(c, INITIAL, es[..|es| - 1]), es[|es| - 1];
      if e.Succeeded? { ChangedMaskExact(c, before.lastNotified, e.m, k); }
    }
  }

  /** A change of exactly the threshold counts, one less does not. */
  lemma ThresholdIsInclusive(c: PolicyConfig, notified: Measurement, m: Measurement, k: Channel)
    requires k in m.valid && k in notified.valid
    ensures Distance(Raw(notified, k), Raw(m, k)) == Threshold(c.thresholds, k) ==> k in ChangesOf(c, notified, m)
    ensures Distance(Raw(notified, k), Raw(m, k)) == Threshold(c.thresholds, k) - 1 ==> k !in ChangesOf(c, notified, m)
  {
    ChangedMaskExact(c, notified, m, k);
  }

  // ----- What a subscriber knows -----

  /** One call of the update callback. */
  datatype Update = Update(latest: Measurement, changedMask: Mask)

  /** The calls that a tick makes. */
  function UpdatesOf(c: PolicyConfig, s: State, t: Tick, registered: bool): seq<Update> {
    if registered && Notifies(c, s, t)
    then [Update(AfterRead(c, s, t).latest, AfterRead(c, s, t).changedMask)]
    else []
  }

  /** The calls that a run makes to a subscriber registered all along. */
  function AllUpdates(c: PolicyConfig, ts: seq<Tick>): seq<Update>
    decreases |ts|
  {
    if ts == [] then [] else
      var init := ts[..|ts| - 1];
      AllUpdates(c, init) + UpdatesOf(c, Ticks(c, INITIAL, init), ts[|ts| - 1], true)
  }

  /**
   * A tick calls a registered subscriber at most once, and nobody else, with the read just made and exactly
   * the channels in which it differs from the last notified one.
   */
  lemma UpdateIsExact(c: PolicyConfig, s: State, t: Tick, registered: bool, k: Channel)
    ensures var us := UpdatesOf(c, s, t, registered);
      && |us| == Bit(registered && Notifies(c, s, t))
      && (us != [] ==>
            && t.outcome == ReadOk(us[0].latest)
            && (k in us[0].changedMask <==>
                  || (k in t.outcome.m.valid) != (k in s.lastNotified.valid)
                  || (&& k in t.outcome.m.valid && k in s.lastNotified.valid
                      && Distance(Raw(s.lastNotified, k), Raw(t.outcome.m, k)) >= Threshold(c.thresholds, k))))
  {
    if t.outcome.ReadOk? { ChangedMaskExact(c, s.lastNotified, t.outcome.m, k); }
  }

  /** The validity in the hands of a subscriber that copies only the bits that the calls name. */
  function View(us: seq<Update>): Mask
    decreases |us|
  {
    if us == [] then {} else
      var u, view := us[|us| - 1], View(us[..|us| - 1]);
      (view - u.changedMask) + (u.latest.valid * u.changedMask)
  }

  /** The value of a channel in the hands of one that copies only the values that the calls name. */
  function ValueView(us: seq<Update>, k: Channel): int
    decreases |us|
  {
    if us == [] then 0
    else if k in us[|us| - 1].changedMask then Raw(us[|us| - 1].latest, k)
    else ValueView(us[..|us| - 1], k)
  }

  lemma ViewStep(c: PolicyConfig, ts: seq<Tick>, k: Channel)
    requires ts != []
    ensures var init, t := ts[..|ts| - 1], ts[|ts| - 1];
      var before, us := Ticks(c, INITIAL, init), AllUpdates(c, init);
      if Notifies(c, before, t) then
        var h := AfterRead(c, before, t);
        && View(AllUpdates(c, ts)) == (View(us) - h.changedMask) + (h.latest.valid * h.changedMask)
        && ValueView(AllUpdates(c, ts), k) == (if k in h.changedMask then Raw(h.latest, k) else ValueView(us, k))
      else AllUpdates(c, ts) == us
  {
    var init, t := ts[..|ts| - 1], ts[|ts| - 1];
    if Notifies(c, Ticks(c, INITIAL, init), t) {
      assert AllUpdates(c, ts)[..|AllUpdates(c, init)|] == AllUpdates(c, init);
    }
  }

  /** The masked validity is always that of the last notified measurement. */
  lemma {:induction false} SubscriberHoldsValidity(c: PolicyConfig, ts: seq<Tick>)
    ensures View(AllUpdates(c, ts)) == Ticks(c, INITIAL, ts).lastNotified.valid
    decreases |ts|
  {
    if ts != [] {
      SubscriberHoldsValidity(c, ts[..|ts| - 1]);
      ViewStep(c, ts, Co2);
    }
  }

  /** The copy is the value that was last notified. */
  ghost predicate CopyIsCurrent(c: PolicyConfig, k: Channel, ts: seq<Tick>) {
    var notified := Ticks(c, INITIAL, ts).lastNotified;
    k in notified.valid ==> ValueView(AllUpdates(c, ts), k) == Raw(notified, k)
  }

  /** With a threshold of at most one, a valid channel that is not named has not moved at all. */
  lemma UnnamedIsUnmoved(c: PolicyConfig, notified: Measurement, m: Measurement, k: Channel)
    requires Threshold(c.thresholds, k) <= 1 && k !in ChangesOf(c, notified, m) && k in m.valid
    ensures k in notified.valid && Raw(m, k) == Raw(notified, k)
  {
    ChangedMaskExact(c, notified, m, k);
  }

  lemma {:induction false} CopyStaysCurrent(c: PolicyConfig, k: Channel, ts: seq<Tick>)
    requires Threshold(c.thresholds, k) <= 1
    ensures CopyIsCurrent(c, k, ts)
    decreases |ts|
  {
    if ts != [] {
      var init, t := ts[..|ts| - 1], ts[|ts| - 1];
      CopyStaysCurrent(c, k, init);
      ViewStep(c, ts, k);
      var before := Ticks(c, INITIAL, init);
      if Notifies(c, before, t) && k in t.outcome.m.valid && k !in AfterRead(c, before, t).changedMask {
        UnnamedIsUnmoved(c, before.lastNotified, t.outcome.m, k);
      }
    }
  }

  /** A measurement with a single valid channel. */
  function Only(k: Channel, x: int): (m: Measurement)
    requires 0 <= x < 0x8000
    ensures m.valid == {k} && Raw(m, k) == x
  {
    var m := NO_MEASUREMENT.(valid := {k});
    match k
    case Pm1p0 => m.(pm1p0 := x)
    case Pm2p5 => m.(pm2p5 := x)
    case Pm4p0 => m.(pm4p0 := x)
    case Pm10 => m.(pm10 := x)
    case Humidity => m.(humidity := x)
    case Temperature => m.(temperature := x)
    case VocIndex => m.(vocIndex := x)
    case NoxIndex => m.(noxIndex := x)
    case Co2 => m.(co2 := x)
  }

  /** A first value, and a heartbeat that brings the next one. */
  function Creep(c: PolicyConfig, k: Channel): seq<Tick> {
    [Tick(ReadOk(Only(k, 0)), 0), Tick(ReadOk(Only(k, 1)), c.notifyIntervalMs)]
  }

  lemma CreepEscapes(c: PolicyConfig, k: Channel)
    requires Threshold(c.thresholds, k) > 1
    ensures !CopyIsCurrent(c, k, Creep(c, k))
  {
    var ts, first, second := Creep(c, k), Only(k, 0), Only(k, 1);
    assert ts[..1] == [ts[0]] && ts[..1][..0] == [];
    ChangedMaskExact(c, NO_MEASUREMENT, first, k);
    assert Ticks(c, INITIAL, ts[..1]).lastNotified == first && Ticks(c, INITIAL, ts[..1]).lastNotifyMs == 0;
    ViewStep(c, ts[..1], k);
    ViewStep(c, ts, k);
    assert Quiet(c.thresholds, first, second);
    NoChangesIffQuiet(c, first, second);
  }

  /**
   * For values the mask is enough exactly when the channel's threshold is at most one: above that, a
   * heartbeat moves the reference without naming the channel, and the copy stays behind.
   */
  lemma MaskSufficesForValuesIff(c: PolicyConfig, k: Channel)
    ensures (forall ts: seq<Tick> :: CopyIsCurrent(c, k, ts)) <==> Threshold(c.thresholds, k) <= 1
  {
    if Threshold(c.thresholds, k) <= 1 {
      forall ts: seq<Tick> ensures CopyIsCurrent(c, k, ts) { CopyStaysCurrent(c, k, ts); }
    } else {
      CreepEscapes(c, k);
    }
  }

  // ----- When notifications come -----

  datatype Notification = Notification(atMs: int, changed: Mask)

  /** The notifications of a run, in order. */
  function Notifications(c: PolicyConfig, ts: seq<Tick>): seq<Notification>
    decreases |ts|
  {
    if ts == [] then [] else
      var init, t := ts[..|ts| - 1], ts[|ts| - 1];
      var before := Ticks(c, INITIAL, init);
      Notifications(c, init)
        + if Notifies(c, before, t) then [Notification(t.nowMs, AfterRead(c, before, t).changedMask)] else []
  }

  function PreviousMs(ns: seq<Notification>, i: nat): int
    requires i <= |ns|
  {
    if i == 0 then 0 else ns[i - 1].atMs
  }

  /** A heartbeat, a notification that names no channel, is never early. */
  lemma {:induction false} HeartbeatSpacing(c: PolicyConfig, ts: seq<Tick>)
    ensures var ns := Notifications(c, ts);
      && Ticks(c, INITIAL, ts).lastNotifyMs == PreviousMs(ns, |ns|)
      && forall i: nat :: i < |ns| && ns[i].changed == {} ==> ns[i].atMs - PreviousMs(ns, i) >= c.notifyIntervalMs
    decreases |ts|
  {
    if ts != [] {
      var init := ts[..|ts| - 1];
      HeartbeatSpacing(c, init);
      var ns, ms := Notifications(c, ts), Notifications(c, init);
      forall i: nat | i < |ns| && ns[i].changed == {}
        ensures ns[i].atMs - PreviousMs(ns, i) >= c.notifyIntervalMs
      {
        if i < |ms| { assert ns[i] == ms[i] && PreviousMs(ns, i) == PreviousMs(ms, i); }
      }
    }
  }

  /** A read that the policy may not ignore: it or the last notified snapshot has a valid channel. */
  predicate Audible(s: State, t: Tick) {
    t.outcome.ReadOk? ==> t.outcome.m.valid != {} || s.lastNotified.valid != {}
  }

  /** With the interval elapsed, a successful read notifies exactly when it is audible. */
  lemma HeartbeatIff(c: PolicyConfig, s: State, t: Tick)
    requires Deliverable(s) && t.outcome.ReadOk? && t.nowMs - s.lastNotifyMs >= c.notifyIntervalMs
    ensures Notifies(c, s, t) <==> Audible(s, t)
  {
  }

  /** No tick of ts notifies. */
  ghost predicate Silent(c: PolicyConfig, s: State, ts: seq<Tick>) {
    forall i: nat :: i < |ts| ==> !Notifies(c, Ticks(c, s, ts[..i]), ts[i])
  }

  lemma SilentTick(c: PolicyConfig, s: State, t: Tick)
    requires Deliverable(s) && Audible(s, t) && !Notifies(c, s, t)
    ensures var r := TickState(c, s, t);
      Deliverable(r) && r.lastNotified == s.lastNotified && r.lastNotifyMs == s.lastNotifyMs
    ensures t.outcome.ReadOk? ==> t.nowMs - s.lastNotifyMs < c.notifyIntervalMs
  {
  }

  lemma {:induction false} SilentStretch(c: PolicyConfig, s: State, ts: seq<Tick>)
    requires Deliverable(s) && Silent(c, s, ts)
    requires forall i: nat :: i < |ts| ==> Audible(s, ts[i])
    ensures Deliverable(Ticks(c, s, ts))
    ensures Ticks(c, s, ts).lastNotified == s.lastNotified && Ticks(c, s, ts).lastNotifyMs == s.lastNotifyMs
    ensures LastReadMs(ts, s.lastNotifyMs) <= s.lastNotifyMs + Max(c.notifyIntervalMs - 1, 0)
    decreases |ts|
  {
    if ts != [] {
      var n := |ts| - 1;
      var init := ts[..n];
      assert Silent(c, s, init) by {
        forall i: nat | i < n ensures !Notifies(c, Ticks(c, s, init[..i]), init[i]) { assert init[..i] == ts[..i]; }
      }
      SilentStretch(c, s, init);
      SilentTick(c, Ticks(c, s, init), ts[n]);
      LastReadStep(ts, s.lastNotifyMs);
    }
  }

  /**
   * Along successful reads at most P apart, failed ticks in between or not, the next notification comes
   * within the interval plus P of the last one, as long as there is something valid to report.
   */
  lemma NotificationGap(c: PolicyConfig, s: State, quiet: seq<Tick>, next: Tick, P: nat)
    requires Deliverable(s) && Silent(c, s, quiet)
    requires forall i: nat :: i < |quiet| ==> Audible(s, quiet[i])
    requires next.outcome.ReadOk? && next.nowMs <= LastReadMs(quiet, s.lastNotifyMs) + P
    ensures next.nowMs - s.lastNotifyMs <= Max(c.notifyIntervalMs - 1, 0) + P
    ensures Audible(s, next) && next.nowMs - s.lastNotifyMs >= c.notifyIntervalMs ==>
      Notifies(c, Ticks(c, s, quiet), next)
  {
    SilentStretch(c, s, quiet);
    if next.nowMs - s.lastNotifyMs >= c.notifyIntervalMs { HeartbeatIff(c, Ticks(c, s, quiet), next); }
  }

  /** The i-th tick, if it reads after the first notification, is audible and at most P after the read before. */
  predicate LivelyAt(c: PolicyConfig, ts: seq<Tick>, i: nat, P: nat)
    requires i < |ts|
  {
    Notifications(c, ts[..i]) != [] && ts[i].outcome.ReadOk? ==>
      Audible(Ticks(c, INITIAL, ts[..i]), ts[i]) && ts[i].nowMs <= LastReadMs(ts[..i], 0) + P
  }

  ghost predicate Lively(c: PolicyConfig, ts: seq<Tick>, P: nat) {
    forall i: nat :: i < |ts| ==> LivelyAt(c, ts, i, P)
  }

  lemma LivelyPrefix(c: PolicyConfig, ts: seq<Tick>, P: nat)
    requires ts != [] && Lively(c, ts, P)
    ensures Lively(c, ts[..|ts| - 1], P)
  {
    var init := ts[..|ts| - 1];
    forall i: nat | i < |init| ensures LivelyAt(c, init, i, P) {
      assert LivelyAt(c, ts, i, P);
      assert init[..i] == ts[..i] && init[i] == ts[i];
    }
  }

  /** A successful read that comes a whole interval after the last notification notifies. */
  lemma LivelyTick(c: PolicyConfig, s: State, t: Tick, readMs: int, P: nat)
    requires Deliverable(s) && readMs <= s.lastNotifyMs + Max(c.notifyIntervalMs - 1, 0)
    requires t.outcome.ReadOk? ==> Audible(s, t) && t.nowMs <= readMs + P
    ensures Notifies(c, s, t) ==> t.nowMs <= s.lastNotifyMs + Max(c.notifyIntervalMs - 1, 0) + P
    ensures t.outcome.ReadOk? ==> t.nowMs <= TickState(c, s, t).lastNotifyMs + Max(c.notifyIntervalMs - 1, 0)
    ensures t.outcome.ReadFailed? ==> TickState(c, s, t).lastNotifyMs == s.lastNotifyMs && !Notifies(c, s, t)
  {
  }

  lemma AddNotification(c: PolicyConfig, ts: seq<Tick>)
    requires ts != []
    ensures var init, t := ts[..|ts| - 1], ts[|ts| - 1];
      var ms, ns := Notifications(c, init), Notifications(c, ts);
      if Notifies(c, Ticks(c, INITIAL, init), t) then |ns| == |ms| + 1 && ns[..|ms|] == ms && ns[|ms|].atMs == t.nowMs
      else ns == ms
  {
  }

  lemma FirstNotification(c: PolicyConfig, s: State, t: Tick)
    requires Notifies(c, s, t)
    ensures t.outcome.ReadOk? && TickState(c, s, t).lastNotifyMs == t.nowMs
  {
  }

  /** Consecutive notifications at most a given gap apart. */
  ghost predicate Spaced(ns: seq<Notification>, gap: int) {
    forall i: nat :: 0 < i < |ns| ==> ns[i].atMs - ns[i - 1].atMs <= gap
  }

  lemma SpacedSnoc(ms: seq<Notification>, ns: seq<Notification>, gap: int)
    requires Spaced(ms, gap) && |ns| == |ms| + 1 && ns[..|ms|] == ms
    requires ms != [] ==> ns[|ms|].atMs - ms[|ms| - 1].atMs <= gap
    ensures Spaced(ns, gap)
  {
    forall i: nat | 0 < i < |ns| ensures ns[i].atMs - ns[i - 1].atMs <= gap {
      assert ns[i - 1] == ms[i - 1];
      if i < |ms| { assert ns[i] == ms[i]; }
    }
  }

  lemma LivelyLast(c: PolicyConfig, ts: seq<Tick>, P: nat)
    requires ts != [] && Lively(c, ts, P) && Notifications(c, ts[..|ts| - 1]) != []
    ensures var init, t := ts[..|ts| - 1], ts[|ts| - 1];
      t.outcome.ReadOk? ==> Audible(Ticks(c, INITIAL, init), t) && t.nowMs <= LastReadMs(init, 0) + P
  {
    assert LivelyAt(c, ts, |ts| - 1, P);
  }

  /** The last tick of a lively run: what it adds to the notifications is in time. */
  lemma LastTickInTime(c: PolicyConfig, ts: seq<Tick>, P: nat)
    requires ts != [] && Lively(c, ts, P)
    requires var init := ts[..|ts| - 1];
      var ms := Notifications(c, init);
      ms != [] ==> LastReadMs(init, 0) - ms[|ms| - 1].atMs <= Max(c.notifyIntervalMs - 1, 0)
    ensures var ms, ns := Notifications(c, ts[..|ts| - 1]), Notifications(c, ts);
      && (|ns| > |ms| > 0 ==> ns[|ms|].atMs - ms[|ms| - 1].atMs <= Max(c.notifyIntervalMs - 1, 0) + P)
      && (ns != [] ==> LastReadMs(ts, 0) - ns[|ns| - 1].atMs <= Max(c.notifyIntervalMs - 1, 0))
  {
    var init, t := ts[..|ts| - 1], ts[|ts| - 1];
    var s, ms := Ticks(c, INITIAL, init), Notifications(c, init);
    AddNotification(c, ts);
    LastReadStep(ts, 0);
    if ms != [] {
      assert s.lastNotifyMs == ms[|ms| - 1].atMs by { HeartbeatSpacing(c, init); }
      assert Deliverable(s) by { TicksDeliverable(c, init); }
      LivelyLast(c, ts, P);
      LivelyTick(c, s, t, LastReadMs(init, 0), P);
    } else if Notifies(c, s, t) {
      FirstNotification(c, s, t);
    }
  }

  lemma SpacingStep(c: PolicyConfig, ts: seq<Tick>, gap: int)
    requires ts != []
    requires var ms, ns := Notifications(c, ts[..|ts| - 1]), Notifications(c, ts);
      Spaced(ms, gap) && (|ns| > |ms| > 0 ==> ns[|ms|].atMs - ms[|ms| - 1].atMs <= gap)
    ensures Spaced(Notifications(c, ts), gap)
  {
    var ms, ns := Notifications(c, ts[..|ts| - 1]), Notifications(c, ts);
    AddNotification(c, ts);
    if |ns| > |ms| { SpacedSnoc(ms, ns, gap); }
  }

  /**
   * In a lively run consecutive notifications are at most the interval less one plus P apart, and after the
   * last one no read has gone by that should have notified.
   */
  lemma {:induction false} NotificationSpacing(c: PolicyConfig, ts: seq<Tick>, P: nat)
    requires Lively(c, ts, P)
    ensures var ns := Notifications(c, ts);
      && Spaced(ns, Max(c.notifyIntervalMs - 1, 0) + P)
      && (ns != [] ==> LastReadMs(ts, 0) - ns[|ns| - 1].atMs <= Max(c.notifyIntervalMs - 1, 0))
    decreases |ts|
  {
    if ts != [] {
      var init := ts[..|ts| - 1];
      LivelyPrefix(c, ts, P);
      NotificationSpacing(c, init, P);
      LastTickInTime(c, ts, P);
      SpacingStep(c, ts, Max(c.notifyIntervalMs - 1, 0) + P);
    }
  }

  lemma SilentSnoc(c: PolicyConfig, s: State, ts: seq<Tick>)
    requires ts != [] && Silent(c, s, ts[..|ts| - 1])
    requires !Notifies(c, Ticks(c, s, ts[..|ts| - 1]), ts[|ts| - 1])
    ensures Silent(c, s, ts)
  {
    var init := ts[..|ts| - 1];
    forall i: nat | i < |ts| ensures !Notifies(c, Ticks(c, s, ts[..i]), ts[i]) {
      if i < |init| { assert ts[..i] == init[..i] && ts[i] == init[i]; }
    }
  }

  /** Neither a failed tick nor an all-invalid read says anything to an all-invalid reference. */
  lemma InvalidTick(c: PolicyConfig, s: State, t: Tick)
    requires s.lastNotified.valid == {} && (t.outcome.ReadFailed? || t.outcome.m.valid == {})
    ensures !Notifies(c, s, t) && TickState(c, s, t).lastNotified == s.lastNotified
  {
  }

  /**
   * The documented unconditional heartbeat does not hold: once an all-invalid snapshot has been notified,
   * all-invalid reads and failures are silent for ever, at any times.
   */
  lemma {:induction false} AllInvalidIsSilent(c: PolicyConfig, s: State, ts: seq<Tick>)
    requires s.lastNotified.valid == {}
    requires forall i: nat :: i < |ts| ==> ts[i].outcome.ReadFailed? || ts[i].outcome.m.valid == {}
    ensures Silent(c, s, ts) && Ticks(c, s, ts).lastNotified == s.lastNotified
    decreases |ts|
  {
    if ts != [] {
      var n := |ts| - 1;
      AllInvalidIsSilent(c, s, ts[..n]);
      InvalidTick(c, Ticks(c, s, ts[..n]), ts[n]);
      SilentSnoc(c, s, ts);
    }
  }

  /** Such a state is reached by losing every channel after a first valid read. */
  lemma SilenceIsReachable(c: PolicyConfig)
    ensures var s := Ticks(c, INITIAL, [Tick(ReadOk(Only(Co2, 400)), 0), Tick(ReadOk(NO_MEASUREMENT), 1)]);
      s.lastNotified == NO_MEASUREMENT && s.lastNotifyMs == 1 && s.everValid
  {
    var ts := [Tick(ReadOk(Only(Co2, 400)), 0), Tick(ReadOk(NO_MEASUREMENT), 1)];
    assert ts[..1] == [ts[0]] && ts[..1][..0] == [];
    ChangedMaskExact(c, NO_MEASUREMENT, Only(Co2, 400), Co2);
    assert Ticks(c, INITIAL, ts[..1]).lastNotified == Only(Co2, 400);
    ChangedMaskExact(c, Only(Co2, 400), NO_MEASUREMENT, Co2);
  }
}
