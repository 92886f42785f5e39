/** The measurement service (src/measurement_service/measurement_service.cpp) as one thread runs it. */
module MeasurementService {
  import opened Integers
  import opened Sen66Crc
  import opened Sen66Protocol
  import opened Sen66Driver
  import opened MeasurementPolicy
  import opened PolicyRuns
  import opened Pacing
  import opened MatterAdapter
  import opened Publication

  /** What the bus gives a tick: a restart that fails keeps it from reading. */
  function BusOf(restart: bool, startErr: int, x: Exchange): Bus {
    if (restart && startErr != 0) || !Transferred(x) then BusError else Frame(x.raw)
  }

  function TickOf(restart: bool, startErr: int, x: Exchange, nowMs: int): Tick {
    Tick(OutcomeOf(BusOf(restart, startErr, x)), nowMs)
  }

  /** A tick reads exactly when no restart is due or it succeeded, both transfers worked and every CRC fits. */
  lemma TickReads(restart: bool, startErr: int, x: Exchange, nowMs: int)
    requires |x.raw| == MEASUREMENT_BYTES
    ensures TickOf(restart, startErr, x, nowMs) == Tick(
      if (restart && startErr != 0) || x.sendErr != 0 || x.recvErr != 0 || !WordsOk(x.raw, 9) then ReadFailed
      else ReadOk(Decode(WordsOf(x.raw))), nowMs)
  {
  }

  /** What the last tick of a run published. */
  function PublishedAfter(c: PolicyConfig, ts: seq<Tick>): Snapshot {
    if ts == [] then NO_SNAPSHOT
    else
      var t := ts[|ts| - 1];
      SnapshotOf(AfterRead(c, Ticks(c, INITIAL, ts[..|ts| - 1]), t), t.nowMs)
  }

  lemma MarkKeepsReading(c: PolicyConfig, s: State, t: Tick)
    ensures SnapshotOf(AfterRead(c, s, t), t.nowMs) == SnapshotOf(TickState(c, s, t), t.nowMs)
  {
  }

  /** It is the last successful read with its age at the last tick, or empty before the first valid channel. */
  lemma PublishedIsLastRead(c: PolicyConfig, ts: seq<Tick>)
    ensures var x := PublishedAfter(c, ts);
      && (x.everValid <==> SomeValid(Reads(ts)))
      && (x.everValid ==> ts != [] && x == Snapshot(LastRead(ts), ts[|ts| - 1].nowMs - LastReadMs(ts, 0), true))
      && (!x.everValid ==> x == NO_SNAPSHOT)
  {
    TicksAreRemembered(c, ts);
    if ts != [] { MarkKeepsReading(c, Ticks(c, INITIAL, ts[..|ts| - 1]), ts[|ts| - 1]); }
  }

  /** What one more tick adds to a run. */
  lemma TickHandled(c: PolicyConfig, ts: seq<Tick>, t: Tick)
    ensures var s := Ticks(c, INITIAL, ts);
      && Ticks(c, INITIAL, ts + [t]) == TickState(c, s, t)
      && PublishedAfter(c, ts + [t]) == SnapshotOf(AfterRead(c, s, t), t.nowMs)
      && TotalWait(c, INITIAL, ts + [t]) == TotalWait(c, INITIAL, ts) + DelayOf(c, TickState(c, s, t))
      && Restarts(c, INITIAL, ts + [t]) == Restarts(c, INITIAL, ts) + Bit(s.inBackoff)
  {
    TicksSnoc(c, INITIAL, ts, t);
    SumsSnoc(c, INITIAL, ts, t);
    assert (ts + [t])[..|ts|] == ts;
  }

  lemma EventsInOrder(record: seq<BusEvent>, restart: bool, startErr: int, x: Exchange)
    ensures record + RestartEvents(restart, startErr) + ReadEvents(restart, startErr, x)
         == record + HandlerEvents(restart, startErr, x)
  {
  }

  /** An error code and a measurement that stand for an outcome. */
  predicate Brings(o: Outcome, err: int, measurement: Measurement) {
    match o
    case ReadFailed => err != 0
    case ReadOk(m) => err == 0 && measurement == m
  }

  lemma OutcomeWithRestart(restart: bool, startErr: int, x: Exchange)
    ensures OutcomeOf(BusOf(restart, startErr, x))
         == if restart && startErr != 0 then ReadFailed else OutcomeOf(BusOf(false, 0, x))
  {
  }

  /** A reading that the driver answers with a measurement is a good frame, and the other way round. */
  lemma AnswerIsOutcome(x: Exchange)
    requires |x.raw| == MEASUREMENT_BYTES
    ensures match AnswerOf(ReadMeasuredValues, x)
      case Measured(m) => OutcomeOf(BusOf(false, 0, x)) == ReadOk(m)
      case Failure(err) => err != 0 && OutcomeOf(BusOf(false, 0, x)) == ReadFailed
      case _ => false
  {
  }

  function RestartEvents(restart: bool, startErr: int): seq<BusEvent> {
    if restart then EventsOf(StartMeasurement, Exchange(startErr, 0, [])) else []
  }

  function ReadEvents(restart: bool, startErr: int, x: Exchange): seq<BusEvent> {
    if restart && startErr != 0 then [] else EventsOf(ReadMeasuredValues, x)
  }

  /** What a tick does on the bus: a restart in backoff, and a read unless the restart fails. */
  function HandlerEvents(restart: bool, startErr: int, x: Exchange): seq<BusEvent> {
    RestartEvents(restart, startErr) + ReadEvents(restart, startErr, x)
  }

  const START_BYTES: Bytes := [0x00, 0x21]
  const STOP_BYTES: Bytes := [0x01, 0x04]
  const READ_BYTES: Bytes := [0x03, 0x00]

  /** The commands of a tick, as bytes: a start iff a restart is due, a read unless that fails, and no stop. */
  lemma HandlerWrites(restart: bool, startErr: int, x: Exchange)
    ensures Writes(HandlerEvents(restart, startErr, x), [0x00, 0x21]) == Bit(restart)
    ensures Writes(HandlerEvents(restart, startErr, x), [0x03, 0x00]) == Bit(!(restart && startErr != 0))
    ensures Writes(HandlerEvents(restart, startErr, x), [0x01, 0x04]) == 0
    ensures restart ==> |HandlerEvents(restart, startErr, x)| > 1
    ensures restart ==> HandlerEvents(restart, startErr, x)[1] == Wrote([0x00, 0x21], startErr == 0)
  {
    CommandsInFull();
    PartWrites(restart, startErr, x, START_BYTES);
    PartWrites(restart, startErr, x, READ_BYTES);
    PartWrites(restart, startErr, x, STOP_BYTES);
    if restart {
      var e := EventsOf(StartMeasurement, Exchange(startErr, 0, []));
      assert HandlerEvents(restart, startErr, x)[1] == e[1];
    }
  }

  lemma PartWrites(restart: bool, startErr: int, x: Exchange, bytes: Bytes)
    ensures Writes(HandlerEvents(restart, startErr, x), bytes)
         == Bit(restart && bytes == CommandBytes(StartMeasurement))
            + Bit(!(restart && startErr != 0) && bytes == CommandBytes(ReadMeasuredValues))
  {
    WritesConcat(RestartEvents(restart, startErr), ReadEvents(restart, startErr, x), bytes);
    WritesOfExchange(StartMeasurement, Exchange(startErr, 0, []), bytes);
    WritesOfExchange(ReadMeasuredValues, x, bytes);
  }

  /** A record with one start command for service start-up and one for every restart, and no stop command. */
  ghost predicate StartsMatch(es: seq<BusEvent>, c: PolicyConfig, ts: seq<Tick>) {
    && Writes(es, START_BYTES) == 1 + Restarts(c, INITIAL, ts)
    && Writes(es, STOP_BYTES) == 0
  }

  lemma StartsStillMatch(es: seq<BusEvent>, c: PolicyConfig, ts: seq<Tick>, t: Tick, startErr: int, x: Exchange)
    requires StartsMatch(es, c, ts)
    ensures StartsMatch(es + HandlerEvents(Ticks(c, INITIAL, ts).inBackoff, startErr, x), c, ts + [t])
  {
    var restart := Ticks(c, INITIAL, ts).inBackoff;
    HandlerWrites(restart, startErr, x);
    WritesConcat(es, HandlerEvents(restart, startErr, x), START_BYTES);
    WritesConcat(es, HandlerEvents(restart, startErr, x), STOP_BYTES);
    SumsSnoc(c, INITIAL, ts, t);
  }

  lemma StartsMatchAtFirst(c: PolicyConfig, startErr: int, ts: seq<Tick>)
    requires |ts| <= 1
    ensures StartsMatch(EventsOf(StartMeasurement, Exchange(startErr, 0, [])), c, ts)
  {
    CommandsInFull();
    WritesOfExchange(StartMeasurement, Exchange(startErr, 0, []), START_BYTES);
    WritesOfExchange(StartMeasurement, Exchange(startErr, 0, []), STOP_BYTES);
    if ts != [] { assert ts[..0] == []; }
  }

  /** A run of no tick or one failed tick leaves nothing to publish. */
  lemma FirstTicks(c: PolicyConfig, ts: seq<Tick>)
    requires ts == [] || (|ts| == 1 && ts[0].outcome.ReadFailed?)
    ensures Ticks(c, INITIAL, ts) == if ts == [] then INITIAL else Fail(c, INITIAL)
    ensures PublishedAfter(c, ts) == NO_SNAPSHOT
  {
    if ts != [] { assert ts[..0] == []; }
  }

  lemma FirstWrite(startErr: int)
    ensures var es := EventsOf(StartMeasurement, Exchange(startErr, 0, []));
      |es| > 1 && es[1] == Wrote([0x00, 0x21], startErr == 0)
  {
    CommandsInFull();
  }

  class Service {
    const policy: Policy
    const bus: I2cBus
    var snapshot: Snapshot
    var registered: bool
    var updates: seq<Update>
    ghost var ticks: seq<Tick>

    /**
     * Policy and snapshot are where the ticks so far, run one after the other, have taken them, and the sensor
     * was started once and restarted as often as the ticks demand.
     */
    ghost predicate Valid()
      reads this, policy, bus
    {
      && policy.Valid() && policy.Abs() == Ticks(policy.config, INITIAL, ticks)
      && snapshot == PublishedAfter(policy.config, ticks)
      && StartsMatch(bus.events, policy.config, ticks)
    }

    /** Start-up; the error is that of the first start-measurement command. */
    constructor (config: PolicyConfig, startErr: int, nowMs: int)
      ensures Valid() && fresh(policy) && fresh(bus) && policy.config == config
      ensures bus.events == EventsOf(StartMeasurement, Exchange(startErr, 0, []))
      ensures snapshot == NO_SNAPSHOT && !registered && updates == []
      ensures ticks == if startErr != 0 then [Tick(ReadFailed, nowMs)] else []
      ensures bus.events[1] == Wrote([0x00, 0x21], startErr == 0)
    {
      policy := new Policy(config);
      bus := new I2cBus();
      snapshot, registered, updates, ticks := NO_SNAPSHOT, false, [], [];
      new;
      var err := bus.StartOrStop(StartMeasurement, Exchange(startErr, 0, []));
      ghost var es := EventsOf(StartMeasurement, Exchange(startErr, 0, []));
      assert bus.events == es by { assert [] + es == es; }
      if err != 0 {
        policy.OnReadResult(err, NO_MEASUREMENT, nowMs);
        ticks := [Tick(ReadFailed, nowMs)];
      }
      FirstTicks(config, ticks);
      StartsMatchAtFirst(config, startErr, ticks);
      FirstWrite(startErr);
    }

    method RegisterUpdateCallback()
      requires Valid()
      modifies this`registered
      ensures Valid() && registered
    {
      registered := true;
    }

    method PublishSnapshot(nowMs: int)
      requires policy.Valid()
      modifies this`snapshot
      ensures snapshot == SnapshotOf(policy.Abs(), nowMs)
    {
      var r := policy.GetLatest(nowMs);
      match r {
        case Nothing => snapshot := NO_SNAPSHOT;
        case Reading(latest, ageMs) =>
          snapshot := snapshot.(measurement := latest);
          snapshot := snapshot.(ageMs := ageMs);
          snapshot := snapshot.(everValid := true);
      }
    }

    /** The last successful read, aged up to the last tick, once any read had a valid channel. */
    method GetLatest() returns (out: Snapshot, ok: bool)
      requires Valid()
      ensures ok <==> SomeValid(Reads(ticks))
      ensures ok ==> ticks != []
      ensures ok ==> out == Snapshot(LastRead(ticks), ticks[|ticks| - 1].nowMs - LastReadMs(ticks, 0), true)
      ensures !ok ==> out == NO_SNAPSHOT
    {
      PublishedIsLastRead(policy.config, ticks);
      out := snapshot;
      ok := out.everValid;
    }

    /** Restart the sensor if the policy asks for it. */
    method Restart(restart: bool, startErr: int) returns (err: int)
      modifies bus
      ensures err == if restart then startErr else 0
      ensures bus.events == old(bus.events) + RestartEvents(restart, startErr)
    {
      err := 0;
      if restart {
        err := bus.StartOrStop(StartMeasurement, Exchange(startErr, 0, []));
      }
    }

    method Read(x: Exchange) returns (err: int, measurement: Measurement)
      requires |x.raw| == MEASUREMENT_BYTES
      modifies bus
      ensures Brings(OutcomeOf(BusOf(false, 0, x)), err, measurement)
      ensures bus.events == old(bus.events) + EventsOf(ReadMeasuredValues, x)
    {
      var out := new MeasurementRef(NO_MEASUREMENT);
      err := bus.ReadMeasurement(x, out);
      measurement := out.value;
      AnswerIsOutcome(x);
    }

    /** Restart the sensor if the policy asks for it, then read it. */
    method ReadSensor(restart: bool, startErr: int, x: Exchange) returns (err: int, measurement: Measurement)
      requires |x.raw| == MEASUREMENT_BYTES
      modifies bus
      ensures Brings(OutcomeOf(BusOf(restart, startErr, x)), err, measurement)
      ensures bus.events == old(bus.events) + HandlerEvents(restart, startErr, x)
    {
      measurement := NO_MEASUREMENT;
      err := Restart(restart, startErr);
      if err == 0 {
        err, measurement := Read(x);
      }
      assert bus.events == old(bus.events) + RestartEvents(restart, startErr) + ReadEvents(restart, startErr, x);
      EventsInOrder(old(bus.events), restart, startErr, x);
      OutcomeWithRestart(restart, startErr, x);
    }

    /** Deliver a wanted notification. */
    method Notify(nowMs: int)
      requires policy.Valid()
      modifies this`updates, policy
      ensures policy.Valid()
      ensures var h := old(policy.Abs());
        if h.shouldNotify && h.everValid then
          && policy.Abs() == Mark(h, nowMs)
          && updates == old(updates) + if registered then [Update(h.latest, h.changedMask)] else []
        else policy.Abs() == h && updates == old(updates)
    {
      if policy.shouldNotify {
        var changedMask := policy.changedMask;
        var r := policy.GetLatest(nowMs);
        if r.Reading? {
          policy.MarkNotified(nowMs);
          if registered {
            updates := updates + [Update(r.m, changedMask)];
          }
        }
      }
    }

    /** Read the sensor and feed the result to the policy. */
    method Hear(startErr: int, x: Exchange, nowMs: int) returns (restarted: bool)
      requires policy.Valid() && |x.raw| == MEASUREMENT_BYTES
      modifies policy, bus
      ensures bus.events == old(bus.events) + HandlerEvents(restarted, startErr, x)
      ensures policy.Valid() && restarted == old(policy.inBackoff)
      ensures policy.Abs() == AfterRead(policy.config, old(policy.Abs()), TickOf(restarted, startErr, x, nowMs))
    {
      restarted := policy.NeedsRestart();
      var err, measurement := ReadSensor(restarted, startErr, x);
      policy.OnReadResult(err, measurement, nowMs);
    }

    /** A tick without the bookkeeping of the ghost history. */
    method Handle(startErr: int, x: Exchange, nowMs: int) returns (restarted: bool, delayMs: u32)
      requires policy.Valid() && |x.raw| == MEASUREMENT_BYTES
      modifies this`snapshot, this`updates, policy, bus
      ensures policy.Valid() && restarted == old(policy.inBackoff)
      ensures bus.events == old(bus.events) + HandlerEvents(restarted, startErr, x)
      ensures var t := TickOf(restarted, startErr, x, nowMs);
        && policy.Abs() == TickState(policy.config, old(policy.Abs()), t)
        && snapshot == SnapshotOf(AfterRead(policy.config, old(policy.Abs()), t), nowMs)
        && updates == old(updates) + UpdatesOf(policy.config, old(policy.Abs()), t, registered)
      ensures delayMs == DelayOf(policy.config, policy.Abs())
    {
      restarted := Hear(startErr, x, nowMs);
      PublishSnapshot(nowMs);
      Notify(nowMs);
      delayMs := policy.NextDelayMs();
    }

    /** One tick of the poll work: what it does to the policy, publishes, tells the subscriber and schedules. */
    method PollWorkHandler(startErr: int, x: Exchange, nowMs: int) returns (restarted: bool, delayMs: u32)
      requires Valid() && |x.raw| == MEASUREMENT_BYTES
      modifies this, policy, bus
      ensures Valid() && registered == old(registered)
      ensures restarted == old(policy.inBackoff)
      ensures bus.events == old(bus.events) + HandlerEvents(restarted, startErr, x)
      ensures var t := TickOf(restarted, startErr, x, nowMs);
        && ticks == old(ticks) + [t]
        && policy.Abs() == TickState(policy.config, old(policy.Abs()), t)
        && snapshot == SnapshotOf(AfterRead(policy.config, old(policy.Abs()), t), nowMs)
        && updates == old(updates) + UpdatesOf(policy.config, old(policy.Abs()), t, registered)
      ensures ticks[|ticks| - 1].outcome ==
        if (restarted && startErr != 0) || x.sendErr != 0 || x.recvErr != 0 || !WordsOk(x.raw, 9) then ReadFailed
        else ReadOk(Decode(WordsOf(x.raw)))
      ensures !registered ==> updates == old(updates)
      ensures restarted ==> |bus.events| > |old(bus.events)| + 1
      ensures restarted ==> bus.events[|old(bus.events)| + 1] == Wrote([0x00, 0x21], startErr == 0)
      ensures delayMs == DelayOf(policy.config, policy.Abs())
      ensures TotalWait(policy.config, INITIAL, ticks) == TotalWait(policy.config, INITIAL, old(ticks)) + delayMs
      ensures Restarts(policy.config, INITIAL, ticks) == Restarts(policy.config, INITIAL, old(ticks)) + Bit(restarted)
    {
      restarted, delayMs := Handle(startErr, x, nowMs);
      ghost var t := TickOf(restarted, startErr, x, nowMs);
      TickHandled(policy.config, ticks, t);
      StartsStillMatch(old(bus.events), policy.config, ticks, t, startErr, x);
      HandlerWrites(restarted, startErr, x);
      TickReads(restarted, startErr, x, nowMs);
      ticks := ticks + [t];
    }
  }
}

/** The atomic steps of the poll thread, run without interruption, have the effect of one handler call. */
module ServiceSteps {
  import opened MeasurementPolicy
  import opened PolicyRuns
  import opened Publication
  import opened PublicationProofs

  /** The steps that publish the snapshot of a tick, with the tick before them, and those that follow. */
  const WRITE_STEPS: seq<Action> := [PollWrite, PollWrite, PollWrite]
  const COPY_STEPS: seq<Action> := [PollLock] + (WRITE_STEPS + [PollUnlock])

  function PublishSteps(bus: Bus, nowMs: int): seq<Action> { [PollTick(bus, nowMs)] + COPY_STEPS }

  const NOTIFY_STEPS: seq<Action> := [PollNotify, PollReadCallback, PollSchedule, PollReschedule]

  lemma ExecFirst(c: PolicyConfig, s: Sys, a: Action, rest: seq<Action>)
    ensures Exec(c, s, [a] + rest) == Exec(c, Do(c, s, a), rest)
  {
    ExecConcat(c, s, [a], rest);
    assert [a][..0] == [];
  }

  lemma {:induction false} ExecFront(c: PolicyConfig, s: Sys, steps: seq<Action>)
    requires steps != []
    ensures Exec(c, s, steps) == Exec(c, Do(c, s, steps[0]), steps[1..])
  {
    ExecFirst(c, s, steps[0], steps[1..]);
    assert steps == [steps[0]] + steps[1..];
  }

  /** The snapshot of the tick that was heard has been published. */
  function AfterCopy(t: Sys): Sys
    requires t.poll.Heard?
  {
    var x := SnapshotOf(t.policy, t.poll.nowMs);
    t.(snapshot := x, poll := Published(t.poll.nowMs), log := t.log + [Entry(x, t.poll.nowMs, t.readMs, t.frame)])
  }

  lemma WritesEffect(c: PolicyConfig, t: Sys)
    requires t.poll.Publishing? && t.poll.n == 0
    ensures Exec(c, t, WRITE_STEPS)
         == t.(snapshot := t.poll.local, poll := Publishing(t.poll.nowMs, t.poll.local, 3))
  {
    var t1 := Do(c, t, PollWrite);
    var t2 := Do(c, t1, PollWrite);
    ExecFront(c, t, WRITE_STEPS);
    ExecFront(c, t1, WRITE_STEPS[1..]);
    ExecFront(c, t2, WRITE_STEPS[2..]);
    assert Do(c, t2, PollWrite).snapshot == t.poll.local;
  }

  lemma CopyEffect(c: PolicyConfig, t: Sys)
    requires t.poll.Heard? && t.owner == Nobody
    ensures Exec(c, t, COPY_STEPS) == AfterCopy(t)
  {
    var t1 := Do(c, t, PollLock);
    ExecFirst(c, t, PollLock, WRITE_STEPS + [PollUnlock]);
    ExecConcat(c, t1, WRITE_STEPS, [PollUnlock]);
    WritesEffect(c, t1);
    ExecFront(c, Exec(c, t1, WRITE_STEPS), [PollUnlock]);
  }

  lemma PublishEffect(c: PolicyConfig, s: Sys, bus: Bus, nowMs: int)
    requires s.poll.Idle? && s.owner == Nobody
    ensures Exec(c, s, PublishSteps(bus, nowMs)) == AfterCopy(DoTick(c, s, bus, nowMs))
  {
    ExecFirst(c, s, PollTick(bus, nowMs), COPY_STEPS);
    CopyEffect(c, DoTick(c, s, bus, nowMs));
  }

  lemma NotifyEffect(c: PolicyConfig, s: Sys, t: Sys)
    requires s.poll.Published? && s.log != [] && t == Exec(c, s, NOTIFY_STEPS)
    ensures var told := s.policy.shouldNotify && s.policy.everValid;
      && t.policy == (if told then Mark(s.policy, s.poll.nowMs) else s.policy)
      && t.queue == s.queue + (if told && s.registered then 1 else 0)
      && t.notified == (if told then |s.log| - 1 else s.notified)
      && t.poll.Idle?
      && t == s.(policy := t.policy, queue := t.queue, poll := t.poll, notified := t.notified)
  {
    var steps := NOTIFY_STEPS;
    var s1 := Do(c, s, PollNotify);
    var s2 := Do(c, s1, PollReadCallback);
    var s3 := Do(c, s2, PollSchedule);
    ExecFront(c, s, steps);
    ExecFront(c, s1, steps[1..]);
    ExecFront(c, s2, steps[2..]);
    ExecFront(c, s3, steps[3..]);
  }

  /** One tick's steps in a row: policy, snapshot and queue end up as after one call of PollWorkHandler. */
  lemma StepsAreTheHandler(c: PolicyConfig, s: Sys, bus: Bus, nowMs: int)
    requires s.poll.Idle? && s.owner == Nobody
    ensures var t, tick := Exec(c, s, PublishSteps(bus, nowMs) + NOTIFY_STEPS), Tick(OutcomeOf(bus), nowMs);
      && t.policy == TickState(c, s.policy, tick)
      && t.snapshot == SnapshotOf(AfterRead(c, s.policy, tick), nowMs)
      && t.queue == s.queue + (if Notifies(c, s.policy, tick) && s.registered then 1 else 0)
      && t.poll.Idle? && t.owner == Nobody && t.chip == s.chip && t.store == s.store && t.readers == s.readers
  {
    ExecConcat(c, s, PublishSteps(bus, nowMs), NOTIFY_STEPS);
    PublishEffect(c, s, bus, nowMs);
    var u := AfterCopy(DoTick(c, s, bus, nowMs));
    NotifyEffect(c, u, Exec(c, u, NOTIFY_STEPS));
  }
}
