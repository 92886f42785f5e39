/**
 * The publication protocol of the poll thread (src/measurement_service/measurement_service.cpp), the CHIP
 * thread (src/air_quality_endpoint/air_quality_matter_adapter.cpp) and any number of snapshot readers, as
 * atomic steps that interleave freely.
 */
module Publication {
  import opened Sen66Crc
  import opened Sen66Protocol
  import opened MeasurementPolicy
  import opened PolicyRuns
  import opened MatterAdapter

  // ----- Threads -----

  /** What the bus gave a tick: an error of the restart or the read, or 27 bytes. */
  datatype Bus = BusError | Frame(raw: Bytes)

  predicate GoodFrame(raw: Bytes) { |raw| == MEASUREMENT_BYTES && WordsOk(raw, MEASUREMENT_WORDS) }

  function OutcomeOf(b: Bus): Outcome {
    if b.Frame? && GoodFrame(b.raw) then ReadOk(Decode(WordsOf(b.raw))) else ReadFailed
  }

  /** Where the poll thread stands in its handler. */
  datatype PollPc =
    | Idle
    | Heard(nowMs: int)
    | Publishing(nowMs: int, local: Snapshot, n: nat)
    | Published(nowMs: int)
    | Notified
    | Calling
    | Finishing

  /** Where the CHIP thread stands: before registration, between work items, or in ApplyLatestMeasurement. */
  datatype ChipPc =
    | Booting
    | Ready
    | Waiting
    | Copying(out: Snapshot, n: nat)
    | Copied(out: Snapshot, from: nat)
    | Writing(out: Snapshot, from: nat, n: nat)

  /** A further thread inside GetLatest, such as the shell. */
  datatype ReaderPc = ReaderCopying(out: Snapshot, n: nat) | ReaderDone(out: Snapshot, from: nat)

  datatype Owner = Nobody | PollThread | ChipThread | Reader(id: nat)

  /** A completed publication: the snapshot, when it was made, and the last successful read behind it. */
  datatype Entry = Entry(snapshot: Snapshot, atMs: int, readMs: int, frame: Bytes)

  /**
   * The shared state. The last five components only record what happened: the publications so far, the one
   * that the last notification stood for, the one that the attributes were last written from, and the last
   * successful read.
   */
  datatype Sys = Sys(
    policy: State, snapshot: Snapshot, owner: Owner, registered: bool, queue: nat, store: Store,
    poll: PollPc, chip: ChipPc, readers: map<nat, ReaderPc>,
    log: seq<Entry>, notified: nat, applied: nat, readMs: int, frame: Bytes)

  /** Service start-up feeds a failed start-measurement into the policy before the first tick. */
  function Start(c: PolicyConfig, startFailed: bool): Sys {
    Sys(if startFailed then Fail(c, INITIAL) else INITIAL, NO_SNAPSHOT, Nobody, false, 0, INITIAL_STORE,
        Idle, Booting, map[], [Entry(NO_SNAPSHOT, 0, 0, [])], 0, 0, 0, [])
  }

  function SnapshotOf(s: State, nowMs: int): Snapshot {
    match ReadingOf(s, nowMs)
    case Nothing => NO_SNAPSHOT
    case Reading(m, ageMs) => Snapshot(m, ageMs, true)
  }

  /** The three fields of a snapshot are copied one at a time. */
  function CopyField(dst: Snapshot, src: Snapshot, n: nat): Snapshot {
    if n == 0 then dst.(measurement := src.measurement)
    else if n == 1 then dst.(ageMs := src.ageMs)
    else dst.(everValid := src.everValid)
  }

  // ----- Steps; one that is not enabled changes nothing -----

  datatype Action =
    | PollTick(bus: Bus, nowMs: int)
    | PollLock | PollWrite | PollUnlock | PollNotify | PollReadCallback | PollSchedule | PollReschedule
    | ChipRegister | ChipDequeue | ChipLock | ChipCopy | ChipUnlock | ChipCheck | ChipWrite
    | ReaderLock(id: nat) | ReaderCopy(id: nat) | ReaderUnlock(id: nat) | ReaderReturn(id: nat)

  /** Restart if needed, read the sensor and feed the result to the policy. */
  function DoTick(c: PolicyConfig, s: Sys, bus: Bus, nowMs: int): Sys {
    if !s.poll.Idle? then s else
      var o := OutcomeOf(bus);
      s.(policy := AfterRead(c, s.policy, Tick(o, nowMs)),
         poll := Heard(nowMs),
         readMs := if o.ReadOk? then nowMs else s.readMs,
         frame := if o.ReadOk? then bus.raw else s.frame)
  }

  function DoPollLock(s: Sys): Sys {
    if s.poll.Heard? && s.owner == Nobody
    then s.(owner := PollThread, poll := Publishing(s.poll.nowMs, SnapshotOf(s.policy, s.poll.nowMs), 0))
    else s
  }

  function DoPollWrite(s: Sys): Sys {
    if s.poll.Publishing? && s.poll.n < 3
    then s.(snapshot := CopyField(s.snapshot, s.poll.local, s.poll.n),
            poll := Publishing(s.poll.nowMs, s.poll.local, s.poll.n + 1))
    else s
  }

  function DoPollUnlock(s: Sys): Sys {
    if s.poll.Publishing? && s.poll.n >= 3
    then s.(owner := Nobody, poll := Published(s.poll.nowMs),
            log := s.log + [Entry(s.poll.local, s.poll.nowMs, s.readMs, s.frame)])
    else s
  }

  /** Consume a wanted notification; whether anybody is told comes later. */
  function DoPollNotify(s: Sys): Sys {
    if !s.poll.Published? then s
    else if s.policy.shouldNotify && ReadingOf(s.policy, s.poll.nowMs).Reading? && s.log != []
    then s.(policy := Mark(s.policy, s.poll.nowMs), poll := Notified, notified := |s.log| - 1)
    else s.(poll := Finishing)
  }

  function DoPollReadCallback(s: Sys): Sys {
    if s.poll.Notified? then s.(poll := if s.registered then Calling else Finishing) else s
  }

  function DoPollSchedule(s: Sys): Sys {
    if s.poll.Calling? then s.(queue := s.queue + 1, poll := Finishing) else s
  }

  function DoPollReschedule(s: Sys): Sys {
    if s.poll.Finishing? then s.(poll := Idle) else s
  }

  /** Register the callback and go on to the direct call of ApplyLatestMeasurement. */
  function DoRegister(s: Sys): Sys {
    if s.chip.Booting? then s.(registered := true, chip := Waiting) else s
  }

  function DoDequeue(s: Sys): Sys {
    if s.chip.Ready? && s.queue > 0 then s.(queue := s.queue - 1, chip := Waiting) else s
  }

  function DoChipLock(s: Sys): Sys {
    if s.chip.Waiting? && s.owner == Nobody then s.(owner := ChipThread, chip := Copying(NO_SNAPSHOT, 0)) else s
  }

  function DoChipCopy(s: Sys): Sys {
    if s.chip.Copying? && s.chip.n < 3
    then s.(chip := Copying(CopyField(s.chip.out, s.snapshot, s.chip.n), s.chip.n + 1))
    else s
  }

  function DoChipUnlock(s: Sys): Sys {
    if s.chip.Copying? && s.chip.n >= 3 && s.log != []
    then s.(owner := Nobody, chip := Copied(s.chip.out, |s.log| - 1))
    else s
  }

  /** Return early before the first valid frame. */
  function DoChipCheck(s: Sys): Sys {
    if !s.chip.Copied? then s
    else if s.chip.out.everValid then s.(chip := Writing(s.chip.out, s.chip.from, 0))
    else s.(chip := Ready, applied := s.chip.from)
  }

  function DoChipWrite(s: Sys): Sys {
    if !s.chip.Writing? then s
    else if s.chip.n < 8
    then s.(store := s.store[s.chip.n := Render(s.chip.out.measurement)[s.chip.n]],
            chip := Writing(s.chip.out, s.chip.from, s.chip.n + 1))
    else s.(chip := Ready, applied := s.chip.from)
  }

  function DoReaderLock(s: Sys, id: nat): Sys {
    if id !in s.readers && s.owner == Nobody
    then s.(owner := Reader(id), readers := s.readers[id := ReaderCopying(NO_SNAPSHOT, 0)])
    else s
  }

  function DoReaderCopy(s: Sys, id: nat): Sys {
    if id in s.readers && s.readers[id].ReaderCopying? && s.readers[id].n < 3
    then
      var r := s.readers[id];
      s.(readers := s.readers[id := ReaderCopying(CopyField(r.out, s.snapshot, r.n), r.n + 1)])
    else s
  }

  function DoReaderUnlock(s: Sys, id: nat): Sys {
    if id in s.readers && s.readers[id].ReaderCopying? && s.readers[id].n >= 3 && s.log != []
    then s.(owner := Nobody, readers := s.readers[id := ReaderDone(s.readers[id].out, |s.log| - 1)])
    else s
  }

  function DoReaderReturn(s: Sys, id: nat): Sys {
    if id in s.readers && s.readers[id].ReaderDone? then s.(readers := s.readers - {id}) else s
  }

  function Do(c: PolicyConfig, s: Sys, a: Action): Sys {
    match a
    case PollTick(bus, nowMs) => DoTick(c, s, bus, nowMs)
    case PollLock => DoPollLock(s)
    case PollWrite => DoPollWrite(s)
    case PollUnlock => DoPollUnlock(s)
    case PollNotify => DoPollNotify(s)
    case PollReadCallback => DoPollReadCallback(s)
    case PollSchedule => DoPollSchedule(s)
    case PollReschedule => DoPollReschedule(s)
    case ChipRegister => DoRegister(s)
    case ChipDequeue => DoDequeue(s)
    case ChipLock => DoChipLock(s)
    case ChipCopy => DoChipCopy(s)
    case ChipUnlock => DoChipUnlock(s)
    case ChipCheck => DoChipCheck(s)
    case ChipWrite => DoChipWrite(s)
    case ReaderLock(id) => DoReaderLock(s, id)
    case ReaderCopy(id) => DoReaderCopy(s, id)
    case ReaderUnlock(id) => DoReaderUnlock(s, id)
    case ReaderReturn(id) => DoReaderReturn(s, id)
  }

  /** The state after any interleaving of steps. */
  function Exec(c: PolicyConfig, s: Sys, actions: seq<Action>): Sys
    decreases |actions|
  {
    if actions == [] then s else Do(c, Exec(c, s, actions[..|actions| - 1]), actions[|actions| - 1])
  }
}
