/** The publication protocol always comes to rest, and drives the policy exactly as the handler alone would. */
module PublicationRuns {
  import opened Integers
  import opened MeasurementPolicy
  import opened PolicyRuns
  import opened MatterAdapter
  import opened Publication
  import opened PublicationProofs

  // ----- Coming to rest -----

  /** Steps left to the poll thread in its handler; a Calling thread has a work item still to queue. */
  function PollWork(p: PollPc): nat {
    match p
    case Idle => 0
    case Heard(_) => 40
    case Publishing(_, _, n) => if n <= 3 then 39 - n else 39
    case Published(_) => 35
    case Notified => 34
    case Calling => 33
    case Finishing => 1
  }

  function ChipWork(p: ChipPc): nat {
    match p
    case Booting => 20
    case Ready => 0
    case Waiting => 19
    case Copying(_, n) => if n <= 3 then 18 - n else 18
    case Copied(_, _) => 14
    case Writing(_, _, n) => if n <= 8 then 13 - n else 13
  }

  /** An upper bound on the steps that the two threads can take without a new tick. */
  function Work(s: Sys): nat { PollWork(s.poll) + ChipWork(s.chip) + 20 * s.queue }

  /** The copies and writes in progress are within their lengths. */
  predicate InLength(s: Sys) {
    && s.log != []
    && (s.poll.Publishing? ==> s.poll.n <= 3)
    && (s.chip.Copying? ==> s.chip.n <= 3)
    && (s.chip.Writing? ==> s.chip.n <= 8)
  }

  lemma PollStepIsWork(c: PolicyConfig, s: Sys, a: Action)
    requires InLength(s) && IsPoll(a) && !a.PollTick?
    ensures Do(c, s, a) == s || Work(Do(c, s, a)) < Work(s)
  {
  }

  lemma ChipStepIsWork(c: PolicyConfig, s: Sys, a: Action)
    requires InLength(s) && !IsPoll(a) && !IsReader(a)
    ensures Do(c, s, a) == s || Work(Do(c, s, a)) < Work(s)
  {
  }

  lemma ReaderStepIsNoWork(c: PolicyConfig, s: Sys, a: Action)
    requires IsReader(a)
    ensures Work(Do(c, s, a)) == Work(s)
  {
  }

  /** Without a new tick, a step of either thread uses work up or is not enabled, and readers add none. */
  lemma EveryStepIsWork(c: PolicyConfig, s: Sys, a: Action)
    requires Inv(c, s) && !a.PollTick?
    ensures if IsReader(a) then Work(Do(c, s, a)) == Work(s) else Do(c, s, a) == s || Work(Do(c, s, a)) < Work(s)
  {
    if IsReader(a) {
      ReaderStepIsNoWork(c, s, a);
    } else if IsPoll(a) {
      PollStepIsWork(c, s, a);
    } else {
      ChipStepIsWork(c, s, a);
    }
  }

  predicate NoTicks(actions: seq<Action>) { forall a :: a in actions ==> !a.PollTick? }

  /** The steps of a run that the two threads really take: those that are enabled, readers not counted. */
  function StepsTaken(c: PolicyConfig, s: Sys, actions: seq<Action>): nat
    decreases |actions|
  {
    if actions == [] then 0 else
      var init, a := actions[..|actions| - 1], actions[|actions| - 1];
      var t := Exec(c, s, init);
      StepsTaken(c, s, init) + Bit(!IsReader(a) && Do(c, t, a) != t)
  }

  /** In any order and for any schedule, the two threads take at most Work(s) steps from s without a new tick. */
  lemma {:induction false} StepsAreBounded(c: PolicyConfig, s: Sys, actions: seq<Action>)
    requires Inv(c, s) && NoTicks(actions)
    ensures StepsTaken(c, s, actions) + Work(Exec(c, s, actions)) <= Work(s)
    decreases |actions|
  {
    if actions != [] {
      var init, a := actions[..|actions| - 1], actions[|actions| - 1];
      StepsAreBounded(c, s, init);
      ExecInv(c, s, init);
      EveryStepIsWork(c, Exec(c, s, init), a);
    }
  }

  /** How much of a copy is left to the reader that holds the mutex, if one does. */
  function ReaderWork(s: Sys): nat {
    if s.owner.Reader? && s.owner.id in s.readers then
      var r := s.readers[s.owner.id];
      if r.ReaderCopying? && r.n <= 3 then 4 - r.n else 0
    else 0
  }

  /** No deadlock: short of rest, some step other than a tick is enabled and brings rest closer. */
  function NextStep(s: Sys): Action {
    match s.owner
    case Reader(id) =>
      if id in s.readers && s.readers[id].ReaderCopying? && s.readers[id].n < 3 then ReaderCopy(id)
      else ReaderUnlock(id)
    case ChipThread => if s.chip.Copying? && s.chip.n < 3 then ChipCopy else ChipUnlock
    case PollThread => if s.poll.Publishing? && s.poll.n < 3 then PollWrite else PollUnlock
    case Nobody =>
      match s.poll
      case Heard(_) => PollLock
      case Published(_) => PollNotify
      case Notified => PollReadCallback
      case Calling => PollSchedule
      case Finishing => PollReschedule
      case _ =>
        match s.chip
        case Booting => ChipRegister
        case Ready => ChipDequeue
        case Waiting => ChipLock
        case Copied(_, _) => ChipCheck
        case _ => ChipWrite
  }

  lemma PollIsEnabled(c: PolicyConfig, s: Sys)
    requires Locks(s) && Copies(s) && !s.poll.Idle? && (s.owner == Nobody || s.owner == PollThread)
    ensures IsPoll(NextStep(s)) && !NextStep(s).PollTick? && Do(c, s, NextStep(s)) != s
  {
  }

  lemma ChipIsEnabled(c: PolicyConfig, s: Sys)
    requires Locks(s) && Copies(s)
    requires if s.owner == Nobody then s.poll.Idle? && !Quiescent(s) else s.owner == ChipThread
    ensures !IsPoll(NextStep(s)) && !IsReader(NextStep(s)) && Do(c, s, NextStep(s)) != s
  {
  }

  lemma ReaderIsEnabled(c: PolicyConfig, s: Sys)
    requires Locks(s) && Copies(s) && s.owner.Reader?
    ensures IsReader(NextStep(s)) && ReaderWork(Do(c, s, NextStep(s))) < ReaderWork(s)
  {
  }

  lemma OthersLeaveReaders(c: PolicyConfig, s: Sys, a: Action)
    requires !IsReader(a) && !s.owner.Reader?
    ensures ReaderWork(Do(c, s, a)) == 0
  {
  }

  lemma NextStepProgresses(c: PolicyConfig, s: Sys)
    requires Inv(c, s) && !Quiescent(s)
    ensures !NextStep(s).PollTick?
    ensures Work(Do(c, s, NextStep(s))) + ReaderWork(Do(c, s, NextStep(s))) < Work(s) + ReaderWork(s)
  {
    if s.owner.Reader? {
      ReaderIsEnabled(c, s);
    } else {
      if s.owner == PollThread || (s.owner == Nobody && !s.poll.Idle?) {
        PollIsEnabled(c, s);
      } else {
        ChipIsEnabled(c, s);
      }
      OthersLeaveReaders(c, s, NextStep(s));
    }
    EveryStepIsWork(c, s, NextStep(s));
  }

  lemma {:induction false} Drain(c: PolicyConfig, s: Sys) returns (rest: seq<Action>)
    requires Inv(c, s)
    ensures NoTicks(rest) && Quiescent(Exec(c, s, rest))
    ensures |rest| <= Work(s) + ReaderWork(s)
    decreases Work(s) + ReaderWork(s)
  {
    if Quiescent(s) {
      rest := [];
    } else {
      var a := NextStep(s);
      NextStepProgresses(c, s);
      StepInv(c, s, a);
      var more := Drain(c, Do(c, s, a));
      rest := [a] + more;
      assert Exec(c, s, [a]) == Do(c, s, a) by { assert [a][..0] == []; }
      ExecConcat(c, s, [a], more);
    }
  }

  /**
   * From every reachable state the system can come to rest without another tick, in a number of steps known
   * beforehand, and the attributes then show the current snapshot to within the thresholds.
   */
  lemma AttributesCatchUp(c: PolicyConfig, startFailed: bool, actions: seq<Action>) returns (rest: seq<Action>)
    ensures NoTicks(rest)
    ensures var s, t := Exec(c, Start(c, startFailed), actions), Exec(c, Start(c, startFailed), actions + rest);
      && |rest| <= Work(s) + 4
      && Quiescent(t) && t.applied < |t.log| && s.notified <= t.applied
      && t.store == Render(AppliedTo(t)) && Near(c.thresholds, AppliedTo(t), t.snapshot.measurement, 2)
  {
    AlwaysInv(c, startFailed, actions);
    rest := Drain(c, Exec(c, Start(c, startFailed), actions));
    ExecConcat(c, Start(c, startFailed), actions, rest);
    AttributesAreCurrent(c, startFailed, actions + rest);
    NoNotificationIsLost(c, startFailed, actions, rest);
  }

  // ----- The policy under interleaving -----

  function StartTicks(startFailed: bool): seq<Tick> { if startFailed then [Tick(ReadFailed, 0)] else [] }

  /** The ticks that a run performed, a failed start-up among them. */
  function Performed(c: PolicyConfig, startFailed: bool, actions: seq<Action>): seq<Tick>
    decreases |actions|
  {
    if actions == [] then StartTicks(startFailed) else
      var init, a := actions[..|actions| - 1], actions[|actions| - 1];
      var before := Exec(c, Start(c, startFailed), init);
      Performed(c, startFailed, init)
        + Started(before, a)
  }

  /** The tick that a step starts, if it does. */
  function Started(s: Sys, a: Action): seq<Tick> {
    if a.PollTick? && s.poll.Idle? then [Tick(OutcomeOf(a.bus), a.nowMs)] else []
  }

  /** The policy between ticks, and inside one before its notification was consumed. */
  ghost predicate Sequential(c: PolicyConfig, ts: seq<Tick>, s: Sys) {
    && s.readMs == LastReadMs(ts, 0)
    && if InTick(s) then
      && ts != [] && s.poll.nowMs == ts[|ts| - 1].nowMs
      && s.policy == AfterRead(c, Ticks(c, INITIAL, ts[..|ts| - 1]), ts[|ts| - 1])
    else s.policy == Ticks(c, INITIAL, ts)
  }

  lemma TickKeepsSequential(c: PolicyConfig, ts: seq<Tick>, s: Sys, bus: Bus, nowMs: int)
    requires Sequential(c, ts, s) && s.poll.Idle?
    ensures Sequential(c, ts + [Tick(OutcomeOf(bus), nowMs)], DoTick(c, s, bus, nowMs))
  {
    var us := ts + [Tick(OutcomeOf(bus), nowMs)];
    assert us[..|us| - 1] == ts;
    LastReadStep(us, 0);
  }

  lemma NotifyKeepsSequential(c: PolicyConfig, ts: seq<Tick>, s: Sys)
    requires s.log != [] && Sequential(c, ts, s)
    ensures Sequential(c, ts, DoPollNotify(s))
  {
  }

  lemma OthersKeepSequential(c: PolicyConfig, ts: seq<Tick>, s: Sys, a: Action)
    requires Sequential(c, ts, s) && !a.PollTick? && !a.PollNotify?
    ensures Sequential(c, ts, Do(c, s, a))
  {
    if a.PollUnlock? {
      assert Do(c, s, a) == DoPollUnlock(s);
    } else {
      StepLeavesRecord(c, s, a);
    }
  }

  lemma KeepsSequential(c: PolicyConfig, ts: seq<Tick>, s: Sys, a: Action)
    requires s.log != [] && Sequential(c, ts, s)
    ensures Sequential(c, ts + Started(s, a), Do(c, s, a))
  {
    assert ts + [] == ts;
    if a.PollTick? && s.poll.Idle? {
      TickKeepsSequential(c, ts, s, a.bus, a.nowMs);
    } else if a.PollNotify? {
      NotifyKeepsSequential(c, ts, s);
    } else if !a.PollTick? {
      OthersKeepSequential(c, ts, s, a);
    }
  }

  /**
   * Refinement: however the threads interleave, the policy goes through exactly the states of its ticks run
   * one after the other, so everything shown about sequences of ticks holds of the running system.
   */
  lemma {:induction false} InterleavingsRunTheTicks(c: PolicyConfig, startFailed: bool, actions: seq<Action>)
    ensures var s := Exec(c, Start(c, startFailed), actions);
      && Sequential(c, Performed(c, startFailed, actions), s)
      && (s.poll.Idle? ==> s.policy == Ticks(c, INITIAL, Performed(c, startFailed, actions)))
      && s.readMs == LastReadMs(Performed(c, startFailed, actions), 0)
    decreases |actions|
  {
    if actions == [] {
      assert startFailed ==> [Tick(ReadFailed, 0)][..0] == [];
    } else {
      var init := actions[..|actions| - 1];
      InterleavingsRunTheTicks(c, startFailed, init);
      AlwaysInv(c, startFailed, init);
      KeepsSequential(c, Performed(c, startFailed, init), Exec(c, Start(c, startFailed), init), actions[|actions| - 1]);
    }
  }

  lemma TickTimes(c: PolicyConfig, startFailed: bool, actions: seq<Action>)
    ensures var s, ts := Exec(c, Start(c, startFailed), actions), Performed(c, startFailed, actions);
      && s.readMs == LastReadMs(ts, 0)
      && (s.poll.Publishing? ==> ts != [] && s.poll.nowMs == ts[|ts| - 1].nowMs)
  {
    InterleavingsRunTheTicks(c, startFailed, actions);
  }

  /**
   * The two times whose difference is the age of a publication: it is made at the time of the last tick
   * performed, and read at that of the last successful read among them. It stays in the log as it is.
   */
  lemma PublicationsAreDated(c: PolicyConfig, startFailed: bool, before: seq<Action>, a: Action, after: seq<Action>)
    ensures var s := Exec(c, Start(c, startFailed), before);
      var t := Exec(c, Start(c, startFailed), before + [a]);
      var ts := Performed(c, startFailed, before);
      && (t.log == s.log
          || (&& |t.log| == |s.log| + 1 && t.log[..|s.log|] == s.log
              && t.log[|s.log|].readMs == LastReadMs(ts, 0)
              && ts != [] && t.log[|s.log|].atMs == ts[|ts| - 1].nowMs))
      && t.log <= Exec(c, Start(c, startFailed), before + [a] + after).log
  {
    var s := Exec(c, Start(c, startFailed), before);
    assert (before + [a])[..|before|] == before;
    TickTimes(c, startFailed, before);
    LogGrowsByOne(c, s, a);
    AlwaysInv(c, startFailed, before + [a]);
    ExecConcat(c, Start(c, startFailed), before + [a], after);
    ExecInv(c, Do(c, s, a), after);
  }

  lemma LogGrowsByOne(c: PolicyConfig, s: Sys, a: Action)
    ensures var t := Do(c, s, a);
      || t.log == s.log
      || (&& |t.log| == |s.log| + 1 && t.log[..|s.log|] == s.log
          && s.poll.Publishing? && t.log[|s.log|].readMs == s.readMs && t.log[|s.log|].atMs == s.poll.nowMs)
  {
  }
}
