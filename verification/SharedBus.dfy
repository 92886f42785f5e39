/**
 * Publication and bus put together: a tick of the poll thread is a call of the driver, on the bus that any
 * number of other threads, such as the shell, use for calls of their own at the same time.
 */
module SharedBus {
  import opened Integers
  import opened Sen66Crc
  import opened Sen66Protocol
  import opened Sen66Driver
  import opened MeasurementPolicy
  import opened PolicyRuns
  import opened MatterAdapter
  import opened Publication
  import opened PublicationProofs
  import opened PublicationRuns
  import opened Outages
  import Wire = BusProtocol

  /** The poll thread's number on the bus. */
  const POLL: nat := 0

  /** What the poll thread is waiting for on the bus. */
  datatype Turn = Resting | Restarting | Fetching

  /** The last component records the calls that the poll thread made. */
  datatype Whole = Whole(bus: Wire.Bus, sys: Sys, turn: Turn, own: set<nat>)

  function Begin(c: PolicyConfig, startFailed: bool): Whole {
    Whole(Wire.QUIET, Start(c, startFailed), Resting, {})
  }

  datatype Step =
    | OnBus(b: Wire.Action)
    | OffBus(a: Action)
    | BeginTick
    | AfterRestart(nowMs: int)
    | AfterRead(nowMs: int)

  /** The poll thread enters the driver only from its handler. */
  predicate MayStep(b: Wire.Action) { b.Enter? ==> b.t != POLL }

  /** The poll thread's call has returned. */
  predicate Back(w: Whole) { POLL in w.bus.threads && w.bus.threads[POLL].Returned? }

  function Enter(w: Whole, cmd: Command, turn: Turn): Whole {
    w.(bus := Wire.Do(true, w.bus, Wire.Enter(POLL, cmd)), turn := turn, own := w.own + {w.bus.next})
  }

  /** The bytes that a call fetched. */
  function Fetch(trace: seq<Wire.Transfer>, call: Wire.Call): Bytes
    decreases |trace|
  {
    if trace == [] then []
    else
      var last := trace[|trace| - 1];
      if last.Read? && last.call == call then last.raw else Fetch(trace[..|trace| - 1], call)
  }

  /** What the returned call brought. */
  function Arrived(w: Whole): Bus
    requires Back(w)
  {
    var pc := w.bus.threads[POLL];
    if pc.answer.Measured? then Frame(Fetch(w.bus.trace, pc.call)) else BusError
  }

  function Tell(c: PolicyConfig, w: Whole, bus: Bus, nowMs: int): Whole {
    w.(sys := Do(c, w.sys, PollTick(bus, nowMs)), turn := Resting)
  }

  /** One step; a step that is not enabled changes nothing. */
  function DoStep(c: PolicyConfig, w: Whole, step: Step): Whole {
    match step
    case OnBus(b) => if MayStep(b) then w.(bus := Wire.Do(true, w.bus, b)) else w
    case OffBus(a) => if a.PollTick? then w else w.(sys := Do(c, w.sys, a))
    case BeginTick =>
      if !w.turn.Resting? || !w.sys.poll.Idle? || Wire.InDriver(w.bus, POLL) then w
      else if w.sys.policy.inBackoff then Enter(w, StartMeasurement, Restarting)
      else Enter(w, ReadMeasuredValues, Fetching)
    case AfterRestart(nowMs) =>
      if !w.turn.Restarting? || !Back(w) then w
      else if w.bus.threads[POLL].answer == Done then Enter(w, ReadMeasuredValues, Fetching)
      else Tell(c, w, BusError, nowMs)
    case AfterRead(nowMs) =>
      if !w.turn.Fetching? || !Back(w) then w else Tell(c, w, Arrived(w), nowMs)
  }

  function Steps(c: PolicyConfig, w: Whole, steps: seq<Step>): Whole
    decreases |steps|
  {
    if steps == [] then w else DoStep(c, Steps(c, w, steps[..|steps| - 1]), steps[|steps| - 1])
  }

  // ----- The two sides of a run -----

  /** The step of the bus in a step of the whole, if there is one. */
  function BusPart(c: PolicyConfig, w: Whole, step: Step): seq<Wire.Action> {
    var v := DoStep(c, w, step);
    if v.bus == w.bus then []
    else match step
      case OnBus(b) => [b]
      case BeginTick => [Wire.Enter(POLL, if w.sys.policy.inBackoff then StartMeasurement else ReadMeasuredValues)]
      case _ => [Wire.Enter(POLL, ReadMeasuredValues)]
  }

  /** The step of the publication in a step of the whole, if there is one. */
  function SysPart(c: PolicyConfig, w: Whole, step: Step): seq<Action> {
    match step
    case OffBus(a) => if a.PollTick? then [] else [a]
    case AfterRestart(nowMs) =>
      if w.turn.Restarting? && Back(w) && w.bus.threads[POLL].answer != Done then [PollTick(BusError, nowMs)] else []
    case AfterRead(nowMs) => if w.turn.Fetching? && Back(w) then [PollTick(Arrived(w), nowMs)] else []
    case _ => []
  }

  lemma StepHasParts(c: PolicyConfig, w: Whole, step: Step)
    ensures DoStep(c, w, step).bus == Wire.Exec(true, w.bus, BusPart(c, w, step))
    ensures DoStep(c, w, step).sys == Exec(c, w.sys, SysPart(c, w, step))
  {
    var b, a := BusPart(c, w, step), SysPart(c, w, step);
    if b != [] { assert b[..0] == [] && Wire.Exec(true, w.bus, b) == Wire.Do(true, w.bus, b[0]); }
    if a != [] { assert a[..0] == [] && Exec(c, w.sys, a) == Do(c, w.sys, a[0]); }
  }

  function BusSteps(c: PolicyConfig, w: Whole, steps: seq<Step>): seq<Wire.Action>
    decreases |steps|
  {
    if steps == [] then [] else
      var init := steps[..|steps| - 1];
      BusSteps(c, w, init) + BusPart(c, Steps(c, w, init), steps[|steps| - 1])
  }

  function SysSteps(c: PolicyConfig, w: Whole, steps: seq<Step>): seq<Action>
    decreases |steps|
  {
    if steps == [] then [] else
      var init := steps[..|steps| - 1];
      SysSteps(c, w, init) + SysPart(c, Steps(c, w, init), steps[|steps| - 1])
  }

  lemma WireConcat(b: Wire.Bus, x: seq<Wire.Action>, y: seq<Wire.Action>)
    requires |y| <= 1
    ensures Wire.Exec(true, b, x + y) == Wire.Exec(true, Wire.Exec(true, b, x), y)
  {
    if y == [] {
      assert x + y == x;
    } else {
      assert y == [y[0]] && y[..0] == [];
      Wire.ExecSnoc(true, b, x, y[0]);
      assert Wire.Exec(true, Wire.Exec(true, b, x), y) == Wire.Do(true, Wire.Exec(true, b, x), y[0]);
    }
  }

  /** A run of the whole is a run of the bus and a run of the publication, so both keep all their properties. */
  lemma {:induction false} RunsHaveParts(c: PolicyConfig, startFailed: bool, steps: seq<Step>)
    ensures var w, v := Begin(c, startFailed), Steps(c, Begin(c, startFailed), steps);
      && v.bus == Wire.Exec(true, Wire.QUIET, BusSteps(c, w, steps))
      && v.sys == Exec(c, Start(c, startFailed), SysSteps(c, w, steps))
    decreases |steps|
  {
    if steps != [] {
      var w, init, last := Begin(c, startFailed), steps[..|steps| - 1], steps[|steps| - 1];
      RunsHaveParts(c, startFailed, init);
      var v := Steps(c, w, init);
      StepHasParts(c, v, last);
      WireConcat(Wire.QUIET, BusSteps(c, w, init), BusPart(c, v, last));
      ExecConcat(c, Start(c, startFailed), SysSteps(c, w, init), SysPart(c, v, last));
    }
  }

  // ----- The calls of the poll thread -----

  /** The poll thread's call is one of its own, and while it fetches, one that reads a measurement. */
  predicate OwnCall(w: Whole) {
    && (POLL in w.bus.threads ==> w.bus.threads[POLL].call.id in w.own)
    && (w.turn.Fetching? && POLL in w.bus.threads ==> w.bus.threads[POLL].call.cmd == ReadMeasuredValues)
    && (w.turn.Restarting? && POLL in w.bus.threads ==> w.bus.threads[POLL].call.cmd == StartMeasurement)
    && (w.turn.Restarting? ==> w.sys.policy.inBackoff)
    && (POLL in w.bus.threads ==>
          w.bus.threads[POLL].call.cmd == StartMeasurement || w.bus.threads[POLL].call.cmd == ReadMeasuredValues)
    && (!w.turn.Resting? ==> w.sys.poll.Idle? && POLL in w.bus.threads)
  }

  lemma WireKeepsCall(b: Wire.Bus, a: Wire.Action)
    requires MayStep(a)
    ensures var d := Wire.Do(true, b, a);
      (POLL in d.threads <==> POLL in b.threads)
      && (POLL in b.threads ==> d.threads[POLL].call == b.threads[POLL].call)
  {
  }

  lemma KeepsOwnCall(c: PolicyConfig, w: Whole, step: Step)
    requires OwnCall(w)
    ensures OwnCall(DoStep(c, w, step))
  {
    match step
    case OnBus(b) => if MayStep(b) { WireKeepsCall(w.bus, b); }
    case OffBus(a) => OffBusKeepsIdle(c, w.sys, a);
    case _ =>
  }

  lemma OffBusKeepsIdle(c: PolicyConfig, s: Sys, a: Action)
    ensures !a.PollTick? && s.poll.Idle? ==> Do(c, s, a).poll.Idle?
  {
  }

  /** In backoff a tick first restarts the sensor, reads after the restart has worked, and fails if it has not. */
  lemma RestartComesFirst(c: PolicyConfig, w: Whole, nowMs: int)
    requires w.sys.poll.Idle?
    ensures w.turn.Resting? && !Wire.InDriver(w.bus, POLL) ==>
      var v := DoStep(c, w, BeginTick);
      && POLL in v.bus.threads
      && v.bus.threads[POLL] == Wire.Locking(
           Wire.Call(w.bus.next, if w.sys.policy.inBackoff then StartMeasurement else ReadMeasuredValues))
    ensures w.turn.Restarting? && Back(w) ==>
      var v := DoStep(c, w, AfterRestart(nowMs));
      && POLL in v.bus.threads
      && if w.bus.threads[POLL].answer == Done
         then v.bus.threads[POLL] == Wire.Locking(Wire.Call(w.bus.next, ReadMeasuredValues)) && v.sys == w.sys
         else v.sys.policy == Fail(c, w.sys.policy) && v.turn.Resting?
  {
  }

  // ----- The frames of the poll thread -----

  /** The i-th transfer is a reply, with the bytes raw, to a read command of the poll thread. */
  predicate Replied(trace: seq<Wire.Transfer>, own: set<nat>, i: nat, raw: Bytes) {
    && i < |trace| && trace[i].Read? && trace[i].raw == raw
    && trace[i].call.cmd == ReadMeasuredValues && trace[i].call.id in own
  }

  ghost predicate Backed(w: Whole, actions: seq<Action>) {
    forall raw: Bytes :: Fed(actions, raw) ==> exists i: nat :: Replied(w.bus.trace, w.own, i, raw)
  }

  lemma TraceGrows(c: PolicyConfig, w: Whole, step: Step)
    ensures w.bus.trace <= DoStep(c, w, step).bus.trace && w.own <= DoStep(c, w, step).own
  {
  }

  /** What is fetched for a call was read by it. */
  lemma {:induction false} FetchIsRead(trace: seq<Wire.Transfer>, call: Wire.Call, i: nat) returns (j: nat)
    requires i < |trace| && trace[i].Read? && trace[i].call == call
    ensures j < |trace| && trace[j].Read? && trace[j].call == call && Fetch(trace, call) == trace[j].raw
    decreases |trace|
  {
    var n := |trace| - 1;
    if trace[n].Read? && trace[n].call == call {
      j := n;
    } else {
      j := FetchIsRead(trace[..n], call, i);
    }
  }

  lemma MeasuredIsRead(b: Wire.Bus, t: nat) returns (i: nat)
    requires Wire.Inv(b) && t in b.threads && b.threads[t].Returned? && b.threads[t].answer.Measured?
    ensures i < |b.trace| && b.trace[i].Read? && b.trace[i].call == b.threads[t].call
    ensures |b.trace[i].raw| == MEASUREMENT_BYTES && WordsOk(b.trace[i].raw, MEASUREMENT_WORDS)
    ensures b.threads[t].answer.m == Decode(WordsOf(b.trace[i].raw))
  {
    i :| i < |b.trace| && Wire.Answers(b.trace, i, b.threads[t].call, b.threads[t].answer);
  }

  /** A call reads at most once. */
  lemma ReadsOnce(b: Wire.Bus, i: nat, j: nat)
    requires Wire.Inv(b) && i < |b.trace| && j < |b.trace|
    requires b.trace[i].Read? && b.trace[j].Read? && b.trace[i].call == b.trace[j].call
    ensures i == j
  {
    assert b.trace[i - 1] == Wire.Write(b.trace[i].call, 0, true);
    assert b.trace[j - 1] == Wire.Write(b.trace[j].call, 0, true);
  }

  lemma ArrivedIsRead(w: Whole) returns (i: nat)
    requires Wire.Inv(w.bus) && Back(w) && w.bus.threads[POLL].answer.Measured?
    ensures i < |w.bus.trace| && w.bus.trace[i].Read? && w.bus.trace[i].call == w.bus.threads[POLL].call
    ensures Arrived(w) == Frame(w.bus.trace[i].raw)
    ensures OutcomeOf(Arrived(w)) == ReadOk(w.bus.threads[POLL].answer.m)
  {
    var call := w.bus.threads[POLL].call;
    var k := MeasuredIsRead(w.bus, POLL);
    i := FetchIsRead(w.bus.trace, call, k);
    ReadsOnce(w.bus, i, k);
  }

  /** A tick hears exactly what the driver answered. */
  lemma TicksHearTheAnswer(c: PolicyConfig, startFailed: bool, steps: seq<Step>)
    ensures var w := Steps(c, Begin(c, startFailed), steps);
      Back(w) ==>
        var answer := w.bus.threads[POLL].answer;
        OutcomeOf(Arrived(w)) == (if answer.Measured? then ReadOk(answer.m) else ReadFailed)
  {
    var w := Steps(c, Begin(c, startFailed), steps);
    RunsHaveParts(c, startFailed, steps);
    Wire.AlwaysInv(BusSteps(c, Begin(c, startFailed), steps));
    if Back(w) && w.bus.threads[POLL].answer.Measured? { var _ := ArrivedIsRead(w); }
  }

  lemma RepliedStays(
    trace: seq<Wire.Transfer>, own: set<nat>, more: seq<Wire.Transfer>, also: set<nat>, i: nat, raw: Bytes)
    requires Replied(trace, own, i, raw) && trace <= more && own <= also
    ensures Replied(more, also, i, raw)
  {
  }

  lemma FedBefore(x: seq<Action>, y: seq<Action>, raw: Bytes)
    requires Fed(x + y, raw)
    ensures Fed(x, raw) || Fed(y, raw)
  {
    var i: nat :| i < |x + y| && (x + y)[i].PollTick? && (x + y)[i].bus == Frame(raw);
    if i < |x| { assert x[i].PollTick?; } else { assert y[i - |x|].PollTick? && y[i - |x|].bus == Frame(raw); }
  }

  /** A frame that a step feeds to the publication is a reply to the poll thread. */
  lemma FedIsReplied(c: PolicyConfig, w: Whole, step: Step, raw: Bytes) returns (i: nat)
    requires Wire.Inv(w.bus) && OwnCall(w) && Fed(SysPart(c, w, step), raw)
    ensures Replied(w.bus.trace, w.own, i, raw)
  {
    i := ArrivedIsRead(w);
  }

  lemma KeepsBacked(c: PolicyConfig, w: Whole, step: Step, actions: seq<Action>)
    requires Wire.Inv(w.bus) && OwnCall(w) && Backed(w, actions)
    ensures Backed(DoStep(c, w, step), actions + SysPart(c, w, step))
  {
    var v := DoStep(c, w, step);
    TraceGrows(c, w, step);
    forall raw: Bytes | Fed(actions + SysPart(c, w, step), raw)
      ensures exists i: nat :: Replied(v.bus.trace, v.own, i, raw)
    {
      FedBefore(actions, SysPart(c, w, step), raw);
      var i: nat;
      if Fed(actions, raw) {
        i :| Replied(w.bus.trace, w.own, i, raw);
      } else {
        i := FedIsReplied(c, w, step, raw);
      }
      RepliedStays(w.bus.trace, w.own, v.bus.trace, v.own, i, raw);
    }
  }

  lemma {:induction false} AlwaysBacked(c: PolicyConfig, startFailed: bool, steps: seq<Step>)
    ensures var w, v := Begin(c, startFailed), Steps(c, Begin(c, startFailed), steps);
      OwnCall(v) && Backed(v, SysSteps(c, w, steps))
    decreases |steps|
  {
    if steps != [] {
      var w, init, last := Begin(c, startFailed), steps[..|steps| - 1], steps[|steps| - 1];
      AlwaysBacked(c, startFailed, init);
      RunsHaveParts(c, startFailed, init);
      Wire.AlwaysInv(BusSteps(c, w, init));
      KeepsOwnCall(c, Steps(c, w, init), last);
      KeepsBacked(c, Steps(c, w, init), last, SysSteps(c, w, init));
    }
  }

  /**
   * From the sensor to the attributes while other threads share the bus: at rest, once a valid frame was
   * published, the attributes are the rendering of an intact reply that the sensor produced for the poll
   * thread's own read command.
   */
  lemma AttributesAnswerOwnCommand(c: PolicyConfig, startFailed: bool, steps: seq<Step>, w: Whole) returns (i: nat)
    requires w == Steps(c, Begin(c, startFailed), steps) && Quiescent(w.sys) && w.sys.snapshot.everValid
    ensures i < |w.bus.trace| && w.bus.trace[i].Read?
    ensures w.bus.trace[i].call.cmd == ReadMeasuredValues && w.bus.trace[i].call.id in w.own
    ensures Wire.SourceOf(w.bus.trace[..i]) == Wire.Command(w.bus.trace[i].call)
    ensures GoodFrame(w.bus.trace[i].raw) && w.sys.store == Render(Decode(WordsOf(w.bus.trace[i].raw)))
  {
    var actions := SysSteps(c, Begin(c, startFailed), steps);
    RunsHaveParts(c, startFailed, steps);
    AlwaysBacked(c, startFailed, steps);
    var frame := AttributesComeFromAFrame(c, startFailed, actions, w.sys);
    i :| Replied(w.bus.trace, w.own, i, frame);
    Wire.RepliesAreOwn(BusSteps(c, Begin(c, startFailed), steps), i);
  }

  // ----- Whose calls are whose -----

  /** No other thread's call is counted as the poll thread's. */
  predicate OthersApart(w: Whole) {
    && (forall id :: id in w.own ==> id < w.bus.next)
    && (forall t :: t in w.bus.threads && t != POLL ==> w.bus.threads[t].call.id !in w.own)
  }

  /** A step on the bus gives out at most the next id, and only to the thread that enters. */
  lemma WireGivesNextId(b: Wire.Bus, a: Wire.Action)
    ensures var d := Wire.Do(true, b, a);
      && b.next <= d.next
      && forall t :: t in d.threads ==>
           || (t in b.threads && d.threads[t].call == b.threads[t].call)
           || (a.Enter? && t == a.t && d.threads[t].call.id == b.next < d.next)
  {
  }

  lemma EnterIsOwn(w: Whole, cmd: Command, turn: Turn)
    requires OthersApart(w) && !Wire.InDriver(w.bus, POLL)
    requires forall t :: t in w.bus.threads ==> w.bus.threads[t].call.id < w.bus.next
    ensures OthersApart(Enter(w, cmd, turn))
  {
    WireGivesNextId(w.bus, Wire.Enter(POLL, cmd));
  }

  lemma KeepsOthersApart(c: PolicyConfig, w: Whole, step: Step)
    requires Wire.Identified(w.bus) && OthersApart(w)
    ensures OthersApart(DoStep(c, w, step))
  {
    match step
    case OnBus(b) => WireGivesNextId(w.bus, b);
    case OffBus(_) =>
    case BeginTick =>
      if !Wire.InDriver(w.bus, POLL) {
        EnterIsOwn(w, StartMeasurement, Restarting);
        EnterIsOwn(w, ReadMeasuredValues, Fetching);
      }
    case AfterRestart(_) => if Back(w) { EnterIsOwn(w, ReadMeasuredValues, Fetching); }
    case AfterRead(_) =>
  }

  /** The poll thread sends start and read commands only. */
  ghost predicate OwnCommands(w: Whole) {
    forall i: nat :: i < |w.bus.trace| && w.bus.trace[i].call.id in w.own ==>
      w.bus.trace[i].call.cmd == StartMeasurement || w.bus.trace[i].call.cmd == ReadMeasuredValues
  }

  /** A step on the bus adds at most one transfer, of a call in progress. */
  lemma WireAddsTransfer(b: Wire.Bus, a: Wire.Action)
    ensures var d := Wire.Do(true, b, a);
      || d.trace == b.trace
      || (&& a.t in b.threads && |d.trace| == |b.trace| + 1 && d.trace[..|b.trace|] == b.trace
          && d.trace[|b.trace|].call == b.threads[a.t].call)
  {
  }

  lemma KeepsOwnCommands(c: PolicyConfig, w: Whole, step: Step)
    requires Wire.Identified(w.bus) && OwnCall(w) && OthersApart(w) && OwnCommands(w)
    ensures OwnCommands(DoStep(c, w, step))
  {
    var v := DoStep(c, w, step);
    if step.OnBus? && MayStep(step.b) {
      WireAddsTransfer(w.bus, step.b);
      forall i: nat | i < |v.bus.trace| && v.bus.trace[i].call.id in v.own
        ensures v.bus.trace[i].call.cmd == StartMeasurement || v.bus.trace[i].call.cmd == ReadMeasuredValues
      {
        if i < |w.bus.trace| { assert v.bus.trace[i] == w.bus.trace[i]; }
      }
    } else {
      SameTrace(c, w, step);
    }
  }

  lemma SameTrace(c: PolicyConfig, w: Whole, step: Step)
    requires !(step.OnBus? && MayStep(step.b))
    ensures var v := DoStep(c, w, step);
      v.bus.trace == w.bus.trace && forall id :: id in v.own ==> id in w.own || id == w.bus.next
  {
  }

  /**
   * Whatever the other threads do, none of their calls counts as the poll thread's; and a call of the poll
   * thread is a read, or a restart when the policy is in backoff, never anything else.
   */
  lemma {:induction false} AlwaysApart(c: PolicyConfig, startFailed: bool, steps: seq<Step>)
    ensures var w := Steps(c, Begin(c, startFailed), steps);
      && OthersApart(w) && OwnCommands(w)
      && (w.turn.Restarting? ==> w.sys.policy.inBackoff)
    decreases |steps|
  {
    if steps != [] {
      var init := steps[..|steps| - 1];
      AlwaysApart(c, startFailed, init);
      RunsHaveParts(c, startFailed, init);
      Wire.AlwaysInv(BusSteps(c, Begin(c, startFailed), init));
      AlwaysBacked(c, startFailed, init);
      AlwaysBacked(c, startFailed, steps);
      KeepsOthersApart(c, Steps(c, Begin(c, startFailed), init), steps[|steps| - 1]);
      KeepsOwnCommands(c, Steps(c, Begin(c, startFailed), init), steps[|steps| - 1]);
    }
  }

  // ----- Such runs exist -----

  lemma {:induction false} StepsFirst(c: PolicyConfig, w: Whole, step: Step, rest: seq<Step>)
    ensures Steps(c, w, [step] + rest) == Steps(c, DoStep(c, w, step), rest)
    decreases |rest|
  {
    if rest == [] {
      assert [step] + rest == [step] && [step][..0] == [];
    } else {
      var init, last := rest[..|rest| - 1], rest[|rest| - 1];
      assert ([step] + rest)[..|rest|] == [step] + init;
      StepsFirst(c, w, step, init);
    }
  }

  function OffBusAll(actions: seq<Action>): (steps: seq<Step>)
    ensures |steps| == |actions|
    decreases |actions|
  {
    if actions == [] then [] else OffBusAll(actions[..|actions| - 1]) + [OffBus(actions[|actions| - 1])]
  }

  lemma {:induction false} OffBusRun(c: PolicyConfig, w: Whole, actions: seq<Action>)
    requires NoTicks(actions)
    ensures Steps(c, w, OffBusAll(actions)).sys == Exec(c, w.sys, actions)
    decreases |actions|
  {
    if actions != [] {
      var init := actions[..|actions| - 1];
      OffBusRun(c, w, init);
      assert OffBusAll(actions)[..|init|] == OffBusAll(init);
    }
  }

  function CallOf(raw: Bytes): seq<Step> {
    [OnBus(Wire.Lock(POLL)), OnBus(Wire.Send(POLL, 0, true)), OnBus(Wire.Wake(POLL)),
     OnBus(Wire.Receive(POLL, 0, raw)), OnBus(Wire.Unlock(POLL))]
  }

  lemma CallIsSent(c: PolicyConfig, w: Whole, call: Wire.Call, rest: seq<Step>) returns (v: Whole)
    requires POLL in w.bus.threads && w.bus.threads[POLL] == Wire.Locking(call) && w.bus.owner == Wire.Free
    requires call.cmd == ReadMeasuredValues
    ensures Steps(c, w, [OnBus(Wire.Lock(POLL))] + ([OnBus(Wire.Send(POLL, 0, true))] + rest)) == Steps(c, v, rest)
    ensures v.sys == w.sys && v.turn == w.turn
    ensures POLL in v.bus.threads && v.bus.threads[POLL] == Wire.Sleeping(call)
  {
    StepsFirst(c, w, OnBus(Wire.Lock(POLL)), [OnBus(Wire.Send(POLL, 0, true))] + rest);
    v := DoStep(c, w, OnBus(Wire.Lock(POLL)));
    StepsFirst(c, v, OnBus(Wire.Send(POLL, 0, true)), rest);
    v := DoStep(c, v, OnBus(Wire.Send(POLL, 0, true)));
  }

  lemma CallIsAnswered(c: PolicyConfig, w: Whole, call: Wire.Call, raw: Bytes, rest: seq<Step>) returns (v: Whole)
    requires POLL in w.bus.threads && w.bus.threads[POLL] == Wire.Sleeping(call)
    requires call.cmd == ReadMeasuredValues && |raw| == MEASUREMENT_BYTES
    ensures Steps(c, w, [OnBus(Wire.Wake(POLL))] + ([OnBus(Wire.Receive(POLL, 0, raw))] + rest)) == Steps(c, v, rest)
    ensures v.sys == w.sys && v.turn == w.turn && v.bus.trace == w.bus.trace + [Wire.Read(call, 0, raw)]
    ensures POLL in v.bus.threads
    ensures v.bus.threads[POLL] == Wire.Unlocking(call, AnswerOf(ReadMeasuredValues, Exchange(0, 0, raw)))
  {
    StepsFirst(c, w, OnBus(Wire.Wake(POLL)), [OnBus(Wire.Receive(POLL, 0, raw))] + rest);
    v := DoStep(c, w, OnBus(Wire.Wake(POLL)));
    StepsFirst(c, v, OnBus(Wire.Receive(POLL, 0, raw)), rest);
    v := DoStep(c, v, OnBus(Wire.Receive(POLL, 0, raw)));
  }

  lemma GoodAnswer(raw: Bytes)
    requires GoodFrame(raw)
    ensures AnswerOf(ReadMeasuredValues, Exchange(0, 0, raw)) == Measured(Decode(WordsOf(raw)))
  {
  }

  /** The poll thread's call on a free bus, up to its return. */
  lemma CallReturns(c: PolicyConfig, w: Whole, call: Wire.Call, raw: Bytes, rest: seq<Step>) returns (v: Whole)
    requires POLL in w.bus.threads && w.bus.threads[POLL] == Wire.Locking(call) && w.bus.owner == Wire.Free
    requires call.cmd == ReadMeasuredValues && GoodFrame(raw)
    ensures Steps(c, w, CallOf(raw) + rest) == Steps(c, v, rest)
    ensures v.sys == w.sys && v.turn == w.turn && Back(v) && Arrived(v) == Frame(raw)
  {
    var last := [OnBus(Wire.Unlock(POLL))] + rest;
    var reply := [OnBus(Wire.Wake(POLL))] + ([OnBus(Wire.Receive(POLL, 0, raw))] + last);
    assert CallOf(raw) + rest == [OnBus(Wire.Lock(POLL))] + ([OnBus(Wire.Send(POLL, 0, true))] + reply);
    v := CallIsSent(c, w, call, reply);
    v := CallIsAnswered(c, v, call, raw, last);
    StepsFirst(c, v, OnBus(Wire.Unlock(POLL)), rest);
    v := DoStep(c, v, OnBus(Wire.Unlock(POLL)));
    GoodAnswer(raw);
    FetchLast(v.bus.trace, call, raw);
  }

  lemma FetchLast(trace: seq<Wire.Transfer>, call: Wire.Call, raw: Bytes)
    requires trace != [] && trace[|trace| - 1] == Wire.Read(call, 0, raw)
    ensures Fetch(trace, call) == raw
  {
  }

  /** A first tick on the bus, before whatever comes next. */
  lemma FirstTickOnBus(c: PolicyConfig, raw: Bytes, rest: seq<Step>) returns (heard: Whole)
    requires GoodFrame(raw)
    ensures Steps(c, Begin(c, false), [BeginTick] + (CallOf(raw) + ([AfterRead(0)] + rest))) == Steps(c, heard, rest)
    ensures heard.sys == Do(c, Start(c, false), PollTick(Frame(raw), 0))
  {
    var w := Begin(c, false);
    StepsFirst(c, w, BeginTick, CallOf(raw) + ([AfterRead(0)] + rest));
    var v := CallReturns(c, DoStep(c, w, BeginTick), Wire.Call(0, ReadMeasuredValues), raw, [AfterRead(0)] + rest);
    StepsFirst(c, v, AfterRead(0), rest);
    heard := DoStep(c, v, AfterRead(0));
  }

  /** For every frame with a valid channel some run of the whole ends at rest with the attributes of that frame. */
  lemma SharedRunExists(c: PolicyConfig, ws: seq<u16>) returns (steps: seq<Step>)
    requires |ws| == 9 && Decode(ws).valid != {}
    ensures var w := Steps(c, Begin(c, false), steps);
      Quiescent(w.sys) && w.sys.snapshot.measurement.valid != {} && w.sys.store == Render(Decode(ws))
  {
    var raw := EncodeWords(ws);
    assert GoodFrame(raw) by { DecodeOfEncode(ws); }
    var rest := OneFrameSettles(c, false, ws);
    var heard := FirstTickOnBus(c, raw, OffBusAll(rest));
    steps := [BeginTick] + (CallOf(raw) + ([AfterRead(0)] + OffBusAll(rest)));
    OffBusRun(c, heard, rest);
    ExecFirstTick(c, Start(c, false), raw, rest);
  }

  lemma ExecFirstTick(c: PolicyConfig, s: Sys, raw: Bytes, rest: seq<Action>)
    ensures Exec(c, s, [PollTick(Frame(raw), 0)] + rest) == Exec(c, Do(c, s, PollTick(Frame(raw), 0)), rest)
  {
    ExecConcat(c, s, [PollTick(Frame(raw), 0)], rest);
    assert [PollTick(Frame(raw), 0)][..0] == [];
  }
}
