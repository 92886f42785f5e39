/**
 * Any number of threads in the entry points of the driver, on one bus guarded by one mutex. Each step is one
 * atomic transfer or one mutex operation, and steps of different threads interleave freely.
 */
module BusProtocol {
  import opened Sen66Crc
  import opened Sen66Protocol
  import opened Sen66Driver

  /** One call of an entry point; no two calls share an id. */
  datatype Call = Call(id: nat, cmd: Command)

  datatype Pc =
    | Locking(call: Call)
    | Sending(call: Call)
    | Sleeping(call: Call)
    | Reading(call: Call)
    | Unlocking(call: Call, answer: Answer)
    | Returned(call: Call, answer: Answer)

  /** A transfer. A failed write may still have been taken by the sensor. */
  datatype Transfer =
    | Write(call: Call, err: int, taken: bool)
    | Read(call: Call, err: int, raw: Bytes)

  datatype Owner = Free | Held(thread: nat)

  datatype Bus = Bus(owner: Owner, threads: map<nat, Pc>, next: nat, trace: seq<Transfer>)

  const QUIET := Bus(Free, map[], 0, [])

  datatype Action =
    | Enter(t: nat, cmd: Command)
    | Lock(t: nat)
    | Send(t: nat, err: int, taken: bool)
    | Wake(t: nat)
    | Receive(t: nat, err: int, raw: Bytes)
    | Unlock(t: nat)

  predicate InDriver(b: Bus, t: nat) { t in b.threads && !b.threads[t].Returned? }

  predicate MayLock(guarded: bool, b: Bus, t: nat) {
    t in b.threads && b.threads[t].Locking? && (guarded ==> b.owner == Free)
  }

  /** One step; a step that is not enabled changes nothing. Without its guard the mutex lets everybody in. */
  function Do(guarded: bool, b: Bus, a: Action): Bus {
    if a.Enter? then
      if InDriver(b, a.t) then b
      else b.(threads := b.threads[a.t := Locking(Call(b.next, a.cmd))], next := b.next + 1)
    else if a.t !in b.threads then b
    else
      var pc := b.threads[a.t];
      if a.Lock? && MayLock(guarded, b, a.t) then
        b.(owner := Held(a.t), threads := b.threads[a.t := Sending(pc.call)])
      else if a.Send? && pc.Sending? then
        b.(threads := b.threads[a.t :=
             if a.err == 0 then Sleeping(pc.call) else Unlocking(pc.call, Unsent(pc.call.cmd, a.err))],
           trace := b.trace + [Write(pc.call, a.err, a.taken || a.err == 0)])
      else if a.Wake? && pc.Sleeping? then
        b.(threads := b.threads[a.t :=
             if ReplyBytes(pc.call.cmd) == 0 then Unlocking(pc.call, Done) else Reading(pc.call)])
      else if a.Receive? && pc.Reading? && |a.raw| == ReplyBytes(pc.call.cmd) then
        b.(threads := b.threads[a.t := Unlocking(pc.call, AnswerOf(pc.call.cmd, Exchange(0, a.err, a.raw)))],
           trace := b.trace + [Read(pc.call, a.err, a.raw)])
      else if a.Unlock? && pc.Unlocking? then
        b.(owner := Free, threads := b.threads[a.t := Returned(pc.call, pc.answer)])
      else b
  }

  /** The answer after a failed write. */
  function Unsent(cmd: Command, err: int): Answer {
    if cmd.GetDataReady? then DataReady(false) else Failure(err)
  }

  function Exec(guarded: bool, b: Bus, actions: seq<Action>): Bus
    decreases |actions|
  {
    if actions == [] then b
    else Do(guarded, Exec(guarded, b, actions[..|actions| - 1]), actions[|actions| - 1])
  }

  // ----- Whose command the sensor answers -----

  datatype Source = Nothing | Command(call: Call)

  /** The sensor answers the last command it took. */
  function SourceOf(trace: seq<Transfer>): Source
    decreases |trace|
  {
    if trace == [] then Nothing
    else
      var last := trace[|trace| - 1];
      if last.Write? && last.taken then Command(last.call) else SourceOf(trace[..|trace| - 1])
  }

  /** The i-th transfer reads the reply to the reader's own command. */
  predicate OwnReply(trace: seq<Transfer>, i: nat) {
    i < |trace| && trace[i].Read? ==> SourceOf(trace[..i]) == Command(trace[i].call)
  }

  // ----- What every step keeps -----

  predicate Inside(pc: Pc) { !pc.Locking? && !pc.Returned? }

  /** Only the owner of the mutex is past BusLock. */
  ghost predicate Exclusive(b: Bus) {
    forall t: nat :: b.owner == Held(t) <==> t in b.threads && Inside(b.threads[t])
  }

  /** Reads directly follow the write of the same call. */
  ghost predicate Paired(trace: seq<Transfer>) {
    forall i: nat :: i < |trace| && trace[i].Read? ==> i > 0 && trace[i - 1] == Write(trace[i].call, 0, true)
  }

  /** Between its write and its read a thread's write is the newest transfer. */
  ghost predicate Fresh(b: Bus) {
    forall t :: t in b.threads && (b.threads[t].Sleeping? || b.threads[t].Reading?) ==>
      b.trace != [] && b.trace[|b.trace| - 1] == Write(b.threads[t].call, 0, true)
  }

  /** A call has an id of its own, older than the next. */
  ghost predicate Identified(b: Bus) {
    && (forall t :: t in b.threads ==> b.threads[t].call.id < b.next)
    && (forall t, u :: t in b.threads && u in b.threads && t != u ==> b.threads[t].call.id != b.threads[u].call.id)
    && (forall i: nat :: i < |b.trace| ==> b.trace[i].call.id < b.next)
  }

  predicate Unstarted(pc: Pc) { pc.Locking? || pc.Sending? }

  /** A call writes at most once. */
  ghost predicate WritesOnce(b: Bus) {
    && (forall t, i: nat :: t in b.threads && Unstarted(b.threads[t]) && i < |b.trace| ==>
          b.trace[i].call.id != b.threads[t].call.id)
    && (forall i: nat, j: nat :: i < j < |b.trace| && b.trace[i].Write? && b.trace[j].Write? ==>
          b.trace[i].call.id != b.trace[j].call.id)
  }

  /** The answer of a call is that of the transfers at the end of its exchange. */
  ghost predicate Answers(trace: seq<Transfer>, i: nat, call: Call, answer: Answer)
    requires i < |trace|
  {
    var x := trace[i];
    && x.call == call
    && match x
       case Write(_, err, _) =>
         if err != 0 then answer == Unsent(call.cmd, err) else ReplyBytes(call.cmd) == 0 && answer == Done
       case Read(_, err, raw) =>
         |raw| == ReplyBytes(call.cmd) && answer == AnswerOf(call.cmd, Exchange(0, err, raw))
  }

  ghost predicate Answered(b: Bus) {
    forall t :: t in b.threads && (b.threads[t].Unlocking? || b.threads[t].Returned?) ==>
      exists i: nat :: i < |b.trace| && Answers(b.trace, i, b.threads[t].call, b.threads[t].answer)
  }

  lemma KeepsExclusive(b: Bus, a: Action)
    requires Exclusive(b)
    ensures Exclusive(Do(true, b, a))
  {
  }

  lemma KeepsPaired(b: Bus, a: Action)
    requires Exclusive(b) && Fresh(b) && Paired(b.trace)
    ensures Fresh(Do(true, b, a)) && Paired(Do(true, b, a).trace)
  {
  }

  lemma KeepsIdentified(b: Bus, a: Action)
    requires Identified(b)
    ensures Identified(Do(true, b, a))
  {
  }

  lemma KeepsWritesOnce(b: Bus, a: Action)
    requires Identified(b) && WritesOnce(b)
    ensures WritesOnce(Do(true, b, a))
  {
  }

  lemma KeepsAnswered(b: Bus, a: Action)
    requires Exclusive(b) && Fresh(b) && Answered(b)
    ensures Answered(Do(true, b, a))
  {
    var c := Do(true, b, a);
    forall t | t in c.threads && (c.threads[t].Unlocking? || c.threads[t].Returned?)
      ensures exists i: nat :: i < |c.trace| && Answers(c.trace, i, c.threads[t].call, c.threads[t].answer)
    {
      if t in b.threads && (b.threads[t].Unlocking? || b.threads[t].Returned?) {
        var i: nat :| i < |b.trace| && Answers(b.trace, i, b.threads[t].call, b.threads[t].answer);
        assert Answers(c.trace, i, c.threads[t].call, c.threads[t].answer);
      } else {
        assert Answers(c.trace, |c.trace| - 1, c.threads[t].call, c.threads[t].answer);
      }
    }
  }

  ghost predicate Inv(b: Bus) {
    Exclusive(b) && Fresh(b) && Paired(b.trace) && Identified(b) && WritesOnce(b) && Answered(b)
  }

  lemma {:induction false} AlwaysInv(actions: seq<Action>)
    ensures Inv(Exec(true, QUIET, actions))
    decreases |actions|
  {
    if actions != [] {
      var init, a := actions[..|actions| - 1], actions[|actions| - 1];
      AlwaysInv(init);
      var b := Exec(true, QUIET, init);
      KeepsExclusive(b, a);
      KeepsPaired(b, a);
      KeepsIdentified(b, a);
      KeepsWritesOnce(b, a);
      KeepsAnswered(b, a);
    }
  }

  // ----- Main results -----

  /** At most one thread is between its lock and its unlock. */
  lemma MutualExclusion(actions: seq<Action>, t: nat, u: nat)
    ensures var b := Exec(true, QUIET, actions);
      t in b.threads && u in b.threads && Inside(b.threads[t]) && Inside(b.threads[u]) ==> t == u
  {
    AlwaysInv(actions);
  }

  /**
   * Whatever the threads and the interleaving, every reply read from the sensor was produced by the reader's
   * own command: it directly follows that command, which is the only one the call ever sent.
   */
  lemma RepliesAreOwn(actions: seq<Action>, i: nat)
    requires i < |Exec(true, QUIET, actions).trace|
    ensures var trace := Exec(true, QUIET, actions).trace;
      && OwnReply(trace, i)
      && (trace[i].Read? ==>
            && i > 0 && trace[i - 1] == Write(trace[i].call, 0, true)
            && forall j: nat :: j < |trace| && trace[j].Write? && trace[j].call.id == trace[i].call.id ==> j == i - 1)
  {
    AlwaysInv(actions);
    var trace := Exec(true, QUIET, actions).trace;
    if trace[i].Read? {
      assert trace[..i][..i - 1] == trace[..i - 1] && trace[..i][i - 1] == trace[i - 1];
    }
  }

  /** So a measurement that a call returns was decoded from an intact reply to that very call. */
  lemma MeasurementsAreOwn(actions: seq<Action>, t: nat) returns (i: nat)
    requires t in Exec(true, QUIET, actions).threads
    requires Exec(true, QUIET, actions).threads[t].Returned? && Exec(true, QUIET, actions).threads[t].answer.Measured?
    ensures var b := Exec(true, QUIET, actions);
      && i < |b.trace| && b.trace[i].Read? && b.trace[i].call == b.threads[t].call
      && SourceOf(b.trace[..i]) == Command(b.threads[t].call)
      && b.threads[t].call.cmd == ReadMeasuredValues
      && |b.trace[i].raw| == MEASUREMENT_BYTES && WordsOk(b.trace[i].raw, MEASUREMENT_WORDS)
      && b.threads[t].answer.m == Decode(WordsOf(b.trace[i].raw))
  {
    AlwaysInv(actions);
    var b := Exec(true, QUIET, actions);
    i :| i < |b.trace| && Answers(b.trace, i, b.threads[t].call, b.threads[t].answer);
    RepliesAreOwn(actions, i);
  }

  lemma {:induction false} ExecSnoc(guarded: bool, b: Bus, actions: seq<Action>, a: Action)
    ensures Exec(guarded, b, actions + [a]) == Do(guarded, Exec(guarded, b, actions), a)
  {
    assert (actions + [a])[..|actions|] == actions;
  }

  lemma {:induction false} ExecFirst(guarded: bool, b: Bus, a: Action, rest: seq<Action>)
    ensures Exec(guarded, b, [a] + rest) == Exec(guarded, Do(guarded, b, a), rest)
    decreases |rest|
  {
    if rest == [] {
      assert [a] + rest == [a] && [a][..0] == [];
    } else {
      var init, last := rest[..|rest| - 1], rest[|rest| - 1];
      ExecFirst(guarded, b, a, init);
      ExecSnoc(guarded, b, [a] + init, last);
      ExecSnoc(guarded, Do(guarded, b, a), init, last);
      assert [a] + rest == ([a] + init) + [last] && rest == init + [last];
    }
  }

  /** The steps of one call, and those of its part after the write. */
  function ReplySteps(t: nat, x: Exchange): seq<Action> { [Wake(t), Receive(t, x.recvErr, x.raw), Unlock(t)] }

  function CallSteps(t: nat, cmd: Command, x: Exchange, taken: bool): seq<Action> {
    [Enter(t, cmd), Lock(t), Send(t, x.sendErr, taken)] + ReplySteps(t, x)
  }

  lemma ReplyEffect(b: Bus, t: nat, call: Call, x: Exchange)
    requires |x.raw| == ReplyBytes(call.cmd) && t in b.threads
    requires b.threads[t] == if x.sendErr == 0 then Sleeping(call) else Unlocking(call, Unsent(call.cmd, x.sendErr))
    ensures var e := Exec(true, b, ReplySteps(t, x));
      e.owner == Free && t in e.threads && e.threads[t] == Returned(call, AnswerOf(call.cmd, x))
  {
    var b1 := Do(true, b, Wake(t));
    var b2 := Do(true, b1, Receive(t, x.recvErr, x.raw));
    assert ReplySteps(t, x) == [Wake(t)] + ([Receive(t, x.recvErr, x.raw)] + ([Unlock(t)] + []));
    ExecFirst(true, b, Wake(t), [Receive(t, x.recvErr, x.raw)] + ([Unlock(t)] + []));
    ExecFirst(true, b1, Receive(t, x.recvErr, x.raw), [Unlock(t)] + []);
    ExecFirst(true, b2, Unlock(t), []);
  }

  /** The steps of a call, run without interruption, give the answer that the entry point gives. */
  lemma CallIsTheEntryPoint(b: Bus, t: nat, cmd: Command, x: Exchange, taken: bool)
    requires b.owner == Free && !InDriver(b, t) && |x.raw| == ReplyBytes(cmd)
    ensures var e := Exec(true, b, CallSteps(t, cmd, x, taken));
      e.owner == Free && t in e.threads && e.threads[t] == Returned(Call(b.next, cmd), AnswerOf(cmd, x))
  {
    var b1 := Do(true, b, Enter(t, cmd));
    var b2 := Do(true, b1, Lock(t));
    var b3 := Do(true, b2, Send(t, x.sendErr, taken));
    var rest := ReplySteps(t, x);
    assert CallSteps(t, cmd, x, taken) == [Enter(t, cmd)] + ([Lock(t)] + ([Send(t, x.sendErr, taken)] + rest));
    ExecFirst(true, b, Enter(t, cmd), [Lock(t)] + ([Send(t, x.sendErr, taken)] + rest));
    ExecFirst(true, b1, Lock(t), [Send(t, x.sendErr, taken)] + rest);
    ExecFirst(true, b2, Send(t, x.sendErr, taken), rest);
    ReplyEffect(b3, t, Call(b.next, cmd), x);
  }

  const CROSSED: seq<Action> := [
    Enter(0, GetDataReady), Enter(1, GetSerialNumber), Lock(0), Send(0, 0, true), Lock(1), Send(1, 0, true),
    Wake(0), Receive(0, 0, [0, 0, 0])]

  lemma CrossedStep(k: nat)
    requires k < 8
    ensures Exec(false, QUIET, CROSSED[..k + 1]) == Do(false, Exec(false, QUIET, CROSSED[..k]), CROSSED[k])
  {
    ExecSnoc(false, QUIET, CROSSED[..k], CROSSED[k]);
    assert CROSSED[..k + 1] == CROSSED[..k] + [CROSSED[k]];
  }

  /** Halfway, one thread waits for the reply to its command and another one for the mutex. */
  lemma CrossedStart(x: Call, y: Call)
    requires x == Call(0, GetDataReady) && y == Call(1, GetSerialNumber)
    ensures Exec(false, QUIET, CROSSED[..4])
         == Bus(Held(0), map[0 := Sleeping(x), 1 := Locking(y)], 2, [Write(x, 0, true)])
  {
    CrossedStep(0);
    CrossedStep(1);
    CrossedStep(2);
    CrossedStep(3);
    assert Exec(false, QUIET, CROSSED[..2]) == Bus(Free, map[0 := Locking(x), 1 := Locking(y)], 2, []);
  }

  /**
   * The mutex is what ensures it: were it to let everybody in, another thread's command could fall into an
   * exchange, and its reply would go to the wrong caller.
   */
  lemma MutexIsNeeded()
    ensures var trace := Exec(false, QUIET, CROSSED).trace;
      |trace| == 3 && trace[2].Read? && trace[2].call.cmd == GetDataReady
      && SourceOf(trace[..2]) == Command(Call(1, GetSerialNumber))
  {
    var x, y := Call(0, GetDataReady), Call(1, GetSerialNumber);
    CrossedStart(x, y);
    CrossedStep(4);
    CrossedStep(5);
    var b := Exec(false, QUIET, CROSSED[..6]);
    assert b == Bus(Held(1), map[0 := Sleeping(x), 1 := Sleeping(y)], 2, [Write(x, 0, true), Write(y, 0, true)]);
    CrossedStep(6);
    CrossedStep(7);
    assert CROSSED[..8] == CROSSED;
    assert Exec(false, QUIET, CROSSED).trace[..2] == b.trace;
  }
}
