/** The entry points of the sensor driver (src/sen66/sen66_driver.cpp), each one exchange on the bus. */
module Sen66Driver {
  import opened Integers
  import opened Sen66Crc
  import opened Sen66Protocol

  const EIO: int := 5
  const DATA_READY_BYTES: nat := 3
  const EXEC_READ_MS: nat := 20
  const EXEC_START_MS: nat := 50
  const EXEC_STOP_MS: nat := 1000

  datatype Command = GetSerialNumber | StartMeasurement | StopMeasurement | GetDataReady | ReadMeasuredValues

  function Opcode(cmd: Command): u16 {
    match cmd
    case StartMeasurement => 0x0021
    case StopMeasurement => 0x0104
    case GetDataReady => 0x0202
    case ReadMeasuredValues => 0x0300
    case GetSerialNumber => 0xD033
  }

  /** The bytes of a command on the wire. */
  function CommandBytes(cmd: Command): Bytes { [HighByte(Opcode(cmd)), LowByte(Opcode(cmd))] }

  /** What is written tells the commands apart. */
  lemma CommandBytesInjective(a: Command, b: Command)
    ensures CommandBytes(a) == CommandBytes(b) <==> a == b
  {
    if CommandBytes(a) == CommandBytes(b) {
      assert HighByte(Opcode(a)) == CommandBytes(a)[0] == CommandBytes(b)[0] == HighByte(Opcode(b));
      assert LowByte(Opcode(a)) == CommandBytes(a)[1] == CommandBytes(b)[1] == LowByte(Opcode(b));
      SplitWord(Opcode(a));
      SplitWord(Opcode(b));
    }
  }

  /** The time that a command is given to execute. */
  function ExecMs(cmd: Command): nat {
    match cmd
    case StartMeasurement => EXEC_START_MS
    case StopMeasurement => EXEC_STOP_MS
    case _ => EXEC_READ_MS
  }

  /** The bytes that an entry point reads back after its command. */
  function ReplyBytes(cmd: Command): nat {
    match cmd
    case GetSerialNumber => SERIAL_BYTES
    case StartMeasurement => 0
    case StopMeasurement => 0
    case GetDataReady => DATA_READY_BYTES
    case ReadMeasuredValues => MEASUREMENT_BYTES
  }

  /** What the bus did: the error of the write, the error of the read, and the bytes read. */
  datatype Exchange = Exchange(sendErr: int, recvErr: int, raw: Bytes)

  predicate Transferred(x: Exchange) { x.sendErr == 0 && x.recvErr == 0 }

  /** What the caller of an entry point is told. */
  datatype Answer =
    | Failure(err: int)
    | Done
    | Serial(text: Bytes)
    | DataReady(ready: bool)
    | Measured(m: Measurement)

  /** The answer to a command, its reply being x. */
  function AnswerOf(cmd: Command, x: Exchange): Answer
    requires |x.raw| == ReplyBytes(cmd)
  {
    if cmd.GetDataReady? then DataReady(Transferred(x) && WordsOk(x.raw, 1) && x.raw[1] == 1)
    else if x.sendErr != 0 then Failure(x.sendErr)
    else if cmd.StartMeasurement? || cmd.StopMeasurement? then Done
    else if x.recvErr != 0 then Failure(x.recvErr)
    else if !WordsOk(x.raw, WordCount(x.raw)) then Failure(-EIO)
    else if cmd.GetSerialNumber? then Serial(Payload(x.raw, SERIAL_WORDS))
    else Measured(Decode(WordsOf(x.raw)))
  }

  lemma SerialAnswer(x: Exchange, err: int)
    requires |x.raw| == SERIAL_BYTES
    requires err == if x.sendErr != 0 then x.sendErr else if x.recvErr != 0 then x.recvErr
      else if WordsOk(x.raw, SERIAL_WORDS) then 0 else -EIO
    ensures AnswerOf(GetSerialNumber, x) == if err == 0 then Serial(Payload(x.raw, SERIAL_WORDS)) else Failure(err)
  {
  }

  /** The sensor is ready when it answers with the word one, and not when it answers with zero. */
  lemma ReadyWord(x: Exchange)
    requires Transferred(x) && |x.raw| == DATA_READY_BYTES
    ensures x.raw == EncodeWord(1) ==> AnswerOf(GetDataReady, x) == DataReady(true)
    ensures x.raw == EncodeWord(0) ==> AnswerOf(GetDataReady, x) == DataReady(false)
  {
    BytesOfWord(1, 0, 1);
    BytesOfWord(0, 0, 0);
    DecodeOfEncode([1]);
    DecodeOfEncode([0]);
    OneWord(1);
    OneWord(0);
  }

  lemma OneWord(w: u16)
    ensures EncodeWords([w]) == EncodeWord(w)
  {
    assert [] + [w] == [w];
    EncodeAppend([], w);
  }

  /** A buffer that holds a serial number and its terminator. */
  predicate SerialIn(buffer: Bytes, answer: Answer) { answer.Serial? && buffer == answer.text + [0] }

  // ----- What an entry point does on the bus -----

  datatype BusEvent = Locked | Wrote(bytes: Bytes, taken: bool) | Slept(ms: nat) | Fetched(length: nat) | Unlocked

  /** The whole exchange under the lock: command, execution time, reply; a failed command ends it. */
  function EventsOf(cmd: Command, x: Exchange): seq<BusEvent> {
    var command := Wrote(CommandBytes(cmd), x.sendErr == 0);
    if x.sendErr != 0 then [Locked, command, Unlocked]
    else if ReplyBytes(cmd) == 0 then [Locked, command, Slept(ExecMs(cmd)), Unlocked]
    else [Locked, command, Slept(ExecMs(cmd)), Fetched(ReplyBytes(cmd)), Unlocked]
  }

  lemma BytesOfWord(w: u16, hi: bv8, lo: bv8)
    requires w == 256 * (hi as int) + lo as int
    ensures HighByte(w) == hi && LowByte(w) == lo
  {
    JoinBytes(hi, lo);
  }

  /** The exchanges in full, bytes, milliseconds and lengths, when the command is taken. */
  lemma ExchangesInFull(x: Exchange)
    requires x.sendErr == 0
    ensures EventsOf(StartMeasurement, x) == [Locked, Wrote([0x00, 0x21], true), Slept(50), Unlocked]
    ensures EventsOf(StopMeasurement, x) == [Locked, Wrote([0x01, 0x04], true), Slept(1000), Unlocked]
    ensures EventsOf(GetDataReady, x) == [Locked, Wrote([0x02, 0x02], true), Slept(20), Fetched(3), Unlocked]
    ensures EventsOf(ReadMeasuredValues, x) == [Locked, Wrote([0x03, 0x00], true), Slept(20), Fetched(27), Unlocked]
    ensures EventsOf(GetSerialNumber, x) == [Locked, Wrote([0xD0, 0x33], true), Slept(20), Fetched(48), Unlocked]
  {
    CommandsInFull();
  }

  /** A command that the bus fails to write ends its exchange. */
  lemma FailedExchange(cmd: Command, x: Exchange)
    requires x.sendErr != 0
    ensures EventsOf(cmd, x) == [Locked, Wrote(CommandBytes(cmd), false), Unlocked]
  {
  }

  lemma CommandsInFull()
    ensures CommandBytes(StartMeasurement) == [0x00, 0x21] && CommandBytes(StopMeasurement) == [0x01, 0x04]
    ensures CommandBytes(GetDataReady) == [0x02, 0x02] && CommandBytes(ReadMeasuredValues) == [0x03, 0x00]
    ensures CommandBytes(GetSerialNumber) == [0xD0, 0x33]
  {
    BytesOfWord(Opcode(StartMeasurement), 0x00, 0x21);
    BytesOfWord(Opcode(StopMeasurement), 0x01, 0x04);
    BytesOfWord(Opcode(GetDataReady), 0x02, 0x02);
    BytesOfWord(Opcode(ReadMeasuredValues), 0x03, 0x00);
    BytesOfWord(Opcode(GetSerialNumber), 0xD0, 0x33);
  }

  // ----- Commands in a record -----

  /** How often given bytes were written, taken by the sensor or not. */
  function Writes(es: seq<BusEvent>, bytes: Bytes): nat
    decreases |es|
  {
    if es == [] then 0
    else Writes(es[..|es| - 1], bytes) + Bit(es[|es| - 1].Wrote? && es[|es| - 1].bytes == bytes)
  }

  lemma {:induction false} WritesConcat(a: seq<BusEvent>, b: seq<BusEvent>, bytes: Bytes)
    ensures Writes(a + b, bytes) == Writes(a, bytes) + Writes(b, bytes)
    decreases |b|
  {
    if b == [] {
      assert a + b == a;
    } else {
      assert (a + b)[..|a + b| - 1] == a + b[..|b| - 1];
      WritesConcat(a, b[..|b| - 1], bytes);
    }
  }

  lemma {:induction false} WritesAtSecond(es: seq<BusEvent>, bytes: Bytes)
    requires |es| >= 2 && es[0].Locked? && es[1].Wrote? && forall k :: 2 <= k < |es| ==> !es[k].Wrote?
    ensures Writes(es, bytes) == Bit(bytes == es[1].bytes)
    decreases |es|
  {
    var init := es[..|es| - 1];
    if |es| > 2 {
      WritesAtSecond(init, bytes);
    } else {
      assert init == [es[0]] && [es[0]][..0] == [];
      assert Writes(init, bytes) == Writes([], bytes) + Bit(false);
    }
  }

  /** An exchange writes its own command once and no other. */
  lemma WritesOfExchange(cmd: Command, x: Exchange, bytes: Bytes)
    ensures Writes(EventsOf(cmd, x), bytes) == Bit(bytes == CommandBytes(cmd))
  {
    var es := EventsOf(cmd, x);
    forall k | 2 <= k < |es| ensures !es[k].Wrote? { EventsShape(cmd, x, k); }
    WritesAtSecond(es, bytes);
  }

  /** The same events, one after the other onto a record. */
  function Recorded(record: seq<BusEvent>, cmd: Command, x: Exchange): seq<BusEvent> {
    var sent := record + [Locked] + [Wrote(CommandBytes(cmd), x.sendErr == 0)];
    if x.sendErr != 0 then sent + [Unlocked]
    else if ReplyBytes(cmd) == 0 then sent + [Slept(ExecMs(cmd))] + [Unlocked]
    else sent + [Slept(ExecMs(cmd))] + [Fetched(ReplyBytes(cmd))] + [Unlocked]
  }

  lemma RecordedInOrder(record: seq<BusEvent>, cmd: Command, x: Exchange)
    ensures Recorded(record, cmd, x) == record + EventsOf(cmd, x)
  {
  }

  /** A call of an entry point and what the bus did. */
  datatype Called = Called(cmd: Command, x: Exchange)

  /** The record that a sequence of calls leaves behind. */
  function RecordOf(calls: seq<Called>): seq<BusEvent>
    decreases |calls|
  {
    if calls == [] then [] else
      var last := calls[|calls| - 1];
      RecordOf(calls[..|calls| - 1]) + EventsOf(last.cmd, last.x)
  }

  /** Whether the mutex is held after a record. */
  function HeldAfter(es: seq<BusEvent>): bool
    decreases |es|
  {
    if es == [] then false
    else if es[|es| - 1].Locked? then true
    else if es[|es| - 1].Unlocked? then false
    else HeldAfter(es[..|es| - 1])
  }

  /** A taken command, its wait, and a fetch of its reply. */
  predicate Fetches(cmd: Command, a: BusEvent, b: BusEvent, e: BusEvent) {
    a == Wrote(CommandBytes(cmd), true) && b == Slept(ExecMs(cmd)) && e == Fetched(ReplyBytes(cmd))
  }

  ghost predicate IsFetch(a: BusEvent, b: BusEvent, e: BusEvent) { exists cmd: Command :: Fetches(cmd, a, b, e) }

  /** After a command comes its own wait if it was taken, and the unlock if it was not. */
  predicate Follows(cmd: Command, a: BusEvent, b: BusEvent) {
    a.Wrote? && a.bytes == CommandBytes(cmd) && b == if a.taken then Slept(ExecMs(cmd)) else Unlocked
  }

  ghost predicate IsFollowed(a: BusEvent, b: BusEvent) { exists cmd: Command :: Follows(cmd, a, b) }

  /**
   * The event at i is in order: nobody locks twice, the rest happens under the lock, commands are followed by
   * their waits and fetches follow their commands.
   */
  ghost predicate InOrder(es: seq<BusEvent>, i: nat)
    requires i < |es|
  {
    && (HeldAfter(es[..i]) <==> !es[i].Locked?)
    && (es[i].Fetched? ==> i >= 2 && IsFetch(es[i - 2], es[i - 1], es[i]))
    && (es[i].Wrote? ==> i + 1 < |es| && IsFollowed(es[i], es[i + 1]))
  }

  lemma HeldConcat(a: seq<BusEvent>, b: seq<BusEvent>, i: nat)
    requires i <= |b| && !HeldAfter(a)
    ensures (a + b)[..|a| + i] == a + b[..i] && HeldAfter(a + b[..i]) == HeldAfter(b[..i])
    decreases i
  {
    assert (a + b)[..|a| + i] == a + b[..i];
    if i == 0 {
      assert a + b[..0] == a;
    } else {
      HeldConcat(a, b, i - 1);
      assert (a + b[..i])[..|a| + i - 1] == a + b[..i - 1] && b[..i][..i - 1] == b[..i - 1];
    }
  }

  lemma ListShape(es: seq<BusEvent>, w: BusEvent, s: BusEvent, f: BusEvent, k: nat)
    requires k < |es| && w.Wrote? && s.Slept? && f.Fetched? && (w.taken <==> |es| > 3)
    requires es == [Locked, w, Unlocked] || es == [Locked, w, s, Unlocked] || es == [Locked, w, s, f, Unlocked]
    ensures (es[k].Locked? <==> k == 0) && (es[k].Unlocked? <==> k == |es| - 1)
    ensures es[k].Fetched? ==> k == 3 && es[1] == w && es[2] == s && es[3] == f && w.taken
    ensures es[k].Wrote? ==> k == 1 && es[1] == w && es[2] == if w.taken then s else Unlocked
  {
  }

  /** Lock first, unlock last, and in between one command with its wait and its fetch. */
  lemma EventsShape(cmd: Command, x: Exchange, k: nat)
    requires k < |EventsOf(cmd, x)|
    ensures var es := EventsOf(cmd, x);
      && (es[k].Locked? <==> k == 0) && (es[k].Unlocked? <==> k == |es| - 1)
      && (es[k].Fetched? ==> k == 3 && Fetches(cmd, es[1], es[2], es[3]))
      && (es[k].Wrote? ==> k == 1 && Follows(cmd, es[1], es[2]))
  {
    var command := Wrote(CommandBytes(cmd), x.sendErr == 0);
    ListShape(EventsOf(cmd, x), command, Slept(ExecMs(cmd)), Fetched(ReplyBytes(cmd)), k);
  }

  lemma CallInOrder(cmd: Command, x: Exchange, i: nat)
    requires i < |EventsOf(cmd, x)|
    ensures InOrder(EventsOf(cmd, x), i) && !HeldAfter(EventsOf(cmd, x))
  {
    var es := EventsOf(cmd, x);
    forall k: nat | k < |es|
      ensures (es[k].Locked? <==> k == 0) && (es[k].Unlocked? <==> k == |es| - 1)
    {
      EventsShape(cmd, x, k);
    }
    HeldFrom(es, i);
    EventsShape(cmd, x, i);
  }

  lemma {:induction false} HeldFrom(es: seq<BusEvent>, i: nat)
    requires i < |es| && es[0].Locked? && forall k :: 0 < k < i ==> !es[k].Locked? && !es[k].Unlocked?
    ensures HeldAfter(es[..i]) <==> i > 0
    decreases i
  {
    if i > 1 {
      HeldFrom(es, i - 1);
      assert es[..i][..i - 1] == es[..i - 1];
    } else if i == 1 {
      assert es[..1] == [es[0]];
    }
  }

  lemma OrderShifts(a: seq<BusEvent>, b: seq<BusEvent>, i: nat)
    requires !HeldAfter(a) && i < |b| && InOrder(b, i)
    ensures InOrder(a + b, |a| + i)
  {
    HeldConcat(a, b, i);
    var es := a + b;
    assert forall k :: 0 <= k < |b| ==> es[|a| + k] == b[k];
    if b[i].Fetched? { assert es[|a| + i - 2] == b[i - 2] && es[|a| + i - 1] == b[i - 1]; }
    if b[i].Wrote? { assert es[|a| + i + 1] == b[i + 1]; }
  }

  lemma OrderStays(a: seq<BusEvent>, b: seq<BusEvent>, i: nat)
    requires i < |a| && InOrder(a, i)
    ensures InOrder(a + b, i)
  {
    var es := a + b;
    assert es[..i] == a[..i] && forall k :: 0 <= k < |a| ==> es[k] == a[k];
  }

  /**
   * Whatever the driver is called for and however the bus fails, its record is in order throughout: locks
   * alternate with unlocks, every transfer is made under the lock, every command is followed by its own wait, and
   * every fetch by length and place is that of its command. The mutex is always released.
   */
  lemma {:induction false} RecordsAreInOrder(calls: seq<Called>)
    ensures !HeldAfter(RecordOf(calls))
    ensures forall i: nat :: i < |RecordOf(calls)| ==> InOrder(RecordOf(calls), i)
    decreases |calls|
  {
    if calls != [] {
      var init, last := calls[..|calls| - 1], calls[|calls| - 1];
      RecordsAreInOrder(init);
      var a, b := RecordOf(init), EventsOf(last.cmd, last.x);
      CallInOrder(last.cmd, last.x, 0);
      HeldConcat(a, b, |b|);
      assert b[..|b|] == b;
      forall i: nat | i < |a + b| ensures InOrder(a + b, i) {
        if i < |a| {
          OrderStays(a, b, i);
        } else {
          CallInOrder(last.cmd, last.x, i - |a|);
          OrderShifts(a, b, i - |a|);
        }
      }
    }
  }

  /** The sensor's bus and its mutex, with a record of what happened on it. */
  class I2cBus {
    var events: seq<BusEvent>

    constructor ()
      ensures events == []
    {
      events := [];
    }

    method Lock()
      modifies this
      ensures events == old(events) + [Locked]
    {
      events := events + [Locked];
    }

    method Unlock()
      modifies this
      ensures events == old(events) + [Unlocked]
    {
      events := events + [Unlocked];
    }

    method SendCommand(cmd: Command, x: Exchange) returns (err: int)
      modifies this
      ensures events == old(events) + [Wrote(CommandBytes(cmd), x.sendErr == 0)] && err == x.sendErr
    {
      var opcode := Opcode(cmd);
      events := events + [Wrote([HighByte(opcode), LowByte(opcode)], x.sendErr == 0)];
      err := x.sendErr;
    }

    method Sleep(ms: nat)
      modifies this
      ensures events == old(events) + [Slept(ms)]
    {
      events := events + [Slept(ms)];
    }

    method ReadBytes(length: nat, x: Exchange) returns (err: int)
      modifies this
      ensures events == old(events) + [Fetched(length)] && err == x.recvErr
    {
      events := events + [Fetched(length)];
      err := x.recvErr;
    }

    method StartOrStop(cmd: Command, x: Exchange) returns (err: int)
      requires (cmd.StartMeasurement? || cmd.StopMeasurement?) && x.raw == []
      modifies this
      ensures AnswerOf(cmd, x) == if err == 0 then Done else Failure(err)
      ensures err == x.sendErr
      ensures events == old(events) + EventsOf(cmd, x)
    {
      Lock();
      err := SendCommand(cmd, x);
      if err == 0 {
        Sleep(if cmd.StartMeasurement? then EXEC_START_MS else EXEC_STOP_MS);
      }
      Unlock();
      RecordedInOrder(old(events), cmd, x);
    }

    /** Fetch and parse the reply. */
    method FetchSerialNumber(x: Exchange, out: array<bv8>) returns (err: int)
      requires |x.raw| == SERIAL_BYTES && out.Length == SERIAL_CHARS
      modifies this, out
      ensures events == old(events) + [Fetched(SERIAL_BYTES)]
      ensures err == if x.recvErr != 0 then x.recvErr else if WordsOk(x.raw, SERIAL_WORDS) then 0 else -EIO
      ensures out[..] == if err == 0 then Payload(x.raw, SERIAL_WORDS) + [0] else old(out[..])
    {
      err := ReadBytes(SERIAL_BYTES, x);
      if err == 0 {
        var ok := ParseSerialNumber(x.raw, out);
        if !ok {
          err := -EIO;
        }
      }
    }

    method ReadSerialNumber(x: Exchange, out: array<bv8>) returns (err: int)
      requires |x.raw| == SERIAL_BYTES && out.Length == SERIAL_CHARS
      modifies this, out
      ensures err == 0 ==> SerialIn(out[..], AnswerOf(GetSerialNumber, x))
      ensures err == if x.sendErr != 0 then x.sendErr else if x.recvErr != 0 then x.recvErr
        else if WordsOk(x.raw, 16) then 0 else -5
      ensures out[..] == if err == 0 then Payload(x.raw, 16) + [0] else old(out[..])
      ensures err != 0 ==> AnswerOf(GetSerialNumber, x) == Failure(err) && out[..] == old(out[..])
      ensures events == old(events) + EventsOf(GetSerialNumber, x)
    {
      Lock();
      err := SendCommand(GetSerialNumber, x);
      if err == 0 {
        Sleep(EXEC_READ_MS);
        err := FetchSerialNumber(x, out);
      }
      Unlock();
      SerialAnswer(x, err);
      RecordedInOrder(old(events), GetSerialNumber, x);
    }

    method IsDataReady(x: Exchange) returns (ready: bool)
      requires |x.raw| == DATA_READY_BYTES
      modifies this
      ensures AnswerOf(GetDataReady, x) == DataReady(ready)
      ensures ready <==> x.sendErr == 0 && x.recvErr == 0 && WordsOk(x.raw, 1) && x.raw[1] == 0x01
      ensures events == old(events) + EventsOf(GetDataReady, x)
    {
      ready := false;
      Lock();
      var err := SendCommand(GetDataReady, x);
      if err == 0 {
        Sleep(EXEC_READ_MS);
        err := ReadBytes(DATA_READY_BYTES, x);
        if err == 0 {
          var ok := CheckWordsCrc(x.raw, 1);
          ready := ok && x.raw[1] == 1;
        }
      }
      Unlock();
      RecordedInOrder(old(events), GetDataReady, x);
    }

    method ReadMeasurement(x: Exchange, out: MeasurementRef) returns (err: int)
      requires |x.raw| == MEASUREMENT_BYTES
      modifies this, out
      ensures AnswerOf(ReadMeasuredValues, x) == if err == 0 then Measured(out.value) else Failure(err)
      ensures err == if x.sendErr != 0 then x.sendErr else if x.recvErr != 0 then x.recvErr
        else if WordsOk(x.raw, 9) then 0 else -5
      ensures out.value == if err == 0 then Decode(WordsOf(x.raw)) else old(out.value)
      ensures events == old(events) + EventsOf(ReadMeasuredValues, x)
    {
      Lock();
      err := SendCommand(ReadMeasuredValues, x);
      if err == 0 {
        Sleep(EXEC_READ_MS);
        err := ReadBytes(MEASUREMENT_BYTES, x);
        if err == 0 {
          var ok := ParseMeasurement(x.raw, out);
          if !ok {
            err := -EIO;
          }
        }
      }
      Unlock();
      RecordedInOrder(old(events), ReadMeasuredValues, x);
    }
  }
}
