/** Safety of the publication protocol under every interleaving. */
module PublicationProofs {
  import opened Integers
  import opened Sen66Fields
  import opened Sen66Crc
  import opened Sen66Protocol
  import opened MeasurementPolicy
  import opened PolicyRuns
  import opened MatterAdapter
  import opened Publication

  // ----- Mutual exclusion -----

  ghost predicate Locks(s: Sys) {
    && (s.owner == PollThread <==> s.poll.Publishing?)
    && (s.owner == ChipThread <==> s.chip.Copying?)
    && forall id: nat :: s.owner == Reader(id) <==> id in s.readers && s.readers[id].ReaderCopying?
  }

  lemma KeepsLocks(c: PolicyConfig, s: Sys, a: Action)
    requires Locks(s)
    ensures Locks(Do(c, s, a))
  {
  }

  // ----- Whole snapshots -----

  /** dst with its first n fields taken from src. */
  function Mixed(dst: Snapshot, src: Snapshot, n: nat): Snapshot {
    Snapshot(if n > 0 then src.measurement else dst.measurement,
             if n > 1 then src.ageMs else dst.ageMs,
             if n > 2 then src.everValid else dst.everValid)
  }

  function Last(s: Sys): Entry
    requires s.log != []
  {
    s.log[|s.log| - 1]
  }

  predicate FromLog(s: Sys, out: Snapshot, from: nat) { from < |s.log| && out == s.log[from].snapshot }

  ghost predicate Copies(s: Sys) {
    && s.log != []
    && (s.poll.Publishing? ==> s.poll.n <= 3 && s.snapshot == Mixed(Last(s).snapshot, s.poll.local, s.poll.n))
    && (!s.poll.Publishing? ==> s.snapshot == Last(s).snapshot)
    && ChipCopies(s)
    && forall id: nat :: id in s.readers ==> ReaderCopies(s, s.readers[id])
  }

  predicate ReaderCopies(s: Sys, r: ReaderPc) {
    match r
    case ReaderCopying(out, n) => n <= 3 && out == Mixed(NO_SNAPSHOT, s.snapshot, n)
    case ReaderDone(out, from) => FromLog(s, out, from)
  }

  predicate IsPoll(a: Action) {
    || a.PollTick? || a.PollLock? || a.PollWrite? || a.PollUnlock? || a.PollNotify?
    || a.PollReadCallback? || a.PollSchedule? || a.PollReschedule?
  }

  lemma PollKeepsCopies(c: PolicyConfig, s: Sys, a: Action)
    requires Locks(s) && Copies(s) && IsPoll(a)
    ensures Copies(Do(c, s, a))
  {
  }

  predicate IsReader(a: Action) { a.ReaderLock? || a.ReaderCopy? || a.ReaderUnlock? || a.ReaderReturn? }

  /** What the CHIP thread has copied so far, or copied from a publication. */
  predicate ChipCopies(s: Sys) {
    && (s.chip.Copying? ==> s.chip.n <= 3 && s.chip.out == Mixed(NO_SNAPSHOT, s.snapshot, s.chip.n))
    && (s.chip.Copied? || s.chip.Writing? ==> FromLog(s, s.chip.out, s.chip.from))
  }

  lemma ChipLeavesRest(c: PolicyConfig, s: Sys, a: Action)
    requires !IsPoll(a) && !IsReader(a)
    ensures var t := Do(c, s, a);
      t.log == s.log && t.snapshot == s.snapshot && t.poll == s.poll && t.readers == s.readers
  {
  }

  lemma ChipKeepsOwnCopy(c: PolicyConfig, s: Sys, a: Action)
    requires !IsPoll(a) && !IsReader(a) && ChipCopies(s) && s.log != []
    requires s.chip.Copying? ==> s.snapshot == Last(s).snapshot
    ensures ChipCopies(Do(c, s, a))
  {
  }

  lemma ChipKeepsCopies(c: PolicyConfig, s: Sys, a: Action)
    requires Locks(s) && Copies(s) && !IsPoll(a) && !IsReader(a)
    ensures Copies(Do(c, s, a))
  {
    ChipLeavesRest(c, s, a);
    ChipKeepsOwnCopy(c, s, a);
    var t := Do(c, s, a);
    forall id: nat | id in t.readers ensures ReaderCopies(t, t.readers[id]) { assert ReaderCopies(s, s.readers[id]); }
  }

  lemma ReaderLeavesRest(c: PolicyConfig, s: Sys, a: Action)
    requires IsReader(a)
    ensures var t := Do(c, s, a);
      && t == s.(owner := t.owner, readers := t.readers)
      && forall id: nat :: id in t.readers && id != a.id ==> id in s.readers && t.readers[id] == s.readers[id]
  {
  }

  lemma ReaderKeepsOwnCopy(c: PolicyConfig, s: Sys, a: Action)
    requires IsReader(a) && s.log != [] && s.snapshot == Last(s).snapshot
    requires a.id in s.readers ==> ReaderCopies(s, s.readers[a.id])
    ensures a.id in Do(c, s, a).readers ==> ReaderCopies(s, Do(c, s, a).readers[a.id])
  {
  }

  /** While the poll thread publishes, no reader is copying. */
  lemma ReaderWaits(c: PolicyConfig, s: Sys, a: Action)
    requires Locks(s) && Copies(s) && IsReader(a) && s.poll.Publishing?
    ensures a.id in Do(c, s, a).readers ==> ReaderCopies(s, Do(c, s, a).readers[a.id])
  {
    assert a.id in s.readers ==> s.owner == PollThread && !s.readers[a.id].ReaderCopying?;
  }

  lemma ReaderKeepsCopies(c: PolicyConfig, s: Sys, a: Action)
    requires Locks(s) && Copies(s) && IsReader(a)
    ensures Copies(Do(c, s, a))
  {
    if s.poll.Publishing? { ReaderWaits(c, s, a); } else { ReaderKeepsOwnCopy(c, s, a); }
    ReaderLeavesRest(c, s, a);
    var t := Do(c, s, a);
    forall id: nat | id in t.readers ensures ReaderCopies(t, t.readers[id]) {
      if id != a.id { assert ReaderCopies(s, s.readers[id]); }
    }
  }

  lemma KeepsCopies(c: PolicyConfig, s: Sys, a: Action)
    requires Locks(s) && Copies(s)
    ensures Copies(Do(c, s, a))
  {
    if IsPoll(a) {
      PollKeepsCopies(c, s, a);
    } else if IsReader(a) {
      ReaderKeepsCopies(c, s, a);
    } else {
      ChipKeepsCopies(c, s, a);
    }
  }

  // ----- What the publications say -----

  /** A published snapshot decodes the last good frame and carries its true age; before that it is empty. */
  predicate Honest(e: Entry) {
    if e.snapshot.everValid then
      GoodFrame(e.frame) && e.snapshot == Snapshot(Decode(WordsOf(e.frame)), e.atMs - e.readMs, true)
    else e.snapshot == NO_SNAPSHOT
  }

  /** Every publication is honest, and none after a valid one is empty. */
  ghost predicate HonestLog(log: seq<Entry>) {
    && (forall k: nat :: k < |log| ==> Honest(log[k]))
    && (forall i: nat, j: nat :: i < j < |log| && log[i].snapshot.everValid ==> log[j].snapshot.everValid)
  }

  /** The policy holds what the last successful read brought. */
  predicate Matches(p: State, frame: Bytes, readMs: int) {
    p.everValid ==> GoodFrame(frame) && p.latest == Decode(WordsOf(frame)) && p.lastUpdateMs == readMs
  }

  /** What is being or has just been published is what the policy says. */
  predicate Publishes(s: Sys)
    requires s.log != []
  {
    && (s.poll.Publishing? ==> s.poll.local == SnapshotOf(s.policy, s.poll.nowMs))
    && (s.poll.Published? ==> Last(s).snapshot == SnapshotOf(s.policy, s.poll.nowMs))
  }

  ghost predicate Ledger(s: Sys) {
    && s.log != []
    && HonestLog(s.log)
    && (Last(s).snapshot.everValid ==> s.policy.everValid)
    && Matches(s.policy, s.frame, s.readMs)
    && Publishes(s)
  }

  lemma ReadOkMatches(c: PolicyConfig, p: State, raw: Bytes, nowMs: int)
    requires GoodFrame(raw)
    ensures Matches(Succeed(c, p, Decode(WordsOf(raw)), nowMs), raw, nowMs)
  {
  }

  lemma ReadFailedMatches(c: PolicyConfig, p: State, frame: Bytes, readMs: int)
    requires Matches(p, frame, readMs)
    ensures Matches(Fail(c, p), frame, readMs)
  {
  }

  lemma TickKeepsMatches(c: PolicyConfig, s: Sys, bus: Bus, nowMs: int)
    requires Matches(s.policy, s.frame, s.readMs)
    ensures var t := DoTick(c, s, bus, nowMs);
      Matches(t.policy, t.frame, t.readMs) && (s.policy.everValid ==> t.policy.everValid)
  {
    if OutcomeOf(bus).ReadOk? {
      ReadOkMatches(c, s.policy, bus.raw, nowMs);
    } else {
      ReadFailedMatches(c, s.policy, s.frame, s.readMs);
    }
  }

  lemma TickKeepsLedger(c: PolicyConfig, s: Sys, bus: Bus, nowMs: int)
    requires Ledger(s)
    ensures Ledger(DoTick(c, s, bus, nowMs))
  {
    var t := DoTick(c, s, bus, nowMs);
    TickKeepsMatches(c, s, bus, nowMs);
    assert t == s || (t.log == s.log && t.poll == Heard(nowMs));
  }

  lemma UnlockKeepsLedger(s: Sys)
    requires Ledger(s)
    ensures Ledger(DoPollUnlock(s))
  {
  }

  lemma NotifyKeepsLedger(s: Sys)
    requires Ledger(s)
    ensures Ledger(DoPollNotify(s))
  {
  }

  /** The steps that touch neither the policy nor the record. */
  predicate LeavesRecord(a: Action) { !a.PollTick? && !a.PollUnlock? && !a.PollNotify? }

  predicate SameRecord(s: Sys, t: Sys) {
    && t.policy == s.policy && t.log == s.log && t.notified == s.notified
    && t.readMs == s.readMs && t.frame == s.frame
    && (|| t.poll == s.poll
        || (s.poll.Heard? && t.poll == Publishing(s.poll.nowMs, SnapshotOf(s.policy, s.poll.nowMs), 0))
        || (s.poll.Publishing? && t.poll == Publishing(s.poll.nowMs, s.poll.local, s.poll.n + 1))
        || (&& !s.poll.Heard? && !s.poll.Publishing? && !s.poll.Published?
            && !t.poll.Heard? && !t.poll.Publishing? && !t.poll.Published?))
  }

  lemma StepLeavesRecord(c: PolicyConfig, s: Sys, a: Action)
    requires LeavesRecord(a)
    ensures SameRecord(s, Do(c, s, a))
  {
  }

  lemma SameRecordKeepsLedger(s: Sys, t: Sys)
    requires Ledger(s) && SameRecord(s, t)
    ensures Ledger(t)
  {
  }

  lemma SameRecordKeepsReported(c: PolicyConfig, s: Sys, t: Sys)
    requires Reported(c, s) && SameRecord(s, t)
    ensures Reported(c, t)
  {
  }

  lemma KeepsLedger(c: PolicyConfig, s: Sys, a: Action)
    requires Ledger(s)
    ensures Ledger(Do(c, s, a))
  {
    if a.PollTick? {
      TickKeepsLedger(c, s, a.bus, a.nowMs);
    } else if a.PollUnlock? {
      UnlockKeepsLedger(s);
    } else if a.PollNotify? {
      NotifyKeepsLedger(s);
    } else {
      StepLeavesRecord(c, s, a);
      SameRecordKeepsLedger(s, Do(c, s, a));
    }
  }

  // ----- Publications since the last notification stay close to it -----

  /** Same validity, and every valid channel within its threshold less one. */
  predicate Near(t: ChangeThresholds, a: Measurement, b: Measurement, times: nat) {
    && a.valid == b.valid
    && forall c: Channel :: c in a.valid ==> Distance(Raw(a, c), Raw(b, c)) <= times * Max(Threshold(t, c) - 1, 0)
  }

  /** The poll thread has heard the sensor and not yet decided whether to notify. */
  predicate InTick(s: Sys) { s.poll.Heard? || s.poll.Publishing? || s.poll.Published? }

  ghost predicate Reported(c: PolicyConfig, s: Sys) {
    && Deliverable(s.policy)
    && (s.policy.shouldNotify || DeadBand(c, s.policy))
    && (s.policy.shouldNotify ==> InTick(s))
    && s.notified < |s.log|
    && forall k: nat :: s.notified <= k < |s.log| && !(s.policy.shouldNotify && s.poll.Published? && k == |s.log| - 1)
         ==> Near(c.thresholds, s.policy.lastNotified, s.log[k].snapshot.measurement, 1)
  }

  lemma TickKeepsReported(c: PolicyConfig, s: Sys, bus: Bus, nowMs: int)
    requires Reported(c, s)
    ensures Reported(c, DoTick(c, s, bus, nowMs))
  {
    var o := OutcomeOf(bus);
    if o.ReadOk? { NoChangesIffQuiet(c, s.policy.lastNotified, o.m); }
  }

  /** A publication that is not about to be notified is near the last notified snapshot. */
  lemma SettledIsNear(c: PolicyConfig, p: State, nowMs: int)
    requires Deliverable(p) && DeadBand(c, p)
    ensures Near(c.thresholds, p.lastNotified, SnapshotOf(p, nowMs).measurement, 1)
  {
  }

  lemma UnlockKeepsReported(c: PolicyConfig, s: Sys)
    requires Ledger(s) && Reported(c, s)
    ensures Reported(c, DoPollUnlock(s))
  {
    if !s.policy.shouldNotify && s.poll.Publishing? { SettledIsNear(c, s.policy, s.poll.nowMs); }
  }

  lemma MarkedIsNear(c: PolicyConfig, s: Sys)
    requires Ledger(s) && s.poll.Published? && s.policy.everValid
    ensures Near(c.thresholds, s.policy.latest, Last(s).snapshot.measurement, 1)
  {
  }

  lemma MarkKeepsReported(c: PolicyConfig, s: Sys, t: Sys)
    requires Reported(c, s) && s.policy.shouldNotify && s.poll.Published? && s.log != []
    requires Near(c.thresholds, s.policy.latest, Last(s).snapshot.measurement, 1)
    requires t == s.(policy := Mark(s.policy, s.poll.nowMs), poll := Notified, notified := |s.log| - 1)
    ensures Reported(c, t)
  {
  }

  lemma FinishKeepsReported(c: PolicyConfig, s: Sys)
    requires Reported(c, s) && !s.policy.shouldNotify
    ensures Reported(c, s.(poll := Finishing))
  {
  }

  lemma NotifyKeepsReported(c: PolicyConfig, s: Sys)
    requires Ledger(s) && Reported(c, s)
    ensures Reported(c, DoPollNotify(s))
  {
    if s.poll.Published? && s.policy.shouldNotify {
      MarkedIsNear(c, s);
      MarkKeepsReported(c, s, DoPollNotify(s));
    } else if s.poll.Published? {
      FinishKeepsReported(c, s);
    }
  }

  lemma KeepsReported(c: PolicyConfig, s: Sys, a: Action)
    requires Ledger(s) && Reported(c, s)
    ensures Reported(c, Do(c, s, a))
  {
    if a.PollTick? {
      TickKeepsReported(c, s, a.bus, a.nowMs);
    } else if a.PollUnlock? {
      UnlockKeepsReported(c, s);
    } else if a.PollNotify? {
      NotifyKeepsReported(c, s);
    } else {
      StepLeavesRecord(c, s, a);
      SameRecordKeepsReported(c, s, Do(c, s, a));
    }
  }

  // ----- No notification is lost -----

  /** Some application of a snapshot at least as new as the last notification is finished or still to come. */
  predicate Delivered(s: Sys) {
    || s.applied >= s.notified
    || s.queue > 0
    || s.chip.Waiting? || s.chip.Copying?
    || ((s.chip.Copied? || s.chip.Writing?) && s.chip.from >= s.notified)
    || s.poll.Notified? || s.poll.Calling?
  }

  ghost predicate Covered(s: Sys) {
    && s.applied < |s.log| && s.notified < |s.log|
    && (s.registered <==> !s.chip.Booting?)
    && (!s.registered ==> s.queue == 0 && !s.poll.Calling?)
    && (s.chip.Copied? || s.chip.Writing? ==> s.applied <= s.chip.from < |s.log|)
    && (s.registered ==> Delivered(s))
  }

  lemma KeepsCovered(c: PolicyConfig, s: Sys, a: Action)
    requires Covered(s)
    ensures Covered(Do(c, s, a))
  {
  }

  // ----- The attributes -----

  function AppliedTo(s: Sys): Measurement
    requires s.applied < |s.log|
  {
    s.log[s.applied].snapshot.measurement
  }

  /** Outside ApplyLatestMeasurement the attributes render one published snapshot; inside, a prefix is newer. */
  ghost predicate Stored(s: Sys) {
    && s.applied < |s.log|
    && (s.chip.Writing? ==>
          && s.chip.n <= 8
          && forall k: nat :: k < 8 ==>
               s.store[k] == Render(if k < s.chip.n then s.chip.out.measurement else AppliedTo(s))[k])
    && (!s.chip.Writing? ==> s.store == Render(AppliedTo(s)))
  }

  /** What ApplyLatestMeasurement works on: a publication, and one like the last if it is still empty. */
  predicate Applicable(s: Sys) {
    && s.applied < |s.log|
    && (s.chip.Copied? || s.chip.Writing? ==> FromLog(s, s.chip.out, s.chip.from))
    && (s.chip.Copied? && !s.chip.out.everValid ==> AppliedTo(s) == s.chip.out.measurement)
  }

  lemma IsApplicable(s: Sys)
    requires Copies(s) && Ledger(s) && Covered(s)
    ensures Applicable(s)
  {
    if s.chip.Copied? && !s.chip.out.everValid { EmptyUntil(s, s.applied, s.chip.from); }
  }

  /** Before the first valid frame all publications are alike. */
  lemma EmptyUntil(s: Sys, i: nat, j: nat)
    requires Ledger(s) && i <= j < |s.log| && !s.log[j].snapshot.everValid
    ensures s.log[i].snapshot == s.log[j].snapshot == NO_SNAPSHOT
  {
    assert Honest(s.log[i]) && Honest(s.log[j]);
  }

  lemma WriteKeepsStored(s: Sys)
    requires Applicable(s) && Stored(s)
    ensures Stored(DoChipWrite(s))
  {
    if s.chip.Writing? && s.chip.n >= 8 {
      var r := Render(s.chip.out.measurement);
      forall k | 0 <= k < 8 ensures s.store[k] == r[k] { }
      assert s.store == r;
    }
  }

  lemma CheckKeepsStored(s: Sys)
    requires Applicable(s) && Stored(s)
    ensures Stored(DoChipCheck(s))
  {
  }

  lemma KeepsStored(c: PolicyConfig, s: Sys, a: Action)
    requires Applicable(s) && Stored(s)
    ensures Stored(Do(c, s, a))
  {
    match a
    case ChipWrite => WriteKeepsStored(s);
    case ChipCheck => CheckKeepsStored(s);
    case _ => OthersKeepStored(c, s, a);
  }

  lemma OthersKeepStored(c: PolicyConfig, s: Sys, a: Action)
    requires Stored(s) && !a.ChipWrite? && !a.ChipCheck?
    ensures Stored(Do(c, s, a))
  {
    StoreUntouched(c, s, a);
    UntouchedIsStored(s, Do(c, s, a));
  }

  lemma UntouchedIsStored(s: Sys, t: Sys)
    requires Stored(s) && t.store == s.store && t.applied == s.applied && s.log <= t.log
    requires t.chip == s.chip || (!t.chip.Writing? && !s.chip.Writing?)
    ensures Stored(t)
  {
  }

  lemma StoreUntouched(c: PolicyConfig, s: Sys, a: Action)
    requires !a.ChipWrite? && !a.ChipCheck?
    ensures var t := Do(c, s, a);
      && t.store == s.store && t.applied == s.applied && s.log <= t.log
      && (t.chip == s.chip || (!t.chip.Writing? && !s.chip.Writing?))
  {
  }

  // ----- Every run -----

  ghost predicate Inv(c: PolicyConfig, s: Sys) {
    Locks(s) && Copies(s) && Ledger(s) && Reported(c, s) && Covered(s) && Stored(s)
  }

  lemma StartInv(c: PolicyConfig, startFailed: bool)
    ensures Inv(c, Start(c, startFailed))
  {
    InitialIsRendered();
  }

  lemma StepInv(c: PolicyConfig, s: Sys, a: Action)
    requires Inv(c, s)
    ensures Inv(c, Do(c, s, a))
  {
    KeepsLocks(c, s, a);
    KeepsCopies(c, s, a);
    KeepsLedger(c, s, a);
    KeepsReported(c, s, a);
    KeepsCovered(c, s, a);
    IsApplicable(s);
    KeepsStored(c, s, a);
  }

  /** Whatever the interleaving, every reachable state satisfies the invariant. */
  lemma {:induction false} AlwaysInv(c: PolicyConfig, startFailed: bool, actions: seq<Action>)
    ensures Inv(c, Exec(c, Start(c, startFailed), actions))
    decreases |actions|
  {
    if actions == [] {
      StartInv(c, startFailed);
    } else {
      var n := |actions| - 1;
      AlwaysInv(c, startFailed, actions[..n]);
      StepInv(c, Exec(c, Start(c, startFailed), actions[..n]), actions[n]);
    }
  }

  // ----- Runs in two parts -----

  lemma {:induction false} ExecConcat(c: PolicyConfig, s: Sys, a: seq<Action>, b: seq<Action>)
    ensures Exec(c, s, a + b) == Exec(c, Exec(c, s, a), b)
    decreases |b|
  {
    if b == [] {
      assert a + b == a;
    } else {
      var n := |b| - 1;
      assert (a + b)[..|a + b| - 1] == a + b[..n];
      ExecConcat(c, s, a, b[..n]);
    }
  }

  lemma {:induction false} ExecInv(c: PolicyConfig, s: Sys, actions: seq<Action>)
    requires Inv(c, s)
    ensures Inv(c, Exec(c, s, actions))
    ensures s.log <= Exec(c, s, actions).log && s.notified <= Exec(c, s, actions).notified
    decreases |actions|
  {
    if actions != [] {
      var n := |actions| - 1;
      ExecInv(c, s, actions[..n]);
      var t := Exec(c, s, actions[..n]);
      StepInv(c, t, actions[n]);
      OnlyGrows(c, t, actions[n]);
    }
  }

  lemma OnlyGrows(c: PolicyConfig, s: Sys, a: Action)
    requires Covered(s)
    ensures s.log <= Do(c, s, a).log && s.notified <= Do(c, s, a).notified
  {
  }

  // ----- Main results -----

  /** Start-up done, no tick in flight, no application pending. */
  predicate Quiescent(s: Sys) { s.poll.Idle? && s.chip.Ready? && s.queue == 0 }

  lemma NearTriangle(t: ChangeThresholds, n: Measurement, a: Measurement, b: Measurement)
    requires Near(t, n, a, 1) && Near(t, n, b, 1)
    ensures Near(t, a, b, 2)
  {
  }

  /**
   * End to end: at rest the attributes render a published snapshot whose validity is the current one's and
   * whose every valid channel is within twice its threshold less one of the current raw value.
   */
  lemma AttributesAreCurrent(c: PolicyConfig, startFailed: bool, actions: seq<Action>)
    ensures var s := Exec(c, Start(c, startFailed), actions);
      Quiescent(s) ==>
        && s.applied < |s.log|
        && s.store == Render(AppliedTo(s))
        && Near(c.thresholds, AppliedTo(s), s.snapshot.measurement, 2)
  {
    var s := Exec(c, Start(c, startFailed), actions);
    AlwaysInv(c, startFailed, actions);
    if Quiescent(s) {
      NearTriangle(c.thresholds, s.policy.lastNotified, AppliedTo(s), s.snapshot.measurement);
    }
  }

  /** So at rest the null pattern of the attributes is the validity mask of the current snapshot. */
  lemma NullPatternIsCurrent(c: PolicyConfig, startFailed: bool, actions: seq<Action>, s: Sys)
    requires s == Exec(c, Start(c, startFailed), actions) && Quiescent(s)
    ensures var v := s.snapshot.measurement.valid;
      && s.applied < |s.log|
      && (IsNull(s.store[0]) <==> Temperature !in v) && s.store[1] == s.store[0]
      && (IsNull(s.store[2]) <==> Humidity !in v || AppliedTo(s).humidity == -1)
      && (IsNull(s.store[3]) <==> Co2 !in v)
      && (IsNull(s.store[4]) <==> Pm1p0 !in v)
      && (IsNull(s.store[5]) <==> Pm2p5 !in v)
      && (IsNull(s.store[6]) <==> Pm10 !in v)
      && (IsNull(s.store[7]) <==> Co2 !in v && Pm2p5 !in v && Pm10 !in v)
  {
    assert s.applied < |s.log| && s.store == Render(AppliedTo(s))
        && AppliedTo(s).valid == s.snapshot.measurement.valid by {
      AttributesAreCurrent(c, startFailed, actions);
    }
    NullsAreInvalidChannels(AppliedTo(s), s.store);
  }

  /**
   * No update is lost, wherever registration falls between the poll thread's steps: a notification consumed
   * at any point of a run is, once somebody is registered, covered by an application that is finished or
   * still to come, and at every later rest the attributes come from a snapshot at least as new.
   */
  lemma NoNotificationIsLost(c: PolicyConfig, startFailed: bool, before: seq<Action>, after: seq<Action>)
    ensures var s := Exec(c, Start(c, startFailed), before);
      var t := Exec(c, Start(c, startFailed), before + after);
      && (s.registered ==> Delivered(s))
      && s.log <= t.log
      && (Quiescent(t) ==> s.notified <= t.notified <= t.applied)
  {
    AlwaysInv(c, startFailed, before);
    ExecConcat(c, Start(c, startFailed), before, after);
    ExecInv(c, Exec(c, Start(c, startFailed), before), after);
  }

  /** Every snapshot that any thread gets out of GetLatest is, whole, one that was published, with its true age. */
  lemma SnapshotsAreWhole(c: PolicyConfig, startFailed: bool, actions: seq<Action>, id: nat)
    ensures var s := Exec(c, Start(c, startFailed), actions);
      && (id in s.readers && s.readers[id].ReaderDone? ==>
            && FromLog(s, s.readers[id].out, s.readers[id].from) && Honest(s.log[s.readers[id].from]))
      && (s.chip.Copied? || s.chip.Writing? ==>
            FromLog(s, s.chip.out, s.chip.from) && Honest(s.log[s.chip.from]))
  {
    AlwaysInv(c, startFailed, actions);
  }

  // ----- From the wire to the attributes -----

  predicate Fed(actions: seq<Action>, f: Bytes) {
    exists i: nat :: i < |actions| && actions[i].PollTick? && actions[i].bus == Frame(f)
  }

  ghost predicate FramesFed(actions: seq<Action>, s: Sys) {
    && (s.policy.everValid ==> Fed(actions, s.frame))
    && forall k: nat :: k < |s.log| && s.log[k].snapshot.everValid ==> Fed(actions, s.log[k].frame)
  }

  lemma FedStays(actions: seq<Action>, f: Bytes)
    requires actions != [] && Fed(actions[..|actions| - 1], f)
    ensures Fed(actions, f)
  {
    var init := actions[..|actions| - 1];
    var i: nat :| i < |init| && init[i].PollTick? && init[i].bus == Frame(f);
    assert actions[i].PollTick? && actions[i].bus == Frame(f);
  }

  lemma {:induction false} AlwaysFed(c: PolicyConfig, startFailed: bool, actions: seq<Action>)
    ensures FramesFed(actions, Exec(c, Start(c, startFailed), actions))
    decreases |actions|
  {
    if actions != [] {
      var n := |actions| - 1;
      var init := actions[..n];
      var s := Exec(c, Start(c, startFailed), init);
      var t := Do(c, s, actions[n]);
      AlwaysFed(c, startFailed, init);
      AlwaysInv(c, startFailed, init);
      if s.policy.everValid { FedStays(actions, s.frame); }
      forall k: nat | k < |s.log| && s.log[k].snapshot.everValid ensures Fed(actions, s.log[k].frame) {
        FedStays(actions, s.log[k].frame);
      }
      StepKeepsFed(c, s, actions, n);
    }
  }

  lemma TickKeepsFed(c: PolicyConfig, s: Sys, actions: seq<Action>, bus: Bus, nowMs: int)
    requires FramesFed(actions, s) && (OutcomeOf(bus).ReadOk? ==> Fed(actions, bus.raw))
    ensures FramesFed(actions, DoTick(c, s, bus, nowMs))
  {
  }

  lemma UnlockKeepsFed(s: Sys, actions: seq<Action>)
    requires FramesFed(actions, s) && (s.poll.Publishing? && s.poll.local.everValid ==> s.policy.everValid)
    ensures FramesFed(actions, DoPollUnlock(s))
  {
  }

  lemma SameRecordKeepsFed(s: Sys, t: Sys, actions: seq<Action>)
    requires FramesFed(actions, s) && t.log == s.log && t.frame == s.frame && t.policy.everValid == s.policy.everValid
    ensures FramesFed(actions, t)
  {
  }

  lemma StepKeepsFed(c: PolicyConfig, s: Sys, actions: seq<Action>, n: nat)
    requires n + 1 == |actions| && FramesFed(actions, s)
    requires s.poll.Publishing? && s.poll.local.everValid ==> s.policy.everValid
    ensures FramesFed(actions, Do(c, s, actions[n]))
  {
    var a := actions[n];
    if a.PollTick? {
      assert a.bus.Frame? ==> Fed(actions, a.bus.raw);
      TickKeepsFed(c, s, actions, a.bus, a.nowMs);
    } else if a.PollUnlock? {
      UnlockKeepsFed(s, actions);
    } else {
      if LeavesRecord(a) { StepLeavesRecord(c, s, a); } else { assert a.PollNotify?; }
      SameRecordKeepsFed(s, Do(c, s, a), actions);
    }
  }

  /** Whatever is already notified is no older than the first valid frame. */
  ghost predicate Known(s: Sys) {
    s.policy.everValid && !s.policy.shouldNotify ==> s.notified < |s.log| && s.log[s.notified].snapshot.everValid
  }

  /** The first read with a valid channel asks for a notification. */
  lemma FirstValidNotifies(c: PolicyConfig, p: State, m: Measurement, nowMs: int)
    requires Deliverable(p) && !p.everValid && m.valid != {}
    ensures Succeed(c, p, m, nowMs).shouldNotify
  {
    NoChangesIffQuiet(c, p.lastNotified, m);
  }

  lemma TickKeepsKnown(c: PolicyConfig, s: Sys, bus: Bus, nowMs: int)
    requires Reported(c, s) && Known(s)
    ensures Known(DoTick(c, s, bus, nowMs))
  {
    var o := OutcomeOf(bus);
    if o.ReadOk? && o.m.valid != {} && !s.policy.everValid { FirstValidNotifies(c, s.policy, o.m, nowMs); }
  }

  lemma UnlockKeepsKnown(s: Sys)
    requires Known(s)
    ensures Known(DoPollUnlock(s))
  {
  }

  lemma NotifyKeepsKnown(s: Sys)
    requires s.log != [] && Publishes(s) && Deliverable(s.policy) && Known(s)
    requires s.policy.shouldNotify ==> InTick(s)
    ensures Known(DoPollNotify(s))
  {
    if s.poll.Published? && s.policy.shouldNotify {
      assert Last(s).snapshot.everValid;
    }
  }

  lemma SameRecordKeepsKnown(s: Sys, t: Sys)
    requires Known(s) && SameRecord(s, t)
    ensures Known(t)
  {
  }

  lemma KeepsKnown(c: PolicyConfig, s: Sys, a: Action)
    requires Ledger(s) && Reported(c, s) && Known(s)
    ensures Known(Do(c, s, a))
  {
    if a.PollTick? {
      TickKeepsKnown(c, s, a.bus, a.nowMs);
    } else if a.PollUnlock? {
      UnlockKeepsKnown(s);
    } else if a.PollNotify? {
      NotifyKeepsKnown(s);
    } else {
      StepLeavesRecord(c, s, a);
      SameRecordKeepsKnown(s, Do(c, s, a));
    }
  }

  lemma {:induction false} AlwaysKnown(c: PolicyConfig, startFailed: bool, actions: seq<Action>)
    ensures Known(Exec(c, Start(c, startFailed), actions))
    decreases |actions|
  {
    if actions != [] {
      var init := actions[..|actions| - 1];
      AlwaysKnown(c, startFailed, init);
      AlwaysInv(c, startFailed, init);
      KeepsKnown(c, Exec(c, Start(c, startFailed), init), actions[|actions| - 1]);
    }
  }

  lemma AppliedIsKnown(s: Sys)
    requires Copies(s) && Ledger(s) && Covered(s) && Known(s)
    requires Quiescent(s) && !s.policy.shouldNotify && s.snapshot.everValid
    ensures s.log[s.applied].snapshot.everValid
  {
  }

  /**
   * Wire to attribute: at rest, once a valid frame was published, the attributes are those of one accepted
   * frame that the bus delivered, so WireToAttributes tells each null from that frame's words.
   */
  lemma AttributesComeFromAFrame(c: PolicyConfig, startFailed: bool, actions: seq<Action>, s: Sys)
    returns (frame: Bytes)
    requires s == Exec(c, Start(c, startFailed), actions) && Quiescent(s) && s.snapshot.everValid
    ensures GoodFrame(frame) && Fed(actions, frame)
    ensures s.store == Render(Decode(WordsOf(frame)))
  {
    assert s.applied < |s.log| && s.store == Render(AppliedTo(s)) by { AlwaysInv(c, startFailed, actions); }
    assert s.log[s.applied].snapshot.everValid by {
      assert Copies(s) && Ledger(s) && Covered(s) && !s.policy.shouldNotify by { AlwaysInv(c, startFailed, actions); }
      assert Known(s) by { AlwaysKnown(c, startFailed, actions); }
      AppliedIsKnown(s);
    }
    frame := s.log[s.applied].frame;
    assert Fed(actions, frame) by { AlwaysFed(c, startFailed, actions); }
    assert Honest(s.log[s.applied]) by { AlwaysInv(c, startFailed, actions); }
  }
}
