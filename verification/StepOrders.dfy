/**
 * Why the order of the steps matters: with registration after the first application, or with the notification
 * before the publication, an update is lost and the attributes stay behind at rest.
 */
module StepOrders {
  import opened Integers
  import opened Sen66Crc
  import opened Sen66Protocol
  import opened MeasurementPolicy
  import opened PolicyRuns
  import opened MatterAdapter
  import opened Publication
  import opened PublicationProofs
  import opened ServiceSteps

  const CHIP_COPIES: seq<Action> := [ChipCopy, ChipCopy, ChipCopy]

  /** The steps of ApplyLatestMeasurement when there is nothing valid to apply. */
  const APPLY_STEPS: seq<Action> := [ChipLock] + (CHIP_COPIES + [ChipUnlock, ChipCheck])

  lemma CopiesEffect(c: PolicyConfig, s: Sys)
    requires s.chip == Copying(NO_SNAPSHOT, 0)
    ensures Exec(c, s, CHIP_COPIES) == s.(chip := Copying(s.snapshot, 3))
  {
    var s1 := Do(c, s, ChipCopy);
    var s2 := Do(c, s1, ChipCopy);
    ExecFront(c, s, CHIP_COPIES);
    ExecFront(c, s1, CHIP_COPIES[1..]);
    ExecFront(c, s2, CHIP_COPIES[2..]);
    assert Do(c, s2, ChipCopy).chip == Copying(s.snapshot, 3);
  }

  lemma CheckNothing(c: PolicyConfig, s: Sys)
    requires s.chip == Copying(s.snapshot, 3) && s.log != [] && !s.snapshot.everValid
    ensures Exec(c, s, [ChipUnlock, ChipCheck]) == s.(owner := Nobody, chip := Ready, applied := |s.log| - 1)
  {
    ExecFront(c, s, [ChipUnlock, ChipCheck]);
    ExecFront(c, Do(c, s, ChipUnlock), [ChipCheck]);
  }

  lemma ApplyNothing(c: PolicyConfig, s: Sys)
    requires s.chip.Waiting? && s.owner == Nobody && s.log != [] && !s.snapshot.everValid
    ensures Exec(c, s, APPLY_STEPS) == s.(chip := Ready, applied := |s.log| - 1)
  {
    var s1 := Do(c, s, ChipLock);
    ExecFirst(c, s, ChipLock, CHIP_COPIES + [ChipUnlock, ChipCheck]);
    ExecConcat(c, s1, CHIP_COPIES, [ChipUnlock, ChipCheck]);
    CopiesEffect(c, s1);
    CheckNothing(c, Exec(c, s1, CHIP_COPIES));
  }

  /** A rest at which nothing is pending and yet every attribute is null while the snapshot is valid. */
  predicate Behind(s: Sys, m: Measurement) {
    && Quiescent(s) && s.registered && s.snapshot == Snapshot(m, 0, true)
    && s.applied < s.notified && s.store == INITIAL_STORE
  }

  lemma FirstTick(c: PolicyConfig, s: Sys, raw: Bytes)
    requires s.poll.Idle? && GoodFrame(raw) && Decode(WordsOf(raw)).valid != {}
    requires Deliverable(s.policy) && !s.policy.everValid
    ensures var t := DoTick(c, s, Frame(raw), 0);
      && t.poll == Heard(0) && t.policy.everValid && t.policy.shouldNotify
      && SnapshotOf(t.policy, 0) == Snapshot(Decode(WordsOf(raw)), 0, true)
      && t == s.(policy := t.policy, poll := t.poll, readMs := t.readMs, frame := t.frame)
  {
    FirstValidNotifies(c, s.policy, Decode(WordsOf(raw)), 0);
  }

  // ----- Applying before registering -----

  /** Start-up calls ApplyLatestMeasurement first, a whole tick goes by, and only then the callback is registered. */
  function LateRegistration(c: PolicyConfig, startFailed: bool, raw: Bytes): Sys {
    var applied := Exec(c, Start(c, startFailed).(chip := Waiting), APPLY_STEPS);
    var ticked := Exec(c, Exec(c, applied, PublishSteps(Frame(raw), 0)), NOTIFY_STEPS);
    ticked.(registered := true)
  }

  lemma LateRegistrationLosesAnUpdate(c: PolicyConfig, startFailed: bool, raw: Bytes)
    requires GoodFrame(raw) && Decode(WordsOf(raw)).valid != {}
    ensures Behind(LateRegistration(c, startFailed, raw), Decode(WordsOf(raw)))
  {
    var s := Start(c, startFailed).(chip := Waiting);
    ApplyNothing(c, s);
    var applied := Exec(c, s, APPLY_STEPS);
    FirstTick(c, applied, raw);
    PublishEffect(c, applied, Frame(raw), 0);
    var published := AfterCopy(DoTick(c, applied, Frame(raw), 0));
    NotifyEffect(c, published, Exec(c, published, NOTIFY_STEPS));
  }

  // ----- Notifying before publishing -----

  /** The handler marks, calls back and schedules as soon as it has heard the sensor. */
  function NotifyEarly(s: Sys): Sys
    requires s.poll.Heard?
  {
    s.(policy := Mark(s.policy, s.poll.nowMs), queue := s.queue + Bit(s.registered), notified := |s.log|)
  }

  /** The work item is dealt with before the poll thread gets to publish. */
  function EarlyNotification(c: PolicyConfig, startFailed: bool, raw: Bytes): Sys
  {
    var ready := Exec(c, Do(c, Start(c, startFailed), ChipRegister), APPLY_STEPS);
    var told := DoTick(c, ready, Frame(raw), 0);
    if !told.poll.Heard? then told else
      var dealtWith := Exec(c, Do(c, NotifyEarly(told), ChipDequeue), APPLY_STEPS);
      Exec(c, Exec(c, dealtWith, COPY_STEPS), NOTIFY_STEPS)
  }

  lemma NothingToApply(c: PolicyConfig, told: Sys, dequeued: Sys)
    requires told.poll.Heard? && told.owner == Nobody && told.registered && told.chip.Ready? && told.queue == 0
    requires told.log != [] && !told.snapshot.everValid && dequeued == Do(c, NotifyEarly(told), ChipDequeue)
    ensures Exec(c, dequeued, APPLY_STEPS)
         == told.(policy := Mark(told.policy, told.poll.nowMs), notified := |told.log|, applied := |told.log| - 1)
  {
    ApplyNothing(c, dequeued);
  }

  lemma PublishedTooLate(c: PolicyConfig, s: Sys, m: Measurement)
    requires s.poll == Heard(0) && s.owner == Nobody && s.log != [] && !s.policy.shouldNotify
    requires s.chip.Ready? && s.queue == 0 && s.registered && s.applied < s.notified && s.store == INITIAL_STORE
    requires SnapshotOf(s.policy, 0) == Snapshot(m, 0, true)
    ensures Behind(Exec(c, Exec(c, s, COPY_STEPS), NOTIFY_STEPS), m)
  {
    CopyEffect(c, s);
    NotifyEffect(c, AfterCopy(s), Exec(c, AfterCopy(s), NOTIFY_STEPS));
  }

  lemma EarlyNotificationLosesAnUpdate(c: PolicyConfig, startFailed: bool, raw: Bytes)
    requires GoodFrame(raw) && Decode(WordsOf(raw)).valid != {}
    ensures Behind(EarlyNotification(c, startFailed, raw), Decode(WordsOf(raw)))
  {
    var s := Do(c, Start(c, startFailed), ChipRegister);
    ApplyNothing(c, s);
    var ready := Exec(c, s, APPLY_STEPS);
    FirstTick(c, ready, raw);
    var told := DoTick(c, ready, Frame(raw), 0);
    var dequeued := Do(c, NotifyEarly(told), ChipDequeue);
    NothingToApply(c, told, dequeued);
    PublishedTooLate(c, Exec(c, dequeued, APPLY_STEPS), Decode(WordsOf(raw)));
  }
}
