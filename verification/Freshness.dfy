/** How old the attributes can be at rest. */
module Freshness {
  import opened Integers
  import opened MeasurementPolicy
  import opened PolicyRuns
  import opened MatterAdapter
  import opened Publication
  import opened PublicationProofs
  import opened PublicationRuns

  // ----- The last notification stands for a read made when it was given -----

  ghost predicate Dated(s: Sys) {
    && s.notified < |s.log|
    && (s.notified > 0 ==> s.log[s.notified].readMs == s.policy.lastNotifyMs)
    && (s.policy.shouldNotify && InTick(s) ==> s.readMs == s.poll.nowMs)
    && (s.poll.Published? ==> Last(s).readMs == s.readMs)
  }

  lemma TickKeepsDated(c: PolicyConfig, s: Sys, bus: Bus, nowMs: int)
    requires Dated(s)
    ensures Dated(DoTick(c, s, bus, nowMs))
  {
  }

  lemma UnlockKeepsDated(s: Sys)
    requires Dated(s)
    ensures Dated(DoPollUnlock(s))
  {
  }

  lemma NotifyKeepsDated(s: Sys)
    requires Dated(s)
    ensures Dated(DoPollNotify(s))
  {
  }

  lemma SameRecordKeepsDated(s: Sys, t: Sys)
    requires Dated(s) && SameRecord(s, t)
    ensures Dated(t)
  {
  }

  lemma KeepsDated(c: PolicyConfig, s: Sys, a: Action)
    requires Dated(s)
    ensures Dated(Do(c, s, a))
  {
    if a.PollTick? {
      TickKeepsDated(c, s, a.bus, a.nowMs);
    } else if a.PollUnlock? {
      UnlockKeepsDated(s);
    } else if a.PollNotify? {
      NotifyKeepsDated(s);
    } else {
      StepLeavesRecord(c, s, a);
      SameRecordKeepsDated(s, Do(c, s, a));
    }
  }

  lemma {:induction false} AlwaysDated(c: PolicyConfig, startFailed: bool, actions: seq<Action>)
    ensures Dated(Exec(c, Start(c, startFailed), actions))
    decreases |actions|
  {
    if actions != [] {
      var init := actions[..|actions| - 1];
      AlwaysDated(c, startFailed, init);
      KeepsDated(c, Exec(c, Start(c, startFailed), init), actions[|actions| - 1]);
    }
  }

  // ----- With a monotone clock publications are in the order of their reads -----

  /** The clock starts at zero or later and never runs backwards. */
  ghost predicate Monotone(ts: seq<Tick>) {
    && (forall i :: 0 <= i < |ts| ==> 0 <= ts[i].nowMs)
    && (forall i, j :: 0 <= i < j < |ts| ==> ts[i].nowMs <= ts[j].nowMs)
  }

  lemma {:induction false} ReadBefore(ts: seq<Tick>, nowMs: int)
    requires 0 <= nowMs && forall i :: 0 <= i < |ts| ==> ts[i].nowMs <= nowMs
    ensures LastReadMs(ts, 0) <= nowMs
    decreases |ts|
  {
    if ts != [] {
      ReadBefore(ts[..|ts| - 1], nowMs);
      LastReadStep(ts, 0);
    }
  }

  ghost predicate Ordered(s: Sys) {
    && s.log != [] && Last(s).readMs <= s.readMs
    && forall i, j :: 0 <= i < j < |s.log| ==> s.log[i].readMs <= s.log[j].readMs
  }

  lemma KeepsOrdered(c: PolicyConfig, s: Sys, a: Action)
    requires Ordered(s) && (a.PollTick? && s.poll.Idle? ==> s.readMs <= a.nowMs)
    ensures Ordered(Do(c, s, a))
  {
    LogGrowsByOne(c, s, a);
    var t := Do(c, s, a);
    assert s.readMs <= t.readMs by { ReadTimeGrows(c, s, a); }
    if t.log != s.log {
      forall i, j | 0 <= i < j < |t.log| ensures t.log[i].readMs <= t.log[j].readMs {
        assert t.log[i] == s.log[i];
        if j < |s.log| { assert t.log[j] == s.log[j]; }
      }
    }
  }

  lemma ReadTimeGrows(c: PolicyConfig, s: Sys, a: Action)
    requires a.PollTick? && s.poll.Idle? ==> s.readMs <= a.nowMs
    ensures s.readMs <= Do(c, s, a).readMs
  {
  }

  lemma {:induction false} AlwaysOrdered(c: PolicyConfig, startFailed: bool, actions: seq<Action>)
    requires Monotone(Performed(c, startFailed, actions))
    ensures Ordered(Exec(c, Start(c, startFailed), actions))
    decreases |actions|
  {
    if actions != [] {
      var init, a := actions[..|actions| - 1], actions[|actions| - 1];
      var s := Exec(c, Start(c, startFailed), init);
      var us, ts := Performed(c, startFailed, init), Performed(c, startFailed, actions);
      assert ts == us + Started(s, a);
      assert Monotone(us) by { assert forall i :: 0 <= i < |us| ==> us[i] == ts[i]; }
      AlwaysOrdered(c, startFailed, init);
      if a.PollTick? && s.poll.Idle? {
        assert ts[|us|].nowMs == a.nowMs && forall i :: 0 <= i < |us| ==> us[i] == ts[i];
        ReadBefore(us, a.nowMs);
        TickTimes(c, startFailed, init);
      }
      KeepsOrdered(c, s, a);
    }
  }

  // ----- Without a notification nothing was ever valid -----

  lemma {:induction false} UnnotifiedIsInvalid(c: PolicyConfig, ts: seq<Tick>)
    requires Notifications(c, ts) == []
    ensures !Ticks(c, INITIAL, ts).everValid
    decreases |ts|
  {
    if ts != [] {
      var init, t := ts[..|ts| - 1], ts[|ts| - 1];
      UnnotifiedIsInvalid(c, init);
      TicksDeliverable(c, init);
      if t.outcome.ReadOk? && t.outcome.m.valid != {} {
        FirstValidNotifies(c, Ticks(c, INITIAL, init), t.outcome.m, t.nowMs);
      }
    }
  }

  lemma LogStartsEmpty(c: PolicyConfig, startFailed: bool, actions: seq<Action>)
    ensures var log := Exec(c, Start(c, startFailed), actions).log;
      log != [] && log[0].snapshot == NO_SNAPSHOT
  {
    StartInv(c, startFailed);
    ExecInv(c, Start(c, startFailed), actions);
  }

  lemma RestOfInv(c: PolicyConfig, s: Sys)
    requires Inv(c, s) && Quiescent(s) && s.snapshot.everValid
    ensures s.policy.everValid && !s.policy.shouldNotify && s.notified <= s.applied < |s.log|
  {
    assert s.snapshot == Last(s).snapshot;
  }

  /** Once anything valid is published, the last notification is a publication of this run. */
  lemma NotifiedIsPublished(c: PolicyConfig, startFailed: bool, actions: seq<Action>, s: Sys)
    requires s == Exec(c, Start(c, startFailed), actions) && Quiescent(s) && s.snapshot.everValid
    ensures s.policy.everValid && 0 < s.notified <= s.applied < |s.log|
  {
    assert s.policy.everValid && !s.policy.shouldNotify && s.notified <= s.applied < |s.log| by {
      AlwaysInv(c, startFailed, actions);
      RestOfInv(c, s);
    }
    assert s.log[s.notified].snapshot.everValid by { AlwaysKnown(c, startFailed, actions); }
    assert s.log[0].snapshot == NO_SNAPSHOT by { LogStartsEmpty(c, startFailed, actions); }
  }

  lemma OrderedAt(s: Sys, i: nat, j: nat)
    requires Ordered(s) && i <= j < |s.log|
    ensures s.log[i].readMs <= s.log[j].readMs
  {
  }

  lemma AppliedReadTime(c: PolicyConfig, startFailed: bool, actions: seq<Action>, s: Sys)
    requires s == Exec(c, Start(c, startFailed), actions) && Quiescent(s) && s.snapshot.everValid
    requires Monotone(Performed(c, startFailed, actions))
    ensures s.applied < |s.log| && s.policy.lastNotifyMs <= s.log[s.applied].readMs
  {
    NotifiedIsPublished(c, startFailed, actions, s);
    assert s.log[s.notified].readMs == s.policy.lastNotifyMs by { AlwaysDated(c, startFailed, actions); }
    assert s.log[s.notified].readMs <= s.log[s.applied].readMs by {
      AlwaysOrdered(c, startFailed, actions);
      OrderedAt(s, s.notified, s.applied);
    }
  }

  lemma LastReadInTime(c: PolicyConfig, ts: seq<Tick>, P: nat)
    requires Lively(c, ts, P) && Ticks(c, INITIAL, ts).everValid
    ensures LastReadMs(ts, 0) - Ticks(c, INITIAL, ts).lastNotifyMs <= Max(c.notifyIntervalMs - 1, 0)
  {
    assert Notifications(c, ts) != [] by { if Notifications(c, ts) == [] { UnnotifiedIsInvalid(c, ts); } }
    HeartbeatSpacing(c, ts);
    NotificationSpacing(c, ts, P);
  }

  /**
   * In a lively run on a monotone clock the attributes at rest render a read that is less than the notify
   * interval older than the last successful one.
   */
  lemma AttributesAreFresh(c: PolicyConfig, startFailed: bool, actions: seq<Action>, s: Sys, P: nat)
    requires s == Exec(c, Start(c, startFailed), actions) && Quiescent(s) && s.snapshot.everValid
    requires Lively(c, Performed(c, startFailed, actions), P) && Monotone(Performed(c, startFailed, actions))
    ensures s.applied < |s.log| && s.store == Render(AppliedTo(s))
    ensures LastReadMs(Performed(c, startFailed, actions), 0) - s.log[s.applied].readMs
         <= Max(c.notifyIntervalMs - 1, 0)
  {
    assert s.applied < |s.log| && s.store == Render(AppliedTo(s)) by { AttributesAreCurrent(c, startFailed, actions); }
    assert s.policy.lastNotifyMs <= s.log[s.applied].readMs by { AppliedReadTime(c, startFailed, actions, s); }
    var ts := Performed(c, startFailed, actions);
    assert s.policy == Ticks(c, INITIAL, ts) by { InterleavingsRunTheTicks(c, startFailed, actions); }
    assert s.policy.everValid by { NotifiedIsPublished(c, startFailed, actions, s); }
    LastReadInTime(c, ts, P);
  }
}
