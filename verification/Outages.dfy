/** What stretches of failed reads do to the publications and to the attributes. */
module Outages {
  import opened Integers
  import opened Sen66Fields
  import opened Sen66Crc
  import opened Sen66Protocol
  import opened MeasurementPolicy
  import opened PolicyRuns
  import opened MatterAdapter
  import opened Publication
  import opened PublicationProofs
  import opened PublicationRuns

  predicate Fails(a: Action) { a.PollTick? ==> OutcomeOf(a.bus).ReadFailed? }

  predicate AllTicksFail(actions: seq<Action>) { forall a :: a in actions ==> Fails(a) }

  // ----- The policy and the publications -----

  predicate SameData(s: Sys, x: Snapshot) {
    x.everValid == s.policy.everValid && (x.everValid ==> x.measurement == s.policy.latest)
  }

  /** What stays fixed from s to t while every read fails. */
  ghost predicate Frozen(s: Sys, t: Sys) {
    && t.readMs == s.readMs && t.policy.latest == s.policy.latest && t.policy.everValid == s.policy.everValid
    && s.log <= t.log
    && (t.poll.Publishing? ==> SameData(s, t.poll.local))
    && forall k: nat :: |s.log| <= k < |t.log| ==> SameData(s, t.log[k].snapshot) && t.log[k].readMs == s.readMs
  }

  lemma StepKeepsFrozen(c: PolicyConfig, s: Sys, t: Sys, a: Action)
    requires Frozen(s, t) && Fails(a)
    ensures Frozen(s, Do(c, t, a))
  {
  }

  lemma {:induction false} ExecFrozen(c: PolicyConfig, s: Sys, actions: seq<Action>)
    requires Ledger(s) && AllTicksFail(actions)
    ensures Frozen(s, Exec(c, s, actions))
    decreases |actions|
  {
    if actions != [] {
      var n := |actions| - 1;
      ExecFrozen(c, s, actions[..n]);
      StepKeepsFrozen(c, s, Exec(c, s, actions[..n]), actions[n]);
    }
  }

  // ----- Once published, the last publication is the policy's latest -----

  predicate Settled(s: Sys)
    requires s.log != []
  {
    !s.poll.Heard? && !s.poll.Publishing? ==> SameData(s, Last(s).snapshot)
  }

  lemma UnlockKeepsSettled(s: Sys)
    requires Ledger(s) && Settled(s)
    ensures DoPollUnlock(s).log != [] && Settled(DoPollUnlock(s))
  {
  }

  lemma NotifyKeepsSettled(s: Sys)
    requires s.log != [] && Publishes(s) && Settled(s)
    ensures Settled(DoPollNotify(s))
  {
    var t := DoPollNotify(s);
    assert t.log == s.log && t.policy.latest == s.policy.latest && t.policy.everValid == s.policy.everValid;
    if s.poll.Published? { assert SameData(s, Last(s).snapshot); } else { assert t == s; }
  }

  lemma SameRecordKeepsSettled(s: Sys, t: Sys)
    requires s.log != [] && Settled(s) && SameRecord(s, t)
    ensures t.log != [] && Settled(t)
  {
  }

  lemma KeepsSettled(c: PolicyConfig, s: Sys, a: Action)
    requires Ledger(s) && Settled(s)
    ensures Do(c, s, a).log != [] && Settled(Do(c, s, a))
  {
    if a.PollUnlock? {
      UnlockKeepsSettled(s);
    } else if a.PollNotify? {
      NotifyKeepsSettled(s);
    } else if LeavesRecord(a) {
      StepLeavesRecord(c, s, a);
      SameRecordKeepsSettled(s, Do(c, s, a));
    }
  }

  lemma {:induction false} AlwaysSettled(c: PolicyConfig, startFailed: bool, actions: seq<Action>)
    ensures var s := Exec(c, Start(c, startFailed), actions);
      s.log != [] && Settled(s)
    decreases |actions|
  {
    if actions != [] {
      var init := actions[..|actions| - 1];
      AlwaysSettled(c, startFailed, init);
      AlwaysInv(c, startFailed, init);
      KeepsSettled(c, Exec(c, Start(c, startFailed), init), actions[|actions| - 1]);
    }
  }

  lemma RestShowsLatest(s: Sys)
    requires Copies(s) && Settled(s) && Deliverable(s.policy) && s.poll.Idle?
    requires HonestLog(s.log)
    ensures s.snapshot.measurement.valid == s.policy.latest.valid
    ensures s.policy.everValid ==> s.snapshot.measurement == s.policy.latest
  {
    assert Honest(Last(s));
  }

  // ----- Main results -----

  /**
   * Through any stretch of failed reads, whenever it begins, every snapshot published carries the measurement
   * that the policy had at its beginning, with an age that counts from the last successful read.
   */
  lemma OutageFreezesSnapshots(c: PolicyConfig, startFailed: bool, before: seq<Action>, outage: seq<Action>, k: nat)
    requires AllTicksFail(outage)
    ensures var s := Exec(c, Start(c, startFailed), before);
      var t := Exec(c, Start(c, startFailed), before + outage);
      && s.log <= t.log
      && (|s.log| <= k < |t.log| ==>
            t.log[k].snapshot ==
              if s.policy.everValid then Snapshot(s.policy.latest, t.log[k].atMs - s.readMs, true) else NO_SNAPSHOT)
  {
    var s := Exec(c, Start(c, startFailed), before);
    AlwaysInv(c, startFailed, before);
    AlwaysInv(c, startFailed, before + outage);
    ExecConcat(c, Start(c, startFailed), before, outage);
    ExecFrozen(c, s, outage);
    var t := Exec(c, s, outage);
    if |s.log| <= k < |t.log| { assert Honest(t.log[k]) && SameData(s, t.log[k].snapshot); }
  }

  lemma RestInOutage(c: PolicyConfig, startFailed: bool, before: seq<Action>, outage: seq<Action>, s: Sys, t: Sys)
    requires s == Exec(c, Start(c, startFailed), before) && AllTicksFail(outage)
    requires t == Exec(c, Start(c, startFailed), before + outage) && t.poll.Idle?
    ensures t.snapshot.measurement.valid == s.policy.latest.valid
    ensures s.policy.everValid ==> t.snapshot.measurement == s.policy.latest
  {
    ExecConcat(c, Start(c, startFailed), before, outage);
    assert t.policy.latest == s.policy.latest && t.policy.everValid == s.policy.everValid by {
      AlwaysInv(c, startFailed, before);
      ExecFrozen(c, s, outage);
    }
    AlwaysSettled(c, startFailed, before + outage);
    assert Copies(t) && HonestLog(t.log) && Deliverable(t.policy) by { AlwaysInv(c, startFailed, before + outage); }
    RestShowsLatest(t);
  }

  /**
   * So a failing sensor does not null an attribute: from any reachable state, whatever is in flight, at every
   * rest within a stretch of failed reads an attribute is null exactly when its channel was invalid (or a
   * humidity of -1) in the last successful read, and the attributes render values close to that read.
   */
  lemma OutageFreezesAttributes(
    c: PolicyConfig, startFailed: bool, before: seq<Action>, outage: seq<Action>, s: Sys, t: Sys)
    requires s == Exec(c, Start(c, startFailed), before) && AllTicksFail(outage)
    requires t == Exec(c, Start(c, startFailed), before + outage) && Quiescent(t)
    ensures t.applied < |t.log| && t.store == Render(AppliedTo(t))
    ensures s.policy.everValid ==>
      t.snapshot.measurement == s.policy.latest && Near(c.thresholds, AppliedTo(t), s.policy.latest, 2)
    ensures var v := s.policy.latest.valid;
      && (IsNull(t.store[0]) <==> Temperature !in v) && t.store[1] == t.store[0]
      && (IsNull(t.store[2]) <==> Humidity !in v || AppliedTo(t).humidity == -1)
      && (IsNull(t.store[3]) <==> Co2 !in v)
      && (IsNull(t.store[4]) <==> Pm1p0 !in v)
      && (IsNull(t.store[5]) <==> Pm2p5 !in v)
      && (IsNull(t.store[6]) <==> Pm10 !in v)
      && (IsNull(t.store[7]) <==> Co2 !in v && Pm2p5 !in v && Pm10 !in v)
  {
    RestInOutage(c, startFailed, before, outage, s, t);
    NullPatternIsCurrent(c, startFailed, before + outage, t);
    AttributesAreCurrent(c, startFailed, before + outage);
  }

  // ----- Outages that begin at rest -----

  /** With nothing in flight at the beginning, not a single attribute is written during the outage. */
  predicate Untouched(s: Sys, t: Sys) {
    && t.store == s.store && t.chip == s.chip && t.queue == s.queue
    && !t.policy.shouldNotify && !t.poll.Notified? && !t.poll.Calling?
  }

  lemma StepKeepsUntouched(c: PolicyConfig, s: Sys, t: Sys, a: Action)
    requires Quiescent(s) && Untouched(s, t) && Fails(a)
    ensures Untouched(s, Do(c, t, a))
  {
  }

  lemma {:induction false} ExecUntouched(c: PolicyConfig, s: Sys, actions: seq<Action>)
    requires Quiescent(s) && !s.policy.shouldNotify && AllTicksFail(actions)
    ensures Untouched(s, Exec(c, s, actions))
    decreases |actions|
  {
    if actions != [] {
      var n := |actions| - 1;
      ExecUntouched(c, s, actions[..n]);
      StepKeepsUntouched(c, s, Exec(c, s, actions[..n]), actions[n]);
    }
  }

  lemma OutageFromRest(c: PolicyConfig, startFailed: bool, before: seq<Action>, outage: seq<Action>)
    requires Quiescent(Exec(c, Start(c, startFailed), before)) && AllTicksFail(outage)
    ensures Exec(c, Start(c, startFailed), before + outage).store == Exec(c, Start(c, startFailed), before).store
  {
    var s := Exec(c, Start(c, startFailed), before);
    AlwaysInv(c, startFailed, before);
    ExecConcat(c, Start(c, startFailed), before, outage);
    ExecUntouched(c, s, outage);
  }

  // ----- A disconnected sensor whose attributes are not null -----

  /** One good frame, and nothing more from the sensor. */
  function OneFrame(ws: seq<u16>): seq<Action> { [PollTick(Frame(EncodeWords(ws)), 0)] }

  lemma OneFrameIsHeard(c: PolicyConfig, startFailed: bool, ws: seq<u16>)
    requires |ws| == 9
    ensures GoodFrame(EncodeWords(ws)) && Decode(WordsOf(EncodeWords(ws))) == Decode(ws)
    ensures var s := Exec(c, Start(c, startFailed), OneFrame(ws));
      s.policy.latest == Decode(ws) && (Decode(ws).valid != {} ==> s.policy.everValid)
  {
    DecodeOfEncode(ws);
    var steps := OneFrame(ws);
    assert steps[..0] == [];
    assert Exec(c, Start(c, startFailed), steps) == Do(c, Start(c, startFailed), steps[0]);
  }

  lemma OnlyFrame(ws: seq<u16>, rest: seq<Action>, frame: Bytes)
    requires NoTicks(rest) && Fed(OneFrame(ws) + rest, frame)
    ensures frame == EncodeWords(ws)
  {
    var actions := OneFrame(ws) + rest;
    forall j | 0 < j < |actions| ensures !actions[j].PollTick? { assert actions[j] == rest[j - 1]; }
    var i: nat :| i < |actions| && actions[i].PollTick? && actions[i].bus == Frame(frame);
  }

  /** After the frame the system comes to rest with the attributes of the frame. */
  lemma OneFrameSettles(c: PolicyConfig, startFailed: bool, ws: seq<u16>) returns (rest: seq<Action>)
    requires |ws| == 9 && Decode(ws).valid != {}
    ensures NoTicks(rest)
    ensures var s := Exec(c, Start(c, startFailed), OneFrame(ws) + rest);
      Quiescent(s) && s.snapshot.measurement.valid != {} && s.store == Render(Decode(ws))
  {
    rest := AttributesCatchUp(c, startFailed, OneFrame(ws));
    var s := Exec(c, Start(c, startFailed), OneFrame(ws) + rest);
    OneFrameIsHeard(c, startFailed, ws);
    assert AllTicksFail(rest);
    RestInOutage(c, startFailed, OneFrame(ws), rest, Exec(c, Start(c, startFailed), OneFrame(ws)), s);
    var frame := FrameBehind(c, startFailed, OneFrame(ws) + rest, s);
    OnlyFrame(ws, rest, frame);
  }

  /**
   * For every frame with a valid channel there is a run that ends at rest with the attributes of that frame,
   * and after it no failing of the sensor, however long, changes any of them.
   */
  lemma DisconnectedIsNotNull(c: PolicyConfig, startFailed: bool, ws: seq<u16>) returns (before: seq<Action>)
    requires |ws| == 9 && Decode(ws).valid != {}
    ensures Quiescent(Exec(c, Start(c, startFailed), before))
    ensures forall outage: seq<Action> :: AllTicksFail(outage) ==>
      Exec(c, Start(c, startFailed), before + outage).store == Render(Decode(ws))
  {
    var rest := OneFrameSettles(c, startFailed, ws);
    before := OneFrame(ws) + rest;
    forall outage: seq<Action> | AllTicksFail(outage)
      ensures Exec(c, Start(c, startFailed), before + outage).store == Render(Decode(ws))
    {
      OutageFromRest(c, startFailed, before, outage);
    }
  }

  lemma FrameBehind(c: PolicyConfig, startFailed: bool, actions: seq<Action>, s: Sys) returns (frame: Bytes)
    requires s == Exec(c, Start(c, startFailed), actions) && Quiescent(s) && s.snapshot.measurement.valid != {}
    ensures GoodFrame(frame) && Fed(actions, frame) && s.store == Render(Decode(WordsOf(frame)))
  {
    assert s.snapshot.everValid by {
      AlwaysInv(c, startFailed, actions);
      assert Honest(Last(s));
    }
    frame := AttributesComeFromAFrame(c, startFailed, actions, s);
  }
}
