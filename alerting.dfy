/** The intrusion-alert rate limiter as a pure transition over the one piece
    of state it owns, the time of the last alert, and over whole sequences
    of frames. */
module Alerting {
  import opened Detection

  /** How the external send of the alert event ended. `Failed` is an
      ordinary exception, which the handler catches; `Interrupted` is a
      base exception that is not an ordinary one (task cancellation, a
      keyboard interrupt), which the handler does not catch. */
  datatype SendOutcome = Delivered | Failed | Interrupted {
    /** The handler goes on to record the alert time. */
    predicate Commits() {
      !Interrupted?
    }
  }

  /** The call event sent to the call's participants. */
  datatype AlertEvent = AlertEvent(
    callType: string,
    callId: string,
    eventType: string,
    customType: string,
    message: string,
    timestamp: real)

  /** The event for an alert raised at time `now`: every field but the
      timestamp is fixed. */
  function IntrusionAlert(now: real): AlertEvent {
    AlertEvent("default", "security-demo-1", "custom", "intrusion_alert", "Person detected", now)
  }

  /** What the handler did with one frame. */
  datatype Decision =
    | NotQualifying
    | Suppressed
    | Alert(event: AlertEvent, send: SendOutcome)

  /** An alert whose send returned or raised an ordinary exception, so that
      the alert time was recorded. */
  predicate Committed(d: Decision) {
    d.Alert? && d.send.Commits()
  }

  /** One frame as the handler sees it: the detector's result, the clock
      reading (used only when the frame qualifies) and the outcome the send
      would have (used only when an alert is attempted). */
  datatype FrameInput = FrameInput(detection: Inference, now: real, send: SendOutcome)

  /** The time of the last alert after a frame, and what was done with it. */
  datatype StepResult = StepResult(lastAlertTime: real, decision: Decision)

  /** One frame through the handler, from last-alert time `last`. */
  function Step(last: real, cooldown: real, f: FrameInput): (r: StepResult)
    ensures r.decision.NotQualifying? <==> !Qualifies(f.detection)
    ensures r.decision.Suppressed? <==> Qualifies(f.detection) && f.now - last <= cooldown
    ensures r.decision.Alert? <==> Qualifies(f.detection) && f.now - last > cooldown
    ensures r.decision.Alert? ==> r.decision.event == IntrusionAlert(f.now) && r.decision.send == f.send
    ensures r.lastAlertTime == if Committed(r.decision) then f.now else last
  {
    if !Qualifies(f.detection) then
      StepResult(last, NotQualifying)
    else if f.now - last > cooldown then
      var alert := Alert(IntrusionAlert(f.now), f.send);
      StepResult(if f.send.Commits() then f.now else last, alert)
    else
      StepResult(last, Suppressed)
  }

  /** A sequence of frames through the handler, one result per frame. */
  function Run(last: real, cooldown: real, frames: seq<FrameInput>): (rs: seq<StepResult>)
    ensures |rs| == |frames|
    decreases |frames|
  {
    if frames == [] then []
    else
      var s := Step(last, cooldown, frames[0]);
      [s] + Run(s.lastAlertTime, cooldown, frames[1..])
  }

  /** The last-alert time in force when frame `i` of a run arrives. */
  function Before(last: real, rs: seq<StepResult>, i: nat): real
    requires i <= |rs|
  {
    if i == 0 then last else rs[i - 1].lastAlertTime
  }

  /** The times of the committed alerts of a run, in order. */
  function CommittedTimes(rs: seq<StepResult>): seq<real>
    decreases |rs|
  {
    if rs == [] then []
    else (if Committed(rs[0].decision) then [rs[0].decision.event.timestamp] else [])
         + CommittedTimes(rs[1..])
  }

  /** Each time lies more than `cooldown` after the one before it, the first
      more than `cooldown` after `start`. */
  predicate Gated(start: real, times: seq<real>, cooldown: real)
    decreases |times|
  {
    times == [] || (times[0] - start > cooldown && Gated(times[0], times[1..], cooldown))
  }

  /** The last of `times`, or `start` when there is none. */
  function LastOr(start: real, times: seq<real>): real {
    if times == [] then start else times[|times| - 1]
  }

  /** Frame `i` of a run is handled from the state left by frame `i - 1`. */
  lemma {:induction false} RunAt(last: real, cooldown: real, frames: seq<FrameInput>, i: nat)
    requires i < |frames|
    ensures Run(last, cooldown, frames)[i]
         == Step(Before(last, Run(last, cooldown, frames), i), cooldown, frames[i])
    decreases i
  {
    if i > 0 {
      var s := Step(last, cooldown, frames[0]);
      RunAt(s.lastAlertTime, cooldown, frames[1..], i - 1);
    }
  }

  /** Over any sequence of frames, an alert is attempted only for a
      qualifying frame, only once the cooldown has elapsed since the alert
      time then in force, and it carries that frame's clock reading. */
  lemma RunAlertsQualify(last: real, cooldown: real, frames: seq<FrameInput>)
    ensures var rs := Run(last, cooldown, frames);
      forall i :: 0 <= i < |rs| && rs[i].decision.Alert? ==>
        Qualifies(frames[i].detection)
        && frames[i].now - Before(last, rs, i) > cooldown
        && rs[i].decision.event == IntrusionAlert(frames[i].now)
  {
    var rs := Run(last, cooldown, frames);
    forall i | 0 <= i < |rs| && rs[i].decision.Alert?
      ensures Qualifies(frames[i].detection)
      ensures frames[i].now - Before(last, rs, i) > cooldown
      ensures rs[i].decision.event == IntrusionAlert(frames[i].now)
    {
      RunAt(last, cooldown, frames, i);
    }
  }

  /** When no frame qualifies, nothing is attempted and the alert time does
      not move. */
  lemma {:induction false} NoQualifyingFrameNoAlert(last: real, cooldown: real, frames: seq<FrameInput>)
    requires forall i :: 0 <= i < |frames| ==> !Qualifies(frames[i].detection)
    ensures var rs := Run(last, cooldown, frames);
      (forall i :: 0 <= i < |rs| ==> rs[i] == StepResult(last, NotQualifying))
  {
    if frames != [] {
      var s := Step(last, cooldown, frames[0]);
      var rest := frames[1..];
      forall j | 0 <= j < |rest| ensures !Qualifies(rest[j].detection) {
        assert rest[j] == frames[j + 1];
      }
      NoQualifyingFrameNoAlert(last, cooldown, rest);
      assert Run(last, cooldown, frames) == [s] + Run(last, cooldown, rest);
    }
  }

  /** Over any sequence of frames the committed alert times are gated by the
      cooldown, and the alert time left at the end is the last of them (or
      the starting time when there is none): suppressed, non-qualifying and
      interrupted frames never move it. */
  lemma {:induction false} RunGated(last: real, cooldown: real, frames: seq<FrameInput>)
    ensures Gated(last, CommittedTimes(Run(last, cooldown, frames)), cooldown)
    ensures var rs := Run(last, cooldown, frames);
      (if rs == [] then last else rs[|rs| - 1].lastAlertTime) == LastOr(last, CommittedTimes(rs))
    decreases |frames|
  {
    if frames != [] {
      var s := Step(last, cooldown, frames[0]);
      var rest := Run(s.lastAlertTime, cooldown, frames[1..]);
      var rs := Run(last, cooldown, frames);
      assert rs == [s] + rest;
      assert rs[1..] == rest;
      RunGated(s.lastAlertTime, cooldown, frames[1..]);
      if Committed(s.decision) {
        assert CommittedTimes(rs) == [s.decision.event.timestamp] + CommittedTimes(rest);
      } else {
        assert CommittedTimes(rs) == CommittedTimes(rest);
      }
    }
  }

  /** With a non-negative cooldown, gated times lie after `start` and any two
      of them are more than `cooldown` apart, not only neighbours. */
  lemma {:induction false} GatedPairwise(start: real, times: seq<real>, cooldown: real)
    requires cooldown >= 0.0
    requires Gated(start, times, cooldown)
    ensures forall i :: 0 <= i < |times| ==> times[i] - start > cooldown
    ensures forall i, j :: 0 <= i < j < |times| ==> times[j] - times[i] > cooldown
    decreases |times|
  {
    if times != [] {
      var rest := times[1..];
      GatedPairwise(times[0], rest, cooldown);
      forall j | 0 < j < |times|
        ensures times[j] - times[0] > cooldown
      {
        assert times[j] == rest[j - 1];
      }
      forall i, j | 0 < i < j < |times|
        ensures times[j] - times[i] > cooldown
      {
        assert times[i] == rest[i - 1] && times[j] == rest[j - 1];
      }
    }
  }

  /** Appending a time more than `cooldown` after the last keeps a sequence
      gated. */
  lemma {:induction false} GatedSnoc(start: real, times: seq<real>, cooldown: real, t: real)
    requires Gated(start, times, cooldown)
    requires t - LastOr(start, times) > cooldown
    ensures Gated(start, times + [t], cooldown)
    ensures LastOr(start, times + [t]) == t
    decreases |times|
  {
    if times != [] {
      assert (times + [t])[1..] == times[1..] + [t];
      GatedSnoc(times[0], times[1..], cooldown, t);
    }
  }

  /** With a non-negative cooldown the alert time never decreases over a
      run: each state is at least the starting time and at most every later
      state. */
  lemma {:induction false} RunMonotone(last: real, cooldown: real, frames: seq<FrameInput>)
    requires cooldown >= 0.0
    ensures forall i, j :: 0 <= i <= j < |frames| ==>
      last <= Run(last, cooldown, frames)[i].lastAlertTime <= Run(last, cooldown, frames)[j].lastAlertTime
    decreases |frames|
  {
    if frames != [] {
      var s := Step(last, cooldown, frames[0]);
      var rest := Run(s.lastAlertTime, cooldown, frames[1..]);
      var rs := Run(last, cooldown, frames);
      assert rs == [s] + rest;
      RunMonotone(s.lastAlertTime, cooldown, frames[1..]);
      assert last <= s.lastAlertTime by {
        if Committed(s.decision) {
          assert frames[0].now - last > cooldown;
        }
      }
      forall i, j | 0 <= i <= j < |rs|
        ensures last <= rs[i].lastAlertTime <= rs[j].lastAlertTime
      {
        assert rs[0] == s;
        if i > 0 {
          assert rs[i] == rest[i - 1] && rs[j] == rest[j - 1];
          assert s.lastAlertTime <= rest[i - 1].lastAlertTime <= rest[j - 1].lastAlertTime;
        } else if j > 0 {
          assert rs[j] == rest[j - 1];
          assert s.lastAlertTime <= rest[j - 1].lastAlertTime;
        }
      }
    }
  }

  /** With a non-negative cooldown, over any sequence of frames the committed
      alerts are pairwise more than `cooldown` apart and all lie more than
      `cooldown` after the starting alert time: at most one committed alert
      falls in any window of length `cooldown`. */
  lemma CommittedAlertsSpaced(last: real, cooldown: real, frames: seq<FrameInput>)
    requires cooldown >= 0.0
    ensures var ts := CommittedTimes(Run(last, cooldown, frames));
      (forall i :: 0 <= i < |ts| ==> ts[i] - last > cooldown)
      && (forall i, j :: 0 <= i < j < |ts| ==> ts[j] - ts[i] > cooldown)
  {
    RunGated(last, cooldown, frames);
    GatedPairwise(last, CommittedTimes(Run(last, cooldown, frames)), cooldown);
  }

  /** When no send is interrupted, every attempted alert is committed and
      sets the alert time to its frame's clock reading. */
  lemma UninterruptedAttemptsCommit(last: real, cooldown: real, frames: seq<FrameInput>)
    requires forall i :: 0 <= i < |frames| ==> !frames[i].send.Interrupted?
    ensures var rs := Run(last, cooldown, frames);
      forall i :: 0 <= i < |rs| && rs[i].decision.Alert? ==>
        Committed(rs[i].decision) && rs[i].lastAlertTime == frames[i].now
  {
    var rs := Run(last, cooldown, frames);
    forall i | 0 <= i < |rs| && rs[i].decision.Alert?
      ensures Committed(rs[i].decision) && rs[i].lastAlertTime == frames[i].now
    {
      RunAt(last, cooldown, frames, i);
    }
  }

  /** With a non-negative cooldown and no send interrupted, any two attempted
      alerts of a run are more than `cooldown` apart. */
  lemma UninterruptedAttemptsSpaced(last: real, cooldown: real, frames: seq<FrameInput>)
    requires cooldown >= 0.0
    requires forall i :: 0 <= i < |frames| ==> !frames[i].send.Interrupted?
    ensures var rs := Run(last, cooldown, frames);
      forall i, j :: 0 <= i < j < |rs| && rs[i].decision.Alert? && rs[j].decision.Alert? ==>
        frames[j].now - frames[i].now > cooldown
  {
    var rs := Run(last, cooldown, frames);
    RunAlertsQualify(last, cooldown, frames);
    UninterruptedAttemptsCommit(last, cooldown, frames);
    RunMonotone(last, cooldown, frames);
    forall i, j | 0 <= i < j < |rs| && rs[i].decision.Alert? && rs[j].decision.Alert?
      ensures frames[j].now - frames[i].now > cooldown
    {
      assert rs[i].lastAlertTime <= rs[j - 1].lastAlertTime == Before(last, rs, j);
    }
  }
}
