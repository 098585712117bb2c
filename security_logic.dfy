/** The frame handler that owns the alert state: a detection result comes in,
    an intrusion alert may go out, and the annotated frame goes back. */
module SecurityAgent {
  import opened Detection
  import opened Alerting

  /** Seconds between alerts when none is given. */
  const DefaultCooldown: real := 5.0

  /** What the handler hands back: the annotated frame, or nothing because the
      send was interrupted and the interruption propagated out of it. */
  datatype ProcessResult = Returned(frame: Image) | Raised

  class SecurityLogic {
    const cooldown: real
    var lastAlertTime: real

    /** The times of the alerts recorded so far, oldest first. */
    ghost var alertTimes: seq<real>

    /** The alert time in force is the last recorded alert (or the initial
        zero), and recorded alerts are gated by the cooldown. */
    ghost predicate Valid()
      reads this
    {
      Gated(0.0, alertTimes, cooldown) && lastAlertTime == LastOr(0.0, alertTimes)
    }

    constructor (cooldown: real := DefaultCooldown)
      ensures Valid()
      ensures this.cooldown == cooldown && lastAlertTime == 0.0 && alertTimes == []
    {
      this.cooldown := cooldown;
      lastAlertTime := 0.0;
      alertTimes := [];
    }

    /** Handles one frame: `detection` is the detector's result for it,
        `now` the clock reading and `send` how the event send ends. */
    method Process(detection: Inference, now: real, send: SendOutcome)
      returns (result: ProcessResult, decision: Decision)
      requires Valid()
      modifies this
      ensures Valid()
      ensures StepResult(lastAlertTime, decision) == Step(old(lastAlertTime), cooldown, FrameInput(detection, now, send))
      ensures !Qualifies(detection) ==> decision == NotQualifying && lastAlertTime == old(lastAlertTime)
      ensures Qualifies(detection) && now - old(lastAlertTime) <= cooldown ==>
        decision == Suppressed && lastAlertTime == old(lastAlertTime)
      ensures Qualifies(detection) && now - old(lastAlertTime) > cooldown ==>
        decision == Alert(IntrusionAlert(now), send)
        && lastAlertTime == (if send.Interrupted? then old(lastAlertTime) else now)
      ensures result == if decision.Alert? && send.Interrupted? then Raised else Returned(detection.plot)
      ensures alertTimes == old(alertTimes) + (if Committed(decision) then [now] else [])
    {
      var annotated := detection.plot;
      var hasBox := detection.boxes > 0;
      var hasPose := false;
      if detection.keypoints.Present? {
        if detection.keypoints.hasVisible {
          hasPose := true;
        }
      }
      decision := NotQualifying;
      if hasBox || hasPose {
        decision := Suppressed;
        if now - lastAlertTime > cooldown {
          decision := Alert(IntrusionAlert(now), send);
          if send.Interrupted? {
            return Raised, decision;
          }
          GatedSnoc(0.0, alertTimes, cooldown, now);
          lastAlertTime := now;
          alertTimes := alertTimes + [now];
        }
      }
      result := Returned(annotated);
    }

    /** With a non-negative cooldown, the recorded alerts all lie more than
        `cooldown` after the initial zero and any two of them are more than
        `cooldown` apart; the alert time in force is the latest of them. */
    lemma AlertHistorySpaced()
      requires Valid() && cooldown >= 0.0
      ensures forall i :: 0 <= i < |alertTimes| ==> alertTimes[i] > cooldown && alertTimes[i] <= lastAlertTime
      ensures forall i, j :: 0 <= i < j < |alertTimes| ==> alertTimes[j] - alertTimes[i] > cooldown
    {
      GatedPairwise(0.0, alertTimes, cooldown);
    }
  }
}
