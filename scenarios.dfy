/** Concrete frame sequences through the handler with the default cooldown
    of five seconds, starting from the initial alert time of zero. */
module Scenarios {
  import opened Detection
  import opened Alerting

  /** A frame with one bounding box and no keypoints. */
  function Boxed(now: real, send: SendOutcome): FrameInput {
    FrameInput(Inference(1, Absent, []), now, send)
  }

  /** A frame with no box whose keypoints are present but none visible. */
  function Empty(now: real): FrameInput {
    FrameInput(Inference(0, Present(false), []), now, Delivered)
  }

  /** From the initial zero a qualifying frame at 3 is suppressed; one at 6
      alerts; 9 is suppressed; 11 is exactly five seconds after 6 and, the
      comparison being strict, is suppressed; 11.5 alerts; an empty frame at
      20 does nothing. */
  lemma CooldownTimeline()
    ensures var rs := Run(0.0, 5.0, [Boxed(3.0, Delivered), Boxed(6.0, Delivered), Boxed(9.0, Delivered),
                                     Boxed(11.0, Delivered), Boxed(11.5, Delivered), Empty(20.0)]);
      rs == [StepResult(0.0, Suppressed),
             StepResult(6.0, Alert(IntrusionAlert(6.0), Delivered)),
             StepResult(6.0, Suppressed),
             StepResult(6.0, Suppressed),
             StepResult(11.5, Alert(IntrusionAlert(11.5), Delivered)),
             StepResult(11.5, NotQualifying)]
  {
  }

  /** A send that raises an ordinary exception still records the alert time,
      so a qualifying frame three seconds later is suppressed. */
  lemma FailedSendConsumesCooldown()
    ensures Run(0.0, 5.0, [Boxed(6.0, Failed), Boxed(9.0, Delivered)])
         == [StepResult(6.0, Alert(IntrusionAlert(6.0), Failed)), StepResult(6.0, Suppressed)]
  {
  }

  /** A send interrupted by a base exception leaves the alert time where it
      was, so the next qualifying frame attempts the alert again. */
  lemma InterruptedSendDoesNotConsumeCooldown()
    ensures Run(0.0, 5.0, [Boxed(6.0, Interrupted), Boxed(7.0, Delivered)])
         == [StepResult(0.0, Alert(IntrusionAlert(6.0), Interrupted)),
             StepResult(7.0, Alert(IntrusionAlert(7.0), Delivered))]
  {
  }
}
