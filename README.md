# Security agent: intrusion-alert rate limiter

The security agent joins a video call, runs a pose/object detector on every
frame and, when a frame shows someone, sends an `intrusion_alert` custom event
to the call — at most once per cooldown window. The only logic the repository
owns is that rate limiter, `SecurityLogic` in `main.py`; this project models it
and proves its promises.

- `Detection` (`detection.dfy`): the detector's result for a frame, reduced to
  what the handler reads (number of boxes, keypoints with their "any point
  visible" flag, the annotated frame), and the qualification test: any box, or
  keypoints present with a visible point.
- `Alerting` (`alerting.dfy`): the handler as a pure transition `Step` over
  the last-alert time, the fixed alert payload, runs of the handler over any
  sequence of frames (`Run`), and the lemmas about them: alerts only for
  qualifying frames, the alert time moves only when an alert is recorded and
  never backwards, recorded alerts are more than the cooldown apart.
- `SecurityAgent` (`security_logic.dfy`): the class `SecurityLogic` with the
  mutable `lastAlertTime` field (initially 0), the `cooldown` constant
  (default 5.0) and the `Process` method, tied to `Step` and keeping a ghost
  history of recorded alert times whose spacing is a class invariant.
- `Scenarios` (`scenarios.dfy`): concrete timelines with the default cooldown.

The clock reading and the outcome of the event send are inputs of `Process`.
The send has three outcomes: it returns; it raises an ordinary exception,
which the handler catches and after which it still records the alert time;
or it is interrupted by a base exception that is not an ordinary one (task
cancellation, keyboard interrupt). `except Exception` does not catch the
last kind, so the handler then stops without recording the alert time and
the interruption propagates to its caller (`Raised`).

A frame qualifies on any bounding box or any visible keypoint; every frame
is evaluated; the event carries no detection count; detector errors are not
caught. The alert time starts at 0, so a qualifying frame at time 0 does not
alert (`0 - 0 > 5` is false); the first alert needs a clock reading above the
cooldown.

## Model

| member | source | states |
|---|---|---|
| Alerting.Step | main.py:36-65 | A frame is left alone exactly when it has no box and no visible keypoint; a qualifying frame is suppressed exactly when `now - last <= cooldown` and alerts exactly when `now - last > cooldown` (strict); an alert carries the fixed payload with timestamp `now`; the alert time becomes `now` exactly when an alert was attempted and its send returned or raised an ordinary exception, and is unchanged otherwise |
| Alerting.RunAlertsQualify | main.py:36-58 | Over any sequence of frames, every attempted alert comes from a qualifying frame, more than the cooldown after the alert time then in force, with that frame's clock reading as timestamp |
| Alerting.NoQualifyingFrameNoAlert | main.py:46-65 | If no frame qualifies, no alert is attempted and the alert time stays at its starting value throughout |
| Alerting.RunGated | main.py:47-65 | Over any sequence of frames, each recorded alert lies more than the cooldown after the previous one (the first after the starting time), and the alert time at the end is the last recorded alert, or the starting time when there is none |
| Alerting.RunMonotone | main.py:47-65 | With a non-negative cooldown the alert time never decreases from frame to frame and never drops below the starting time, whatever order the clock readings arrive in |
| Alerting.CommittedAlertsSpaced | main.py:47-65 | With a non-negative cooldown, any two recorded alerts are more than the cooldown apart and all lie more than the cooldown after the starting time: at most one recorded alert per cooldown window |
| Alerting.UninterruptedAttemptsCommit | main.py:51-65 | When no send is interrupted, every attempted alert is recorded, failed sends included, and sets the alert time to that frame's clock reading |
| Alerting.UninterruptedAttemptsSpaced | main.py:47-65 | With a non-negative cooldown and no send interrupted, any two attempted alerts of a run are more than the cooldown apart, by frame position |
| SecurityAgent.SecurityLogic.constructor | main.py:18-24 | The handler starts with alert time 0, the given cooldown (5.0 by default) and no recorded alerts |
| SecurityAgent.SecurityLogic.Process | main.py:30-67 | One frame through the handler equals `Step` from the old alert time; non-qualifying and suppressed frames leave the alert time unchanged; an alert past the cooldown sends the fixed event and sets the alert time to `now` even when the send fails, leaves it unchanged when the send is interrupted; the annotated frame is returned unless the interruption propagates; the recorded-alert history grows by `now` exactly on a recorded alert and stays gated by the cooldown |
| SecurityAgent.SecurityLogic.AlertHistorySpaced | main.py:47-65 | In any reachable state with a non-negative cooldown, the recorded alerts are pairwise more than the cooldown apart, all later than the cooldown, and none later than the alert time in force |
| Scenarios.CooldownTimeline | main.py:46-65 | From alert time 0 with cooldown 5: a qualifying frame at 3 is suppressed, 6 alerts, 9 is suppressed, 11 (exactly 5 after 6) is suppressed, 11.5 alerts, a frame without box or visible keypoint does nothing |
| Scenarios.FailedSendConsumesCooldown | main.py:51-65 | A failed send at 6 still sets the alert time to 6, so a qualifying frame at 9 is suppressed |
| Scenarios.InterruptedSendDoesNotConsumeCooldown | main.py:51-65 | An interrupted send at 6 leaves the alert time at 0, so a qualifying frame at 7 attempts the alert again |

## Left out

- Detector loading, inference and drawing of the annotated frame (main.py:20, 28, 31-32): external library calls; their outputs (box count, keypoints, visibility flag, annotated frame) are inputs, and the 0.01 visibility threshold lives in the detector's own flag.
- A detector that raises: the exception leaves the handler before any state is touched; it is not modelled.
- The event send to the call (main.py:52-60): external network I/O, modelled only as its outcome.
- The clock (main.py:47): the reading is an input `now`; time is a real number, so IEEE double rounding of `now - last_alert_time` is not modelled.
- Diagnostics and logging (main.py:14-15, 27, 49, 61, 63): output only.
- The asynchronous `await` around the send (main.py:52): the model assumes the external framework calls the handler for one frame at a time and lets each call finish before the next starts. `process` reads the alert time at main.py:48, suspends at the send on main.py:52 and writes the alert time at main.py:65, so two calls interleaved at the send would both pass the gate and both send. The spacing results (`Alerting.RunGated`, `Alerting.CommittedAlertsSpaced`, `Alerting.UninterruptedAttemptsSpaced`, `SecurityAgent.SecurityLogic.AlertHistorySpaced`) do not hold if calls interleave.
- `main()` (main.py:69-122) and `get_token.py`: environment reading, client and call creation, the language-model agent, joining the call and the keep-alive loop, token issuance — configuration and I/O with no logic of the repository's own.
- What the caller does after an interrupted send propagates out of the handler: runs simply go on with the next frame, the state being unchanged either way.
