# Student activity monitor: the decision logic, modelled in Dafny

The monitor watches a webcam feed. For every frame it runs a face mesh, a
hand-landmark model and an object detector, turns their output into one
behaviour label (Sleeping, Using Phone, Eating or Normal) and, through a rate
limiter, records and alerts on label changes. A second, stand-alone script
labels a frame as "Sleeping " (with a trailing space), "Phone/Eating" or
"Normal".

This project models the decision logic of both scripts. The perception
models' output comes in as plain values:

- `Classifier` (classifier.dfy) is `is_sleeping` and `get_behavior` of
  main.py. They are pure functions, so the model uses recursion in place of
  the loops with early return. A face is its landmark heights 159, 145 and 13.
  A hand is the height of its index fingertip. The detector output is, per
  result, the class ids of its boxes, read through the detector's id-to-name
  map.
- `AlertGate` (alert_gate.dfy) is the state the capture loop of main.py keeps
  across frames: `detected_events`, `last_behavior` and `last_alert_time`.
  `GateState` and `Next` give one frame's update as a value, with its
  invariant `Inv`. The class `Monitor` holds the same three variables as
  fields, and `Monitor.Step` is proved to perform `Next`. `RunSession` is the
  capture loop over a finite sequence of captured frames. Time is a `real`
  (seconds) and the formatted timestamp is an opaque string.
- `FrameDetector` (frame_detector.dfy) is `detect_behavior` of
  detect_behavior.py. It is imperative, like the source: a label variable is
  reassigned inside loops over faces and hands. The eye aspect ratios come in
  already computed. The palm-to-nose test compares the squared distance with
  the squared threshold, which over the reals is the same as comparing the
  distance.
- `Wrappers` (wrappers.dfy) is `Option`, which stands for Python's `None`.

## Model

| member | source | states |
|---|---|---|
| `Classifier.IsSleeping` | main.py:45-50 | a face is asleep exactly when its upper and lower eyelid heights differ by less than 0.004, in either direction |
| `Classifier.AnySleeping` | main.py:53-57 | the sleep loop finds a face exactly when some face is asleep |
| `Classifier.DecisiveLabel` | main.py:63-67 | "cell phone" decides Using Phone; banana, apple, orange and sandwich decide Eating; every other class name decides nothing |
| `Classifier.ScanBoxes` | main.py:62-67 | the box loop of one detector result yields only Using Phone or Eating |
| `Classifier.ScanResults` | main.py:60-67 | the loop over detector results yields only Using Phone or Eating |
| `Classifier.NearAnyMouth` | main.py:72-76 | the face loop for one hand fires exactly when the fingertip is within 0.05 (vertically) of some face's mouth |
| `Classifier.AnyHandNearMouth` | main.py:70-76 | the hand loop fires exactly when some hand's fingertip is near some face's mouth, so it needs at least one hand and one face |
| `Classifier.GetBehavior` | main.py:52-78 | the label is one of Sleeping, Using Phone, Eating or Normal; it is Sleeping exactly when some face is asleep, whatever the detector and the hands show |
| `Classifier.ScanBoxesFindsFirst` | main.py:62-67 | the box loop returns the label of the first decisive class and skips every class before it |
| `Classifier.ScanBoxesNone` | main.py:62-67 | the box loop returns nothing exactly when no class is decisive |
| `Classifier.ScanResultsFindsFirst` | main.py:60-67 | over all results in result/box order, the first decisive class decides |
| `Classifier.ScanResultsNone` | main.py:60-67 | the detector loops return nothing exactly when no class in any result is decisive |
| `Classifier.DecisiveClassWins` | main.py:52-67 | with no face asleep, the frame's label is the one decided by the first decisive class, whatever the hands show |
| `Classifier.HandRuleIsLastResort` | main.py:69-78 | with no face asleep and no decisive class, the label is Eating if some fingertip is near some mouth and Normal otherwise |
| `Classifier.NormalWhenNothingFires` | main.py:52-78 | the label is Normal exactly when no face is asleep, no class is decisive and no fingertip is near a mouth |
| `AlertGate.Next` | main.py:102-108 | one frame either leaves the event list as it was or appends exactly one non-Normal event {timestamp, label} at the end; the alert time of every other label is unchanged |
| `AlertGate.Run` | main.py:85-108 | over a sequence of frames the event list never shrinks and grows by at most one event per frame |
| `AlertGate.InitialInv` | main.py:80-83 | the empty starting state satisfies the gate invariant |
| `AlertGate.SuppressedFrameChangesNothing` | main.py:102 | a Normal frame, or a frame with the last recorded label, leaves the whole state unchanged |
| `AlertGate.WithinWindowSuppressed` | main.py:103-104 | a label alerted at time t is not recorded at any time up to and including t + 60 |
| `AlertGate.RecordAppendsOneEvent` | main.py:105-108 | a recorded frame appends exactly one event {timestamp, label} at the end, makes the label the last one, sets its alert time to now and leaves every other label's alert time as it was |
| `AlertGate.NextInv` | main.py:100-108 | one frame keeps the invariant: the last label is the last event's label (None exactly when there are no events), no event is Normal, neighbouring events differ, and the labels with an alert time are exactly the recorded labels |
| `AlertGate.RunInv` | main.py:85-108 | any sequence of frames keeps that invariant |
| `AlertGate.RunExtends` | main.py:106 | events are only appended: a run keeps every earlier event in place |
| `AlertGate.QuietRunChangesNothing` | main.py:102 | any stretch of frames that are Normal or repeat the last label changes nothing, so a label that recurs after Normal frames is still suppressed |
| `AlertGate.RateLimited` | main.py:100-108 | after an alert for a label at time t, frames timed at most t + 60 never record that label again, whatever else is recorded in between, and its alert time stays t |
| `AlertGate.Monitor.constructor` | main.py:80-83 | the monitor starts with no events, no last label and no alert times |
| `AlertGate.Monitor.Step` | main.py:100-108 | one frame's update of the three variables is exactly `Next`, keeps the invariant, and reports an alert exactly when the frame is recorded |
| `AlertGate.RunSession` | main.py:85-137 | the session's events are those of the gate run over the classified frames; every event is Sleeping, Using Phone or Eating, and neighbouring events differ |
| `FrameDetector.DetectBehavior` | detect_behavior.py:8-50 | the label is "Normal", "Sleeping " or "Phone/Eating"; "Sleeping " exactly when some face has both eye ratios below 0.2; "Phone/Eating" exactly when no face sleeps and some palm is within 0.1 of some nose tip; "Normal" without faces; never "Phone/Eating" without hands |

## Left out

- Perception: loading and running the object detector, the face mesh and
  the hand model, frame capture, colour conversion, drawing and the preview
  window. These are third-party libraries; their output is an input here.
- Floating-point geometry: the eye aspect ratio (a division by a norm, which
  can divide by zero) and the palm-to-nose norm. The ratios come in as
  inputs, and all comparisons are exact arithmetic on `real`, not IEEE
  doubles.
- The clock and formatting: `time.time()` becomes a `real` parameter and the
  `strftime` timestamp an opaque string parameter.
- Appending to the log file, the WhatsApp and e-mail alerts, and the PDF
  session report sent on quit. These are I/O with no decision logic.
  `Monitor.Step` reports when they happen, and `RunSession` returns the
  event list the report receives.
- Environment and credential loading.
- `int(cls_id)`: the detector's float class ids are modelled as integers
  already.
- Classifier.GetBehavior: requires every class id of every detector result to
  have a name. Python raises a KeyError only when the loop reaches an id
  without a name; the detector never emits such an id.
- AlertGate.RunSession: the capture loop ends on a failed capture or the quit
  key; the model takes the finite sequence of frames captured before that.
