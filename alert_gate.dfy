/**
 * The alert gate of the live monitor (main.py, the state kept across frames
 * of the capture loop): which frame labels become recorded events and
 * alerts, and how often.
 *
 * `GateState` and `Next` give the meaning of one frame's update; the class
 * `Monitor` holds the same state in mutable fields, as the script does, and
 * `Monitor.Step` is proved to perform `Next`. `RunSession` is the capture
 * loop itself, over a finite sequence of captured frames.
 */
module AlertGate {
  import opened Wrappers
  import Classifier

  /** Seconds that must pass, strictly, before a label is alerted again. */
  const AlertInterval: real := 60.0

  /** One entry of the session's event list: a formatted timestamp and a label. */
  datatype Event = Event(time: string, behavior: string)

  /** `detected_events`, `last_behavior` and `last_alert_time`. */
  datatype GateState = GateState(events: seq<Event>, lastBehavior: Option<string>,
                                 lastAlertTime: map<string, real>)

  /** The state before the first frame. */
  const Initial: GateState := GateState([], None, map[])

  /** Every label that has been recorded. */
  ghost function RecordedLabels(events: seq<Event>): set<string>
  {
    set i | 0 <= i < |events| :: events[i].behavior
  }

  /**
   * What the gate keeps true across frames: `lastBehavior` is the label of the
   * last event (None exactly when there is none); no event is Normal;
   * neighbouring events have different labels; the labels with an alert time
   * are exactly the recorded ones.
   */
  ghost predicate Inv(st: GateState)
  {
    && (st.events == [] <==> st.lastBehavior.None?)
    && (st.events != [] ==> st.lastBehavior == Some(st.events[|st.events| - 1].behavior))
    && (forall i :: 0 <= i < |st.events| ==> st.events[i].behavior != Classifier.Normal)
    && (forall i :: 0 <= i < |st.events| - 1 ==> st.events[i].behavior != st.events[i + 1].behavior)
    && st.lastAlertTime.Keys == RecordedLabels(st.events)
  }

  /** The label has never been alerted, or its last alert is more than the
      interval ago. */
  predicate OutsideWindow(lastAlertTime: map<string, real>, behavior: string, now: real)
  {
    behavior !in lastAlertTime || now - lastAlertTime[behavior] > AlertInterval
  }

  /** The frame is recorded: not Normal, not the last label, outside its window. */
  predicate Records(st: GateState, behavior: string, now: real)
  {
    && behavior != Classifier.Normal
    && Some(behavior) != st.lastBehavior
    && OutsideWindow(st.lastAlertTime, behavior, now)
  }

  /** One frame's update of the gate state. */
  function Next(st: GateState, behavior: string, now: real, stamp: string): (st': GateState)
    ensures st'.events == st.events
         || (behavior != Classifier.Normal && st'.events == st.events + [Event(stamp, behavior)])
    ensures forall b :: b != behavior && b in st.lastAlertTime ==>
      b in st'.lastAlertTime && st'.lastAlertTime[b] == st.lastAlertTime[b]
  {
    if Records(st, behavior, now) then
      GateState(st.events + [Event(stamp, behavior)], Some(behavior),
                st.lastAlertTime[behavior := now])
    else
      st
  }

  /** One captured frame as the gate sees it: its label, the clock reading and
      the formatted timestamp taken when it is recorded. */
  datatype Frame = Frame(behavior: string, now: real, stamp: string)

  /** The gate state after a sequence of frames. */
  function Run(st: GateState, frames: seq<Frame>): (st': GateState)
    ensures |st.events| <= |st'.events| <= |st.events| + |frames|
    decreases |frames|
  {
    if frames == [] then st
    else Run(Next(st, frames[0].behavior, frames[0].now, frames[0].stamp), frames[1..])
  }

  // ----- Properties of one step -----

  lemma InitialInv()
    ensures Inv(Initial)
  {
  }

  /** A Normal frame, or one with the last recorded label, changes nothing. */
  lemma SuppressedFrameChangesNothing(st: GateState, behavior: string, now: real, stamp: string)
    requires behavior == Classifier.Normal || st.lastBehavior == Some(behavior)
    ensures Next(st, behavior, now, stamp) == st
  {
  }

  /** A recorded frame appends exactly one event at the end, makes its label
      the last one, stamps its alert time, and leaves every other label's
      alert time as it was. */
  lemma RecordAppendsOneEvent(st: GateState, behavior: string, now: real, stamp: string)
    requires Records(st, behavior, now)
    ensures var st' := Next(st, behavior, now, stamp);
      && |st'.events| == |st.events| + 1
      && st'.events[..|st.events|] == st.events
      && st'.events[|st.events|] == Event(stamp, behavior)
      && st'.lastBehavior == Some(behavior)
      && behavior in st'.lastAlertTime && st'.lastAlertTime[behavior] == now
      && forall b :: b != behavior ==>
           (b in st'.lastAlertTime <==> b in st.lastAlertTime)
           && (b in st.lastAlertTime ==> st'.lastAlertTime[b] == st.lastAlertTime[b])
  {
  }

  /** A label alerted at time t is recorded again only when the clock reads
      strictly more than t plus the interval. */
  lemma WithinWindowSuppressed(st: GateState, behavior: string, now: real, stamp: string)
    requires behavior in st.lastAlertTime
    requires now - st.lastAlertTime[behavior] <= AlertInterval
    ensures Next(st, behavior, now, stamp) == st
  {
  }

  /** One frame keeps the gate invariant. */
  lemma NextInv(st: GateState, behavior: string, now: real, stamp: string)
    requires Inv(st)
    ensures Inv(Next(st, behavior, now, stamp))
  {
    if Records(st, behavior, now) {
      var events' := st.events + [Event(stamp, behavior)];
      assert RecordedLabels(events') == RecordedLabels(st.events) + {behavior} by {
        forall b | b in RecordedLabels(events')
          ensures b in RecordedLabels(st.events) + {behavior}
        {
          var i :| 0 <= i < |events'| && events'[i].behavior == b;
          if i < |st.events| {
            assert st.events[i] == events'[i];
          }
        }
        forall b | b in RecordedLabels(st.events)
          ensures b in RecordedLabels(events')
        {
          var i :| 0 <= i < |st.events| && st.events[i].behavior == b;
          assert events'[i] == st.events[i];
        }
        assert events'[|st.events|].behavior == behavior;
      }
    }
  }

  // ----- Properties of a run of frames -----

  /** A run keeps the gate invariant. */
  lemma {:induction false} RunInv(st: GateState, frames: seq<Frame>)
    requires Inv(st)
    ensures Inv(Run(st, frames))
    decreases |frames|
  {
    if frames != [] {
      NextInv(st, frames[0].behavior, frames[0].now, frames[0].stamp);
      RunInv(Next(st, frames[0].behavior, frames[0].now, frames[0].stamp), frames[1..]);
    }
  }

  /** Events are only ever appended: a run extends the event list. */
  lemma {:induction false} RunExtends(st: GateState, frames: seq<Frame>)
    ensures |st.events| <= |Run(st, frames).events|
    ensures Run(st, frames).events[..|st.events|] == st.events
    decreases |frames|
  {
    if frames != [] {
      var st' := Next(st, frames[0].behavior, frames[0].now, frames[0].stamp);
      RunExtends(st', frames[1..]);
      assert st'.events[..|st.events|] == st.events;
    }
  }

  /**
   * Frames that are all Normal or repeat the last recorded label change
   * nothing, however many there are: a Normal frame does not clear the last
   * label, so the same label after a Normal stretch is still suppressed.
   */
  lemma {:induction false} QuietRunChangesNothing(st: GateState, frames: seq<Frame>)
    requires forall i :: 0 <= i < |frames| ==>
      frames[i].behavior == Classifier.Normal || st.lastBehavior == Some(frames[i].behavior)
    ensures Run(st, frames) == st
    decreases |frames|
  {
    if frames != [] {
      SuppressedFrameChangesNothing(st, frames[0].behavior, frames[0].now, frames[0].stamp);
      QuietRunChangesNothing(st, frames[1..]);
    }
  }

  /**
   * Rate limit: after an alert for `target` at time t, no frame whose clock
   * reads at most t plus the interval records `target` again, whatever other
   * labels are recorded in between.
   */
  lemma {:induction false} RateLimited(st: GateState, frames: seq<Frame>, target: string)
    requires target in st.lastAlertTime
    requires forall i :: 0 <= i < |frames| ==> frames[i].now - st.lastAlertTime[target] <= AlertInterval
    ensures var st' := Run(st, frames);
      && |st.events| <= |st'.events|
      && (forall i :: |st.events| <= i < |st'.events| ==> st'.events[i].behavior != target)
      && target in st'.lastAlertTime && st'.lastAlertTime[target] == st.lastAlertTime[target]
    decreases |frames|
  {
    if frames != [] {
      var f := frames[0];
      var mid := Next(st, f.behavior, f.now, f.stamp);
      assert mid.events == st.events || mid.events == st.events + [Event(f.stamp, f.behavior)];
      assert mid.events != st.events ==> f.behavior != target;
      RateLimited(mid, frames[1..], target);
      RunExtends(mid, frames[1..]);
      var last := Run(mid, frames[1..]);
      forall i | |st.events| <= i < |mid.events|
        ensures last.events[i].behavior != target
      {
        assert last.events[i] == last.events[..|mid.events|][i];
      }
    }
  }

  /** Appending a frame to a run is one more step. */
  lemma {:induction false} RunSnoc(st: GateState, frames: seq<Frame>, f: Frame)
    ensures Run(st, frames + [f]) == Next(Run(st, frames), f.behavior, f.now, f.stamp)
    decreases |frames|
  {
    if frames == [] {
      assert frames + [f] == [f];
    } else {
      assert (frames + [f])[1..] == frames[1..] + [f];
      RunSnoc(Next(st, frames[0].behavior, frames[0].now, frames[0].stamp), frames[1..], f);
    }
  }

  // ----- The state as the script holds it -----

  /** The three variables the capture loop updates in place. */
  class Monitor {
    var detectedEvents: seq<Event>
    var lastBehavior: Option<string>
    var lastAlertTime: map<string, real>

    function State(): GateState
      reads this
    {
      GateState(detectedEvents, lastBehavior, lastAlertTime)
    }

    ghost predicate Valid()
      reads this
    {
      Inv(State())
    }

    /** No events, no last label, no alert times. */
    constructor ()
      ensures Valid() && State() == Initial
    {
      detectedEvents := [];
      lastBehavior := None;
      lastAlertTime := map[];
    }

    /**
     * The alert step of one loop pass. Returns whether the frame was recorded,
     * which is when the script also logs it and sends the alert.
     */
    method Step(behavior: string, currentTime: real, timestamp: string) returns (alerted: bool)
      requires Valid()
      modifies this
      ensures Valid()
      ensures alerted == Records(old(State()), behavior, currentTime)
      ensures State() == Next(old(State()), behavior, currentTime, timestamp)
    {
      alerted := false;
      if behavior != Classifier.Normal && Some(behavior) != lastBehavior {
        if behavior !in lastAlertTime || currentTime - lastAlertTime[behavior] > AlertInterval {
          detectedEvents := detectedEvents + [Event(timestamp, behavior)];
          lastBehavior := Some(behavior);
          lastAlertTime := lastAlertTime[behavior := currentTime];
          alerted := true;
        }
      }
      NextInv(old(State()), behavior, currentTime, timestamp);
    }
  }

  // ----- The capture loop -----

  /** What the perception models report for one captured frame, with the clock
      reading and the formatted timestamp taken for it. */
  datatype Capture = Capture(faces: seq<Classifier.Face>, hands: seq<Classifier.Hand>,
                             detections: seq<seq<int>>, now: real, stamp: string)

  /** Every detector class id of every capture has a name. */
  predicate AllNamed(captures: seq<Capture>, names: map<int, string>)
  {
    forall i :: 0 <= i < |captures| ==> Classifier.NamesCover(captures[i].detections, names)
  }

  /** A capture as the gate sees it: classified, with its time. */
  function Observe(c: Capture, names: map<int, string>): Frame
    requires Classifier.NamesCover(c.detections, names)
  {
    Frame(Classifier.GetBehavior(c.faces, c.hands, c.detections, names), c.now, c.stamp)
  }

  /** The gate's view of a sequence of captures. */
  function Observed(captures: seq<Capture>, names: map<int, string>): seq<Frame>
    requires AllNamed(captures, names)
  {
    seq(|captures|, i requires 0 <= i < |captures| && Classifier.NamesCover(captures[i].detections, names)
                      => Observe(captures[i], names))
  }

  /** Observing one more capture appends one frame. */
  lemma ObservedSnoc(captures: seq<Capture>, names: map<int, string>, i: int)
    requires AllNamed(captures, names)
    requires 0 <= i < |captures|
    ensures AllNamed(captures[..i + 1], names)
    ensures Observed(captures[..i + 1], names) == Observed(captures[..i], names) + [Observe(captures[i], names)]
  {
    assert captures[..i + 1] == captures[..i] + [captures[i]];
  }

  /**
   * The capture loop over a finite sequence of captured frames (the script
   * stops on a failed capture or the quit key): classify each frame, pass it
   * through the alert gate, and return the events for the session report.
   */
  method RunSession(captures: seq<Capture>, names: map<int, string>) returns (events: seq<Event>)
    requires AllNamed(captures, names)
    ensures events == Run(Initial, Observed(captures, names)).events
    ensures forall i :: 0 <= i < |events| ==>
      events[i].behavior in {Classifier.Sleeping, Classifier.UsingPhone, Classifier.Eating}
    ensures forall i :: 0 <= i < |events| - 1 ==> events[i].behavior != events[i + 1].behavior
  {
    var monitor := new Monitor();
    var i := 0;
    while i < |captures|
      invariant 0 <= i <= |captures|
      invariant monitor.Valid()
      invariant monitor.State() == Run(Initial, Observed(captures[..i], names))
      invariant forall k :: 0 <= k < |monitor.detectedEvents| ==>
        monitor.detectedEvents[k].behavior in Classifier.Labels
    {
      var c := captures[i];
      var behavior := Classifier.GetBehavior(c.faces, c.hands, c.detections, names);
      var _ := monitor.Step(behavior, c.now, c.stamp);
      ObservedSnoc(captures, names, i);
      RunSnoc(Initial, Observed(captures[..i], names), Observe(c, names));
      i := i + 1;
    }
    assert captures[..i] == captures;
    events := monitor.detectedEvents;
  }
}
