/**
 * The detector and the camera joined by the event queue: first with the two tasks interleaved in any
 * way, then under the configured periods with the detector first in every tick.
 */
module Alerts {
  import opened Types
  import opened Events
  import opened Detection
  import opened Cameras
  import Osal

  /** The two tasks and the queue, with what was tried, accepted and received so far. */
  datatype System = System(
    detector: Detector, queue: seq<Event>, camera: CameraState,
    tried: seq<Event>, accepted: seq<Event>, received: seq<Event>)

  datatype Step = DetectorPoll(sample: byte, now: Timespec) | CameraPoll

  function Take(capacity: nat, s: System, step: Step): System {
    match step
    case DetectorPoll(sample, now) =>
      var (d, e) := Poll(s.detector, sample, now);
      match e {
        case None => s.(detector := d)
        case Some(event) =>
          s.(detector := d, queue := Enqueue(s.queue, capacity, event), tried := s.tried + [event],
             accepted := if |s.queue| < capacity then s.accepted + [event] else s.accepted)
      }
    case CameraPoll =>
      if s.queue == [] then s
      else s.(queue := s.queue[1..], camera := React(s.camera, s.queue[0]), received := s.received + [s.queue[0]])
  }

  const START: System := System(POWER_UP, [], Idle, [], [], [])

  function Exec(capacity: nat, steps: seq<Step>): System {
    if steps == [] then START
    else Take(capacity, Exec(capacity, steps[..|steps| - 1]), steps[|steps| - 1])
  }

  lemma ExecSnoc(capacity: nat, steps: seq<Step>, step: Step)
    ensures Exec(capacity, steps + [step]) == Take(capacity, Exec(capacity, steps), step)
  {
    assert (steps + [step])[..|steps|] == steps;
  }

  // ---------- agreement in every interleaving ----------

  ghost predicate Consistent(s: System) {
    && s.accepted == s.received + s.queue
    && s.camera == Fold(Idle, s.received)
    && s.detector.state != MotionDetected
    && (s.detector.motionDetected ==> s.detector.state.Detecting?)
    && (OnAlert(s.detector) <==> LastIs(s.tried, EventMotionDetected))
    && (forall i :: 0 <= i < |s.accepted| ==> !s.accepted[i].EventNone?)
  }

  lemma TakeKeepsConsistent(capacity: nat, s: System, step: Step)
    requires Consistent(s)
    ensures Consistent(Take(capacity, s, step))
  {
    if step.CameraPoll? && s.queue != [] {
      var q := s.queue;
      assert s.received + q == (s.received + [q[0]]) + q[1..];
      assert (s.received + [q[0]])[..|s.received|] == s.received;
    }
  }

  lemma {:induction false} ExecIsConsistent(capacity: nat, steps: seq<Step>)
    ensures Consistent(Exec(capacity, steps))
    decreases |steps|
  {
    if steps != [] {
      ExecIsConsistent(capacity, steps[..|steps| - 1]);
      TakeKeepsConsistent(capacity, Exec(capacity, steps[..|steps| - 1]), steps[|steps| - 1]);
    }
  }

  /** The camera, once it has worked off the queue, captures exactly when the last accepted event was
      DETECTED. */
  lemma FoldIsLast(q: seq<Event>)
    requires forall i :: 0 <= i < |q| ==> !q[i].EventNone?
    ensures Fold(Idle, q) == Capturing <==> LastIs(q, EventMotionDetected)
  {
  }

  /** The camera, once it has worked off its queue, captures exactly when the detector is on alert. */
  predicate Agrees(s: System) {
    Fold(s.camera, s.queue) == Capturing <==> OnAlert(s.detector)
  }

  lemma CaughtUpCamera(s: System)
    requires Consistent(s)
    ensures Agrees(s) <==> (LastIs(s.accepted, EventMotionDetected) <==> LastIs(s.tried, EventMotionDetected))
  {
    FoldAppend(Idle, s.received, s.queue);
    FoldIsLast(s.accepted);
  }

  /** Agreement. In every interleaving, the camera with its queue worked off is where the detector is
      if and only if the last event the queue accepted is the last one the detector tried to send; so
      they agree as long as no send is refused, and at once when the queue is then empty. */
  lemma Agreement(capacity: nat, steps: seq<Step>)
    ensures var s := Exec(capacity, steps);
            && (Agrees(s) <==> (LastIs(s.accepted, EventMotionDetected) <==> LastIs(s.tried, EventMotionDetected)))
            && (s.accepted == s.tried ==> Agrees(s))
            && (s.accepted == s.tried && s.queue == [] ==> (s.camera == Capturing <==> OnAlert(s.detector)))
  {
    ExecIsConsistent(capacity, steps);
    CaughtUpCamera(Exec(capacity, steps));
  }

  /** What is true of the detector whenever it polls (LoopHead). */
  predicate AtLoopHead(d: Detector) {
    !d.state.MotionDetected? && (d.motionDetected ==> d.state.Detecting?)
  }

  /** A poll with this sample sends an event, and one that turns the alert on or off. */
  predicate Sends(d: Detector, sample: byte) {
    if sample != 0 then !d.motionDetected else d.state.MotionLost?
  }

  predicate TurnsAlert(d: Detector, sample: byte) {
    if sample != 0 then !OnAlert(d) else d.state.MotionLost?
  }

  lemma PollTurns(d: Detector, sample: byte, now: Timespec)
    requires AtLoopHead(d)
    ensures var (d', e) := Poll(d, sample, now);
            && (e.Some? <==> Sends(d, sample)) && (OnAlert(d') != OnAlert(d) <==> TurnsAlert(d, sample))
            && (e.Some? ==> e.value == if OnAlert(d') then EventMotionDetected else EventMotionLost)
  {
  }

  lemma FoldSnoc(c: CameraState, q: seq<Event>, e: Event)
    ensures Fold(c, q + [e]) == React(Fold(c, q), e)
  {
    assert (q + [e])[..|q|] == q;
  }

  /** Agreement, step by step. From any state in which they agree, a poll of the detector keeps the
      agreement if and only if the queue has room or the poll does not turn the alert on or off. */
  lemma AgreementStep(capacity: nat, s: System, sample: byte, now: Timespec)
    requires AtLoopHead(s.detector) && Agrees(s)
    ensures Agrees(Take(capacity, s, DetectorPoll(sample, now))) <==>
            |s.queue| < capacity || !TurnsAlert(s.detector, sample)
  {
    PollAgreement(capacity, s, sample, now);
  }

  /** Once they disagree, they agree again exactly after a poll that gets an event into the queue, or one
      that turns the alert back while its event is refused. */
  lemma AgreementReturns(capacity: nat, s: System, sample: byte, now: Timespec)
    requires AtLoopHead(s.detector) && !Agrees(s)
    ensures Agrees(Take(capacity, s, DetectorPoll(sample, now))) <==>
            (|s.queue| < capacity && Sends(s.detector, sample)) || TurnsAlert(s.detector, sample)
  {
    PollAgreement(capacity, s, sample, now);
  }

  lemma PollAgreement(capacity: nat, s: System, sample: byte, now: Timespec)
    requires AtLoopHead(s.detector)
    ensures var s' := Take(capacity, s, DetectorPoll(sample, now));
            Agrees(s') <==> (|s.queue| < capacity && Sends(s.detector, sample)) || (Agrees(s) <==> !TurnsAlert(s.detector, sample))
    ensures TurnsAlert(s.detector, sample) ==> Sends(s.detector, sample)
  {
    hide Poll, OnAlert, Fold, TurnsAlert, Sends;
    var (d, e) := Poll(s.detector, sample, now);
    PollTurns(s.detector, sample, now);
    TurnSends(s.detector, sample);
    if e.Some? {
      FoldSnoc(s.camera, s.queue, e.value);
    }
  }

  lemma TurnSends(d: Detector, sample: byte)
    requires AtLoopHead(d)
    ensures TurnsAlert(d, sample) ==> Sends(d, sample)
  {
  }

  /** A pass of the camera never changes whether they agree. */
  lemma PassKeepsAgreement(capacity: nat, s: System)
    ensures Agrees(Take(capacity, s, CameraPoll)) <==> Agrees(s)
  {
    if s.queue != [] {
      FoldAppend(s.camera, [s.queue[0]], s.queue[1..]);
      assert [s.queue[0]] + s.queue[1..] == s.queue;
      FoldSnoc(s.camera, [], s.queue[0]);
      assert [] + [s.queue[0]] == [s.queue[0]];
    }
  }

  /** How often the alert was turned on or off, since the queue last accepted an event, by polls whose
      event it refused. */
  function RefusedTurns(capacity: nat, steps: seq<Step>): nat {
    if steps == [] then 0
    else
      var before := steps[..|steps| - 1];
      NextTurns(capacity, Exec(capacity, before), RefusedTurns(capacity, before), steps[|steps| - 1])
  }

  function NextTurns(capacity: nat, s: System, turns: nat, step: Step): nat {
    match step
    case CameraPoll => turns
    case DetectorPoll(sample, _) =>
      if Sends(s.detector, sample) && |s.queue| < capacity then 0
      else if TurnsAlert(s.detector, sample) then turns + 1
      else turns
  }

  lemma StepByTurns(capacity: nat, s: System, turns: nat, step: Step)
    requires AtLoopHead(s.detector) && (Agrees(s) <==> turns % 2 == 0)
    ensures Agrees(Take(capacity, s, step)) <==> NextTurns(capacity, s, turns, step) % 2 == 0
  {
    hide Agrees, OnAlert, Take, TurnsAlert, Sends, AtLoopHead;
    match step
    case CameraPoll => PassKeepsAgreement(capacity, s);
    case DetectorPoll(sample, now) =>
      assert step == DetectorPoll(sample, now);
      PollAgreement(capacity, s, sample, now);
  }

  /** Agreement of a whole run, from the guards of its sends alone: they agree if and only if the alert
      was turned an even number of times by refused events since the last accepted one. */
  lemma {:induction false} AgreementByTurns(capacity: nat, steps: seq<Step>)
    ensures Agrees(Exec(capacity, steps)) <==> RefusedTurns(capacity, steps) % 2 == 0
    decreases |steps|
  {
    hide Agrees, NextTurns, Take;
    if steps == [] {
      AgreesAtStart();
    } else {
      var before := steps[..|steps| - 1];
      var s := Exec(capacity, before);
      AgreementByTurns(capacity, before);
      ExecIsConsistent(capacity, before);
      StepByTurns(capacity, s, RefusedTurns(capacity, before), steps[|steps| - 1]);
    }
  }

  lemma AgreesAtStart()
    ensures Agrees(START)
  {
  }

  /** While no send has been refused, a camera that captures off alert has a LOST waiting in its queue,
      and one that idles on alert a DETECTED. */
  lemma DisagreementIsPending(capacity: nat, steps: seq<Step>)
    ensures var s := Exec(capacity, steps);
            s.accepted == s.tried ==>
              && (s.camera == Capturing && !OnAlert(s.detector) ==> EventMotionLost in s.queue)
              && (s.camera == Idle && OnAlert(s.detector) ==> EventMotionDetected in s.queue)
  {
    var s := Exec(capacity, steps);
    Agreement(capacity, steps);
    ExecIsConsistent(capacity, steps);
    if EventMotionLost !in s.queue {
      FoldWithout(s.camera, s.queue, EventMotionLost, Capturing);
    }
    if EventMotionDetected !in s.queue {
      FoldWithout(s.camera, s.queue, EventMotionDetected, Idle);
    }
  }

  lemma {:induction false} FoldWithout(c: CameraState, q: seq<Event>, e: Event, stays: CameraState)
    requires e !in q && stays == (if e.EventMotionLost? then Capturing else Idle) && !e.EventNone?
    ensures c == stays ==> Fold(c, q) == stays
    decreases |q|
  {
    if q != [] {
      FoldWithout(c, q[..|q| - 1], e, stays);
      assert q[|q| - 1] in q;
    }
  }

  /** One blip of motion: a high sample and a low one. */
  lemma BlipQueuesDetected(s: System, t0: Timespec)
    requires |s.queue| < 10 && s.detector in {POWER_UP, Detector(Timeout, Run, false, t0)}
    ensures Take(10, Take(10, s, DetectorPoll(1, t0)), DetectorPoll(0, t0)) ==
            s.(detector := Detector(Timeout, Run, false, t0), queue := s.queue + [EventMotionDetected],
               tried := s.tried + [EventMotionDetected], accepted := s.accepted + [EventMotionDetected])
  {
  }

  /** The hold-off running out against a full queue. */
  lemma LostIsRefused(s: System, t0: Timespec, late: Timespec)
    requires |s.queue| == 10 && s.detector == Detector(Timeout, Run, false, t0) && Expired(t0, late)
    ensures var poll := DetectorPoll(0, late);
            var s' := Take(10, Take(10, Take(10, s, poll), poll), poll);
            && s' == s.(detector := s'.detector, tried := s.tried + [EventMotionLost])
            && !OnAlert(s'.detector)
  {
  }

  /** The camera does not run. */
  predicate NoCamera(steps: seq<Step>) {
    forall i :: 0 <= i < |steps| ==> steps[i].DetectorPoll?
  }

  lemma {:induction false} Blips(n: nat, t0: Timespec) returns (steps: seq<Step>)
    requires n <= 10
    ensures var s := Exec(10, steps);
            && |s.queue| == n && s.tried == s.accepted && s.detector in {POWER_UP, Detector(Timeout, Run, false, t0)}
            && (n > 0 ==> s.detector.state.Timeout? && LastIs(s.tried, EventMotionDetected))
    ensures NoCamera(steps)
  {
    hide Take, Exec;
    if n == 0 {
      steps := [];
      assert Exec(10, []) == START by {
        ExecNothing(10);
      }
    } else {
      steps := Blips(n - 1, t0);
      ExecSnoc(10, steps, DetectorPoll(1, t0));
      ExecSnoc(10, steps + [DetectorPoll(1, t0)], DetectorPoll(0, t0));
      BlipQueuesDetected(Exec(10, steps), t0);
      steps := steps + [DetectorPoll(1, t0)] + [DetectorPoll(0, t0)];
    }
  }

  lemma ExecNothing(capacity: nat)
    ensures Exec(capacity, []) == START
  {
  }

  /** The hypothesis is needed: blips of motion fill the queue of ten while the camera does not run, the
      LOST that follows is refused, and the camera will capture although the alert is over. */
  lemma RefusedLost() returns (steps: seq<Step>)
    ensures var s := Exec(10, steps);
            && NoCamera(steps) && |s.queue| == 10 && s.tried == s.accepted + [EventMotionLost]
            && Fold(s.camera, s.queue) == Capturing && !OnAlert(s.detector)
  {
    hide Take, Exec, Fold, OnAlert;
    var t0, late := Timespec(0, 0), Timespec(5, 0);
    steps := Blips(10, t0);
    var s, poll := Exec(10, steps), DetectorPoll(0, late);
    LostIsRefused(s, t0, late);
    ExecSnoc(10, steps, poll);
    ExecSnoc(10, steps + [poll], poll);
    ExecSnoc(10, steps + [poll] + [poll], poll);
    steps := steps + [poll] + [poll] + [poll];
    Agreement(10, steps);
    assert LastIs(s.accepted, EventMotionDetected) && !LastIs(s.tried + [EventMotionLost], EventMotionDetected);
  }

  // ---------- under the configured periods ----------

  /** The detector polls at every tick, which is its period, and the camera after it at every tick that
      releases it; tick 0 is the pass each task makes when it is created. */
  function Scheduled(t: Trace, n: nat): seq<Step>
    requires ValidTrace(t) && n <= |t.samples|
  {
    if n == 0 then []
    else
      var polled := Scheduled(t, n - 1) + [DetectorPoll(t.samples[n - 1], t.clock[n - 1])];
      if Osal.Releases(Osal.CAMERA_PERIOD, n - 1) then polled + [CameraPoll] else polled
  }

  /** The capacity given to osal_queue_create. */
  const CAPACITY: nat := 10

  /** A state in which no send was refused and the camera has received exactly the events of the first
      m polls; the others of the n polls wait in the queue. */
  ghost predicate CaughtUpTo(t: Trace, n: nat, m: nat, s: System)
    requires ValidTrace(t) && m <= n <= |t.samples|
  {
    && s.detector == After(t, n) && s.tried == s.accepted == Word(t, n)
    && s.received == Word(t, m) && s.received + s.queue == Word(t, n)
  }

  /** The credit that keeps the queue short. Between ticks at most one event waits: one just sent, which
      after an even tick can only be a DETECTED, or, after an odd tick, a DETECTED that was sent one poll
      earlier and followed by a silent poll. */
  ghost predicate Credit(t: Trace, n: nat, s: System)
    requires ValidTrace(t) && n <= |t.samples|
  {
    || (CaughtUpTo(t, n, n, s) && s.queue == [])
    || (n >= 1 && CaughtUpTo(t, n, n - 1, s) && JustSent(t, n, s))
    || (n >= 2 && CaughtUpTo(t, n, n - 2, s) && SentBefore(t, n, s))
  }

  ghost predicate JustSent(t: Trace, n: nat, s: System)
    requires ValidTrace(t) && 1 <= n <= |t.samples|
  {
    || (s.queue == [EventMotionDetected] && s.detector.motionDetected)
    || (n % 2 == 0 && s.queue == [EventMotionLost] && !s.detector.motionDetected && s.detector.state.Detecting?)
  }

  ghost predicate SentBefore(t: Trace, n: nat, s: System)
    requires ValidTrace(t) && 2 <= n <= |t.samples|
  {
    && n % 2 == 0 && s.queue == [EventMotionDetected]
    && Word(t, n - 1) == Word(t, n)
    && (s.detector.motionDetected || (s.detector.state.Timeout? && s.detector.substate.Run?))
  }

  /** What one poll does to a state between ticks. */
  lemma PollTakes(t: Trace, n: nat, m: nat, s: System)
    requires ValidTrace(t) && m <= n < |t.samples| && CaughtUpTo(t, n, m, s) && |s.queue| <= 1
    ensures var s' := Take(CAPACITY, s, DetectorPoll(t.samples[n], t.clock[n]));
            && CaughtUpTo(t, n + 1, m, s')
            && s'.queue == s.queue + (if SentAt(t, n).Some? then [SentAt(t, n).value] else [])
            && s'.camera == s.camera
  {
    var e := SentAt(t, n);
    if e.Some? {
      assert s.received + (s.queue + [e.value]) == Word(t, n + 1);
    } else {
      assert s.queue + [] == s.queue;
    }
  }

  /** And receiving one event, when it is the only one that one poll sent. */
  lemma CameraTakes(t: Trace, n: nat, m: nat, m': nat, s: System)
    requires ValidTrace(t) && m <= m' <= n <= |t.samples| && CaughtUpTo(t, n, m, s)
    requires s.queue != [] && Word(t, m') == Word(t, m) + [s.queue[0]]
    ensures CaughtUpTo(t, n, m', Take(CAPACITY, s, CameraPoll))
  {
    assert s.received + s.queue == s.received + [s.queue[0]] + s.queue[1..];
  }

  /** The detector's own part of the argument: where an event leaves it, and when it must stay silent. */
  lemma PollCases(t: Trace, n: nat)
    requires ValidTrace(t) && n < |t.samples|
    ensures SentAt(t, n) in {None, Some(EventMotionDetected), Some(EventMotionLost)}
    ensures var d, d' := After(t, n), After(t, n + 1);
            && (SentAt(t, n) == Some(EventMotionDetected) ==> d'.motionDetected)
            && (SentAt(t, n) == Some(EventMotionLost) ==> !d'.motionDetected && d'.state.Detecting? && d.state.MotionLost?)
            && (d.motionDetected ==> SentAt(t, n).None? && (d'.motionDetected || (d'.state.Timeout? && d'.substate.Run?)))
    ensures Word(t, n + 1) == Word(t, n) + (if SentAt(t, n).Some? then [SentAt(t, n).value] else [])
  {
    LoopHead(t, n);
    assert Word(t, n) + [] == Word(t, n);
  }

  lemma OddTick(t: Trace, n: nat, s: System)
    requires ValidTrace(t) && n < |t.samples| && n % 2 == 1 && Credit(t, n, s)
    ensures Credit(t, n + 1, Take(CAPACITY, s, DetectorPoll(t.samples[n], t.clock[n])))
  {
    hide After, Word, SentAt, Take;
    PollCases(t, n);
    if CaughtUpTo(t, n, n, s) && s.queue == [] {
      PollTakes(t, n, n, s);
    } else {
      PollTakes(t, n, n - 1, s);
    }
  }

  lemma EvenTick(t: Trace, n: nat, s: System)
    requires ValidTrace(t) && n < |t.samples| && n % 2 == 0 && Credit(t, n, s)
    ensures var p := Take(CAPACITY, s, DetectorPoll(t.samples[n], t.clock[n]));
            Credit(t, n + 1, Take(CAPACITY, p, CameraPoll))
  {
    hide After, Word, SentAt;
    PollCases(t, n);
    var p := Take(CAPACITY, s, DetectorPoll(t.samples[n], t.clock[n]));
    if CaughtUpTo(t, n, n, s) && s.queue == [] {
      PollTakes(t, n, n, s);
      if SentAt(t, n).Some? {
        CameraTakes(t, n + 1, n, n + 1, p);
      }
    } else {
      var m := if n >= 1 && CaughtUpTo(t, n, n - 1, s) && JustSent(t, n, s) then n - 1 else n - 2;
      PollTakes(t, n, m, s);
      CameraTakes(t, n + 1, m, n, p);
    }
  }

  lemma CreditAtStart(t: Trace)
    requires ValidTrace(t)
    ensures Credit(t, 0, START)
  {
  }

  lemma {:induction false} CreditHolds(t: Trace, n: nat)
    requires ValidTrace(t) && n <= |t.samples|
    ensures Credit(t, n, Exec(CAPACITY, Scheduled(t, n)))
  {
    hide Credit, Take, Exec, Osal.Releases;
    if n == 0 {
      CreditAtStart(t);
      ExecNothing(CAPACITY);
    } else {
      CreditHolds(t, n - 1);
      var before, poll := Scheduled(t, n - 1), DetectorPoll(t.samples[n - 1], t.clock[n - 1]);
      Osal.ConfiguredReleases(n - 1);
      ExecSnoc(CAPACITY, before, poll);
      ExecSnoc(CAPACITY, before + [poll], CameraPoll);
      if (n - 1) % 2 == 0 {
        EvenTick(t, n - 1, Exec(CAPACITY, before));
      } else {
        OddTick(t, n - 1, Exec(CAPACITY, before));
      }
    }
  }

  lemma CameraIsWhere(t: Trace, n: nat, m: nat, s: System)
    requires ValidTrace(t) && m <= n <= |t.samples| && CaughtUpTo(t, n, m, s) && Consistent(s)
    ensures s.camera == Capturing <==> OnAlert(After(t, m))
  {
    hide After, Word, OnAlert;
    assert forall i :: 0 <= i < |s.received| ==> s.received[i] == s.accepted[i];
    FoldIsLast(s.received);
    EventsAlternate(t, m);
  }

  lemma CreditBounds(t: Trace, n: nat, s: System) returns (m: nat)
    requires ValidTrace(t) && n <= |t.samples| && Credit(t, n, s)
    ensures |s.queue| <= 1 && m <= n <= m + 2 && CaughtUpTo(t, n, m, s)
  {
    hide After, Word, CaughtUpTo;
    m := if s.queue == [] && CaughtUpTo(t, n, n, s) then n
         else if n >= 1 && CaughtUpTo(t, n, n - 1, s) && JustSent(t, n, s) then n - 1 else n - 2;
  }

  /** For every sensor trace and every clock, under the configured periods: no send is ever refused, at
      most one event waits between ticks and at most two at any moment, and the camera has received
      exactly what the detector had sent at most two polls ago, so it is where the detector was then. */
  lemma CameraFollows(t: Trace, n: nat)
    requires ValidTrace(t) && n <= |t.samples|
    ensures var s := Exec(CAPACITY, Scheduled(t, n));
            && s.detector == After(t, n)
            && s.accepted == s.tried == Word(t, n)
            && |s.queue| <= 1 < CAPACITY == 10
            && (n < |t.samples| ==>
                  |Take(CAPACITY, s, DetectorPoll(t.samples[n], t.clock[n])).queue| <= 2)
            && exists m: nat :: m <= n <= m + 2 && s.received == Word(t, m) && s.received + s.queue == Word(t, n)
                                && (s.camera == Capturing <==> OnAlert(After(t, m)))
  {
    hide After, Word, OnAlert, Exec, Poll, Credit, Consistent;
    var s := Exec(CAPACITY, Scheduled(t, n));
    CreditHolds(t, n);
    ExecIsConsistent(CAPACITY, Scheduled(t, n));
    var m := CreditBounds(t, n, s);
    CameraIsWhere(t, n, m, s);
  }
}
