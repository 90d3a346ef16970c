/**
 * The whole system against the clock, from the sensor's samples to the viewer: detector, event queue,
 * camera, transcoder, nvm and viewer in every interleaving that the deadlines allow.
 */
module Surveillance {
  import opened Types
  import opened RingBuffers
  import opened FrameRates
  import opened TimedPipeline
  import opened ScheduledPipeline
  import opened ScheduledRuns
  import Pipeline
  import Detection
  import Cameras
  import Alerts
  import AlertTiming
  import Osal

  // ---------- the whole system ----------

  /** The samples and clock readings of the detector's polls, one for every tick, and the frame the driver
      has for each pass of the camera. */
  datatype World = World(trace: Detection.Trace, driver: seq<Option<seq<byte>>>)

  /** Detector, queue and camera; the frame path and its clock; whether the poll of this tick and the
      camera's receive are still ahead; and which frames the camera's passes have kept so far. */
  datatype Instant = Instant(alerts: Alerts.System, moment: Moment, pollDue: bool, receiveDue: bool, kept: Shots)

  datatype Happening = Ticks | Polls | Receives | Does(action: Pipeline.Action)

  ghost predicate ValidWorld(c: Pipeline.Config, world: World) {
    Detection.ValidTrace(world.trace) && ShotsOk(c, world.driver)
  }

  /** The tick waits for every instance that it would release again; a poll and a receive are made once
      for each release; the rest is as the frame path allows. */
  predicate CanHappen(c: Pipeline.Config, world: World, w: Instant, e: Happening) {
    var next := w.moment.tick + 1;
    match e
    case Ticks =>
      && next < |world.trace.samples| && next / 2 < |world.driver|
      && Rested(w.moment, next) && !w.pollDue && (Osal.Releases(Osal.CAMERA_PERIOD, next) ==> !w.receiveDue)
    case Polls => w.pollDue && w.moment.tick < |world.trace.samples|
    case Receives => w.receiveDue && w.moment.tick / 2 < |world.driver|
    case Does(a) =>
      Pipeline.Enabled(c, w.moment.path, a) && Pipeline.InBounds(w.moment.path, a) && Released(w.moment, a)
  }

  /** The camera takes one event, and then stores the frame it finds if that leaves it capturing. */
  function Receive(world: World, w: Instant): Instant
    requires w.moment.tick / 2 < |world.driver|
  {
    var alerts := Alerts.Take(Alerts.CAPACITY, w.alerts, Alerts.CameraPoll);
    var shot := if alerts.camera == Cameras.Capturing then world.driver[w.moment.tick / 2] else None;
    w.(alerts := alerts, moment := w.moment.(due := shot), receiveDue := false, kept := w.kept + [shot])
  }

  function Happen(c: Pipeline.Config, world: World, w: Instant, e: Happening): Instant
    requires Detection.ValidTrace(world.trace) && CanHappen(c, world, w, e)
  {
    match e
    case Ticks =>
      var next := w.moment.tick + 1;
      w.(moment := Strike(w.moment, next), pollDue := true,
         receiveDue := w.receiveDue || Osal.Releases(Osal.CAMERA_PERIOD, next))
    case Polls =>
      var poll := Alerts.DetectorPoll(world.trace.samples[w.moment.tick], world.trace.clock[w.moment.tick]);
      w.(alerts := Alerts.Take(Alerts.CAPACITY, w.alerts, poll), pollDue := false)
    case Receives => Receive(world, w)
    case Does(a) =>
      var m := w.moment;
      w.(moment := m.(path := Pipeline.Apply(c, m.path, a),
                      due := if a.CamOffer? then None else m.due,
                      transcoderTurns := if a.TransEmptyTest? then m.transcoderTurns - 1 else m.transcoderTurns,
                      nvmTurns := if a.NvmEmptyTest? then m.nvmTurns - 1 else m.nvmTurns))
  }

  function PowerUp(c: Pipeline.Config): Instant {
    Instant(Alerts.START, Strike(Moment(Pipeline.Init(c), 0, None, 0, 0), 0), true, true, [])
  }

  ghost predicate IsWholeRun(c: Pipeline.Config, world: World, instants: seq<Instant>, events: seq<Happening>) {
    && Detection.ValidTrace(world.trace) && |instants| == |events| + 1
    && 0 < |world.trace.samples| && 0 < |world.driver|
    && instants[0] == PowerUp(c)
    && forall i :: 0 <= i < |events| ==> Happens(c, world, instants[i], events[i], instants[i + 1])
  }

  ghost predicate Happens(c: Pipeline.Config, world: World, w: Instant, e: Happening, w': Instant)
    requires Detection.ValidTrace(world.trace)
  {
    CanHappen(c, world, w, e) && w' == Happen(c, world, w, e)
  }

  ghost predicate ReliableNetwork(events: seq<Happening>) {
    forall i :: 0 <= i < |events| && events[i].Does? ==> Pipeline.Reliable(events[i].action)
  }

  /** What can happen, in numbers: only the deadlines hold up a tick, and between ticks the detector's poll,
      the camera's receive and the steps of the frame path come in any order. */
  lemma EventsAreFree(c: Pipeline.Config, world: World, w: Instant)
    requires w.moment.tick < |world.trace.samples| && w.moment.tick / 2 < |world.driver|
    ensures CanHappen(c, world, w, Polls) <==> w.pollDue
    ensures CanHappen(c, world, w, Receives) <==> w.receiveDue
    ensures CanHappen(c, world, w, Ticks) <==>
            && w.moment.tick + 1 < |world.trace.samples| && (w.moment.tick + 1) / 2 < |world.driver|
            && !w.pollDue
            && ((w.moment.tick + 1) % 2 == 0 ==>
                  !w.receiveDue && w.moment.path.camera.CamIdle? && w.moment.due.None?)
            && ((w.moment.tick + 1) % 6 == 0 ==>
                  && w.moment.path.transcoder.TransIdle? && w.moment.transcoderTurns == 0
                  && w.moment.path.nvm.NvmIdle? && w.moment.nvmTurns == 0)
    ensures forall a :: CanHappen(c, world, w, Does(a)) <==>
                          && Pipeline.Enabled(c, w.moment.path, a) && Pipeline.InBounds(w.moment.path, a)
                          && (a.CamOffer? ==> w.moment.due == Some(a.jpeg))
                          && (a.TransEmptyTest? ==> w.moment.transcoderTurns > 0)
                          && (a.NvmEmptyTest? ==> w.moment.nvmTurns > 0)
  {
    hide Osal.Releases, Pipeline.Enabled, Pipeline.InBounds;
    Osal.ConfiguredReleases(w.moment.tick + 1);
  }

  // ---------- its frame path is a timed run ----------

  /** The camera's passes: one receive each, and a frame only after it. */
  predicate Paced(world: World, w: Instant) {
    && w.moment.tick < |world.trace.samples| && w.moment.tick / 2 < |world.driver|
    && |w.kept| == w.moment.tick / 2 + (if w.receiveDue then 0 else 1)
    && (w.receiveDue ==> w.moment.due.None? && w.moment.path.camera.CamIdle?)
  }

  lemma HappenKeepsPace(c: Pipeline.Config, world: World, w: Instant, e: Happening)
    requires Detection.ValidTrace(world.trace) && Paced(world, w) && CanHappen(c, world, w, e)
    ensures Paced(world, Happen(c, world, w, e)) && w.kept <= Happen(c, world, w, e).kept
  {
    HyperperiodOf(w.moment.tick);
    Osal.ConfiguredReleases(w.moment.tick + 1);
  }

  /** The frame path at this instant, given what the passes of the camera will have kept in the end. */
  function PathOf(shots: Shots, w: Instant): Moment
    requires w.moment.tick / 2 < |shots|
  {
    if w.receiveDue then w.moment.(due := shots[w.moment.tick / 2]) else w.moment
  }

  lemma HappenOnPath(c: Pipeline.Config, world: World, w: Instant, e: Happening, shots: Shots)
    requires Detection.ValidTrace(world.trace) && Paced(world, w) && CanHappen(c, world, w, e)
    requires var w' := Happen(c, world, w, e); w'.kept <= shots && w'.moment.tick / 2 < |shots|
    requires Reached(c, shots, PathOf(shots, w)) && (e.Does? ==> Pipeline.Reliable(e.action))
    ensures Reached(c, shots, PathOf(shots, Happen(c, world, w, e)))
  {
    hide Reached, Pipeline.Apply, Pipeline.Enabled, Pipeline.InBounds, Pipeline.Reliable, Alerts.Take;
    HyperperiodOf(w.moment.tick);
    Osal.ConfiguredReleases(w.moment.tick + 1);
    match e
    case Ticks => ReachedOn(c, shots, PathOf(shots, w), Tick);
    case Polls =>
    case Receives => assert PathOf(shots, Happen(c, world, w, e)) == PathOf(shots, w);
    case Does(a) => ReachedOn(c, shots, PathOf(shots, w), Do(a));
  }

  lemma {:induction false} PathIsTimed(c: Pipeline.Config, world: World, instants: seq<Instant>, events: seq<Happening>, n: nat, shots: Shots)
    requires IsWholeRun(c, world, instants, events) && n < |instants| && ReliableNetwork(events[..n])
    requires instants[n].kept <= shots && instants[n].moment.tick / 2 < |shots|
    ensures Paced(world, instants[n]) && Reached(c, shots, PathOf(shots, instants[n]))
  {
    hide Reached, Happen, CanHappen, PathOf, Paced, Pipeline.Reliable, PowerUp;
    if n == 0 {
      PathAtPowerUp(c, world, shots);
    } else {
      var w, e := instants[n - 1], events[n - 1];
      assert Happens(c, world, w, e, instants[n - 1 + 1]);
      PacedRun(c, world, instants, events, n - 1);
      HappenKeepsPace(c, world, w, e);
      TicksGrow(c, world, w, e);
      PathIsTimed(c, world, instants, events, n - 1, shots);
      HappenOnPath(c, world, w, e, shots);
    }
  }

  lemma TicksGrow(c: Pipeline.Config, world: World, w: Instant, e: Happening)
    requires Detection.ValidTrace(world.trace) && CanHappen(c, world, w, e)
    ensures w.moment.tick <= Happen(c, world, w, e).moment.tick
  {
    hide Alerts.Take, Pipeline.Apply;
  }

  lemma PathAtPowerUp(c: Pipeline.Config, world: World, shots: Shots)
    requires 0 < |world.trace.samples| && 0 < |world.driver| && 0 < |shots|
    ensures Paced(world, PowerUp(c)) && Reached(c, shots, PathOf(shots, PowerUp(c)))
  {
    hide Pipeline.Init;
    Osal.ConfiguredReleases(0);
    assert PathOf(shots, PowerUp(c)) == Start(c, shots) by {
      InitIdle(c);
    }
    assert EndsAt(c, shots, [Start(c, shots)], [], Start(c, shots));
    InitIdle(c);
  }

  lemma InitIdle(c: Pipeline.Config)
    ensures Pipeline.Init(c).camera.CamIdle?
  {
  }

  lemma {:induction false} PacedRun(c: Pipeline.Config, world: World, instants: seq<Instant>, events: seq<Happening>, n: nat)
    requires IsWholeRun(c, world, instants, events) && n < |instants|
    ensures Paced(world, instants[n])
  {
    hide Happen, CanHappen, Paced, PowerUp;
    if n == 0 {
      PathAtPowerUp(c, world, [None]);
    } else {
      PacedRun(c, world, instants, events, n - 1);
      assert Happens(c, world, instants[n - 1], events[n - 1], instants[n - 1 + 1]);
      HappenKeepsPace(c, world, instants[n - 1], events[n - 1]);
    }
  }

  // ---------- its alerts are in step ----------

  /** Polls made so far. */
  function PollCount(w: Instant): nat {
    w.moment.tick + (if w.pollDue then 0 else 1)
  }

  /** Pass i kept its frame exactly if the detector was on alert after some number m of polls. The tick that
      releases the pass is that of poll 2i, so that is the alert as some poll left it from the third before
      that one to the first after it. */
  ghost predicate Decided(world: World, i: nat, shot: Option<seq<byte>>)
    requires Detection.ValidTrace(world.trace) && i < |world.driver|
  {
    exists m: nat :: 2 * i - 2 <= m <= 2 * i + 2 && m <= |world.trace.samples|
      && shot == if Detection.OnAlert(Detection.After(world.trace, m)) then world.driver[i] else None
  }

  ghost predicate Alert(world: World, w: Instant)
    requires Detection.ValidTrace(world.trace)
  {
    && Paced(world, w)
    && AlertTiming.InStep(world.trace, PollCount(w), |w.kept|, w.alerts)
    && forall i: nat :: i < |w.kept| ==> Decided(world, i, w.kept[i])
  }

  lemma HappenKeepsAlert(c: Pipeline.Config, world: World, w: Instant, e: Happening)
    requires Detection.ValidTrace(world.trace) && Alert(world, w) && CanHappen(c, world, w, e)
    ensures Alert(world, Happen(c, world, w, e))
  {
    hide AlertTiming.InStep, Decided, Alerts.Take, Pipeline.Apply, Rested, Released, Osal.Releases;
    HyperperiodOf(w.moment.tick);
    HappenKeepsPace(c, world, w, e);
    match e
    case Ticks =>
    case Polls => AlertTiming.PollInStep(world.trace, PollCount(w), |w.kept|, w.alerts);
    case Receives =>
      AlertTiming.ReceiveInStep(world.trace, PollCount(w), |w.kept|, w.alerts);
      ReceiveDecides(world, w);
    case Does(a) =>
  }

  lemma ReceiveDecides(world: World, w: Instant)
    requires Detection.ValidTrace(world.trace) && Paced(world, w) && w.receiveDue
    requires AlertTiming.InStep(world.trace, PollCount(w), |w.kept| + 1, Receive(world, w).alerts)
    ensures Decided(world, |w.kept|, Receive(world, w).kept[|w.kept|])
  {
    hide AlertTiming.InStep, Alerts.Take, Detection.After, Detection.OnAlert;
    HyperperiodOf(w.moment.tick);
    var m := AlertTiming.ReceivedWhat(world.trace, PollCount(w), |w.kept| + 1, Receive(world, w).alerts);
  }

  lemma {:induction false} RunKeepsAlert(c: Pipeline.Config, world: World, instants: seq<Instant>, events: seq<Happening>, n: nat)
    requires IsWholeRun(c, world, instants, events) && n < |instants|
    ensures Alert(world, instants[n])
  {
    hide Happen, CanHappen, Alert;
    if n == 0 {
      AlertAtPowerUp(c, world);
    } else {
      RunKeepsAlert(c, world, instants, events, n - 1);
      assert Happens(c, world, instants[n - 1], events[n - 1], instants[n - 1 + 1]);
      HappenKeepsAlert(c, world, instants[n - 1], events[n - 1]);
    }
  }

  lemma AlertAtPowerUp(c: Pipeline.Config, world: World)
    requires Detection.ValidTrace(world.trace) && 0 < |world.trace.samples| && 0 < |world.driver|
    ensures Alert(world, PowerUp(c))
  {
    hide AlertTiming.InStep;
    AlertTiming.StartInStep(world.trace);
    PathAtPowerUp(c, world, [None]);
  }

  // ---------- the theorems ----------

  /** For every sensor trace, every clock and every timing: no event is ever refused, at most three wait,
      and every pass of the camera keeps its frame as some poll left the alert, from the third before the
      poll of the pass's release to the first after it. */
  lemma CameraFollowsAlert(c: Pipeline.Config, world: World, instants: seq<Instant>, events: seq<Happening>, n: nat)
    requires IsWholeRun(c, world, instants, events) && n < |instants|
    ensures var w := instants[n];
            && w.alerts.accepted == w.alerts.tried && |w.alerts.queue| <= 3 < Alerts.CAPACITY == 10
            && |w.kept| <= |world.driver|
            && forall i: nat :: i < |w.kept| ==> Decided(world, i, w.kept[i])
  {
    hide Decided, AlertTiming.Allowance;
    RunKeepsAlert(c, world, instants, events, n);
    var w := instants[n];
    HyperperiodOf(w.moment.tick);
    AlertTiming.AtMostThreeWait(world.trace, PollCount(w), |w.kept|, w.alerts);
  }

  /** In the last tick of hyperperiod h - 1, the passes of h hyperperiods have all taken their event. */
  predicate PassesMade(w: Instant, h: nat) {
    h > 0 && w.moment.tick == 6 * h - 1 && |w.kept| == PASSES * h
  }

  /** From sensor to viewer. In every run of the whole system, for every sensor trace, clock, driver and
      timing: if the frames kept while capturing stay within 2m + b in every m consecutive hyperperiods, b
      no more than 123, and the network loses nothing, then nothing has been dropped, and the viewer has
      pushed exactly the first frames that the camera's passes kept, in order: all those of the
      hyperperiods that ended (b + 7) / 2 hyperperiods ago or more, and all but b + 4 when the tasks rest. Each
      pass kept its frame as some poll left the alert, at most three polls before its own tick's or one after. */
  lemma SensorToViewer(c: Pipeline.Config, world: World, b: nat, h: nat,
                       instants: seq<Instant>, events: seq<Happening>, n: nat)
    requires Pipeline.ValidConfig(c) && c.rawSize == 128 && c.imageSize == 256
    requires IsWholeRun(c, world, instants, events) && n < |instants| && ReliableNetwork(events[..n])
    requires PassesMade(instants[n], h)
    requires b <= 123 && RateBelow(instants[n].kept, b, h)
    ensures var w, s := instants[n], instants[n].moment.path;
            && s.rawDrops == 0 && s.imageDrops == 0
            && s.viewer.pushed <= Polled(w.kept, PASSES * h)
            && (forall g: nat :: g + (b + 7) / 2 <= h ==> |s.viewer.pushed| >= Total(w.kept, 0, g))
            && (AtRest(w.moment) ==> |s.viewer.pushed| >= |Polled(w.kept, PASSES * h)| - b - 4)
            && |w.kept| <= |world.driver|
            && forall i: nat :: i < |w.kept| ==> Decided(world, i, w.kept[i])
  {
    hide Decided, Reached, Pipeline.Reliable, IsWholeRun, Worst, Total;
    CameraFollowsAlert(c, world, instants, events, n);
    var w := instants[n];
    PathIsTimed(c, world, instants, events, n, w.kept);
    RateFits(w.kept, b, h);
    assert PathOf(w.kept, w) == w.moment by { PacedRun(c, world, instants, events, n); }
    DeliveredByThen(c, w.kept, b, h, w.moment);
  }

  lemma RateFits(shots: Shots, b: nat, h: nat)
    requires PASSES * h <= |shots| && b <= 123 && RateBelow(shots, b, h)
    ensures PeaksFit(shots, 127, h) && forall g: nat :: g <= h ==> Worst(shots, g) <= b + 2
  {
    hide PeaksFit;
    RateIsBelow(shots, b, 123, h);
    ConfiguredRate(shots, h);
    WaitingExactly(shots, b, h);
  }

  lemma DeliveredByThen(c: Pipeline.Config, shots: Shots, b: nat, h: nat, m: Moment)
    requires Pipeline.ValidConfig(c) && c.rawSize == 128 && c.imageSize == 256
    requires h > 0 && |shots| == PASSES * h && m.tick == 6 * h - 1 && Reached(c, shots, m)
    requires PeaksFit(shots, 127, h) && forall g: nat :: g <= h ==> Worst(shots, g) <= b + 2
    ensures var s := m.path;
            && s.rawDrops == 0 && s.imageDrops == 0
            && s.viewer.pushed <= Polled(shots, PASSES * h)
            && (forall g: nat :: g + (b + 7) / 2 <= h ==> |s.viewer.pushed| >= Total(shots, 0, g))
            && (AtRest(m) ==> |s.viewer.pushed| >= |Polled(shots, PASSES * h)| - b - 4)
  {
    hide PeaksFit, AtRest, Polled, Worst, Total, Contents;
    var moments, beats :| EndsAt(c, shots, moments, beats, m);
    assert beats[..|beats|] == beats;
    EveryFrameArrives(c, shots, h, moments, beats, |beats|);
  }

  // ---------- the first frame ----------

  /** When the detector's first poll comes before the camera's first receive, as their priorities have it
      when nothing delays the detector. */
  ghost predicate DetectorFirst(events: seq<Happening>) {
    |events| >= 2 && events[0] == Polls && events[1] == Receives
  }

  lemma {:induction false} KeptGrows(c: Pipeline.Config, world: World, instants: seq<Instant>, events: seq<Happening>, k: nat, n: nat)
    requires IsWholeRun(c, world, instants, events) && k <= n < |instants|
    ensures instants[k].kept <= instants[n].kept
    decreases n
  {
    hide Happen, CanHappen, Paced, PowerUp;
    if k < n {
      KeptGrows(c, world, instants, events, k, n - 1);
      PacedRun(c, world, instants, events, n - 1);
      assert Happens(c, world, instants[n - 1], events[n - 1], instants[n - 1 + 1]);
      HappenKeepsPace(c, world, instants[n - 1], events[n - 1]);
    }
  }

  lemma FirstPassKeeps(c: Pipeline.Config, world: World, instants: seq<Instant>, events: seq<Happening>)
    requires IsWholeRun(c, world, instants, events) && DetectorFirst(events)
    ensures instants[2].kept == [if world.trace.samples[0] != 0 then world.driver[0] else None]
  {
    hide Pipeline.Init, Pipeline.Apply, Alerts.Take;
    assert Happens(c, world, instants[0], events[0], instants[0 + 1]);
    assert Happens(c, world, instants[1], events[1], instants[1 + 1]);
    FirstEvent(Alerts.DetectorPoll(world.trace.samples[0], world.trace.clock[0]));
  }

  lemma FirstEvent(poll: Alerts.Step)
    requires poll.DetectorPoll?
    ensures Alerts.Take(Alerts.CAPACITY, Alerts.Take(Alerts.CAPACITY, Alerts.START, poll), Alerts.CameraPoll).camera ==
            if poll.sample != 0 then Cameras.Capturing else Cameras.Idle
  {
  }

  lemma {:induction false} OnlyTheFirst(shots: Shots, n: nat)
    requires 0 < n <= |shots| && forall i :: 0 < i < |shots| ==> shots[i].None?
    ensures Polled(shots, n) == Shown(shots[0])
  {
    if n > 1 {
      OnlyTheFirst(shots, n - 1);
    } else {
      assert Polled(shots, 1) == Polled(shots, 0) + Shown(shots[0]);
    }
  }

  lemma FirstOfPolled(shots: Shots, n: nat)
    requires 0 < n <= |shots|
    ensures Shown(shots[0]) <= Polled(shots, n)
  {
    PolledGrows(shots, 1, n);
    assert Polled(shots, 1) == Polled(shots, 0) + Shown(shots[0]) == Shown(shots[0]);
  }

  /** The first frame, in every run that begins with the detector's poll and the camera's receive: the
      camera's first pass keeps the driver's frame if and only if the first sample is high, and after five
      hyperperiods that frame is the first the viewer has pushed, and the only one if no other came. */
  lemma FirstFrameArrives(c: Pipeline.Config, world: World, b: nat, h: nat,
                          instants: seq<Instant>, events: seq<Happening>, n: nat)
    requires Pipeline.ValidConfig(c) && c.rawSize == 128 && c.imageSize == 256
    requires IsWholeRun(c, world, instants, events) && 2 <= n < |instants| && ReliableNetwork(events[..n])
    requires PassesMade(instants[n], h) && b <= 123 && RateBelow(instants[n].kept, b, h) && h >= 5
    requires DetectorFirst(events)
    ensures var w, pushed := instants[n], instants[n].moment.path.viewer.pushed;
            && w.kept[0] == (if world.trace.samples[0] != 0 then world.driver[0] else None)
            && Shown(w.kept[0]) <= pushed
            && ((forall i :: 0 < i < |world.driver| ==> world.driver[i].None?) ==> pushed == Shown(w.kept[0]))
  {
    hide Decided, Reached, Pipeline.Reliable, Worst, Total, Polled;
    var w := instants[n];
    SensorToViewer(c, world, b, h, instants, events, n);
    FirstPassKeeps(c, world, instants, events);
    KeptGrows(c, world, instants, events, 2, n);
    FirstHyperperiodArrives(c, world, b, h, instants, events, n);
    FirstOfPolled(w.kept, PASSES * h);
    FirstCounts(w.kept);
    if forall i :: 0 < i < |world.driver| ==> world.driver[i].None? {
      forall i: nat | 0 < i < |w.kept| ensures w.kept[i].None? {
        KeptFromDriver(world, i, w.kept[i]);
      }
      OnlyTheFirst(w.kept, PASSES * h);
    }
  }

  lemma KeptFromDriver(world: World, i: nat, shot: Option<seq<byte>>)
    requires Detection.ValidTrace(world.trace) && i < |world.driver| && Decided(world, i, shot)
    ensures shot.None? || shot == world.driver[i]
  {
  }

  lemma FirstCounts(shots: Shots)
    requires PASSES <= |shots|
    ensures Total(shots, 0, 1) >= |Shown(shots[0])| && Worst(shots, 1) <= 3
  {
    assert Total(shots, 0, 1) == Total(shots, 0, 0) + Arrivals(shots, 0);
    assert Worst(shots, 0) == 0;
  }

  lemma FirstHyperperiodArrives(c: Pipeline.Config, world: World, b: nat, h: nat,
                                instants: seq<Instant>, events: seq<Happening>, n: nat)
    requires Pipeline.ValidConfig(c) && c.rawSize == 128 && c.imageSize == 256
    requires IsWholeRun(c, world, instants, events) && n < |instants| && ReliableNetwork(events[..n])
    requires PassesMade(instants[n], h) && b <= 123 && RateBelow(instants[n].kept, b, h) && h >= 5
    ensures |instants[n].moment.path.viewer.pushed| >= Total(instants[n].kept, 0, 1)
  {
    hide Reached, Pipeline.Reliable, IsWholeRun, Total, Worst;
    var w := instants[n];
    PathIsTimed(c, world, instants, events, n, w.kept);
    assert PathOf(w.kept, w) == w.moment by { PacedRun(c, world, instants, events, n); }
    RateFits(w.kept, b, h);
    FirstCounts(w.kept);
    FirstServed(c, w.kept, h, w.moment);
  }

  lemma FirstServed(c: Pipeline.Config, shots: Shots, h: nat, m: Moment)
    requires Pipeline.ValidConfig(c) && c.rawSize == 128 && c.imageSize == 256
    requires h >= 5 && |shots| == PASSES * h && m.tick == 6 * h - 1 && Reached(c, shots, m)
    requires PeaksFit(shots, 127, h) && Worst(shots, 1) <= 3
    ensures |m.path.viewer.pushed| >= Total(shots, 0, 1)
  {
    hide PeaksFit, AtRest, Polled, Worst, Total, Contents;
    var moments, beats :| EndsAt(c, shots, moments, beats, m);
    assert beats[..|beats|] == beats;
    EveryFrameArrives(c, shots, h, moments, beats, |beats|);
    assert 6 * SentBy(shots, 1) <= m.tick;
  }
}
