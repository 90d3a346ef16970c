/** Runs of the whole system that exist: for every world one in which every deadline is met. */
module WholeRuns {
  import opened Types
  import opened FrameRates
  import opened TimedPipeline
  import opened ScheduledPipeline
  import opened ScheduledRuns
  import opened Surveillance
  import Pipeline
  import Detection
  import Cameras
  import Alerts
  import Osal

  /** A run without loss ends here. */
  ghost predicate WholeReached(c: Pipeline.Config, world: World, w: Instant) {
    exists instants: seq<Instant>, events: seq<Happening> :: WholeEndsAt(c, world, instants, events, w)
  }

  ghost predicate WholeEndsAt(c: Pipeline.Config, world: World, instants: seq<Instant>, events: seq<Happening>, w: Instant) {
    IsWholeRun(c, world, instants, events) && instants[|events|] == w && ReliableNetwork(events)
  }

  lemma WholeReachedOn(c: Pipeline.Config, world: World, w: Instant, e: Happening)
    requires Detection.ValidTrace(world.trace) && WholeReached(c, world, w)
    requires CanHappen(c, world, w, e) && (e.Does? ==> Pipeline.Reliable(e.action))
    ensures WholeReached(c, world, Happen(c, world, w, e))
  {
    hide CanHappen, Happen, PowerUp, Pipeline.Reliable;
    var instants: seq<Instant>, events: seq<Happening> :| WholeEndsAt(c, world, instants, events, w);
    var w' := Happen(c, world, w, e);
    var instants', events' := instants + [w'], events + [e];
    forall i | 0 <= i < |events'| ensures Happens(c, world, instants'[i], events'[i], instants'[i + 1]) {
      if i < |events| {
        assert Happens(c, world, instants[i], events[i], instants[i + 1]);
      }
    }
    assert WholeEndsAt(c, world, instants', events', w');
  }

  /** The alerts after tick n, when in every tick the detector polls before the camera receives. */
  function InOrder(world: World, tick: nat): Alerts.System
    requires Detection.ValidTrace(world.trace) && tick < |world.trace.samples|
  {
    Alerts.Exec(Alerts.CAPACITY, Alerts.Scheduled(world.trace, tick + 1))
  }

  /** What the passes of the camera then keep. */
  function KeptInOrder(world: World, n: nat): (shots: Shots)
    requires Detection.ValidTrace(world.trace) && n <= |world.driver| && 2 * n <= |world.trace.samples|
    ensures |shots| == n
  {
    seq(n, i requires 0 <= i < n =>
      if InOrder(world, 2 * i).camera == Cameras.Capturing then world.driver[i] else None)
  }

  /** A moment of the frame path with detector and camera in that order. */
  function Whole(world: World, shots: Shots, m: Moment): Instant
    requires Detection.ValidTrace(world.trace) && m.tick < |world.trace.samples| && m.tick / 2 < |shots|
  {
    Instant(InOrder(world, m.tick), m, false, false, shots[..m.tick / 2 + 1])
  }

  /** The poll of a tick, and the camera's receive if the tick releases it. */
  lemma PollThenReceive(c: Pipeline.Config, world: World, shots: Shots, m: Moment, w: Instant)
    requires Detection.ValidTrace(world.trace) && |shots| <= |world.driver| && 2 * |shots| <= |world.trace.samples|
    requires shots == KeptInOrder(world, |shots|)
    requires m.tick / 2 < |shots| && WholeReached(c, world, w)
    requires w.alerts == Alerts.Exec(Alerts.CAPACITY, Alerts.Scheduled(world.trace, m.tick)) && w.pollDue
    requires w.receiveDue <==> Osal.Releases(Osal.CAMERA_PERIOD, m.tick)
    requires w.kept == shots[..(m.tick + 1) / 2]
    requires w.moment == if w.receiveDue then m.(due := None) else m
    requires w.receiveDue ==> m.due == shots[m.tick / 2]
    ensures m.tick < |world.trace.samples| && WholeReached(c, world, Whole(world, shots, m))
  {
    hide WholeReached, Alerts.Exec, Alerts.Take, Osal.Releases;
    HyperperiodOf(m.tick);
    Osal.ConfiguredReleases(m.tick);
    var t := world.trace;
    var before, poll := Alerts.Scheduled(t, m.tick), Alerts.DetectorPoll(t.samples[m.tick], t.clock[m.tick]);
    Alerts.ExecSnoc(Alerts.CAPACITY, before, poll);
    Alerts.ExecSnoc(Alerts.CAPACITY, before + [poll], Alerts.CameraPoll);
    WholeReachedOn(c, world, w, Polls);
    var w1 := Happen(c, world, w, Polls);
    if w.receiveDue {
      WholeReachedOn(c, world, w1, Receives);
      var w2 := Happen(c, world, w1, Receives);
      assert m.tick == 2 * (m.tick / 2);
      assert w2.kept == shots[..m.tick / 2] + [shots[m.tick / 2]] == shots[..m.tick / 2 + 1];
      assert w2 == Whole(world, shots, m);
    } else {
      assert w1 == Whole(world, shots, m);
    }
  }

  lemma TickWhole(c: Pipeline.Config, world: World, shots: Shots, m: Moment)
    requires Detection.ValidTrace(world.trace) && |shots| <= |world.driver| && 2 * |shots| <= |world.trace.samples|
    requires shots == KeptInOrder(world, |shots|)
    requires m.tick / 2 < |shots| && m.tick < |world.trace.samples| && WholeReached(c, world, Whole(world, shots, m))
    requires Allowed(c, shots, m, Tick)
    ensures WholeReached(c, world, Whole(world, shots, Advance(c, shots, m, Tick)))
  {
    hide WholeReached, InOrder, KeptInOrder, Osal.Releases, Alerts.Exec, Alerts.Scheduled, Alerts.Take, Pipeline.Apply;
    HyperperiodOf(m.tick);
    Osal.ConfiguredReleases(m.tick + 1);
    var w := Whole(world, shots, m);
    WholeReachedOn(c, world, w, Ticks);
    assert InOrder(world, m.tick) == Alerts.Exec(Alerts.CAPACITY, Alerts.Scheduled(world.trace, m.tick + 1)) by {
      InOrderIs(world, m.tick);
    }
    PollThenReceive(c, world, shots, Advance(c, shots, m, Tick), Happen(c, world, w, Ticks));
  }

  lemma InOrderIs(world: World, tick: nat)
    requires Detection.ValidTrace(world.trace) && tick < |world.trace.samples|
    ensures InOrder(world, tick) == Alerts.Exec(Alerts.CAPACITY, Alerts.Scheduled(world.trace, tick + 1))
  {
  }

  /** Every timed run of the frame path whose frames are those kept in order is part of a run of the whole. */
  lemma {:induction false} PathBecomesWhole(c: Pipeline.Config, world: World, shots: Shots, moments: seq<Moment>, beats: seq<Beat>, n: nat)
    requires Detection.ValidTrace(world.trace) && |shots| <= |world.driver| && 2 * |shots| <= |world.trace.samples|
    requires shots == KeptInOrder(world, |shots|)
    requires IsTimedRun(c, shots, moments, beats) && n < |moments| && ReliableBeats(beats[..n])
    ensures var m := moments[n];
            && m.tick / 2 < |shots| && m.tick < |world.trace.samples|
            && WholeReached(c, world, Whole(world, shots, m))
  {
    hide WholeReached, Allowed, Advance, Start, KeptInOrder, Whole, Pipeline.Reliable;
    if n == 0 {
      StartWhole(c, world, shots);
    } else {
      PathBecomesWhole(c, world, shots, moments, beats, n - 1);
      assert IsBeat(c, shots, moments[n - 1], beats[n - 1], moments[n - 1 + 1]);
      match beats[n - 1]
      case Tick =>
        TickAdvances(c, shots, moments[n - 1]);
        TickWhole(c, world, shots, moments[n - 1]);
      case Do(a) =>
        DoWhole(c, world, shots, moments[n - 1], a);
    }
  }

  lemma TickAdvances(c: Pipeline.Config, shots: Shots, m: Moment)
    requires Allowed(c, shots, m, Tick)
    ensures (m.tick + 1) / 2 < |shots| && Advance(c, shots, m, Tick).tick == m.tick + 1
  {
  }

  lemma DoWhole(c: Pipeline.Config, world: World, shots: Shots, m: Moment, a: Pipeline.Action)
    requires Detection.ValidTrace(world.trace) && m.tick / 2 < |shots| && m.tick < |world.trace.samples|
    requires WholeReached(c, world, Whole(world, shots, m)) && Allowed(c, shots, m, Do(a)) && Pipeline.Reliable(a)
    ensures Advance(c, shots, m, Do(a)).tick == m.tick
    ensures WholeReached(c, world, Whole(world, shots, Advance(c, shots, m, Do(a))))
  {
    hide WholeReached, InOrder, Pipeline.Apply, Pipeline.Enabled, Pipeline.InBounds, Pipeline.Reliable;
    WholeReachedOn(c, world, Whole(world, shots, m), Does(a));
  }

  lemma StartWhole(c: Pipeline.Config, world: World, shots: Shots)
    requires Detection.ValidTrace(world.trace) && |shots| <= |world.driver| && 2 * |shots| <= |world.trace.samples|
    requires shots == KeptInOrder(world, |shots|) && 0 < |shots|
    ensures Start(c, shots).tick == 0 && WholeReached(c, world, Whole(world, shots, Start(c, shots)))
  {
    hide Pipeline.Init, WholeReached, KeptInOrder, InOrder, Osal.Releases;
    Osal.ConfiguredReleases(0);
    assert WholeReached(c, world, PowerUp(c)) by {
      PowerUpReached(c, world);
    }
    Alerts.ExecNothing(Alerts.CAPACITY);
    PollThenReceive(c, world, shots, Start(c, shots), PowerUp(c));
  }

  lemma PowerUpReached(c: Pipeline.Config, world: World)
    requires Detection.ValidTrace(world.trace) && 0 < |world.driver| && 0 < |world.trace.samples|
    ensures WholeReached(c, world, PowerUp(c))
  {
    assert WholeEndsAt(c, world, [PowerUp(c)], [], PowerUp(c));
  }

  /** For every sensor trace, clock and driver there is a run of the whole system, without loss, in which
      every deadline of h hyperperiods is met and the tasks then rest. */
  lemma WholeRunExists(c: Pipeline.Config, world: World, h: nat) returns (instants: seq<Instant>, events: seq<Happening>)
    requires Pipeline.ValidConfig(c) && ValidWorld(c, world) && h > 0
    requires PASSES * h <= |world.driver| && 6 * h <= |world.trace.samples|
    ensures IsWholeRun(c, world, instants, events) && ReliableNetwork(events)
    ensures PassesMade(instants[|events|], h) && AtRest(instants[|events|].moment)
  {
    hide AtRest, IsTimedRun, ReliableBeats, ReliableNetwork, InOrder;
    var shots := KeptInOrder(world, PASSES * h);
    forall i | 0 <= i < |shots| ensures ShotOk(c, shots[i]) {
      assert ShotOk(c, world.driver[i]);
    }
    var moments, beats := DeadlinesCanBeMet(c, shots, h);
    assert beats[..|beats|] == beats;
    TimedLength(c, shots, moments, beats);
    PathBecomesWhole(c, world, shots, moments, beats, |beats|);
    var m := moments[|beats|];
    instants, events :| WholeEndsAt(c, world, instants, events, Whole(world, shots, m));
    assert instants[|events|].moment == m;
  }

  lemma TimedLength(c: Pipeline.Config, shots: Shots, moments: seq<Moment>, beats: seq<Beat>)
    requires IsTimedRun(c, shots, moments, beats)
    ensures |moments| == |beats| + 1
  {
  }
}
