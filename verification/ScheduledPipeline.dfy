/**
 * The promises of the frame path against the clock, for every timed run: at which rates nothing is
 * dropped whatever the timing, and when each frame has arrived.
 */
module ScheduledPipeline {
  import opened Types
  import opened RingBuffers
  import opened Pipeline
  import opened PipelineTheorems
  import opened FrameRates
  import opened TimedPipeline
  import Osal

  // ---------- a timed run is a run ----------

  /** The tasks' own steps. */
  function ActionsOf(beats: seq<Beat>): seq<Action> {
    if beats == [] then []
    else
      var b, before := beats[|beats| - 1], ActionsOf(beats[..|beats| - 1]);
      if b.Do? then before + [b.action] else before
  }

  /** Without its ticks a timed run is one of the interleavings, so all that holds of those holds of it. */
  lemma {:induction false} TimedRunIsRun(c: Config, shots: Shots, moments: seq<Moment>, beats: seq<Beat>, n: nat)
    returns (states: seq<State>)
    requires IsTimedRun(c, shots, moments, beats) && n < |moments|
    ensures IsRun(c, states, ActionsOf(beats[..n])) && states[|states| - 1] == moments[n].path
  {
    hide Enabled, InBounds, Init, Apply;
    if n == 0 {
      states := [moments[0].path];
    } else {
      var earlier := TimedRunIsRun(c, shots, moments, beats, n - 1);
      assert beats[..n][..n - 1] == beats[..n - 1];
      assert IsBeat(c, shots, moments[n - 1], beats[n - 1], moments[n - 1 + 1]);
      states := earlier;
      if beats[n - 1].Do? {
        states := earlier + [moments[n].path];
        assert IsStep(c, moments[n - 1].path, beats[n - 1].action, moments[n].path);
      }
    }
  }

  ghost predicate ReliableBeats(beats: seq<Beat>) {
    forall i :: 0 <= i < |beats| && beats[i].Do? ==> Reliable(beats[i].action)
  }

  lemma {:induction false} ReliableActions(beats: seq<Beat>)
    requires ReliableBeats(beats)
    ensures forall i :: 0 <= i < |ActionsOf(beats)| ==> Reliable(ActionsOf(beats)[i])
  {
    hide Reliable;
    if beats != [] {
      ReliableActions(beats[..|beats| - 1]);
    }
  }

  // ---------- deadlines ----------

  /** Of the first `target` frames, `left` were still in the raw ring when the hyperperiod began: the
      transcoder has freed one of them at every turn it has ended, and nvm is at most two frames behind
      what had been freed by then. */
  predicate Served(l: Load, tt: nat, nt: nat, target: nat, left: int) {
    && l.freed >= target - Max(left - (2 - tt - One(l.transcoding)), 0)
    && l.sent >= target - Max(left, 0) - nt - One(l.sending)
  }

  lemma ServedStep(l: Load, a: Action, tt: nat, nt: nat, worst: nat, base: nat, target: nat, left: int, rawRoom: int, imageRoom: int)
    requires ImageBound(l, tt, nt) && RawBound(l, tt, worst, base) && AtWork(l, a) && l.imageDrops == 0
    requires Served(l, tt, nt, target, left) && target <= base
    requires (a.TransEmptyTest? ==> tt > 0) && (a.NvmEmptyTest? ==> nt > 0)
    ensures Served(NextLoad(l, a, rawRoom, imageRoom), if a.TransEmptyTest? then tt - 1 else tt,
                   if a.NvmEmptyTest? then nt - 1 else nt, target, left)
    ensures NextLoad(l, a, rawRoom, imageRoom).sent >= l.sent
  {
  }

  /** What the frames of the hyperperiods before g can count on from hyperperiod g on. */
  ghost predicate OnTime(shots: Shots, g: nat, m: Moment)
    requires PASSES * g <= |shots|
  {
    m.tick >= 6 * g ==>
      var target, left := Total(shots, 0, g), Worst(shots, g) - 2 * (m.tick / 6 - g);
      && Served(LoadOf(m.path), m.transcoderTurns, m.nvmTurns, target, left)
      && (m.tick / 6 > g ==> |m.path.sent| >= target - Max(left + 2, 0))
  }

  lemma {:induction false} TotalGrows(shots: Shots, g: nat, g': nat)
    requires g <= g' && PASSES * g' <= |shots|
    ensures Total(shots, 0, g) <= Total(shots, 0, g')
    decreases g'
  {
    if g < g' {
      TotalGrows(shots, g, g' - 1);
    }
  }

  lemma DoOnTime(c: Config, shots: Shots, g: nat, m: Moment, a: Action)
    requires PASSES * g <= |shots| && InTime(c, shots, m) && OnTime(shots, g, m) && c.imageSize >= 5
    requires Allowed(c, shots, m, Do(a))
    ensures OnTime(shots, g, Advance(c, shots, m, Do(a)))
  {
    hide Inv, Apply, Enabled, InBounds, LoadOf, NextLoad, RawBound, ImageBound, LoadOk, AtWork, Served, Worst, Total;
    HyperperiodOf(m.tick);
    if m.tick >= 6 * g {
      var now := m.tick / 6;
      TotalGrows(shots, g, now);
      StepLoad(c, m.path, a);
      LoadNames(m.path);
      LoadNames(Apply(c, m.path, a));
      ServedStep(LoadOf(m.path), a, m.transcoderTurns, m.nvmTurns, Worst(shots, now), Total(shots, 0, now),
                 Total(shots, 0, g), Worst(shots, g) - 2 * (now - g), c.rawSize - 1, c.imageSize - 1);
    }
  }

  /** The end of a hyperperiod with every task at rest: two more of the backlog have been freed. */
  lemma ServedTick(l: Load, target: nat, left: int)
    requires ImageBound(l, 0, 0) && !l.transcoding && !l.sending && l.imageDrops == 0 && Served(l, 0, 0, target, left)
    ensures Served(l, 2, 2, target, left - 2) && l.sent >= target - Max(left, 0)
  {
  }

  /** The beginning of the hyperperiod from which on the deadlines count. */
  lemma ServedFirst(l: Load, worst: nat, base: nat)
    requires ImageBound(l, 0, 0) && RawBound(l, 2, worst, base) && !l.transcoding && !l.sending && l.imageDrops == 0
    ensures Served(l, 2, 2, base, worst)
  {
  }

  lemma TickOnTime(c: Config, shots: Shots, g: nat, m: Moment)
    requires PASSES * g <= |shots| && InTime(c, shots, m) && OnTime(shots, g, m) && c.imageSize >= 5
    requires Allowed(c, shots, m, Tick) && InTime(c, shots, Advance(c, shots, m, Tick))
    ensures OnTime(shots, g, Advance(c, shots, m, Tick))
  {
    hide Inv, LoadOf, Worst, Total, Recorded, Osal.Releases, ImageBound, RawBound, Served;
    HyperperiodOf(m.tick);
    Osal.ConfiguredReleases(m.tick + 1);
    LoadNames(m.path);
    if (m.tick + 1) % 6 == 0 {
      if m.tick >= 6 * g {
        ServedTick(LoadOf(m.path), Total(shots, 0, g), Worst(shots, g) - 2 * (m.tick / 6 - g));
      } else if m.tick + 1 >= 6 * g {
        ServedFirst(LoadOf(m.path), Worst(shots, g), Total(shots, 0, g));
      }
    }
  }

  lemma StartOnTime(c: Config, shots: Shots, g: nat)
    requires ValidConfig(c) && 0 < |shots| && PASSES * g <= |shots|
    ensures OnTime(shots, g, Start(c, shots))
  {
    Osal.ConfiguredReleases(0);
  }

  lemma {:induction false} RunOnTime(c: Config, shots: Shots, h: nat, g: nat, moments: seq<Moment>, beats: seq<Beat>, n: nat)
    requires ValidConfig(c) && |shots| == PASSES * h && PeaksFit(shots, c.rawSize - 1, h) && c.imageSize >= 5
    requires IsTimedRun(c, shots, moments, beats) && n < |moments| && g <= h
    ensures OnTime(shots, g, moments[n])
  {
    hide InTime, OnTime, Allowed, Advance, Start, PeaksFit;
    if n == 0 {
      StartOnTime(c, shots, g);
    } else {
      RunOnTime(c, shots, h, g, moments, beats, n - 1);
      RunInTime(c, shots, h, moments, beats, n - 1);
      RunInTime(c, shots, h, moments, beats, n);
      assert IsBeat(c, shots, moments[n - 1], beats[n - 1], moments[n - 1 + 1]);
      match beats[n - 1]
      case Tick => TickOnTime(c, shots, g, moments[n - 1]);
      case Do(a) => DoOnTime(c, shots, g, moments[n - 1], a);
    }
  }

  // ---------- the theorems ----------

  lemma {:induction false} SubsequenceShorter<T>(a: seq<T>, b: seq<T>)
    requires Subsequence(a, b)
    ensures |a| <= |b| && (|a| == |b| ==> a == b)
    decreases |b|
  {
    if a != [] {
      var b' := b[..|b| - 1];
      if Subsequence(a, b') {
        SubsequenceShorter(a, b');
      } else {
        SubsequenceShorter(a[..|a| - 1], b');
        assert |a| == |b| ==> a == a[..|a| - 1] + [a[|a| - 1]] && b == b' + [b[|b| - 1]];
      }
    }
  }

  /** Without drops the queued frames are the first of the offered ones. */
  lemma QueuedIsPrefix(c: Config, s: State)
    requires Inv(c, s) && s.rawDrops == 0 && s.imageDrops == 0
    ensures s.queued <= s.offered
  {
    hide Subsequence;
    SubsequenceShorter(s.stored, s.offered[..|s.offered| - InCamera(s)]);
    SubsequenceShorter(s.queued, s.stored[..s.freed + Settled(s)]);
  }

  /** The hyperperiod by whose beginning the frames of those before g have been sent, in the worst timing:
      the transcoder takes two of the backlog in each, and nvm needs one more. */
  function SentBy(shots: Shots, g: nat): nat
    requires PASSES * g <= |shots|
  {
    g + (Worst(shots, g) + 1) / 2 + 1
  }

  /** All the frames of the passes released so far have come to the end of the path, or wait in a ring. */
  ghost predicate AtRest(m: Moment) {
    m.tick % 6 == 5 && Rested(m, m.tick + 1)
  }

  /** Every frame arrives. In every timed run whose peaks fit the raw ring and whose datagrams arrive, at
      every moment: nothing has been dropped; the viewer has pushed exactly the first frames the driver had
      at passes of the camera, in order; among them are all those of the hyperperiods that the worst timing
      has had time to serve; and when the tasks rest at the end of a hyperperiod only frames still in the
      rings are missing, no more than the worst timing leaves. */
  lemma EveryFrameArrives(c: Config, shots: Shots, h: nat, moments: seq<Moment>, beats: seq<Beat>, n: nat)
    requires ValidConfig(c) && c.imageSize >= 5 && |shots| == PASSES * h && PeaksFit(shots, c.rawSize - 1, h)
    requires IsTimedRun(c, shots, moments, beats) && n < |moments| && ReliableBeats(beats[..n])
    ensures var m := moments[n];
            && m.tick / 2 < |shots|
            && m.path.rawDrops == 0 && m.path.imageDrops == 0
            && m.path.viewer.pushed <= Polled(shots, m.tick / 2 + 1)
            && (forall g: nat :: g <= h && 6 * SentBy(shots, g) <= m.tick ==> |m.path.viewer.pushed| >= Total(shots, 0, g))
            && (AtRest(m) ==>
                  && PASSES * (m.tick / 6 + 1) <= |shots|
                  && InRange(m.path.raw) && |Contents(m.path.raw)| <= Worst(shots, m.tick / 6 + 1)
                  && InRange(m.path.image) && |Contents(m.path.image)| <= 2
                  && |m.path.viewer.pushed| ==
                     |Polled(shots, m.tick / 2 + 1)| - |Contents(m.path.raw)| - |Contents(m.path.image)|)
  {
    var m := moments[n];
    RunInTime(c, shots, h, moments, beats, n);
    PushedInTime(c, shots, moments, beats, n);
    HyperperiodOf(m.tick);
    forall g: nat | g <= h && 6 * SentBy(shots, g) <= m.tick ensures |m.path.viewer.pushed| >= Total(shots, 0, g) {
      RunOnTime(c, shots, h, g, moments, beats, n);
      TimeIsUp(shots, g, m);
    }
    if AtRest(m) {
      RestingLoad(c, shots, m);
    }
  }

  lemma PushedInTime(c: Config, shots: Shots, moments: seq<Moment>, beats: seq<Beat>, n: nat)
    requires ValidConfig(c) && c.imageSize >= 5 && IsTimedRun(c, shots, moments, beats) && n < |moments|
    requires ReliableBeats(beats[..n]) && InTime(c, shots, moments[n])
    ensures var m := moments[n];
            && m.path.viewer.pushed == m.path.queued[..Completed(c, m.path)]
            && |m.path.viewer.pushed| >= |m.path.sent|
            && m.path.viewer.pushed <= Polled(shots, m.tick / 2 + 1)
  {
    hide Inv, Polled, IsTimedRun;
    PushedInRun(c, shots, moments, beats, n);
    QueuedIsPrefix(c, moments[n].path);
  }

  lemma PushedInRun(c: Config, shots: Shots, moments: seq<Moment>, beats: seq<Beat>, n: nat)
    requires ValidConfig(c) && IsTimedRun(c, shots, moments, beats) && n < |moments| && ReliableBeats(beats[..n])
    ensures Inv(c, moments[n].path)
    ensures var s := moments[n].path; s.viewer.pushed == s.queued[..Completed(c, s)]
  {
    hide Inv, IsRun, ReliableBeats, Completed, Start, IsBeat;
    var states := TimedRunIsRun(c, shots, moments, beats, n);
    ReliableActions(beats[..n]);
    var actions := ActionsOf(beats[..n]);
    RunLength(c, states, actions);
    EndToEnd(c, states, actions, |actions|);
  }

  lemma RunLength(c: Config, states: seq<State>, actions: seq<Action>)
    requires IsRun(c, states, actions)
    ensures |states| == |actions| + 1
  {
  }

  lemma TimeIsUp(shots: Shots, g: nat, m: Moment)
    requires PASSES * g <= |shots| && OnTime(shots, g, m) && 6 * SentBy(shots, g) <= m.tick
    ensures |m.path.sent| >= Total(shots, 0, g)
  {
    hide Served, Worst, Total;
  }

  lemma RestingLoad(c: Config, shots: Shots, m: Moment)
    requires InTime(c, shots, m) && AtRest(m) && m.path.imageDrops == 0 && PASSES * (m.tick / 6 + 1) <= |shots|
    ensures |Contents(m.path.raw)| <= Worst(shots, m.tick / 6 + 1) && |Contents(m.path.image)| <= 2
    ensures Completed(c, m.path) == |Polled(shots, m.tick / 2 + 1)| - |Contents(m.path.raw)| - |Contents(m.path.image)|
  {
    hide Inv, Polled, Total, Arrivals, Contents, Osal.Releases;
    Osal.ConfiguredReleases(m.tick + 1);
    LoadIsOk(c, m.path);
    OfferedSoFar(c, shots, m);
    NothingShown(m.path.offered);
  }
}
