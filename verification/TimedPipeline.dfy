/**
 * The frame path against the clock. Ticks of the sequencer are steps among the tasks' own, and the only
 * thing asked of the tasks is that an instance has finished when its next release comes: within that,
 * camera, transcoder and nvm may run, wait and preempt one another at any micro-step.
 */
module TimedPipeline {
  import opened Types
  import opened RingBuffers
  import opened StreamViewer
  import opened Pipeline
  import opened PipelineProofs
  import opened PipelineTheorems
  import opened FrameRates
  import Osal

  // ---------- the clock and the tasks ----------

  /** The frame path, the last tick, and what the instances released so far have still to begin: a frame
      that the camera has to store, and turns of the loops in the transcoder and in nvm. */
  datatype Moment = Moment(path: State, tick: nat, due: Option<seq<byte>>, transcoderTurns: nat, nvmTurns: nat)

  datatype Beat = Tick | Do(action: Action)

  /** A tick's releases of transcoder and nvm. */
  function Strike(m: Moment, tick: nat): Moment {
    m.(tick := tick,
       transcoderTurns := if Osal.Releases(Osal.TRANSCODER_PERIOD, tick) then 2 else m.transcoderTurns,
       nvmTurns := if Osal.Releases(Osal.NVM_PERIOD, tick) then 2 else m.nvmTurns)
  }

  /** And of the camera. */
  function Release(shots: Shots, m: Moment, tick: nat): Moment
    requires tick / 2 < |shots|
  {
    Strike(m, tick).(due := if Osal.Releases(Osal.CAMERA_PERIOD, tick) then shots[tick / 2] else m.due)
  }

  /** Every task that the tick releases has finished what it was released for before. */
  predicate Rested(m: Moment, tick: nat) {
    && (Osal.Releases(Osal.CAMERA_PERIOD, tick) ==> m.path.camera.CamIdle? && m.due.None?)
    && (Osal.Releases(Osal.TRANSCODER_PERIOD, tick) ==> m.path.transcoder.TransIdle? && m.transcoderTurns == 0)
    && (Osal.Releases(Osal.NVM_PERIOD, tick) ==> m.path.nvm.NvmIdle? && m.nvmTurns == 0)
  }

  /** A task begins only what it was released for. */
  predicate Released(m: Moment, a: Action) {
    match a
    case CamOffer(jpeg) => m.due == Some(jpeg)
    case TransEmptyTest => m.transcoderTurns > 0
    case NvmEmptyTest => m.nvmTurns > 0
    case _ => true
  }

  predicate Allowed(c: Config, shots: Shots, m: Moment, b: Beat) {
    match b
    case Tick => (m.tick + 1) / 2 < |shots| && Rested(m, m.tick + 1)
    case Do(a) => Enabled(c, m.path, a) && InBounds(m.path, a) && Released(m, a)
  }

  function Advance(c: Config, shots: Shots, m: Moment, b: Beat): Moment
    requires Allowed(c, shots, m, b)
  {
    match b
    case Tick => Release(shots, m, m.tick + 1)
    case Do(a) =>
      m.(path := Apply(c, m.path, a),
         due := if a.CamOffer? then None else m.due,
         transcoderTurns := if a.TransEmptyTest? then m.transcoderTurns - 1 else m.transcoderTurns,
         nvmTurns := if a.NvmEmptyTest? then m.nvmTurns - 1 else m.nvmTurns)
  }

  /** Tick 0 stands for the creation of the tasks, each of which makes a pass before it first waits. */
  function Start(c: Config, shots: Shots): Moment
    requires 0 < |shots|
  {
    Release(shots, Moment(Init(c), 0, None, 0, 0), 0)
  }

  /** A timed run: ticks and micro-steps in any order that the deadlines allow. */
  ghost predicate IsTimedRun(c: Config, shots: Shots, moments: seq<Moment>, beats: seq<Beat>) {
    && 0 < |shots| && |moments| == |beats| + 1
    && moments[0] == Start(c, shots)
    && forall i :: 0 <= i < |beats| ==> IsBeat(c, shots, moments[i], beats[i], moments[i + 1])
  }

  ghost predicate IsBeat(c: Config, shots: Shots, m: Moment, b: Beat, m': Moment) {
    Allowed(c, shots, m, b) && m' == Advance(c, shots, m, b)
  }

  /** The deadlines, in numbers: nothing but a task released every second tick, the camera, or every sixth,
      the others, holds up a tick; at a tick each task gets what it is released for, and nothing else. */
  lemma TicksInNumbers(c: Config, shots: Shots, m: Moment)
    ensures Allowed(c, shots, m, Tick) <==>
            && (m.tick + 1) / 2 < |shots|
            && ((m.tick + 1) % 2 == 0 ==> m.path.camera.CamIdle? && m.due.None?)
            && ((m.tick + 1) % 6 == 0 ==>
                  && m.path.transcoder.TransIdle? && m.transcoderTurns == 0
                  && m.path.nvm.NvmIdle? && m.nvmTurns == 0)
    ensures Allowed(c, shots, m, Tick) ==>
              var m' := Advance(c, shots, m, Tick);
              && m'.path == m.path && m'.tick == m.tick + 1
              && m'.due == (if (m.tick + 1) % 2 == 0 then shots[(m.tick + 1) / 2] else m.due)
              && m'.transcoderTurns == (if (m.tick + 1) % 6 == 0 then 2 else m.transcoderTurns)
              && m'.nvmTurns == (if (m.tick + 1) % 6 == 0 then 2 else m.nvmTurns)
  {
    hide Osal.Releases;
    Osal.ConfiguredReleases(m.tick + 1);
  }

  /** Between ticks a task may take any step its code is ready for, at any moment, except that it begins only
      what it was released for. */
  lemma StepsAreFree(c: Config, shots: Shots, m: Moment, a: Action)
    requires Enabled(c, m.path, a) && InBounds(m.path, a)
    ensures Allowed(c, shots, m, Do(a)) <==>
            && (a.CamOffer? ==> m.due == Some(a.jpeg))
            && (a.TransEmptyTest? ==> m.transcoderTurns > 0)
            && (a.NvmEmptyTest? ==> m.nvmTurns > 0)
  {
  }

  // ---------- the frame path in numbers ----------

  /** How many frames have come how far, and which tasks are at work; `converting` is a transcoder whose
      frame is not yet in the image ring. */
  datatype Load = Load(
    offered: nat, rawDrops: nat, freed: nat, imageDrops: nat, queued: nat, sent: nat,
    capturing: bool, transcoding: bool, converting: bool, sending: bool)

  function LoadOf(s: State): Load {
    Load(|s.offered|, s.rawDrops, s.freed, s.imageDrops, |s.queued|, |s.sent|,
         !s.camera.CamIdle?, !s.transcoder.TransIdle?,
         s.transcoder.TransRead? || s.transcoder.TransTest? || s.transcoder.TransWrite?, !s.nvm.NvmIdle?)
  }

  function One(b: bool): nat {
    if b then 1 else 0
  }

  /** How many slots of each ring are taken. */
  function RawLen(l: Load): int {
    l.offered - l.rawDrops - One(l.capturing) - l.freed
  }

  function ImageLen(l: Load): int {
    l.queued - l.sent
  }

  predicate LoadOk(l: Load) {
    && RawLen(l) >= 0 && ImageLen(l) >= 0 && (l.converting ==> l.transcoding)
    && l.queued + l.imageDrops == l.freed + One(l.transcoding) - One(l.converting)
  }

  function NextLoad(l: Load, a: Action, rawRoom: int, imageRoom: int): Load {
    match a
    case CamOffer(jpeg) => l.(offered := l.offered + 1, capturing := true)
    case CamFullTest => if RawLen(l) == rawRoom then l.(rawDrops := l.rawDrops + 1, capturing := false) else l
    case CamPublish => l.(capturing := false)
    case TransEmptyTest => if RawLen(l) == 0 then l else l.(transcoding := true, converting := true)
    case TransFullTest => if ImageLen(l) == imageRoom then l.(imageDrops := l.imageDrops + 1, converting := false) else l
    case TransPublish => l.(queued := l.queued + 1, converting := false)
    case TransReleaseSlot => l.(freed := l.freed + 1, transcoding := false)
    case NvmEmptyTest => if ImageLen(l) == 0 then l else l.(sending := true)
    case NvmReleaseSlot => l.(sent := l.sent + 1, sending := false)
    case _ => l
  }

  /** Which task has to be where for the step. */
  predicate AtWork(l: Load, a: Action) {
    match a
    case CamOffer(_) => !l.capturing
    case CamFullTest => l.capturing
    case CamPublish => l.capturing
    case TransEmptyTest => !l.transcoding
    case TransFullTest => l.converting
    case TransPublish => l.converting
    case TransReleaseSlot => l.transcoding && !l.converting
    case NvmEmptyTest => !l.sending
    case NvmReleaseSlot => l.sending
    case _ => true
  }

  lemma LoadIsOk(c: Config, s: State)
    requires Inv(c, s)
    ensures LoadOk(LoadOf(s)) && RawLen(LoadOf(s)) == |RawQueue(s)| == |Contents(s.raw)|
    ensures ImageLen(LoadOf(s)) == |ImageQueue(s)| == |Contents(s.image)|
  {
    hide Parse, Flatten, Seen, Subsequence, NoMarker, MarkerAt, IsJpeg, IsBlock, Contents;
  }

  lemma StepLoad(c: Config, s: State, a: Action)
    requires Inv(c, s) && Enabled(c, s, a) && InBounds(s, a)
    ensures LoadOf(Apply(c, s, a)) == NextLoad(LoadOf(s), a, c.rawSize - 1, c.imageSize - 1)
    ensures AtWork(LoadOf(s), a)
  {
    hide Parse, Flatten, Seen, Feed, Subsequence, Contents, NoMarker, MarkerAt, IsJpeg, IsBlock, Distance, IsPow2;
    hide Holds, Clean, IsFull;
    LengthsAgree(c, s);
    LoadIsOk(c, s);
    EmptyAndFull(s.raw);
    EmptyAndFull(s.image);
  }

  // ---------- what the deadlines keep ----------

  /** The frames offered and the frame still due are those of the passes released so far. */
  ghost predicate Recorded(c: Config, shots: Shots, m: Moment) {
    && Inv(c, m.path) && m.tick / 2 < |shots|
    && m.path.offered + Shown(m.due) == Polled(shots, m.tick / 2 + 1)
    && (m.due.Some? ==> m.path.camera.CamIdle?)
  }

  /** Whatever arrives: the image ring holds no more than the turns still ahead of nvm and those behind the
      transcoder account for, and at most two frames when a hyperperiod begins. */
  predicate ImageBound(l: Load, tt: nat, nt: nat) {
    && LoadOk(l)
    && tt + One(l.transcoding) <= 2 && nt + One(l.sending) <= 2
    && ImageLen(l) <= nt + One(l.sending) + 2 - tt - One(l.converting)
  }

  /** Within a hyperperiod that began with at most `worst` frames in the raw ring, after `base` frames in
      all: the transcoder has taken one of the waiting frames at every turn it has ended. */
  predicate RawBound(l: Load, tt: nat, worst: nat, base: nat) {
    && l.rawDrops == 0
    && l.offered >= base + One(l.capturing)
    && base - l.freed <= Max(worst - (2 - tt - One(l.transcoding)), 0)
  }

  lemma ImageStep(l: Load, a: Action, tt: nat, nt: nat, rawRoom: int, imageRoom: int)
    requires ImageBound(l, tt, nt) && AtWork(l, a)
    requires (a.TransEmptyTest? ==> tt > 0) && (a.NvmEmptyTest? ==> nt > 0)
    requires LoadOk(NextLoad(l, a, rawRoom, imageRoom))
    ensures var l' := NextLoad(l, a, rawRoom, imageRoom);
            && ImageBound(l', if a.TransEmptyTest? then tt - 1 else tt, if a.NvmEmptyTest? then nt - 1 else nt)
            && (imageRoom >= 4 ==> l'.imageDrops == l.imageDrops)
  {
  }

  lemma RawStep(l: Load, a: Action, tt: nat, nt: nat, worst: nat, base: nat, rawRoom: int, imageRoom: int)
    requires ImageBound(l, tt, nt) && RawBound(l, tt, worst, base) && AtWork(l, a)
    requires a.TransEmptyTest? ==> tt > 0
    requires a.CamFullTest? ==> RawLen(l) < rawRoom
    ensures RawBound(NextLoad(l, a, rawRoom, imageRoom), if a.TransEmptyTest? then tt - 1 else tt, worst, base)
  {
  }

  /** Holds at every moment of every timed run. */
  ghost predicate Steady(c: Config, shots: Shots, m: Moment) {
    && Recorded(c, shots, m)
    && ImageBound(LoadOf(m.path), m.transcoderTurns, m.nvmTurns)
    && (c.imageSize >= 5 ==> m.path.imageDrops == 0)
  }

  /** And no hyperperiod has left more behind than the worst timing leaves. */
  ghost predicate InTime(c: Config, shots: Shots, m: Moment) {
    && Steady(c, shots, m)
    && RawBound(LoadOf(m.path), m.transcoderTurns, Worst(shots, m.tick / 6), Total(shots, 0, m.tick / 6))
  }

  lemma HyperperiodOf(tick: nat)
    ensures var g := tick / 6; 3 * g <= tick / 2 <= 3 * g + 2
    ensures (tick + 1) / 6 == if (tick + 1) % 6 == 0 then tick / 6 + 1 else tick / 6
    ensures (tick + 1) / 2 == if (tick + 1) % 2 == 0 then tick / 2 + 1 else tick / 2
    ensures (tick + 1) % 6 == 0 ==> (tick + 1) % 2 == 0 && tick / 2 + 1 == 3 * (tick / 6 + 1)
  {
  }

  /** The frames offered by now are at most those of the hyperperiods up to the present one. */
  lemma OfferedSoFar(c: Config, shots: Shots, m: Moment)
    requires Recorded(c, shots, m) && PASSES * (m.tick / 6 + 1) <= |shots|
    ensures |m.path.offered| <= Total(shots, 0, m.tick / 6) + Arrivals(shots, m.tick / 6)
  {
    hide Inv, Polled, Total, Arrivals, Shown;
    HyperperiodOf(m.tick);
    var g := m.tick / 6;
    PolledGrows(shots, m.tick / 2 + 1, 3 * (g + 1));
    PolledCount(shots, g + 1);
    TotalNext(shots, g);
  }

  lemma DoKeepsRecord(c: Config, shots: Shots, m: Moment, a: Action)
    requires Recorded(c, shots, m) && Allowed(c, shots, m, Do(a))
    ensures Recorded(c, shots, Advance(c, shots, m, Do(a)))
  {
    hide Inv;
    StepKeepsInv(c, m.path, a);
    var m' := Advance(c, shots, m, Do(a));
    if a.CamOffer? {
      assert m'.path.offered + Shown(None) == m.path.offered + Shown(m.due);
    }
  }

  lemma DoSteady(c: Config, shots: Shots, m: Moment, a: Action)
    requires Steady(c, shots, m) && Allowed(c, shots, m, Do(a))
    ensures Steady(c, shots, Advance(c, shots, m, Do(a)))
  {
    hide Inv, Apply, Enabled, InBounds, LoadOf, NextLoad, ImageBound, LoadOk, AtWork, Recorded;
    InvOf(c, shots, m);
    DoKeepsRecord(c, shots, m, a);
    StepLoad(c, m.path, a);
    StepKeepsInv(c, m.path, a);
    LoadIsOk(c, Apply(c, m.path, a));
    ImageStep(LoadOf(m.path), a, m.transcoderTurns, m.nvmTurns, c.rawSize - 1, c.imageSize - 1);
    LoadNames(m.path);
    LoadNames(Apply(c, m.path, a));
  }

  lemma DoInTime(c: Config, shots: Shots, m: Moment, a: Action, h: nat)
    requires |shots| == PASSES * h && PeaksFit(shots, c.rawSize - 1, h)
    requires InTime(c, shots, m) && Allowed(c, shots, m, Do(a))
    ensures InTime(c, shots, Advance(c, shots, m, Do(a)))
  {
    hide Inv, Apply, Enabled, InBounds, PeaksFit, LoadOf, NextLoad, RawBound, ImageBound, AtWork, Recorded, Worst, Total;
    InvOf(c, shots, m);
    DoSteady(c, shots, m, a);
    StepLoad(c, m.path, a);
    HyperperiodOf(m.tick);
    var g := m.tick / 6;
    if a.CamFullTest? {
      FindsRoom(c, shots, m, h);
    }
    RawStep(LoadOf(m.path), a, m.transcoderTurns, m.nvmTurns, Worst(shots, g), Total(shots, 0, g), c.rawSize - 1, c.imageSize - 1);
  }

  lemma InvOf(c: Config, shots: Shots, m: Moment)
    requires Recorded(c, shots, m)
    ensures Inv(c, m.path) && m.tick / 2 < |shots|
  {
  }

  /** A frame in the camera's hands finds room. */
  lemma FindsRoom(c: Config, shots: Shots, m: Moment, h: nat)
    requires |shots| == PASSES * h && PeaksFit(shots, c.rawSize - 1, h)
    requires InTime(c, shots, m) && Allowed(c, shots, m, Do(CamFullTest))
    ensures RawLen(LoadOf(m.path)) < c.rawSize - 1
  {
    hide Inv, PeaksFit, Worst, Total, Arrivals;
    HyperperiodOf(m.tick);
    OfferedSoFar(c, shots, m);
    RoomAtPeak(shots, c.rawSize - 1, h, m.tick / 6);
  }

  lemma LoadNames(s: State)
    ensures LoadOf(s).offered == |s.offered| && LoadOf(s).imageDrops == s.imageDrops && LoadOf(s).rawDrops == s.rawDrops
    ensures LoadOf(s).sent == |s.sent| && LoadOf(s).queued == |s.queued| && LoadOf(s).freed == s.freed
    ensures LoadOf(s).capturing == !s.camera.CamIdle? && LoadOf(s).transcoding == !s.transcoder.TransIdle?
    ensures LoadOf(s).sending == !s.nvm.NvmIdle?
  {
  }

  lemma RoomAtPeak(shots: Shots, room: int, h: nat, g: nat)
    requires PASSES * h <= |shots| && PeaksFit(shots, room, h) && g < h
    ensures Worst(shots, g) + Arrivals(shots, g) <= room
  {
  }

  lemma TickKeepsRecord(c: Config, shots: Shots, m: Moment)
    requires Recorded(c, shots, m) && Allowed(c, shots, m, Tick)
    ensures Recorded(c, shots, Advance(c, shots, m, Tick))
  {
    hide Inv;
    HyperperiodOf(m.tick);
    Osal.ConfiguredReleases(m.tick + 1);
    if (m.tick + 1) % 2 == 0 {
      assert m.path.offered + [] == m.path.offered;
    }
  }

  lemma TickSteady(c: Config, shots: Shots, m: Moment)
    requires Steady(c, shots, m) && Allowed(c, shots, m, Tick)
    ensures Steady(c, shots, Advance(c, shots, m, Tick))
  {
    hide Inv, LoadOf, Recorded, Osal.Releases;
    TickKeepsRecord(c, shots, m);
    HyperperiodOf(m.tick);
    Osal.ConfiguredReleases(m.tick + 1);
    LoadNames(m.path);
  }

  lemma TickInTime(c: Config, shots: Shots, m: Moment)
    requires InTime(c, shots, m) && Allowed(c, shots, m, Tick)
    ensures InTime(c, shots, Advance(c, shots, m, Tick))
  {
    hide Inv, LoadOf, Polled, Arrivals, Shown, Osal.Releases, Total;
    TickSteady(c, shots, m);
    HyperperiodOf(m.tick);
    Osal.ConfiguredReleases(m.tick + 1);
    LoadNames(m.path);
    if (m.tick + 1) % 6 == 0 {
      var g := m.tick / 6;
      PolledCount(shots, g + 1);
      TotalNext(shots, g);
      NothingShown(m.path.offered);
    }
  }

  lemma NothingShown(offered: seq<seq<byte>>)
    ensures offered + Shown(None) == offered
  {
  }

  lemma StartInTime(c: Config, shots: Shots)
    requires ValidConfig(c) && 0 < |shots|
    ensures Steady(c, shots, Start(c, shots)) && InTime(c, shots, Start(c, shots))
  {
    hide Inv;
    InitInv(c);
    Osal.ConfiguredReleases(0);
    var m := Start(c, shots);
    assert m.path.offered + Shown(m.due) == Shown(shots[0]);
    assert Polled(shots, 1) == Polled(shots, 0) + Shown(shots[0]) == Shown(shots[0]);
    LoadIsOk(c, Init(c));
  }

  lemma {:induction false} RunIsSteady(c: Config, shots: Shots, moments: seq<Moment>, beats: seq<Beat>, n: nat)
    requires ValidConfig(c) && IsTimedRun(c, shots, moments, beats) && n < |moments|
    ensures Steady(c, shots, moments[n])
  {
    hide Steady, Allowed, Advance, Start;
    if n == 0 {
      StartInTime(c, shots);
    } else {
      RunIsSteady(c, shots, moments, beats, n - 1);
      assert IsBeat(c, shots, moments[n - 1], beats[n - 1], moments[n - 1 + 1]);
      match beats[n - 1]
      case Tick => TickSteady(c, shots, moments[n - 1]);
      case Do(a) => DoSteady(c, shots, moments[n - 1], a);
    }
  }

  /** In every timed run whose peaks fit the raw ring, at every moment. */
  lemma {:induction false} RunInTime(c: Config, shots: Shots, h: nat, moments: seq<Moment>, beats: seq<Beat>, n: nat)
    requires ValidConfig(c) && |shots| == PASSES * h && PeaksFit(shots, c.rawSize - 1, h)
    requires IsTimedRun(c, shots, moments, beats) && n < |moments|
    ensures InTime(c, shots, moments[n])
  {
    hide InTime, Allowed, Advance, Start, PeaksFit;
    if n == 0 {
      StartInTime(c, shots);
    } else {
      RunInTime(c, shots, h, moments, beats, n - 1);
      assert IsBeat(c, shots, moments[n - 1], beats[n - 1], moments[n - 1 + 1]);
      match beats[n - 1]
      case Tick => TickInTime(c, shots, moments[n - 1]);
      case Do(a) => DoInTime(c, shots, moments[n - 1], a, h);
    }
  }
}
