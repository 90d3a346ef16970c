/**
 * Timed runs that exist: at every rate a run in which every task meets its deadlines, and beyond the exact
 * rate one in which the raw ring drops a frame.
 */
module ScheduledRuns {
  import opened Types
  import opened RingBuffers
  import opened StreamViewer
  import opened Pipeline
  import opened PipelineProofs
  import opened PipelinePasses
  import opened FrameRates
  import opened TimedPipeline
  import opened ScheduledPipeline
  import Osal
  import PipelineTheorems

  ghost predicate ShotOk(c: Config, shot: Option<seq<byte>>) {
    shot.Some? ==> IsJpeg(shot.value) && |shot.value| <= c.frameSize
  }

  ghost predicate ShotsOk(c: Config, shots: Shots) {
    forall i :: 0 <= i < |shots| ==> ShotOk(c, shots[i])
  }

  // ---------- going on with a run ----------

  /** A timed run in which no datagram is lost ends here. */
  ghost predicate Reached(c: Config, shots: Shots, m: Moment) {
    exists moments: seq<Moment>, beats: seq<Beat> :: EndsAt(c, shots, moments, beats, m)
  }

  ghost predicate EndsAt(c: Config, shots: Shots, moments: seq<Moment>, beats: seq<Beat>, m: Moment) {
    IsTimedRun(c, shots, moments, beats) && moments[|beats|] == m && ReliableBeats(beats)
  }

  lemma ReachedOn(c: Config, shots: Shots, m: Moment, b: Beat)
    requires Reached(c, shots, m) && Allowed(c, shots, m, b) && (b.Do? ==> Reliable(b.action))
    ensures Reached(c, shots, Advance(c, shots, m, b))
  {
    hide Allowed, Advance, Start, Reliable;
    var moments: seq<Moment>, beats: seq<Beat> :| EndsAt(c, shots, moments, beats, m);
    var m' := Advance(c, shots, m, b);
    var moments', beats' := moments + [m'], beats + [b];
    forall i | 0 <= i < |beats'| ensures IsBeat(c, shots, moments'[i], beats'[i], moments'[i + 1]) {
      if i < |beats| {
        assert IsBeat(c, shots, moments[i], beats[i], moments[i + 1]);
      }
    }
    assert EndsAt(c, shots, moments', beats', m');
  }

  /** What a task's pass takes from its release. */
  function Taken(m: Moment, first: Action): Moment
    requires Released(m, first)
  {
    m.(due := if first.CamOffer? then None else m.due,
       transcoderTurns := if first.TransEmptyTest? then m.transcoderTurns - 1 else m.transcoderTurns,
       nvmTurns := if first.NvmEmptyTest? then m.nvmTurns - 1 else m.nvmTurns)
  }

  lemma {:induction false} PassReached(c: Config, shots: Shots, m: Moment, first: Action, actions: seq<Action>, s': State)
    requires Reached(c, shots, m) && Released(m, first)
    requires Leads(c, m.path, actions, s') && OnePass(first, actions) && AllReliable(actions)
    ensures Reached(c, shots, Taken(m, first).(path := s'))
    decreases |actions|
  {
    hide Reached, Enabled, Apply, InBounds, Reliable;
    var n := |actions| - 1;
    var p: State :| Leads(c, m.path, actions[..n], p) && IsStep(c, p, actions[n], s');
    if n == 0 {
      assert p == m.path;
      ReachedOn(c, shots, m, Do(first));
    } else {
      assert OnePass(first, actions[..n]);
      PassReached(c, shots, m, first, actions[..n], p);
      ReachedOn(c, shots, Taken(m, first).(path := p), Do(actions[n]));
    }
  }

  // ---------- one task's pass ----------

  ghost predicate AllIdle(s: State) {
    s.camera.CamIdle? && s.transcoder.TransIdle? && s.nvm.NvmIdle?
  }

  /** A run ends here with every task between passes. */
  ghost predicate Calm(c: Config, shots: Shots, m: Moment) {
    Reached(c, shots, m) && Inv(c, m.path) && AllIdle(m.path)
  }

  ghost function Waiting(s: State): nat
    requires InRange(s.raw)
  {
    |Contents(s.raw)|
  }

  lemma CameraTurn(c: Config, shots: Shots, m: Moment) returns (m': Moment)
    requires Calm(c, shots, m) && ShotOk(c, m.due)
    ensures Calm(c, shots, m') && m' == m.(path := m'.path, due := None)
    ensures var full := Waiting(m.path) == c.rawSize - 1;
            && Waiting(m'.path) == Waiting(m.path) + (if m.due.Some? && !full then 1 else 0)
            && m'.path.rawDrops == m.path.rawDrops + (if m.due.Some? && full then 1 else 0)
  {
    hide Reached, Inv, Leads, IsJpeg, OnePass, Contents;
    m' := m;
    if m.due.Some? {
      var jpeg := m.due.value;
      var actions := CameraPass(c, m.path, jpeg);
      CameraIsReliable(jpeg, actions);
      PassReached(c, shots, m, CamOffer(jpeg), actions, AfterCapture(c, m.path, jpeg));
      m' := m.(path := AfterCapture(c, m.path, jpeg), due := None);
      CaptureLoad(c, m.path, jpeg);
    }
  }

  lemma CameraIsReliable(jpeg: seq<byte>, actions: seq<Action>)
    requires OnePass(CamOffer(jpeg), actions)
    ensures AllReliable(actions)
  {
  }

  lemma CaptureLoad(c: Config, s: State, jpeg: seq<byte>)
    requires Inv(c, s) && s.camera.CamIdle? && |jpeg| <= c.frameSize && Inv(c, AfterCapture(c, s, jpeg))
    ensures var s', full := AfterCapture(c, s, jpeg), Waiting(s) == c.rawSize - 1;
            && Waiting(s') == Waiting(s) + (if full then 0 else 1)
            && s'.rawDrops == s.rawDrops + (if full then 1 else 0)
            && s' == s.(raw := s'.raw, offered := s'.offered, rawDrops := s'.rawDrops, stored := s'.stored)
  {
    hide Contents, Distance, IsPow2, FrameBuffers.Capture;
    LoadIsOk(c, s);
    LoadIsOk(c, AfterCapture(c, s, jpeg));
    EmptyAndFull(s.raw);
  }

  lemma TranscoderTurn(c: Config, shots: Shots, m: Moment) returns (m': Moment)
    requires Calm(c, shots, m) && m.transcoderTurns > 0
    ensures Calm(c, shots, m') && m' == m.(path := m'.path, transcoderTurns := m.transcoderTurns - 1)
    ensures Waiting(m'.path) == Max(Waiting(m.path) - 1, 0) && m'.path.rawDrops == m.path.rawDrops
  {
    hide Reached, Inv, Leads, OnePass, Contents, AfterProcess;
    var actions := TranscoderPass(c, m.path);
    TranscoderIsReliable(actions);
    PassReached(c, shots, m, TransEmptyTest, actions, AfterProcess(c, m.path));
    m' := m.(path := AfterProcess(c, m.path), transcoderTurns := m.transcoderTurns - 1);
    ProcessLoad(c, m.path);
  }

  lemma TranscoderIsReliable(actions: seq<Action>)
    requires OnePass(TransEmptyTest, actions)
    ensures AllReliable(actions)
  {
  }

  lemma ProcessLoad(c: Config, s: State)
    requires Inv(c, s) && s.transcoder.TransIdle? && Inv(c, AfterProcess(c, s))
    ensures var s' := AfterProcess(c, s);
            && Waiting(s') == Max(Waiting(s) - 1, 0) && s'.rawDrops == s.rawDrops
            && s'.camera == s.camera && s'.transcoder == s.transcoder && s'.nvm == s.nvm
  {
    hide Contents, Distance, IsPow2;
    LoadIsOk(c, s);
    LoadIsOk(c, AfterProcess(c, s));
    EmptyAndFull(s.raw);
  }

  lemma NvmTurn(c: Config, shots: Shots, m: Moment) returns (m': Moment)
    requires Calm(c, shots, m) && m.nvmTurns > 0
    ensures Calm(c, shots, m') && m' == m.(path := m'.path, nvmTurns := m.nvmTurns - 1)
    ensures Waiting(m'.path) == Waiting(m.path) && m'.path.rawDrops == m.path.rawDrops
  {
    hide Reached, Inv, Leads, OnePass, Flatten;
    if IsEmpty(m.path.image) {
      assert Allowed(c, shots, m, Do(NvmEmptyTest)) by {
        InvInBounds(c, m.path, NvmEmptyTest);
      }
      ReachedOn(c, shots, m, Do(NvmEmptyTest));
      m' := m.(nvmTurns := m.nvmTurns - 1);
    } else {
      SlotFacts(c, m.path);
      ChunkFits(c, m.path);
      var block := m.path.image.data[m.path.image.readPtr];
      Singles(block);
      var ds := seq(|block|, i requires 0 <= i < |block| => Datagram([block[i]], true));
      assert Handed(ds) == Bytes(block);
      var actions := NvmPass(c, m.path, ds);
      PassReached(c, shots, m, NvmEmptyTest, actions, AfterSend(c, m.path, ds));
      m' := m.(path := AfterSend(c, m.path, ds), nvmTurns := m.nvmTurns - 1);
    }
  }

  lemma ChunkFits(c: Config, s: State)
    requires Inv(c, s)
    ensures c.chunk >= 1
  {
  }

  /** One way of cutting a slot: a datagram for every byte. */
  function Bytes(block: seq<byte>): seq<seq<byte>> {
    seq(|block|, i requires 0 <= i < |block| => [block[i]])
  }

  lemma {:induction false} Singles(block: seq<byte>)
    ensures Flatten(Bytes(block)) == block
    decreases |block|
  {
    if block == [] {
    } else {
      Singles(block[1..]);
      assert Bytes(block) == [[block[0]]] + Bytes(block[1..]);
      FlattenCons([block[0]], Bytes(block[1..]));
    }
  }

  lemma TickTurn(c: Config, shots: Shots, m: Moment) returns (m': Moment)
    requires Calm(c, shots, m) && (m.tick + 1) / 2 < |shots| && Rested(m, m.tick + 1)
    ensures Calm(c, shots, m') && m' == Release(shots, m, m.tick + 1)
  {
    ReachedOn(c, shots, m, Tick);
    m' := Release(shots, m, m.tick + 1);
  }

  // ---------- hyperperiods of two timings ----------

  lemma Phases(k: nat)
    ensures 2 * k / 2 == k && (2 * k + 1) / 2 == k && (2 * k + 2) / 2 == k + 1
    ensures (2 * k + 1) % 2 == 1 && (2 * k + 1) % 6 != 0 && (2 * k + 2) % 2 == 0
    ensures (2 * k + 2) % 6 == 0 <==> k % 3 == 2
  {
  }

  /** An odd tick releases nothing here. */
  lemma QuietTick(shots: Shots, m: Moment, k: nat)
    requires m.tick == 2 * k && k < |shots|
    ensures (m.tick + 1) / 2 == k && Rested(m, m.tick + 1)
    ensures Release(shots, m, m.tick + 1) == m.(tick := m.tick + 1)
  {
    hide Osal.Releases;
    Phases(k);
    Osal.ConfiguredReleases(m.tick + 1);
  }

  /** An even one the camera, and every third time the others. */
  lemma CameraTick(shots: Shots, m: Moment, k: nat)
    requires m.tick == 2 * k + 1 && k + 1 < |shots| && AllIdle(m.path) && m.due.None?
    requires k % 3 == 2 ==> m.transcoderTurns == 0 && m.nvmTurns == 0
    ensures (m.tick + 1) / 2 == k + 1 && Rested(m, m.tick + 1)
    ensures var n := if k % 3 == 2 then m.(transcoderTurns := 2, nvmTurns := 2) else m;
            Release(shots, m, m.tick + 1) == n.(tick := m.tick + 1, due := shots[k + 1])
  {
    hide Osal.Releases;
    Phases(k);
    Osal.ConfiguredReleases(m.tick + 1);
  }

  /** From pass k of the camera to the next, two ticks on. */
  lemma TwoTicks(c: Config, shots: Shots, m: Moment, k: nat) returns (m': Moment)
    requires Calm(c, shots, m) && m.tick == 2 * k && k + 1 < |shots| && m.due.None?
    requires k % 3 == 2 ==> m.transcoderTurns == 0 && m.nvmTurns == 0
    ensures Calm(c, shots, m')
    ensures var n := if k % 3 == 2 then m.(transcoderTurns := 2, nvmTurns := 2) else m;
            m' == n.(tick := m.tick + 2, due := shots[k + 1])
  {
    hide Calm, Release, Rested;
    QuietTick(shots, m, k);
    m' := TickTurn(c, shots, m);
    CalmIsIdle(c, shots, m');
    CameraTick(shots, m', k);
    m' := TickTurn(c, shots, m');
  }

  lemma CalmIsIdle(c: Config, shots: Shots, m: Moment)
    requires Calm(c, shots, m)
    ensures Inv(c, m.path) && AllIdle(m.path) && InRange(m.path.raw)
  {
  }

  /** The three passes of the camera in a hyperperiod, with nobody else at work. */
  lemma ThreeShots(c: Config, shots: Shots, m: Moment, g: nat) returns (m': Moment)
    requires Calm(c, shots, m) && ShotsOk(c, shots) && PASSES * (g + 1) <= |shots|
    requires m.tick == 6 * g && m.due == shots[3 * g]
    ensures Calm(c, shots, m') && m' == m.(path := m'.path, tick := 6 * g + 4, due := None)
    ensures m'.path.rawDrops >= m.path.rawDrops
    ensures Waiting(m.path) + Arrivals(shots, g) > c.rawSize - 1 ==> m'.path.rawDrops > 0
    ensures m'.path.rawDrops > 0 || Waiting(m'.path) == Waiting(m.path) + Arrivals(shots, g)
  {
    hide Calm, Waiting, ShotOk;
    m' := CameraTurn(c, shots, m);
    m' := TwoTicks(c, shots, m', 3 * g);
    m' := CameraTurn(c, shots, m');
    m' := TwoTicks(c, shots, m', 3 * g + 1);
    m' := CameraTurn(c, shots, m');
    LessThanSize(c, shots, m');
  }

  lemma LessThanSize(c: Config, shots: Shots, m: Moment)
    requires Calm(c, shots, m)
    ensures InRange(m.path.raw) && Waiting(m.path) <= c.rawSize - 1
  {
    LoadIsOk(c, m.path);
    PipelineTheorems.LengthsAgree(c, m.path);
  }

  /** A hyperperiod begins here, and the timing so far has been the worst. */
  ghost predicate AtWorst(c: Config, shots: Shots, g: nat, m: Moment)
    requires PASSES * g <= |shots|
  {
    && Calm(c, shots, m) && m.tick == 6 * g && m.transcoderTurns == 2 && m.nvmTurns == 2
    && (m.path.rawDrops > 0 || Waiting(m.path) == Worst(shots, g))
  }

  /** The timing that leaves the most behind: transcoder and nvm run before the frames come. */
  lemma EarlyHyperperiod(c: Config, shots: Shots, m: Moment, g: nat) returns (m': Moment)
    requires ShotsOk(c, shots) && PASSES * (g + 1) <= |shots|
    requires AtWorst(c, shots, g, m) && m.due == shots[3 * g]
    ensures Calm(c, shots, m') && m'.tick == 6 * g + 4
    ensures m'.due.None? && m'.transcoderTurns == 0 && m'.nvmTurns == 0
    ensures m'.path.rawDrops > 0 || Waiting(m'.path) == Worst(shots, g + 1)
  {
    hide Calm, Waiting;
    m' := TranscoderTurn(c, shots, m);
    m' := TranscoderTurn(c, shots, m');
    m' := NvmTurn(c, shots, m') by { CalmIsIdle(c, shots, m'); }
    m' := NvmTurn(c, shots, m');
    m' := ThreeShots(c, shots, m', g);
  }

  lemma {:induction false} WorstTiming(c: Config, shots: Shots, g: nat) returns (m: Moment)
    requires ValidConfig(c) && ShotsOk(c, shots) && PASSES * g < |shots|
    ensures AtWorst(c, shots, g, m) && m.due == shots[3 * g]
  {
    hide Calm, Waiting, Start, Worst;
    if g == 0 {
      m := Start(c, shots);
      AtStart(c, shots);
    } else {
      m := WorstTiming(c, shots, g - 1);
      m := EarlyHyperperiod(c, shots, m, g - 1);
      m := TwoTicks(c, shots, m, 3 * (g - 1) + 2);
    }
  }

  lemma AtStart(c: Config, shots: Shots)
    requires ValidConfig(c) && 0 < |shots|
    ensures AtWorst(c, shots, 0, Start(c, shots)) && Start(c, shots).due == shots[0]
  {
    hide Init, Waiting, Inv, AllIdle, Osal.Releases;
    var m := Start(c, shots);
    Osal.ConfiguredReleases(0);
    InitWaits(c);
    assert EndsAt(c, shots, [m], [], m);
  }

  lemma InitWaits(c: Config)
    requires ValidConfig(c)
    ensures Inv(c, Init(c)) && AllIdle(Init(c)) && InRange(Init(c).raw) && Waiting(Init(c)) == 0 && Init(c).rawDrops == 0
  {
    hide Contents;
    InitInv(c);
    LoadIsOk(c, Init(c));
  }

  // ---------- the theorems ----------

  /** The deadlines can be met at any rate: there is a timed run, without loss, whose tasks rest after the
      last of h hyperperiods, and which, unless it drops a frame, leaves as much behind as any run can. */
  lemma DeadlinesCanBeMet(c: Config, shots: Shots, h: nat) returns (moments: seq<Moment>, beats: seq<Beat>)
    requires ValidConfig(c) && ShotsOk(c, shots) && |shots| == PASSES * h && h > 0
    ensures IsTimedRun(c, shots, moments, beats) && ReliableBeats(beats)
    ensures var m := moments[|beats|];
            && m.tick == 6 * h - 1 && AtRest(m)
            && InRange(m.path.raw) && (m.path.rawDrops > 0 || Waiting(m.path) == Worst(shots, h))
  {
    hide Calm, Waiting, AtWorst, IsTimedRun, ReliableBeats, Osal.Releases;
    var m := WorstTiming(c, shots, h - 1);
    m := EarlyHyperperiod(c, shots, m, h - 1);
    m := LastTick(c, shots, m, h);
    CalmIsReached(c, shots, m);
    CalmIsIdle(c, shots, m);
    moments, beats :| EndsAt(c, shots, moments, beats, m);
  }

  lemma LastTick(c: Config, shots: Shots, m: Moment, h: nat) returns (m': Moment)
    requires h > 0 && |shots| == PASSES * h && Calm(c, shots, m) && m.tick == 6 * h - 2
    requires m.due.None? && m.transcoderTurns == 0 && m.nvmTurns == 0
    ensures Calm(c, shots, m') && m'.tick == 6 * h - 1 && m'.path == m.path && AtRest(m')
  {
    hide Calm, Release, Rested;
    QuietTick(shots, m, PASSES * h - 1);
    m' := TickTurn(c, shots, m);
    CalmIsIdle(c, shots, m');
    RestsAtEnd(m', h);
  }

  lemma RestsAtEnd(m: Moment, h: nat)
    requires h > 0 && m.tick == 6 * h - 1 && AllIdle(m.path) && m.due.None? && m.transcoderTurns == 0 && m.nvmTurns == 0
    ensures AtRest(m)
  {
  }

  lemma CalmIsReached(c: Config, shots: Shots, m: Moment)
    requires Calm(c, shots, m)
    ensures Reached(c, shots, m)
  {
  }

  ghost predicate NoRawDrop(c: Config, shots: Shots) {
    forall moments: seq<Moment>, beats: seq<Beat> :: IsTimedRun(c, shots, moments, beats) ==> moments[|beats|].path.rawDrops == 0
  }

  /** The exact rate. No timed run, whatever its timing, drops a frame at the raw ring if and only if every
      m consecutive hyperperiods bring at most room + 2(m - 2) frames, and a single one at most room. */
  lemma NoDropsExactly(c: Config, shots: Shots, h: nat)
    requires ValidConfig(c) && ShotsOk(c, shots) && |shots| == PASSES * h
    ensures NoRawDrop(c, shots) <==> WindowsFit(shots, c.rawSize - 1, h)
  {
    PeaksExactly(shots, c.rawSize - 1, h);
    if PeaksFit(shots, c.rawSize - 1, h) {
      forall moments: seq<Moment>, beats: seq<Beat> | IsTimedRun(c, shots, moments, beats) ensures moments[|beats|].path.rawDrops == 0 {
        RunInTime(c, shots, h, moments, beats, |beats|);
      }
    } else {
      var g: nat :| g < h && Worst(shots, g) + Arrivals(shots, g) > c.rawSize - 1;
      DropAtPeak(c, shots, g);
    }
  }

  lemma DropAtPeak(c: Config, shots: Shots, g: nat)
    requires ValidConfig(c) && ShotsOk(c, shots) && PASSES * (g + 1) <= |shots|
    requires Worst(shots, g) + Arrivals(shots, g) > c.rawSize - 1
    ensures !NoRawDrop(c, shots)
  {
    var m := WorstTiming(c, shots, g);
    if m.path.rawDrops == 0 {
      m := ThreeShots(c, shots, m, g);
    }
    var moments: seq<Moment>, beats: seq<Beat> :| EndsAt(c, shots, moments, beats, m);
    assert moments[|beats|].path.rawDrops > 0;
  }

  /** The rings of the configured build: whatever arrives and whatever the timing, the image ring never
      drops a frame; and no timed run drops one at the raw ring if and only if every m consecutive
      hyperperiods bring at most 2m + 123 frames. */
  lemma ConfiguredRings(c: Config, shots: Shots, h: nat)
    requires ValidConfig(c) && ShotsOk(c, shots) && |shots| == PASSES * h
    requires c.rawSize == 128 && c.imageSize == 256
    ensures NoRawDrop(c, shots) <==> RateBelow(shots, 123, h)
    ensures forall moments: seq<Moment>, beats: seq<Beat> :: IsTimedRun(c, shots, moments, beats) ==> moments[|beats|].path.imageDrops == 0
  {
    hide NoRawDrop;
    NoDropsExactly(c, shots, h);
    ConfiguredRate(shots, h);
    PeaksExactly(shots, 127, h);
    forall moments: seq<Moment>, beats: seq<Beat> | IsTimedRun(c, shots, moments, beats) ensures moments[|beats|].path.imageDrops == 0 {
      RunIsSteady(c, shots, moments, beats, |beats|);
    }
  }

  /** A camera with a frame at each of its passes: no timed run of the configured build drops one if and only
      if there are no more than 123 hyperperiods. */
  lemma FullRateLastsExactly(c: Config, shots: Shots, h: nat)
    requires ValidConfig(c) && ShotsOk(c, shots) && |shots| == PASSES * h
    requires c.rawSize == 128 && forall i :: 0 <= i < |shots| ==> shots[i].Some?
    ensures NoRawDrop(c, shots) <==> h <= 123
  {
    hide NoRawDrop;
    NoDropsExactly(c, shots, h);
    PeaksExactly(shots, 127, h);
    FullRatePeaks(shots, h);
  }
}
