/**
 * One task running without interruption, as it does under SCHED_FIFO on one core: its micro-steps add
 * up to what the sequential code does to the rings in one go.
 */
module PipelinePasses {
  import opened Types
  import opened RingBuffers
  import opened StreamViewer
  import opened Pipeline
  import opened PipelineProofs
  import opened FrameBuffers
  import opened Transcoders
  import opened NvmTasks

  /** The actions, taken in turn from s, end in s'. */
  ghost predicate Leads(c: Config, s: State, actions: seq<Action>, s': State)
    decreases |actions|
  {
    if actions == [] then s' == s
    else
      var n := |actions| - 1;
      exists p: State :: Leads(c, s, actions[..n], p) && IsStep(c, p, actions[n], s')
  }

  datatype Task = CameraTask | TranscoderTask | NvmTask

  function TaskOf(a: Action): Task {
    match a
    case CamOffer(_) => CameraTask
    case CamFullTest => CameraTask
    case CamCopyByte => CameraTask
    case CamPublish => CameraTask
    case NvmEmptyTest => NvmTask
    case NvmSendto(_, _) => NvmTask
    case NvmSendFails => NvmTask
    case NvmEndTest => NvmTask
    case NvmReleaseSlot => NvmTask
    case _ => TranscoderTask
  }

  /** The step with which a task takes up a frame or looks for one. */
  predicate Begins(a: Action) {
    a.CamOffer? || a.TransEmptyTest? || a.NvmEmptyTest?
  }

  /** One task alone, from the step that begins its pass on, and no second pass. */
  predicate OnePass(first: Action, actions: seq<Action>) {
    && actions != [] && actions[0] == first
    && forall i :: 0 <= i < |actions| ==> TaskOf(actions[i]) == TaskOf(first) && (i > 0 ==> !Begins(actions[i]))
  }

  predicate AllReliable(actions: seq<Action>) {
    forall i :: 0 <= i < |actions| ==> Reliable(actions[i])
  }

  lemma LeadsOn(c: Config, s: State, first: Action, actions: seq<Action>, p: State, a: Action) returns (s': State)
    requires Leads(c, s, actions, p) && Inv(c, p) && Enabled(c, p, a)
    requires if actions == [] then a == first else OnePass(first, actions) && TaskOf(a) == TaskOf(first) && !Begins(a)
    ensures InBounds(p, a) && s' == Apply(c, p, a)
    ensures Leads(c, s, actions + [a], s') && Inv(c, s') && OnePass(first, actions + [a])
    ensures AllReliable(actions) && Reliable(a) ==> AllReliable(actions + [a])
  {
    hide Inv, Apply, Enabled, InBounds;
    InvInBounds(c, p, a);
    StepKeepsInv(c, p, a);
    s' := Apply(c, p, a);
    assert (actions + [a])[..|actions|] == actions;
    assert IsStep(c, p, a, s');
  }

  // ---------- the camera task storing one frame ----------

  /** The state after framebuffer_writeframe has run alone on a captured frame. */
  ghost function AfterCapture(c: Config, s: State, jpeg: seq<byte>): State
    requires Inv(c, s) && |jpeg| <= c.frameSize
  {
    var s1 := s.(raw := Capture(s.raw, jpeg), offered := s.offered + [jpeg]);
    if IsFull(s.raw) then s1.(rawDrops := s.rawDrops + 1) else s1.(stored := s.stored + [jpeg])
  }

  lemma CameraPass(c: Config, s: State, jpeg: seq<byte>) returns (actions: seq<Action>)
    requires Inv(c, s) && s.camera.CamIdle? && IsJpeg(jpeg) && |jpeg| <= c.frameSize
    ensures Leads(c, s, actions, AfterCapture(c, s, jpeg)) && Inv(c, AfterCapture(c, s, jpeg))
    ensures OnePass(CamOffer(jpeg), actions)
  {
    hide Inv, InBounds, IsJpeg, Leads, IsFull, Inc;
    assert s.raw.writePtr < |s.raw.data| && |s.raw.data[s.raw.writePtr]| == c.frameSize && s.raw.size > 0 by {
      SlotFacts(c, s);
    }
    LeadsNowhere(c, s);
    actions := [];
    var p := LeadsOn(c, s, CamOffer(jpeg), actions, s, CamOffer(jpeg));
    actions := actions + [CamOffer(jpeg)];
    p := LeadsOn(c, s, CamOffer(jpeg), actions, p, CamFullTest);
    actions := actions + [CamFullTest];
    if !IsFull(s.raw) {
      actions, p := CopyPayload(c, s, actions, p, jpeg);
      p := LeadsOn(c, s, CamOffer(jpeg), actions, p, CamPublish);
      actions := actions + [CamPublish];
    }
    assert p == AfterCapture(c, s, jpeg);
  }

  /** From having found room to having copied all of the payload. */
  lemma CopyPayload(c: Config, s: State, before: seq<Action>, start: State, jpeg: seq<byte>)
    returns (actions: seq<Action>, p: State)
    requires Leads(c, s, before, start) && Inv(c, start) && OnePass(CamOffer(jpeg), before)
    requires s.raw.writePtr < |s.raw.data| && |jpeg| <= |s.raw.data[s.raw.writePtr]| == c.frameSize
    requires start == s.(camera := CamCopy(jpeg, 0), offered := s.offered + [jpeg])
    ensures Leads(c, s, actions, p) && Inv(c, p) && OnePass(CamOffer(jpeg), actions)
    ensures p == s.(raw := Put(s.raw, Overlay(s.raw.data[s.raw.writePtr], jpeg)), camera := CamCopy(jpeg, |jpeg|),
                    offered := s.offered + [jpeg])
  {
    hide Inv, InBounds, Leads;
    var slot := s.raw.data[s.raw.writePtr];
    actions, p := before, start;
    var k := 0;
    assert jpeg[..0] + slot[0..] == slot && s.raw.data[s.raw.writePtr := slot] == s.raw.data;
    while k < |jpeg|
      invariant k <= |jpeg|
      invariant Leads(c, s, actions, p) && Inv(c, p) && OnePass(CamOffer(jpeg), actions)
      invariant p == s.(raw := Put(s.raw, jpeg[..k] + slot[k..]), camera := CamCopy(jpeg, k), offered := s.offered + [jpeg])
    {
      assert (jpeg[..k] + slot[k..])[k := jpeg[k]] == jpeg[..k + 1] + slot[k + 1..];
      p := LeadsOn(c, s, CamOffer(jpeg), actions, p, CamCopyByte);
      actions := actions + [CamCopyByte];
      k := k + 1;
    }
    assert jpeg[..k] == jpeg;
  }

  lemma LeadsNowhere(c: Config, s: State)
    ensures Leads(c, s, [], s)
  {
  }

  lemma SlotFacts(c: Config, s: State)
    requires Inv(c, s)
    ensures s.raw.size > 0 && s.raw.writePtr < |s.raw.data| && s.raw.readPtr < |s.raw.data|
    ensures |s.raw.data[s.raw.writePtr]| == |s.raw.data[s.raw.readPtr]| == c.frameSize >= 1
    ensures s.image.size > 0 && s.image.writePtr < |s.image.data| && s.image.readPtr < |s.image.data|
    ensures |s.image.data[s.image.writePtr]| == |s.image.data[s.image.readPtr]| == c.frameSize
    ensures !IsEmpty(s.raw) ==> s.freed < |s.stored|
    ensures !IsEmpty(s.image) ==> |s.sent| < |s.queued|
  {
    if !IsEmpty(s.raw) {
      OldestBlock(s.raw, s.stored, s.freed);
    }
    if !IsEmpty(s.image) {
      OldestBlock(s.image, s.queued, |s.sent|);
    }
  }

  // ---------- the transcoder task moving one frame ----------

  /** The state after process_frames has run alone. */
  ghost function AfterProcess(c: Config, s: State): State
    requires Inv(c, s)
  {
    SlotFacts(c, s);
    var (raw, image) := ProcessFrames(s.raw, s.image);
    var s1 := s.(raw := raw, image := image);
    if IsEmpty(s.raw) then s1
    else if IsFull(s.image) then s1.(freed := s.freed + 1, imageDrops := s.imageDrops + 1)
    else s1.(freed := s.freed + 1, queued := s.queued + [s.stored[s.freed]])
  }

  lemma TranscoderPass(c: Config, s: State) returns (actions: seq<Action>)
    requires Inv(c, s) && s.transcoder.TransIdle?
    ensures Leads(c, s, actions, AfterProcess(c, s)) && Inv(c, AfterProcess(c, s))
    ensures OnePass(TransEmptyTest, actions)
  {
    hide Inv, InBounds, Leads, IsFull, Inc, AfterProcess;
    SlotFacts(c, s);
    LeadsNowhere(c, s);
    actions := [];
    var p := LeadsOn(c, s, TransEmptyTest, actions, s, TransEmptyTest);
    actions := actions + [TransEmptyTest];
    if !IsEmpty(s.raw) {
      actions, p := ReadSlot(c, s, actions, p);
      p := LeadsOn(c, s, TransEmptyTest, actions, p, TransFullTest);
      actions := actions + [TransFullTest];
      if !IsFull(s.image) {
        actions, p := WriteSlot(c, s, actions, p);
        p := LeadsOn(c, s, TransEmptyTest, actions, p, TransPublish);
        actions := actions + [TransPublish];
      }
      p := LeadsOn(c, s, TransEmptyTest, actions, p, TransFreeTest);
      actions := actions + [TransFreeTest];
      p := LeadsOn(c, s, TransEmptyTest, actions, p, TransReleaseSlot);
      actions := actions + [TransReleaseSlot];
    }
    assert p == AfterProcess(c, s) by {
      ProcessIs(c, s, p);
    }
  }

  lemma ProcessIs(c: Config, s: State, p: State)
    requires Inv(c, s) && s.transcoder.TransIdle?
    requires s.raw.size > 0 && s.image.size > 0 && s.raw.readPtr < |s.raw.data| && s.image.writePtr < |s.image.data|
    requires !IsEmpty(s.raw) ==> s.freed < |s.stored|
    requires p == if IsEmpty(s.raw) then s
                  else if IsFull(s.image) then s.(raw := IncRead(s.raw), freed := s.freed + 1, imageDrops := s.imageDrops + 1)
                  else s.(raw := IncRead(s.raw), freed := s.freed + 1, queued := s.queued + [s.stored[s.freed]],
                          image := IncWrite(Put(s.image, s.raw.data[s.raw.readPtr])))
    ensures p == AfterProcess(c, s)
  {
  }

  /** From having found a slot to having converted all of it. */
  lemma ReadSlot(c: Config, s: State, before: seq<Action>, start: State) returns (actions: seq<Action>, p: State)
    requires Leads(c, s, before, start) && Inv(c, start) && OnePass(TransEmptyTest, before)
    requires s.raw.readPtr < |s.raw.data| && |s.raw.data[s.raw.readPtr]| == c.frameSize >= 1
    requires start == s.(transcoder := TransRead(s.raw.readPtr, []))
    ensures Leads(c, s, actions, p) && Inv(c, p) && OnePass(TransEmptyTest, actions)
    ensures p == s.(transcoder := TransTest(s.raw.readPtr, s.raw.data[s.raw.readPtr]))
  {
    hide Inv, InBounds, Leads;
    var slot := s.raw.data[s.raw.readPtr];
    actions, p := before, start;
    var k := 0;
    while k < c.frameSize
      invariant k <= c.frameSize
      invariant Leads(c, s, actions, p) && Inv(c, p) && OnePass(TransEmptyTest, actions)
      invariant p == s.(transcoder := if k == c.frameSize then TransTest(s.raw.readPtr, slot)
                                      else TransRead(s.raw.readPtr, slot[..k]))
    {
      assert slot[..k] + [slot[k]] == slot[..k + 1] && slot[..|slot|] == slot;
      p := LeadsOn(c, s, TransEmptyTest, actions, p, TransReadByte);
      actions := actions + [TransReadByte];
      k := k + 1;
    }
  }

  /** From having found room to having stored all of the converted frame. */
  lemma WriteSlot(c: Config, s: State, before: seq<Action>, start: State) returns (actions: seq<Action>, p: State)
    requires Leads(c, s, before, start) && Inv(c, start) && OnePass(TransEmptyTest, before)
    requires s.raw.readPtr < |s.raw.data| && |s.raw.data[s.raw.readPtr]| == c.frameSize
    requires s.image.writePtr < |s.image.data| && |s.image.data[s.image.writePtr]| == c.frameSize
    requires start == s.(transcoder := TransWrite(s.raw.readPtr, s.raw.data[s.raw.readPtr], 0))
    ensures Leads(c, s, actions, p) && Inv(c, p) && OnePass(TransEmptyTest, actions)
    ensures p == s.(transcoder := TransWrite(s.raw.readPtr, s.raw.data[s.raw.readPtr], c.frameSize),
                    image := Put(s.image, s.raw.data[s.raw.readPtr]))
  {
    hide Inv, InBounds, Leads;
    var local, stale := s.raw.data[s.raw.readPtr], s.image.data[s.image.writePtr];
    actions, p := before, start;
    var k := 0;
    assert local[..0] + stale[0..] == stale && s.image.data[s.image.writePtr := stale] == s.image.data;
    while k < c.frameSize
      invariant k <= c.frameSize
      invariant Leads(c, s, actions, p) && Inv(c, p) && OnePass(TransEmptyTest, actions)
      invariant p == s.(transcoder := TransWrite(s.raw.readPtr, local, k), image := Put(s.image, local[..k] + stale[k..]))
    {
      assert (local[..k] + stale[k..])[k := local[k]] == local[..k + 1] + stale[k + 1..];
      p := LeadsOn(c, s, TransEmptyTest, actions, p, TransWriteByte);
      actions := actions + [TransWriteByte];
      k := k + 1;
    }
    assert local[..k] + stale[k..] == local;
  }

  // ---------- nvm sending one frame ----------

  /** A datagram handed to sendto, and whether it reaches the viewer. */
  datatype Datagram = Datagram(bytes: seq<byte>, arrives: bool)

  function Handed(ds: seq<Datagram>): (r: seq<seq<byte>>)
    ensures |r| == |ds| && forall i :: 0 <= i < |r| ==> r[i] == ds[i].bytes
  {
    seq(|ds|, i requires 0 <= i < |ds| => ds[i].bytes)
  }

  function Arrived(ds: seq<Datagram>): seq<seq<byte>> {
    if ds == [] then []
    else
      var d, earlier := ds[|ds| - 1], Arrived(ds[..|ds| - 1]);
      if d.arrives then earlier + [d.bytes] else earlier
  }

  /** The state after one turn of nvm_task has run alone and handed over these datagrams. */
  ghost function AfterSend(c: Config, s: State, ds: seq<Datagram>): State
    requires Inv(c, s)
  {
    SlotFacts(c, s);
    if IsEmpty(s.image) then s
    else
      s.(image := SendOldest(s.image), viewer := FeedAll(s.viewer, Arrived(ds)),
         sent := s.sent + [Sent(s.queued[|s.sent|], s.image.data[s.image.readPtr], Flatten(Arrived(ds)))])
  }

  /** The datagrams are any that image_save can produce, consecutive, none empty, none too long, and any
      of them may be lost; when they stop short of the whole slot a send has failed. */
  lemma NvmPass(c: Config, s: State, ds: seq<Datagram>) returns (actions: seq<Action>)
    requires Inv(c, s) && s.nvm.NvmIdle? && !IsEmpty(s.image)
    requires s.image.readPtr < |s.image.data| && Flatten(Handed(ds)) <= s.image.data[s.image.readPtr]
    requires forall i :: 0 <= i < |ds| ==> 1 <= |ds[i].bytes| <= c.chunk
    ensures Leads(c, s, actions, AfterSend(c, s, ds)) && Inv(c, AfterSend(c, s, ds))
    ensures OnePass(NvmEmptyTest, actions)
    ensures |Flatten(Handed(ds))| == c.frameSize && (forall i :: 0 <= i < |ds| ==> ds[i].arrives) ==> AllReliable(actions)
  {
    hide Inv, InBounds, Leads, AfterSend, Feed, FeedAll, Inc, Parse, Flatten, Handed, Arrived;
    SlotFacts(c, s);
    LeadsNowhere(c, s);
    actions := [];
    var p := LeadsOn(c, s, NvmEmptyTest, actions, s, NvmEmptyTest);
    actions := actions + [NvmEmptyTest];
    actions, p := SendAll(c, s, actions, p, ds);
    if p.nvm.NvmSend? {
      p := LeadsOn(c, s, NvmEmptyTest, actions, p, NvmSendFails);
      actions := actions + [NvmSendFails];
    }
    actions, p := EndSend(c, s, actions, p, Flatten(Arrived(ds)));
    assert p == AfterSend(c, s, ds) by {
      SendIs(c, s, p, ds);
    }
  }

  /** From the end of image_save to the release of the slot. */
  lemma EndSend(c: Config, s: State, before: seq<Action>, start: State, got: seq<byte>) returns (actions: seq<Action>, p: State)
    requires Leads(c, s, before, start) && Inv(c, start) && OnePass(NvmEmptyTest, before)
    requires s.image.size > 0 && s.image.readPtr < |s.image.data| && |s.sent| < |s.queued| && !IsEmpty(s.image)
    requires start == s.(viewer := start.viewer, nvm := NvmEnd(got))
    ensures Leads(c, s, actions, p) && Inv(c, p) && OnePass(NvmEmptyTest, actions)
    ensures AllReliable(before) ==> AllReliable(actions)
    ensures p == s.(viewer := start.viewer, image := IncRead(s.image), nvm := NvmIdle,
                    sent := s.sent + [Sent(s.queued[|s.sent|], s.image.data[s.image.readPtr], got)])
  {
    hide Inv, InBounds, Leads, Inc;
    p := LeadsOn(c, s, NvmEmptyTest, before, start, NvmEndTest);
    actions := before + [NvmEndTest];
    p := LeadsOn(c, s, NvmEmptyTest, actions, p, NvmReleaseSlot);
    actions := actions + [NvmReleaseSlot];
  }

  lemma SendIs(c: Config, s: State, p: State, ds: seq<Datagram>)
    requires Inv(c, s) && !IsEmpty(s.image) && s.image.size > 0 && s.image.readPtr < |s.image.data| && |s.sent| < |s.queued|
    requires s.nvm.NvmIdle?
    requires p == s.(image := IncRead(s.image), viewer := FeedAll(s.viewer, Arrived(ds)),
                     sent := s.sent + [Sent(s.queued[|s.sent|], s.image.data[s.image.readPtr], Flatten(Arrived(ds)))])
    ensures p == AfterSend(c, s, ds)
  {
  }

  lemma {:induction false} FeedSnoc(v: Viewer, datagrams: seq<seq<byte>>, d: seq<byte>)
    ensures FeedAll(v, datagrams + [d]) == Feed(FeedAll(v, datagrams), d)
    decreases |datagrams|
  {
    hide Feed;
    if datagrams == [] {
      assert FeedAll(v, [] + [d]) == FeedAll(Feed(v, d), [d][1..]);
    } else {
      FeedSnoc(Feed(v, datagrams[0]), datagrams[1..], d);
      assert (datagrams + [d])[1..] == datagrams[1..] + [d];
    }
  }

  /** One datagram more. */
  lemma OneDatagram(v: Viewer, earlier: seq<Datagram>, d: Datagram)
    ensures Flatten(Handed(earlier + [d])) == Flatten(Handed(earlier)) + d.bytes
    ensures Flatten(Arrived(earlier + [d])) == Flatten(Arrived(earlier)) + (if d.arrives then d.bytes else [])
    ensures FeedAll(v, Arrived(earlier + [d])) ==
            if d.arrives then Feed(FeedAll(v, Arrived(earlier)), d.bytes) else FeedAll(v, Arrived(earlier))
  {
    hide Feed, Flatten, FeedAll;
    assert (earlier + [d])[..|earlier|] == earlier;
    assert Handed(earlier + [d]) == Handed(earlier) + [d.bytes];
    FlattenSnoc(Handed(earlier), d.bytes);
    FlattenSnoc(Arrived(earlier), d.bytes);
    FeedSnoc(v, Arrived(earlier), d.bytes);
    assert Flatten(Arrived(earlier)) + [] == Flatten(Arrived(earlier));
  }

  lemma NoDatagram(v: Viewer)
    ensures Flatten(Handed([])) == [] == Flatten(Arrived([])) && FeedAll(v, Arrived([])) == v
  {
  }

  /** Sending one datagram after another. */
  lemma {:induction false} SendAll(c: Config, s: State, before: seq<Action>, start: State, ds: seq<Datagram>)
    returns (actions: seq<Action>, p: State)
    requires Leads(c, s, before, start) && Inv(c, start) && OnePass(NvmEmptyTest, before) && AllReliable(before)
    requires s.image.readPtr < |s.image.data| && |s.image.data[s.image.readPtr]| == c.frameSize >= 1
    requires start == s.(nvm := NvmSend(s.image.readPtr, 0, []))
    requires Flatten(Handed(ds)) <= s.image.data[s.image.readPtr]
    requires forall i :: 0 <= i < |ds| ==> 1 <= |ds[i].bytes| <= c.chunk
    ensures Leads(c, s, actions, p) && Inv(c, p) && OnePass(NvmEmptyTest, actions)
    ensures (forall i :: 0 <= i < |ds| ==> ds[i].arrives) ==> AllReliable(actions)
    ensures var done, got := |Flatten(Handed(ds))|, Flatten(Arrived(ds));
            p == s.(viewer := FeedAll(s.viewer, Arrived(ds)),
                    nvm := if done == c.frameSize then NvmEnd(got) else NvmSend(s.image.readPtr, done, got))
    decreases |ds|
  {
    hide Inv, InBounds, Leads, Feed, FeedAll, Parse, Enabled, Apply, Handed, Arrived, Flatten, OnePass, AllReliable;
    actions, p := before, start;
    if ds == [] {
      NoDatagram(s.viewer);
    } else {
      var n := |ds| - 1;
      var d, earlier := ds[n], ds[..n];
      assert ds == earlier + [d];
      OneDatagram(s.viewer, earlier, d);
      actions, p := SendAll(c, s, before, start, earlier);
      actions, p := SendOneMore(c, s, actions, p, |Flatten(Handed(earlier))|, d);
    }
  }

  lemma SendOneMore(c: Config, s: State, before: seq<Action>, start: State, done: nat, d: Datagram)
    returns (actions: seq<Action>, p: State)
    requires Leads(c, s, before, start) && Inv(c, start) && OnePass(NvmEmptyTest, before)
    requires s.image.readPtr < |s.image.data| && |s.image.data[s.image.readPtr]| == c.frameSize
    requires done + |d.bytes| <= c.frameSize && s.image.data[s.image.readPtr][done..done + |d.bytes|] == d.bytes
    requires 1 <= |d.bytes| <= c.chunk
    requires start.nvm.NvmSend? && start == s.(viewer := start.viewer, nvm := NvmSend(s.image.readPtr, done, start.nvm.got))
    ensures Leads(c, s, actions, p) && Inv(c, p) && OnePass(NvmEmptyTest, actions)
    ensures AllReliable(before) && d.arrives ==> AllReliable(actions)
    ensures var got := start.nvm.got + if d.arrives then d.bytes else [];
            p == s.(viewer := if d.arrives then Feed(start.viewer, d.bytes) else start.viewer,
                    nvm := if done + |d.bytes| == c.frameSize then NvmEnd(got)
                           else NvmSend(s.image.readPtr, done + |d.bytes|, got))
  {
    hide Inv, InBounds, Leads, Feed, Parse;
    assert start.nvm.got + [] == start.nvm.got;
    var send := NvmSendto(|d.bytes|, d.arrives);
    p := LeadsOn(c, s, NvmEmptyTest, before, start, send);
    actions := before + [send];
  }
}
