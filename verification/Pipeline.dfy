/**
 * The path of a frame from capture to viewer as a transition system: the camera task writes the raw
 * ring (middleware/frameBuffer/framebuffer.c), the transcoder task moves slots to the image ring
 * (src/transcoder/transcoder.c), the nvm task sends slots in datagrams (src/nvm/nvm.c and image_save
 * in middleware/image/image.c), and the viewer reads the datagrams. Every test of a ring, every byte
 * of a copy, every pointer move and every sendto is one step, and the tasks' steps interleave freely.
 */
module Pipeline {
  import opened Types
  import opened RingBuffers
  import opened StreamViewer
  import FrameBuffers

  /** FRAME_SIZE, the bound on a datagram and the sizes of the two rings. */
  datatype Config = Config(frameSize: nat, chunk: nat, rawSize: nat, imageSize: nat)

  type Slots = Ring<seq<byte>>

  // ---------- where each task stands ----------

  datatype Camera =
    | CamIdle
    | CamTest(jpeg: seq<byte>)            // a buffer was dequeued with saveFrame set, the raw ring is not yet tested
    | CamCopy(jpeg: seq<byte>, k: nat)    // the ring was not full, k bytes are copied

  datatype Transcoder =
    | TransIdle
    | TransRead(slot: nat, local: seq<byte>)           // holds a raw slot, has converted |local| bytes of it
    | TransTest(slot: nat, local: seq<byte>)           // converted, the image ring is not yet tested
    | TransWrite(slot: nat, local: seq<byte>, k: nat)  // the image ring was not full, k bytes are stored
    | TransFree(slot: nat)                             // stored or dropped, the raw slot is still held
    | TransRelease                                     // framebuffer_freeframe found the ring not empty

  datatype Nvm =
    | NvmIdle
    | NvmSend(slot: nat, done: nat, got: seq<byte>)  // holds an image slot, done bytes are handed to sendto
    | NvmEnd(got: seq<byte>)                         // image_save returned
    | NvmRelease(got: seq<byte>)                     // imagebuffer_endread found the ring not empty

  /** A frame nvm has finished with: its payload, the slot it lay in and the bytes of it that arrived. */
  datatype Sent = Sent(jpeg: seq<byte>, block: seq<byte>, got: seq<byte>)

  /** The shared memory, the tasks, and a record of what happened to every frame. */
  datatype State = State(
    raw: Slots, image: Slots,
    camera: Camera, transcoder: Transcoder, nvm: Nvm, viewer: Viewer,
    offered: seq<seq<byte>>, rawDrops: nat, stored: seq<seq<byte>>, freed: nat,
    imageDrops: nat, queued: seq<seq<byte>>, sent: seq<Sent>)

  datatype Action =
    | CamOffer(jpeg: seq<byte>) | CamFullTest | CamCopyByte | CamPublish
    | TransEmptyTest | TransReadByte | TransFullTest | TransWriteByte | TransPublish | TransFreeTest | TransReleaseSlot
    | NvmEmptyTest | NvmSendto(n: nat, arrives: bool) | NvmSendFails | NvmEndTest | NvmReleaseSlot

  // ---------- the invariant ----------

  ghost predicate ValidConfig(c: Config) {
    c.frameSize >= 1 && c.chunk >= 1 && IsPow2(c.rawSize) && IsPow2(c.imageSize)
  }

  ghost predicate SlotsOk(b: Slots, size: nat, frameSize: nat) {
    FrameBuffers.FramesOk(b, frameSize) && b.size == size
  }

  /** The queue holds, in order, one block for every payload of the log from index `from` on. */
  ghost predicate Holds(q: seq<seq<byte>>, log: seq<seq<byte>>, from: nat) {
    |q| + from == |log| && forall i :: 0 <= i < |q| ==> IsBlock(q[i], log[from + i])
  }

  /** Stale bytes never look like the start of a frame: outside the slot that is being overwritten,
      no slot has an SOI above index 0. */
  ghost predicate Clean(b: Slots, busy: bool) {
    forall i :: 0 <= i < |b.data| && !(busy && i == b.writePtr) ==> NoMarker(b.data[i], SOI, 1, |b.data[i]|)
  }

  ghost predicate CameraOk(c: Config, s: State)
    requires SlotsOk(s.raw, c.rawSize, c.frameSize)
  {
    match s.camera
    case CamIdle => true
    case CamTest(jpeg) => IsJpeg(jpeg) && |jpeg| <= c.frameSize
    case CamCopy(jpeg, k) =>
      var slot := s.raw.data[s.raw.writePtr];
      && IsJpeg(jpeg) && k <= |jpeg| <= c.frameSize && !IsFull(s.raw)
      && slot[..k] == jpeg[..k] && NoMarker(slot, SOI, Max(k, 1), c.frameSize)
  }

  /** The transcoder holds the oldest raw slot. */
  ghost predicate HoldsRaw(s: State, slot: nat) {
    !IsEmpty(s.raw) && slot == s.raw.readPtr
  }

  ghost predicate TranscoderOk(c: Config, s: State)
    requires SlotsOk(s.raw, c.rawSize, c.frameSize) && SlotsOk(s.image, c.imageSize, c.frameSize)
  {
    match s.transcoder
    case TransIdle => true
    case TransRead(slot, local) =>
      HoldsRaw(s, slot) && |local| < c.frameSize && local == s.raw.data[slot][..|local|]
    case TransTest(slot, local) =>
      HoldsRaw(s, slot) && local == s.raw.data[slot]
    case TransWrite(slot, local, k) =>
      && HoldsRaw(s, slot) && local == s.raw.data[slot]
      && !IsFull(s.image) && k <= c.frameSize && s.image.data[s.image.writePtr][..k] == local[..k]
    case TransFree(slot) => HoldsRaw(s, slot)
    case TransRelease => !IsEmpty(s.raw)
  }

  ghost predicate NvmOk(c: Config, s: State) {
    match s.nvm
    case NvmIdle => true
    case NvmSend(slot, done, got) => !IsEmpty(s.image) && slot == s.image.readPtr && done < c.frameSize
    case NvmEnd(got) => !IsEmpty(s.image)
    case NvmRelease(got) => !IsEmpty(s.image)
  }

  /** A frame the camera task has in hand. */
  function InCamera(s: State): nat {
    if s.camera.CamIdle? then 0 else 1
  }

  /** A frame already queued or dropped whose raw slot is not yet released. */
  function Settled(s: State): nat {
    if s.transcoder.TransFree? || s.transcoder.TransRelease? then 1 else 0
  }

  ghost predicate LogsOk(s: State) {
    && s.freed + Settled(s) <= |s.stored|
    && |s.sent| <= |s.queued|
    && InCamera(s) <= |s.offered|
    && |s.offered| == s.rawDrops + |s.stored| + InCamera(s)
    && s.freed + Settled(s) == |s.queued| + s.imageDrops
    && (s.camera.CamTest? || s.camera.CamCopy? ==> s.offered[|s.offered| - 1] == s.camera.jpeg)
    && Subsequence(s.stored, s.offered[..|s.offered| - InCamera(s)])
    && Subsequence(s.queued, s.stored[..s.freed + Settled(s)])
    && (forall i :: 0 <= i < |s.sent| ==> s.sent[i].jpeg == s.queued[i] && IsBlock(s.sent[i].block, s.sent[i].jpeg))
  }

  function Gots(sent: seq<Sent>): (r: seq<seq<byte>>)
    ensures |r| == |sent| && forall i :: 0 <= i < |r| ==> r[i] == sent[i].got
  {
    seq(|sent|, i requires 0 <= i < |sent| => sent[i].got)
  }

  function CurrentGot(nvm: Nvm): seq<byte> {
    if nvm.NvmIdle? then [] else nvm.got
  }

  /** Every byte that reached the viewer. */
  function Delivered(s: State): seq<byte> {
    Flatten(Gots(s.sent)) + CurrentGot(s.nvm)
  }

  ghost predicate RingsOk(c: Config, s: State) {
    && SlotsOk(s.raw, c.rawSize, c.frameSize)
    && SlotsOk(s.image, c.imageSize, c.frameSize)
    && Holds(Contents(s.raw), s.stored, s.freed)
    && Holds(Contents(s.image), s.queued, |s.sent|)
    && Clean(s.raw, s.camera.CamCopy?)
    && Clean(s.image, s.transcoder.TransWrite?)
  }

  ghost predicate Inv(c: Config, s: State) {
    && ValidConfig(c)
    && RingsOk(c, s)
    && CameraOk(c, s) && TranscoderOk(c, s) && NvmOk(c, s)
    && LogsOk(s)
    && s.viewer == Seen(Delivered(s))
  }

  // ---------- the steps ----------

  function Init(c: Config): State {
    var blank := seq(c.frameSize, _ => 0);
    State(
      Ring(seq(c.rawSize, _ => blank), c.rawSize, 0, 0), Ring(seq(c.imageSize, _ => blank), c.imageSize, 0, 0),
      CamIdle, TransIdle, NvmIdle, Viewer([], []), [], 0, [], 0, 0, [], [])
  }

  /** Where the code of a task lets it take the step. */
  predicate Enabled(c: Config, s: State, a: Action) {
    match a
    case CamOffer(jpeg) => s.camera.CamIdle? && IsJpeg(jpeg) && |jpeg| <= c.frameSize
    case CamFullTest => s.camera.CamTest?
    case CamCopyByte => s.camera.CamCopy? && s.camera.k < |s.camera.jpeg|
    case CamPublish => s.camera.CamCopy? && s.camera.k == |s.camera.jpeg|
    case TransEmptyTest => s.transcoder.TransIdle?
    case TransReadByte => s.transcoder.TransRead?
    case TransFullTest => s.transcoder.TransTest?
    case TransWriteByte => s.transcoder.TransWrite? && s.transcoder.k < c.frameSize
    case TransPublish => s.transcoder.TransWrite? && s.transcoder.k == c.frameSize
    case TransFreeTest => s.transcoder.TransFree?
    case TransReleaseSlot => s.transcoder.TransRelease?
    case NvmEmptyTest => s.nvm.NvmIdle?
    case NvmSendto(n, arrives) => s.nvm.NvmSend? && 1 <= n <= Min(c.chunk, c.frameSize - s.nvm.done)
    case NvmSendFails => s.nvm.NvmSend?
    case NvmEndTest => s.nvm.NvmEnd?
    case NvmReleaseSlot => s.nvm.NvmRelease?
  }

  /** The memory the step touches exists. Every reachable step meets this (NoStepOutOfBounds). */
  predicate InBounds(s: State, a: Action)
  {
    && s.raw.size > 0 && s.image.size > 0
    && s.raw.writePtr < |s.raw.data| && s.image.writePtr < |s.image.data|
    && s.raw.readPtr < |s.raw.data| && s.image.readPtr < |s.image.data|
    && match a
       case CamCopyByte => s.camera.CamCopy? ==> s.camera.k < |s.raw.data[s.raw.writePtr]|
       case TransReadByte =>
         s.transcoder.TransRead? ==>
           s.transcoder.slot < |s.raw.data| && |s.transcoder.local| < |s.raw.data[s.transcoder.slot]|
       case TransWriteByte =>
         s.transcoder.TransWrite? ==>
           s.transcoder.k < |s.transcoder.local| && s.transcoder.k < |s.image.data[s.image.writePtr]|
       case TransPublish => s.freed < |s.stored|
       case NvmSendto(n, arrives) =>
         s.nvm.NvmSend? ==> s.nvm.slot < |s.image.data| && s.nvm.done + n <= |s.image.data[s.nvm.slot]|
       case NvmReleaseSlot => |s.sent| < |s.queued|
       case _ => true
  }

  function Apply(c: Config, s: State, a: Action): State
    requires Enabled(c, s, a) && InBounds(s, a)
  {
    match a
    case CamOffer(jpeg) => s.(camera := CamTest(jpeg), offered := s.offered + [jpeg])
    case CamFullTest =>
      if IsFull(s.raw) then s.(camera := CamIdle, rawDrops := s.rawDrops + 1)
      else s.(camera := CamCopy(s.camera.jpeg, 0))
    case CamCopyByte =>
      var k, slot := s.camera.k, s.raw.data[s.raw.writePtr];
      s.(raw := Put(s.raw, slot[k := s.camera.jpeg[k]]), camera := CamCopy(s.camera.jpeg, k + 1))
    case CamPublish =>
      s.(raw := IncWrite(s.raw), stored := s.stored + [s.camera.jpeg], camera := CamIdle)
    case TransEmptyTest =>
      if IsEmpty(s.raw) then s else s.(transcoder := TransRead(s.raw.readPtr, []))
    case TransReadByte =>
      var slot, n := s.transcoder.slot, |s.transcoder.local|;
      var local := s.transcoder.local + [s.raw.data[slot][n]];
      s.(transcoder := if n + 1 == c.frameSize then TransTest(slot, local) else TransRead(slot, local))
    case TransFullTest =>
      if IsFull(s.image) then s.(transcoder := TransFree(s.transcoder.slot), imageDrops := s.imageDrops + 1)
      else s.(transcoder := TransWrite(s.transcoder.slot, s.transcoder.local, 0))
    case TransWriteByte =>
      var k, slot := s.transcoder.k, s.image.data[s.image.writePtr];
      s.(image := Put(s.image, slot[k := s.transcoder.local[k]]),
         transcoder := TransWrite(s.transcoder.slot, s.transcoder.local, k + 1))
    case TransPublish =>
      s.(image := IncWrite(s.image), transcoder := TransFree(s.transcoder.slot),
         queued := s.queued + [s.stored[s.freed]])
    case TransFreeTest =>
      s.(transcoder := if IsEmpty(s.raw) then TransIdle else TransRelease)
    case TransReleaseSlot =>
      s.(raw := IncRead(s.raw), transcoder := TransIdle, freed := s.freed + 1)
    case NvmEmptyTest =>
      if IsEmpty(s.image) then s else s.(nvm := NvmSend(s.image.readPtr, 0, []))
    case NvmSendto(n, arrives) =>
      var NvmSend(slot, done, got) := s.nvm;
      var datagram := s.image.data[slot][done..done + n];
      var got' := if arrives then got + datagram else got;
      s.(nvm := if done + n < c.frameSize then NvmSend(slot, done + n, got') else NvmEnd(got'),
         viewer := if arrives then Feed(s.viewer, datagram) else s.viewer)
    case NvmSendFails => s.(nvm := NvmEnd(s.nvm.got))
    case NvmEndTest =>
      s.(nvm := if IsEmpty(s.image) then NvmIdle else NvmRelease(s.nvm.got))
    case NvmReleaseSlot =>
      s.(image := IncRead(s.image), nvm := NvmIdle, sent := s.sent + [Current(s)])
  }

  /** The record of the frame nvm is about to release. */
  function Current(s: State): Sent
    requires |s.sent| < |s.queued| && s.image.readPtr < |s.image.data|
  {
    Sent(s.queued[|s.sent|], s.image.data[s.image.readPtr], CurrentGot(s.nvm))
  }

  // ---------- runs ----------

  /** A run from power-up: the tasks' steps in any order. */
  ghost predicate IsRun(c: Config, states: seq<State>, actions: seq<Action>) {
    && |states| == |actions| + 1
    && states[0] == Init(c)
    && forall i :: 0 <= i < |actions| ==> IsStep(c, states[i], actions[i], states[i + 1])
  }

  ghost predicate IsStep(c: Config, s: State, a: Action, s': State) {
    Enabled(c, s, a) && InBounds(s, a) && s' == Apply(c, s, a)
  }

  /** No datagram is lost and no send fails. */
  predicate Reliable(a: Action) {
    !a.NvmSendFails? && (a.NvmSendto? ==> a.arrives)
  }
}
