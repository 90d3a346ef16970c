/** The promises of the frame path, for every run of the three tasks. */
module PipelineTheorems {
  import opened Types
  import opened RingBuffers
  import opened StreamViewer
  import opened Pipeline
  import opened PipelineProofs

  /** No reachable step reads or writes outside a ring, a slot or a frame. */
  lemma NoStepOutOfBounds(c: Config, states: seq<State>, actions: seq<Action>, n: nat, a: Action)
    requires ValidConfig(c) && IsRun(c, states, actions) && n < |states| && Enabled(c, states[n], a)
    ensures InBounds(states[n], a)
  {
    RunKeepsInv(c, states, actions, n);
    InvInBounds(c, states[n], a);
  }

  // ---------- stale bytes ----------

  /** In every reachable state every slot of both rings, except one that a task is overwriting at this
      moment, holds no SOI above index 0: a short payload over an old one never fakes a frame. */
  lemma StaleTailsHoldNoSoi(c: Config, states: seq<State>, actions: seq<Action>, n: nat, i: nat)
    requires ValidConfig(c) && IsRun(c, states, actions) && n < |states|
    ensures var s := states[n];
            && (i < |s.raw.data| && !(s.camera.CamCopy? && i == s.raw.writePtr) ==>
                  NoMarker(s.raw.data[i], SOI, 1, c.frameSize))
            && (i < |s.image.data| && !(s.transcoder.TransWrite? && i == s.image.writePtr) ==>
                  NoMarker(s.image.data[i], SOI, 1, c.frameSize))
  {
    RunKeepsInv(c, states, actions, n);
  }

  // ---------- each ring is a bounded queue ----------

  /** The payloads waiting in the raw ring and in the image ring. */
  function RawQueue(s: State): seq<seq<byte>>
    requires s.freed <= |s.stored|
  {
    s.stored[s.freed..]
  }

  function ImageQueue(s: State): seq<seq<byte>>
    requires |s.sent| <= |s.queued|
  {
    s.queued[|s.sent|..]
  }

  /** A bounded queue takes at most one item at its end or gives up the one at its front. */
  datatype QueueOp = Keep | Enqueue(item: seq<byte>) | Dequeue

  predicate QueueStep(q: seq<seq<byte>>, op: QueueOp, q': seq<seq<byte>>, capacity: int) {
    match op
    case Keep => q' == q
    case Enqueue(item) => |q| < capacity && q' == q + [item]
    case Dequeue => q != [] && q' == q[1..]
  }

  function RawOp(s: State, a: Action): QueueOp {
    if a.CamPublish? && s.camera.CamCopy? then Enqueue(s.camera.jpeg) else if a.TransReleaseSlot? then Dequeue else Keep
  }

  function ImageOp(s: State, a: Action): QueueOp {
    if a.TransPublish? && s.freed < |s.stored| then Enqueue(s.stored[s.freed]) else if a.NvmReleaseSlot? then Dequeue else Keep
  }

  /** Every micro-step of every run is a step of two queues of size - 1 places, and what the tests of
      the rings answer is what the queues say at that moment: a frame is dropped only when the queue is
      full, a task goes away empty-handed only when it is empty, and a release is never refused. */
  lemma RingsAreBoundedQueues(c: Config, states: seq<State>, actions: seq<Action>, n: nat)
    requires ValidConfig(c) && IsRun(c, states, actions) && n < |actions|
    ensures var s, a, s' := states[n], actions[n], states[n + 1];
            && Inv(c, s) && Inv(c, s')
            && QueueStep(RawQueue(s), RawOp(s, a), RawQueue(s'), c.rawSize - 1)
            && QueueStep(ImageQueue(s), ImageOp(s, a), ImageQueue(s'), c.imageSize - 1)
            && GetLen(s.raw) == |RawQueue(s)| < c.rawSize && GetLen(s.image) == |ImageQueue(s)| < c.imageSize
            && (a.CamFullTest? ==> (s'.rawDrops > s.rawDrops <==> |RawQueue(s)| == c.rawSize - 1))
            && (a.TransFullTest? ==> (s'.imageDrops > s.imageDrops <==> |ImageQueue(s)| == c.imageSize - 1))
            && (a.TransEmptyTest? ==> (s'.transcoder.TransIdle? <==> RawQueue(s) == []))
            && (a.NvmEmptyTest? ==> (s'.nvm.NvmIdle? <==> ImageQueue(s) == []))
            && (a.TransFreeTest? ==> s'.transcoder.TransRelease?)
            && (a.NvmEndTest? ==> s'.nvm.NvmRelease?)
  {
    hide Inv, Apply, Enabled, InBounds, Init, QueueStep, IsEmpty, IsFull;
    RunKeepsInv(c, states, actions, n);
    RunKeepsInv(c, states, actions, n + 1);
    assert IsStep(c, states[n], actions[n], states[n + 1]);
    QueuesMove(c, states[n], actions[n]);
    TestsAnswer(c, states[n], actions[n]);
  }

  lemma LengthsAgree(c: Config, s: State)
    requires Inv(c, s)
    ensures s.freed <= |s.stored| && |s.sent| <= |s.queued|
    ensures s.raw.size == c.rawSize > 0 && s.image.size == c.imageSize > 0
    ensures GetLen(s.raw) == |RawQueue(s)| < c.rawSize && GetLen(s.image) == |ImageQueue(s)| < c.imageSize
    ensures IsEmpty(s.raw) <==> RawQueue(s) == []
    ensures IsEmpty(s.image) <==> ImageQueue(s) == []
  {
    hide Parse, Flatten, Seen, Subsequence, NoMarker, MarkerAt, IsJpeg, IsBlock;
    EmptyAndFull(s.raw);
    EmptyAndFull(s.image);
  }

  lemma QueuesMove(c: Config, s: State, a: Action)
    requires Inv(c, s) && Enabled(c, s, a) && InBounds(s, a)
    requires Inv(c, Apply(c, s, a))
    ensures var s' := Apply(c, s, a);
            && QueueStep(RawQueue(s), RawOp(s, a), RawQueue(s'), c.rawSize - 1)
            && QueueStep(ImageQueue(s), ImageOp(s, a), ImageQueue(s'), c.imageSize - 1)
  {
    hide Parse, Flatten, Seen, Feed, Subsequence, Contents, NoMarker, MarkerAt, IsJpeg, IsBlock, Distance, IsPow2;
    hide SlotsOk, Holds, Clean;
    LengthsAgree(c, s);
    if a.CamPublish? {
      assert (s.stored + [s.camera.jpeg])[s.freed..] == RawQueue(s) + [s.camera.jpeg];
    } else if a.TransPublish? {
      assert (s.queued + [s.stored[s.freed]])[|s.sent|..] == ImageQueue(s) + [s.stored[s.freed]];
    }
  }

  lemma TestsAnswer(c: Config, s: State, a: Action)
    requires Inv(c, s) && Enabled(c, s, a) && InBounds(s, a)
    ensures var s' := Apply(c, s, a);
            && s.freed <= |s.stored| && |s.sent| <= |s.queued|
            && s.raw.size == c.rawSize > 0 && s.image.size == c.imageSize > 0
            && GetLen(s.raw) == |RawQueue(s)| < c.rawSize && GetLen(s.image) == |ImageQueue(s)| < c.imageSize
            && (a.CamFullTest? ==> (s'.rawDrops > s.rawDrops <==> |RawQueue(s)| == c.rawSize - 1))
            && (a.TransFullTest? ==> (s'.imageDrops > s.imageDrops <==> |ImageQueue(s)| == c.imageSize - 1))
            && (a.TransEmptyTest? ==> (s'.transcoder.TransIdle? <==> RawQueue(s) == []))
            && (a.NvmEmptyTest? ==> (s'.nvm.NvmIdle? <==> ImageQueue(s) == []))
            && (a.TransFreeTest? ==> s'.transcoder.TransRelease?)
            && (a.NvmEndTest? ==> s'.nvm.NvmRelease?)
  {
    hide Parse, Flatten, Seen, Feed, Subsequence, Contents, NoMarker, MarkerAt, IsJpeg, IsBlock, Distance, IsPow2;
    hide SlotsOk, Holds, Clean, LogsOk;
    LengthsAgree(c, s);
  }

  // ---------- held slots ----------

  /** The slot a reader holds, from its test of the ring until it moves the read pointer. */
  ghost predicate TranscoderHolds(s: State) {
    !s.transcoder.TransIdle?
  }

  ghost predicate NvmHolds(s: State) {
    !s.nvm.NvmIdle?
  }

  lemma HeldOverStep(c: Config, s: State, a: Action)
    requires Inv(c, s) && Enabled(c, s, a) && InBounds(s, a)
    ensures var s' := Apply(c, s, a);
            && (TranscoderHolds(s) && TranscoderHolds(s') ==>
                  s'.raw.readPtr == s.raw.readPtr && s'.raw.data[s.raw.readPtr] == s.raw.data[s.raw.readPtr])
            && (NvmHolds(s) && NvmHolds(s') ==>
                  s'.image.readPtr == s.image.readPtr && s'.image.data[s.image.readPtr] == s.image.data[s.image.readPtr])
  {
    hide Parse, Flatten, Seen, Feed, Subsequence, Contents, NoMarker, MarkerAt, IsJpeg, IsBlock, Distance, IsPow2;
  }

  /** While a reader holds a slot nobody writes it, however far the writer runs on meanwhile. */
  lemma {:induction false} HeldSlotsNeverChange(c: Config, states: seq<State>, actions: seq<Action>, i: nat, j: nat)
    requires ValidConfig(c) && IsRun(c, states, actions) && i <= j < |states|
    ensures Inv(c, states[i]) && Inv(c, states[j])
    ensures (forall k :: i <= k <= j ==> TranscoderHolds(states[k])) ==>
              states[j].raw.readPtr == states[i].raw.readPtr
              && states[j].raw.data[states[i].raw.readPtr] == states[i].raw.data[states[i].raw.readPtr]
    ensures (forall k :: i <= k <= j ==> NvmHolds(states[k])) ==>
              states[j].image.readPtr == states[i].image.readPtr
              && states[j].image.data[states[i].image.readPtr] == states[i].image.data[states[i].image.readPtr]
    decreases j - i
  {
    hide Parse, Flatten, Seen, Feed, Subsequence, Contents, NoMarker, MarkerAt, IsJpeg, IsBlock, Distance, IsPow2, Apply, Enabled, InBounds, Init;
    RunKeepsInv(c, states, actions, i);
    RunKeepsInv(c, states, actions, j);
    if i < j {
      HeldSlotsNeverChange(c, states, actions, i, j - 1);
      assert IsStep(c, states[j - 1], actions[j - 1], states[j - 1 + 1]);
      HeldOverStep(c, states[j - 1], actions[j - 1]);
    }
  }

  // ---------- conservation and order ----------

  function Jpegs(sent: seq<Sent>): (r: seq<seq<byte>>)
    ensures |r| == |sent| && forall i :: 0 <= i < |r| ==> r[i] == sent[i].jpeg
  {
    seq(|sent|, i requires 0 <= i < |sent| => sent[i].jpeg)
  }

  /** Every frame offered while capturing is in exactly one place: dropped at a ring, in a task's
      hands, waiting in a ring, or sent; and the sent frames are the offered ones in their order with
      the dropped ones missing. A frame whose raw slot is still held after it was queued or dropped is
      counted once. */
  lemma FramesAreConserved(c: Config, states: seq<State>, actions: seq<Action>, n: nat)
    requires ValidConfig(c) && IsRun(c, states, actions) && n < |states|
    ensures var s := states[n];
            && c.rawSize > 0 && c.imageSize > 0
            && s.raw.size == c.rawSize && s.image.size == c.imageSize
            && |s.offered| == s.rawDrops + InCamera(s) + (GetLen(s.raw) - Settled(s))
                              + s.imageDrops + GetLen(s.image) + |s.sent|
            && GetLen(s.raw) >= Settled(s)
            && Subsequence(Jpegs(s.sent), s.offered)
  {
    RunKeepsInv(c, states, actions, n);
    OrderedIn(c, states[n], |states[n].sent|);
    var s := states[n];
    assert Jpegs(s.sent) == s.queued[..|s.sent|];
  }

  lemma OrderedIn(c: Config, s: State, n: nat)
    requires Inv(c, s) && n <= |s.queued|
    ensures Subsequence(s.queued[..n], s.offered)
  {
    var known := s.stored[..s.freed + Settled(s)];
    var handled := s.offered[..|s.offered| - InCamera(s)];
    SubsequencePrefix(s.queued, n);
    SubsequenceTransitive(s.queued[..n], s.queued, known);
    SubsequencePrefix(s.stored, s.freed + Settled(s));
    SubsequenceTransitive(s.queued[..n], known, s.stored);
    SubsequenceTransitive(s.queued[..n], s.stored, handled);
    SubsequencePrefix(s.offered, |s.offered| - InCamera(s));
    SubsequenceTransitive(s.queued[..n], handled, s.offered);
  }

  // ---------- end to end, nothing lost ----------

  /** Nothing has been lost so far: every byte handed to sendto is in `got`. */
  ghost predicate Lossless(c: Config, s: State)
    requires Inv(c, s)
  {
    && (forall i :: 0 <= i < |s.sent| ==> s.sent[i].got == s.sent[i].block)
    && match s.nvm
       case NvmIdle => true
       case NvmSend(slot, done, got) => got == s.image.data[slot][..done]
       case NvmEnd(got) => got == s.image.data[s.image.readPtr]
       case NvmRelease(got) => got == s.image.data[s.image.readPtr]
  }

  lemma LosslessStep(c: Config, s: State, a: Action)
    requires Inv(c, s) && Lossless(c, s) && Enabled(c, s, a) && InBounds(s, a) && Reliable(a)
    ensures Inv(c, Apply(c, s, a)) && Lossless(c, Apply(c, s, a))
  {
    hide Parse, Flatten, Seen, Feed, Subsequence, Contents, NoMarker, MarkerAt, IsJpeg, IsBlock, Distance, IsPow2;
    hide Holds, Clean, LogsOk, CameraOk, TranscoderOk, InBounds;
    StepKeepsInv(c, s, a);
    if a.NvmSendto? {
      LosslessSendto(c, s, a.n);
    } else {
      HeldOverStep(c, s, a);
    }
  }

  lemma LosslessSendto(c: Config, s: State, n: nat)
    requires Inv(c, s) && Lossless(c, s) && Enabled(c, s, NvmSendto(n, true)) && InBounds(s, NvmSendto(n, true))
    requires Inv(c, Apply(c, s, NvmSendto(n, true)))
    ensures Lossless(c, Apply(c, s, NvmSendto(n, true)))
  {
    hide Parse, Flatten, Seen, Feed, Subsequence, Contents, NoMarker, MarkerAt, IsJpeg, IsBlock, Distance, IsPow2;
    hide Holds, Clean, LogsOk, CameraOk, TranscoderOk;
    var NvmSend(slot, done, got) := s.nvm;
    var block := s.image.data[slot];
    assert block[..done] + block[done..done + n] == block[..done + n];
    assert done + n == c.frameSize ==> block[..done + n] == block;
  }

  lemma {:induction false} RunIsLossless(c: Config, states: seq<State>, actions: seq<Action>, n: nat)
    requires ValidConfig(c) && IsRun(c, states, actions) && n < |states|
    requires forall i :: 0 <= i < n ==> Reliable(actions[i])
    ensures Inv(c, states[n]) && Lossless(c, states[n])
  {
    hide Inv, Apply, Enabled, InBounds;
    RunKeepsInv(c, states, actions, n);
    if n > 0 {
      RunIsLossless(c, states, actions, n - 1);
      assert IsStep(c, states[n - 1], actions[n - 1], states[n - 1 + 1]);
      LosslessStep(c, states[n - 1], actions[n - 1]);
    }
  }

  /** How many queued frames have had the last byte of their payload sent. */
  ghost function Completed(c: Config, s: State): (n: nat)
    requires Inv(c, s)
    ensures n <= |s.queued|
  {
    if s.nvm.NvmIdle? then |s.sent|
    else
      OldestBlock(s.image, s.queued, |s.sent|);
      if |s.nvm.got| < |s.queued[|s.sent|]| then |s.sent| else |s.sent| + 1
  }

  /** End to end. In every interleaving in which no datagram is lost, the viewer has pushed exactly the
      payloads, in the order of the image ring, whose last byte has been sent: none missing, none
      twice, none altered, despite stale slot tails and the cutting into datagrams. */
  lemma EndToEnd(c: Config, states: seq<State>, actions: seq<Action>, n: nat)
    requires ValidConfig(c) && IsRun(c, states, actions) && n < |states|
    requires forall i :: 0 <= i < n ==> Reliable(actions[i])
    ensures Inv(c, states[n])
    ensures var s := states[n]; s.viewer.pushed == s.queued[..Completed(c, s)]
    ensures Subsequence(states[n].viewer.pushed, states[n].offered)
  {
    RunIsLossless(c, states, actions, n);
    PushedWhenLossless(c, states[n]);
    OrderedIn(c, states[n], Completed(c, states[n]));
  }

  lemma PushedWhenLossless(c: Config, s: State)
    requires Inv(c, s) && Lossless(c, s)
    ensures s.viewer.pushed == s.queued[..Completed(c, s)]
  {
    hide Parse, Flatten, Subsequence, NoMarker, MarkerAt, IsJpeg, Distance, IsPow2;
    var blocks, jpegs := Gots(s.sent), s.queued[..|s.sent|];
    EmptyStream();
    ParseBlocks([], blocks, jpegs);
    assert [] + Flatten(blocks) == Flatten(blocks);
    var before := Parse(Flatten(blocks));
    ParseRestIncomplete(Flatten(blocks));
    ParseAppend(Flatten(blocks), CurrentGot(s.nvm));
    if s.nvm.NvmIdle? {
      assert before.rest + [] == before.rest;
      ParseIncomplete(before.rest);
    } else {
      OldestBlock(s.image, s.queued, |s.sent|);
      var slot, jpeg := s.image.data[s.image.readPtr], s.queued[|s.sent|];
      PushedInBlock(before.rest, slot, jpeg, s.nvm.got);
      assert s.queued[..|s.sent| + 1] == jpegs + [jpeg];
    }
  }

  lemma EmptyStream()
    ensures Incomplete([]) && !OpenFrame([])
  {
  }

  lemma PushedInBlock(rest: seq<byte>, slot: seq<byte>, jpeg: seq<byte>, got: seq<byte>)
    requires Incomplete(rest) && !OpenFrame(rest) && IsBlock(slot, jpeg)
    requires |got| <= |slot| && got == slot[..|got|]
    ensures Parse(rest + got).frames == if |got| < |jpeg| then [] else [jpeg]
  {
    hide Parse, IndexOf;
    if |got| < |jpeg| {
      assert got == jpeg[..|got|];
      ParsePartialBlock(rest, jpeg, |got|);
    } else {
      ParseBlock(rest, slot, jpeg, |got|);
    }
  }

  // ---------- what is handed to sendto ----------

  /** One sendto: how many bytes it took, and whether their datagram arrived. */
  datatype Call = Call(taken: nat, arrived: bool)

  function CallsIn(actions: seq<Action>): seq<Call> {
    if actions == [] then []
    else
      var a, before := actions[|actions| - 1], CallsIn(actions[..|actions| - 1]);
      if a.NvmSendto? then before + [Call(a.n, a.arrives)] else before
  }

  function TakenBy(calls: seq<Call>): nat {
    if calls == [] then 0 else TakenBy(calls[..|calls| - 1]) + calls[|calls| - 1].taken
  }

  /** The bytes of the pieces that arrived: each call takes the piece that follows the earlier ones. */
  function ArrivedOf(block: seq<byte>, calls: seq<Call>): seq<byte>
    requires TakenBy(calls) <= |block|
  {
    if calls == [] then []
    else
      var before, call := calls[..|calls| - 1], calls[|calls| - 1];
      ArrivedOf(block, before) + (if call.arrived then block[TakenBy(before)..TakenBy(before) + call.taken] else [])
  }

  /** Step b took a slot of the image ring, and nvm still holds it in state n. */
  ghost predicate HeldSince(states: seq<State>, actions: seq<Action>, b: nat, n: nat) {
    && b < n < |states| && n <= |actions| && actions[b].NvmEmptyTest?
    && forall k :: b < k <= n ==> !states[k].nvm.NvmIdle?
  }

  /** What has been handed over of the slot that nvm holds. */
  ghost predicate HandedOver(c: Config, s: State, actions: seq<Action>) {
    && s.image.readPtr < |s.image.data| && |s.image.data[s.image.readPtr]| == c.frameSize
    && var block, calls := s.image.data[s.image.readPtr], CallsIn(actions);
       && (forall k :: 0 <= k < |calls| ==> 1 <= calls[k].taken <= c.chunk)
       && TakenBy(calls) <= c.frameSize
       && CurrentGot(s.nvm) == ArrivedOf(block, calls)
       && (s.nvm.NvmSend? ==> s.nvm.done == TakenBy(calls) < c.frameSize && NvmSendFails !in actions)
       && (!s.nvm.NvmSend? ==> (TakenBy(calls) == c.frameSize <==> NvmSendFails !in actions))
  }

  lemma CallsSnoc(actions: seq<Action>, a: Action)
    ensures CallsIn(actions + [a]) == CallsIn(actions) + if a.NvmSendto? then [Call(a.n, a.arrives)] else []
  {
    assert (actions + [a])[..|actions|] == actions;
    assert CallsIn(actions) + [] == CallsIn(actions);
  }

  lemma CallSnoc(block: seq<byte>, calls: seq<Call>, call: Call)
    requires TakenBy(calls) + call.taken <= |block|
    ensures TakenBy(calls + [call]) == TakenBy(calls) + call.taken
    ensures ArrivedOf(block, calls + [call]) ==
            ArrivedOf(block, calls) +
            (if call.arrived then block[TakenBy(calls)..TakenBy(calls) + call.taken] else [])
  {
    assert (calls + [call])[..|calls|] == calls;
  }

  lemma HandsOver(c: Config, s: State, actions: seq<Action>, a: Action)
    requires Inv(c, s) && Enabled(c, s, a) && InBounds(s, a) && HandedOver(c, s, actions)
    requires !s.nvm.NvmIdle? && !Apply(c, s, a).nvm.NvmIdle?
    ensures HandedOver(c, Apply(c, s, a), actions + [a])
  {
    hide Inv, CallsIn, ArrivedOf, TakenBy, Feed;
    HeldOverStep(c, s, a);
    CallsSnoc(actions, a);
    NvmWaits(c, s, a);
    if a.NvmSendto? {
      CallSnoc(s.image.data[s.image.readPtr], CallsIn(actions), Call(a.n, a.arrives));
      SendsFromHeld(c, s, a);
    }
    assert CallsIn(actions) + [] == CallsIn(actions);
  }

  /** The other tasks leave nvm alone, and the slots keep their length. */
  lemma NvmWaits(c: Config, s: State, a: Action)
    requires Inv(c, s) && Enabled(c, s, a) && InBounds(s, a)
    ensures a.NvmSendto? || a.NvmSendFails? || a.NvmEndTest? || a.NvmReleaseSlot? || a.NvmEmptyTest? || Apply(c, s, a).nvm == s.nvm
    ensures a.NvmEndTest? ==> Apply(c, s, a).nvm == NvmRelease(s.nvm.got)
    ensures var s' := Apply(c, s, a);
            s'.image.readPtr < |s'.image.data| && |s'.image.data[s'.image.readPtr]| == c.frameSize
  {
    hide Inv, Apply;
    StepKeepsInv(c, s, a);
    SlotLengths(c, Apply(c, s, a));
    NvmUntouched(c, s, a);
  }

  lemma SlotLengths(c: Config, s: State)
    requires Inv(c, s)
    ensures s.image.readPtr < |s.image.data| && |s.image.data[s.image.readPtr]| == c.frameSize
  {
    hide Parse, Flatten, Seen, Subsequence, Contents, NoMarker, MarkerAt, IsJpeg, IsBlock, Distance, IsPow2;
  }

  lemma NvmUntouched(c: Config, s: State, a: Action)
    requires Inv(c, s) && Enabled(c, s, a) && InBounds(s, a)
    ensures a.NvmSendto? || a.NvmSendFails? || a.NvmEndTest? || a.NvmReleaseSlot? || a.NvmEmptyTest? || Apply(c, s, a).nvm == s.nvm
    ensures a.NvmEndTest? ==> Apply(c, s, a).nvm == NvmRelease(s.nvm.got)
  {
    hide Parse, Flatten, Seen, Feed, Subsequence, Contents, NoMarker, MarkerAt, IsJpeg, IsBlock, Distance, IsPow2, LogsOk;
  }

  lemma SendsFromHeld(c: Config, s: State, a: Action)
    requires Inv(c, s) && a.NvmSendto? && Enabled(c, s, a)
    ensures s.nvm.slot == s.image.readPtr
  {
    hide Parse, Flatten, Seen, Feed, Subsequence, Contents, NoMarker, MarkerAt, IsJpeg, IsBlock, Distance, IsPow2, LogsOk;
  }

  /** Handed over once. In every run, whatever is lost and whatever fails: since nvm took its slot, every
      sendto has taken the piece of the slot that follows the earlier ones, of at most `chunk` bytes,
      whether or not its datagram arrived; what has arrived is exactly the pieces that did; and when
      nvm comes to release the slot all of it has been handed over unless a send failed. */
  lemma {:induction false} HandedOverOnce(c: Config, states: seq<State>, actions: seq<Action>, b: nat, n: nat)
    requires ValidConfig(c) && IsRun(c, states, actions) && HeldSince(states, actions, b, n)
    ensures HandedOver(c, states[n], actions[b + 1..n])
    decreases n
  {
    hide Inv, Apply, Enabled, InBounds, Init, HandedOver;
    RunKeepsInv(c, states, actions, n - 1);
    RunKeepsInv(c, states, actions, n);
    assert IsStep(c, states[n - 1], actions[n - 1], states[n - 1 + 1]);
    if n == b + 1 {
      assert actions[b + 1..n] == [];
      TakesSlot(c, states[b], states[n]);
    } else {
      HandedOverOnce(c, states, actions, b, n - 1);
      HandsOver(c, states[n - 1], actions[b + 1..n - 1], actions[n - 1]);
      assert actions[b + 1..n] == actions[b + 1..n - 1] + [actions[n - 1]];
    }
  }

  lemma TakesSlot(c: Config, s: State, s': State)
    requires Inv(c, s') && IsStep(c, s, NvmEmptyTest, s') && !s'.nvm.NvmIdle?
    ensures HandedOver(c, s', [])
  {
    hide Parse, Flatten, Seen, Feed, Subsequence, Contents, NoMarker, MarkerAt, IsJpeg, IsBlock, Distance, IsPow2;
  }

  // ---------- end to end, with losses ----------

  ghost predicate Intact(sent: seq<Sent>, i: int, j: int)
    requires 0 <= i && j <= |sent|
  {
    forall k :: i <= k < j ==> sent[k].got == sent[k].block
  }

  /** What the viewer makes of the bytes that arrived of the frames before the i-th. */
  function BeforeFrame(s: State, i: nat): Parsed
    requires i <= |s.sent|
  {
    Parse(Flatten(Gots(s.sent)[..i]))
  }

  /** Whatever datagrams were lost and whatever sends failed, a run of frames that arrived whole comes
      out whole and consecutively, after what the bytes before it gave; only the first of them may come
      out joined to bytes of a frame broken before it, and does exactly when those bytes left a frame
      open. */
  lemma RecoveryAfterLoss(c: Config, states: seq<State>, actions: seq<Action>, n: nat, i: nat, j: nat)
    returns (first: seq<byte>, later: seq<seq<byte>>)
    requires ValidConfig(c) && IsRun(c, states, actions) && n < |states|
    requires i < j <= |states[n].sent| && Intact(states[n].sent, i, j)
    ensures var jpegs := Jpegs(states[n].sent);
            var before := BeforeFrame(states[n], i);
            && states[n].viewer.pushed == before.frames + [first] + jpegs[i + 1..j] + later
            && (first == jpegs[i] <==> !OpenFrame(before.rest))
            && first == Closed(before.rest, jpegs[i])
            && |jpegs[i]| <= |first| && first[|first| - |jpegs[i]|..] == jpegs[i]
  {
    RunKeepsInv(c, states, actions, n);
    first, later := RecoveredFrames(c, states[n], i, j);
  }

  lemma RecoveredFrames(c: Config, s: State, i: nat, j: nat)
    returns (first: seq<byte>, later: seq<seq<byte>>)
    requires Inv(c, s) && i < j <= |s.sent| && Intact(s.sent, i, j)
    ensures var jpegs := Jpegs(s.sent);
            var before := BeforeFrame(s, i);
            && s.viewer.pushed == before.frames + [first] + jpegs[i + 1..j] + later
            && first == Closed(before.rest, jpegs[i])
  {
    hide Parse, IndexOf, Flatten, Subsequence, NoMarker, MarkerAt, IsJpeg, Distance, IsPow2, RingsOk, CameraOk, TranscoderOk, NvmOk;
    var gots, jpegs := Gots(s.sent), Jpegs(s.sent);
    var garbage := Flatten(gots[..i]);
    var slots := gots[i..j];
    var rest := Flatten(gots[j..]) + CurrentGot(s.nvm);
    FlattenAppend(gots[..i], gots[i..j]);
    FlattenAppend(gots[..j], gots[j..]);
    assert gots[..i] + gots[i..j] == gots[..j] && gots[..j] + gots[j..] == gots;
    assert Delivered(s) == garbage + Flatten(slots) + rest;
    SelfSynchronisation(garbage, slots, jpegs[i..j], rest);
    first := Closed(Parse(garbage).rest, jpegs[i]);
    later := Parse(Parse(garbage + Flatten(slots)).rest + rest).frames;
    assert jpegs[i..j][1..] == jpegs[i + 1..j];
  }
}
