/** What every interleaving of the camera, transcoder and nvm tasks keeps. */
module PipelineProofs {
  import opened Types
  import opened RingBuffers
  import opened StreamViewer
  import opened Pipeline

  // ---------- one step ----------

  /** The oldest block of a ring belongs to the first payload of its log not yet taken. */
  lemma OldestBlock(b: Slots, log: seq<seq<byte>>, from: nat)
    requires InRange(b) && Holds(Contents(b), log, from) && !IsEmpty(b)
    ensures from < |log| && IsBlock(b.data[b.readPtr], log[from])
  {
    EmptyAndFull(b);
    assert IsBlock(Contents(b)[0], log[from + 0]);
  }

  lemma InvInBounds(c: Config, s: State, a: Action)
    requires Inv(c, s) && Enabled(c, s, a)
    ensures InBounds(s, a)
  {
    if a.TransPublish? {
      OldestBlock(s.raw, s.stored, s.freed);
    } else if a.NvmReleaseSlot? {
      OldestBlock(s.image, s.queued, |s.sent|);
    }
  }

  /** Overwriting part of the free slot changes neither the queue nor any other slot. */
  lemma PutPart(b: Slots, size: nat, frameSize: nat, log: seq<seq<byte>>, from: nat, k: nat, x: byte)
    requires SlotsOk(b, size, frameSize) && Holds(Contents(b), log, from) && Clean(b, true) && k < frameSize
    ensures var b' := Put(b, b.data[b.writePtr][k := x]);
            SlotsOk(b', size, frameSize) && Contents(b') == Contents(b) && Holds(Contents(b'), log, from) && Clean(b', true)
  {
    PutKeepsContents(b, b.data[b.writePtr][k := x]);
  }

  lemma PublishSlot(b: Slots, size: nat, frameSize: nat, log: seq<seq<byte>>, from: nat, jpeg: seq<byte>)
    requires SlotsOk(b, size, frameSize) && Holds(Contents(b), log, from) && Clean(b, true)
    requires !IsFull(b) && IsBlock(b.data[b.writePtr], jpeg)
    ensures var b' := IncWrite(b);
            SlotsOk(b', size, frameSize) && Holds(Contents(b'), log + [jpeg], from) && Clean(b', false) && !IsEmpty(b')
  {
    IncWriteAppends(b);
    EmptyAndFull(IncWrite(b));
  }

  lemma ReleaseSlot(b: Slots, size: nat, frameSize: nat, log: seq<seq<byte>>, from: nat, busy: bool)
    requires SlotsOk(b, size, frameSize) && Holds(Contents(b), log, from) && Clean(b, busy) && !IsEmpty(b)
    ensures var b' := IncRead(b);
            && SlotsOk(b', size, frameSize) && Holds(Contents(b'), log, from + 1) && Clean(b', busy)
            && (!IsFull(b) ==> !IsFull(b'))
  {
    IncReadDrops(b);
    EmptyAndFull(b);
    EmptyAndFull(IncRead(b));
    var q, q' := Contents(b), Contents(IncRead(b));
    forall i | 0 <= i < |q'| ensures IsBlock(q'[i], log[from + 1 + i]) {
      assert q'[i] == q[i + 1] && IsBlock(q[i + 1], log[from + (i + 1)]);
    }
  }

  // ---------- the camera's steps ----------

  lemma CopyByteKeepsPart(slot: seq<byte>, jpeg: seq<byte>, k: nat, n: nat)
    requires |slot| == n && k < |jpeg| <= n && slot[..k] == jpeg[..k] && NoMarker(slot, SOI, Max(k, 1), n)
    ensures var slot' := slot[k := jpeg[k]]; slot'[..k + 1] == jpeg[..k + 1] && NoMarker(slot', SOI, Max(k + 1, 1), n)
  {
    var slot' := slot[k := jpeg[k]];
    forall i | k + 1 <= i < n ensures !MarkerAt(slot', i, SOI) {
      assert !MarkerAt(slot, i, SOI);
    }
  }

  /** A payload laid over older bytes with no late SOI makes a block, whatever its length. */
  lemma FilledSlotIsBlock(slot: seq<byte>, jpeg: seq<byte>)
    requires IsJpeg(jpeg) && |jpeg| <= |slot| && slot[..|jpeg|] == jpeg && NoMarker(slot, SOI, |jpeg|, |slot|)
    ensures IsBlock(slot, jpeg)
  {
    forall i | 1 <= i < |slot| ensures !MarkerAt(slot, i, SOI) {
      if i + 1 < |jpeg| {
        assert !MarkerAt(jpeg, i, SOI);
      } else if i < |jpeg| {
        assert slot[i] == jpeg[i] == EOI;
      }
    }
  }

  lemma CamOfferKeeps(c: Config, s: State, jpeg: seq<byte>)
    requires Inv(c, s) && Enabled(c, s, CamOffer(jpeg)) && InBounds(s, CamOffer(jpeg))
    ensures Inv(c, Apply(c, s, CamOffer(jpeg)))
  {
    hide Parse, Flatten, Seen, Feed, Subsequence, Contents, NoMarker, MarkerAt, IsJpeg, IsBlock, Distance, IsPow2;
    var s' := Apply(c, s, CamOffer(jpeg));
    assert s'.offered[..|s'.offered| - 1] == s.offered == s.offered[..|s.offered|];
    assert Delivered(s') == Delivered(s);
  }

  lemma FullTestLogs(s: State)
    requires LogsOk(s) && s.camera.CamTest?
    ensures LogsOk(s.(camera := CamIdle, rawDrops := s.rawDrops + 1))
    ensures LogsOk(s.(camera := CamCopy(s.camera.jpeg, 0)))
  {
    hide Subsequence, IsBlock;
    var rest := s.offered[..|s.offered| - 1];
    assert s.offered == rest + [s.camera.jpeg];
    SubsequenceSkip(s.stored, rest, s.camera.jpeg);
    assert s.offered[..|s.offered|] == s.offered;
  }

  lemma CamFullTestKeeps(c: Config, s: State)
    requires Inv(c, s) && Enabled(c, s, CamFullTest) && InBounds(s, CamFullTest)
    ensures Inv(c, Apply(c, s, CamFullTest))
  {
    hide Parse, Flatten, Seen, Feed, Subsequence, Contents, NoMarker, MarkerAt, IsJpeg, IsBlock, Distance, IsPow2, LogsOk;
    FullTestLogs(s);
    var s' := Apply(c, s, CamFullTest);
    assert Delivered(s') == Delivered(s);
  }

  lemma CamCopyByteKeeps(c: Config, s: State)
    requires Inv(c, s) && Enabled(c, s, CamCopyByte) && InBounds(s, CamCopyByte)
    ensures Inv(c, Apply(c, s, CamCopyByte))
  {
    hide Parse, Flatten, Seen, Feed, Subsequence, Contents, NoMarker, MarkerAt, IsJpeg, IsBlock, Distance, IsPow2;
    var s' := Apply(c, s, CamCopyByte);
    var CamCopy(jpeg, k) := s.camera;
    assert Delivered(s') == Delivered(s);
    CopyByteKeepsPart(s.raw.data[s.raw.writePtr], jpeg, k, c.frameSize);
    PutPart(s.raw, c.rawSize, c.frameSize, s.stored, s.freed, k, jpeg[k]);
  }

  lemma CamPublishKeeps(c: Config, s: State)
    requires Inv(c, s) && Enabled(c, s, CamPublish) && InBounds(s, CamPublish)
    ensures Inv(c, Apply(c, s, CamPublish))
  {
    hide Parse, Flatten, Seen, Feed, Subsequence, Contents, NoMarker, MarkerAt, IsBlock, Distance, IsPow2;
    var s' := Apply(c, s, CamPublish);
    var CamCopy(jpeg, k) := s.camera;
    assert Delivered(s') == Delivered(s);
    var slot := s.raw.data[s.raw.writePtr];
    assert jpeg[..k] == jpeg;
    FilledSlotIsBlock(slot, jpeg);
    PublishSlot(s.raw, c.rawSize, c.frameSize, s.stored, s.freed, jpeg);
    var rest := s.offered[..|s.offered| - 1];
    assert s.offered == rest + [jpeg];
    SubsequenceKeep(s.stored, rest, jpeg);
    assert s'.offered[..|s'.offered|] == s.offered;
    assert s'.stored[..s'.freed + Settled(s')] == s.stored[..s.freed + Settled(s)];
  }

  // ---------- the transcoder's steps ----------

  lemma TransEmptyTestKeeps(c: Config, s: State)
    requires Inv(c, s) && Enabled(c, s, TransEmptyTest) && InBounds(s, TransEmptyTest)
    ensures Inv(c, Apply(c, s, TransEmptyTest))
  {
    hide Parse, Flatten, Seen, Feed, Subsequence, Contents, NoMarker, MarkerAt, IsJpeg, IsBlock, Distance, IsPow2;
    assert Delivered(Apply(c, s, TransEmptyTest)) == Delivered(s);
  }

  lemma TransReadByteKeeps(c: Config, s: State)
    requires Inv(c, s) && Enabled(c, s, TransReadByte) && InBounds(s, TransReadByte)
    ensures Inv(c, Apply(c, s, TransReadByte))
  {
    hide Parse, Flatten, Seen, Feed, Subsequence, Contents, NoMarker, MarkerAt, IsJpeg, IsBlock, Distance, IsPow2;
    var s' := Apply(c, s, TransReadByte);
    assert Delivered(s') == Delivered(s);
    var slot := s.raw.data[s.transcoder.slot];
    var n := |s.transcoder.local|;
    assert slot[..n + 1] == slot[..n] + [slot[n]];
    assert slot[..|slot|] == slot;
  }

  lemma TransFullTestKeeps(c: Config, s: State)
    requires Inv(c, s) && Enabled(c, s, TransFullTest) && InBounds(s, TransFullTest)
    ensures Inv(c, Apply(c, s, TransFullTest))
  {
    hide Parse, Flatten, Seen, Feed, Subsequence, Contents, NoMarker, MarkerAt, IsJpeg, IsBlock, Distance, IsPow2;
    var s' := Apply(c, s, TransFullTest);
    assert Delivered(s') == Delivered(s);
    OldestBlock(s.raw, s.stored, s.freed);
    if IsFull(s.image) {
      assert s.stored[..s.freed + 1] == s.stored[..s.freed] + [s.stored[s.freed]];
      SubsequenceSkip(s.queued, s.stored[..s.freed], s.stored[s.freed]);
    }
  }

  lemma TransWriteByteKeeps(c: Config, s: State)
    requires Inv(c, s) && Enabled(c, s, TransWriteByte) && InBounds(s, TransWriteByte)
    ensures Inv(c, Apply(c, s, TransWriteByte))
  {
    hide Parse, Flatten, Seen, Feed, Subsequence, Contents, NoMarker, MarkerAt, IsJpeg, IsBlock, Distance, IsPow2;
    var s' := Apply(c, s, TransWriteByte);
    assert Delivered(s') == Delivered(s);
    var k, local, slot := s.transcoder.k, s.transcoder.local, s.image.data[s.image.writePtr];
    PutPart(s.image, c.imageSize, c.frameSize, s.queued, |s.sent|, k, local[k]);
    assert slot[k := local[k]][..k + 1] == slot[..k] + [local[k]] == local[..k + 1];
  }

  lemma TransPublishKeeps(c: Config, s: State)
    requires Inv(c, s) && Enabled(c, s, TransPublish) && InBounds(s, TransPublish)
    ensures Inv(c, Apply(c, s, TransPublish))
  {
    hide Parse, Flatten, Seen, Feed, Subsequence, Contents, NoMarker, MarkerAt, IsJpeg, IsBlock, Distance, IsPow2;
    var s' := Apply(c, s, TransPublish);
    assert Delivered(s') == Delivered(s);
    var local, slot := s.transcoder.local, s.image.data[s.image.writePtr];
    assert slot[..c.frameSize] == slot && local[..c.frameSize] == local;
    OldestBlock(s.raw, s.stored, s.freed);
    var jpeg := s.stored[s.freed];
    PublishSlot(s.image, c.imageSize, c.frameSize, s.queued, |s.sent|, jpeg);
    assert s.stored[..s.freed + 1] == s.stored[..s.freed] + [jpeg];
    SubsequenceKeep(s.queued, s.stored[..s.freed], jpeg);
  }

  lemma TransFreeTestKeeps(c: Config, s: State)
    requires Inv(c, s) && Enabled(c, s, TransFreeTest) && InBounds(s, TransFreeTest)
    ensures Inv(c, Apply(c, s, TransFreeTest))
  {
    hide Parse, Flatten, Seen, Feed, Subsequence, Contents, NoMarker, MarkerAt, IsJpeg, IsBlock, Distance, IsPow2;
    assert Delivered(Apply(c, s, TransFreeTest)) == Delivered(s);
  }

  lemma TransReleaseKeeps(c: Config, s: State)
    requires Inv(c, s) && Enabled(c, s, TransReleaseSlot) && InBounds(s, TransReleaseSlot)
    ensures Inv(c, Apply(c, s, TransReleaseSlot))
  {
    hide Parse, Flatten, Seen, Feed, Subsequence, Contents, NoMarker, MarkerAt, IsJpeg, IsBlock, Distance, IsPow2;
    assert Delivered(Apply(c, s, TransReleaseSlot)) == Delivered(s);
    ReleaseSlot(s.raw, c.rawSize, c.frameSize, s.stored, s.freed, s.camera.CamCopy?);
  }

  // ---------- nvm's steps ----------

  lemma NvmEmptyTestKeeps(c: Config, s: State)
    requires Inv(c, s) && Enabled(c, s, NvmEmptyTest) && InBounds(s, NvmEmptyTest)
    ensures Inv(c, Apply(c, s, NvmEmptyTest))
  {
    hide Parse, Flatten, Seen, Feed, Subsequence, Contents, NoMarker, MarkerAt, IsJpeg, IsBlock, Distance, IsPow2;
    assert Delivered(Apply(c, s, NvmEmptyTest)) == Delivered(s);
  }

  lemma NvmSendtoKeeps(c: Config, s: State, n: nat, arrives: bool)
    requires Inv(c, s) && Enabled(c, s, NvmSendto(n, arrives)) && InBounds(s, NvmSendto(n, arrives))
    ensures Inv(c, Apply(c, s, NvmSendto(n, arrives)))
  {
    hide Parse, Flatten, Seen, Feed, Subsequence, Contents, NoMarker, MarkerAt, IsJpeg, IsBlock, Distance, IsPow2;
    var s' := Apply(c, s, NvmSendto(n, arrives));
    var NvmSend(slot, done, got) := s.nvm;
    var datagram := s.image.data[slot][done..done + n];
    if arrives {
      assert Delivered(s') == Delivered(s) + datagram;
      SeenAppend(Delivered(s), datagram);
    } else {
      assert Delivered(s') == Delivered(s);
    }
  }

  lemma NvmSendFailsKeeps(c: Config, s: State)
    requires Inv(c, s) && Enabled(c, s, NvmSendFails) && InBounds(s, NvmSendFails)
    ensures Inv(c, Apply(c, s, NvmSendFails))
  {
    hide Parse, Flatten, Seen, Feed, Subsequence, Contents, NoMarker, MarkerAt, IsJpeg, IsBlock, Distance, IsPow2;
    assert Delivered(Apply(c, s, NvmSendFails)) == Delivered(s);
  }

  lemma NvmEndTestKeeps(c: Config, s: State)
    requires Inv(c, s) && Enabled(c, s, NvmEndTest) && InBounds(s, NvmEndTest)
    ensures Inv(c, Apply(c, s, NvmEndTest))
  {
    hide Parse, Flatten, Seen, Feed, Subsequence, Contents, NoMarker, MarkerAt, IsJpeg, IsBlock, Distance, IsPow2;
    assert Delivered(Apply(c, s, NvmEndTest)) == Delivered(s);
  }

  lemma NvmReleaseKeeps(c: Config, s: State)
    requires Inv(c, s) && Enabled(c, s, NvmReleaseSlot) && InBounds(s, NvmReleaseSlot)
    ensures Inv(c, Apply(c, s, NvmReleaseSlot))
  {
    hide Parse, Flatten, Seen, Feed, Subsequence, Contents, NoMarker, MarkerAt, IsJpeg, IsBlock, Distance, IsPow2;
    var s' := Apply(c, s, NvmReleaseSlot);
    OldestBlock(s.image, s.queued, |s.sent|);
    ReleaseSlot(s.image, c.imageSize, c.frameSize, s.queued, |s.sent|, s.transcoder.TransWrite?);
    FlattenSnoc(Gots(s.sent), s.nvm.got);
    assert Gots(s'.sent) == Gots(s.sent) + [s.nvm.got];
    assert Delivered(s') == Delivered(s);
  }

  // ---------- every step, every run ----------

  /** Whatever step is taken, the invariant survives it. */
  lemma StepKeepsInv(c: Config, s: State, a: Action)
    requires Inv(c, s) && Enabled(c, s, a) && InBounds(s, a)
    ensures Inv(c, Apply(c, s, a))
  {
    hide Inv, Apply;
    match a
    case CamOffer(jpeg) => CamOfferKeeps(c, s, jpeg);
    case CamFullTest => CamFullTestKeeps(c, s);
    case CamCopyByte => CamCopyByteKeeps(c, s);
    case CamPublish => CamPublishKeeps(c, s);
    case TransEmptyTest => TransEmptyTestKeeps(c, s);
    case TransReadByte => TransReadByteKeeps(c, s);
    case TransFullTest => TransFullTestKeeps(c, s);
    case TransWriteByte => TransWriteByteKeeps(c, s);
    case TransPublish => TransPublishKeeps(c, s);
    case TransFreeTest => TransFreeTestKeeps(c, s);
    case TransReleaseSlot => TransReleaseKeeps(c, s);
    case NvmEmptyTest => NvmEmptyTestKeeps(c, s);
    case NvmSendto(n, arrives) => NvmSendtoKeeps(c, s, n, arrives);
    case NvmSendFails => NvmSendFailsKeeps(c, s);
    case NvmEndTest => NvmEndTestKeeps(c, s);
    case NvmReleaseSlot => NvmReleaseKeeps(c, s);
  }

  /** At power-up both rings are empty, at their first slot, and every byte of every slot is zero. */
  lemma InitIsBlank(c: Config)
    ensures var s := Init(c);
            && s.raw.size == |s.raw.data| == c.rawSize && s.image.size == |s.image.data| == c.imageSize
            && s.raw.readPtr == s.raw.writePtr == s.image.readPtr == s.image.writePtr == 0
            && (forall i :: 0 <= i < c.rawSize ==> s.raw.data[i] == seq(c.frameSize, _ => 0))
            && (forall i :: 0 <= i < c.imageSize ==> s.image.data[i] == seq(c.frameSize, _ => 0))
  {
  }

  lemma InitInv(c: Config)
    requires ValidConfig(c)
    ensures Inv(c, Init(c))
  {
    var s := Init(c);
    EmptyAndFull(s.raw);
    EmptyAndFull(s.image);
    assert forall i :: 0 <= i < c.rawSize ==> forall k :: 0 <= k < c.frameSize ==> s.raw.data[i][k] == 0;
    assert Gots(s.sent) == [];
    ParseIncomplete([]);
  }

  lemma {:induction false} RunKeepsInv(c: Config, states: seq<State>, actions: seq<Action>, n: nat)
    requires ValidConfig(c) && IsRun(c, states, actions) && n < |states|
    ensures Inv(c, states[n])
  {
    hide Inv, Apply, Init, Enabled, InBounds;
    if n == 0 {
      InitInv(c);
    } else {
      RunKeepsInv(c, states, actions, n - 1);
      assert IsStep(c, states[n - 1], actions[n - 1], states[n - 1 + 1]);
      StepKeepsInv(c, states[n - 1], actions[n - 1]);
    }
  }
}
