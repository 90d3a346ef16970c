/** src/nvm/nvm.c: sending the image ring's frames. */
module NvmTasks {
  import opened Types
  import opened RingBuffers
  import opened FrameBuffers
  import opened Images

  /** The image ring after one turn of nvm_task: the oldest frame is gone, sent or not. */
  function SendOldest(image: Ring<seq<byte>>): Ring<seq<byte>>
    requires image.size > 0
  {
    if IsEmpty(image) then image else IncRead(image)
  }

  lemma SendOldestDrops(image: Ring<seq<byte>>, frameSize: nat)
    requires FramesOk(image, frameSize)
    ensures FramesOk(SendOldest(image), frameSize)
    ensures Contents(SendOldest(image)) == if Contents(image) == [] then [] else Contents(image)[1..]
  {
    EmptyAndFull(image);
    if !IsEmpty(image) {
      IncReadDrops(image);
    }
  }

  /** n turns of the loop in nvm_task. */
  ghost function Turns(image: Ring<seq<byte>>, frameSize: nat, n: nat): (r: Ring<seq<byte>>)
    requires FramesOk(image, frameSize)
    ensures FramesOk(r, frameSize)
    ensures Contents(r) == Contents(image)[Min(n, |Contents(image)|)..]
  {
    if n == 0 then image
    else
      SendOldestDrops(Turns(image, frameSize, n - 1), frameSize);
      SendOldest(Turns(image, frameSize, n - 1))
  }

  /** Sending the i-th frame of the queue extends what has gone out by that frame. */
  lemma NextTurn(q: seq<seq<byte>>, i: nat, datagrams: seq<seq<byte>>, sent: seq<seq<byte>>)
    requires Flatten(datagrams) == Flatten(q[..Min(i, |q|)])
    requires if i < |q| then Flatten(sent) == q[i] else sent == []
    ensures Flatten(datagrams + sent) == Flatten(q[..Min(i + 1, |q|)])
  {
    FlattenAppend(datagrams, sent);
    if i < |q| {
      assert q[..i + 1] == q[..i] + [q[i]];
      FlattenSnoc(q[..i], q[i]);
    } else {
      assert datagrams + sent == datagrams;
    }
  }

  /** What the i-th turn has to send. */
  function Frame(q: seq<seq<byte>>, i: nat): seq<byte> {
    if i < |q| then q[i] else []
  }

  /** The first k datagrams are a beginning of the oldest frame, the others a beginning of the next. */
  ghost predicate TwoBeginnings(q: seq<seq<byte>>, datagrams: seq<seq<byte>>, k: nat)
    requires k <= |datagrams|
  {
    Flatten(datagrams[..k]) <= Frame(q, 0) && Flatten(datagrams[k..]) <= Frame(q, 1)
  }

  /** What has gone out by the end of the i-th turn of a release. */
  ghost predicate GoneOut(q: seq<seq<byte>>, i: nat, datagrams: seq<seq<byte>>, ok: bool) {
    && (ok ==> Flatten(datagrams) == Flatten(q[..Min(i, |q|)]))
    && (i == 0 ==> datagrams == [])
    && (i == 1 ==> Flatten(datagrams) <= Frame(q, 0))
    && (i == 2 ==> exists k: nat :: k <= |datagrams| && TwoBeginnings(q, datagrams, k))
  }

  lemma NothingOut(q: seq<seq<byte>>)
    ensures GoneOut(q, 0, [], true)
  {
  }

  lemma AllGoneOut(q: seq<seq<byte>>, datagrams: seq<seq<byte>>, ok: bool)
    requires GoneOut(q, 2, datagrams, ok)
    ensures ok ==> Flatten(datagrams) == Flatten(q[..Min(2, |q|)])
  {
  }

  lemma TurnSends(q: seq<seq<byte>>, i: nat, datagrams: seq<seq<byte>>, ok: bool, sent: seq<seq<byte>>, sentOk: bool)
    requires GoneOut(q, i, datagrams, ok) && i < 2
    requires var rest := q[Min(i, |q|)..];
             if rest == [] then sent == [] && sentOk
             else Flatten(sent) <= rest[0] && (sentOk ==> Flatten(sent) == rest[0])
    ensures GoneOut(q, i + 1, datagrams + sent, ok && sentOk)
  {
    hide Flatten;
    assert Flatten(sent) <= Frame(q, i) by {
      FlattenCons([], []);
    }
    if ok && sentOk {
      NextTurn(q, i, datagrams, sent);
    }
    if i == 0 {
      assert datagrams + sent == sent;
    } else {
      var k := |datagrams|;
      assert (datagrams + sent)[..k] == datagrams && (datagrams + sent)[k..] == sent;
      assert TwoBeginnings(q, datagrams + sent, k);
    }
  }

  class Nvm {
    const images: ImageBuffer

    ghost predicate Valid()
      reads this, images, images.ring, images.ring.data
    {
      images.Valid()
    }

    constructor (images: ImageBuffer)
      requires images.Valid()
      ensures Valid() && this.images == images
    {
      this.images := images;
    }

    /** One turn of the loop in nvm_task; a failed image_save still releases the slot. */
    method SendOne(socketOk: bool, sendto: (nat, nat) -> int) returns (datagrams: seq<seq<byte>>, ok: bool)
      requires Valid() && MakesProgress(sendto)
      modifies images.ring`readPtr
      ensures Valid()
      ensures images.ring.View() == SendOldest(old(images.ring.View()))
      ensures var q := old(Contents(images.ring.View()));
              if q == [] then datagrams == [] && ok
              else
                && Flatten(datagrams) <= q[0] && (ok ==> Flatten(datagrams) == q[0])
                && (forall k :: 0 <= k < |datagrams| ==>
                      && |Flatten(datagrams[..k])| <= |q[0]|
                      && |datagrams[k]| == sendto(k, Min(1024, |q[0]| - |Flatten(datagrams[..k])|)))
                && (!ok <==> !socketOk || ((datagrams == [] || |Flatten(datagrams)| < |q[0]|) &&
                                           sendto(|datagrams|, Min(1024, |q[0]| - |Flatten(datagrams)|)) < 0))
      ensures socketOk && (forall k: nat, n: nat :: sendto(k, n) >= 0) ==> ok
    {
      EmptyAndFull(images.ring.View());
      SendOldestDrops(images.ring.View(), images.frameSize);
      datagrams, ok := [], true;
      var ret, slot := images.StartRead();
      if ret.SysSuccess? {
        var saveFrame := images.ring.data[slot];
        assert |saveFrame| == images.frameSize by {
          assert |images.ring.View().data[slot]| == images.frameSize;
        }
        var saved;
        saved, datagrams := ImageSave(saveFrame, images.frameSize, socketOk, sendto);
        assert saveFrame[..images.frameSize] == saveFrame;
        ok := saved.SysSuccess?;
        var ended := images.EndRead();
      }
    }

    /** One release of nvm_task: two frames at most, in ring order; networks[i] answers the sends of
        the i-th turn. */
    method Release(socketOk: bool, networks: seq<(nat, nat) -> int>) returns (datagrams: seq<seq<byte>>, ok: bool)
      requires Valid() && |networks| == 2 && MakesProgress(networks[0]) && MakesProgress(networks[1])
      modifies images.ring`readPtr
      ensures Valid()
      ensures images.ring.View() == Turns(old(images.ring.View()), images.frameSize, 2)
      ensures GoneOut(old(Contents(images.ring.View())), 2, datagrams, ok)
      ensures var q := old(Contents(images.ring.View())); ok ==> Flatten(datagrams) == Flatten(q[..Min(2, |q|)])
      ensures socketOk && (forall i, k: nat, n: nat :: 0 <= i < 2 ==> networks[i](k, n) >= 0) ==> ok
    {
      hide Flatten, Contents, Distance, IsPow2, SendOldest, MakesProgress, FramesOk, GoneOut;
      ghost var q := Contents(images.ring.View());
      datagrams, ok := [], true;
      NothingOut(q);
      for i := 0 to 2
        invariant Valid()
        invariant FramesOk(old(images.ring.View()), images.frameSize)
        invariant images.ring.View() == Turns(old(images.ring.View()), images.frameSize, i)
        invariant GoneOut(q, i, datagrams, ok)
        invariant socketOk && (forall i, k: nat, n: nat :: 0 <= i < 2 ==> networks[i](k, n) >= 0) ==> ok
      {
        var sent, sentOk := SendOne(socketOk, networks[i]);
        TurnSends(q, i, datagrams, ok, sent, sentOk);
        datagrams, ok := datagrams + sent, ok && sentOk;
      }
      AllGoneOut(q, datagrams, ok);
    }
  }
}
