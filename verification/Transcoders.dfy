/** src/transcoder/transcoder.c: moving frames from the raw ring to the image ring. */
module Transcoders {
  import opened Types
  import opened RingBuffers
  import opened FrameBuffers
  import opened Images

  /** process_frames on the two rings: the oldest raw slot, whole, goes to the image ring or is dropped
      there, and leaves the raw ring either way. */
  function ProcessFrames(raw: Ring<seq<byte>>, image: Ring<seq<byte>>): (Ring<seq<byte>>, Ring<seq<byte>>)
    requires raw.size > 0 && raw.readPtr < |raw.data| && image.size > 0 && image.writePtr < |image.data|
  {
    if IsEmpty(raw) then (raw, image)
    else (IncRead(raw), Store(image, raw.data[raw.readPtr]))
  }

  /** In terms of the two queues: one frame moves from the front of one to the end of the other. */
  lemma ProcessFramesMoves(raw: Ring<seq<byte>>, image: Ring<seq<byte>>, frameSize: nat)
    requires FramesOk(raw, frameSize) && FramesOk(image, frameSize)
    ensures var (raw', image') := ProcessFrames(raw, image);
            && FramesOk(raw', frameSize) && FramesOk(image', frameSize)
            && Contents(raw') == (if Contents(raw) == [] then [] else Contents(raw)[1..])
            && Contents(image') ==
               (if Contents(raw) == [] || |Contents(image)| == image.size - 1 then Contents(image)
                else Contents(image) + [Contents(raw)[0]])
  {
    EmptyAndFull(raw);
    if !IsEmpty(raw) {
      IncReadDrops(raw);
      StoreAppends(image, frameSize, raw.data[raw.readPtr]);
    }
  }

  /** n calls of process_frames in a row. */
  ghost function Passes(raw: Ring<seq<byte>>, image: Ring<seq<byte>>, frameSize: nat, n: nat)
    : (r: (Ring<seq<byte>>, Ring<seq<byte>>))
    requires FramesOk(raw, frameSize) && FramesOk(image, frameSize)
    ensures FramesOk(r.0, frameSize) && FramesOk(r.1, frameSize) && r.1.size == image.size
  {
    if n == 0 then (raw, image)
    else
      var (raw', image') := Passes(raw, image, frameSize, n - 1);
      ProcessFramesMoves(raw', image', frameSize);
      ProcessFrames(raw', image')
  }

  /** Moving one more frame from r to q, which has room for so many. */
  lemma OneMore(r: seq<seq<byte>>, q: seq<seq<byte>>, n: nat, room: nat)
    requires n > 0
    ensures var r', q' := r[Min(n - 1, |r|)..], q + r[..Min(Min(n - 1, |r|), room)];
            && r[Min(n, |r|)..] == (if r' == [] then [] else r'[1..])
            && q + r[..Min(Min(n, |r|), room)] == if r' == [] || |q'| == |q| + room then q' else q' + [r'[0]]
  {
    if n <= |r| && n <= room {
      assert r[..n - 1] + [r[n - 1]] == r[..n];
    }
  }

  /** On the queues: the first frames leave the raw queue, and go to the image queue while it has room. */
  lemma {:induction false} PassesMove(raw: Ring<seq<byte>>, image: Ring<seq<byte>>, frameSize: nat, n: nat)
    requires FramesOk(raw, frameSize) && FramesOk(image, frameSize)
    ensures var (raw', image') := Passes(raw, image, frameSize, n);
            var r, q := Contents(raw), Contents(image);
            Contents(raw') == r[Min(n, |r|)..] && Contents(image') == q + r[..Min(Min(n, |r|), image.size - 1 - |q|)]
  {
    hide ProcessFrames, Contents;
    var r, q := Contents(raw), Contents(image);
    if n == 0 {
      assert q + r[..0] == q;
    } else {
      PassesMove(raw, image, frameSize, n - 1);
      var (raw', image') := Passes(raw, image, frameSize, n - 1);
      ProcessFramesMoves(raw', image', frameSize);
      OneMore(r, q, n, image.size - 1 - |q|);
    }
  }

  class Transcoder {
    const frames: FrameBuffer
    const images: ImageBuffer
    const cameraFormat: PixelFormat

    ghost function Repr(): set<object>
      reads this
    {
      {frames.ring, frames.ring.data, images.ring, images.ring.data}
    }

    ghost predicate Valid()
      reads this, frames, frames.ring, frames.ring.data, images, images.ring, images.ring.data
    {
      && frames.Valid() && images.Valid()
      && frames.ring != images.ring && frames.ring.data != images.ring.data
      && frames.frameSize == images.frameSize && cameraFormat.Mjpeg?
    }

    constructor (frames: FrameBuffer, images: ImageBuffer)
      requires frames.Valid() && images.Valid() && frames.frameSize == images.frameSize
      requires frames.ring != images.ring && frames.ring.data != images.ring.data
      ensures Valid() && this.frames == frames && this.images == images
    {
      this.frames := frames;
      this.images := images;
      cameraFormat := Mjpeg;
    }

    /** process_frames, in the build that is configured for an MJPEG camera. */
    method ProcessOne()
      requires Valid()
      modifies Repr()
      ensures Valid()
      ensures (frames.ring.View(), images.ring.View()) == ProcessFrames(old(frames.ring.View()), old(images.ring.View()))
    {
      ProcessFramesMoves(frames.ring.View(), images.ring.View(), frames.frameSize);
      EmptyAndFull(frames.ring.View());
      var ret, slot := frames.GetFramePtr();
      if ret.SysSuccess? {
        var rgbFrame := new byte[images.frameSize];
        var rawFrame := frames.ring.data[slot];
        assert |rawFrame| == frames.frameSize by {
          assert |frames.ring.View().data[slot]| == frames.frameSize;
        }
        var converted := ImageConvert(cameraFormat, Rgb888, rawFrame, rgbFrame);
        assert rgbFrame[..] == rawFrame;
        var stored := images.Write(rgbFrame[..]);
        var freed := frames.FreeFrame();
      }
    }

    /** One release of transcoder_task: two frames at most. */
    method Release()
      requires Valid()
      modifies Repr()
      ensures Valid()
      ensures (frames.ring.View(), images.ring.View()) ==
              Passes(old(frames.ring.View()), old(images.ring.View()), frames.frameSize, 2)
      ensures var r, q := old(Contents(frames.ring.View())), old(Contents(images.ring.View()));
              && Contents(frames.ring.View()) == r[Min(2, |r|)..]
              && Contents(images.ring.View()) == q + r[..Min(Min(2, |r|), images.ring.size - 1 - |q|)]
    {
      for i := 0 to 2
        invariant Valid()
        invariant (frames.ring.View(), images.ring.View()) ==
                  Passes(old(frames.ring.View()), old(images.ring.View()), frames.frameSize, i)
      {
        ProcessOne();
      }
      PassesMove(old(frames.ring.View()), old(images.ring.View()), frames.frameSize, 2);
    }
  }
}
