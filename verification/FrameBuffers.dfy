/** middleware/frameBuffer/framebuffer.c: the raw ring between the camera task and the transcoder. */
module FrameBuffers {
  import opened Types
  import opened RingBuffers

  /** memcpy of a payload over a slot: the bytes beyond the payload stay. */
  function Overlay(slot: seq<byte>, payload: seq<byte>): (r: seq<byte>)
    requires |payload| <= |slot|
    ensures |r| == |slot| && r[..|payload|] == payload && r[|payload|..] == slot[|payload|..]
  {
    payload + slot[|payload|..]
  }

  /** Every slot is a frame_t of the given size. */
  ghost predicate FramesOk(b: Ring<seq<byte>>, frameSize: nat) {
    InRange(b) && forall i :: 0 <= i < b.size ==> |b.data[i]| == frameSize
  }

  /** Storing one captured frame: dropped when the ring is full. */
  function Capture(b: Ring<seq<byte>>, payload: seq<byte>): Ring<seq<byte>>
    requires b.size > 0 && b.writePtr < |b.data| && |payload| <= |b.data[b.writePtr]|
  {
    if IsFull(b) then b else IncWrite(Put(b, Overlay(b.data[b.writePtr], payload)))
  }

  /** What a capture does to the queue: the overlaid slot at its end, or nothing when it is full. */
  lemma CaptureAppends(b: Ring<seq<byte>>, frameSize: nat, payload: seq<byte>)
    requires FramesOk(b, frameSize) && |payload| <= frameSize
    ensures FramesOk(Capture(b, payload), frameSize)
    ensures Contents(Capture(b, payload)) ==
            if |Contents(b)| == b.size - 1 then Contents(b)
            else Contents(b) + [Overlay(b.data[b.writePtr], payload)]
  {
    EmptyAndFull(b);
    if !IsFull(b) {
      var slot := Overlay(b.data[b.writePtr], payload);
      PutKeepsContents(b, slot);
      IncWriteAppends(Put(b, slot));
    }
  }

  class FrameBuffer {
    const ring: RingBuffer<seq<byte>>
    const frameSize: nat

    ghost predicate Valid()
      reads this, ring, ring.data
    {
      ring.Valid() && FramesOk(ring.View(), frameSize)
    }

    constructor (size: nat, frameSize: nat)
      requires IsPow2(size)
      ensures Valid() && fresh(ring) && fresh(ring.data) && this.frameSize == frameSize
      ensures ring.size == size && Contents(ring.View()) == []
      ensures forall i, k :: 0 <= i < ring.data.Length && 0 <= k < frameSize ==> ring.data[i][k] == 0
    {
      ring := new RingBuffer<seq<byte>>(size, seq(frameSize, _ => 0));
      this.frameSize := frameSize;
      new;
      EmptyAndFull(ring.View());
    }

    /** framebuffer_writeframe. The parameters are what select, the dequeue of a driver buffer and its
        requeue answer; a frame dequeued with saveFrame set is stored even when the requeue fails. */
    method WriteFrame(saveFrame: bool, selected: bool, dequeued: SysResult, payload: seq<byte>, requeued: SysResult)
      returns (ret: SysResult)
      requires Valid() && |payload| <= frameSize
      modifies ring`writePtr, ring.data
      ensures Valid()
      ensures ring.View() ==
              if selected && dequeued.SysSuccess? && saveFrame then Capture(old(ring.View()), payload)
              else old(ring.View())
      ensures ret.SysSuccess? <==> selected && dequeued.SysSuccess? && requeued.SysSuccess? && saveFrame
      ensures ret.SysFailure? <==> selected && !(dequeued.SysSuccess? && requeued.SysSuccess?)
    {
      if !selected {
        return SysIgnore;
      }
      if !dequeued.SysSuccess? {
        return SysFailure;
      }
      if saveFrame {
        CaptureAppends(ring.View(), frameSize, payload);
        var len, empty, full := ring.Status();
        EmptyAndFull(ring.View());
        if !full {
          ghost var before := ring.View();
          var w := ring.writePtr;
          ring.data[w] := Overlay(ring.data[w], payload);
          assert ring.View() == Put(before, Overlay(before.data[w], payload));
          PutKeepsContents(before, ring.View().data[w]);
          ring.IncWritePtr();
        }
      }
      if !requeued.SysSuccess? {
        return SysFailure;
      }
      return if saveFrame then SysSuccess else SysIgnore;
    }

    /** framebuffer_getframe_ptr: the oldest slot, left in the ring. */
    method GetFramePtr() returns (ret: SysResult, slot: nat)
      requires Valid()
      ensures ret == if Contents(ring.View()) == [] then SysIgnore else SysSuccess
      ensures ret.SysSuccess? ==> slot == ring.readPtr < ring.data.Length && ring.data[slot] == Contents(ring.View())[0]
    {
      EmptyAndFull(ring.View());
      if ring.readPtr == ring.writePtr {
        return SysIgnore, 0;
      }
      return SysSuccess, ring.readPtr;
    }

    /** framebuffer_getframe: the oldest slot, copied out and released. */
    method GetFrame() returns (ret: SysResult, frame: seq<byte>)
      requires Valid()
      modifies ring`readPtr
      ensures Valid()
      ensures ret == if old(Contents(ring.View())) == [] then SysIgnore else SysSuccess
      ensures ret.SysIgnore? ==> ring.View() == old(ring.View())
      ensures ret.SysSuccess? ==> old(Contents(ring.View())) == [frame] + Contents(ring.View())
    {
      EmptyAndFull(ring.View());
      if ring.readPtr == ring.writePtr {
        return SysIgnore, [];
      }
      frame := ring.Read();
      return SysSuccess, frame;
    }

    /** framebuffer_freeframe: the oldest slot is released, whichever slot the caller names. */
    method FreeFrame() returns (ret: SysResult)
      requires Valid()
      modifies ring`readPtr
      ensures Valid()
      ensures ring.View() == if ret.SysSuccess? then IncRead(old(ring.View())) else old(ring.View())
      ensures ret == if old(Contents(ring.View())) == [] then SysFailure else SysSuccess
      ensures ret.SysSuccess? ==> Contents(ring.View()) == old(Contents(ring.View()))[1..]
    {
      EmptyAndFull(ring.View());
      if ring.readPtr == ring.writePtr {
        return SysFailure;
      }
      IncReadDrops(ring.View());
      ring.IncReadPtr();
      return SysSuccess;
    }
  }
}
