/** src/camera/camera.c: the camera task's state machine in steady running. */
module Cameras {
  import opened Types
  import opened RingBuffers
  import opened Events
  import opened FrameBuffers

  datatype CameraState = Idle | Capturing

  /** The switch on a received event; without an event the state stays. */
  function React(c: CameraState, e: Event): CameraState {
    match e
    case EventMotionDetected => Capturing
    case EventMotionLost => Idle
    case EventNone => c
  }

  /** The camera after a whole queue of events. */
  function Fold(c: CameraState, q: seq<Event>): CameraState {
    if q == [] then c else React(Fold(c, q[..|q| - 1]), q[|q| - 1])
  }

  lemma {:induction false} FoldAppend(c: CameraState, q: seq<Event>, r: seq<Event>)
    ensures Fold(c, q + r) == Fold(Fold(c, q), r)
    decreases |r|
  {
    if r == [] {
      assert q + r == q;
    } else {
      var n := |r| - 1;
      FoldAppend(c, q, r[..n]);
      assert (q + r)[..|q + r| - 1] == q + r[..n];
    }
  }

  /** What the driver answers when a frame is asked for. */
  datatype Shot = Shot(selected: bool, dequeued: SysResult, payload: seq<byte>, requeued: SysResult)

  class CameraTask {
    const queue: EventQueue
    const frames: FrameBuffer
    var state: CameraState
    var numWrites: nat

    ghost predicate Valid()
      reads this, queue, frames, frames.ring, frames.ring.data
    {
      queue.Valid() && frames.Valid() && numWrites < TWO_32
    }

    constructor (queue: EventQueue, frames: FrameBuffer)
      requires queue.Valid() && frames.Valid()
      ensures Valid() && state == Idle && numWrites == 0 && this.queue == queue && this.frames == frames
    {
      this.queue := queue;
      this.frames := frames;
      state := Idle;
      numWrites := 0;
    }

    /** One turn of the loop in camera_task: at most one event, then one frame, which is stored only
        while capturing. */
    method Pass(shot: Shot)
      requires Valid() && |shot.payload| <= frames.frameSize
      modifies this`state, this`numWrites, queue, frames.ring`writePtr, frames.ring.data
      ensures Valid()
      ensures state == Fold(old(state), old(queue.messages)[..Min(1, |old(queue.messages)|)])
      ensures queue.messages == old(queue.messages)[Min(1, |old(queue.messages)|)..]
      ensures frames.ring.View() ==
              if state.Capturing? && shot.selected && shot.dequeued.SysSuccess?
              then Capture(old(frames.ring.View()), shot.payload) else old(frames.ring.View())
      ensures numWrites ==
              if state.Capturing? && shot.selected && shot.dequeued.SysSuccess? && shot.requeued.SysSuccess?
              then (old(numWrites) + 1) % TWO_32 else old(numWrites)
    {
      ghost var q := queue.messages;
      var ret, event := queue.Receive();
      match event {
        case EventMotionDetected =>
          if state.Idle? {
            state := Capturing;
          }
        case EventMotionLost =>
          state := Idle;
        case EventNone =>
      }
      assert q != [] ==> q[..1] == [event] && Fold(old(state), [event]) == React(Fold(old(state), [event][..0]), event);
      var written := frames.WriteFrame(state.Capturing?, shot.selected, shot.dequeued, shot.payload, shot.requeued);
      if state.Capturing? && written.SysSuccess? {
        numWrites := (numWrites + 1) % TWO_32;
      }
    }
  }
}
