/** middleware/events/events.h, and the non-blocking bounded message queue of utils/osal/osal.c. */
module Events {
  import opened Types

  datatype Event = EventNone | EventMotionDetected | EventMotionLost

  /** osal_queue_send on a queue opened with O_NONBLOCK: a full queue refuses the message. */
  function Enqueue(q: seq<Event>, capacity: nat, e: Event): seq<Event> {
    if |q| < capacity then q + [e] else q
  }

  class EventQueue {
    const capacity: nat
    var messages: seq<Event>

    ghost predicate Valid()
      reads this
    {
      |messages| <= capacity
    }

    constructor (capacity: nat)
      ensures Valid() && messages == [] && this.capacity == capacity
    {
      this.capacity := capacity;
      messages := [];
    }

    method Send(e: Event) returns (ret: SysResult)
      requires Valid()
      modifies this
      ensures Valid()
      ensures messages == Enqueue(old(messages), capacity, e)
      ensures ret == if |old(messages)| < capacity then SysSuccess else SysFailure
    {
      if |messages| < capacity {
        messages := messages + [e];
        return SysSuccess;
      }
      return SysFailure;
    }

    /** osal_queue_receive: the oldest message, or failure when there is none. */
    method Receive() returns (ret: SysResult, e: Event)
      requires Valid()
      modifies this
      ensures Valid()
      ensures ret == if old(messages) == [] then SysFailure else SysSuccess
      ensures ret.SysFailure? ==> messages == [] && e.EventNone?
      ensures ret.SysSuccess? ==> old(messages) == [e] + messages
    {
      if messages == [] {
        return SysFailure, EventNone;
      }
      e := messages[0];
      messages := messages[1..];
      return SysSuccess, e;
    }
  }
}
