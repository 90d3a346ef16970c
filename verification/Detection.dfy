/** src/detection/detection.c: the polled motion detector with its five-second hold-off. */
module Detection {
  import opened Types
  import opened Events

  // ---------- time ----------

  const NANOS: int := 1_000_000_000
  const HOLD_OFF: int := 5 * NANOS

  /** tv_nsec as clock_gettime fills it in. */
  type nanos = n: int | 0 <= n < NANOS

  /** struct timespec of the monotonic clock. */
  datatype Timespec = Timespec(sec: int, nsec: nanos)

  function Nanos(t: Timespec): int {
    t.sec * NANOS + t.nsec
  }

  /** m parts of which 2^30 make one. */
  function Parts(m: int): real {
    m as real / 1073741824.0
  }

  function Whole(m: int): real {
    m as real
  }

  const SIGNIFICANDS: int := 0x20_0000_0000_0000

  /** What the results need of the rounding to double: it keeps the order, and it leaves alone whole
      numbers and multiples of 1 / 2^30 whose digits fit the 53 bits of a significand. */
  ghost predicate RoundsToDouble(fl: real -> real) {
    && (forall x: real, y: real :: x <= y ==> fl(x) <= fl(y))
    && (forall m: int :: -SIGNIFICANDS <= m <= SIGNIFICANDS ==> fl(Whole(m)) == Whole(m))
    && (forall m: int :: -SIGNIFICANDS <= m <= SIGNIFICANDS ==> fl(Parts(m)) == Parts(m))
  }

  /** The elapsed time as the code computes it, every operation rounded. */
  function ElapsedSeconds(fl: real -> real, start: Timespec, now: Timespec): real {
    fl(fl((now.sec - start.sec) as real) + fl(fl((now.nsec - start.nsec) as real) / 1e9))
  }

  /** The hold-off is over. */
  predicate Expired(start: Timespec, now: Timespec) {
    Nanos(now) - Nanos(start) >= HOLD_OFF
  }

  /** The rounding never decides: the comparison in doubles is the one in whole nanoseconds. */
  lemma ElapsedIsExact(fl: real -> real, start: Timespec, now: Timespec)
    requires RoundsToDouble(fl)
    ensures ElapsedSeconds(fl, start, now) >= 5.0 <==> Expired(start, now)
  {
    var s, n := now.sec - start.sec, now.nsec - start.nsec;
    assert Nanos(now) - Nanos(start) == s * NANOS + n;
    assert fl(Whole(n)) == n as real;
    var a, q := fl(s as real), fl(n as real / 1e9);
    assert fl(Whole(5)) == 5.0 && fl(Parts(LAST_BEFORE)) == Parts(LAST_BEFORE) < 5.0;
    if s >= 6 {
      assert fl(Whole(6)) == 6.0 && fl(Whole(-1)) == -1.0;
      assert a >= 6.0 && q >= -1.0;
    } else if s == 5 {
      if n >= 0 {
        assert fl(Whole(0)) == 0.0 && q >= 0.0;
      } else {
        assert n as real / 1e9 <= Parts(-1) && q <= fl(Parts(-1));
        assert 5.0 + Parts(-1) == Parts(LAST_BEFORE);
      }
    } else {
      assert fl(Whole(4)) == 4.0 && a <= 4.0;
      assert n as real / 1e9 <= Parts(0x4000_0000 - 1) && q <= fl(Parts(0x4000_0000 - 1));
      assert 4.0 + Parts(0x4000_0000 - 1) == Parts(LAST_BEFORE);
    }
  }

  /** Five seconds less 1 / 2^30, which lies between them and the last nanosecond before. */
  const LAST_BEFORE: int := 5 * 0x4000_0000 - 1

  // ---------- one poll ----------

  datatype DetectionState = Detecting | MotionDetected | MotionLost | Timeout

  datatype Substate = Entry | Run | Exit

  datatype Detector =
    Detector(state: DetectionState, substate: Substate, motionDetected: bool, timeoutStart: Timespec)

  const POWER_UP: Detector := Detector(Detecting, Entry, false, Timespec(0, 0))

  /** The state machine after one sample and one reading of the clock, and the event it sends. */
  function Poll(d: Detector, sample: byte, now: Timespec): (Detector, Option<Event>) {
    if sample != 0 && !d.motionDetected then
      (d.(state := Detecting, motionDetected := true), Some(EventMotionDetected))
    else if sample == 0 && d.motionDetected && !d.state.Timeout? then
      (Detector(Timeout, Run, false, now), None)
    else
      var d1 := if sample == 0 then d.(motionDetected := false) else d;
      match d1.state
      case Detecting => (d1, None)
      case MotionDetected => (d1.(state := Detecting, motionDetected := true), Some(EventMotionDetected))
      case MotionLost => (d1.(state := Detecting, motionDetected := false), Some(EventMotionLost))
      case Timeout =>
        match d1.substate
        case Entry => (d1.(substate := Run, timeoutStart := now), None)
        case Run => (if Expired(d1.timeoutStart, now) then d1.(substate := Exit) else d1, None)
        case Exit => (d1.(state := MotionLost, motionDetected := false), None)
  }

  /** The sensor reading cut to the uint8_t that the loop keeps it in. */
  function SampleOf(reading: int): byte {
    reading % 0x100
  }

  /** A failed reading is -1, and counts as motion. */
  lemma FailedReadingIsMotion()
    ensures SampleOf(-1) == 255 && SampleOf(0) == 0 && SampleOf(1) == 1
  {
  }

  class MotionDetector {
    const queue: EventQueue
    var state: DetectionState
    var substate: Substate
    var motionDetected: bool
    var timeoutStart: Timespec

    ghost function View(): Detector
      reads this
    {
      Detector(state, substate, motionDetected, timeoutStart)
    }

    constructor (queue: EventQueue)
      ensures View() == POWER_UP && this.queue == queue
      ensures state == Detecting && substate == Entry && !motionDetected && timeoutStart == Timespec(0, 0)
    {
      this.queue := queue;
      state, substate, motionDetected, timeoutStart := Detecting, Entry, false, Timespec(0, 0);
    }

    /** process_next_state. */
    method ProcessNextState(curStatus: byte)
      modifies this
      ensures state == (if curStatus != 0 && !old(motionDetected) then MotionDetected
                        else if curStatus == 0 && old(motionDetected) then Timeout else old(state))
      ensures substate == if curStatus == 0 && old(motionDetected) && !old(state).Timeout? then Entry else old(substate)
      ensures motionDetected == (old(motionDetected) && curStatus != 0)
      ensures timeoutStart == old(timeoutStart)
    {
      if curStatus != 0 && !motionDetected {
        state := MotionDetected;
      } else if curStatus == 0 && motionDetected {
        motionDetected := false;
        if !state.Timeout? {
          substate := Entry;
          state := Timeout;
        }
      }
    }

    /** The body of the loop in detection_task, fl being the rounding of the machine's doubles. A refused
        send is ignored. */
    method Task(reading: int, now: Timespec, fl: real -> real)
      requires queue.Valid() && RoundsToDouble(fl)
      modifies this, queue
      ensures queue.Valid()
      ensures View() == Poll(old(View()), SampleOf(reading), now).0
      ensures queue.messages ==
              match Poll(old(View()), SampleOf(reading), now).1
              case None => old(queue.messages)
              case Some(e) => Enqueue(old(queue.messages), queue.capacity, e)
    {
      var curStatus := SampleOf(reading);
      ProcessNextState(curStatus);
      match state {
        case Detecting =>
        case MotionDetected =>
          motionDetected := true;
          var ret := queue.Send(EventMotionDetected);
          state := Detecting;
        case MotionLost =>
          motionDetected := false;
          var ret := queue.Send(EventMotionLost);
          state := Detecting;
        case Timeout =>
          match substate {
            case Entry =>
              substate := Run;
              timeoutStart := now;
            case Run =>
              ElapsedIsExact(fl, timeoutStart, now);
              if ElapsedSeconds(fl, timeoutStart, now) >= 5.0 {
                substate := Exit;
              }
            case Exit =>
              motionDetected := false;
              state := MotionLost;
          }
      }
    }
  }

  // ---------- runs ----------

  /** The samples and clock readings of the polls, in order. */
  datatype Trace = Trace(samples: seq<byte>, clock: seq<Timespec>)

  predicate ValidTrace(t: Trace) {
    |t.samples| == |t.clock|
  }

  /** The detector after the first n polls. */
  function After(t: Trace, n: nat): Detector
    requires ValidTrace(t) && n <= |t.samples|
  {
    if n == 0 then POWER_UP else Poll(After(t, n - 1), t.samples[n - 1], t.clock[n - 1]).0
  }

  /** What poll k sends. */
  function SentAt(t: Trace, k: nat): Option<Event>
    requires ValidTrace(t) && k < |t.samples|
  {
    Poll(After(t, k), t.samples[k], t.clock[k]).1
  }

  /** Every event of the first n polls. */
  function Word(t: Trace, n: nat): seq<Event>
    requires ValidTrace(t) && n <= |t.samples|
  {
    if n == 0 then []
    else if SentAt(t, n - 1).Some? then Word(t, n - 1) + [SentAt(t, n - 1).value] else Word(t, n - 1)
  }

  // ---------- the detector without its state machine ----------

  predicate High(t: Trace, k: int)
    requires 0 <= k < |t.samples|
  {
    t.samples[k] != 0
  }

  /** Poll j found motion gone, and the sensor has been low from j up to before n. */
  predicate QuietFrom(t: Trace, j: nat, n: nat)
    requires n <= |t.samples|
  {
    1 <= j < n && High(t, j - 1) && forall i :: j <= i < n ==> !High(t, i)
  }

  /** Poll m is the first after j whose clock reading is five seconds or more past that of poll j. */
  predicate FirstExpiry(t: Trace, j: nat, m: nat)
    requires ValidTrace(t) && m < |t.samples|
  {
    j < m && Expired(t.clock[j], t.clock[m]) && forall i :: j < i < m ==> !Expired(t.clock[j], t.clock[i])
  }

  predicate NoExpiry(t: Trace, j: nat, n: nat)
    requires ValidTrace(t) && n <= |t.samples|
  {
    forall i :: j < i < n ==> !Expired(t.clock[j], t.clock[i])
  }

  /** The four loop-head situations of a detector that has seen motion and lost it at poll j. */
  ghost predicate QuietState(t: Trace, j: nat, n: nat, d: Detector)
    requires ValidTrace(t) && n <= |t.samples| && j < n
  {
    || (NoExpiry(t, j, n) && d == Detector(Timeout, Run, false, t.clock[j]))
    || (FirstExpiry(t, j, n - 1) && d == Detector(Timeout, Exit, false, t.clock[j]))
    || (n >= 2 && FirstExpiry(t, j, n - 2) && d.state.MotionLost? && !d.motionDetected)
    || (exists m :: j < m < n - 2 && FirstExpiry(t, j, m) && d.state.Detecting? && !d.motionDetected)
  }

  /** What the detector is after n polls, told from the samples and the clock alone. */
  ghost predicate Explained(t: Trace, n: nat)
    requires ValidTrace(t) && n <= |t.samples|
  {
    var d := After(t, n);
    if n > 0 && High(t, n - 1) then d.state.Detecting? && d.motionDetected
    else if forall i :: 0 <= i < n ==> !High(t, i) then d == POWER_UP
    else exists j :: QuietFrom(t, j, n) && QuietState(t, j, n, d)
  }

  lemma {:induction false} EveryStateExplained(t: Trace, n: nat)
    requires ValidTrace(t) && n <= |t.samples|
    ensures Explained(t, n)
  {
    if n > 0 {
      EveryStateExplained(t, n - 1);
      if !High(t, n - 1) {
        if n >= 2 && High(t, n - 2) {
          assert QuietFrom(t, n - 1, n);
          assert NoExpiry(t, n - 1, n);
          assert QuietState(t, n - 1, n, After(t, n));
        } else if exists i :: 0 <= i < n && High(t, i) {
          var j :| QuietFrom(t, j, n - 1) && QuietState(t, j, n - 1, After(t, n - 1));
          assert QuietFrom(t, j, n);
          QuietStep(t, j, n);
        }
      }
    }
  }

  lemma QuietStep(t: Trace, j: nat, n: nat)
    requires ValidTrace(t) && n <= |t.samples| && j < n - 1 && !High(t, n - 1)
    requires QuietState(t, j, n - 1, After(t, n - 1))
    ensures QuietState(t, j, n, After(t, n))
  {
    var d := After(t, n - 1);
    if NoExpiry(t, j, n - 1) && d.state.Timeout? && d.substate.Run? {
    } else if FirstExpiry(t, j, n - 2) && d.substate.Exit? && d.state.Timeout? {
    } else if n >= 3 && FirstExpiry(t, j, n - 3) && d.state.MotionLost? {
      assert j < n - 3 < n - 2;
    } else {
      var m :| j < m < n - 3 && FirstExpiry(t, j, m) && d.state.Detecting? && !d.motionDetected;
      assert j < m < n - 2;
    }
  }

  // ---------- what is sent, and when ----------

  /** A poll sends DETECTED exactly when its sample is high and the one before was not: at the first
      motion, while the hold-off runs, and in the two polls after it ran out alike. */
  lemma DetectedExactly(t: Trace, k: nat)
    requires ValidTrace(t) && k < |t.samples|
    ensures SentAt(t, k) == Some(EventMotionDetected) <==> High(t, k) && (k == 0 || !High(t, k - 1))
  {
    EveryStateExplained(t, k);
    if k > 0 && !High(t, k - 1) && !(forall i :: 0 <= i < k ==> !High(t, i)) {
      var j :| QuietFrom(t, j, k) && QuietState(t, j, k, After(t, k));
    }
  }

  /** The sensor has been low without a break from poll j, which followed a high one, through poll k,
      and two polls before k was the first whose clock reading was five seconds or more past poll j's. */
  predicate HoldOffOver(t: Trace, j: nat, k: nat)
    requires ValidTrace(t) && k < |t.samples|
  {
    k >= 2 && QuietFrom(t, j, k + 1) && FirstExpiry(t, j, k - 2)
  }

  /** A poll sends LOST exactly when a hold-off that nothing interrupted ran out two polls before it. */
  lemma LostExactly(t: Trace, k: nat)
    requires ValidTrace(t) && k < |t.samples|
    ensures SentAt(t, k) == Some(EventMotionLost) <==> exists j: nat :: HoldOffOver(t, j, k)
  {
    EveryStateExplained(t, k);
    if k > 0 && !High(t, k - 1) && exists i :: 0 <= i < k && High(t, i) {
      var j :| QuietFrom(t, j, k) && QuietState(t, j, k, After(t, k));
      LostFrom(t, j, k);
    }
  }

  lemma SameStart(t: Trace, j: nat, j': nat, n: nat, n': nat)
    requires n <= n' <= |t.samples| && QuietFrom(t, j, n) && QuietFrom(t, j', n')
    ensures j == j' || n < j'
  {
  }

  lemma LostFrom(t: Trace, j: nat, k: nat)
    requires ValidTrace(t) && k < |t.samples| && QuietFrom(t, j, k) && QuietState(t, j, k, After(t, k))
    ensures SentAt(t, k) == Some(EventMotionLost) <==> exists j: nat :: HoldOffOver(t, j, k)
  {
    if exists j': nat :: HoldOffOver(t, j', k) {
      var j': nat :| HoldOffOver(t, j', k);
      SameStart(t, j, j', k, k + 1);
      assert !High(t, k) && !NoExpiry(t, j, k);
    } else if SentAt(t, k) == Some(EventMotionLost) {
      assert HoldOffOver(t, j, k);
    }
  }

  /** At the head of the loop the detector remembers motion only while detecting, never waits in the
      state that sends DETECTED, and never waits in a timeout it has not entered. */
  lemma LoopHead(t: Trace, n: nat)
    requires ValidTrace(t) && n <= |t.samples|
    ensures var d := After(t, n);
            && (d.motionDetected ==> d.state.Detecting?)
            && !d.state.MotionDetected?
            && (d.state.Timeout? ==> !d.substate.Entry?)
            && (d.motionDetected <==> n > 0 && High(t, n - 1))
  {
    EveryStateExplained(t, n);
  }

  // ---------- the order of events ----------

  /** The detector is on alert: it has seen motion and not yet sent that it is lost. */
  predicate OnAlert(d: Detector) {
    d.motionDetected || d.state.Timeout? || d.state.MotionLost?
  }

  predicate LastIs(w: seq<Event>, e: Event) {
    w != [] && w[|w| - 1] == e
  }

  /** Event i of the word is a DETECTED, or a LOST directly after a DETECTED. */
  predicate InOrder(w: seq<Event>, i: nat)
    requires i < |w|
  {
    w[i].EventMotionDetected? || (w[i].EventMotionLost? && i > 0 && w[i - 1].EventMotionDetected?)
  }

  /** A word of (DETECTED+ LOST)*, perhaps cut short. */
  predicate Alternating(w: seq<Event>) {
    forall i: nat :: i < |w| ==> InOrder(w, i)
  }

  lemma {:induction false} EventsAlternate(t: Trace, n: nat)
    requires ValidTrace(t) && n <= |t.samples|
    ensures Alternating(Word(t, n))
    ensures OnAlert(After(t, n)) <==> LastIs(Word(t, n), EventMotionDetected)
  {
    AlternatingEmpty();
    hide Alternating;
    if n > 0 {
      EventsAlternate(t, n - 1);
      LoopHead(t, n - 1);
      OnlyTwoKinds(t, n - 1);
      if SentAt(t, n - 1).Some? {
        AlternatingSnoc(Word(t, n - 1), SentAt(t, n - 1).value);
      }
    }
  }

  lemma AlternatingEmpty()
    ensures Alternating([])
  {
  }

  lemma AlternatingSnoc(w: seq<Event>, e: Event)
    requires Alternating(w) && !e.EventNone? && (e.EventMotionLost? ==> LastIs(w, EventMotionDetected))
    ensures Alternating(w + [e])
  {
    var w' := w + [e];
    forall i: nat | i < |w'| ensures InOrder(w', i) {
      if i < |w| {
        assert InOrder(w, i);
      }
    }
  }

  /** One poll sends at most one event, and events keep their distance: a LOST comes at least four polls
      after whatever was sent before it, and whatever follows a DETECTED at least two polls after it. */
  lemma EventsAreSpaced(t: Trace, i: nat, k: nat)
    requires ValidTrace(t) && i < k < |t.samples| && SentAt(t, i).Some? && SentAt(t, k).Some?
    ensures SentAt(t, k) == Some(EventMotionLost) ==> k >= i + 4
    ensures SentAt(t, i) == Some(EventMotionDetected) ==> k >= i + 2
  {
    OnlyTwoKinds(t, i);
    OnlyTwoKinds(t, k);
    LostExactly(t, k);
    LostExactly(t, i);
    DetectedExactly(t, i);
    DetectedExactly(t, k);
    if SentAt(t, k) == Some(EventMotionLost) {
      var j: nat :| HoldOffOver(t, j, k);
      if SentAt(t, i) == Some(EventMotionLost) {
        var j': nat :| HoldOffOver(t, j', i);
        SameStart(t, j', j, i + 1, k + 1);
      } else {
        assert High(t, i);
      }
    }
  }

  lemma OnlyTwoKinds(t: Trace, k: nat)
    requires ValidTrace(t) && k < |t.samples|
    ensures SentAt(t, k) in {None, Some(EventMotionDetected), Some(EventMotionLost)}
  {
  }
}
