/**
 * Detector and camera against the clock: the detector polls once in every tick, the camera receives once
 * in every two, and within that either may come first.
 */
module AlertTiming {
  import opened Types
  import opened Detection
  import opened Cameras
  import opened Alerts

  /** What the detector's state allows the queue to hold: sending costs two, each poll earns one, and a
      receive earns two. After a DETECTED nothing can be sent at once; the longer the hold-off has run, the
      more has been earned for the LOST. */
  function Allowance(d: Detector): int {
    if d.motionDetected then 5
    else if d.state.Timeout? then (if d.substate.Run? then 4 else 3)
    else if d.state.MotionLost? then 2
    else 3
  }

  lemma PollEarns(t: Trace, n: nat)
    requires ValidTrace(t) && n < |t.samples|
    ensures 2 <= Allowance(After(t, n)) <= 5
    ensures Allowance(After(t, n)) + 2 * |Word(t, n + 1)| - 2 * |Word(t, n)| <= Allowance(After(t, n + 1)) + 1
    ensures |Word(t, n)| <= |Word(t, n + 1)| <= |Word(t, n)| + 1
  {
    hide After, Word;
    PollCases(t, n);
    LoopHead(t, n);
    EarnsByCase(t, n);
  }

  lemma EarnsByCase(t: Trace, n: nat)
    requires ValidTrace(t) && n < |t.samples|
    requires var d := After(t, n);
             !d.state.MotionDetected? && (d.motionDetected ==> d.state.Detecting?) && (d.state.Timeout? ==> !d.substate.Entry?)
    ensures Allowance(After(t, n)) + (if SentAt(t, n).Some? then 2 else 0) <= Allowance(After(t, n + 1)) + 1
  {
    assert After(t, n + 1) == Poll(After(t, n), t.samples[n], t.clock[n]).0;
  }

  /** After the given polls and receives: nothing was refused, and of the first n polls the camera has all
      the events but those that the receives since could not have earned. */
  ghost predicate InStep(t: Trace, polls: nat, receives: nat, s: System)
    requires ValidTrace(t) && polls <= |t.samples|
  {
    && Consistent(s) && s.detector == After(t, polls) && s.tried == s.accepted == Word(t, polls)
    && forall n: nat :: n <= polls ==>
         2 * |Word(t, n)| <= 2 * |s.received| + Max(n - 2 * receives + Allowance(After(t, n)), 0)
  }

  lemma AllowanceRange(t: Trace, n: nat)
    requires ValidTrace(t) && n <= |t.samples|
    ensures 2 <= Allowance(After(t, n)) <= 5
  {
  }

  /** In any timing at most three events wait. */
  lemma AtMostThreeWait(t: Trace, polls: nat, receives: nat, s: System)
    requires ValidTrace(t) && polls <= |t.samples| && InStep(t, polls, receives, s) && polls <= 2 * receives + 2
    ensures |s.queue| <= 3
  {
    hide Consistent, Allowance, After, Word;
    ConsistentLogs(s);
    AllowanceRange(t, polls);
    assert 2 * |Word(t, polls)| <= 2 * |s.received| + Max(polls - 2 * receives + Allowance(After(t, polls)), 0);
  }

  lemma StartInStep(t: Trace)
    requires ValidTrace(t)
    ensures InStep(t, 0, 0, START)
  {
  }

  /** A poll whose event, if any, finds room. */
  lemma PollSends(t: Trace, polls: nat, s: System)
    requires ValidTrace(t) && polls < |t.samples| && |s.queue| < CAPACITY
    requires s.detector == After(t, polls) && s.tried == s.accepted == Word(t, polls)
    ensures var s' := Take(CAPACITY, s, DetectorPoll(t.samples[polls], t.clock[polls]));
            && s'.detector == After(t, polls + 1) && s'.tried == s'.accepted == Word(t, polls + 1)
            && s'.received == s.received
  {
    hide Poll;
  }

  lemma PollInStep(t: Trace, polls: nat, receives: nat, s: System)
    requires ValidTrace(t) && polls < |t.samples| && InStep(t, polls, receives, s)
    requires 2 * receives <= polls + 2 && polls <= 2 * receives + 2
    ensures InStep(t, polls + 1, receives, Take(CAPACITY, s, DetectorPoll(t.samples[polls], t.clock[polls])))
  {
    hide Consistent, Allowance, Take, After, Word, SentAt;
    var poll := DetectorPoll(t.samples[polls], t.clock[polls]);
    AtMostThreeWait(t, polls, receives, s);
    TakeKeepsConsistent(CAPACITY, s, poll);
    PollSends(t, polls, s);
    PollEarns(t, polls);
    assert 2 * |Word(t, polls)| <= 2 * |s.received| + Max(polls - 2 * receives + Allowance(After(t, polls)), 0);
  }

  lemma ConsistentLogs(s: System)
    requires Consistent(s)
    ensures s.accepted == s.received + s.queue && s.camera == Fold(Idle, s.received)
  {
  }

  lemma {:induction false} WordGrows(t: Trace, n: nat, n': nat)
    requires ValidTrace(t) && n <= n' <= |t.samples|
    ensures Word(t, n) <= Word(t, n')
    decreases n'
  {
    if n < n' {
      WordGrows(t, n, n' - 1);
    }
  }

  lemma ReceiveInStep(t: Trace, polls: nat, receives: nat, s: System)
    requires ValidTrace(t) && polls <= |t.samples| && InStep(t, polls, receives, s)
    ensures InStep(t, polls, receives + 1, Take(CAPACITY, s, CameraPoll))
  {
    hide Consistent, Allowance, After, Word;
    TakeKeepsConsistent(CAPACITY, s, CameraPoll);
    ConsistentLogs(s);
    var s' := Take(CAPACITY, s, CameraPoll);
    forall n: nat | n <= polls
      ensures 2 * |Word(t, n)| <= 2 * |s'.received| + Max(n - 2 * (receives + 1) + Allowance(After(t, n)), 0)
    {
      WordGrows(t, n, polls);
    }
  }

  /** Some number of polls, at least `from`, after which exactly so many events had been sent. */
  lemma {:induction false} SomePoll(t: Trace, from: nat, polls: nat, count: nat) returns (m: nat)
    requires ValidTrace(t) && from <= polls <= |t.samples| && |Word(t, from)| <= count <= |Word(t, polls)|
    ensures from <= m <= polls && |Word(t, m)| == count
    decreases polls
  {
    if |Word(t, polls)| == count {
      m := polls;
    } else {
      m := SomePoll(t, from, polls - 1, count);
    }
  }

  /** What the camera has received is what the detector had sent at some moment since four polls before
      the receive's due time, so the camera is where the detector was then. */
  lemma ReceivedWhat(t: Trace, polls: nat, receives: nat, s: System) returns (m: nat)
    requires ValidTrace(t) && polls <= |t.samples| && InStep(t, polls, receives, s) && 2 * receives <= polls + 2
    ensures m <= polls && 2 * receives - 4 <= m && s.received == Word(t, m)
    ensures s.camera == Capturing <==> OnAlert(After(t, m))
  {
    hide Consistent, Allowance, After, Word, OnAlert;
    ConsistentLogs(s);
    var from: nat := Max(2 * receives - 4, 0);
    AllowanceRange(t, from);
    WordAtStart(t);
    assert |Word(t, from)| <= |s.received|;
    m := SomePoll(t, from, polls, |s.received|);
    WordGrows(t, m, polls);
    assert s.received == Word(t, m);
    CameraIsWhere(t, polls, m, s);
  }

  lemma WordAtStart(t: Trace)
    requires ValidTrace(t)
    ensures Word(t, 0) == []
  {
  }
}
