/** utils/osal/osal.c: the tick-driven release of tasks through counting semaphores. */
module Osal {
  import opened Arithmetic

  const MAX_TASKS: nat := 5
  const TIMER_TICK_MS: nat := 11

  // The periods main gives its tasks, in milliseconds (utils/osal/osal_tasks_cfg.h).
  const TASK_RATE_100HZ: nat := 11
  const TASK_RATE_50HZ: nat := 22
  const TASK_RATE_30HZ: nat := 33
  const DETECTION_PERIOD: nat := TASK_RATE_100HZ
  const CAMERA_PERIOD: nat := TASK_RATE_50HZ
  const TRANSCODER_PERIOD: nat := 2 * TASK_RATE_30HZ
  const NVM_PERIOD: nat := 2 * TASK_RATE_30HZ

  function PeriodCnts(periodMs: nat): nat {
    periodMs / TIMER_TICK_MS
  }

  /** A task of this period is released at this tick. */
  predicate Releases(periodMs: nat, tick: nat) {
    PeriodCnts(periodMs) != 0 && tick % PeriodCnts(periodMs) == 0
  }

  // ---------- the sequencer as a value ----------

  datatype TaskState = Unused | Running | Suspended

  datatype Slot = Slot(periodCnts: nat, sem: nat, state: TaskState)

  datatype Sequencer = Sequencer(slots: seq<Slot>, taskIdx: nat, tick: nat)

  predicate InBounds(s: Sequencer) {
    |s.slots| == MAX_TASKS && s.taskIdx < MAX_TASKS
  }

  /** osal_task_start: the semaphore of slot id is posted, and slot task_idx, not slot id, is marked. */
  function StartTask(s: Sequencer, id: nat): Sequencer
    requires InBounds(s) && id < MAX_TASKS
  {
    var posted := s.slots[id := s.slots[id].(sem := s.slots[id].sem + 1)];
    s.(slots := posted[s.taskIdx := posted[s.taskIdx].(state := Running)])
  }

  predicate Due(s: Sequencer, i: nat)
    requires i < |s.slots|
  {
    s.slots[i].state != Unused && s.slots[i].periodCnts != 0 && s.tick % s.slots[i].periodCnts == 0
  }

  /** The loop of osal_task_generic_sequencer from slot i on. */
  function Sequence(s: Sequencer, i: nat): (r: Sequencer)
    requires InBounds(s) && i <= MAX_TASKS
    ensures InBounds(r) && r.taskIdx == s.taskIdx && r.tick == s.tick
    decreases MAX_TASKS - i
  {
    if i == MAX_TASKS then s
    else Sequence(if Due(s, i) then StartTask(s, i) else s, i + 1)
  }

  /** One pass posts exactly the slots from i on that are used and whose period divides the tick, and if
      there is one it marks slot task_idx, which has no period, and no other. */
  lemma {:induction false} SequencePosts(s: Sequencer, i: nat)
    requires InBounds(s) && i <= MAX_TASKS && s.slots[s.taskIdx].periodCnts == 0
    ensures var r := Sequence(s, i);
            forall k :: 0 <= k < MAX_TASKS ==>
              && r.slots[k].periodCnts == s.slots[k].periodCnts
              && r.slots[k].sem == s.slots[k].sem +
                   (if k >= i && s.slots[k].state != Unused && s.slots[k].periodCnts != 0 && s.tick % s.slots[k].periodCnts == 0
                    then 1 else 0)
              && (k != s.taskIdx ==> r.slots[k].state == s.slots[k].state)
    ensures Sequence(s, i).slots[s.taskIdx].state == if SomeDue(s, i) then Running else s.slots[s.taskIdx].state
    decreases MAX_TASKS - i
  {
    if i < MAX_TASKS {
      var s' := if Due(s, i) then StartTask(s, i) else s;
      SequencePosts(s', i + 1);
      assert forall k :: i + 1 <= k < MAX_TASKS ==> Due(s', k) == Due(s, k);
      assert SomeDue(s, i) <==> Due(s, i) || SomeDue(s', i + 1);
    }
  }

  /** Some slot from i on is to be posted at this tick. */
  predicate SomeDue(s: Sequencer, i: nat)
    requires InBounds(s)
  {
    exists k :: i <= k < MAX_TASKS && Due(s, k)
  }

  // ---------- the sequencer in memory ----------

  class TaskSequencer {
    const periodCnts: array<nat>
    const signalSem: array<nat>
    const taskState: array<TaskState>
    var taskIdx: nat
    var tick: nat

    ghost predicate Valid()
      reads this
    {
      && periodCnts.Length == signalSem.Length == taskState.Length == MAX_TASKS
      && periodCnts != signalSem && taskIdx < MAX_TASKS
    }

    ghost function View(): Sequencer
      requires Valid()
      reads this, periodCnts, signalSem, taskState
    {
      Sequencer(seq(MAX_TASKS, i requires 0 <= i < MAX_TASKS reads this, periodCnts, signalSem, taskState
                                 requires Valid() => Slot(periodCnts[i], signalSem[i], taskState[i])), taskIdx, tick)
    }

    /** osal_init, with its static arrays. */
    constructor ()
      ensures Valid() && fresh(periodCnts) && fresh(signalSem) && fresh(taskState)
      ensures View() == Sequencer(seq(MAX_TASKS, _ => Slot(0, 0, Unused)), 0, 0)
    {
      periodCnts := new nat[MAX_TASKS](_ => 0);
      signalSem := new nat[MAX_TASKS](_ => 0);
      taskState := new TaskState[MAX_TASKS](_ => Unused);
      taskIdx := 0;
      tick := 0;
    }

    /** osal_task_set_period. */
    method SetPeriod(id: nat, periodMs: nat)
      requires Valid() && id < MAX_TASKS
      modifies periodCnts
      ensures Valid()
      ensures var before := old(View());
              View() == before.(slots := before.slots[id := before.slots[id].(periodCnts := periodMs / 11)])
    {
      periodCnts[id] := periodMs / TIMER_TICK_MS;
    }

    /** osal_task_create before the scheduler runs. */
    method TaskCreate(periodMs: nat) returns (id: nat)
      requires Valid() && taskIdx + 1 < MAX_TASKS
      modifies this`taskIdx, periodCnts, signalSem, taskState
      ensures Valid() && id == old(taskIdx)
      ensures var before := old(View());
              View() == before.(slots := before.slots[id := Slot(periodMs / 11, 0, Suspended)], taskIdx := id + 1)
    {
      id := taskIdx;
      ghost var before := View();
      signalSem[id] := 0;
      assert View() == before.(slots := before.slots[id := before.slots[id].(sem := 0)]);
      SetPeriod(id, periodMs);
      ghost var paced := View();
      assert paced.slots == before.slots[id := before.slots[id].(sem := 0, periodCnts := PeriodCnts(periodMs))];
      taskState[id] := Suspended;
      assert View() == paced.(slots := paced.slots[id := paced.slots[id].(state := Suspended)]);
      assert View().slots == before.slots[id := Slot(PeriodCnts(periodMs), 0, Suspended)];
      ghost var created := View().slots;
      taskIdx := taskIdx + 1;
      assert View().slots == created;
    }

    /** osal_task_start. */
    method TaskStart(id: nat)
      requires Valid() && id < MAX_TASKS
      modifies signalSem, taskState
      ensures Valid() && View() == StartTask(old(View()), id)
      ensures signalSem[id] == old(signalSem[id]) + 1 && taskState[taskIdx] == Running
      ensures forall k :: 0 <= k < MAX_TASKS && k != id ==> signalSem[k] == old(signalSem[k])
      ensures forall k :: 0 <= k < MAX_TASKS && k != taskIdx ==> taskState[k] == old(taskState[k])
    {
      signalSem[id] := signalSem[id] + 1;
      taskState[taskIdx] := Running;
    }

    /** osal_task_suspend up to the wait on the semaphore. */
    method Suspend(id: nat)
      requires Valid() && id < MAX_TASKS
      modifies taskState
      ensures Valid()
      ensures var before := old(View());
              View() == before.(slots := before.slots[id := before.slots[id].(state := Suspended)])
      ensures id < taskIdx ==> View() == OsApply(Os(old(View()), NO_COUNTS, NO_COUNTS), SuspendStep(id)).sequencer
    {
      taskState[id] := Suspended;
    }

    /** sem_wait: passes when the semaphore is positive; otherwise its caller stays blocked. */
    method SemWait(id: nat) returns (passed: bool)
      requires Valid() && id < MAX_TASKS
      modifies signalSem
      ensures Valid() && (passed <==> old(View()).slots[id].sem > 0)
      ensures var before := old(View());
              View() == if passed then before.(slots := before.slots[id := before.slots[id].(sem := before.slots[id].sem - 1)])
                        else before
      ensures passed && id < taskIdx ==> View() == OsApply(Os(old(View()), NO_COUNTS, NO_COUNTS), WaitStep(id)).sequencer
    {
      if signalSem[id] == 0 {
        return false;
      }
      signalSem[id] := signalSem[id] - 1;
      return true;
    }

    /** The timer signal and the pass it causes. */
    method Tick()
      requires Valid()
      modifies this`tick, signalSem, taskState
      ensures Valid() && View() == Sequence(old(View()).(tick := old(tick) + 1), 0)
      ensures View() == OsApply(Os(old(View()), NO_COUNTS, NO_COUNTS), TickStep).sequencer
    {
      hide Sequence;
      ghost var before := View();
      tick := tick + 1;
      assert View() == before.(tick := tick);
      GenericSequencer();
    }

    method GenericSequencer()
      requires Valid()
      modifies signalSem, taskState
      ensures Valid() && View() == Sequence(old(View()), 0)
    {
      var i := 0;
      while i < MAX_TASKS
        invariant 0 <= i <= MAX_TASKS && Valid()
        invariant Sequence(View(), i) == Sequence(old(View()), 0)
      {
        if taskState[i] != Unused && periodCnts[i] != 0 {
          if tick % periodCnts[i] == 0 {
            TaskStart(i);
          }
        }
        i := i + 1;
      }
    }
  }

  // ---------- accounting over runs ----------

  /** The sequencer with a count of the posts and of the waits that passed, slot by slot. */
  datatype Os = Os(sequencer: Sequencer, posts: seq<nat>, waits: seq<nat>)

  datatype OsStep = TickStep | SuspendStep(id: nat) | WaitStep(id: nat)

  const NO_COUNTS: seq<nat> := seq(MAX_TASKS, _ => 0)

  predicate OsInBounds(s: Os) {
    InBounds(s.sequencer) && |s.posts| == |s.waits| == MAX_TASKS
  }

  /** A task may suspend itself at any moment; its wait passes only when its semaphore is positive. */
  predicate OsEnabled(s: Os, step: OsStep) {
    && OsInBounds(s)
    && match step
       case TickStep => true
       case SuspendStep(id) => id < s.sequencer.taskIdx
       case WaitStep(id) => id < s.sequencer.taskIdx && s.sequencer.slots[id].sem > 0
  }

  function OsApply(s: Os, step: OsStep): Os
    requires OsEnabled(s, step)
  {
    var q := s.sequencer;
    match step
    case TickStep =>
      var now := q.(tick := q.tick + 1);
      var q' := Sequence(now, 0);
      Os(q', seq(MAX_TASKS, i requires 0 <= i < MAX_TASKS => s.posts[i] + (if Due(now, i) then 1 else 0)), s.waits)
    case SuspendStep(id) =>
      s.(sequencer := q.(slots := q.slots[id := q.slots[id].(state := Suspended)]))
    case WaitStep(id) =>
      s.(sequencer := q.(slots := q.slots[id := q.slots[id].(sem := q.slots[id].sem - 1)]),
         waits := s.waits[id := s.waits[id] + 1])
  }

  /** A tick may come at any moment, a suspension too, and a wait passes whenever there is something to take. */
  lemma StepsAreFree(s: Os, id: nat)
    requires OsInBounds(s) && id < s.sequencer.taskIdx
    ensures OsEnabled(s, TickStep) && OsEnabled(s, SuspendStep(id))
    ensures OsEnabled(s, WaitStep(id)) <==> s.sequencer.slots[id].sem > 0
  {
  }

  /** After main has created its four tasks: the fifth slot has no period, and is the one that every
      osal_task_start marks. */
  function Created(periods: seq<nat>): Os
    requires |periods| == MAX_TASKS - 1
  {
    Os(Sequencer(seq(MAX_TASKS, i requires 0 <= i < MAX_TASKS =>
                       if i < MAX_TASKS - 1 then Slot(PeriodCnts(periods[i]), 0, Suspended) else Slot(0, 0, Unused)),
                 MAX_TASKS - 1, 0),
       seq(MAX_TASKS, _ => 0), seq(MAX_TASKS, _ => 0))
  }

  ghost predicate IsOsRun(periods: seq<nat>, states: seq<Os>, steps: seq<OsStep>)
    requires |periods| == MAX_TASKS - 1
  {
    && |states| == |steps| + 1
    && states[0] == Created(periods)
    && forall i :: 0 <= i < |steps| ==> OsEnabled(states[i], steps[i]) && states[i + 1] == OsApply(states[i], steps[i])
  }

  /** How often a task of this period has been released by tick n. */
  function ReleaseCount(periodMs: nat, n: nat): nat {
    if PeriodCnts(periodMs) == 0 then 0 else n / PeriodCnts(periodMs)
  }

  ghost predicate Accounted(periods: seq<nat>, s: Os)
    requires |periods| == MAX_TASKS - 1
  {
    && OsInBounds(s) && s.sequencer.taskIdx == MAX_TASKS - 1
    && (forall i :: 0 <= i < MAX_TASKS ==> s.posts[i] == s.waits[i] + s.sequencer.slots[i].sem)
    && (forall i :: 0 <= i < MAX_TASKS - 1 ==>
          && s.sequencer.slots[i].periodCnts == PeriodCnts(periods[i])
          && s.sequencer.slots[i].state == Suspended
          && s.posts[i] == ReleaseCount(periods[i], s.sequencer.tick))
    && s.sequencer.slots[MAX_TASKS - 1].periodCnts == 0 && s.posts[MAX_TASKS - 1] == 0
    && s.sequencer.slots[MAX_TASKS - 1].state == if SomePost(s) then Running else Unused
  }

  predicate SomePost(s: Os) {
    exists i :: 0 <= i < |s.posts| && s.posts[i] > 0
  }

  lemma NextMultiple(n: nat, p: nat)
    requires p > 0
    ensures (n + 1) / p == n / p + (if (n + 1) % p == 0 then 1 else 0)
  {
    var q, r := n / p, n % p;
    assert n == p * q + r;
    if r + 1 == p {
      DivModUnique(n + 1, p, q + 1, 0);
    } else {
      DivModUnique(n + 1, p, q, r + 1);
    }
  }

  lemma TickAccounted(periods: seq<nat>, s: Os)
    requires |periods| == MAX_TASKS - 1 && Accounted(periods, s)
    ensures Accounted(periods, OsApply(s, TickStep))
  {
    hide Sequence;
    var now := s.sequencer.(tick := s.sequencer.tick + 1);
    SequencePosts(now, 0);
    forall i | 0 <= i < MAX_TASKS - 1
      ensures s.posts[i] + (if Due(now, i) then 1 else 0) == ReleaseCount(periods[i], now.tick)
    {
      ReleaseCountNext(periods[i], s.sequencer.tick);
    }
    PostsWhenDue(s);
    hide Due, ReleaseCount, SomePost, SomeDue;
  }

  lemma PostsWhenDue(s: Os)
    requires OsInBounds(s)
    ensures SomePost(OsApply(s, TickStep)) <==> SomePost(s) || SomeDue(s.sequencer.(tick := s.sequencer.tick + 1), 0)
  {
    hide Sequence, Due;
    var s', now := OsApply(s, TickStep), s.sequencer.(tick := s.sequencer.tick + 1);
    assert forall i :: 0 <= i < MAX_TASKS ==> s'.posts[i] == s.posts[i] + (if Due(now, i) then 1 else 0);
    if SomePost(s) {
      var i :| 0 <= i < |s.posts| && s.posts[i] > 0;
      assert s'.posts[i] > 0;
    }
    if SomeDue(now, 0) {
      var i :| 0 <= i < MAX_TASKS && Due(now, i);
      assert s'.posts[i] > 0;
    }
  }

  lemma ReleaseCountNext(periodMs: nat, n: nat)
    ensures ReleaseCount(periodMs, n + 1) == ReleaseCount(periodMs, n) + (if Releases(periodMs, n + 1) then 1 else 0)
  {
    if PeriodCnts(periodMs) != 0 {
      NextMultiple(n, PeriodCnts(periodMs));
    }
  }

  lemma StepAccounted(periods: seq<nat>, s: Os, step: OsStep)
    requires |periods| == MAX_TASKS - 1 && Accounted(periods, s) && OsEnabled(s, step)
    ensures Accounted(periods, OsApply(s, step))
    ensures OsApply(s, step).sequencer.tick == s.sequencer.tick + (if step.TickStep? then 1 else 0)
    ensures OsInBounds(s) && |OsApply(s, step).waits| == MAX_TASKS
    ensures forall i :: 0 <= i < MAX_TASKS ==> OsApply(s, step).waits[i] == s.waits[i] + (if step == WaitStep(i) then 1 else 0)
  {
    hide Sequence, ReleaseCount;
    if step.TickStep? {
      TickAccounted(periods, s);
    }
  }

  function Ticks(steps: seq<OsStep>): nat {
    if steps == [] then 0 else Ticks(steps[..|steps| - 1]) + (if steps[|steps| - 1].TickStep? then 1 else 0)
  }

  /** How many waits of this task have passed. */
  function WaitsIn(steps: seq<OsStep>, id: nat): nat {
    if steps == [] then 0 else WaitsIn(steps[..|steps| - 1], id) + (if steps[|steps| - 1] == WaitStep(id) then 1 else 0)
  }

  /** Release accounting. In every run, whatever the tasks do in between and whatever state their slots
      are in, after n ticks task i has been posted floor(n / period) times, its posts are the waits that
      passed plus what its semaphore holds, and its slot is marked suspended. The fifth slot, which
      osal_task_start marks, is never posted, and is marked running from the first post on. */
  lemma {:induction false} ReleaseAccounting(periods: seq<nat>, states: seq<Os>, steps: seq<OsStep>, k: nat)
    requires |periods| == 4 && IsOsRun(periods, states, steps) && k < |states|
    ensures OsInBounds(states[k]) && states[k].sequencer.tick == Ticks(steps[..k]) && states[k].sequencer.taskIdx == 4
    ensures Accounted(periods, states[k])
    ensures var s := states[k];
            && (forall i :: 0 <= i < 4 ==>
                  && s.posts[i] == (if periods[i] / 11 == 0 then 0 else Ticks(steps[..k]) / (periods[i] / 11))
                  && s.posts[i] == WaitsIn(steps[..k], i) + s.sequencer.slots[i].sem
                  && s.sequencer.slots[i].state == Suspended)
            && s.posts[4] == s.sequencer.slots[4].sem == 0
            && s.sequencer.slots[4].state ==
               if exists i :: 0 <= i < 4 && periods[i] / 11 != 0 && Ticks(steps[..k]) >= periods[i] / 11 then Running else Unused
    decreases k
  {
    RunAccounted(periods, states, steps, k);
    PostedWhen(periods, states[k]);
  }

  /** A task has been posted once its period has passed. */
  lemma PostedWhen(periods: seq<nat>, s: Os)
    requires |periods| == 4 && Accounted(periods, s)
    ensures SomePost(s) <==> exists i :: 0 <= i < 4 && periods[i] / 11 != 0 && s.sequencer.tick >= periods[i] / 11
  {
    forall i | 0 <= i < 4
      ensures s.posts[i] > 0 <==> periods[i] / 11 != 0 && s.sequencer.tick >= periods[i] / 11
    {
      if periods[i] / 11 != 0 {
        QuotientIsPositive(s.sequencer.tick, periods[i] / 11);
      }
    }
  }

  lemma QuotientIsPositive(n: nat, p: nat)
    requires p > 0
    ensures n / p > 0 <==> n >= p
  {
    if n < p {
      DivModUnique(n, p, 0, n);
    } else {
      var q, r := n / p, n % p;
      assert n == p * q + r;
    }
  }

  lemma {:induction false} RunAccounted(periods: seq<nat>, states: seq<Os>, steps: seq<OsStep>, k: nat)
    requires |periods| == MAX_TASKS - 1 && IsOsRun(periods, states, steps) && k < |states|
    ensures Accounted(periods, states[k]) && states[k].sequencer.tick == Ticks(steps[..k])
    ensures forall i :: 0 <= i < MAX_TASKS ==> states[k].waits[i] == WaitsIn(steps[..k], i)
    decreases k
  {
    hide Accounted, OsApply, OsEnabled;
    if k == 0 {
      CreatedAccounted(periods);
    } else {
      RunAccounted(periods, states, steps, k - 1);
      assert OsEnabled(states[k - 1], steps[k - 1]) && states[k - 1 + 1] == OsApply(states[k - 1], steps[k - 1]);
      StepAccounted(periods, states[k - 1], steps[k - 1]);
      assert steps[..k][..k - 1] == steps[..k - 1];
      AccountedBounds(periods, states[k]);
    }
  }

  lemma AccountedBounds(periods: seq<nat>, s: Os)
    requires |periods| == MAX_TASKS - 1 && Accounted(periods, s)
    ensures OsInBounds(s)
  {
  }

  lemma CreatedAccounted(periods: seq<nat>)
    requires |periods| == MAX_TASKS - 1
    ensures Accounted(periods, Created(periods)) && Created(periods).sequencer.tick == 0
    ensures OsInBounds(Created(periods)) && forall i :: 0 <= i < MAX_TASKS ==> Created(periods).waits[i] == 0
  {
  }

  /** A tick posts a task exactly when its period divides the tick, so the pattern of releases repeats
      with every common multiple of the periods; for main's periods that is six ticks. */
  lemma ReleasePattern(periods: seq<nat>, s: Os, i: nat, cycle: nat)
    requires |periods| == MAX_TASKS - 1 && Accounted(periods, s) && i < MAX_TASKS - 1
    requires PeriodCnts(periods[i]) != 0 && cycle % PeriodCnts(periods[i]) == 0
    ensures OsApply(s, TickStep).posts[i] == s.posts[i] + (if Releases(periods[i], s.sequencer.tick + 1) then 1 else 0)
    ensures Releases(periods[i], s.sequencer.tick + 1) <==> Releases(periods[i], s.sequencer.tick + 1 + cycle)
  {
    hide Sequence;
    PatternRepeats(PeriodCnts(periods[i]), s.sequencer.tick + 1, cycle);
  }

  lemma PatternRepeats(p: nat, n: nat, cycle: nat)
    requires p > 0 && cycle % p == 0
    ensures (n + cycle) % p == n % p
  {
    var q, r := n / p, n % p;
    assert n == p * q + r && cycle == p * (cycle / p);
    assert p * (q + cycle / p) == p * q + p * (cycle / p);
    DivModUnique(n + cycle, p, q + cycle / p, r);
  }

  /** Main's four tasks at each tick: the detector always, the camera at even ticks, the transcoder and
      nvm at every sixth; their periods are 11, 22, 66 and 66 milliseconds, a tick being 11. */
  lemma ConfiguredReleases(tick: nat)
    ensures Releases(DETECTION_PERIOD, tick)
    ensures Releases(CAMERA_PERIOD, tick) <==> tick % 2 == 0
    ensures Releases(TRANSCODER_PERIOD, tick) <==> tick % 6 == 0
    ensures Releases(NVM_PERIOD, tick) <==> tick % 6 == 0
    ensures DETECTION_PERIOD == 11 && CAMERA_PERIOD == 22 && TRANSCODER_PERIOD == NVM_PERIOD == 66
  {
  }
}
