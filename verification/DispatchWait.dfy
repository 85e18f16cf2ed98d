/** How long the dispatch task of bsp/src/bsp_dispatch.c sleeps. */
module DispatchWait {
  // Nothing here needs the registrations to keep a rule: the claims hold in every run.

  import opened Dispatch

  // ----- true time

  function DueOf(s: State, q: Id): nat {
    if q in s.due then s.due[q] else 0
  }

  /** The ticks from `at` until `q` is due. */
  function UntilDue(s: State, q: Id, at: nat): nat {
    if DueOf(s, q) <= at then 0 else DueOf(s, q) - at
  }

  /** Every interval asked for is below 2^31 ticks. */
  predicate ShortStep(a: Step) {
    a.Task? && a.a.TickDone? && a.a.again.Later? ==> a.a.again.d < 0x8000_0000
  }

  predicate ShortRun(run: seq<Step>) {
    forall i | 0 <= i < |run| :: ShortStep(run[i])
  }

  predicate ReadInTime(pc: Pc, time: nat) {
    pc.Top? || (pc.now == pc.at % 0x1_0000_0000 && pc.at <= time)
  }

  /** The 32-bit counts are the low words of the times they stand for. */
  predicate InTime(s: State) {
    && s.clock == s.time % 0x1_0000_0000
    && (forall q | q in s.deadline :: q in s.due)
    && (forall q | q in s.due :: q in s.deadline && s.deadline[q] == s.due[q] % 0x1_0000_0000 && s.due[q] < s.time + 0x8000_0000)
    && (forall k: nat | k < |s.tasks| :: ReadInTime(s.tasks[k], s.time))
  }

  /** What the code computes is the true time left, unless the source is long overdue. */
  lemma LeftIsTrue(s: State, q: Id, at: nat)
    requires InTime(s) && DueOf(s, q) < at + 0x8000_0000 && at < DueOf(s, q) + 0x8000_0000
    ensures Left(s, q, at % 0x1_0000_0000) == UntilDue(s, q, at)
  {
    RemainIsTrue(DueOf(s, q), at);
  }

  lemma TickKeepsTime(s: State, k: nat, again: Again)
    requires InTime(s) && k < |s.tasks| && CanTask(s, s.tasks[k], TickDone(again)) && ShortStep(Task(k, TickDone(again)))
    ensures InTime(DoTask(s, k, TickDone(again)))
  {
    hide NextDeadline, Delay;
    var pc := s.tasks[k];
    if again.Later? {
      DeadlineIsDue(pc.at, again.d, again.align);
      assert Delay(pc.now, again.d, again.align) <= again.d;
    }
  }

  /** The other steps of a task change no deadline. */
  lemma TaskKeepsTime(s: State, k: nat, a: TaskStep)
    requires InTime(s) && k < |s.tasks| && CanTask(s, s.tasks[k], a) && !a.TickDone?
    ensures InTime(DoTask(s, k, a))
  {
    hide Due, Left;
  }

  lemma ThreadKeepsTime(s: State, a: Step)
    requires InTime(s) && Enabled(s, a) && !a.Task?
    ensures InTime(Do(s, a))
  {
    hide DoTask, CanTask;
    if a.Time? { WordSum(s.time, a.d); }
  }

  lemma StepKeepsTime(s: State, a: Step)
    requires InTime(s) && Enabled(s, a) && ShortStep(a)
    ensures InTime(Do(s, a))
  {
    hide InTime, DoTask, CanTask;
    if !a.Task? {
      ThreadKeepsTime(s, a);
    } else if a.a.TickDone? {
      TickKeepsTime(s, a.k, a.a.again);
    } else {
      TaskKeepsTime(s, a.k, a.a);
    }
  }

  // ----- an armed source is minded by some task

  /** The task will measure `q` before it sleeps, or has, and waits no longer than `q` has
      left. */
  predicate Minds(s: State, pc: Pc, q: Id) {
    match pc
    case Top => true
    case Scan(_, _, _) => true
    case Clear(_, _, _) => true
    case Tick(_, _, _) => true
    case Measure(rest, now, at, wait) => DueOf(s, q) < at + 0x8000_0000 && (q in rest || wait <= Left(s, q, now))
    case Blocked(_, now, at, wait) => DueOf(s, q) < at + 0x8000_0000 && wait <= Left(s, q, now)
  }

  predicate Armed(s: State, q: Id) {
    q in s.list && q !in s.pending && q !in s.waiting
  }

  predicate Minded(s: State) {
    forall q | q in s.list && Armed(s, q) :: exists k: nat :: k < |s.tasks| && Minds(s, s.tasks[k], q)
  }

  lemma MindsSame(s: State, s': State, pc: Pc, q: Id)
    requires DeadlineOf(s', q) == DeadlineOf(s, q) && DueOf(s', q) == DueOf(s, q)
    ensures Minds(s', pc, q) == Minds(s, pc, q)
  {
    hide Remain;
  }

  /** A step of a thread changes no measured field of an armed source. */
  lemma ThreadFrame(s: State, a: Step)
    requires Enabled(s, a) && !a.Task?
    ensures var s' := Do(s, a);
            && s'.deadline == s.deadline && s'.due == s.due && s'.waiting == s.waiting && s.pending <= s'.pending
            && (forall q | q in s'.list :: q in s.list || q in s'.pending) && (forall q | q in s.list :: q in s'.list)
            && (s'.tasks == s.tasks || s'.tasks == s.tasks + [Top])
  {
    hide DoTask, CanTask;
  }

  lemma ThreadKeepsMinded(s: State, a: Step)
    requires Minded(s) && Enabled(s, a) && !a.Task?
    ensures Minded(Do(s, a))
  {
    hide Minds, Do, Enabled;
    ThreadFrame(s, a);
    var s' := Do(s, a);
    forall q | q in s'.list && Armed(s', q) ensures exists k: nat :: k < |s'.tasks| && Minds(s', s'.tasks[k], q) {
      assert Armed(s, q);
      var k: nat :| k < |s.tasks| && Minds(s, s.tasks[k], q);
      MindsSame(s, s', s.tasks[k], q);
      assert s'.tasks[k] == s.tasks[k];
    }
  }

  /** A task step changes at most the source it is at. */
  lemma TaskChanges(s: State, k: nat, a: TaskStep, q: Id)
    requires k < |s.tasks| && CanTask(s, s.tasks[k], a)
    requires a.ClearPending? || a.TickDone? ==> q != s.tasks[k].rest[0]
    ensures var s' := DoTask(s, k, a);
            && DeadlineOf(s', q) == DeadlineOf(s, q) && DueOf(s', q) == DueOf(s, q)
            && (Armed(s', q) <==> Armed(s, q))
  {
    hide Due, Left, NextDeadline, Delay;
  }

  /** What the task minded it still minds. */
  lemma TaskMinds(s: State, k: nat, a: TaskStep, q: Id)
    requires InTime(s) && k < |s.tasks| && CanTask(s, s.tasks[k], a) && Armed(s, q) && Minds(s, s.tasks[k], q)
    requires DeadlineOf(DoTask(s, k, a), q) == DeadlineOf(s, q) && DueOf(DoTask(s, k, a), q) == DueOf(s, q)
    ensures Minds(DoTask(s, k, a), DoTask(s, k, a).tasks[k], q)
  {
    hide Due, Remain, NextDeadline, Delay;
    var pc := s.tasks[k];
    if pc.Measure? && q in pc.rest { InTail(q, pc.rest); }
  }

  lemma TaskKeepsMinded(s: State, k: nat, a: TaskStep)
    requires Minded(s) && InTime(s) && k < |s.tasks| && CanTask(s, s.tasks[k], a)
    ensures Minded(DoTask(s, k, a))
  {
    hide Minds, DoTask, InTime, Due, Left, Armed;
    var s', pc := DoTask(s, k, a), s.tasks[k];
    TaskFrame(s, k, a);
    forall q | q in s'.list && Armed(s', q) ensures exists j: nat :: j < |s'.tasks| && Minds(s', s'.tasks[j], q) {
      if (a.ClearPending? || a.TickDone?) && q == pc.rest[0] {
        AtSource(s, k, a, q);
      } else {
        TaskChanges(s, k, a, q);
        var j: nat :| j < |s.tasks| && Minds(s, s.tasks[j], q);
        if j == k { TaskMinds(s, k, a, q); } else { MindsSame(s, s', s.tasks[j], q); }
        assert Minds(s', s'.tasks[j], q);
      }
    }
  }

  /** The task that is at a source has yet to measure it. */
  lemma AtSource(s: State, k: nat, a: TaskStep, q: Id)
    requires k < |s.tasks| && CanTask(s, s.tasks[k], a) && (a.ClearPending? || a.TickDone?)
    ensures Minds(DoTask(s, k, a), DoTask(s, k, a).tasks[k], q)
  {
    hide NextDeadline, Delay;
  }

  // ----- an armed source has a due time

  predicate AtTick(pc: Pc, q: Id) {
    pc.Tick? && pc.rest != [] && pc.rest[0] == q
  }

  predicate HasDue(s: State, q: Id) {
    q in s.pending || q in s.waiting || q in s.due || exists k: nat :: k < |s.tasks| && AtTick(s.tasks[k], q)
  }

  predicate Dated(s: State) {
    forall q | q in s.list :: HasDue(s, q)
  }

  lemma ThreadKeepsDated(s: State, a: Step)
    requires Dated(s) && Enabled(s, a) && !a.Task?
    ensures Dated(Do(s, a))
  {
    hide Do, Enabled, AtTick;
    ThreadFrame(s, a);
    var s' := Do(s, a);
    forall q | q in s'.list ensures HasDue(s', q) {
      if q in s.list && q !in s'.pending && q !in s.waiting && q !in s.due {
        assert HasDue(s, q);
        var k: nat :| k < |s.tasks| && AtTick(s.tasks[k], q);
        assert s'.tasks[k] == s.tasks[k];
      }
    }
  }

  lemma TaskDates(s: State, k: nat, a: TaskStep, q: Id)
    requires k < |s.tasks| && CanTask(s, s.tasks[k], a)
    ensures var s' := DoTask(s, k, a);
            && (q in s.pending ==> q in s'.pending || AtTick(s'.tasks[k], q))
            && (q in s.waiting ==> q in s'.waiting || q in s'.due)
            && (q in s.due ==> q in s'.due)
            && (AtTick(s.tasks[k], q) ==> q in s'.waiting || q in s'.due)
  {
    hide Due, Left, NextDeadline, Delay;
  }

  lemma TaskKeepsDated(s: State, k: nat, a: TaskStep)
    requires Dated(s) && k < |s.tasks| && CanTask(s, s.tasks[k], a)
    ensures Dated(DoTask(s, k, a))
  {
    hide DoTask, CanTask, AtTick;
    var s' := DoTask(s, k, a);
    TaskFrame(s, k, a);
    forall q | q in s'.list ensures HasDue(s', q) {
      assert HasDue(s, q);
      TaskDates(s, k, a, q);
      if exists j: nat :: j < |s.tasks| && AtTick(s.tasks[j], q) {
        var j: nat :| j < |s.tasks| && AtTick(s.tasks[j], q);
        if j != k { assert AtTick(s'.tasks[j], q); }
      }
    }
  }

  // ----- a single task waits no less than it must

  /** Some listed source that is not waiting has exactly `wait` left. */
  predicate Binding(s: State, now: nat, wait: nat) {
    exists q :: q in s.list && q !in s.waiting && wait == Left(s, q, now)
  }

  /** The wait measured so far is that of some source, if it is bounded. */
  predicate Sharp(s: State, pc: Pc) {
    (pc.Measure? ==> forall q | q in pc.rest :: q in s.list)
    && (pc.Measure? || pc.Blocked? ==> pc.wait == 0xffff_ffff || Binding(s, pc.now, pc.wait))
  }

  predicate AloneSharp(s: State) {
    |s.tasks| == 1 ==> Sharp(s, s.tasks[0])
  }

  lemma BindingSame(s: State, s': State, now: nat, wait: nat)
    requires Binding(s, now, wait) && s'.deadline == s.deadline && s'.waiting == s.waiting
    requires forall q | q in s.list :: q in s'.list
    ensures Binding(s', now, wait)
  {
    hide Remain;
    var q :| q in s.list && q !in s.waiting && wait == Left(s, q, now);
    assert q in s'.list && q !in s'.waiting && wait == Left(s', q, now);
  }

  lemma ThreadKeepsSharp(s: State, a: Step)
    requires AloneSharp(s) && Enabled(s, a) && !a.Task?
    ensures AloneSharp(Do(s, a))
  {
    hide Do, Enabled, Binding;
    ThreadFrame(s, a);
    var s' := Do(s, a);
    if |s'.tasks| == 1 && |s.tasks| == 1 {
      var pc := s.tasks[0];
      if (pc.Measure? || pc.Blocked?) && pc.wait != 0xffff_ffff { BindingSame(s, s', pc.now, pc.wait); }
    }
  }

  lemma MeasuringKeepsSharp(s: State, k: nat)
    requires k < |s.tasks| && CanTask(s, s.tasks[k], MeasureSource) && Sharp(s, s.tasks[k])
    ensures Sharp(DoTask(s, k, MeasureSource), DoTask(s, k, MeasureSource).tasks[k])
  {
    hide Binding, Remain;
    var s', pc := DoTask(s, k, MeasureSource), s.tasks[k];
    var src := pc.rest[0];
    if s'.tasks[k].wait == pc.wait {
      if pc.wait != 0xffff_ffff { BindingSame(s, s', pc.now, pc.wait); }
    } else {
      Binds(s', src, pc.now);
    }
  }

  lemma Binds(s: State, q: Id, now: nat)
    requires q in s.list && q !in s.waiting
    ensures Binding(s, now, Left(s, q, now))
  {
  }

  lemma TaskKeepsSharp(s: State, a: TaskStep)
    requires AloneSharp(s) && |s.tasks| == 1 && CanTask(s, s.tasks[0], a)
    ensures AloneSharp(DoTask(s, 0, a))
  {
    hide Binding, Due, Left, NextDeadline, Delay;
    if a.MeasureSource? {
      MeasuringKeepsSharp(s, 0);
    } else if a.Park? {
      var s', pc := DoTask(s, 0, a), s.tasks[0];
      if pc.wait != 0xffff_ffff { BindingSame(s, s', pc.now, pc.wait); }
    }
  }

  // ----- runs

  predicate Inv(s: State) {
    InTime(s) && Minded(s) && Dated(s) && AloneSharp(s)
  }

  lemma StepKeepsInv(s: State, a: Step)
    requires Inv(s) && Enabled(s, a) && ShortStep(a)
    ensures Inv(Do(s, a))
  {
    hide InTime, Minded, Dated, AloneSharp, DoTask, CanTask, ShortStep;
    StepKeepsTime(s, a);
    if a.Task? {
      TaskKeepsMinded(s, a.k, a.a);
      TaskKeepsDated(s, a.k, a.a);
      if |s.tasks| == 1 { TaskKeepsSharp(s, a.a); } else { ManyTasks(s, a.k, a.a); }
    } else {
      ThreadKeepsMinded(s, a);
      ThreadKeepsDated(s, a);
      ThreadKeepsSharp(s, a);
    }
  }

  lemma ManyTasks(s: State, k: nat, a: TaskStep)
    requires |s.tasks| != 1 && k < |s.tasks| && CanTask(s, s.tasks[k], a)
    ensures AloneSharp(DoTask(s, k, a))
  {
    hide DoTask, CanTask;
    TaskFrame(s, k, a);
  }

  lemma {:induction false} RunKeepsInv(s: State, run: seq<Step>)
    requires Inv(s) && CanRun(s, run) && ShortRun(run)
    ensures Inv(After(s, run))
    decreases |run|
  {
    hide Do, Enabled, Inv, ShortStep;
    if run != [] {
      StepKeepsInv(s, run[0]);
      RunKeepsInv(Do(s, run[0]), run[1..]);
    }
  }

  lemma InitInv()
    ensures Inv(Init())
  {
  }

  predicate AllBlocked(s: State) {
    forall k: nat | k < |s.tasks| :: s.tasks[k].Blocked?
  }

  /** A task that read the clock less than 2^31 ticks after `q` was due sleeps no longer
      than until `q` is due. */
  predicate SleepsUntil(s: State, pc: Pc, q: Id) {
    pc.Blocked? && (pc.at < DueOf(s, q) + 0x8000_0000 ==> pc.wait <= UntilDue(s, q, pc.at))
  }

  /** The wait is one of a listed source: one not yet run, or exactly its time left. */
  predicate WaitsFor(s: State, pc: Pc, q: Id)
    requires pc.Blocked?
  {
    q in s.list && q !in s.waiting
    && (q in s.due && s.due[q] < pc.at + 0x8000_0000 && pc.at < s.due[q] + 0x8000_0000 ==> pc.wait == UntilDue(s, q, pc.at))
  }

  /** While all tasks are blocked, no armed source is slept past in true time, however often
      the counter has wrapped; and a single task sleeps no less than some source has left. */
  lemma WaitIsLeast(run: seq<Step>, q: Id)
    requires CanRun(Init(), run) && ShortRun(run)
    ensures var s := After(Init(), run);
            && (AllBlocked(s) && Armed(s, q) ==> q in s.due && exists k: nat :: k < |s.tasks| && SleepsUntil(s, s.tasks[k], q))
            && (|s.tasks| == 1 && AllBlocked(s) && s.tasks[0].wait != 0xffff_ffff ==> exists p :: WaitsFor(s, s.tasks[0], p))
  {
    hide Do, Enabled, Inv, ShortRun;
    InitInv();
    RunKeepsInv(Init(), run);
    var s := After(Init(), run);
    if AllBlocked(s) && Armed(s, q) { ArmedSleeps(s, q); }
    if |s.tasks| == 1 && AllBlocked(s) && s.tasks[0].wait != 0xffff_ffff { AloneWaits(s); }
  }

  lemma ArmedSleeps(s: State, q: Id)
    requires Inv(s) && AllBlocked(s) && Armed(s, q)
    ensures q in s.due && exists k: nat :: k < |s.tasks| && SleepsUntil(s, s.tasks[k], q)
  {
    hide Left, UntilDue, AloneSharp;
    assert HasDue(s, q);
    var k: nat :| k < |s.tasks| && Minds(s, s.tasks[k], q);
    var pc := s.tasks[k];
    if pc.at < DueOf(s, q) + 0x8000_0000 { LeftIsTrue(s, q, pc.at); }
    assert SleepsUntil(s, pc, q);
  }

  lemma AloneWaits(s: State)
    requires Inv(s) && |s.tasks| == 1 && AllBlocked(s) && s.tasks[0].wait != 0xffff_ffff
    ensures exists p :: WaitsFor(s, s.tasks[0], p)
  {
    hide Left, UntilDue, Minded, Dated;
    var pc := s.tasks[0];
    var p :| p in s.list && p !in s.waiting && pc.wait == Left(s, p, pc.now);
    if p in s.due && s.due[p] < pc.at + 0x8000_0000 && pc.at < s.due[p] + 0x8000_0000 { LeftIsTrue(s, p, pc.at); }
    assert WaitsFor(s, pc, p);
  }

  /** In every run, a task that comes to a source runs it exactly if it is pending, or armed and due
      in true time; every other source it passes. */
  lemma RunsWhatIsDue(run: seq<Step>, k: nat, q: Id)
    requires CanRun(Init(), run) && ShortRun(run) && k < |After(Init(), run).tasks|
    requires var pc := After(Init(), run).tasks[k]; pc.Scan? && pc.rest != [] && pc.rest[0] == q
    requires var s, at := After(Init(), run), After(Init(), run).tasks[k].at;
             DueOf(s, q) < at + 0x8000_0000 && at < DueOf(s, q) + 0x8000_0000
    ensures var s := After(Init(), run);
            var pc, next := s.tasks[k], Do(s, Task(k, TestSource)).tasks[k];
            if q in s.pending || (q !in s.waiting && DueOf(s, q) <= pc.at) then next == Clear(pc.rest, pc.now, pc.at)
            else next == Scan(pc.rest[1..], pc.now, pc.at)
  {
    hide Inv, ShortRun, Remain, After, CanRun;
    InitInv();
    RunKeepsInv(Init(), run);
    var s := After(Init(), run);
    InvInTime(s);
    RemainIsTrue(DueOf(s, q), s.tasks[k].at);
  }

  lemma InvInTime(s: State)
    requires Inv(s)
    ensures InTime(s)
  {
  }
}
