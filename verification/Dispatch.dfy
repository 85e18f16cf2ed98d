/** The dispatch task of bsp/src/bsp_dispatch.c. */
module Dispatch {
  // The task, its binary semaphore, and the threads and interrupts that notify it or register
  // sources, as atomic steps in any order. Registrations that overlap can make several tasks.

  import opened Prelude

  type Id = nat
  type Thread = nat

  // ----- tick arithmetic

  /** `(int32_t)(deadline - now)` on 32-bit tick counts. */
  function Remain(deadline: int, now: int): (r: int)
    ensures -0x8000_0000 <= r < 0x8000_0000
  {
    var d := (deadline - now) % 0x1_0000_0000;
    if d < 0x8000_0000 then d else d - 0x1_0000_0000
  }

  /** The signed difference is the true one while the times are less than 2^31 apart,
      however often the counter has wrapped. */
  lemma RemainIsTrue(deadline: int, now: int)
    requires -0x8000_0000 <= deadline - now < 0x8000_0000
    ensures Remain(deadline % 0x1_0000_0000, now % 0x1_0000_0000) == deadline - now
  {
  }

  /** The deadline the task stores for a source that asked to run again after `d` ticks. */
  function NextDeadline(now: nat, d: nat, align: bool): nat
    requires align ==> d > 0
  {
    (if align then (now / d + 1) * d else now + d) % 0x1_0000_0000
  }

  /** The ticks from `now` until a source that asked for `d` is to run again: up to the next
      multiple of the period, or just `d`. */
  function Delay(now: nat, d: nat, align: bool): (r: nat)
    requires align ==> d > 0
    ensures r <= d && (d > 0 ==> r > 0)
  {
    if align then d - now % d else d
  }

  lemma NextMultiple(now: nat, d: nat)
    requires d > 0
    ensures now + (d - now % d) == (now / d + 1) * d && (now + (d - now % d)) % d == 0
  {
    var q, r := now / d, now % d;
    assert q * d + r == now && (q + 1) * d == q * d + d;
    DivUnique(now + (d - r), d, q + 1, 0);
  }

  lemma WordSum(at: nat, x: nat)
    ensures (at % 0x1_0000_0000 + x) % 0x1_0000_0000 == (at + x) % 0x1_0000_0000
  {
  }

  /** The deadline that is stored is the low word of the time it stands for. */
  lemma DeadlineIsDue(at: nat, d: nat, align: bool)
    requires align ==> d > 0
    ensures var now := at % 0x1_0000_0000; NextDeadline(now, d, align) == (at + Delay(now, d, align)) % 0x1_0000_0000
  {
    var now := at % 0x1_0000_0000;
    if align { NextMultiple(now, d); }
    WordSum(at, Delay(now, d, align));
  }

  /** Snapping to a multiple of the period never delays a run past the period, nor makes
      it due at once; an unaligned poll is due after exactly its period. */
  lemma DeadlineInTime(now: nat, d: nat, align: bool)
    requires now < 0x1_0000_0000 && 0 < d < 0x8000_0000
    ensures 0 < Remain(NextDeadline(now, d, align), now) <= d
    ensures !align ==> Remain(NextDeadline(now, d, align), now) == d
    ensures align ==> (now + Remain(NextDeadline(now, d, align), now)) % d == 0
  {
    hide NextDeadline, Remain;
    DeadlineIsDue(now, d, align);
    assert now % 0x1_0000_0000 == now;
    RemainIsTrue(now + Delay(now, d, align), now);
    if align { NextMultiple(now, d); }
  }

  // ----- state

  /** Where a task is in its loop; `at` is the true time at which it read `now`. */
  datatype Pc =
    | Top
    | Scan(rest: seq<Id>, now: nat, at: nat)
    | Clear(rest: seq<Id>, now: nat, at: nat)
    | Tick(rest: seq<Id>, now: nat, at: nat)
    | Measure(rest: seq<Id>, now: nat, at: nat, wait: nat)
    | Blocked(sem: nat, now: nat, at: nat, wait: nat)

  /** Where a thread is inside `bsp_dispatch_notify` or `bsp_dispatch_add_source`. */
  datatype Doing =
    | Notified(src: Id)
    | Linked(src: Id)
    | SawNoSem(src: Id)
    | SemReady(src: Id)
    | SawNoTask(src: Id)
    | TaskReady(src: Id)

  /** `clock` and `deadline` are the 32-bit counts of the code; `time` and `due` are the
      times they stand for, which no code reads. */
  datatype State = State(
    list: seq<Id>, pending: set<Id>, waiting: set<Id>, deadline: map<Id, nat>, due: map<Id, nat>,
    sem: Option<nat>, tokens: set<nat>, sems: nat,
    clock: nat, time: nat, tasks: seq<Pc>, threads: map<Thread, Doing>)

  function Init(): State {
    State([], {}, {}, map[], map[], None, {}, 0, 0, 0, [], map[])
  }

  function DeadlineOf(s: State, id: Id): nat {
    if id in s.deadline then s.deadline[id] else 0
  }

  function Left(s: State, id: Id, now: nat): nat {
    var r := Remain(DeadlineOf(s, id), now);
    if r <= 0 then 0 else r
  }

  predicate Due(s: State, id: Id, now: nat) {
    id in s.pending || (id !in s.waiting && Remain(DeadlineOf(s, id), now) <= 0)
  }

  predicate TokenReady(s: State) {
    s.sem.Some? && s.sem.value in s.tokens
  }

  // ----- steps

  /** What a source's tick asked for. */
  datatype Again = Idle | Later(d: nat, align: bool)

  datatype TaskStep =
    | ReadTick
    | TestSource
    | ClearPending
    | TickDone(again: Again)
    | MeasureSource
    | Park
    | Take
    | Timeout

  datatype Step =
    | Time(d: nat)
    | NotifySet(t: Thread, src: Id)
    | NotifyGive(t: Thread)
    | Link(t: Thread, src: Id)
    | TestSem(t: Thread)
    | MakeSem(t: Thread)
    | TestTask(t: Thread)
    | MakeTask(t: Thread)
    | FirstGive(t: Thread)
    | Task(k: nat, a: TaskStep)

  function At(s: State, t: Thread): Option<Doing> {
    if t in s.threads then Some(s.threads[t]) else None
  }

  predicate CanTask(s: State, pc: Pc, a: TaskStep) {
    match a
    case ReadTick => pc.Top?
    case TestSource => pc.Scan?
    case ClearPending => pc.Clear? && pc.rest != []
    case TickDone(again) => pc.Tick? && pc.rest != [] && (again.Later? && again.align ==> again.d > 0)
    case MeasureSource => pc.Measure? && pc.rest != []
    case Park => pc.Measure? && pc.rest == [] && s.sem.Some?
    case Take => pc.Blocked? && pc.sem in s.tokens
    case Timeout => pc.Blocked? && pc.wait < 0xffff_ffff
  }

  predicate Enabled(s: State, a: Step) {
    match a
    case Time(_) => true
    case NotifySet(t, _) => At(s, t).None?
    case NotifyGive(t) => At(s, t).Some? && At(s, t).value.Notified?
    case Link(t, src) => At(s, t).None? && src !in s.list
    case TestSem(t) => At(s, t).Some? && At(s, t).value.Linked?
    case MakeSem(t) => At(s, t).Some? && At(s, t).value.SawNoSem?
    case TestTask(t) => At(s, t).Some? && At(s, t).value.SemReady?
    case MakeTask(t) => At(s, t).Some? && At(s, t).value.SawNoTask?
    case FirstGive(t) => At(s, t).Some? && At(s, t).value.TaskReady? && s.sem.Some?
    case Task(k, b) => k < |s.tasks| && CanTask(s, s.tasks[k], b)
  }

  function Give(s: State): State {
    if s.sem.None? then s else s.(tokens := s.tokens + {s.sem.value})
  }

  function Move(s: State, t: Thread, d: Doing): State {
    s.(threads := s.threads[t := d])
  }

  function Leave(s: State, t: Thread): State {
    s.(threads := s.threads - {t})
  }

  function To(s: State, k: nat, pc: Pc): State
    requires k < |s.tasks|
  {
    s.(tasks := s.tasks[k := pc])
  }

  /** `dispatch_task` */
  function DoTask(s: State, k: nat, a: TaskStep): State
    requires k < |s.tasks| && CanTask(s, s.tasks[k], a)
  {
    var pc := s.tasks[k];
    match a
    case ReadTick => To(s, k, Scan(s.list, s.clock, s.time))
    case TestSource =>
      if pc.rest == [] then To(s, k, Measure(s.list, s.clock, s.time, 0xffff_ffff))
      else if Due(s, pc.rest[0], pc.now) then To(s, k, Clear(pc.rest, pc.now, pc.at))
      else To(s, k, Scan(pc.rest[1..], pc.now, pc.at))
    case ClearPending => To(s.(pending := s.pending - {pc.rest[0]}), k, Tick(pc.rest, pc.now, pc.at))
    case TickDone(again) =>
      var src, next := pc.rest[0], Scan(pc.rest[1..], pc.now, pc.at);
      (match again
       case Idle => To(s.(waiting := s.waiting + {src}), k, next)
       case Later(d, align) =>
         To(s.(waiting := s.waiting - {src},
               deadline := s.deadline[src := NextDeadline(pc.now, d, align)],
               due := s.due[src := pc.at + Delay(pc.now, d, align)]), k, next))
    case MeasureSource =>
      var src := pc.rest[0];
      var w := Left(s, src, pc.now);
      To(s, k, Measure(pc.rest[1..], pc.now, pc.at, if src !in s.waiting && w < pc.wait then w else pc.wait))
    case Park => To(s, k, Blocked(s.sem.value, pc.now, pc.at, pc.wait))
    case Take => To(s.(tokens := s.tokens - {pc.sem}), k, Top)
    case Timeout => To(s, k, Top)
  }

  function Do(s: State, a: Step): State
    requires Enabled(s, a)
  {
    match a
    case Time(d) => s.(clock := (s.clock + d) % 0x1_0000_0000, time := s.time + d)
    // bsp_dispatch_notify: the flag, then the semaphore if there is one
    case NotifySet(t, src) => Move(s.(pending := s.pending + {src}), t, Notified(src))
    case NotifyGive(t) => Leave(Give(s), t)
    // bsp_dispatch_add_source: one critical section, then start-up, then the give
    case Link(t, src) =>
      Move(s.(pending := s.pending + {src}, list := [src] + s.list), t, Linked(src))
    case TestSem(t) =>
      var src := s.threads[t].src;
      Move(s, t, if s.sem.None? then SawNoSem(src) else SemReady(src))
    case MakeSem(t) =>
      Move(s.(sem := Some(s.sems), sems := s.sems + 1), t, SemReady(s.threads[t].src))
    case TestTask(t) =>
      var src := s.threads[t].src;
      Move(s, t, if s.tasks != [] then TaskReady(src) else SawNoTask(src))
    case MakeTask(t) => Move(s.(tasks := s.tasks + [Top]), t, TaskReady(s.threads[t].src))
    case FirstGive(t) => Leave(Give(s), t)
    case Task(k, b) => DoTask(s, k, b)
  }

  predicate Registering(d: Doing) {
    !d.Notified?
  }

  /** While there is no semaphore, no registration begins beside another. */
  predicate Orderly(s: State, a: Step) {
    a.Link? && s.sem.None? ==> forall t | t in s.threads :: !Registering(s.threads[t])
  }

  // ----- what every step keeps

  /** Some thread has raised the flag of `p` and not yet given the semaphore. */
  predicate Owed(s: State, p: Id) {
    exists t :: t in s.threads && s.threads[t].src == p
  }

  /** The task will still look at `p` before it blocks. */
  predicate WillSee(pc: Pc, p: Id) {
    match pc
    case Top => true
    case Scan(rest, _, _) => p in rest
    case Clear(rest, _, _) => p in rest
    case Tick(rest, _, _) => rest != [] && p in rest[1..]
    case Measure(_, _, _, _) => false
    case Blocked(_, _, _, _) => false
  }

  /** Some task will, if only because none has begun. */
  predicate Awaited(s: State, p: Id) {
    s.tasks == [] || exists k: nat :: k < |s.tasks| && WillSee(s.tasks[k], p)
  }

  predicate NothingLost(s: State) {
    forall p | p in s.list && p in s.pending :: Awaited(s, p) || TokenReady(s) || Owed(s, p)
  }

  /** Until there is a semaphore, at most one registration is on its way, and nothing else
      has happened but notifications. */
  predicate BeforeSem(s: State) {
    && s.tasks == [] && s.tokens == {}
    && (forall t, u | t in s.threads && u in s.threads && Registering(s.threads[t]) && Registering(s.threads[u]) :: t == u)
    && (forall t | t in s.threads && Registering(s.threads[t]) :: s.list == [s.threads[t].src])
    && (s.list == [] || exists t :: t in s.threads && Registering(s.threads[t]))
  }

  /** What a registering thread has seen is still so. */
  predicate ThreadSees(s: State, d: Doing) {
    match d
    case Notified(_) => true
    case Linked(_) => true
    case SawNoSem(_) => s.sem.None?
    case SemReady(_) => s.sem.Some?
    case SawNoTask(_) => s.sem.Some?
    case TaskReady(_) => s.sem.Some? && s.tasks != []
  }

  predicate StartUp(s: State) {
    && (s.sem.None? ==> BeforeSem(s))
    && (s.tasks == [] ==> forall p | p in s.list :: p in s.pending)
    && (forall t | t in s.threads :: ThreadSees(s, s.threads[t]))
    && (forall k: nat | k < |s.tasks| && s.tasks[k].Blocked? :: s.sem == Some(s.tasks[k].sem))
  }

  predicate Inv(s: State) {
    NothingLost(s) && StartUp(s)
  }

  lemma InitInv()
    ensures Inv(Init())
  {
  }

  // ----- nothing is lost

  lemma OwedKept(s: State, s': State, t: Thread, p: Id)
    requires t in s'.threads && (t in s.threads ==> s'.threads[t].src == s.threads[t].src)
    requires forall u | u in s.threads && u != t :: u in s'.threads && s'.threads[u] == s.threads[u]
    requires Owed(s, p)
    ensures Owed(s', p)
  {
    var u :| u in s.threads && s.threads[u].src == p;
    assert u in s'.threads && s'.threads[u].src == p;
  }

  /** Raising a flag leaves a signal owed. */
  lemma RaisingLosesNothing(s: State, a: Step)
    requires NothingLost(s) && Enabled(s, a) && (a.NotifySet? || a.Link?)
    ensures NothingLost(Do(s, a))
  {
    hide WillSee, Registering;
    var s' := Do(s, a);
    forall p | p in s'.list && p in s'.pending ensures Awaited(s', p) || TokenReady(s') || Owed(s', p) {
      if p == a.src {
        assert a.t in s'.threads && s'.threads[a.t].src == p;
      } else if Owed(s, p) {
        OwedKept(s, s', a.t, p);
      }
    }
  }

  /** Giving leaves a token, unless there is no task to lose anything. */
  lemma GivingLosesNothing(s: State, a: Step)
    requires StartUp(s) && Enabled(s, a) && (a.NotifyGive? || a.FirstGive?)
    ensures NothingLost(Do(s, a))
  {
    hide WillSee, Registering;
    var s' := Do(s, a);
    if s.sem.None? { assert s'.tasks == []; } else { assert TokenReady(s'); }
  }

  /** Starting up changes neither flags nor what is owed. */
  lemma StartingLosesNothing(s: State, a: Step)
    requires Inv(s) && Enabled(s, a) && (a.TestSem? || a.MakeSem? || a.TestTask? || a.MakeTask?)
    ensures NothingLost(Do(s, a))
  {
    hide WillSee, Registering;
    var s' := Do(s, a);
    forall p | p in s'.list && p in s'.pending ensures Awaited(s', p) || TokenReady(s') || Owed(s', p) {
      if Owed(s, p) {
        OwedKept(s, s', a.t, p);
      } else if Awaited(s, p) {
        AwaitedStill(s, s', p);
      }
    }
  }

  lemma AwaitedStill(s: State, s': State, p: Id)
    requires Awaited(s, p) && (s'.tasks == s.tasks || s'.tasks == s.tasks + [Top])
    ensures Awaited(s', p)
  {
    if s.tasks == [] {
      if s'.tasks != [] { assert s'.tasks[0] == Top; }
    } else {
      var k: nat :| k < |s.tasks| && WillSee(s.tasks[k], p);
      assert s'.tasks[k] == s.tasks[k];
    }
  }

  lemma InTail(p: Id, s: seq<Id>)
    requires p in s
    ensures p == s[0] || p in s[1..]
  {
    var i :| 0 <= i < |s| && s[i] == p;
    if i > 0 { assert s[1..][i - 1] == p; }
  }

  /** What a task would have seen it still sees after its next step, or has now seen. */
  lemma TaskSees(s: State, k: nat, a: TaskStep, p: Id)
    requires k < |s.tasks| && CanTask(s, s.tasks[k], a)
    requires WillSee(s.tasks[k], p) && p in s.list && p in DoTask(s, k, a).pending
    ensures WillSee(DoTask(s, k, a).tasks[k], p)
  {
    hide Remain, NextDeadline, Delay, Left;
    var pc := s.tasks[k];
    if (pc.Scan? || pc.Clear?) && pc.rest != [] { InTail(p, pc.rest); }
  }

  /** A task leaves the list, the threads and the other tasks alone. */
  lemma TaskFrame(s: State, k: nat, a: TaskStep)
    requires k < |s.tasks| && CanTask(s, s.tasks[k], a)
    ensures var s' := DoTask(s, k, a);
            && s'.list == s.list && s'.threads == s.threads && s'.sem == s.sem && s'.pending <= s.pending
            && |s'.tasks| == |s.tasks| && (forall j: nat | j < |s.tasks| && j != k :: s'.tasks[j] == s.tasks[j])
            && (a.Take? || s'.tokens == s.tokens) && (a.Take? ==> s'.tasks[k] == Top)
            && s'.clock == s.clock && s'.time == s.time
            && (s'.tasks[k].Blocked? ==> s.sem == Some(s'.tasks[k].sem))
  {
    hide Due, Left, NextDeadline, Delay;
  }

  lemma TaskLosesNothing(s: State, k: nat, a: TaskStep)
    requires NothingLost(s) && k < |s.tasks| && CanTask(s, s.tasks[k], a)
    ensures NothingLost(DoTask(s, k, a))
  {
    hide WillSee, DoTask, CanTask;
    TaskFrame(s, k, a);
    var s' := DoTask(s, k, a);
    forall p | p in s'.list && p in s'.pending ensures Awaited(s', p) || TokenReady(s') || Owed(s', p) {
      if a.Take? {
        assert WillSee(s'.tasks[k], p) by { TopSees(p); }
      } else if Awaited(s, p) {
        var j: nat :| j < |s.tasks| && WillSee(s.tasks[j], p);
        if j == k { TaskSees(s, k, a, p); }
        assert WillSee(s'.tasks[j], p);
      } else if Owed(s, p) {
        var t :| t in s.threads && s.threads[t].src == p;
        assert t in s'.threads && s'.threads[t].src == p;
      }
    }
  }

  lemma TopSees(p: Id)
    ensures WillSee(Top, p)
  {
  }

  /** Every step leaves every pending listed source seen, signalled or owed a signal. */
  lemma StepKeepsNothingLost(s: State, a: Step)
    requires Inv(s) && Enabled(s, a)
    ensures NothingLost(Do(s, a))
  {
    hide NothingLost, StartUp, DoTask, CanTask;
    match a
    case Time(d) => LaterLosesNothing(s, d);
    case NotifySet(_, _) => RaisingLosesNothing(s, a);
    case Link(_, _) => RaisingLosesNothing(s, a);
    case NotifyGive(_) => GivingLosesNothing(s, a);
    case FirstGive(_) => GivingLosesNothing(s, a);
    case Task(k, b) => TaskLosesNothing(s, k, b);
    case _ => StartingLosesNothing(s, a);
  }

  lemma LaterLosesNothing(s: State, d: nat)
    requires NothingLost(s)
    ensures NothingLost(Do(s, Time(d)))
  {
    hide WillSee;
    var s' := Do(s, Time(d));
    forall p | p in s'.list && p in s'.pending ensures Awaited(s', p) || TokenReady(s') || Owed(s', p) {
      if Owed(s, p) {
        var t :| t in s.threads && s.threads[t].src == p;
        assert t in s'.threads && s'.threads[t].src == p;
      } else if Awaited(s, p) {
        AwaitedStill(s, s', p);
      }
    }
  }

  // ----- the task is started once the semaphore is there

  /** The first registration is the only one. */
  lemma LinkKeepsBeforeSem(s: State, t: Thread, src: Id)
    requires BeforeSem(s) && s.sem.None? && Enabled(s, Link(t, src)) && Orderly(s, Link(t, src))
    ensures BeforeSem(Do(s, Link(t, src)))
  {
    hide DoTask, CanTask;
    var s' := Do(s, Link(t, src));
    assert [src] + s.list == [src];
    assert t in s'.threads && Registering(s'.threads[t]);
  }

  lemma ThreadKeepsBeforeSem(s: State, a: Step)
    requires BeforeSem(s) && s.sem.None? && (forall t | t in s.threads :: ThreadSees(s, s.threads[t]))
    requires Enabled(s, a) && (a.Time? || a.NotifySet? || a.NotifyGive? || a.TestSem?)
    ensures BeforeSem(Do(s, a))
  {
    hide DoTask, CanTask;
    var s' := Do(s, a);
    if s.list != [] {
      var t :| t in s.threads && Registering(s.threads[t]);
      assert t in s'.threads && Registering(s'.threads[t]);
    }
  }

  lemma ThreadKeepsStartUp(s: State, a: Step)
    requires StartUp(s) && Enabled(s, a) && Orderly(s, a) && !a.Task?
    ensures StartUp(Do(s, a))
  {
    hide NothingLost, DoTask, CanTask, Orderly;
    if Do(s, a).sem.None? {
      if a.Link? { LinkKeepsBeforeSem(s, a.t, a.src); } else { ThreadKeepsBeforeSem(s, a); }
      hide BeforeSem;
    }
  }

  lemma TaskKeepsStartUp(s: State, k: nat, a: TaskStep)
    requires StartUp(s) && k < |s.tasks| && CanTask(s, s.tasks[k], a)
    ensures StartUp(DoTask(s, k, a))
  {
    hide DoTask, CanTask;
    TaskFrame(s, k, a);
  }

  /** Every step in an orderly run keeps the invariant. */
  lemma StepKeepsInv(s: State, a: Step)
    requires Inv(s) && Enabled(s, a) && Orderly(s, a)
    ensures Inv(Do(s, a))
  {
    hide NothingLost, StartUp, Orderly, DoTask, CanTask;
    StepKeepsNothingLost(s, a);
    if a.Task? { TaskKeepsStartUp(s, a.k, a.a); } else { ThreadKeepsStartUp(s, a); }
  }

  // ----- runs

  predicate CanRun(s: State, run: seq<Step>)
    decreases |run|
  {
    run == [] || (Enabled(s, run[0]) && CanRun(Do(s, run[0]), run[1..]))
  }

  function After(s: State, run: seq<Step>): State
    requires CanRun(s, run)
    decreases |run|
  {
    if run == [] then s else After(Do(s, run[0]), run[1..])
  }

  predicate OrderlyRun(s: State, run: seq<Step>)
    requires CanRun(s, run)
    decreases |run|
  {
    run == [] || (Orderly(s, run[0]) && OrderlyRun(Do(s, run[0]), run[1..]))
  }

  lemma {:induction false} RunKeepsInv(s: State, run: seq<Step>)
    requires Inv(s) && CanRun(s, run) && OrderlyRun(s, run)
    ensures Inv(After(s, run))
    decreases |run|
  {
    hide Do, Enabled, Inv;
    if run != [] {
      StepKeepsInv(s, run[0]);
      RunKeepsInv(Do(s, run[0]), run[1..]);
    }
  }

  /** Every task is asleep on an empty semaphore. */
  predicate Asleep(s: State) {
    s.tasks != [] && forall k: nat | k < |s.tasks| :: s.tasks[k].Blocked? && s.tasks[k].sem !in s.tokens
  }

  /** No notification is lost: while the tasks sleep, a listed source is pending only if
      some notifier or registrar has still to give the semaphore. */
  lemma NoLostNotification(run: seq<Step>, p: Id)
    requires CanRun(Init(), run) && OrderlyRun(Init(), run)
    ensures var s := After(Init(), run); Asleep(s) && p in s.list && p in s.pending ==> Owed(s, p)
  {
    hide Do, Enabled;
    InitInv();
    RunKeepsInv(Init(), run);
    SleepersAreOwed(After(Init(), run), p);
  }

  lemma SleepersAreOwed(s: State, p: Id)
    requires Inv(s)
    ensures Asleep(s) && p in s.list && p in s.pending ==> Owed(s, p)
  {
    hide BeforeSem, ThreadSees;
    if Asleep(s) { assert s.sem == Some(s.tasks[0].sem); }
  }
}
