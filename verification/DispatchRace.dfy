/** What registrations that overlap lead to in bsp/src/bsp_dispatch.c. */
module DispatchRace {
  import opened Prelude
  import opened Dispatch

  // ----- building runs

  lemma {:induction false} ExtendFrom(s: State, run: seq<Step>, a: Step)
    requires CanRun(s, run) && Enabled(After(s, run), a)
    ensures CanRun(s, run + [a]) && After(s, run + [a]) == Do(After(s, run), a)
    decreases |run|
  {
    hide Do, Enabled;
    if run == [] {
      assert [a][1..] == [];
      assert CanRun(Do(s, a), []);
      assert [] + [a] == [a];
    } else {
      ExtendFrom(Do(s, run[0]), run[1..], a);
      assert (run + [a])[1..] == run[1..] + [a];
    }
  }

  /** `run` leads from `o` to `s`. */
  predicate Leads(o: State, run: seq<Step>, s: State) {
    CanRun(o, run) && After(o, run) == s
  }

  lemma Extend(o: State, run: seq<Step>, s: State, a: Step) returns (r: seq<Step>, t: State)
    requires Leads(o, run, s) && Enabled(s, a)
    ensures Leads(o, r, t) && t == Do(s, a) && r == run + [a]
  {
    ExtendFrom(o, run, a);
    r, t := run + [a], Do(s, a);
  }

  // ----- the notifiers of a source give, while there is no semaphore

  /** The threads that stand between raising the flag of `y` and giving. */
  function NotifiersOf(s: State, y: Id): set<Thread> {
    set t | t in s.threads && s.threads[t] == Notified(y)
  }

  lemma {:induction false} NotifiersGive(o: State, run: seq<Step>, s: State, y: Id) returns (r: seq<Step>, t: State)
    requires Leads(o, run, s) && s.sem.None?
    ensures run <= r && Leads(o, r, t) && t == s.(threads := t.threads) && NotifiersOf(t, y) == {}
    ensures forall u | u in t.threads :: u in s.threads && t.threads[u] == s.threads[u]
    ensures forall u | u in s.threads && s.threads[u] != Notified(y) :: u in t.threads
    decreases |NotifiersOf(s, y)|
  {
    hide Leads;
    if NotifiersOf(s, y) == {} {
      r, t := run, s;
    } else {
      var u :| u in NotifiersOf(s, y);
      r, t := Extend(o, run, s, NotifyGive(u));
      assert NotifiersOf(t, y) == NotifiersOf(s, y) - {u};
      r, t := NotifiersGive(o, r, t, y);
    }
  }

  // ----- two registrations

  /** `t` registers the first source `x` and `u` registers `y`, with no one else about to
      give for `y` or to register. */
  predicate Racing(s: State, t: Thread, u: Thread, x: Id, y: Id) {
    && t != u && x != y && s.list == [y, x]
    && (forall v | v in s.threads && v != t && v != u :: s.threads[v].Notified? && s.threads[v].src != y)
  }

  /** Both have found no semaphore. */
  predicate BothSawNone(s: State, t: Thread, u: Thread, x: Id, y: Id) {
    && Racing(s, t, u, x, y) && x in s.pending && y in s.pending
    && s.sem.None? && s.tokens == {} && s.tasks == []
    && At(s, t) == Some(SawNoSem(x)) && At(s, u) == Some(SawNoSem(y))
  }

  /** The second registration is linked behind the first, and neither has made the
      semaphore. */
  predicate BothLinked(s: State, t: Thread, u: Thread, x: Id, y: Id) {
    && t != u && x != y && s.list == [y, x] && x in s.pending && y in s.pending
    && s.sem.None? && s.tokens == {} && s.tasks == []
    && (At(s, t) == Some(Linked(x)) || At(s, t) == Some(SawNoSem(x))) && At(s, u) == Some(Linked(y))
    && forall v | v in s.threads && v != t && v != u :: s.threads[v].Notified?
  }

  lemma EmptyRun(s: State)
    ensures Leads(s, [], s)
  {
  }

  /** The registration that breaks the rule. */
  lemma RaceBegins(s: State, u: Thread, y: Id) returns (r: seq<Step>, e: State, t: Thread, x: Id)
    requires Inv(s) && Enabled(s, Link(u, y)) && !Orderly(s, Link(u, y))
    ensures r == [Link(u, y)] && Leads(s, r, e) && BothLinked(e, t, u, x, y)
  {
    hide Leads, NothingLost, DoTask, CanTask;
    t :| t in s.threads && Registering(s.threads[t]);
    x := s.threads[t].src;
    assert s.list == [x] && x in s.list;
    assert ThreadSees(s, s.threads[t]);
    EmptyRun(s);
    r, e := Extend(s, [], s, Link(u, y));
    assert e.list == [y, x];
  }

  /** The notifiers of `y` give, and both registrations look for the semaphore. */
  lemma RaceLinks(o: State, run: seq<Step>, s: State, t: Thread, u: Thread, x: Id, y: Id)
    returns (r: seq<Step>, e: State)
    requires Leads(o, run, s) && BothLinked(s, t, u, x, y)
    ensures run <= r && Leads(o, r, e) && BothSawNone(e, t, u, x, y)
  {
    hide Leads, DoTask, CanTask, NotifiersOf;
    r, e := NotifiersGive(o, run, s, y);
    NoneNotifies(e, t, u, y);
    r, e := Extend(o, r, e, TestSem(u));
    if At(e, t) == Some(Linked(x)) { r, e := Extend(o, r, e, TestSem(t)); }
  }

  lemma NoneNotifies(s: State, t: Thread, u: Thread, y: Id)
    requires (forall v | v in s.threads && v != t && v != u :: s.threads[v].Notified?) && NotifiersOf(s, y) == {}
    ensures forall v | v in s.threads && v != t && v != u :: s.threads[v].src != y
  {
    forall v | v in s.threads && v != t && v != u ensures s.threads[v].src != y {
      assert v !in NotifiersOf(s, y);
    }
  }

  /** The task has begun its first loop. */
  predicate FirstStarted(s: State, t: Thread, u: Thread, x: Id, y: Id) {
    && Racing(s, t, u, x, y) && x in s.pending && y in s.pending
    && s.sem.Some? && s.sem.value < s.sems && s.tokens == {}
    && At(s, t) == Some(TaskReady(x)) && At(s, u) == Some(SawNoSem(y))
    && |s.tasks| == 1 && s.tasks[0].Scan? && s.tasks[0].rest == [y, x]
  }

  /** The first registration makes the semaphore and the task. */
  lemma RaceStarts(o: State, run: seq<Step>, s: State, t: Thread, u: Thread, x: Id, y: Id)
    returns (r: seq<Step>, e: State)
    requires Leads(o, run, s) && BothSawNone(s, t, u, x, y)
    ensures run <= r && Leads(o, r, e) && FirstStarted(e, t, u, x, y)
  {
    hide Leads;
    r, e := Extend(o, run, s, MakeSem(t));
    r, e := Extend(o, r, e, TestTask(t));
    r, e := Extend(o, r, e, MakeTask(t));
    assert e.tasks == [Top];
    r, e := Extend(o, r, e, Task(0, ReadTick));
  }

  /** The task serves the pending source in front, which then waits for a notification. */
  lemma Serve(o: State, run: seq<Step>, s: State) returns (r: seq<Step>, e: State)
    requires Leads(o, run, s) && |s.tasks| == 1
    requires s.tasks[0].Scan? && s.tasks[0].rest != [] && s.tasks[0].rest[0] in s.pending
    ensures run <= r && Leads(o, r, e)
    ensures var x := s.tasks[0].rest[0];
            && e == s.(pending := s.pending - {x}, waiting := s.waiting + {x}, tasks := e.tasks)
            && |e.tasks| == 1 && e.tasks[0] == Scan(s.tasks[0].rest[1..], s.tasks[0].now, s.tasks[0].at)
  {
    hide Leads, Remain;
    r, e := Extend(o, run, s, Task(0, TestSource));
    r, e := Extend(o, r, e, Task(0, ClearPending));
    r, e := Extend(o, r, e, Task(0, TickDone(Idle)));
  }

  /** The task sleeps for good on the first semaphore. */
  predicate FirstAsleep(s: State, t: Thread, u: Thread, x: Id, y: Id) {
    && Racing(s, t, u, x, y)
    && s.sem.Some? && s.sem.value < s.sems && s.tokens == {}
    && At(s, t) == Some(TaskReady(x)) && At(s, u) == Some(SawNoSem(y))
    && |s.tasks| == 1 && s.tasks[0].Blocked? && s.tasks[0].sem == s.sem.value && s.tasks[0].wait == 0xffff_ffff
  }

  /** The second loop passes over a waiting source. */
  lemma PassOver(o: State, run: seq<Step>, s: State) returns (r: seq<Step>, e: State)
    requires Leads(o, run, s) && |s.tasks| == 1
    requires s.tasks[0].Measure? && s.tasks[0].rest != [] && s.tasks[0].rest[0] in s.waiting
    ensures run <= r && Leads(o, r, e) && e == s.(tasks := e.tasks)
    ensures |e.tasks| == 1 && e.tasks[0] == s.tasks[0].(rest := s.tasks[0].rest[1..])
  {
    hide Leads, Remain;
    r, e := Extend(o, run, s, Task(0, MeasureSource));
  }

  lemma RaceSleeps(o: State, run: seq<Step>, s: State, t: Thread, u: Thread, x: Id, y: Id)
    returns (r: seq<Step>, e: State)
    requires Leads(o, run, s) && FirstStarted(s, t, u, x, y)
    ensures run <= r && Leads(o, r, e) && FirstAsleep(e, t, u, x, y)
  {
    hide Leads, Remain;
    r, e := Serve(o, run, s);
    r, e := Serve(o, r, e);
    r, e := Extend(o, r, e, Task(0, TestSource));
    r, e := PassOver(o, r, e);
    r, e := PassOver(o, r, e);
    r, e := Extend(o, r, e, Task(0, Park));
  }

  // ----- lost for good

  /** Every task sleeps without a timeout on a semaphore nobody can find any more. */
  predicate Stranded(s: State) {
    && s.tasks != [] && s.sem.Some?
    && (forall k: nat | k < |s.tasks| ::
          s.tasks[k].Blocked? && s.tasks[k].wait == 0xffff_ffff
          && s.tasks[k].sem !in s.tokens && s.tasks[k].sem != s.sem.value)
    && (forall t | t in s.threads :: !s.threads[t].SawNoSem? && !s.threads[t].SawNoTask?)
  }

  /** The second registration makes its own semaphore over the first. */
  lemma RaceOverwrites(o: State, run: seq<Step>, s: State, t: Thread, u: Thread, x: Id, y: Id)
    returns (r: seq<Step>, e: State)
    requires Leads(o, run, s) && FirstAsleep(s, t, u, x, y)
    ensures run <= r && Leads(o, r, e) && Stranded(e) && e.list == [y, x] && u !in e.threads && !Owed(e, y)
  {
    hide Leads, DoTask, CanTask;
    r, e := Extend(o, run, s, MakeSem(u));
    r, e := Extend(o, r, e, FirstGive(t));
    r, e := Extend(o, r, e, TestTask(u));
    r, e := Extend(o, r, e, FirstGive(u));
  }

  /** No step wakes a stranded task or clears a flag. */
  lemma StrandedStays(s: State, a: Step)
    requires Stranded(s) && Enabled(s, a)
    ensures Stranded(Do(s, a)) && s.pending <= Do(s, a).pending && forall p | p in s.list :: p in Do(s, a).list
  {
    hide Due, Left;
  }

  lemma {:induction false} StrandedForGood(s: State, run: seq<Step>)
    requires Stranded(s) && CanRun(s, run)
    ensures Stranded(After(s, run)) && s.pending <= After(s, run).pending
    ensures forall p | p in s.list :: p in After(s, run).list
    decreases |run|
  {
    hide Stranded, Do, Enabled;
    if run != [] {
      StrandedStays(s, run[0]);
      StrandedForGood(Do(s, run[0]), run[1..]);
    }
  }

  /** The tasks sleep, `y` is listed and pending, and nobody owes a signal for it. */
  predicate Loses(s: State, y: Id) {
    Asleep(s) && y in s.list && y in s.pending && !Owed(s, y)
  }

  /** The tasks never run again and `y` stays pending, whatever is called. */
  ghost predicate LostForGood(s: State, y: Id) {
    forall more | CanRun(s, more) :: Asleep(After(s, more)) && y in After(s, more).list && y in After(s, more).pending
  }

  /** Wherever a run has kept the rule, a registration that breaks it can lose a
      notification for good. */
  lemma OverlapLosesNotification(run: seq<Step>, u: Thread, y: Id) returns (more: seq<Step>)
    requires CanRun(Init(), run) && OrderlyRun(Init(), run)
    requires Enabled(After(Init(), run), Link(u, y)) && !Orderly(After(Init(), run), Link(u, y))
    ensures var s := After(Init(), run);
            && more != [] && more[0] == Link(u, y) && CanRun(s, more)
            && Loses(After(s, more), y) && LostForGood(After(s, more), y)
  {
    hide Do, Enabled, Orderly, Inv;
    InitInv();
    RunKeepsInv(Init(), run);
    more := RaceFrom(After(Init(), run), u, y);
  }

  lemma RaceFrom(s: State, u: Thread, y: Id) returns (more: seq<Step>)
    requires Inv(s) && Enabled(s, Link(u, y)) && !Orderly(s, Link(u, y))
    ensures more != [] && more[0] == Link(u, y) && CanRun(s, more)
    ensures Loses(After(s, more), y) && LostForGood(After(s, more), y)
  {
    hide Inv, Orderly, CanRun, After, BothLinked, BothSawNone, FirstStarted, FirstAsleep;
    var r, e, t, x := RaceBegins(s, u, y);
    r, e := RaceLinks(s, r, e, t, u, x, y);
    r, e := RaceStarts(s, r, e, t, u, x, y);
    r, e := RaceSleeps(s, r, e, t, u, x, y);
    r, e := RaceOverwrites(s, r, e, t, u, x, y);
    more, e := LateNotification(s, r, e, u, y);
  }

  /** A notification after the race is the one that is lost. */
  lemma LateNotification(o: State, run: seq<Step>, s: State, u: Thread, y: Id) returns (r: seq<Step>, e: State)
    requires Leads(o, run, s) && Stranded(s) && y in s.list && u !in s.threads && !Owed(s, y)
    ensures run <= r && Leads(o, r, e) && Loses(e, y) && LostForGood(e, y)
  {
    hide Leads, DoTask, CanTask;
    r, e := Extend(o, run, s, NotifySet(u, y));
    r, e := Extend(o, r, e, NotifyGive(u));
    assert Stranded(e);
    StrandedIsLost(e, y);
  }

  lemma StrandedIsLost(s: State, y: Id)
    requires Stranded(s) && y in s.list && y in s.pending
    ensures LostForGood(s, y)
  {
    hide Do, Enabled;
    forall more | CanRun(s, more)
      ensures Asleep(After(s, more)) && y in After(s, more).list && y in After(s, more).pending
    {
      StrandedForGood(s, more);
    }
  }

  // ----- one task or several

  /** While there is no task, no registration begins beside another. */
  predicate Single(s: State, a: Step) {
    a.Link? && s.tasks == [] ==> forall t | t in s.threads :: !Registering(s.threads[t])
  }

  predicate SingleRun(s: State, run: seq<Step>)
    requires CanRun(s, run)
    decreases |run|
  {
    run == [] || (Single(s, run[0]) && SingleRun(Do(s, run[0]), run[1..]))
  }

  /** At most one registration is on its way until the task is there. */
  predicate OneStarter(s: State) {
    && |s.tasks| <= 1
    && (forall t | t in s.threads :: (s.threads[t].SawNoTask? ==> s.tasks == []) && (s.threads[t].TaskReady? ==> s.tasks != []))
    && (s.tasks == [] ==>
          forall t, u | t in s.threads && u in s.threads && Registering(s.threads[t]) && Registering(s.threads[u]) :: t == u)
  }

  lemma StepKeepsOneStarter(s: State, a: Step)
    requires OneStarter(s) && Enabled(s, a) && Single(s, a)
    ensures OneStarter(Do(s, a))
  {
    hide DoTask, CanTask;
    if a.Task? { TaskFrame(s, a.k, a.a); }
  }

  lemma {:induction false} RunKeepsOneStarter(s: State, run: seq<Step>)
    requires OneStarter(s) && CanRun(s, run) && SingleRun(s, run)
    ensures OneStarter(After(s, run))
    decreases |run|
  {
    hide OneStarter, Do, Enabled;
    if run != [] {
      StepKeepsOneStarter(s, run[0]);
      RunKeepsOneStarter(Do(s, run[0]), run[1..]);
    }
  }

  /** There is never a second task while the registrations keep that rule. */
  lemma OneTask(run: seq<Step>)
    requires CanRun(Init(), run) && SingleRun(Init(), run)
    ensures |After(Init(), run).tasks| <= 1
  {
    hide Do, Enabled;
    assert OneStarter(Init());
    RunKeepsOneStarter(Init(), run);
  }

  /** Whether the thread is registering and has not yet been told that there is a task. */
  predicate Starting(s: State, t: Thread) {
    t in s.threads && Registering(s.threads[t]) && !s.threads[t].TaskReady?
  }

  /** How far the thread is from having found no task. */
  function Steps(d: Doing): nat {
    match d
    case Linked(_) => 3
    case SawNoSem(_) => 2
    case SemReady(_) => 1
    case _ => 0
  }

  /** A registration runs on until it has found no task. */
  lemma {:induction false} FindsNoTask(o: State, run: seq<Step>, s: State, t: Thread) returns (r: seq<Step>, e: State)
    requires Leads(o, run, s) && s.tasks == [] && Starting(s, t)
    ensures run <= r && Leads(o, r, e) && e.tasks == [] && t in e.threads && e.threads[t].SawNoTask?
    ensures forall u | u != t && u in s.threads :: u in e.threads && e.threads[u] == s.threads[u]
    decreases Steps(s.threads[t])
  {
    hide Leads, DoTask, CanTask;
    var d := s.threads[t];
    if d.SawNoTask? {
      r, e := run, s;
    } else {
      r, e := Extend(o, run, s, if d.Linked? then TestSem(t) else if d.SawNoSem? then MakeSem(t) else TestTask(t));
      r, e := FindsNoTask(o, r, e, t);
    }
  }

  /** Wherever a run has kept the rule, a registration that breaks it can make a second
      task. */
  lemma OverlapMakesTwoTasks(run: seq<Step>, u: Thread, y: Id) returns (more: seq<Step>)
    requires CanRun(Init(), run) && SingleRun(Init(), run)
    requires Enabled(After(Init(), run), Link(u, y)) && !Single(After(Init(), run), Link(u, y))
    ensures var s := After(Init(), run);
            more != [] && more[0] == Link(u, y) && CanRun(s, more) && |After(s, more).tasks| == 2
  {
    hide CanRun, After, SingleRun, DoTask, CanTask;
    assert OneStarter(Init());
    RunKeepsOneStarter(Init(), run);
    var s := After(Init(), run);
    var t :| t in s.threads && Registering(s.threads[t]);
    more := TwoTasksFrom(s, t, u, y);
  }

  lemma TwoTasksFrom(s: State, t: Thread, u: Thread, y: Id) returns (more: seq<Step>)
    requires s.tasks == [] && Starting(s, t) && Enabled(s, Link(u, y))
    ensures more != [] && more[0] == Link(u, y) && CanRun(s, more) && |After(s, more).tasks| == 2
  {
    hide CanRun, After, DoTask, CanTask;
    EmptyRun(s);
    var e;
    more, e := Extend(s, [], s, Link(u, y));
    more, e := FindsNoTask(s, more, e, t);
    more, e := FindsNoTask(s, more, e, u);
    more, e := Extend(s, more, e, MakeTask(t));
    more, e := Extend(s, more, e, MakeTask(u));
  }
}
