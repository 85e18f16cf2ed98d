/** What calls that clash lead to in bsp/src/bsp_audio.c: from every state in which one begins
    beside another, and for every pair, the calls in progress and the tone task can go on so
    that the stream has two owners. */
module ToneClash {
  import opened ToneStream

  // ----- building runs

  lemma {:induction false} ExtendFrom(s: State, run: seq<Step>, a: Step)
    requires CanRun(s, run) && Enabled(After(s, run), a)
    ensures CanRun(s, run + [a]) && After(s, run + [a]) == Do(After(s, run), a)
    decreases |run|
  {
    hide Do, Enabled;
    if run == [] {
      assert [a][1..] == [];
      assert CanRun(Do(s, a), []);
      assert [] + [a] == [a];
    } else {
      ExtendFrom(Do(s, run[0]), run[1..], a);
      assert (run + [a])[1..] == run[1..] + [a];
    }
  }

  /** `run` begins with `b` and begins no other call. */
  predicate BeginsOnly(run: seq<Step>, b: Step) {
    run != [] && run[0] == b && forall i | 0 < i < |run| :: !run[i].Begin?
  }

  /** `run` begins only `b` and leads from `o` to `s`. */
  predicate Leads(o: State, b: Step, run: seq<Step>, s: State) {
    BeginsOnly(run, b) && CanRun(o, run) && After(o, run) == s
  }

  lemma Extend(o: State, b: Step, run: seq<Step>, s: State, a: Step) returns (r: seq<Step>, e: State)
    requires Leads(o, b, run, s) && Enabled(s, a) && !a.Begin?
    ensures Leads(o, b, r, e) && e == Do(s, a)
  {
    ExtendFrom(o, run, a);
    r, e := run + [a], Do(s, a);
  }

  lemma BeginRun(o: State, b: Step) returns (r: seq<Step>, e: State)
    requires Enabled(o, b)
    ensures Leads(o, b, r, e) && e == Do(o, b)
  {
    r, e := [b], Do(o, b);
    assert r[1..] == [] && CanRun(e, []);
  }

  // ----- the tone task comes to rest

  /** Steps until the task is parked, if each provider call fails and playing ends. */
  function Rank(k: Task): nat {
    match k
    case Parked => 0
    case Reset => 1
    case TaskFailed => 2
    case TaskClosed => 2
    case TaskClosing => 3
    case TaskDraining => 4
    case Playing => 5
    case TaskStarting => 6
    case TaskOpening => 7
    case Claim => 8
  }

  lemma TaskComesDown(s: Shared)
    requires TaskRight(s) && !s.task.Parked?
    ensures var s' := ToneStep(s, false);
            && Rank(s'.task) < Rank(s.task) && TaskRight(s') && s'.open == s.open && s'.created == s.created
            && (s'.stream == s.stream || s'.stream == Nobody) && (s.stream == App ==> s'.stream == App)
  {
  }

  /** The task can come to rest with no call moving and the app's stream left alone. */
  lemma {:induction false} TaskParks(o: State, b: Step, run: seq<Step>, s: State) returns (r: seq<Step>, e: State)
    requires Leads(o, b, run, s) && TaskRight(s.sh)
    ensures Leads(o, b, r, e) && e.calls == s.calls && e.sh.open == s.sh.open && e.sh.created == s.sh.created
    ensures TaskRight(e.sh) && e.sh.task.Parked? && !e.sh.claimed
    ensures (e.sh.stream == s.sh.stream || e.sh.stream == Nobody) && (s.sh.stream == App ==> e.sh.stream == App)
    decreases Rank(s.sh.task)
  {
    hide Leads, Rank, ToneStep;
    if s.sh.task.Parked? {
      r, e := run, s;
    } else {
      TaskComesDown(s.sh);
      r, e := Extend(o, b, run, s, TaskStep(false));
      r, e := TaskParks(o, b, r, e);
    }
  }

  // ----- one call moves

  lemma Move(o: State, b: Step, run: seq<Step>, s: State, t: Thread, ok: bool) returns (r: seq<Step>, e: State)
    requires Leads(o, b, run, s) && CanAdvance(s.sh, At(s, t))
    ensures Leads(o, b, r, e) && (e.sh, At(e, t)) == CallStep(s.sh, At(s, t), ok) && OnlyMoves(s, e, t)
  {
    hide Leads, CallStep;
    r, e := Extend(o, b, run, s, Advance(t, ok));
  }

  /** A close goes on until the provider's stream is gone and the flag is not yet cleared. */
  lemma CloserEmpties(o: State, b: Step, run: seq<Step>, s: State, t: Thread) returns (r: seq<Step>, e: State)
    requires Leads(o, b, run, s) && Closes(At(s, t)) && s.sh.open && (At(s, t).ClearOpen? ==> s.sh.stream == Nobody)
    ensures Leads(o, b, r, e) && OnlyMoves(s, e, t) && e.sh.stream == Nobody
  {
    hide Leads, CanRun, After;
    r, e := run, s;
    if At(e, t).CloseTest? { r, e := Move(o, b, r, e, t, true); }
    if At(e, t).CloseDrain? { r, e := Move(o, b, r, e, t, true); }
    if At(e, t).Closing? { r, e := Move(o, b, r, e, t, true); }
  }

  /** Its stream gone, another call still needs it. */
  lemma NeedyBreaks(s: State, u: Thread)
    requires NeedsApp(At(s, u)) && s.sh.stream == Nobody
    ensures !OneOwner(s)
  {
    assert u in s.calls && !CallLegal(s.sh.stream, s.calls[u]);
  }

  lemma CloserBreaks(o: State, b: Step, run: seq<Step>, s: State, t: Thread, u: Thread) returns (r: seq<Step>, e: State)
    requires Leads(o, b, run, s) && t != u && NeedsApp(At(s, u))
    requires Closes(At(s, t)) && s.sh.open && (At(s, t).ClearOpen? ==> s.sh.stream == Nobody)
    ensures Leads(o, b, r, e) && !OneOwner(e)
  {
    hide Leads, OneOwner;
    r, e := CloserEmpties(o, b, run, s, t);
    NeedyBreaks(e, u);
  }

  // ----- a close beside an open

  /** The stop request ends, and the open goes on. */
  lemma StopEnds(o: State, b: Step, run: seq<Step>, s: State, u: Thread) returns (r: seq<Step>, e: State)
    requires Leads(o, b, run, s) && TaskRight(s.sh)
    requires At(s, u).StopTest? || At(s, u).StopNotify? || At(s, u).StopWait?
    ensures Leads(o, b, r, e) && OnlyMoves(s, e, u) && At(e, u).Reclaimed?
    ensures e.sh.open == s.sh.open && e.sh.created == s.sh.created
    ensures e.sh.task.Parked? && !e.sh.claimed && (s.sh.stream == Nobody ==> e.sh.stream == Nobody)
  {
    hide Leads, TaskRight;
    r, e := TaskParks(o, b, run, s);
    if At(e, u).StopTest? { r, e := Move(o, b, r, e, u, true); }
    if At(e, u).StopNotify? { r, e := Move(o, b, r, e, u, true); }
    if At(e, u).StopWait? { r, e := Move(o, b, r, e, u, true); }
  }

  /** An open comes to need the app's stream: before it drains the old one, if it is open,
      or before it starts the new one. */
  lemma OpenerNeeds(o: State, b: Step, run: seq<Step>, s: State, u: Thread) returns (r: seq<Step>, e: State)
    requires Leads(o, b, run, s) && TaskRight(s.sh) && Opens(At(s, u)) && CallRight(s.sh, At(s, u))
    ensures Leads(o, b, r, e) && OnlyMoves(s, e, u) && NeedsApp(At(e, u)) && e.sh.open
    ensures s.sh.open && s.sh.stream == Nobody && At(s, u).StopTest? ==> e.sh.stream == Nobody
  {
    hide Leads, TaskRight;
    r, e := run, s;
    if At(e, u).StopTest? || At(e, u).StopNotify? || At(e, u).StopWait? { r, e := StopEnds(o, b, r, e, u); }
    if At(e, u).Reclaimed? { r, e := Move(o, b, r, e, u, false); }
    if At(e, u).Opening? { r, e := Move(o, b, r, e, u, true); }
    if At(e, u).SetOpen? { r, e := Move(o, b, r, e, u, true); }
  }

  lemma CloseOpenBreaks(o: State, b: Step, run: seq<Step>, s: State, t: Thread, u: Thread)
    returns (r: seq<Step>, e: State)
    requires Leads(o, b, run, s) && TaskRight(s.sh) && t != u
    requires Opens(At(s, u)) && CallRight(s.sh, At(s, u)) && Closes(At(s, t))
    requires At(s, t).CloseTest? || (s.sh.open && At(s, u).StopTest? && (At(s, t).ClearOpen? ==> s.sh.stream == Nobody))
    ensures Leads(o, b, r, e) && !OneOwner(e)
  {
    hide Leads, TaskRight, OneOwner, NeedsApp, CallRight;
    r, e := OpenerNeeds(o, b, run, s, u);
    r, e := CloserBreaks(o, b, r, e, t, u);
  }

  // ----- a close beside a close or a write

  /** A close or a write that finds the stream open comes to need it. */
  lemma FindsOpen(o: State, b: Step, run: seq<Step>, s: State, u: Thread) returns (r: seq<Step>, e: State)
    requires Leads(o, b, run, s) && s.sh.open && (At(s, u).CloseTest? || Writes(At(s, u)))
    ensures Leads(o, b, r, e) && OnlyMoves(s, e, u) && NeedsApp(At(e, u)) && e.sh == s.sh
  {
    hide Leads;
    r, e := run, s;
    if At(e, u).CloseTest? || At(e, u).WriteTest? { r, e := Move(o, b, r, e, u, true); }
  }

  lemma CloseBreaks(o: State, b: Step, run: seq<Step>, s: State, t: Thread, u: Thread) returns (r: seq<Step>, e: State)
    requires Leads(o, b, run, s) && t != u && s.sh.open && (At(s, u).CloseTest? || Writes(At(s, u)))
    requires Closes(At(s, t)) && (At(s, t).ClearOpen? ==> s.sh.stream == Nobody)
    ensures Leads(o, b, r, e) && !OneOwner(e)
  {
    hide Leads, OneOwner, NeedsApp;
    r, e := FindsOpen(o, b, run, s, u);
    r, e := CloserBreaks(o, b, r, e, t, u);
  }

  // ----- a tone beside an open or a quiesce

  /** The stop request of a quiesce ends. */
  lemma QuiesceEnds(o: State, b: Step, run: seq<Step>, s: State, u: Thread) returns (r: seq<Step>, e: State)
    requires Leads(o, b, run, s) && TaskRight(s.sh) && Quiesces(At(s, u))
    ensures Leads(o, b, r, e) && OnlyMoves(s, e, u) && At(e, u).Muting?
    ensures e.sh.open == s.sh.open && e.sh.created == s.sh.created
    ensures e.sh.task.Parked? && !e.sh.claimed
  {
    hide Leads, TaskRight;
    r, e := TaskParks(o, b, run, s);
    if At(e, u).QuiesceTest? { r, e := Move(o, b, r, e, u, true); }
    if At(e, u).QuiesceNotify? { r, e := Move(o, b, r, e, u, true); }
    if At(e, u).QuiesceWait? { r, e := Move(o, b, r, e, u, true); }
  }

  /** With the task at rest and no app stream, an open or a quiesce comes to use the
      stream. */
  lemma UserReady(o: State, b: Step, run: seq<Step>, s: State, u: Thread) returns (r: seq<Step>, e: State)
    requires Leads(o, b, run, s) && TaskRight(s.sh) && !s.sh.open
    requires Quiesces(At(s, u)) || (Opens(At(s, u)) && !At(s, u).Draining? && !At(s, u).Starting?)
    ensures Leads(o, b, r, e) && OnlyMoves(s, e, u) && UsesStream(At(e, u)) && !e.sh.open
    ensures e.sh.task.Parked? && !e.sh.claimed && e.sh.created == s.sh.created
  {
    hide Leads, TaskRight;
    r, e := run, s;
    if Quiesces(At(e, u)) {
      r, e := QuiesceEnds(o, b, r, e, u);
    } else if At(e, u).Opening? || At(e, u).SetOpen? {
      r, e := TaskParks(o, b, r, e);
    } else {
      if At(e, u).Reclaimed? { r, e := TaskParks(o, b, r, e); } else { r, e := StopEnds(o, b, r, e, u); }
      r, e := Move(o, b, r, e, u, true);
    }
  }

  /** A tone call asks the task, which claims the stream. */
  lemma ToneClaims(o: State, b: Step, run: seq<Step>, s: State, t: Thread) returns (r: seq<Step>, e: State)
    requires Leads(o, b, run, s) && Tones(At(s, t)) && !s.sh.open
    requires s.sh.task.Parked? && (At(s, t).Play? ==> s.sh.created)
    ensures Leads(o, b, r, e) && OnlyMoves(s, e, t) && TaskOwns(e.sh.task)
  {
    hide Leads;
    r, e := run, s;
    if At(e, t).ToneTest? { r, e := Move(o, b, r, e, t, true); }
    if At(e, t).TaskTest? { r, e := Move(o, b, r, e, t, true); }
    if At(e, t).TaskMake? { r, e := Move(o, b, r, e, t, true); }
    r, e := PlayClaims(o, b, r, e, t);
  }

  lemma PlayClaims(o: State, b: Step, run: seq<Step>, s: State, t: Thread) returns (r: seq<Step>, e: State)
    requires Leads(o, b, run, s) && At(s, t).Play? && s.sh.created && s.sh.task.Parked?
    ensures Leads(o, b, r, e) && OnlyMoves(s, e, t) && e.sh.task.TaskOpening?
    ensures e.sh.created && e.sh.open == s.sh.open && e.sh.former == s.sh.former && e.sh.stream == s.sh.stream
  {
    hide Leads;
    r, e := Move(o, b, run, s, t, true);
    r, e := Move(o, b, r, e, t, true);
    r, e := Extend(o, b, r, e, TaskStep(true));
    r, e := Extend(o, b, r, e, TaskStep(true));
  }

  lemma ToneBreaks(o: State, b: Step, run: seq<Step>, s: State, t: Thread, u: Thread) returns (r: seq<Step>, e: State)
    requires Leads(o, b, run, s) && TaskRight(s.sh) && !s.sh.open && t != u
    requires Tones(At(s, t)) && (At(s, t).Play? ==> s.sh.created)
    requires Quiesces(At(s, u)) || (Opens(At(s, u)) && !At(s, u).Draining? && !At(s, u).Starting?)
    ensures Leads(o, b, r, e) && !OneOwner(e)
  {
    hide Leads, TaskRight, UsesStream, TaskOwns, Tones, Quiesces, Opens;
    r, e := UserReady(o, b, run, s, u);
    r, e := ToneClaims(o, b, r, e, t);
    SharedBreaks(e, u);
  }

  lemma SharedBreaks(s: State, u: Thread)
    requires UsesStream(At(s, u)) && TaskOwns(s.sh.task)
    ensures !OneOwner(s)
  {
    assert u in s.calls && UsesStream(s.calls[u]);
    assert TaskOwns(Tasks(s.sh)[0]);
  }

  // ----- a tone beside a tone, before there is a task

  /** A tone call that finds no task is about to make one. */
  lemma ToneMakes(o: State, b: Step, run: seq<Step>, s: State, t: Thread) returns (r: seq<Step>, e: State)
    requires Leads(o, b, run, s) && Unmade(At(s, t)) && !s.sh.open && !s.sh.created
    ensures Leads(o, b, r, e) && OnlyMoves(s, e, t) && At(e, t).TaskMake? && e.sh == s.sh
  {
    hide Leads;
    r, e := run, s;
    if At(e, t).ToneTest? { r, e := Move(o, b, r, e, t, true); }
    if At(e, t).TaskTest? { r, e := Move(o, b, r, e, t, true); }
  }

  /** Both make one, and the second task claims the stream while the first plays. */
  lemma TwoTasksBreak(o: State, b: Step, run: seq<Step>, s: State, t: Thread, u: Thread) returns (r: seq<Step>, e: State)
    requires Leads(o, b, run, s) && t != u && Unmade(At(s, t)) && Unmade(At(s, u)) && !s.sh.open && !s.sh.created
    ensures Leads(o, b, r, e) && !OneOwner(e)
  {
    hide Leads, OneOwner, Unmade, CallStep, ToneStep;
    r, e := ToneMakes(o, b, run, s, t);
    r, e := ToneMakes(o, b, r, e, u);
    r, e := MakerPlays(o, b, r, e, t);
    r, e := FirstOpens(o, b, r, e);
    r, e := MakerPlays(o, b, r, e, u);
    SecondBreaks(e);
  }

  lemma MakerPlays(o: State, b: Step, run: seq<Step>, s: State, t: Thread) returns (r: seq<Step>, e: State)
    requires Leads(o, b, run, s) && At(s, t).TaskMake?
    ensures Leads(o, b, r, e) && OnlyMoves(s, e, t) && e.sh.created && e.sh.task.TaskOpening?
    ensures e.sh.stream == s.sh.stream && e.sh.former == MakeTask(s.sh).former
  {
    hide Leads;
    r, e := Move(o, b, run, s, t, true);
    r, e := PlayClaims(o, b, r, e, t);
  }

  lemma FirstOpens(o: State, b: Step, run: seq<Step>, s: State) returns (r: seq<Step>, e: State)
    requires Leads(o, b, run, s) && s.sh.created && s.sh.task.TaskOpening?
    ensures Leads(o, b, r, e) && e.calls == s.calls && e.sh.created && e.sh.task.TaskStarting? && e.sh.stream == Tone
    ensures e.sh.former == s.sh.former
  {
    hide Leads;
    r, e := Extend(o, b, run, s, TaskStep(true));
  }

  lemma SecondBreaks(s: State)
    requires s.sh.task.TaskOpening? && s.sh.stream == Tone
    ensures !OneOwner(s)
  {
    assert !TaskLegal(s.sh.stream, Tasks(s.sh)[0]);
  }

  // ----- every clash

  /** Where it matters whether the app's stream is open when the call begins, or whether
      there is a task. */
  predicate Exposed(sh: Shared, p: Call, c: Call) {
    if c.ToneTest? && Tones(p) then !sh.open && !sh.created
    else if c.ToneTest? || Tones(p) then !sh.open
    else if (c.CloseTest? && (p.CloseTest? || p.WriteTest?)) || (c.WriteTest? && p.CloseTest?) then sh.open
    else true
  }

  /** What the invariant says at the call in progress. */
  lemma InvAt(s: State, u: Thread)
    requires Inv(s)
    ensures TaskRight(s.sh) && CallRight(s.sh, At(s, u)) && (At(s, u).ClearOpen? ==> s.sh.stream == Nobody)
  {
    assert CallRight(s.sh, At(s, u));
    if At(s, u).ClearOpen? {
      forall v: Thread ensures !At(s, v).SetOpen? {
        if v != u { assert Together(s.sh.open, At(s, u), At(s, v)); }
      }
      assert s.sh.stream != App;
    }
  }

  lemma ClashBreaksFrom(s: State, t: Thread, c: Call, u: Thread) returns (more: seq<Step>)
    requires Inv(s) && Enabled(s, Begin(t, c)) && Clashes(At(s, u), c) && Exposed(s.sh, At(s, u), c)
    ensures exists e :: Leads(s, Begin(t, c), more, e) && !OneOwner(e)
  {
    hide Leads, Inv, TaskRight, OneOwner;
    InvAt(s, u);
    var b, p := Begin(t, c), At(s, u);
    var e;
    more, e := BeginRun(s, b);
    assert t != u && At(e, t) == c && At(e, u) == p && e.sh == s.sh;
    if c.ToneTest? && Tones(p) {
      more, e := TwoTasksBreak(s, b, more, e, t, u);
    } else if c.ToneTest? {
      more, e := ToneBreaks(s, b, more, e, t, u);
    } else if Tones(p) {
      more, e := ToneBreaks(s, b, more, e, u, t);
    } else if c.StopTest? {
      more, e := CloseOpenBreaks(s, b, more, e, u, t);
    } else if Opens(p) {
      more, e := CloseOpenBreaks(s, b, more, e, t, u);
    } else if Closes(p) {
      more, e := CloseBreaks(s, b, more, e, u, t);
    } else {
      more, e := CloseBreaks(s, b, more, e, t, u);
    }
  }

  /** Wherever a run has kept the rule, a call that begins beside one it clashes with can
      give the stream two owners, with no further call. */
  lemma ClashBreaks(run: seq<Step>, t: Thread, c: Call, u: Thread) returns (more: seq<Step>)
    requires CanRun(Init(), run) && ApartRun(Init(), run)
    requires var s := After(Init(), run);
             Enabled(s, Begin(t, c)) && Clashes(At(s, u), c) && Exposed(s.sh, At(s, u), c)
    ensures var s := After(Init(), run);
            BeginsOnly(more, Begin(t, c)) && CanRun(s, more) && !OneOwner(After(s, more))
  {
    hide Inv, OneOwner, Clashes, Exposed, Enabled;
    InitInv();
    RunKeepsInv(Init(), run);
    more := ClashBreaksFrom(After(Init(), run), t, c, u);
  }

  // ----- every clash occurs

  /** A run of thread 0 alone, with the tone task created and at rest. */
  ghost predicate Solo(run: seq<Step>, s: State) {
    && CanRun(Init(), run) && ApartRun(Init(), run) && After(Init(), run) == s
    && forall t: Thread | t != 0 :: At(s, t).Idle?
  }

  predicate AtRest(s: Shared, open: bool) {
    s.created && s.active && !s.claimed && s.task.Parked? && s.open == open
  }

  lemma {:induction false} ApartExtends(s: State, run: seq<Step>, a: Step)
    requires CanRun(s, run) && ApartRun(s, run) && Enabled(After(s, run), a) && Apart(After(s, run), a)
    ensures CanRun(s, run + [a]) && ApartRun(s, run + [a]) && After(s, run + [a]) == Do(After(s, run), a)
    decreases |run|
  {
    hide Do, Enabled, Apart;
    if run == [] {
      assert [a][1..] == [] && [] + [a] == [a];
      assert CanRun(Do(s, a), []) && ApartRun(Do(s, a), []);
    } else {
      ApartExtends(Do(s, run[0]), run[1..], a);
      assert (run + [a])[1..] == run[1..] + [a];
    }
  }

  lemma SoloBegins(run: seq<Step>, s: State, c: Call) returns (r: seq<Step>, e: State)
    requires Solo(run, s) && At(s, 0).Idle? && IsEntry(c)
    ensures Solo(r, e) && At(e, 0) == c && e.sh == s.sh
  {
    hide CanRun, After, ApartRun, Clashes;
    var a := Begin(0, c);
    forall t | t in s.calls ensures !Clashes(s.calls[t], c) {
      assert At(s, t).Idle?;
      IdleClashes(c);
    }
    ApartExtends(Init(), run, a);
    r, e := run + [a], Do(s, a);
    assert OnlyMoves(s, e, 0);
  }

  lemma SoloAdvances(run: seq<Step>, s: State, ok: bool) returns (r: seq<Step>, e: State)
    requires Solo(run, s) && CanAdvance(s.sh, At(s, 0))
    ensures Solo(r, e) && (e.sh, At(e, 0)) == CallStep(s.sh, At(s, 0), ok)
  {
    hide CanRun, After, ApartRun, CallStep;
    var a := Advance(0, ok);
    ApartExtends(Init(), run, a);
    r, e := run + [a], Do(s, a);
    assert OnlyMoves(s, e, 0);
  }

  /** The position before `p` in its call. */
  function Previous(p: Call): Call {
    match p
    case StopNotify => StopTest
    case StopWait => StopNotify
    case Reclaimed => StopWait
    case Draining => Reclaimed
    case Opening => Reclaimed
    case SetOpen => Opening
    case Starting => SetOpen
    case CloseDrain => CloseTest
    case Closing => CloseDrain
    case ClearOpen => Closing
    case Writing => WriteTest
    case TaskTest => ToneTest
    case TaskMake => TaskTest
    case Play => TaskTest
    case PlayNotify => Play
    case QuietNotify => QuietTest
    case QuiesceNotify => QuiesceTest
    case QuiesceWait => QuiesceNotify
    case Muting => QuiesceWait
    case _ => Idle
  }

  function Depth(p: Call): nat {
    match p
    case Idle => 0
    case StopNotify => 2
    case StopWait => 3
    case Reclaimed => 4
    case Draining => 5
    case Opening => 5
    case SetOpen => 6
    case Starting => 7
    case CloseDrain => 2
    case Closing => 3
    case ClearOpen => 4
    case Writing => 2
    case TaskTest => 2
    case TaskMake => 3
    case Play => 3
    case PlayNotify => 4
    case QuietNotify => 2
    case QuiesceNotify => 2
    case QuiesceWait => 3
    case Muting => 4
    case _ => 1
  }

  /** The app's stream is open on the way to `p`. */
  predicate OnTheWay(p: Call, open: bool) {
    && (p.Draining? || p.CloseDrain? || p.Closing? || p.ClearOpen? || p.Writing? ==> open)
    && (p.Opening? || p.SetOpen? || p.Starting? || p.TaskTest? || p.Play? || p.PlayNotify? ==> !open)
  }

  /** After one tone, thread 0 is idle, with or without the app's stream. */
  lemma {:induction false} Rests(open: bool) returns (run: seq<Step>, s: State)
    ensures Solo(run, s) && At(s, 0).Idle? && AtRest(s.sh, open)
    decreases open, 100
  {
    hide Solo;
    if open {
      run, s := Reaches(Starting, false);
      run, s := SoloAdvances(run, s, true);
    } else {
      run, s := FirstTone(TaskMake);
      run, s := SoloAdvances(run, s, true);
      run, s := SoloAdvances(run, s, true);
      run, s := SoloAdvances(run, s, true);
    }
  }

  /** The first tone call, before it makes the task. */
  lemma {:induction false} FirstTone(p: Call) returns (run: seq<Step>, s: State)
    requires Unmade(p)
    ensures Solo(run, s) && At(s, 0) == p && s.sh == Init().sh
    decreases Depth(p)
  {
    hide Solo;
    if p.ToneTest? {
      run, s := [], Init();
      assert Solo(run, s) by { NothingRun(); }
      run, s := SoloBegins(run, s, p);
    } else {
      run, s := FirstTone(Previous(p));
      run, s := SoloAdvances(run, s, true);
    }
  }

  lemma NothingRun()
    ensures Solo([], Init())
  {
  }

  /** Thread 0 alone gets to every position. */
  lemma {:induction false} Reaches(p: Call, open: bool) returns (run: seq<Step>, s: State)
    requires !p.Idle? && !p.TaskMake? && OnTheWay(p, open)
    ensures Solo(run, s) && At(s, 0) == p && AtRest(s.sh, open || p.Starting?)
    decreases open, 100 + Depth(p)
  {
    hide Solo;
    if IsEntry(p) {
      run, s := Rests(open);
      run, s := SoloBegins(run, s, p);
    } else {
      run, s := Reaches(Previous(p), open);
      run, s := SoloAdvances(run, s, !p.Draining?);
    }
  }

  lemma ExposedThere(sh: Shared, p: Call, c: Call)
    requires Clashes(p, c) && (Unmade(p) ==> !sh.created)
    requires sh.open == (p.Draining? || p.Starting? || Closes(p) || Writes(p))
    ensures Exposed(sh, p, c)
  {
  }

  /** Every pair that clashes comes about in a run that has kept the rule. */
  lemma ClashOccurs(p: Call, c: Call) returns (run: seq<Step>, s: State)
    requires Clashes(p, c)
    ensures Solo(run, s) && At(s, 0) == p && Exposed(s.sh, p, c)
  {
    hide Solo, Exposed, Clashes;
    assert !p.Idle? by { NoClashAlone(c); }
    if Unmade(p) {
      run, s := FirstTone(p);
    } else {
      run, s := Reaches(p, p.Draining? || Closes(p) || Writes(p));
    }
    ExposedThere(s.sh, p, c);
  }

  lemma NoClashAlone(c: Call)
    ensures !Clashes(Idle, c)
  {
  }

  /** And it breaks there. */
  lemma EveryClashBreaks(p: Call, c: Call) returns (run: seq<Step>, more: seq<Step>)
    requires Clashes(p, c)
    ensures CanRun(Init(), run) && ApartRun(Init(), run)
    ensures var s := After(Init(), run);
            && At(s, 0) == p && BeginsOnly(more, Begin(1, c)) && CanRun(s, more) && !OneOwner(After(s, more))
  {
    hide CanRun, After, ApartRun, OneOwner, Exposed, Conflict, KindOf;
    var s;
    run, s := ClashOccurs(p, c);
    assert At(s, 1).Idle?;
    more := ClashBreaks(run, 1, c, 0);
  }
}
