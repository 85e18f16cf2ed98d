/** Who owns the audio stream in bsp/src/bsp_audio.c, the app's calls or the tone task: every
    critical section, every flag read or written outside one and every provider call is a
    step, in any interleaving of any number of threads. */
module ToneStream {
  type Thread = nat

  /** Whose stream the provider has open. */
  datatype Owner = Nobody | App | Tone

  /** Where a thread is inside a public call. */
  datatype Call =
    | Idle
    // bsp_audio_open: the stop request, then the app's own stream
    | StopTest
    | StopNotify
    | StopWait
    | Reclaimed
    | Draining
    | Opening
    | SetOpen
    | Starting
    // bsp_audio_close
    | CloseTest
    | CloseDrain
    | Closing
    | ClearOpen
    // bsp_audio_write
    | WriteTest
    | Writing
    // bsp_audio_tone, bsp_audio_tone_stop
    | ToneTest
    | TaskTest
    | TaskMake
    | Play
    | PlayNotify
    | QuietTest
    | QuietNotify
    // bsp_audio_quiesce: the stop request, then the codec is muted
    | QuiesceTest
    | QuiesceNotify
    | QuiesceWait
    | Muting

  /** Where the tone task is. */
  datatype Task =
    | Parked
    | Claim
    | Reset
    | TaskOpening
    | TaskFailed
    | TaskStarting
    | Playing
    | TaskDraining
    | TaskClosing
    | TaskClosed

  /** A task whose handle was overwritten by that of a later one. */
  datatype OldTask = OldTask(notified: bool, task: Task)

  /** The flags of the file, the provider, the task behind the handle with its pending
      notification, and older tasks. */
  datatype Shared = Shared(
    open: bool, created: bool, active: bool, stop: bool, claimed: bool, notified: bool, stream: Owner, task: Task,
    former: seq<OldTask>)

  datatype State = State(sh: Shared, calls: map<Thread, Call>)

  function Init(): State {
    State(Shared(false, false, false, false, false, false, Nobody, Parked, []), map[])
  }

  function At(s: State, t: Thread): Call {
    if t in s.calls then s.calls[t] else Idle
  }

  /** `Begin` enters a public call; `Advance` is the next step of it, whose outcome where
      it has one is `ok`; `TaskStep` is the next step of the tone task, `OldStep` that of an
      older one. */
  datatype Step =
    | Begin(t: Thread, call: Call)
    | Advance(t: Thread, ok: bool)
    | TaskStep(ok: bool)
    | OldStep(k: nat, ok: bool)

  predicate IsEntry(c: Call) {
    c.StopTest? || c.CloseTest? || c.WriteTest? || c.ToneTest? || c.QuietTest? || c.QuiesceTest?
  }

  predicate Enabled(s: State, a: Step) {
    match a
    case Begin(t, c) => At(s, t).Idle? && IsEntry(c)
    case Advance(t, _) => CanAdvance(s.sh, At(s, t))
    case TaskStep(_) => s.sh.created && (s.sh.task.Parked? ==> s.sh.notified)
    case OldStep(k, _) => k < |s.sh.former| && (s.sh.former[k].task.Parked? ==> s.sh.former[k].notified)
  }

  predicate CanAdvance(s: Shared, c: Call) {
    !c.Idle? && (c.StopWait? || c.QuiesceWait? ==> !s.claimed)
  }

  function Do(s: State, a: Step): State
    requires Enabled(s, a)
  {
    match a
    case Begin(t, c) => s.(calls := s.calls[t := c])
    case Advance(t, ok) =>
      var (sh, c) := CallStep(s.sh, At(s, t), ok);
      State(sh, s.calls[t := c])
    case TaskStep(ok) => s.(sh := ToneStep(s.sh, ok))
    case OldStep(k, ok) => s.(sh := OldToneStep(s.sh, k, ok))
  }

  function CallStep(s: Shared, c: Call, ok: bool): (Shared, Call) {
    match c
    case Idle => (s, Idle)
    // tone_synth_request_stop(true)
    case StopTest =>
      if !s.created then (s, Reclaimed)
      else (s.(stop := true), if s.active then StopNotify else Reclaimed)
    case StopNotify => (s.(notified := true), StopWait)
    case StopWait => (s, Reclaimed)
    // the rest of bsp_audio_open; `ok` of the first step is "same format"
    case Reclaimed => (s, if s.open && ok then Idle else if s.open then Draining else Opening)
    case Draining => (s, Opening)
    case Opening => if ok then (s.(stream := App), SetOpen) else (s, Idle)
    case SetOpen => (s.(open := true), Starting)
    case Starting => (s, Idle)
    case CloseTest => (s, if s.open then CloseDrain else Idle)
    case CloseDrain => (s, Closing)
    case Closing => if ok then (s.(stream := Nobody), ClearOpen) else (s, Idle)
    case ClearOpen => (s.(open := false), Idle)
    case WriteTest => (s, if s.open then Writing else Idle)
    case Writing => (s, Idle)
    case ToneTest => (s, if s.open then Idle else TaskTest)
    // start_tone_task_once
    case TaskTest => (s, if s.created then Play else TaskMake)
    case TaskMake => (MakeTask(s), Play)
    case Play => (s.(stop := false, active := true), PlayNotify)
    case PlayNotify => (s.(notified := true), Idle)
    case QuietTest =>
      if !s.created then (s, Idle) else (s.(stop := true), if s.active then QuietNotify else Idle)
    case QuietNotify => (s.(notified := true), Idle)
    case QuiesceTest =>
      if !s.created then (s, Muting) else (s.(stop := true), if s.active then QuiesceNotify else Muting)
    case QuiesceNotify => (s.(notified := true), QuiesceWait)
    case QuiesceWait => (s, Muting)
    case Muting => (s, Idle)
  }

  /** The handle of the new task takes the place of the old one. */
  function MakeTask(s: Shared): Shared {
    s.(created := true, notified := false, task := Parked,
       former := if s.created then s.former + [OldTask(s.notified, s.task)] else s.former)
  }

  /** `ok` is the provider's answer to the open, and while playing whether to go on. */
  function ToneStep(s: Shared, ok: bool): Shared {
    match s.task
    case Parked => s.(notified := false, task := Claim)
    case Claim => if s.active && !s.stop then s.(claimed := true, task := TaskOpening) else s.(task := Reset)
    case Reset => s.(active := false, stop := false, task := Parked)
    case TaskOpening => if ok then s.(stream := Tone, task := TaskStarting) else s.(task := TaskFailed)
    case TaskFailed => s.(claimed := false, task := Reset)
    case TaskStarting => s.(task := Playing)
    case Playing => if ok && !s.stop then s else s.(task := TaskDraining)
    case TaskDraining => s.(task := TaskClosing)
    case TaskClosing => s.(stream := Nobody, task := TaskClosed)
    case TaskClosed => s.(claimed := false, task := Reset)
  }

  /** An older task takes the same steps on the same flags. */
  function OldToneStep(s: Shared, k: nat, ok: bool): Shared
    requires k < |s.former|
  {
    var s' := ToneStep(s.(notified := s.former[k].notified, task := s.former[k].task), ok);
    s'.(notified := s.notified, task := s.task, former := s.former[k := OldTask(s'.notified, s'.task)])
  }

  /** What a call in progress is about. An open is `late` once it has stopped the tone and
      found or made a stream; a tone call is `unmade` until it has seen to the task, and
      `first` until it has looked at the flag. */
  datatype Kind =
    | Free
    | OpenKind(late: bool)
    | CloseKind
    | WriteKind
    | ToneKind(unmade: bool, first: bool)
    | QuiesceKind

  function KindOf(c: Call): Kind {
    match c
    case StopTest => OpenKind(false)
    case StopNotify => OpenKind(false)
    case StopWait => OpenKind(false)
    case Reclaimed => OpenKind(false)
    case Draining => OpenKind(true)
    case Opening => OpenKind(true)
    case SetOpen => OpenKind(true)
    case Starting => OpenKind(true)
    case CloseTest => CloseKind
    case CloseDrain => CloseKind
    case Closing => CloseKind
    case ClearOpen => CloseKind
    case WriteTest => WriteKind
    case Writing => WriteKind
    case ToneTest => ToneKind(true, true)
    case TaskTest => ToneKind(true, false)
    case TaskMake => ToneKind(true, false)
    case Play => ToneKind(false, false)
    case QuiesceTest => QuiesceKind
    case QuiesceNotify => QuiesceKind
    case QuiesceWait => QuiesceKind
    case Muting => QuiesceKind
    case _ => Free
  }

  predicate Opens(c: Call) {
    KindOf(c).OpenKind?
  }

  predicate Closes(c: Call) {
    KindOf(c).CloseKind?
  }

  predicate Writes(c: Call) {
    KindOf(c).WriteKind?
  }

  /** A tone call that has not yet asked the task. */
  predicate Tones(c: Call) {
    KindOf(c).ToneKind?
  }

  /** A tone call that has yet to see to the task. */
  predicate Unmade(c: Call) {
    Tones(c) && KindOf(c).unmade
  }

  predicate Quiesces(c: Call) {
    KindOf(c).QuiesceKind?
  }

  /** What must not begin while something of kind `k` is in progress. */
  predicate Conflict(k: Kind, l: Kind) {
    match l
    case Free => false
    case OpenKind(_) => k.CloseKind? || k.ToneKind?
    case CloseKind => k.OpenKind? || k.CloseKind? || k.WriteKind?
    case WriteKind => k.CloseKind?
    case ToneKind(_, _) => k.QuiesceKind? || k.OpenKind? || (k.ToneKind? && k.unmade)
    case QuiesceKind => k.ToneKind?
  }

  /** The calls that must not begin while another one is at `p`; a tone call may beside an
      open that has the flag set for good. */
  predicate Clashes(p: Call, c: Call) {
    IsEntry(c) && Conflict(KindOf(p), KindOf(c)) && !(c.ToneTest? && (p.Draining? || p.Starting?))
  }

  /** No call begins beside one it clashes with. */
  predicate Apart(s: State, a: Step) {
    a.Begin? ==> forall t | t in s.calls :: !Clashes(s.calls[t], a.call)
  }

  /** Public calls come from one thread at a time. */
  predicate OneCaller(s: State, a: Step) {
    a.Begin? ==> forall t | t in s.calls :: s.calls[t].Idle?
  }

  // ----- what the provider may be asked

  /** The provider call a thread is about to make fits the stream that is open. */
  predicate CallLegal(stream: Owner, c: Call) {
    match c
    case Draining => stream == App
    case Opening => stream != Tone
    case Muting => stream != Tone
    case Starting => stream == App
    case CloseDrain => stream == App
    case Closing => stream == App
    case Writing => stream == App
    case _ => true
  }

  predicate TaskLegal(stream: Owner, k: Task) {
    match k
    case TaskOpening => stream == Nobody
    case TaskStarting => stream == Tone
    case Playing => stream == Tone
    case TaskDraining => stream == Tone
    case TaskClosing => stream == Tone
    case _ => true
  }

  predicate UsesStream(c: Call) {
    c.Draining? || c.Opening? || c.SetOpen? || c.Starting? || c.CloseDrain? || c.Closing? || c.Writing? || c.Muting?
  }

  predicate TaskOwns(k: Task) {
    !k.Parked? && !k.Claim? && !k.Reset?
  }

  /** The task behind the handle and the older ones. */
  function Tasks(s: Shared): (r: seq<Task>)
    ensures |r| == 1 + |s.former| && r[0] == s.task && forall k | 0 <= k < |s.former| :: r[k + 1] == s.former[k].task
  {
    [s.task] + seq(|s.former|, k requires 0 <= k < |s.former| => s.former[k].task)
  }

  /** Each provider call fits the stream that is open, and a task that has claimed it shares
      it neither with another task nor with the app. */
  predicate OneOwner(s: State) {
    var tasks := Tasks(s.sh);
    && (forall i | 0 <= i < |tasks| :: TaskLegal(s.sh.stream, tasks[i]) && (TaskOwns(tasks[i]) ==> !s.sh.open))
    && (forall i, j | 0 <= i < j < |tasks| :: !(TaskOwns(tasks[i]) && TaskOwns(tasks[j])))
    && forall t | t in s.calls ::
         && CallLegal(s.sh.stream, s.calls[t])
         && (UsesStream(s.calls[t]) ==> forall i | 0 <= i < |tasks| :: !TaskOwns(tasks[i]))
  }

  // ----- what every step keeps

  /** The task cannot claim the stream before the app asks for another tone. */
  predicate Barred(s: Shared) {
    !s.active || s.stop
  }

  predicate Quiet(s: Shared) {
    !s.claimed && Barred(s)
  }

  predicate TaskRight(s: Shared) {
    && s.claimed == TaskOwns(s.task)
    && (s.claimed ==> s.active)
    && (s.stream == Tone <==> s.task.TaskStarting? || s.task.Playing? || s.task.TaskDraining? || s.task.TaskClosing?)
    && (!s.created ==> !s.active && s.task.Parked?)
  }

  predicate CallRight(s: Shared, c: Call) {
    match c
    case StopNotify => Barred(s)
    case StopWait => Barred(s)
    case Reclaimed => Quiet(s)
    case Draining => Quiet(s) && s.open
    case Opening => Quiet(s)
    case SetOpen => Quiet(s)
    case Starting => s.open
    case CloseDrain => s.open
    case Closing => s.open
    case ClearOpen => s.open
    case Writing => s.open
    case TaskTest => !s.open
    case TaskMake => !s.open && !s.created
    case Play => !s.open && s.created
    case QuiesceNotify => Barred(s)
    case QuiesceWait => Barred(s)
    case Muting => Quiet(s)
    case _ => true
  }

  /** The flags fit the one task, and an open app stream bars it. */
  predicate SharedRight(s: Shared) {
    TaskRight(s) && (s.open ==> Quiet(s)) && s.former == []
  }

  /** What may stand beside each other; a tone call beside an open is to find the app stream
      open. */
  predicate Beside(open: bool, k: Kind, l: Kind) {
    match k
    case Free => true
    case OpenKind(_) => !l.CloseKind?
    case CloseKind => !l.OpenKind? && !l.CloseKind? && !l.WriteKind?
    case WriteKind => !l.CloseKind?
    case ToneKind(unmade, first) =>
      && !l.QuiesceKind? && !(unmade && l.ToneKind? && l.unmade)
      && (l.OpenKind? ==> first && open && l.late)
    case QuiesceKind => !l.ToneKind?
  }

  predicate Together(open: bool, c: Call, d: Call) {
    Beside(open, KindOf(c), KindOf(d)) && Beside(open, KindOf(d), KindOf(c))
  }

  lemma TaskKeepsTask(s: Shared, ok: bool)
    requires TaskRight(s)
    ensures TaskRight(ToneStep(s, ok)) || !s.created
  {
  }

  /** What bars the task stays in force until the app lifts it. */
  lemma TaskKeepsQuiet(s: Shared, ok: bool)
    requires TaskRight(s)
    ensures var s' := ToneStep(s, ok);
            && (Barred(s) ==> Barred(s')) && (Quiet(s) ==> Quiet(s') && s'.stream == s.stream)
            && s'.open == s.open && s'.created == s.created && s'.former == s.former
            && (s.stream != App ==> s'.stream != App)
            && (s.stream == App && s'.stream != App ==> s.claimed)
  {
  }

  lemma TaskKeepsCall(s: Shared, c: Call, ok: bool)
    requires SharedRight(s) && s.created && CallRight(s, c)
    ensures SharedRight(ToneStep(s, ok)) && CallRight(ToneStep(s, ok), c)
  {
    hide TaskRight, Quiet, Barred, ToneStep;
    TaskKeepsTask(s, ok);
    TaskKeepsQuiet(s, ok);
  }

  /** A call leaves what it relies on itself. */
  lemma CallKeepsOwn(s: Shared, c: Call, ok: bool)
    requires SharedRight(s) && CallRight(s, c) && CanAdvance(s, c)
    ensures var (s', c') := CallStep(s, c, ok); SharedRight(s') && CallRight(s', c')
  {
  }

  /** Only the two steps that set and clear the flag change it. */
  lemma CallOpen(s: Shared, c: Call, ok: bool)
    ensures CallStep(s, c, ok).0.open == if c.SetOpen? then true else if c.ClearOpen? then false else s.open
  {
  }

  /** Only asking for a tone lifts what bars the task. */
  lemma CallBars(s: Shared, c: Call, ok: bool)
    requires !c.Play? && Barred(s)
    ensures Barred(CallStep(s, c, ok).0)
  {
  }

  lemma CallClaims(s: Shared, c: Call, ok: bool)
    ensures CallStep(s, c, ok).0.claimed == s.claimed
  {
  }

  /** Only making the task makes it. */
  lemma CallCreates(s: Shared, c: Call, ok: bool)
    ensures CallStep(s, c, ok).0.created == (s.created || c.TaskMake?)
  {
  }

  /** A call stays of its kind until it ends. It passes the first test of a tone only
      without an app stream. */
  lemma CallKind(s: Shared, c: Call, ok: bool)
    ensures var k, l := KindOf(c), KindOf(CallStep(s, c, ok).1);
            || l.Free? || l == k || (k.OpenKind? && l == OpenKind(true) && (k.late || !c.Draining?))
            || (k.ToneKind? && l.ToneKind? && !l.first && (l.unmade ==> k.unmade) && (k.first ==> !s.open))
  {
  }

  /** It leaves what a call beside it relies on. */
  lemma CallKeepsOther(s: Shared, c: Call, ok: bool, d: Call)
    requires CanAdvance(s, c) && CallRight(s, d) && Together(s.open, c, d)
    ensures CallRight(CallStep(s, c, ok).0, d)
  {
    hide CallStep, CanAdvance, Barred;
    CallOpen(s, c, ok);
    CallClaims(s, c, ok);
    CallCreates(s, c, ok);
    if !c.Play? && Barred(s) { CallBars(s, c, ok); }
  }

  lemma CallStaysBeside(s: Shared, c: Call, ok: bool, d: Call)
    requires CanAdvance(s, c) && Together(s.open, c, d)
    ensures var (s', c') := CallStep(s, c, ok); Together(s'.open, c', d)
  {
    hide CallStep, CanAdvance, KindOf;
    CallOpen(s, c, ok);
    CallKind(s, c, ok);
    FlagKinds(c);
  }

  /** The kinds of the two positions that change the flag. */
  lemma FlagKinds(c: Call)
    ensures (c.ClearOpen? ==> KindOf(c).CloseKind?) && (c.SetOpen? ==> KindOf(c) == OpenKind(true))
  {
  }

  /** Only a tone call beside an open depends on the flag, and it needs it set. */
  lemma BesideKept(open: bool, now: bool, k: Kind, l: Kind)
    requires Beside(open, k, l) && (now == open || now || !l.OpenKind?)
    ensures Beside(now, k, l)
  {
  }

  lemma ClosesBeside(open: bool, c: Call, d: Call)
    requires c.ClearOpen? && Together(open, c, d)
    ensures !KindOf(d).OpenKind?
  {
  }

  /** And it leaves two calls beside it beside each other. */
  lemma CallKeepsPair(s: Shared, c: Call, ok: bool, d: Call, e: Call)
    requires CanAdvance(s, c) && Together(s.open, c, d) && Together(s.open, c, e) && Together(s.open, d, e)
    ensures Together(CallStep(s, c, ok).0.open, d, e)
  {
    hide CallStep, CanAdvance, KindOf, Beside;
    CallOpen(s, c, ok);
    if c.ClearOpen? {
      ClosesBeside(s.open, c, d);
      ClosesBeside(s.open, c, e);
    }
    BesideKept(s.open, CallStep(s, c, ok).0.open, KindOf(d), KindOf(e));
    BesideKept(s.open, CallStep(s, c, ok).0.open, KindOf(e), KindOf(d));
  }

  lemma EntryIsRight(s: Shared, c: Call)
    requires IsEntry(c)
    ensures CallRight(s, c)
  {
  }

  /** An open that is past the points where it clashes with a tone has the flag set. */
  lemma LateIsOpen(s: Shared, d: Call)
    requires CallRight(s, d) && (d.Draining? || d.Starting?)
    ensures s.open && KindOf(d) == OpenKind(true)
  {
  }

  /** A call that begins, beside one it does not conflict with. */
  lemma NoConflict(open: bool, k: Kind, l: Kind)
    requires !Conflict(k, l) && (l.OpenKind? ==> !l.late) && (l.ToneKind? ==> l == ToneKind(true, true))
    ensures Beside(open, k, l) && Beside(open, l, k)
  {
  }

  lemma EntryKinds(c: Call)
    requires IsEntry(c)
    ensures var l := KindOf(c);
            (l.OpenKind? ==> !l.late) && (l.ToneKind? ==> l == ToneKind(true, true)) && (c.ToneTest? <==> l.ToneKind?)
  {
  }

  lemma BeginKeeps(s: Shared, c: Call, d: Call)
    requires CallRight(s, d) && IsEntry(c) && !Clashes(d, c)
    ensures CallRight(s, c) && Together(s.open, c, d)
  {
    hide CallRight, KindOf, Conflict, Beside, IsEntry;
    EntryIsRight(s, c);
    EntryKinds(c);
    if c.ToneTest? && (d.Draining? || d.Starting?) {
      LateIsOpen(s, d);
      ToneBesideOpen(KindOf(c));
    } else {
      NoConflict(s.open, KindOf(d), KindOf(c));
    }
  }

  lemma ToneBesideOpen(l: Kind)
    requires l == ToneKind(true, true)
    ensures Beside(true, l, OpenKind(true)) && Beside(true, OpenKind(true), l)
  {
  }

  /** The app's stream is open while its flag is set, except just before it is set or
      cleared. */
  ghost predicate StreamRight(s: State) {
    s.sh.stream == App <==>
      (exists t: Thread :: At(s, t).SetOpen?) || (s.sh.open && forall t: Thread :: !At(s, t).ClearOpen?)
  }

  ghost predicate Inv(s: State) {
    && SharedRight(s.sh)
    && (forall t: Thread :: CallRight(s.sh, At(s, t)))
    && (forall t: Thread, u: Thread | t != u :: Together(s.sh.open, At(s, t), At(s, u)))
    && StreamRight(s)
  }

  lemma InitInv()
    ensures Inv(Init())
  {
  }

  /** All threads but `t` are where they were. */
  ghost predicate OnlyMoves(s: State, s': State, t: Thread) {
    forall u: Thread | u != t :: At(s', u) == At(s, u)
  }

  /** What advancing does to the stream. */
  lemma CallStream(s: Shared, c: Call, ok: bool)
    requires CanAdvance(s, c)
    ensures var (s', c') := CallStep(s, c, ok);
            && s'.stream == (if c.Opening? && ok then App else if c.Closing? && ok then Nobody else s.stream)
            && (c'.SetOpen? <==> c.Opening? && ok) && (c'.ClearOpen? <==> c.Closing? && ok)
  {
  }

  lemma AdvanceKeepsStream(s: State, t: Thread, ok: bool)
    requires Inv(s) && Enabled(s, Advance(t, ok))
    ensures StreamRight(Do(s, Advance(t, ok)))
  {
    hide CallStep, CallRight, SharedRight, CanAdvance;
    var s', c := Do(s, Advance(t, ok)), At(s, t);
    var c' := CallStep(s.sh, c, ok).1;
    CallStream(s.sh, c, ok);
    CallOpen(s.sh, c, ok);
    assert At(s', t) == c' && OnlyMoves(s, s', t);
    assert forall u: Thread | u != t :: Together(s.sh.open, c, At(s, u));
    if c.Opening? && ok {
      assert At(s', t).SetOpen?;
    } else if c.SetOpen? {
      assert s.sh.stream == App;
      assert forall u: Thread | u != t :: !At(s, u).ClearOpen?;
    } else if c.ClearOpen? || (c.Closing? && ok) {
      assert forall u: Thread | u != t :: !At(s, u).SetOpen? && !At(s, u).ClearOpen?;
    } else {
      assert forall u: Thread :: At(s', u).SetOpen? == At(s, u).SetOpen? && At(s', u).ClearOpen? == At(s, u).ClearOpen?;
    }
  }

  lemma AdvanceKeepsInv(s: State, t: Thread, ok: bool)
    requires Inv(s) && Enabled(s, Advance(t, ok))
    ensures Inv(Do(s, Advance(t, ok)))
  {
    hide CallStep, CallRight, SharedRight, CanAdvance, Together, StreamRight;
    var s', c := Do(s, Advance(t, ok)), At(s, t);
    AdvanceKeepsStream(s, t, ok);
    CallKeepsOwn(s.sh, c, ok);
    assert At(s', t) == CallStep(s.sh, c, ok).1 && OnlyMoves(s, s', t);
    forall u: Thread | u != t
      ensures CallRight(s'.sh, At(s', u)) && Together(s'.sh.open, At(s', t), At(s', u))
    {
      CallKeepsOther(s.sh, c, ok, At(s, u));
      CallStaysBeside(s.sh, c, ok, At(s, u));
    }
    forall u: Thread, v: Thread | u != v ensures Together(s'.sh.open, At(s', u), At(s', v)) {
      if u != t && v != t {
        CallKeepsPair(s.sh, c, ok, At(s, u), At(s, v));
      } else if u == t {
        assert Together(s'.sh.open, At(s', t), At(s', v));
      } else {
        assert Together(s'.sh.open, At(s', t), At(s', u));
        TogetherTurns(s'.sh.open, At(s', t), At(s', u));
      }
    }
  }

  lemma TogetherTurns(open: bool, c: Call, d: Call)
    requires Together(open, c, d)
    ensures Together(open, d, c)
  {
  }

  lemma BeginKeepsInv(s: State, t: Thread, c: Call)
    requires Inv(s) && Enabled(s, Begin(t, c)) && Apart(s, Begin(t, c))
    ensures Inv(Do(s, Begin(t, c)))
  {
    hide CallRight, SharedRight, Together, Clashes;
    var s' := Do(s, Begin(t, c));
    assert At(s', t) == c && OnlyMoves(s, s', t);
    forall u: Thread | u != t ensures CallRight(s.sh, c) && Together(s.sh.open, c, At(s, u)) {
      IdleClashes(c);
      BeginKeeps(s.sh, c, At(s, u));
    }
    assert CallRight(s.sh, c) by { IdleClashes(c); IdleIsRight(s.sh); BeginKeeps(s.sh, c, Idle); }
    forall u: Thread, v: Thread | u != v ensures Together(s'.sh.open, At(s', u), At(s', v)) {
      if v == t { TogetherTurns(s.sh.open, c, At(s, u)); }
    }
    assert forall u: Thread :: At(s', u).SetOpen? == At(s, u).SetOpen? && At(s', u).ClearOpen? == At(s, u).ClearOpen?;
  }

  lemma IdleClashes(c: Call)
    ensures !Clashes(Idle, c)
  {
  }

  lemma IdleIsRight(s: Shared)
    ensures CallRight(s, Idle)
  {
  }

  lemma TaskKeepsInv(s: State, ok: bool)
    requires Inv(s) && Enabled(s, TaskStep(ok))
    ensures Inv(Do(s, TaskStep(ok)))
  {
    hide CallRight, SharedRight, Together, ToneStep, StreamRight;
    var s' := Do(s, TaskStep(ok));
    TaskKeepsStream(s, ok);
    SharedMeans(s.sh);
    TaskKeepsQuiet(s.sh, ok);
    assert forall u: Thread :: At(s', u) == At(s, u);
    forall u: Thread ensures SharedRight(s'.sh) && CallRight(s'.sh, At(s', u)) {
      TaskKeepsCall(s.sh, At(s, u), ok);
    }
    assert CallRight(s'.sh, At(s', 0));
    forall u: Thread, v: Thread | u != v ensures Together(s'.sh.open, At(s', u), At(s', v)) {
      assert Together(s.sh.open, At(s, u), At(s, v));
    }
  }

  /** The task opens and closes no stream of the app. */
  lemma TaskKeepsStream(s: State, ok: bool)
    requires Inv(s) && Enabled(s, TaskStep(ok))
    ensures StreamRight(Do(s, TaskStep(ok)))
  {
    hide CallRight, SharedRight, Together, ToneStep;
    var s' := Do(s, TaskStep(ok));
    SharedMeans(s.sh);
    TaskKeepsQuiet(s.sh, ok);
    assert forall u: Thread :: At(s', u) == At(s, u);
    if s.sh.stream == App {
      if t: Thread :| At(s, t).SetOpen? { SettingIsQuiet(s.sh, At(s, t)); }
    }
  }

  lemma SharedMeans(s: Shared)
    requires SharedRight(s)
    ensures TaskRight(s) && (s.open ==> !s.claimed) && s.former == []
  {
  }

  lemma SettingIsQuiet(s: Shared, c: Call)
    requires CallRight(s, c) && c.SetOpen?
    ensures !s.claimed
  {
  }

  lemma StepKeepsInv(s: State, a: Step)
    requires Inv(s) && Enabled(s, a) && Apart(s, a)
    ensures Inv(Do(s, a))
  {
    hide Inv, Do;
    match a
    case Begin(t, c) => BeginKeepsInv(s, t, c);
    case Advance(t, ok) => AdvanceKeepsInv(s, t, ok);
    case TaskStep(ok) => TaskKeepsInv(s, ok);
    case OldStep(_, _) => NoOldStep(s, a);
  }

  lemma NoOldStep(s: State, a: Step)
    requires Inv(s) && a.OldStep?
    ensures !Enabled(s, a)
  {
  }

  predicate NeedsApp(c: Call) {
    c.Draining? || c.Starting? || c.CloseDrain? || c.Closing? || c.Writing?
  }

  lemma RightIsLegal(s: Shared, c: Call)
    requires SharedRight(s) && CallRight(s, c)
    requires (NeedsApp(c) ==> s.stream == App) && !(s.stream == App && TaskOwns(s.task))
    ensures TaskLegal(s.stream, s.task) && CallLegal(s.stream, c)
    ensures TaskOwns(s.task) ==> !s.open && !UsesStream(c)
  {
  }

  /** A call that needs the app's stream has it. */
  lemma NeedIsMet(s: State, t: Thread)
    requires Inv(s) && NeedsApp(At(s, t))
    ensures s.sh.stream == App
  {
    hide SharedRight;
    var c := At(s, t);
    assert CallRight(s.sh, c);
    forall u: Thread ensures !At(s, u).ClearOpen? {
      if u != t { assert Together(s.sh.open, c, At(s, u)); }
    }
  }

  lemma TaskIsAlone(s: State)
    requires Inv(s) && s.sh.stream == App
    ensures !TaskOwns(s.sh.task)
  {
    hide Together;
    if t: Thread :| At(s, t).SetOpen? { assert CallRight(s.sh, At(s, t)); }
  }

  lemma InvIsOneOwner(s: State)
    requires Inv(s)
    ensures OneOwner(s)
  {
    hide SharedRight, CallRight, TaskLegal, CallLegal, Together, StreamRight, TaskOwns, UsesStream, NeedsApp;
    if s.sh.stream == App { TaskIsAlone(s); }
    assert SharedRight(s.sh);
    SharedMeans(s.sh);
    RightIsLegal(s.sh, Idle) by { IdleIsRight(s.sh); IdleNeedsNothing(); }
    forall t: Thread | t in s.calls
      ensures CallLegal(s.sh.stream, s.calls[t]) && (TaskOwns(s.sh.task) ==> !UsesStream(s.calls[t]))
    {
      assert At(s, t) == s.calls[t] && CallRight(s.sh, At(s, t));
      if NeedsApp(At(s, t)) { NeedIsMet(s, t); }
      RightIsLegal(s.sh, s.calls[t]);
    }
  }

  lemma IdleNeedsNothing()
    ensures !NeedsApp(Idle)
  {
  }

  // ----- runs

  predicate CanRun(s: State, run: seq<Step>)
    decreases |run|
  {
    run == [] || (Enabled(s, run[0]) && CanRun(Do(s, run[0]), run[1..]))
  }

  function After(s: State, run: seq<Step>): State
    requires CanRun(s, run)
    decreases |run|
  {
    if run == [] then s else After(Do(s, run[0]), run[1..])
  }

  predicate ApartRun(s: State, run: seq<Step>)
    requires CanRun(s, run)
    decreases |run|
  {
    run == [] || (Apart(s, run[0]) && ApartRun(Do(s, run[0]), run[1..]))
  }

  predicate OneCallerRun(s: State, run: seq<Step>)
    requires CanRun(s, run)
    decreases |run|
  {
    run == [] || (OneCaller(s, run[0]) && OneCallerRun(Do(s, run[0]), run[1..]))
  }

  lemma {:induction false} RunKeepsInv(s: State, run: seq<Step>)
    requires Inv(s) && CanRun(s, run) && ApartRun(s, run)
    ensures Inv(After(s, run))
    decreases |run|
  {
    hide Inv, Do, Enabled;
    if run != [] {
      StepKeepsInv(s, run[0]);
      RunKeepsInv(Do(s, run[0]), run[1..]);
    }
  }

  /** While no call begins beside one it clashes with, the stream has one owner in every
      interleaving: each provider call fits the stream that is open, and while the tone task
      has claimed it neither an app stream is open nor an app call uses it. */
  lemma StreamHasOneOwner(run: seq<Step>)
    requires CanRun(Init(), run) && ApartRun(Init(), run)
    ensures OneOwner(After(Init(), run))
  {
    hide Inv, OneOwner;
    InitInv();
    RunKeepsInv(Init(), run);
    InvIsOneOwner(After(Init(), run));
  }

  /** Calls from one thread at a time never clash. */
  lemma {:induction false} OneCallerIsApart(s: State, run: seq<Step>)
    requires CanRun(s, run) && OneCallerRun(s, run)
    ensures ApartRun(s, run)
    decreases |run|
  {
    hide Do, Enabled;
    if run != [] { OneCallerIsApart(Do(s, run[0]), run[1..]); }
  }
}
