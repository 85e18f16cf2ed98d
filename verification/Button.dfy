/** bsp/src/bsp_button.c: debounce and the click, double-click and long-press machine. */
module Button {
  import opened Prelude

  datatype Event = Down | Up | Click | DoubleClick | LongPress

  datatype Mode = Idle | Pressed | PressedLong | WaitDouble | PressedAgain

  /** `button_sm_t` */
  datatype Sm = Sm(
    stable: bool, differs: bool, diffTick: nat, mode: Mode, pressTick: nat, releaseTick: nat)

  /** What is registered for the button at one sample, and the sample itself. */
  datatype Input = Input(raw: bool, now: nat, double: bool, long: bool, doubleMs: nat, longMs: nat)

  const DEBOUNCE_MS: int := 20

  function Init(): Sm {
    Sm(false, false, 0, Idle, 0, 0)
  }

  /** Milliseconds since an earlier tick, both 32-bit counts of milliseconds. */
  function MsSince(then_: nat, now: nat): nat {
    (now - then_) % 0x1_0000_0000
  }

  /** Over less than 2^32 milliseconds it is the true time between the two ticks, also across a wrap. */
  lemma MsSinceIsTrue(then_: nat, now: nat)
    requires then_ <= now < then_ + 0x1_0000_0000
    ensures MsSince(then_ % 0x1_0000_0000, now % 0x1_0000_0000) == now - then_
  {
    var a, b := then_ / 0x1_0000_0000, now / 0x1_0000_0000;
    assert then_ == a * 0x1_0000_0000 + then_ % 0x1_0000_0000 && now == b * 0x1_0000_0000 + now % 0x1_0000_0000;
  }

  // ----- one sample

  predicate Edge(b: Sm, i: Input) {
    i.raw != b.stable && b.differs && MsSince(b.diffTick, i.now) >= DEBOUNCE_MS
  }

  /** The debounced level after the sample. */
  function Debounce(b: Sm, i: Input): Sm {
    if i.raw == b.stable then b.(differs := false)
    else if !b.differs then b.(differs := true, diffTick := i.now)
    else if Edge(b, i) then b.(stable := i.raw, differs := false)
    else b
  }

  function OnEdge(b: Sm, i: Input): (Sm, seq<Event>) {
    if i.raw then
      if b.mode == WaitDouble then (b.(pressTick := i.now, mode := PressedAgain), [Down, DoubleClick])
      else (b.(pressTick := i.now, mode := Pressed), [Down])
    else if b.mode == Pressed then
      if i.double then (b.(mode := WaitDouble, releaseTick := i.now), [Up])
      else (b.(mode := Idle), [Up, Click])
    else (b.(mode := Idle), [Up])
  }

  function OnTimer(b: Sm, i: Input): (Sm, seq<Event>) {
    if b.mode == Pressed && i.long && i.longMs > 0 && MsSince(b.pressTick, i.now) >= i.longMs then
      (b.(mode := PressedLong), [LongPress])
    else if b.mode == WaitDouble && MsSince(b.releaseTick, i.now) >= i.doubleMs then
      (b.(mode := Idle), [Click])
    else (b, [])
  }

  function StepOf(b: Sm, i: Input): (Sm, seq<Event>) {
    var d := Debounce(b, i);
    var (e, first) := if Edge(b, i) then OnEdge(d, i) else (d, []);
    var (t, second) := OnTimer(e, i);
    (t, first + second)
  }

  /** What `sm_step` answers. */
  predicate Settled(b: Sm) {
    b.mode == Idle && !b.differs
  }

  // ----- runs

  function Run(inputs: seq<Input>): (Sm, seq<Event>) {
    if inputs == [] then (Init(), [])
    else
      var n := |inputs| - 1;
      var (b, log) := Run(inputs[..n]);
      var (b', events) := StepOf(b, inputs[n]);
      (b', log + events)
  }

  function Count(log: seq<Event>, e: Event): nat {
    if log == [] then 0 else Count(log[..|log| - 1], e) + if log[|log| - 1] == e then 1 else 0
  }

  /** The levels told to the application: after `Down` it is pressed, after `Up` released,
      and a second one of the same kind never comes. */
  function Told(log: seq<Event>): Option<bool> {
    if log == [] then Some(false)
    else
      var before, e := Told(log[..|log| - 1]), log[|log| - 1];
      if before.None? then None
      else if e == Down then if before.value then None else Some(true)
      else if e == Up then if before.value then Some(false) else None
      else before
  }

  lemma ToldNext(log: seq<Event>, e: Event, level: bool)
    requires Told(log) == Some(level) && (e == Down ==> !level) && (e == Up ==> level)
    ensures Told(log + [e]) == Some(if e == Down then true else if e == Up then false else level)
  {
    assert (log + [e])[..|log + [e]| - 1] == log;
  }

  // ----- the accounting

  predicate HeldDown(m: Mode) {
    m == Pressed || m == PressedLong || m == PressedAgain
  }

  /** One press is still to be reported as a click of some kind. */
  function Outstanding(m: Mode): nat {
    if m == Pressed || m == WaitDouble then 1 else 0
  }

  function Reported(log: seq<Event>): nat {
    Count(log, Click) + 2 * Count(log, DoubleClick) + Count(log, LongPress)
  }

  predicate Inv(b: Sm, log: seq<Event>) {
    && b.stable == HeldDown(b.mode)
    && Told(log) == Some(b.stable)
    && Count(log, Down) == Reported(log) + Outstanding(b.mode)
    && Count(log, Down) == Count(log, Up) + if b.stable then 1 else 0
  }

  lemma CountOne(log: seq<Event>, e: Event)
    ensures Count(log + [e], e) == Count(log, e) + 1
    ensures forall f | f != e :: Count(log + [e], f) == Count(log, f)
  {
    assert (log + [e])[..|log + [e]| - 1] == log;
  }

  lemma EdgeKeepsInv(b: Sm, i: Input, log: seq<Event>)
    requires Inv(b, log) && Edge(b, i)
    ensures var (e, events) := OnEdge(Debounce(b, i), i); Inv(e, log + events)
  {
    hide Count, Told;
    var (e, events) := OnEdge(Debounce(b, i), i);
    var first := if i.raw then Down else Up;
    CountOne(log, first);
    ToldNext(log, first, b.stable);
    if |events| == 2 {
      CountOne(log + [first], events[1]);
      ToldNext(log + [first], events[1], i.raw);
      assert log + events == log + [first] + [events[1]];
    } else {
      assert events == [first];
    }
  }

  lemma TimerKeepsInv(b: Sm, i: Input, log: seq<Event>)
    requires Inv(b, log)
    ensures var (t, events) := OnTimer(b, i); Inv(t, log + events)
  {
    hide Count, Told, MsSince;
    var (t, events) := OnTimer(b, i);
    if events == [] {
      assert log + events == log;
    } else {
      CountOne(log, events[0]);
      ToldNext(log, events[0], b.stable);
      assert events == [events[0]];
    }
  }

  lemma StepKeepsInv(b: Sm, i: Input, log: seq<Event>)
    requires Inv(b, log)
    ensures var (t, events) := StepOf(b, i); Inv(t, log + events)
  {
    hide Count, Told, MsSince, OnEdge, OnTimer;
    var d := Debounce(b, i);
    if Edge(b, i) {
      EdgeKeepsInv(b, i, log);
      var (e, first) := OnEdge(d, i);
      TimerKeepsInv(e, i, log + first);
      assert log + first + OnTimer(e, i).1 == log + (first + OnTimer(e, i).1);
    } else {
      assert Inv(d, log);
      TimerKeepsInv(d, i, log);
      assert [] + OnTimer(d, i).1 == OnTimer(d, i).1;
    }
  }

  /** Over every sample sequence, whatever is registered when: DOWN and UP alternate, the
      state agrees with the debounced level, and every press is accounted for. */
  lemma {:induction false} RunAccounts(inputs: seq<Input>)
    ensures var (b, log) := Run(inputs); Inv(b, log)
  {
    hide Inv, StepOf;
    if inputs == [] {
      NothingYet();
    } else {
      var n := |inputs| - 1;
      RunAccounts(inputs[..n]);
      StepKeepsInv(Run(inputs[..n]).0, inputs[n], Run(inputs[..n]).1);
    }
  }

  lemma NothingYet()
    ensures Inv(Init(), [])
  {
  }

  /** A button is reported settled only when nothing is owed: every press has been reported
      as part of a click, a double click or a long press, and has been released. */
  lemma SettledOwesNothing(inputs: seq<Input>)
    ensures var (b, log) := Run(inputs);
            Settled(b) ==> Count(log, Down) == Reported(log) && Count(log, Down) == Count(log, Up) && !b.stable
  {
    RunAccounts(inputs);
  }

  // ----- debounce over a run

  /** The samples from `j` on are the ones that differ from the level, without a break. */
  predicate DifferingSince(inputs: seq<Input>, j: nat, level: bool) {
    && j < |inputs|
    && (forall k | j <= k < |inputs| :: inputs[k].raw != level)
    && (j > 0 ==> inputs[j - 1].raw == level)
  }

  lemma StepStable(b: Sm, i: Input)
    ensures StepOf(b, i).0.stable == (if Edge(b, i) then i.raw else b.stable)
    ensures StepOf(b, i).0.differs == (i.raw != b.stable && !Edge(b, i))
    ensures i.raw != b.stable && !Edge(b, i) ==> StepOf(b, i).0.diffTick == if b.differs then b.diffTick else i.now
  {
    hide MsSince;
  }

  /** The flag is up exactly while the last samples differ, and the tick is that of the first. */
  lemma {:induction false} DifferingTracked(inputs: seq<Input>)
    ensures var b := Run(inputs).0;
            && (b.differs <==> inputs != [] && inputs[|inputs| - 1].raw != b.stable)
            && (b.differs ==> exists j: nat :: DifferingSince(inputs, j, b.stable) && inputs[j].now == b.diffTick)
  {
    hide StepOf, MsSince;
    if inputs != [] {
      var n := |inputs| - 1;
      var before, i := inputs[..n], inputs[n];
      DifferingTracked(before);
      var b := Run(before).0;
      StepStable(b, i);
      var t := Run(inputs).0;
      if t.differs {
        if b.differs {
          var j: nat :| DifferingSince(before, j, b.stable) && before[j].now == b.diffTick;
          assert inputs[j] == before[j] && (j > 0 ==> inputs[j - 1] == before[j - 1]);
          assert forall k | j <= k < n :: inputs[k] == before[k];
          assert DifferingSince(inputs, j, t.stable);
        } else {
          assert n > 0 ==> inputs[n - 1] == before[n - 1];
          assert DifferingSince(inputs, n, t.stable);
        }
      }
    }
  }

  lemma OneStart(inputs: seq<Input>, j: nat, k: nat, level: bool)
    requires DifferingSince(inputs, j, level) && DifferingSince(inputs, k, level)
    ensures j == k
  {
  }

  /** The debounced level changes exactly when all samples from `j` to this one differ from it, and
      the first of them is at least 20 milliseconds old. */
  lemma DebounceExact(inputs: seq<Input>, i: Input)
    ensures var b := Run(inputs).0;
            StepOf(b, i).0.stable != b.stable <==>
              && i.raw != b.stable
              && exists j: nat :: DifferingSince(inputs, j, b.stable) && MsSince(inputs[j].now, i.now) >= 20
  {
    hide StepOf, MsSince;
    var b := Run(inputs).0;
    StepStable(b, i);
    DifferingTracked(inputs);
    if b.differs {
      var j: nat :| DifferingSince(inputs, j, b.stable) && inputs[j].now == b.diffTick;
      forall k: nat | DifferingSince(inputs, k, b.stable) ensures k == j {
        OneStart(inputs, j, k, b.stable);
      }
    }
  }

  // ----- the machine in place

  class Machine {
    var stable: bool
    var differs: bool
    var diffTick: nat
    var mode: Mode
    var pressTick: nat
    var releaseTick: nat
    var log: seq<Event>

    function Value(): Sm
      reads this
    {
      Sm(stable, differs, diffTick, mode, pressTick, releaseTick)
    }

    constructor ()
      ensures Value() == Init() && log == []
    {
      stable, differs, diffTick, mode, pressTick, releaseTick, log := false, false, 0, Idle, 0, 0, [];
    }

    method Emit(e: Event)
      modifies this`log
      ensures log == old(log) + [e]
    {
      log := log + [e];
    }

    /** The part of `sm_step` that follows an edge of the debounced level. */
    method TakeEdge(i: Input)
      modifies this
      ensures Value() == OnEdge(old(Value()), i).0 && log == old(log) + OnEdge(old(Value()), i).1
    {
      if i.raw {
        Emit(Down);
        pressTick := i.now;
        if mode == WaitDouble {
          Emit(DoubleClick);
          mode := PressedAgain;
        } else {
          mode := Pressed;
        }
      } else {
        Emit(Up);
        if mode == Pressed {
          if i.double {
            mode, releaseTick := WaitDouble, i.now;
          } else {
            Emit(Click);
            mode := Idle;
          }
        } else {
          mode := Idle;
        }
      }
    }

    /** The part of `sm_step` that looks at the timers. */
    method TakeTimer(i: Input)
      modifies this
      ensures Value() == OnTimer(old(Value()), i).0 && log == old(log) + OnTimer(old(Value()), i).1
    {
      hide MsSince;
      if mode == Pressed {
        if i.long && i.longMs > 0 && MsSince(pressTick, i.now) >= i.longMs {
          Emit(LongPress);
          mode := PressedLong;
        }
      } else if mode == WaitDouble {
        if MsSince(releaseTick, i.now) >= i.doubleMs {
          Emit(Click);
          mode := Idle;
        }
      }
    }

    /** `sm_step`: true when settled. */
    method Sample(i: Input) returns (settled: bool)
      modifies this
      ensures Value() == StepOf(old(Value()), i).0 && log == old(log) + StepOf(old(Value()), i).1
      ensures settled == Settled(Value())
    {
      hide MsSince, OnEdge, OnTimer;
      var edge := false;
      if i.raw == stable {
        differs := false;
      } else if !differs {
        differs, diffTick := true, i.now;
      } else if MsSince(diffTick, i.now) >= DEBOUNCE_MS {
        stable, differs, edge := i.raw, false, true;
      }
      if edge { TakeEdge(i); }
      TakeTimer(i);
      return mode == Idle && !differs;
    }
  }

  const POLL_INTERVAL_MS: nat := 10
  const DISPATCH_IDLE: nat := 0xffff_ffff

  /** When the dispatch task should run the provider again. */
  function NextTick(allSettled: bool, hasInt: bool, pollMs: nat): nat {
    if !allSettled then POLL_INTERVAL_MS
    else if hasInt then DISPATCH_IDLE
    else if pollMs > 0 then pollMs else POLL_INTERVAL_MS
  }

  /** `raw_tick`, which polls again when the buttons could not be sampled. Else each button
      takes its sample; the source goes to sleep only when every button is settled and an
      interrupt will wake it. */
  method RawTick(sm: seq<Machine>, sampled: bool, inputs: seq<Input>, hasInt: bool, pollMs: nat) returns (ms: nat)
    requires |sm| == |inputs| && forall j, k | 0 <= j < k < |sm| :: sm[j] != sm[k]
    modifies set k | 0 <= k < |sm| :: sm[k]
    ensures !sampled ==> ms == POLL_INTERVAL_MS
    ensures !sampled ==> forall k | 0 <= k < |sm| :: sm[k].Value() == old(sm[k].Value()) && sm[k].log == old(sm[k].log)
    ensures sampled ==> forall k | 0 <= k < |sm| :: sm[k].Value() == StepOf(old(sm[k].Value()), inputs[k]).0
    ensures sampled ==> forall k | 0 <= k < |sm| :: sm[k].log == old(sm[k].log) + StepOf(old(sm[k].Value()), inputs[k]).1
    ensures sampled ==> ms == NextTick(forall k | 0 <= k < |sm| :: Settled(sm[k].Value()), hasInt, pollMs)
  {
    hide StepOf, Settled;
    if !sampled { return POLL_INTERVAL_MS; }
    var allSettled := true;
    var i := 0;
    while i < |sm|
      invariant 0 <= i <= |sm|
      invariant forall k | 0 <= k < i :: sm[k].Value() == StepOf(old(sm[k].Value()), inputs[k]).0
      invariant forall k | 0 <= k < i :: sm[k].log == old(sm[k].log) + StepOf(old(sm[k].Value()), inputs[k]).1
      invariant forall k | i <= k < |sm| :: sm[k].Value() == old(sm[k].Value()) && sm[k].log == old(sm[k].log)
      invariant allSettled == forall k | 0 <= k < i :: Settled(sm[k].Value())
    {
      label L:
      var settled := sm[i].Sample(inputs[i]);
      assert forall k | 0 <= k < |sm| && k != i :: sm[k].Value() == old@L(sm[k].Value()) && sm[k].log == old@L(sm[k].log);
      if !settled { allSettled := false; }
      i := i + 1;
    }
    ms := NextTick(allSettled, hasInt, pollMs);
  }
}
