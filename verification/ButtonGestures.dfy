/** What the events of bsp/src/bsp_button.c mean over a run. */
module ButtonGestures {
  // Each is told from the events before it and the times of the samples that caused them, without the
  // machine's own state.

  import opened Prelude
  import opened Button

  /** A sample that reported something, and what. */
  datatype Group = Group(sample: nat, events: seq<Event>)

  function Groups(inputs: seq<Input>): (gs: seq<Group>)
    ensures forall k | 0 <= k < |gs| :: gs[k].sample < |inputs|
  {
    if inputs == [] then []
    else
      var n := |inputs| - 1;
      var events := StepOf(Run(inputs[..n]).0, inputs[n]).1;
      Groups(inputs[..n]) + if events == [] then [] else [Group(n, events)]
  }

  /** The last report was a press, at sample `j`. */
  predicate JustPressed(gs: seq<Group>, j: nat) {
    gs != [] && gs[|gs| - 1] == Group(j, [Down])
  }

  /** The last report was the release, at sample `j`, of a press that was reported before it. */
  predicate JustReleased(gs: seq<Group>, j: nat) {
    |gs| >= 2 && gs[|gs| - 1] == Group(j, [Up]) && gs[|gs| - 2].events == [Down]
  }

  predicate LastIs(gs: seq<Group>, events: seq<Event>) {
    gs != [] && gs[|gs| - 1].events == events
  }

  /** The mode and its tick follow from the reports. */
  predicate ToldBy(b: Sm, gs: seq<Group>, inputs: seq<Input>)
    requires forall k | 0 <= k < |gs| :: gs[k].sample < |inputs|
  {
    && (b.mode == Pressed <==> LastIs(gs, [Down]))
    && (b.mode == Pressed ==> b.pressTick == inputs[gs[|gs| - 1].sample].now)
    && (b.mode == WaitDouble <==> |gs| >= 2 && LastIs(gs, [Up]) && gs[|gs| - 2].events == [Down])
    && (b.mode == WaitDouble ==> b.releaseTick == inputs[gs[|gs| - 1].sample].now)
    && (b.mode == PressedLong <==> LastIs(gs, [LongPress]))
    && (b.mode == PressedAgain <==> LastIs(gs, [Down, DoubleClick]))
  }

  /** One sample of the machine: its mode, tick and report. */
  lemma StepCases(b: Sm, i: Input)
    requires b.stable == HeldDown(b.mode)
    ensures var (t, events) := StepOf(b, i);
            && (t.mode == b.mode && events == [] ==> t.pressTick == b.pressTick && t.releaseTick == b.releaseTick)
            && match b.mode
               case Idle => if Edge(b, i) then t.mode == Pressed && events == [Down] && t.pressTick == i.now else t.mode == Idle && events == []
               case Pressed =>
                 if Edge(b, i) then
                   if i.double && i.doubleMs > 0 then t.mode == WaitDouble && events == [Up] && t.releaseTick == i.now
                   else t.mode == Idle && events == [Up, Click]
                 else if i.long && i.longMs > 0 && MsSince(b.pressTick, i.now) >= i.longMs then t.mode == PressedLong && events == [LongPress]
                 else t.mode == Pressed && events == []
               case PressedLong => if Edge(b, i) then t.mode == Idle && events == [Up] else t.mode == PressedLong && events == []
               case PressedAgain => if Edge(b, i) then t.mode == Idle && events == [Up] else t.mode == PressedAgain && events == []
               case WaitDouble =>
                 if Edge(b, i) then t.mode == PressedAgain && events == [Down, DoubleClick]
                 else if MsSince(b.releaseTick, i.now) >= i.doubleMs then t.mode == Idle && events == [Click]
                 else t.mode == WaitDouble && events == []
  {
  }

  lemma TellsNothing(b: Sm, t: Sm, gs: seq<Group>, inputs: seq<Input>, i: Input)
    requires forall k | 0 <= k < |gs| :: gs[k].sample < |inputs|
    requires ToldBy(b, gs, inputs) && b.stable == HeldDown(b.mode) && StepOf(b, i) == (t, [])
    ensures ToldBy(t, gs, inputs + [i])
  {
    hide StepOf, Edge, MsSince;
    StepCases(b, i);
  }

  lemma LastGroup(gs: seq<Group>, g: Group)
    ensures var more := gs + [g]; |more| == |gs| + 1 && more[|more| - 1] == g && (gs != [] ==> more[|more| - 2] == gs[|gs| - 1])
  {
  }

  lemma TellsMore(b: Sm, t: Sm, gs: seq<Group>, inputs: seq<Input>, i: Input, events: seq<Event>)
    requires forall k | 0 <= k < |gs| :: gs[k].sample < |inputs|
    requires ToldBy(b, gs, inputs) && b.stable == HeldDown(b.mode) && StepOf(b, i) == (t, events) && events != []
    ensures ToldBy(t, gs + [Group(|inputs|, events)], inputs + [i])
  {
    hide StepOf, Edge, MsSince;
    StepCases(b, i);
    LastGroup(gs, Group(|inputs|, events));
    assert (inputs + [i])[|inputs|] == i;
  }

  lemma {:induction false} GroupsTell(inputs: seq<Input>)
    ensures ToldBy(Run(inputs).0, Groups(inputs), inputs)
  {
    hide StepOf, ToldBy;
    if inputs == [] {
      NothingTold();
    } else {
      var n := |inputs| - 1;
      var before, i := inputs[..n], inputs[n];
      GroupsTell(before);
      Balanced(before);
      var (b, gs) := (Run(before).0, Groups(before));
      var (t, events) := StepOf(b, i);
      assert before + [i] == inputs;
      if events == [] {
        TellsNothing(b, t, gs, before, i);
        assert gs + [] == gs;
      } else {
        TellsMore(b, t, gs, before, i, events);
      }
    }
  }

  lemma NothingTold()
    ensures ToldBy(Init(), [], [])
  {
  }

  lemma Balanced(inputs: seq<Input>)
    ensures var b := Run(inputs).0; b.stable == HeldDown(b.mode)
  {
    hide Count, Told;
    RunAccounts(inputs);
  }

  /** A long press is reported exactly when the last report was a press at least as long ago as the
      button's time, with a callback for it, and the press does not end at this sample. */
  lemma LongPressExact(inputs: seq<Input>, i: Input)
    ensures var (b, log) := Run(inputs);
            LongPress in StepOf(b, i).1 <==>
              && !Edge(b, i) && i.long && i.longMs > 0
              && exists j: nat | j < |inputs| :: JustPressed(Groups(inputs), j) && MsSince(inputs[j].now, i.now) >= i.longMs
  {
    hide StepOf, Edge, MsSince, Groups, Run;
    GroupsTell(inputs);
    Balanced(inputs);
    var b, gs := Run(inputs).0, Groups(inputs);
    StepCases(b, i);
    if b.mode == Pressed { assert JustPressed(gs, gs[|gs| - 1].sample); }
  }

  /** A click is reported exactly when a press that has not become long is released with no double
      click to wait for, or when it was released at least as long ago as a double click may take. */
  lemma ClickExact(inputs: seq<Input>, i: Input)
    ensures var (b, log) := Run(inputs);
            Click in StepOf(b, i).1 <==>
              if Edge(b, i) then
                (exists j: nat :: JustPressed(Groups(inputs), j)) && !(i.double && i.doubleMs > 0)
              else
                exists j: nat | j < |inputs| :: JustReleased(Groups(inputs), j) && MsSince(inputs[j].now, i.now) >= i.doubleMs
  {
    hide StepOf, Edge, MsSince, Groups, Run;
    GroupsTell(inputs);
    Balanced(inputs);
    var b, gs := Run(inputs).0, Groups(inputs);
    StepCases(b, i);
    if b.mode == Pressed { assert JustPressed(gs, gs[|gs| - 1].sample); }
    if b.mode == WaitDouble { assert JustReleased(gs, gs[|gs| - 1].sample); }
  }

  /** A double click is reported exactly with the second of two presses, while the click of the first
      has not been reported. */
  lemma DoubleClickExact(inputs: seq<Input>, i: Input)
    ensures var (b, log) := Run(inputs);
            DoubleClick in StepOf(b, i).1 <==> Edge(b, i) && exists j: nat :: JustReleased(Groups(inputs), j)
  {
    hide StepOf, Edge, MsSince, Groups, Run;
    GroupsTell(inputs);
    Balanced(inputs);
    var b, gs := Run(inputs).0, Groups(inputs);
    StepCases(b, i);
    if b.mode == WaitDouble { assert JustReleased(gs, gs[|gs| - 1].sample); }
  }

  /** A change of the debounced level is told at once: Down when it is pressed, Up when released. */
  lemma LevelTold(inputs: seq<Input>, i: Input)
    ensures var b := Run(inputs).0; var (t, events) := StepOf(b, i);
            && (Down in events <==> !b.stable && t.stable)
            && (Up in events <==> b.stable && !t.stable)
            && (Edge(b, i) <==> t.stable != b.stable)
  {
    hide StepOf, MsSince, Run;
    Balanced(inputs);
    var b := Run(inputs).0;
    StepCases(b, i);
    StepStable(b, i);
  }
}
