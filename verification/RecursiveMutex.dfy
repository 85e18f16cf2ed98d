/** The recursive mutex of idf_compat/src/freertos_queue.c. */
module RecursiveMutex {
  // A queue of one token, with an owner and a recursion count that are read and written
  // outside the queue's lock. Every read and every write is a step of its own, in any
  // interleaving.

  import opened Prelude

  type Thread = nat

  /** Where a thread is inside `freertos_sem_take_recursive` or its give. */
  datatype Pc =
    | Outside
    | TakeTestRecursion
    | TakeTestOwner
    | IncRead
    | IncWrite(seen: int)
    | Receive
    | SetOwner
    | SetRecursion
    | GiveTestRecursion
    | GiveTestOwner
    | DecRead
    | DecWrite(seen: int)
    | ClearOwner
    | ClearRecursion
    | Send

  /** `depth` counts, for each thread, the takes that returned success and were not yet
      given back. */
  datatype State = State(
    count: nat, owner: Option<Thread>, recursion: int, pcs: map<Thread, Pc>, depth: map<Thread, nat>)

  function Init(): State {
    State(1, None, 0, map[], map[])
  }

  function At(s: State, t: Thread): Pc {
    if t in s.pcs then s.pcs[t] else Outside
  }

  function Depth(s: State, t: Thread): nat {
    if t in s.depth then s.depth[t] else 0
  }

  function Go(s: State, t: Thread, pc: Pc): State {
    s.(pcs := s.pcs[t := pc])
  }

  function Done(s: State, t: Thread, depth: nat): State {
    s.(pcs := s.pcs[t := Outside], depth := s.depth[t := depth])
  }

  datatype Step =
    | CallTake(t: Thread)
    | CallGive(t: Thread)
    | GiveUp(t: Thread)
    | Next(t: Thread)

  /** A give is called only by a thread that holds the mutex. `Receive` waits for the
      token, or gives up when its time is over. */
  predicate Enabled(s: State, a: Step) {
    match a
    case CallTake(t) => At(s, t).Outside?
    case CallGive(t) => At(s, t).Outside? && Depth(s, t) > 0
    case GiveUp(t) => At(s, t).Receive? && s.count == 0
    case Next(t) => !At(s, t).Outside? && (At(s, t).Receive? ==> s.count > 0)
  }

  function Do(s: State, a: Step): State
    requires Enabled(s, a)
  {
    match a
    case CallTake(t) => Go(s, t, TakeTestRecursion)
    case CallGive(t) => Go(s, t, GiveTestRecursion)
    case GiveUp(t) => Go(s, t, Outside)
    case Next(t) => Advance(s, t)
  }

  function Advance(s: State, t: Thread): State
    requires At(s, t).Receive? ==> s.count > 0
  {
    match At(s, t)
    case Outside => s
    // recursion > 0 && owner == self: the shortcut
    case TakeTestRecursion => Go(s, t, if s.recursion > 0 then TakeTestOwner else Receive)
    case TakeTestOwner => Go(s, t, if s.owner == Some(t) then IncRead else Receive)
    case IncRead => Go(s, t, IncWrite(s.recursion))
    case IncWrite(r) => Done(s.(recursion := r + 1), t, Depth(s, t) + 1)
    // otherwise the token, then the two fields
    case Receive => Go(s.(count := s.count - 1), t, SetOwner)
    case SetOwner => Go(s.(owner := Some(t)), t, SetRecursion)
    case SetRecursion => Done(s.(recursion := 1), t, Depth(s, t) + 1)
    // recursion > 1 && owner == self: an inner give
    case GiveTestRecursion => Go(s, t, if s.recursion > 1 then GiveTestOwner else ClearOwner)
    case GiveTestOwner => Go(s, t, if s.owner == Some(t) then DecRead else ClearOwner)
    case DecRead => Go(s, t, DecWrite(s.recursion))
    case DecWrite(r) => Done(s.(recursion := r - 1), t, if Depth(s, t) > 0 then Depth(s, t) - 1 else 0)
    // the outermost give
    case ClearOwner => Go(s.(owner := None), t, ClearRecursion)
    case ClearRecursion => Go(s.(recursion := 0), t, Send)
    case Send => Done(if s.count < 1 then s.(count := s.count + 1) else s, t, if Depth(s, t) > 0 then Depth(s, t) - 1 else 0)
  }

  // ----- what every step keeps

  predicate Holds(s: State, t: Thread) {
    Depth(s, t) > 0 || At(s, t).SetOwner? || At(s, t).SetRecursion?
  }

  /** The owner field is behind the token while it is being set or cleared. */
  predicate OwnerWritten(pc: Pc) {
    !pc.SetOwner? && !pc.ClearRecursion? && !pc.Send?
  }

  ghost predicate OneHolder(s: State) {
    && s.count <= 1
    && (forall t: Thread, u: Thread | Holds(s, t) && Holds(s, u) :: t == u)
    && (forall t: Thread | Holds(s, t) :: s.count == 0)
    && (s.count == 0 ==> exists t: Thread :: Holds(s, t))
  }

  ghost predicate OwnerRight(s: State) {
    forall t: Thread :: s.owner == Some(t) <==> Holds(s, t) && OwnerWritten(At(s, t))
  }

  ghost predicate RecursionRight(s: State) {
    && (forall t: Thread | Holds(s, t) ::
          s.recursion == if At(s, t).SetOwner? || At(s, t).SetRecursion? || At(s, t).Send? then 0 else Depth(s, t))
    && (s.count == 1 ==> s.recursion == 0)
  }

  /** What a thread has found out is still so. */
  predicate ThreadRight(pc: Pc, depth: nat) {
    match pc
    case Outside => true
    case TakeTestRecursion => true
    case TakeTestOwner => true
    case IncRead => depth >= 1
    case IncWrite(r) => depth >= 1 && r == depth
    case Receive => depth == 0
    case SetOwner => depth == 0
    case SetRecursion => depth == 0
    case GiveTestRecursion => depth >= 1
    case GiveTestOwner => depth >= 2
    case DecRead => depth >= 2
    case DecWrite(r) => depth >= 2 && r == depth
    case ClearOwner => depth == 1
    case ClearRecursion => depth == 1
    case Send => depth == 1
  }

  ghost predicate ThreadsRight(s: State) {
    forall t: Thread :: ThreadRight(At(s, t), Depth(s, t))
  }

  ghost predicate Inv(s: State) {
    OneHolder(s) && OwnerRight(s) && RecursionRight(s) && ThreadsRight(s)
  }

  lemma InitInv()
    ensures Inv(Init())
  {
  }

  /** A step of `t` changes nothing that is said of another thread. */
  lemma OthersSame(s: State, a: Step, u: Thread)
    requires Enabled(s, a) && u != a.t
    ensures At(Do(s, a), u) == At(s, u) && Depth(Do(s, a), u) == Depth(s, u)
  {
  }

  /** Only a thread that holds the token, or is taking it, writes anything shared. */
  lemma WritesOnlyHolder(s: State, a: Step)
    requires Inv(s) && Enabled(s, a)
    ensures var s' := Do(s, a);
            Holds(s, a.t) || (s'.owner == s.owner && s'.recursion == s.recursion && (s'.count == s.count || At(s, a.t).Receive?))
  {
    hide OneHolder, OwnerRight, RecursionRight;
    assert ThreadRight(At(s, a.t), Depth(s, a.t));
  }

  lemma StepKeepsHolder(s: State, a: Step)
    requires Inv(s) && Enabled(s, a)
    ensures OneHolder(Do(s, a))
  {
    hide OwnerRight, RecursionRight;
    var s' := Do(s, a);
    forall u: Thread | u != a.t ensures Holds(s', u) == Holds(s, u) { OthersSame(s, a, u); }
    assert ThreadRight(At(s, a.t), Depth(s, a.t));
    assert Holds(s', a.t) == (if At(s, a.t).Receive? && !a.GiveUp? then true else if At(s, a.t).Send? then false else Holds(s, a.t));
    if At(s, a.t).Send? { assert Holds(s, a.t) && s.count == 0; }
    if s'.count == 0 && s.count == 0 {
      var t: Thread :| Holds(s, t);
      assert Holds(s', t);
    } else if s'.count == 0 {
      assert Holds(s', a.t);
    }
  }

  lemma StepKeepsOwner(s: State, a: Step)
    requires Inv(s) && Enabled(s, a)
    ensures OwnerRight(Do(s, a))
  {
    hide RecursionRight;
    var s' := Do(s, a);
    WritesOnlyHolder(s, a);
    assert ThreadRight(At(s, a.t), Depth(s, a.t));
    assert s.owner == Some(a.t) <==> Holds(s, a.t) && OwnerWritten(At(s, a.t));
    forall u: Thread ensures s'.owner == Some(u) <==> Holds(s', u) && OwnerWritten(At(s', u)) {
      if u != a.t {
        OthersSame(s, a, u);
        assert s.owner == Some(u) <==> Holds(s, u) && OwnerWritten(At(s, u));
      }
    }
  }

  lemma StepKeepsRecursion(s: State, a: Step)
    requires Inv(s) && Enabled(s, a)
    ensures RecursionRight(Do(s, a))
  {
    hide OwnerRight;
    var s' := Do(s, a);
    WritesOnlyHolder(s, a);
    assert ThreadRight(At(s, a.t), Depth(s, a.t));
    forall u: Thread | Holds(s', u)
      ensures s'.recursion == if At(s', u).SetOwner? || At(s', u).SetRecursion? || At(s', u).Send? then 0 else Depth(s', u)
    {
      if u != a.t {
        OthersSame(s, a, u);
        assert Holds(s, u);
      }
    }
  }

  lemma StepKeepsThreads(s: State, a: Step)
    requires Inv(s) && Enabled(s, a)
    ensures ThreadsRight(Do(s, a))
  {
    var s' := Do(s, a);
    assert ThreadRight(At(s, a.t), Depth(s, a.t));
    forall u: Thread ensures ThreadRight(At(s', u), Depth(s', u)) {
      if u != a.t {
        OthersSame(s, a, u);
        assert ThreadRight(At(s, u), Depth(s, u));
      }
    }
  }

  lemma StepKeepsInv(s: State, a: Step)
    requires Inv(s) && Enabled(s, a)
    ensures Inv(Do(s, a))
  {
    hide OneHolder, OwnerRight, RecursionRight, ThreadsRight, Do;
    StepKeepsHolder(s, a);
    StepKeepsOwner(s, a);
    StepKeepsRecursion(s, a);
    StepKeepsThreads(s, a);
  }

  // ----- runs

  predicate CanRun(s: State, run: seq<Step>)
    decreases |run|
  {
    run == [] || (Enabled(s, run[0]) && CanRun(Do(s, run[0]), run[1..]))
  }

  function After(s: State, run: seq<Step>): State
    requires CanRun(s, run)
    decreases |run|
  {
    if run == [] then s else After(Do(s, run[0]), run[1..])
  }

  lemma {:induction false} RunKeepsInv(s: State, run: seq<Step>)
    requires Inv(s) && CanRun(s, run)
    ensures Inv(After(s, run))
    decreases |run|
  {
    hide Inv, Do, Enabled;
    if run != [] {
      StepKeepsInv(s, run[0]);
      RunKeepsInv(Do(s, run[0]), run[1..]);
    }
  }

  /** Two threads never hold the mutex at once. */
  lemma MutualExclusion(run: seq<Step>, t: Thread, u: Thread)
    requires CanRun(Init(), run)
    ensures var s := After(Init(), run); Depth(s, t) > 0 && Depth(s, u) > 0 ==> t == u
  {
    InitInv();
    RunKeepsInv(Init(), run);
  }

  /** The shortcut of the take is reached exactly by the holder: a holder never waits for
      its own token, and nobody else gets past the test. */
  lemma ShortcutIsHolders(run: seq<Step>, t: Thread)
    requires CanRun(Init(), run)
    ensures var s := After(Init(), run);
            && (At(s, t).IncRead? || At(s, t).IncWrite? ==> Depth(s, t) > 0)
            && (At(s, t).Receive? ==> Depth(s, t) == 0)
            && (At(s, t).TakeTestOwner? ==> (Depth(s, t) > 0 <==> Advance(s, t) == Go(s, t, IncRead)))
  {
    InitInv();
    RunKeepsInv(Init(), run);
    var s := After(Init(), run);
    assert ThreadRight(At(s, t), Depth(s, t));
    assert Go(s, t, IncRead).pcs[t] != Go(s, t, Receive).pcs[t];
  }

  /** The token is back exactly when nobody holds; it goes back only with the outermost
      give, when there is room for it; and the count of the holder is exact. */
  lemma TokenReturnsOutermost(run: seq<Step>)
    requires CanRun(Init(), run)
    ensures var s := After(Init(), run);
            && (s.count == 1 <==> forall t: Thread :: !Holds(s, t))
            && (forall t: Thread | At(s, t).Send? :: Depth(s, t) == 1 && s.count == 0)
            && (forall t: Thread | At(s, t).Outside? && Depth(s, t) > 0 :: s.recursion == Depth(s, t) && s.owner == Some(t))
  {
    InitInv();
    RunKeepsInv(Init(), run);
    var s := After(Init(), run);
    forall t: Thread | At(s, t).Send? ensures Depth(s, t) == 1 && s.count == 0 {
      assert ThreadRight(At(s, t), Depth(s, t));
      assert Holds(s, t);
    }
    forall t: Thread | At(s, t).Outside? && Depth(s, t) > 0 ensures s.recursion == Depth(s, t) && s.owner == Some(t) {
      assert Holds(s, t);
    }
  }

  /** Every give undoes one take: the depth of the thread goes down by one, and the state
      of the mutex is that of one take less. */
  lemma GiveUndoesTake(run: seq<Step>, t: Thread)
    requires CanRun(Init(), run)
    ensures var s := After(Init(), run);
            && (At(s, t).DecWrite? ==> Advance(s, t).recursion == s.recursion - 1 == Depth(Advance(s, t), t))
            && (At(s, t).Send? ==> Advance(s, t).count == 1 && Advance(s, t).owner == None
                                   && Advance(s, t).recursion == 0 && Depth(Advance(s, t), t) == 0)
  {
    InitInv();
    RunKeepsInv(Init(), run);
    var s := After(Init(), run);
    assert ThreadRight(At(s, t), Depth(s, t));
    if At(s, t).Send? {
      assert Holds(s, t);
      assert forall u: Thread :: s.owner == Some(u) ==> u == t;
    }
  }
}
