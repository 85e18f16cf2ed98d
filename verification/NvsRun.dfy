/** Whole runs of calls on the store of idf_compat/src/nvs.c, restarts included. */
module NvsRun {
  import opened Prelude
  import opened NvsText
  import opened NvsValue
  import opened NvsLine
  import opened NvsLines
  import opened NvsFile

  /** The calls on a store that is loaded, and starting again from its file. */
  datatype Op =
    | Set(key: Key, vtype: Type, lit: Literal)
    | EraseKey(key: Key)
    | EraseAll(ns: Text)
    | EraseFlash
    | Commit
    | Restart

  /** The lines in memory and the file. */
  datatype Image = Image(lines: seq<Line>, file: seq<byte>)

  predicate ValidOp(op: Op) {
    op.Set? ==> ValidKey(op.key) && Settable(op.vtype, op.lit)
  }

  function Write(s: seq<Line>): Image {
    Image(s, Save(s))
  }

  /** A restart loads the file and writes nothing, nor does erasing a key that is not
      bound. */
  function Step(im: Image, op: Op): Image
    requires Printable(im.lines)
  {
    match op
    case Set(k, t, l) => Write(SetLines(im.lines, k, t, l))
    case EraseKey(k) =>
      var s := Removed(im.lines, k.ns, Some(k.name));
      if |s| == |im.lines| then im else Write(s)
    case EraseAll(ns) => Write(Removed(im.lines, ns, None))
    case EraseFlash => Write(Erased(im.lines, Reserved()))
    case Commit => Write(im.lines)
    case Restart => Image(Load(im.file), im.file)
  }

  /** The same call on a map. */
  function StepMap(m: Bindings, op: Op): Bindings {
    match op
    case Set(k, t, l) => m[k := Value(t, l)]
    case EraseKey(k) => m - {k}
    case EraseAll(ns) => map k | k in m && k.ns != ns :: m[k]
    case EraseFlash => Only(m, Reserved())
    case Commit => m
    case Restart => m
  }

  /** Whether the file was written since it was loaded last. */
  predicate Written(im: Image, written: bool, op: Op) {
    match op
    case EraseKey(k) => written || |Removed(im.lines, k.ns, Some(k.name))| != |im.lines|
    case Restart => false
    case _ => true
  }

  /** The file holds the lines that were written, or the lines are those that were loaded. */
  predicate InStep(im: Image, written: bool) {
    if written then im.file == Save(im.lines) else Load(im.file) == im.lines
  }

  // ----- no call makes a line that a restart reads differently

  lemma {:induction false} EnduresConcat(cur: Option<Text>, s: seq<Line>, t: seq<Line>, n: nat)
    ensures Endures(cur, s + t, n) <==> Endures(cur, s, n) && Endures(Current(cur, s), t, n)
  {
    hide Stays;
    if t == [] {
      assert s + t == s;
    } else {
      FrontOfConcat(s, t);
      CurrentConcat(cur, s, Front(t));
      EnduresConcat(cur, s, Front(t), n);
    }
  }

  lemma EnduresOne(cur: Option<Text>, l: Line, n: nat)
    ensures Endures(cur, [l], n) <==> (l.Raw? ==> Stays(cur, l.text, n))
  {
    hide Stays;
    assert Front([l]) == [] && Last([l]) == l;
  }

  lemma {:induction false} RemoveEndures(s: seq<Line>, ns: Text, key: Option<Text>, n: nat)
    requires Endures(None, s, n)
    ensures Endures(None, Removed(s, ns, key), n)
  {
    hide Stays;
    if s != [] {
      RemoveEndures(Front(s), ns, key, n);
      RemoveUnbinds(Front(s), ns, key);
      FrontLast(Removed(Front(s), ns, key), Last(s));
    }
  }

  lemma {:induction false} EraseEndures(s: seq<Line>, reserved: Text, n: nat)
    requires Endures(None, s, n)
    ensures Endures(None, Erased(s, reserved), n)
  {
    hide Stays;
    if s != [] {
      EraseEndures(Front(s), reserved, n);
      ErasedSection(Front(s), reserved);
      FrontLast(Erased(Front(s), reserved), Last(s));
    }
  }

  lemma ReplaceEndures(s: seq<Line>, i: nat, e: Line, n: nat)
    requires i < |s| && Endures(None, s, n) && s[i].Entry? && e.Entry?
    ensures Endures(None, s[i := e], n)
  {
    hide Current, Endures, Stays;
    var a, b := s[..i], s[i + 1..];
    var cur := Current(None, a);
    assert s == a + [s[i]] + b && s[i := e] == a + [e] + b;
    EntryKeepsSection(a, s[i]);
    EntryKeepsSection(a, e);
    EnduresConcat(None, a + [s[i]], b, n);
    EnduresConcat(None, a, [s[i]], n);
    EnduresOne(cur, e, n);
    EnduresConcat(None, a, [e], n);
    EnduresConcat(None, a + [e], b, n);
  }

  lemma HeadingEndures(s: seq<Line>, ns: Text, n: nat)
    requires Endures(None, s, n)
    ensures Endures(None, s + Heading(s, ns), n)
  {
    hide Current, SectionText;
    var sec := Section(SectionText(ns), ns);
    var blank := if s != [] && Last(s).text != [] then [Raw([])] else [];
    assert s + Heading(s, ns) == s + blank + [sec];
    FrontLast(s + blank, sec);
    if blank != [] { FrontLast(s, Raw([])); } else { assert s + blank == s; }
  }

  lemma InsertEndures(s: seq<Line>, ns: Text, e: Line, n: nat)
    requires Endures(None, s, n) && e.Entry?
    ensures Endures(None, Inserted(s, ns, e), n)
  {
    hide Heading, InsertPoint, Current, Endures, Stays;
    match InsertPoint(s, ns)
    case None =>
      var a := s + Heading(s, ns);
      HeadingEndures(s, ns, n);
      EnduresOne(Current(None, a), e, n);
      EnduresConcat(None, a, [e], n);
    case Some(at) =>
      var a, b := s[..at], s[at..];
      assert a + b == s;
      EnduresConcat(None, a, b, n);
      EnduresOne(Current(None, a), e, n);
      EnduresConcat(None, a, [e], n);
      EntryKeepsSection(a, e);
      EnduresConcat(None, a + [e], b, n);
  }

  lemma SetEndures(s: seq<Line>, k: Key, t: Type, l: Literal, n: nat)
    requires Printable(s) && Endures(None, s, n)
    ensures Endures(None, SetLines(s, k, t, l), n)
  {
    hide Find, Endures, Inserted, Render, NewEntry;
    match Find(s, k)
    case Some(i) => ReplaceEndures(s, i, Render(s[i], t, l), n);
    case None =>
      NewEntryName(k.name);
      InsertEndures(s, k.ns, Render(NewEntry(k.name), t, l), n);
  }

  /** Every call but a restart leaves the list as enduring as it was; a restart uses up one
      carriage return of each line, if the file was written. */
  lemma StepEndures(im: Image, written: bool, op: Op, n: nat)
    requires Coherent(None, im.lines) && Printable(im.lines) && InStep(im, written) && ValidOp(op)
    requires Endures(None, im.lines, if op.Restart? && written then n + 1 else n)
    ensures Endures(None, Step(im, op).lines, n)
  {
    hide Coherent, SetLines, Removed, Erased, Load, Save, Settable, Reserved, Endures;
    match op
    case Set(k, t, l) => SetEndures(im.lines, k, t, l, n);
    case EraseKey(k) => RemoveEndures(im.lines, k.ns, Some(k.name), n);
    case EraseAll(ns) => RemoveEndures(im.lines, ns, None, n);
    case EraseFlash => EraseEndures(im.lines, Reserved(), n);
    case Commit =>
    case Restart =>
      if written {
        EnduresMore(None, im.lines, n);
        ReloadKeepsMeaning(im.lines);
      }
  }

  // ----- no call makes a line that ends in a carriage return

  lemma {:induction false} RemoveKeepsReturns(s: seq<Line>, ns: Text, key: Option<Text>)
    requires NoReturns(s)
    ensures NoReturns(Removed(s, ns, key))
  {
    if s != [] { RemoveKeepsReturns(Front(s), ns, key); }
  }

  lemma {:induction false} EraseKeepsReturns(s: seq<Line>, reserved: Text)
    requires NoReturns(s)
    ensures NoReturns(Erased(s, reserved))
  {
    if s != [] { EraseKeepsReturns(Front(s), reserved); }
  }

  lemma SuffixReturn(text: Text, i: nat)
    requires i <= |text| && !EndsInReturn(text)
    ensures !EndsInReturn(text[i..])
  {
  }

  lemma InsertKeepsReturns(s: seq<Line>, ns: Text, e: Line)
    requires NoReturns(s) && NoNul(ns) && !EndsInReturn(e.text)
    ensures NoReturns(Inserted(s, ns, e))
  {
    hide SectionText, EndsInReturn, InsertPoint;
    SectionIsLine(ns);
    assert !EndsInReturn([]) by { BlankIsPlain(); }
  }

  lemma BlankIsPlain()
    ensures !EndsInReturn([])
  {
  }

  lemma SetKeepsReturns(s: seq<Line>, k: Key, t: Type, l: Literal)
    requires Coherent(None, s) && Printable(s) && NoReturns(s) && ValidKey(k) && Settable(t, l)
    ensures NoReturns(SetLines(s, k, t, l))
  {
    hide Coherent, Find, Render, NewEntry, Inserted, EndsInReturn, LineText, Storable, CheckType;
    match Find(s, k)
    case Some(i) =>
      CoherentSplit(s, i);
      RenderIsLine(s[i], t, l);
      SuffixReturn(s[i].text, s[i].valueEnd);
    case None =>
      NewEntryName(k.name);
      NewEntryIsLine(k.name);
      RenderIsLine(NewEntry(k.name), t, l);
      BlankIsPlain();
      InsertKeepsReturns(s, k.ns, Render(NewEntry(k.name), t, l));
  }

  lemma {:induction false} PlainEndures(cur: Option<Text>, s: seq<Line>, n: nat)
    requires NoReturns(s)
    ensures Endures(cur, s, n)
  {
    if s != [] { PlainEndures(cur, Front(s), n); }
  }

  lemma StripKeepsBound(s: seq<Line>)
    ensures Bound(StripAll(s)) == Bound(s)
  {
    hide BindFrom;
    StripKeepsBindings(None, map[], s);
  }

  /** A restart of a file that was written. */
  lemma ReloadRefines(s: seq<Line>)
    requires Coherent(None, s) && Endures(None, s, 1)
    ensures Coherent(None, Load(Save(s))) && Bound(Load(Save(s))) == Bound(s)
    ensures NoReturns(s) ==> NoReturns(Load(Save(s)))
  {
    hide Coherent, Bound, NoReturns, Load, Save, Endures;
    LoadCoherent(Save(s));
    ReloadExact(s);
    ReloadKeepsMeaning(s);
    StripKeepsBound(s);
  }

  /** Erasing a key does to the map what it should, whether or not it is bound. */
  lemma EraseKeyRefines(im: Image, k: Key)
    requires Coherent(None, im.lines) && Printable(im.lines)
    ensures var s := Step(im, EraseKey(k)).lines;
            && s == Removed(im.lines, k.ns, Some(k.name))
            && Coherent(None, s) && (NoReturns(im.lines) ==> NoReturns(s)) && Bound(s) == Bound(im.lines) - {k}
  {
    hide Coherent, Bound, NoReturns, Removed, Load, Save;
    RemoveCoherent(im.lines, k.ns, Some(k.name));
    RemoveUnbinds(im.lines, k.ns, Some(k.name));
    RemovedSome(im.lines, k.ns, Some(k.name));
    if NoReturns(im.lines) { RemoveKeepsReturns(im.lines, k.ns, Some(k.name)); }
    assert forall j | j in Bound(im.lines) :: Hit(j, k.ns, Some(k.name)) <==> j == k;
    assert Without(Bound(im.lines), k.ns, Some(k.name)) == Bound(im.lines) - {k};
  }

  /** Every call keeps the agreement of lines, texts and file and does to the map what it
      should; so does a restart, if the file was not written, or no raw line reads as an
      entry or a section without the carriage return it ends in. */
  lemma StepRefines(im: Image, written: bool, op: Op)
    requires Coherent(None, im.lines) && InStep(im, written) && ValidOp(op)
    requires op.Restart? && written ==> Endures(None, im.lines, 1)
    ensures Printable(im.lines)
    ensures Coherent(None, Step(im, op).lines) && InStep(Step(im, op), Written(im, written, op))
    ensures NoReturns(im.lines) ==> NoReturns(Step(im, op).lines)
    ensures Bound(Step(im, op).lines) == StepMap(Bound(im.lines), op)
  {
    hide Coherent, Bound, NoReturns, SetLines, Removed, Erased, Load, Save, Settable, Reserved, Endures;
    CoherentPrintable(im.lines);
    match op
    case Set(k, t, l) =>
      SetCoherent(im.lines, k, t, l);
      SetBinds(im.lines, k, t, l);
      if NoReturns(im.lines) { SetKeepsReturns(im.lines, k, t, l); }
    case EraseKey(k) => EraseKeyRefines(im, k);
    case EraseAll(ns) =>
      RemoveCoherent(im.lines, ns, None);
      RemoveUnbinds(im.lines, ns, None);
      if NoReturns(im.lines) { RemoveKeepsReturns(im.lines, ns, None); }
    case EraseFlash =>
      EraseCoherent(im.lines, Reserved());
      EraseKeepsReserved(im.lines, Reserved());
      if NoReturns(im.lines) { EraseKeepsReturns(im.lines, Reserved()); }
    case Commit =>
    case Restart =>
      if written { ReloadRefines(im.lines); }
  }

  // ----- runs

  predicate CanRun(im: Image, ops: seq<Op>)
    decreases |ops|
  {
    ops == [] || (Printable(im.lines) && ValidOp(ops[0]) && CanRun(Step(im, ops[0]), ops[1..]))
  }

  function After(im: Image, ops: seq<Op>): Image
    requires CanRun(im, ops)
    decreases |ops|
  {
    if ops == [] then im else After(Step(im, ops[0]), ops[1..])
  }

  function RunMap(m: Bindings, ops: seq<Op>): Bindings
    decreases |ops|
  {
    if ops == [] then m else RunMap(StepMap(m, ops[0]), ops[1..])
  }

  /** The restarts of a run before which the file was written since it was loaded. */
  function Rewrites(im: Image, written: bool, ops: seq<Op>): nat
    requires CanRun(im, ops)
    decreases |ops|
  {
    if ops == [] then 0
    else
      (if ops[0].Restart? && written then 1 else 0)
      + Rewrites(Step(im, ops[0]), Written(im, written, ops[0]), ops[1..])
  }

  /** Over every run of calls and restarts the file is a map, as long as its lines endure
      the restarts that follow a write. */
  lemma {:induction false} RunRefines(im: Image, written: bool, ops: seq<Op>)
    requires Coherent(None, im.lines) && InStep(im, written) && CanRun(im, ops)
    requires Endures(None, im.lines, Rewrites(im, written, ops))
    ensures var s := After(im, ops).lines;
            && Coherent(None, s) && Bound(s) == RunMap(Bound(im.lines), ops)
            && (NoReturns(im.lines) ==> Load(Save(s)) == s)
    decreases |ops|
  {
    hide Coherent, Bound, NoReturns, Step, StepMap, Load, Save, Endures, Printable, ValidOp, InStep, Written;
    if ops == [] {
      ReloadExact(im.lines);
    } else {
      var op, n := ops[0], Rewrites(Step(im, ops[0]), Written(im, written, ops[0]), ops[1..]);
      if op.Restart? && written { EnduresMore(None, im.lines, n); }
      StepRefines(im, written, op);
      StepEndures(im, written, op, n);
      RunRefines(Step(im, op), Written(im, written, op), ops[1..]);
    }
  }

  /** From any file: loaded, and then called and restarted. */
  lemma FileRefines(f: seq<byte>, ops: seq<Op>)
    requires CanRun(Image(Load(f), f), ops) && Endures(None, Load(f), Rewrites(Image(Load(f), f), false, ops))
    ensures Bound(After(Image(Load(f), f), ops).lines) == RunMap(Bound(Load(f)), ops)
  {
    hide Coherent, Bound, Load, Endures;
    LoadCoherent(f);
    RunRefines(Image(Load(f), f), false, ops);
  }

  /** A run in which no restart follows a write asks nothing of the lines, and lines that
      end in no carriage return endure every run. */
  lemma EnduresOften(im: Image, written: bool, ops: seq<Op>)
    requires CanRun(im, ops)
    ensures Rewrites(im, written, ops) == 0 ==> Endures(None, im.lines, Rewrites(im, written, ops))
    ensures NoReturns(im.lines) ==> Endures(None, im.lines, Rewrites(im, written, ops))
  {
    hide Endures, CanRun, Rewrites;
    EnduresNone(None, im.lines);
    if NoReturns(im.lines) { PlainEndures(None, im.lines, Rewrites(im, written, ops)); }
  }

  /** A restart of a file nobody has written changes nothing. */
  lemma RestartAlone(im: Image)
    requires InStep(im, false) && Printable(im.lines)
    ensures Step(im, Restart) == im
  {
    hide Load;
  }

  // ----- writing and restarting, over and over

  /** The lines are written as they are, and loaded at the next start. */
  function Cycle(im: Image): Image
    requires Printable(im.lines)
  {
    Step(Step(im, Commit), Restart)
  }

  /** Each of `n` such cycles leaves all but the carriage returns as it was. */
  predicate CyclesKeep(im: Image, n: nat)
    decreases n
  {
    n == 0 || (Printable(im.lines) && Cycle(im).lines == StripAll(im.lines) && CyclesKeep(Cycle(im), n - 1))
  }

  lemma {:induction false} CyclesExact(im: Image, n: nat)
    requires Coherent(None, im.lines)
    ensures CyclesKeep(im, n) <==> Endures(None, im.lines, n)
    decreases n
  {
    hide Coherent, Endures, Load, Save, StripAll, Printable;
    if n == 0 {
      EnduresNone(None, im.lines);
    } else {
      CoherentPrintable(im.lines);
      ReloadKeepsMeaning(im.lines);
      EnduresMore(None, im.lines, n - 1);
      LoadCoherent(Save(im.lines));
      CyclesExact(Cycle(im), n - 1);
    }
  }
}
