/** The file of idf_compat/src/nvs.c: loading, saving, what every line list in memory
    satisfies, and what becomes of the lines when the file that was saved is loaded again. */
module NvsFile {
  import opened Prelude
  import opened NvsText
  import opened NvsValue
  import opened NvsLine
  import opened NvsLines

  // ----- the cached fields agree with the text

  /** A line as `ensure_loaded` keeps it: an entry outside every section is only text. */
  function Classify(cur: Option<Text>, text: Text): (l: Line)
    ensures l.text == text
  {
    var l := ParseLine(text);
    if l.Entry? && cur.None? then Raw(text) else l
  }

  /** Every line is what reading its text at that place gives; so its cached fields are
      those of `parse_line`, and every entry lies under a section. */
  predicate Coherent(cur: Option<Text>, s: seq<Line>) {
    s == [] || (Coherent(cur, Front(s)) && Agrees(Current(cur, Front(s)), Last(s)))
  }

  predicate Agrees(cur: Option<Text>, l: Line) {
    l == Classify(cur, l.text) && LineText(l.text)
  }

  lemma {:induction false} CoherentConcat(cur: Option<Text>, s: seq<Line>, t: seq<Line>)
    ensures Coherent(cur, s + t) <==> Coherent(cur, s) && Coherent(Current(cur, s), t)
  {
    hide Agrees;
    if t == [] {
      assert s + t == s;
    } else {
      FrontOfConcat(s, t);
      CurrentConcat(cur, s, Front(t));
      CoherentConcat(cur, s, Front(t));
    }
  }

  lemma CoherentOne(cur: Option<Text>, l: Line)
    ensures Coherent(cur, [l]) <==> Agrees(cur, l)
    ensures Current(cur, [l]) == if l.Section? then Some(l.name) else cur
  {
    assert Front([l]) == [];
  }

  lemma CoherentSplit(s: seq<Line>, i: nat)
    requires i < |s| && Coherent(None, s)
    ensures Coherent(None, s[..i]) && Agrees(Current(None, s[..i]), s[i]) && Coherent(Current(None, s[..i + 1]), s[i + 1..])
  {
    assert s == s[..i + 1] + s[i + 1..];
    CoherentConcat(None, s[..i + 1], s[i + 1..]);
    TakeNext(s, i);
  }

  predicate Printable(s: seq<Line>) {
    forall i | 0 <= i < |s| && s[i].Entry? :: s[i].keyEnd <= |s[i].text| && s[i].valueEnd <= |s[i].text|
  }

  lemma CoherentEntry(s: seq<Line>, i: nat)
    requires i < |s| && Coherent(None, s) && s[i].Entry?
    ensures ParseLine(s[i].text) == s[i] && s[i].keyEnd <= |s[i].text| && s[i].valueEnd <= |s[i].text|
    ensures Current(None, s[..i]).Some? && CheckType(s[i].vtype, s[i].lit) && Normal(s[i].lit)
  {
    hide ParseLine, KeyPrefix, RestIsBlank, CheckType, Normal;
    CoherentSplit(s, i);
    EntryShape(s[i].text);
  }

  lemma CoherentPrintable(s: seq<Line>)
    requires Coherent(None, s)
    ensures Printable(s)
  {
    hide Coherent;
    forall i | 0 <= i < |s| && s[i].Entry? ensures s[i].keyEnd <= |s[i].text| && s[i].valueEnd <= |s[i].text| {
      CoherentEntry(s, i);
    }
  }

  // ----- every operation keeps the agreement

  predicate ValidKey(k: Key) {
    NoNul(k.ns) && NoNul(k.name)
  }

  /** What the setters pass: a value of its type. */
  predicate Settable(t: Type, l: Literal) {
    t != NoType && CheckType(t, l) && Storable(l)
  }

  lemma BlankLine(cur: Option<Text>)
    ensures Agrees(cur, Raw([]))
  {
  }

  lemma HeadingCoherent(s: seq<Line>, ns: Text)
    requires Coherent(None, s) && NoNul(ns)
    ensures Coherent(None, s + Heading(s, ns))
  {
    hide ParseLine, SectionText;
    var sec := Section(SectionText(ns), ns);
    var blank := if s != [] && Last(s).text != [] then [Raw([])] else [];
    assert s + Heading(s, ns) == s + blank + [sec];
    SectionReads(ns);
    SectionIsLine(ns);
    FrontLast(s + blank, sec);
    if blank != [] {
      BlankLine(Current(None, s));
      FrontLast(s, Raw([]));
    } else {
      assert s + blank == s;
    }
  }

  lemma InsertCoherent(s: seq<Line>, ns: Text, e: Line)
    requires Coherent(None, s) && NoNul(ns) && e.Entry? && ParseLine(e.text) == e && LineText(e.text)
    ensures Coherent(None, Inserted(s, ns, e))
  {
    hide ParseLine, Heading, InsertPoint, Current, Coherent;
    match InsertPoint(s, ns)
    case None =>
      var a := s + Heading(s, ns);
      HeadingCoherent(s, ns);
      HeadingOpens(s, ns);
      CoherentOne(Some(ns), e);
      CoherentConcat(None, a, [e]);
    case Some(at) =>
      var a, b := s[..at], s[at..];
      InsertPointIsIn(s, ns);
      assert a + b == s;
      CoherentConcat(None, a, b);
      CoherentOne(Some(ns), e);
      CoherentConcat(Some(ns), [e], b);
      CoherentConcat(None, a, [e] + b);
      assert a + ([e] + b) == a + [e] + b;
  }

  lemma ReplaceCoherent(s: seq<Line>, i: nat, e: Line)
    requires i < |s| && Coherent(None, s) && s[i].Entry? && e.Entry? && ParseLine(e.text) == e && LineText(e.text)
    ensures Coherent(None, s[i := e])
  {
    hide ParseLine, Current, Coherent;
    CoherentSplit(s, i);
    CoherentEntry(s, i);
    TakeNext(s, i);
    var cur, b := Current(None, s[..i]), s[i + 1..];
    EntryKeepsSection(s[..i], s[i]);
    CoherentOne(cur, e);
    CoherentConcat(cur, [e], b);
    CoherentConcat(None, s[..i], [e] + b);
    assert s[..i] + ([e] + b) == s[i := e];
  }

  lemma SetCoherent(s: seq<Line>, k: Key, t: Type, l: Literal)
    requires Coherent(None, s) && ValidKey(k) && Settable(t, l)
    ensures Printable(s) && Coherent(None, SetLines(s, k, t, l))
  {
    hide ParseLine, Current, Coherent, Find, Inserted, Storable, CheckType, Render, NewEntry;
    CoherentPrintable(s);
    match Find(s, k)
    case Some(i) =>
      CoherentEntry(s, i);
      CoherentSplit(s, i);
      RenderReads(s[i], t, l);
      RenderIsLine(s[i], t, l);
      ReplaceCoherent(s, i, Render(s[i], t, l));
    case None =>
      NewEntryName(k.name);
      NewEntryReads(k.name, t, l);
      NewEntryIsLine(k.name);
      RenderIsLine(NewEntry(k.name), t, l);
      InsertCoherent(s, k.ns, Render(NewEntry(k.name), t, l));
  }

  lemma NewEntryIsLine(key: Text)
    requires NoNul(key)
    ensures LineText(NewEntry(key).text) && NewEntry(key).text[NewEntry(key).valueEnd..] == []
  {
    NameIsLine(key);
  }

  lemma {:induction false} RemoveCoherent(s: seq<Line>, ns: Text, key: Option<Text>)
    requires Coherent(None, s)
    ensures Coherent(None, Removed(s, ns, key))
  {
    hide Agrees;
    if s != [] {
      RemoveCoherent(Front(s), ns, key);
      RemoveUnbinds(Front(s), ns, key);
      FrontLast(Removed(Front(s), ns, key), Last(s));
    }
  }

  lemma {:induction false} EraseCoherent(s: seq<Line>, reserved: Text)
    requires Coherent(None, s)
    ensures Coherent(None, Erased(s, reserved))
  {
    hide ParseLine;
    if s != [] {
      EraseCoherent(Front(s), reserved);
      ErasedSection(Front(s), reserved);
      FrontLast(Erased(Front(s), reserved), Last(s));
    }
  }

  // ----- the file

  /** A C string ends at the first NUL. */
  function UptoNul(f: seq<byte>): (r: seq<byte>)
    ensures r <= f && NoNul(r)
  {
    if f == [] || f[0] == 0 then [] else [f[0]] + UptoNul(f[1..])
  }

  function NewlineAt(f: seq<byte>): (n: nat)
    ensures n <= |f| && (forall i | 0 <= i < n :: f[i] != NEWLINE) && (n < |f| ==> f[n] == NEWLINE)
  {
    if f == [] || f[0] == NEWLINE then 0 else 1 + NewlineAt(f[1..])
  }

  /** The texts of the lines of a file without NUL. */
  function Texts(f: seq<byte>): seq<Text>
    decreases |f|
  {
    if f == [] then []
    else
      var n := NewlineAt(f);
      [Strip(f[..n])] + if n == |f| then [] else Texts(f[n + 1..])
  }

  function ClassifyAll(cur: Option<Text>, texts: seq<Text>): (r: seq<Line>)
    ensures |r| == |texts| && forall i | 0 <= i < |r| :: r[i].text == texts[i]
    decreases |texts|
  {
    if texts == [] then []
    else
      var l := Classify(cur, texts[0]);
      [l] + ClassifyAll(if l.Section? then Some(l.name) else cur, texts[1..])
  }

  /** `ensure_loaded` */
  function Load(f: seq<byte>): seq<Line> {
    ClassifyAll(None, Texts(UptoNul(f)))
  }

  /** `save_unlocked` */
  function Save(s: seq<Line>): seq<byte> {
    if s == [] then [] else s[0].text + [NEWLINE] + Save(s[1..])
  }

  predicate AllLines(texts: seq<Text>) {
    forall i | 0 <= i < |texts| :: LineText(texts[i])
  }

  lemma {:induction false} TextsAreLines(f: seq<byte>)
    requires NoNul(f)
    ensures AllLines(Texts(f))
    decreases |f|
  {
    if f != [] {
      var n := NewlineAt(f);
      if n < |f| { TextsAreLines(f[n + 1..]); }
    }
  }

  lemma {:induction false} ClassifiedCoherent(cur: Option<Text>, texts: seq<Text>)
    requires AllLines(texts)
    ensures Coherent(cur, ClassifyAll(cur, texts))
    decreases |texts|
  {
    hide ParseLine;
    if texts != [] {
      var l := Classify(cur, texts[0]);
      var next := if l.Section? then Some(l.name) else cur;
      ClassifiedCoherent(next, texts[1..]);
      CoherentOne(cur, l);
      CoherentConcat(cur, [l], ClassifyAll(next, texts[1..]));
    }
  }

  /** Whatever the file holds, what is loaded agrees with its texts. */
  lemma LoadCoherent(f: seq<byte>)
    ensures Coherent(None, Load(f))
  {
    hide Texts, ClassifyAll;
    TextsAreLines(UptoNul(f));
    ClassifiedCoherent(None, Texts(UptoNul(f)));
  }

  // ----- loading what was saved

  function Stripped(s: seq<Line>): (r: seq<Text>)
    ensures |r| == |s| && forall i | 0 <= i < |s| :: r[i] == Strip(s[i].text)
  {
    seq(|s|, i requires 0 <= i < |s| => Strip(s[i].text))
  }

  lemma NewlineFound(t: Text, rest: seq<byte>)
    requires LineText(t)
    ensures NewlineAt(t + [NEWLINE] + rest) == |t|
  {
    var f := t + [NEWLINE] + rest;
    assert forall i | 0 <= i < |t| :: f[i] == t[i];
    assert f[|t|] == NEWLINE;
  }

  lemma {:induction false} SavedTexts(cur: Option<Text>, s: seq<Line>)
    requires Coherent(cur, s)
    ensures NoNul(Save(s)) && Texts(Save(s)) == Stripped(s)
    decreases |s|
  {
    if s == [] {
    } else {
      assert s == [s[0]] + s[1..];
      CoherentConcat(cur, [s[0]], s[1..]);
      CoherentOne(cur, s[0]);
      SavedTexts(Current(cur, [s[0]]), s[1..]);
      SavedStep(s);
    }
  }

  lemma {:induction false} TextsStep(t: Text, rest: seq<byte>)
    requires LineText(t)
    ensures Texts(t + [NEWLINE] + rest) == [Strip(t)] + Texts(rest)
  {
    hide NewlineAt, Strip, LineText;
    var f := t + [NEWLINE] + rest;
    NewlineFound(t, rest);
    assert f[..|t|] == t && f[|t| + 1..] == rest;
  }

  lemma {:induction false} SavedStep(s: seq<Line>)
    requires s != [] && LineText(s[0].text) && NoNul(Save(s[1..])) && Texts(Save(s[1..])) == Stripped(s[1..])
    ensures NoNul(Save(s)) && Texts(Save(s)) == Stripped(s)
  {
    hide Texts, Strip;
    TextsStep(s[0].text, Save(s[1..]));
    assert [Strip(s[0].text)] + Stripped(s[1..]) == Stripped(s);
  }

  lemma {:induction false} NoNulWhole(f: seq<byte>)
    requires NoNul(f)
    ensures UptoNul(f) == f
  {
    if f != [] { NoNulWhole(f[1..]); }
  }

  function PlainTexts(s: seq<Line>): seq<Text> {
    seq(|s|, i requires 0 <= i < |s| => s[i].text)
  }

  lemma {:induction false} ClassifyAgain(cur: Option<Text>, s: seq<Line>)
    requires Coherent(cur, s)
    ensures ClassifyAll(cur, PlainTexts(s)) == s
    decreases |s|
  {
    hide ParseLine;
    if s != [] {
      assert s == [s[0]] + s[1..];
      CoherentConcat(cur, [s[0]], s[1..]);
      CoherentOne(cur, s[0]);
      ClassifyAgain(Current(cur, [s[0]]), s[1..]);
      assert PlainTexts(s)[1..] == PlainTexts(s[1..]);
    }
  }

  predicate NoReturns(s: seq<Line>) {
    forall i | 0 <= i < |s| :: !EndsInReturn(s[i].text)
  }

  /** Loading what was saved gives back the same lines exactly when no text ends in a
      carriage return: one is taken off every line that is loaded. */
  lemma ReloadExact(s: seq<Line>)
    requires Coherent(None, s)
    ensures Load(Save(s)) == s <==> NoReturns(s)
  {
    hide Texts, Coherent, Save, ClassifyAll;
    SavedTexts(None, s);
    NoNulWhole(Save(s));
    if NoReturns(s) {
      ClassifyAgain(None, s);
      assert Stripped(s) == PlainTexts(s);
    } else {
      var i :| 0 <= i < |s| && EndsInReturn(s[i].text);
      assert Load(Save(s))[i].text == Strip(s[i].text) != s[i].text;
    }
  }

  lemma NoTexts()
    ensures Texts([]) == []
  {
  }

  lemma LoadOne(t: Text)
    requires LineText(t)
    ensures Load(t + [NEWLINE]) == ClassifyAll(None, [Strip(t)])
  {
    hide ClassifyAll, Texts, Strip;
    var f := t + [NEWLINE];
    NoNulWhole(f);
    TextsStep(t, []);
    assert f + [] == f;
    NoTexts();
    assert [Strip(t)] + [] == [Strip(t)];
  }

  // ----- saving what was loaded

  function Lines(texts: seq<Text>): seq<byte> {
    if texts == [] then [] else texts[0] + [NEWLINE] + Lines(texts[1..])
  }

  lemma {:induction false} SavedLines(cur: Option<Text>, texts: seq<Text>)
    ensures Save(ClassifyAll(cur, texts)) == Lines(texts)
    decreases |texts|
  {
    hide Classify;
    if texts != [] {
      var l := Classify(cur, texts[0]);
      var next := if l.Section? then Some(l.name) else cur;
      SavedLines(next, texts[1..]);
      assert ClassifyAll(cur, texts)[1..] == ClassifyAll(next, texts[1..]);
    }
  }

  /** A carriage return stands directly before a newline. */
  predicate HasCrlf(f: seq<byte>) {
    exists i | 0 <= i < |f| - 1 :: f[i] == RETURN && f[i + 1] == NEWLINE
  }

  predicate Terminated(f: seq<byte>) {
    f == [] || f[|f| - 1] == NEWLINE
  }

  /** A first line without a carriage return at its end changes nothing about the rest. */
  lemma CrlfInRest(t: Text, rest: seq<byte>)
    requires LineText(t) && !EndsInReturn(t)
    ensures var f := t + [NEWLINE] + rest;
            (HasCrlf(f) <==> HasCrlf(rest)) && (Terminated(f) <==> Terminated(rest))
  {
    var f, n := t + [NEWLINE] + rest, |t|;
    if i :| 0 <= i < |f| - 1 && f[i] == RETURN && f[i + 1] == NEWLINE {
      assert i > n;
      assert rest[i - n - 1] == RETURN && rest[i - n - 1 + 1] == NEWLINE;
    }
    if i :| 0 <= i < |rest| - 1 && rest[i] == RETURN && rest[i + 1] == NEWLINE {
      assert f[i + n + 1] == RETURN && f[i + n + 1 + 1] == NEWLINE;
    }
    if rest != [] { assert f[|f| - 1] == rest[|rest| - 1]; }
  }

  lemma LastLineUnended(f: seq<byte>)
    requires f != [] && forall i | 0 <= i < |f| :: f[i] != NEWLINE
    ensures !Terminated(f) && Strip(f) + [NEWLINE] != f
  {
    assert (Strip(f) + [NEWLINE])[|Strip(f)|] == NEWLINE;
  }

  /** A line that lost its carriage return is not the one that was read. */
  lemma LostReturn(t: Text, rest: seq<byte>, more: seq<byte>)
    requires LineText(t) && EndsInReturn(t)
    ensures var f := t + [NEWLINE] + rest; HasCrlf(f) && Strip(t) + [NEWLINE] + more != f
  {
    var f, n := t + [NEWLINE] + rest, |t| - 1;
    assert f[n] == RETURN && f[n + 1] == NEWLINE;
    assert (Strip(t) + [NEWLINE] + more)[n] == NEWLINE;
  }

  lemma SamePrefix(t: Text, a: seq<byte>, b: seq<byte>)
    ensures t + [NEWLINE] + a == t + [NEWLINE] + b <==> a == b
  {
    var n := |t| + 1;
    assert (t + [NEWLINE] + a)[n..] == a && (t + [NEWLINE] + b)[n..] == b;
  }

  lemma {:induction false} LinesExact(f: seq<byte>)
    requires NoNul(f)
    ensures Lines(Texts(f)) == f <==> Terminated(f) && !HasCrlf(f)
    decreases |f|
  {
    hide NewlineAt, HasCrlf, Terminated, Strip, EndsInReturn;
    if f == [] {
      EmptyIsExact();
    } else {
      var n := NewlineAt(f);
      var t := f[..n];
      if n == |f| {
        LastLineUnended(f);
        assert t == f && Texts(f) == [Strip(t)];
        LinesOne(Strip(t));
      } else {
        var rest := f[n + 1..];
        assert f == t + [NEWLINE] + rest;
        LinesFirst(Strip(t), Texts(rest));
        if EndsInReturn(t) {
          LostReturn(t, rest, Lines(Texts(rest)));
        } else {
          CrlfInRest(t, rest);
          LinesExact(rest);
          StripPlain(t);
          SamePrefix(t, Lines(Texts(rest)), rest);
        }
      }
    }
  }

  lemma EmptyIsExact()
    ensures Terminated([]) && !HasCrlf([])
  {
  }

  lemma StripPlain(t: Text)
    requires !EndsInReturn(t)
    ensures Strip(t) == t
  {
  }

  lemma LinesOne(t: Text)
    ensures Lines([t]) == t + [NEWLINE]
  {
    assert [t][1..] == [];
  }

  lemma LinesFirst(t: Text, texts: seq<Text>)
    ensures Lines([t] + texts) == t + [NEWLINE] + Lines(texts)
  {
    assert ([t] + texts)[1..] == texts;
  }

  /** Saving what was loaded gives back the file byte for byte exactly when it holds no NUL,
      its last line is ended, and no line ends in a carriage return. */
  lemma SaveLoadExact(f: seq<byte>)
    ensures Save(Load(f)) == f <==> NoNul(f) && Terminated(f) && !HasCrlf(f)
  {
    hide Texts, ClassifyAll, Save, Terminated, HasCrlf;
    SavedLines(None, Texts(UptoNul(f)));
    if NoNul(f) {
      NoNulWhole(f);
      LinesExact(f);
    } else {
      LoadCoherent(f);
      SavedTexts(None, Load(f));
    }
  }

  /** A file of one line with a carriage return is written back without it. */
  lemma CrlfIsLost()
    ensures Save(Load([97, RETURN, NEWLINE])) == [97, NEWLINE]
  {
    hide ClassifyAll, Save, Texts, UptoNul;
    var t: Text := [97, RETURN];
    LoadOne(t);
    assert t + [NEWLINE] == [97, RETURN, NEWLINE] && Strip(t) == [97];
    SavedLines(None, [[97]]);
    LinesOne([97]);
  }

  // ----- what reloading makes of the lines

  function StripLine(l: Line): Line {
    l.(text := Strip(l.text))
  }

  /** The same lines, with one carriage return off the end of each text. */
  function StripAll(s: seq<Line>): (r: seq<Line>)
    ensures |r| == |s| && forall i | 0 <= i < |s| :: r[i] == StripLine(s[i])
  {
    seq(|s|, i requires 0 <= i < |s| => StripLine(s[i]))
  }

  /** A line that is only text stays so while up to `n` carriage returns come off its end. */
  predicate Stays(cur: Option<Text>, text: Text, n: nat)
    decreases n
  {
    n == 0 || !EndsInReturn(text) || (Classify(cur, Strip(text)).Raw? && Stays(cur, Strip(text), n - 1))
  }

  /** No raw line reads as an entry or a section once up to `n` carriage returns are off. */
  predicate Endures(cur: Option<Text>, s: seq<Line>, n: nat) {
    s == [] || (Endures(cur, Front(s), n) && (Last(s).Raw? ==> Stays(Current(cur, Front(s)), Last(s).text, n)))
  }

  lemma {:induction false} ClassifyOneMore(cur: Option<Text>, texts: seq<Text>, t: Text)
    ensures ClassifyAll(cur, texts + [t]) ==
            ClassifyAll(cur, texts) + [Classify(Current(cur, ClassifyAll(cur, texts)), t)]
    decreases |texts|
  {
    hide Classify, Current;
    if texts == [] {
      assert texts + [t] == [t] && [t][1..] == [];
      CurrentNothing(cur);
    } else {
      var l := Classify(cur, texts[0]);
      var next := if l.Section? then Some(l.name) else cur;
      assert (texts + [t])[1..] == texts[1..] + [t];
      ClassifyOneMore(next, texts[1..], t);
      CoherentOne(cur, l);
      CurrentConcat(cur, [l], ClassifyAll(next, texts[1..]));
    }
  }

  lemma CurrentNothing(cur: Option<Text>)
    ensures Current(cur, []) == cur
  {
  }

  /** An entry or a section that ends in a carriage return does so in a comment; a raw line
      stays raw exactly if it is one without it. */
  lemma StripClassified(cur: Option<Text>, l: Line)
    requires Agrees(cur, l)
    ensures Classify(cur, Strip(l.text)) == StripLine(l) <==> (l.Raw? ==> Stays(cur, l.text, 1))
  {
    hide ParseLine, LineText, EndsInReturn;
    if l.Entry? {
      EntryStripped(l.text);
    } else if l.Section? {
      SectionStripped(l.text);
    } else {
      assert Stays(cur, Strip(l.text), 0);
    }
  }

  lemma {:induction false} StripKeepsSection(cur: Option<Text>, s: seq<Line>)
    ensures Current(cur, StripAll(s)) == Current(cur, s)
  {
    if s != [] {
      StripKeepsSection(cur, Front(s));
      assert Front(StripAll(s)) == StripAll(Front(s));
    }
  }

  lemma {:induction false} StripKeepsBindings(cur: Option<Text>, m: Bindings, s: seq<Line>)
    ensures BindFrom(cur, m, StripAll(s)) == BindFrom(cur, m, s)
  {
    hide Strip;
    if s != [] {
      StripKeepsBindings(cur, m, Front(s));
      StripKeepsSection(cur, Front(s));
      assert Front(StripAll(s)) == StripAll(Front(s));
    }
  }

  lemma LastPair<T>(a: seq<T>, x: T, b: seq<T>, y: T)
    requires |a| == |b|
    ensures a + [x] == b + [y] <==> a == b && x == y
  {
    if a + [x] == b + [y] {
      assert Front(a + [x]) == a && Front(b + [y]) == b && Last(a + [x]) == x && Last(b + [y]) == y;
    }
  }

  lemma {:induction false} ReclassifyExact(cur: Option<Text>, s: seq<Line>)
    requires Coherent(cur, s)
    ensures ClassifyAll(cur, Stripped(s)) == StripAll(s) <==> Endures(cur, s, 1)
  {
    hide Classify, Agrees, Strip, Stays, ClassifyAll, Current;
    if s == [] {
      assert Stripped(s) == [] && StripAll(s) == [];
      assert |ClassifyAll(cur, Stripped(s))| == 0;
    } else {
      var a, l := Front(s), Last(s);
      ReclassifyExact(cur, a);
      assert Stripped(s) == Stripped(a) + [Strip(l.text)];
      assert StripAll(s) == StripAll(a) + [StripLine(l)];
      ClassifyOneMore(cur, Stripped(a), Strip(l.text));
      var c := ClassifyAll(cur, Stripped(a));
      LastPair(c, Classify(Current(cur, c), Strip(l.text)), StripAll(a), StripLine(l));
      if c == StripAll(a) {
        StripKeepsSection(cur, a);
        StripClassified(Current(cur, a), l);
      }
    }
  }

  /** Loading what was saved takes a carriage return off each text and changes nothing
      else, exactly when no raw line becomes an entry or a section without it. */
  lemma ReloadKeepsMeaning(s: seq<Line>)
    requires Coherent(None, s)
    ensures Load(Save(s)) == StripAll(s) <==> Endures(None, s, 1)
  {
    hide Texts, Coherent, Save, ClassifyAll, Endures;
    SavedTexts(None, s);
    NoNulWhole(Save(s));
    ReclassifyExact(None, s);
  }

  /** A line of a file that becomes a section header once the file was saved and loaded. */
  lemma ReloadCounterexample()
    ensures var f, text := [LBRACKET, 97, RBRACKET, RETURN, RETURN, NEWLINE], [LBRACKET, 97, RBRACKET];
            Load(f) == [Raw(text + [RETURN])] && Load(Save(Load(f))) == [Section(text, [97])]
  {
    hide ParseLine, Texts, UptoNul, Save;
    var text := [LBRACKET, 97, RBRACKET];
    var u := text + [RETURN];
    assert u == [LBRACKET, 97, RBRACKET, RETURN];
    ReturnIsNoHeader();
    LoadOne(u + [RETURN]);
    assert Strip(u + [RETURN]) == u;
    ClassifySingle(None, u);
    assert u + [RETURN] + [NEWLINE] == [LBRACKET, 97, RBRACKET, RETURN, RETURN, NEWLINE];
    SaveOne(Raw(u));
    LoadOne(u);
    assert Strip(u) == text;
    assert text == SectionText([97]) by { assert IsBareKey([97]); }
    SectionReads([97]);
    ClassifySingle(None, text);
  }

  lemma ClassifySingle(cur: Option<Text>, t: Text)
    ensures ClassifyAll(cur, [t]) == [Classify(cur, t)]
  {
    assert [t][1..] == [];
  }

  lemma SaveOne(l: Line)
    ensures Save([l]) == l.text + [NEWLINE]
  {
    assert [l][1..] == [];
  }

  lemma ReturnIsNoHeader()
    ensures ParseLine([LBRACKET, 97, RBRACKET, RETURN]) == Raw([LBRACKET, 97, RBRACKET, RETURN])
  {
    var u := [LBRACKET, 97, RBRACKET, RETURN];
    assert SkipWs(u) == 0;
    assert u[1..] == [97, RBRACKET, RETURN] && u[2..] == [RBRACKET, RETURN] && u[3..] == [RETURN];
    assert SkipWs(u[1..]) == 0 && BareRun(u[2..]) == 0 && u[1..][1..] == u[2..] && BareRun(u[1..]) == 1;
    assert SkipWs(u[2..]) == 0 && !RestIsBlank(u[3..]);
  }

  // ----- saving and loading several times

  lemma StaysMore(cur: Option<Text>, text: Text, n: nat)
    ensures Stays(cur, text, n + 1) <==> Stays(cur, text, 1) && Stays(cur, Strip(text), n)
  {
    assert Stays(cur, Strip(text), 0);
  }

  lemma {:induction false} EnduresMore(cur: Option<Text>, s: seq<Line>, n: nat)
    ensures Endures(cur, s, n + 1) <==> Endures(cur, s, 1) && Endures(cur, StripAll(s), n)
  {
    hide Stays, Strip, Current;
    if s != [] {
      EnduresMore(cur, Front(s), n);
      StripKeepsSection(cur, Front(s));
      assert Front(StripAll(s)) == StripAll(Front(s));
      StaysMore(Current(cur, Front(s)), Last(s).text, n);
    }
  }

  lemma {:induction false} EnduresNone(cur: Option<Text>, s: seq<Line>)
    ensures Endures(cur, s, 0)
  {
    if s != [] { EnduresNone(cur, Front(s)); }
  }

  /** "idf_compat_sim" */
  function Reserved(): Text {
    [105, 100, 102, 95, 99, 111, 109, 112, 97, 116, 95, 115, 105, 109]
  }
}
