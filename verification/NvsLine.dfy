/** A line of the store of idf_compat/src/nvs.c: its text and what was read from it, what is
    printed for it, and that printing and reading are inverse whatever comment follows. */
module NvsLine {
  import opened Prelude
  import opened NvsText
  import opened NvsValue

  datatype Line =
    | Raw(text: seq<byte>)
    | Section(text: seq<byte>, name: seq<byte>)
    | Entry(text: seq<byte>, name: seq<byte>, keyEnd: nat, valueEnd: nat, vtype: Type, lit: Literal)

  // ----- reading

  /** An optional `: type` and the blanks after it. */
  function ParseType(s: seq<byte>): (r: Option<(Type, nat)>)
    ensures r.Some? ==> r.value.1 <= |s|
  {
    if s == [] || s[0] != COLON then Some((NoType, 0))
    else
      var a := 1 + SkipWs(s[1..]);
      var n := TypeRun(s[a..]);
      var t := TypeOf(s[a..][..n]);
      if t == NoType then None else Some((t, a + n + SkipWs(s[a + n..])))
  }

  /** An equals sign and a value of type `t`; nothing else but blanks and a comment. */
  function ParseEquals(s: seq<byte>, t: Type): (r: Option<(Literal, nat)>)
    ensures r.Some? ==> r.value.1 <= |s| && RestIsBlank(s[r.value.1..]) && CheckType(t, r.value.0) && Normal(r.value.0)
  {
    if s == [] || s[0] != EQUALS then None
    else
      var c := 1 + SkipWs(s[1..]);
      match ParseValue(s[c..])
      case None => None
      case Some((l, m)) => if RestIsBlank(s[c + m..]) && CheckType(t, l) then Some((l, c + m)) else None
  }

  /** What follows the key. */
  function ParseTail(s: seq<byte>): (r: Option<(Type, Literal, nat)>)
    ensures r.Some? ==> r.value.2 <= |s|
  {
    var a := SkipWs(s);
    match ParseType(s[a..])
    case None => None
    case Some((t, k)) =>
      match ParseEquals(s[a + k..], t)
      case None => None
      case Some((l, m)) => Some((t, l, a + k + m))
  }

  lemma TailShape(s: seq<byte>)
    requires ParseTail(s).Some?
    ensures var (t, l, n) := ParseTail(s).value; RestIsBlank(s[n..]) && CheckType(t, l) && Normal(l)
  {
    hide ParseType, ParseEquals, SkipWs, RestIsBlank, CheckType, Normal;
    var a := SkipWs(s);
    var (t, k) := ParseType(s[a..]).value;
    var m := ParseEquals(s[a + k..], t).value.1;
    assert s[a + k..][m..] == s[a + k + m..];
  }

  function ParseEntry(text: seq<byte>, p: nat): (l: Line)
    requires p <= |text|
    ensures l.text == text && !l.Section?
  {
    match ParseName(text[p..])
    case None => Raw(text)
    case Some((name, n)) =>
      match ParseTail(text[p + n..])
      case None => Raw(text)
      case Some((t, l, m)) => Entry(text, name, p + n, p + n + m, t, l)
  }

  function ParseSection(text: seq<byte>, p: nat): (l: Line)
    requires p <= |text|
    ensures l.text == text && !l.Entry?
  {
    var a := p + SkipWs(text[p..]);
    match ParseName(text[a..])
    case None => Raw(text)
    case Some((name, n)) =>
      var b := a + n + SkipWs(text[a + n..]);
      if b < |text| && text[b] == RBRACKET && RestIsBlank(text[b + 1..]) then Section(text, name) else Raw(text)
  }

  /** `parse_line`; a line it complains about is kept as text only. */
  function ParseLine(text: seq<byte>): (l: Line)
    ensures l.text == text
  {
    var p := SkipWs(text);
    if p == |text| || text[p] == HASH then Raw(text)
    else if text[p] == LBRACKET then ParseSection(text, p + 1)
    else ParseEntry(text, p)
  }

  // ----- printing

  /** What `entry_render` writes between the key and the old tail. */
  function TailText(t: Type, l: Literal): seq<byte> {
    (if t == NoType then [] else [COLON, SPACE] + TypeName(t)) + [SPACE, EQUALS, SPACE] + ValueText(l)
  }

  /** `entry_render`, with `t` and `l` already stored in the line. */
  function Render(e: Line, t: Type, l: Literal): (r: Line)
    requires e.Entry? && e.keyEnd <= |e.text| && e.valueEnd <= |e.text|
    ensures r.Entry? && r.name == e.name
  {
    var front := e.text[..e.keyEnd] + TailText(t, l);
    Entry(front + e.text[e.valueEnd..], e.name, e.keyEnd, |front|, t, l)
  }

  /** The line `set_value` makes for a key that has none, before it is rendered. */
  function NewEntry(key: seq<byte>): (l: Line) {
    Entry(NameText(key), key, |NameText(key)|, |NameText(key)|, NoType, Int(false, 0))
  }

  function SectionText(ns: seq<byte>): seq<byte> {
    [LBRACKET] + NameText(ns) + [RBRACKET]
  }

  // ----- the reader undoes the printer

  lemma {:induction false} SkipWsIs(s: seq<byte>, n: nat)
    requires n <= |s| && (forall i | 0 <= i < n :: IsWs(s[i])) && (n < |s| ==> !IsWs(s[n]))
    ensures SkipWs(s) == n
  {
    if n > 0 { SkipWsIs(s[1..], n - 1); }
  }

  lemma BlankEndsValue(rest: seq<byte>)
    requires RestIsBlank(rest)
    ensures EndsValue(rest)
  {
  }

  lemma ValueStart(l: Literal)
    ensures ValueText(l) != [] && !IsWs(ValueText(l)[0])
  {
    if l.Int? { assert IsDigit(Decimal(l.mag)[0]); }
  }

  lemma EqualsReads(t: Type, l: Literal, rest: seq<byte>)
    requires Storable(l) && CheckType(t, l) && RestIsBlank(rest)
    ensures ParseEquals([EQUALS, SPACE] + ValueText(l) + rest, t) == Some((l, 2 + |ValueText(l)|))
  {
    hide ParseValue, ValueText, RestIsBlank, SkipWs, Storable, CheckType;
    var s := [EQUALS, SPACE] + ValueText(l) + rest;
    ValueStart(l);
    BlankEndsValue(rest);
    SkipWsIs(s[1..], 1);
    assert s[2..] == ValueText(l) + rest;
    assert s[2 + |ValueText(l)|..] == rest;
    ValueRoundTrip(l, rest);
  }

  lemma DropDrop(text: seq<byte>, p: nat, n: nat)
    requires p + n <= |text|
    ensures text[p..][n..] == text[p + n..]
  {
  }

  /** `ParseType` by positions in the text. */
  lemma TypeAt(text: seq<byte>, p: nat, start: nat, end: nat)
    requires p < start <= end <= |text| && text[p] == COLON
    requires start == p + 1 + SkipWs(text[p + 1..]) && end == start + TypeRun(text[start..])
    ensures ParseType(text[p..]) ==
            var t := TypeOf(text[start..end]);
            if t == NoType then None else Some((t, end - p + SkipWs(text[end..])))
  {
    hide TypeOf, SkipWs, TypeRun;
    Slices(text, p, start, end);
  }

  lemma Slices(text: seq<byte>, p: nat, start: nat, end: nat)
    requires p < start <= end <= |text|
    ensures text[p..] != [] && text[p..][0] == text[p] && text[p..][1..] == text[p + 1..]
    ensures text[p..][start - p..] == text[start..] && text[p..][end - p..] == text[end..]
    ensures text[start..][..end - start] == text[start..end]
  {
  }

  lemma TypeReads(t: Type, rest: seq<byte>)
    requires t != NoType && rest != [] && rest[0] == SPACE && SkipWs(rest) == 1
    ensures ParseType([COLON, SPACE] + TypeName(t) + rest) == Some((t, 2 + |TypeName(t)| + 1))
  {
    hide TypeName, TypeOf, SkipWs, TypeRun, ParseType;
    var s, end := [COLON, SPACE] + TypeName(t) + rest, 2 + |TypeName(t)|;
    TypeRoundTrip(t, rest) by { assert !TypeChar(SPACE); }
    TypeNameStart(t);
    SkipWsIs(s[1..], 1);
    assert s[2..] == TypeName(t) + rest;
    assert s[end..] == rest && s[2..end] == TypeName(t);
    assert s[0..] == s;
    TypeAt(s, 0, 2, end);
  }

  lemma TypeNameStart(t: Type)
    requires t != NoType
    ensures TypeName(t) != [] && !IsWs(TypeName(t)[0])
  {
  }

  /** Type, sign, magnitude and bytes come back, and the end of the value is found,
      whatever blanks or comment follow. */
  lemma TailRoundTrip(t: Type, l: Literal, rest: seq<byte>)
    requires Storable(l) && CheckType(t, l) && RestIsBlank(rest)
    ensures ParseTail(TailText(t, l) + rest) == Some((t, l, |TailText(t, l)|))
  {
    hide ParseTail, ValueText, RestIsBlank, SkipWs, ParseType, ParseEquals, TypeName, CheckType, Storable, TailText;
    var v := [EQUALS, SPACE] + ValueText(l) + rest;
    EqualsReads(t, l, rest);
    SkipWsIs([SPACE] + v, 1);
    TailParts(t, l, rest, v);
    if t == NoType {
      UntypedTail(v);
      TailFrom([SPACE] + v, 1, 0, t, v);
    } else {
      TypedTail(t, v);
      TailFrom([COLON, SPACE] + TypeName(t) + ([SPACE] + v), 0, 2 + |TypeName(t)| + 1, t, v);
    }
  }

  /** `ParseTail` once the type is read. */
  lemma TailFrom(s: seq<byte>, a: nat, k: nat, t: Type, v: seq<byte>)
    requires a == SkipWs(s) && ParseType(s[a..]) == Some((t, k)) && s[a + k..] == v && ParseEquals(v, t).Some?
    ensures ParseTail(s) == Some((t, ParseEquals(v, t).value.0, a + k + ParseEquals(v, t).value.1))
  {
    hide SkipWs, ParseType, ParseEquals;
  }

  lemma UntypedTail(v: seq<byte>)
    requires v != [] && v[0] == EQUALS
    ensures ([SPACE] + v)[1..] == v && ([SPACE] + v)[1 + 0..] == v && ParseType(v) == Some((NoType, 0))
  {
  }

  lemma TailParts(t: Type, l: Literal, rest: seq<byte>, v: seq<byte>)
    requires v == [EQUALS, SPACE] + ValueText(l) + rest
    ensures TailText(t, l) + rest == if t == NoType then [SPACE] + v else [COLON, SPACE] + TypeName(t) + ([SPACE] + v)
    ensures |TailText(t, l)| == (if t == NoType then 0 else 2 + |TypeName(t)|) + 3 + |ValueText(l)|
  {
    hide ValueText, TypeName;
  }

  lemma TypedTail(t: Type, v: seq<byte>)
    requires t != NoType && SkipWs([SPACE] + v) == 1
    ensures var s, b := [COLON, SPACE] + TypeName(t) + ([SPACE] + v), 2 + |TypeName(t)| + 1;
            SkipWs(s) == 0 && s[0..] == s && ParseType(s) == Some((t, b)) && s[0 + b..] == v
  {
    hide SkipWs, ParseType, TypeName;
    TypeReads(t, [SPACE] + v);
    var s := [COLON, SPACE] + TypeName(t) + ([SPACE] + v);
    SkipWsIs(s, 0);
  }

  /** `pre` is blanks and then the key, as written. */
  predicate KeyPrefix(pre: seq<byte>, name: seq<byte>) {
    var p := SkipWs(pre);
    p < |pre| && pre[p] != HASH && pre[p] != LBRACKET && ParseName(pre[p..]) == Some((name, |pre| - p))
  }

  /** A key as written reads the same in front of any tail that ends a name. */
  lemma {:induction false} KeyReads(pre: seq<byte>, name: seq<byte>, tail: seq<byte>)
    requires KeyPrefix(pre, name) && EndsName(tail)
    ensures var text, p := pre + tail, SkipWs(pre);
            && SkipWs(text) == p < |pre| && text[p] != HASH && text[p] != LBRACKET
            && ParseName(text[p..]) == Some((name, |pre| - p))
  {
    hide ParseName, SkipWs, EndsName;
    var text, p := pre + tail, SkipWs(pre);
    assert forall i | 0 <= i < |pre| :: text[i] == pre[i];
    SkipWsIs(text, p);
    ParseNameLocal(pre[p..], tail);
    SuffixOfConcat(pre, tail, p);
  }

  lemma SuffixOfConcat(pre: seq<byte>, tail: seq<byte>, p: nat)
    requires p <= |pre|
    ensures (pre + tail)[p..] == pre[p..][..|pre| - p] + tail
  {
  }

  lemma EntryRoundTrip(pre: seq<byte>, name: seq<byte>, t: Type, l: Literal, rest: seq<byte>)
    requires KeyPrefix(pre, name) && Storable(l) && CheckType(t, l) && RestIsBlank(rest)
    ensures var text := pre + TailText(t, l) + rest;
            ParseLine(text) == Entry(text, name, |pre|, |pre| + |TailText(t, l)|, t, l)
  {
    hide ParseName, ParseTail, SkipWs, RestIsBlank, CheckType, Storable, TailText, KeyPrefix;
    var tail := TailText(t, l) + rest;
    var text := pre + TailText(t, l) + rest;
    TailRoundTrip(t, l, rest);
    TailEndsName(t, l, rest);
    KeyReads(pre, name, tail);
    assert text == pre + tail && text[|pre|..] == tail;
  }

  lemma TailEndsName(t: Type, l: Literal, rest: seq<byte>)
    ensures EndsName(TailText(t, l) + rest)
  {
  }

  /** Every entry read from text has the shape the printer relies on. */
  lemma EntryShape(text: seq<byte>)
    requires ParseLine(text).Entry?
    ensures var e := ParseLine(text);
            && e.keyEnd <= e.valueEnd <= |text| && KeyPrefix(text[..e.keyEnd], e.name)
            && RestIsBlank(text[e.valueEnd..]) && CheckType(e.vtype, e.lit) && Normal(e.lit)
  {
    hide ParseName, ParseTail, RestIsBlank, CheckType, SkipWs, Normal, KeyPrefix;
    var e, p := ParseLine(text), SkipWs(text);
    var n := ParseName(text[p..]).value.1;
    KeyIsPrefix(text, p, n);
    TailShape(text[p + n..]);
    var m := ParseTail(text[p + n..]).value.2;
    assert text[p + n..][m..] == text[e.valueEnd..];
  }

  lemma {:induction false} KeyIsPrefix(text: seq<byte>, p: nat, n: nat)
    requires p == SkipWs(text) && p < |text| && text[p] != HASH && text[p] != LBRACKET
    requires ParseName(text[p..]).Some? && ParseName(text[p..]).value.1 == n
    ensures KeyPrefix(text[..p + n], ParseName(text[p..]).value.0)
  {
    hide ParseName, SkipWs;
    var pre := text[..p + n];
    SkipWsIs(pre, p);
    ParseNameLocal(text[p..], []);
    assert text[p..][..n] + [] == pre[p..];
  }

  lemma ValueIsStorable(s: seq<byte>)
    requires NoNul(s) && ParseValue(s).Some?
    ensures Storable(ParseValue(s).value.0)
  {
    hide ParseChars, ReadDigits, HexPairs, HexRun;
    if s != [] && s[0] == QUOTE { ParsedHasNoNul(s[1..]); }
  }

  lemma TailIsStorable(s: seq<byte>)
    requires NoNul(s) && ParseTail(s).Some?
    ensures Storable(ParseTail(s).value.1)
  {
    hide ParseType, ParseValue, CheckType, SkipWs, RestIsBlank, Storable;
    var a := SkipWs(s);
    var v := s[a + ParseType(s[a..]).value.1..];
    ValueIsStorable(v[1 + SkipWs(v[1..])..]);
  }

  /** What was read from a line can be stored again: names and strings hold no NUL. */
  lemma ReadIsStorable(text: seq<byte>)
    requires NoNul(text) && ParseLine(text).Entry?
    ensures var e := ParseLine(text); NoNul(e.name) && Storable(e.lit)
  {
    hide ParseName, ParseTail, SkipWs, Storable;
    var p := SkipWs(text);
    NameHasNoNul(text[p..]);
    TailIsStorable(text[p + ParseName(text[p..]).value.1..]);
  }

  /** A line read from its text, given a new value and printed again, reads back as
      exactly the line in memory. */
  lemma RenderReads(e: Line, t: Type, l: Literal)
    requires e.Entry? && ParseLine(e.text) == e && Storable(l) && CheckType(t, l)
    ensures e.keyEnd <= |e.text| && e.valueEnd <= |e.text| && ParseLine(Render(e, t, l).text) == Render(e, t, l)
  {
    hide ParseLine, TailText, KeyPrefix, RestIsBlank, Storable, CheckType;
    EntryShape(e.text);
    EntryRoundTrip(e.text[..e.keyEnd], e.name, t, l, e.text[e.valueEnd..]);
  }

  /** The same for the line made for a new key. */
  lemma NewEntryReads(key: seq<byte>, t: Type, l: Literal)
    requires NoNul(key) && Storable(l) && CheckType(t, l)
    ensures ParseLine(Render(NewEntry(key), t, l).text) == Render(NewEntry(key), t, l)
  {
    hide ParseLine, TailText, RestIsBlank, Storable, CheckType, ParseName;
    var pre := NameText(key);
    NameStart(key);
    SkipWsIs(pre, 0);
    NameRoundTrip(key, []);
    assert pre[0..] == pre == pre + [];
    EntryRoundTrip(pre, key, t, l, []) by { BlankNothing(); }
    assert Render(NewEntry(key), t, l).text == pre + TailText(t, l) + [];
  }

  lemma BlankNothing()
    ensures RestIsBlank([])
  {
  }

  lemma NameStart(name: seq<byte>)
    ensures NameText(name) != [] && !IsWs(NameText(name)[0])
    ensures NameText(name)[0] != HASH && NameText(name)[0] != LBRACKET
  {
  }

  lemma SectionReads(ns: seq<byte>)
    requires NoNul(ns)
    ensures ParseLine(SectionText(ns)) == Section(SectionText(ns), ns)
  {
    hide ParseName, SkipWs, NameText;
    var text, n := SectionText(ns), |NameText(ns)|;
    NameStart(ns);
    NameRoundTrip(ns, [RBRACKET]);
    SkipWsIs(text, 0);
    assert text[1..] == NameText(ns) + [RBRACKET];
    SkipWsIs(text[1..], 0);
    assert text[1..][0..] == text[1..];
    assert text[1 + n..] == [RBRACKET];
    SkipWsIs(text[1 + n..], 0);
    assert text[1 + n + 1..] == [];
    BlankNothing();
  }

  // ----- what may stand in the file

  /** Text that is one line of a C string: no NUL, no newline. */
  predicate LineText(s: seq<byte>) {
    forall i | 0 <= i < |s| :: s[i] != 0 && s[i] != NEWLINE
  }

  lemma LineTextConcat(s: seq<byte>, t: seq<byte>)
    requires LineText(s) && LineText(t)
    ensures LineText(s + t)
  {
  }

  lemma {:induction false} EscapeIsLine(b: seq<byte>)
    requires NoNul(b)
    ensures LineText(Escape(b))
  {
    if b != [] {
      EscapeIsLine(b[1..]);
      LineTextConcat(EscapeByte(b[0]), Escape(b[1..]));
    }
  }

  lemma {:induction false} HexIsLine(b: seq<byte>)
    ensures LineText(HexText(b))
  {
    if b != [] {
      HexIsLine(b[1..]);
      LineTextConcat(Hex2(b[0]), HexText(b[1..]));
    }
  }

  lemma NameIsLine(name: seq<byte>)
    requires NoNul(name)
    ensures LineText(NameText(name))
  {
    NameOrStringIsLine(name);
  }

  lemma DigitsAreLine(v: nat)
    ensures LineText(Decimal(v)) && Decimal(v)[|Decimal(v)| - 1] != RETURN
  {
    hide Decimal;
    var d := Decimal(v);
    assert forall i | 0 <= i < |d| :: IsDigit(d[i]);
  }

  lemma BlobIsLine(data: seq<byte>)
    ensures var v := [ZERO, LOWER_X] + HexText(data); LineText(v) && v[|v| - 1] != RETURN
  {
    hide HexText, HexPairs;
    var h := HexText(data);
    HexIsLine(data);
    HexTextReads(data);
    LineTextConcat([ZERO, LOWER_X], h);
    if data != [] { assert HexVal(h[|h| - 1]).Some?; }
  }

  lemma ValueIsLine(l: Literal)
    requires Storable(l)
    ensures LineText(ValueText(l)) && ValueText(l) != [] && ValueText(l)[|ValueText(l)| - 1] != RETURN
  {
    hide Decimal, HexText, Escape, LineText;
    match l
    case Int(neg, mag) =>
      DigitsAreLine(mag);
      if neg { MinusIsLine(Decimal(mag)); } else { assert ValueText(l) == Decimal(mag); }
    case Str(data) => NameOrStringIsLine(data);
    case Blob(data) => BlobIsLine(data);
  }

  lemma MinusIsLine(s: seq<byte>)
    requires LineText(s)
    ensures LineText([MINUS] + s)
  {
  }

  lemma NameOrStringIsLine(data: seq<byte>)
    requires NoNul(data)
    ensures LineText(Quoted(data))
  {
    EscapeIsLine(data);
  }

  predicate EndsInReturn(s: seq<byte>) {
    s != [] && s[|s| - 1] == RETURN
  }

  /** A printed line is still one line, and ends in a carriage return only if its old
      tail did. */
  lemma RenderIsLine(e: Line, t: Type, l: Literal)
    requires e.Entry? && e.keyEnd <= |e.text| && e.valueEnd <= |e.text| && LineText(e.text) && Storable(l)
    ensures LineText(Render(e, t, l).text)
    ensures EndsInReturn(Render(e, t, l).text) <==> EndsInReturn(e.text[e.valueEnd..])
  {
    hide Storable, ValueText, LineText, TailText;
    ValueIsLine(l);
    TailIsLine(t, l);
    var head, rest := e.text[..e.keyEnd], e.text[e.valueEnd..];
    PartsAreLine(e.text, e.keyEnd, e.valueEnd);
    LineTextConcat(head, TailText(t, l));
    LineTextConcat(head + TailText(t, l), rest);
    var front := head + TailText(t, l);
    assert front[|front| - 1] == TailText(t, l)[|TailText(t, l)| - 1];
  }

  lemma PartsAreLine(text: seq<byte>, i: nat, j: nat)
    requires LineText(text) && i <= |text| && j <= |text|
    ensures LineText(text[..i]) && LineText(text[j..])
  {
  }

  lemma TailIsLine(t: Type, l: Literal)
    requires LineText(ValueText(l)) && ValueText(l) != [] && ValueText(l)[|ValueText(l)| - 1] != RETURN
    ensures LineText(TailText(t, l)) && TailText(t, l) != [] && TailText(t, l)[|TailText(t, l)| - 1] != RETURN
  {
    hide ValueText;
    LineTextConcat((if t == NoType then [] else [COLON, SPACE] + TypeName(t)) + [SPACE, EQUALS, SPACE], ValueText(l));
  }

  lemma SectionIsLine(ns: seq<byte>)
    requires NoNul(ns)
    ensures LineText(SectionText(ns)) && !EndsInReturn(SectionText(ns))
  {
    NameIsLine(ns);
    LineTextConcat([LBRACKET], NameText(ns));
    LineTextConcat([LBRACKET] + NameText(ns), [RBRACKET]);
  }

  // ----- an entry or a section is read without what follows it

  lemma SkipsSame(s: seq<byte>, u: seq<byte>, n: nat, p: nat)
    requires p <= n <= |s| && n <= |u| && (forall i | 0 <= i < n :: u[i] == s[i]) && p + SkipWs(s[p..]) < n
    ensures SkipWs(u[p..]) == SkipWs(s[p..])
  {
    SkipWsIs(u[p..], SkipWs(s[p..]));
  }

  lemma TypeRunSame(s: seq<byte>, u: seq<byte>, n: nat, p: nat)
    requires p <= n <= |s| && n <= |u| && (forall i | 0 <= i < n :: u[i] == s[i]) && p + TypeRun(s[p..]) < n
    ensures TypeRun(u[p..]) == TypeRun(s[p..])
  {
    TypeRunIs(u[p..], TypeRun(s[p..]));
  }

  /** The positions `ParseType` passes. */
  lemma TypePositions(s: seq<byte>) returns (start: nat, end: nat)
    requires ParseType(s).Some? && s != [] && s[0] == COLON
    ensures start == 1 + SkipWs(s[1..]) && start <= end <= |s| && end == start + TypeRun(s[start..])
    ensures ParseType(s).value.1 == end + SkipWs(s[end..])
  {
    hide TypeOf, SkipWs, TypeRun;
    start := 1 + SkipWs(s[1..]);
    end := start + TypeRun(s[start..]);
  }

  lemma NoColon(s: seq<byte>)
    requires s != [] && s[0] != COLON
    ensures ParseType(s) == Some((NoType, 0))
  {
  }

  lemma ParseTypeLocal(s: seq<byte>, n: nat, rest: seq<byte>)
    requires ParseType(s).Some? && ParseType(s).value.1 < n <= |s|
    ensures ParseType(s[..n] + rest) == ParseType(s)
  {
    hide ParseType, TypeOf, SkipWs, TypeRun;
    var u := s[..n] + rest;
    assert u[0] == s[0];
    if s[0] == COLON {
      var start, end := TypePositions(s);
      SkipsSame(s, u, n, 1);
      TypeRunSame(s, u, n, start);
      SkipsSame(s, u, n, end);
      assert s[0..] == s && u[0..] == u && u[start..end] == s[start..end];
      TypeAt(s, 0, start, end);
      TypeAt(u, 0, start, end);
    } else {
      NoColon(s);
      NoColon(u);
    }
  }

  lemma ParseEqualsLocal(s: seq<byte>, t: Type, rest: seq<byte>)
    requires ParseEquals(s, t).Some? && RestIsBlank(rest)
    ensures var m := ParseEquals(s, t).value.1;
            m > 0 && s[m - 1] != RETURN && ParseEquals(s[..m] + rest, t) == ParseEquals(s, t)
  {
    hide ParseValue, RestIsBlank, SkipWs, CheckType, Normal;
    var m, c := ParseEquals(s, t).value.1, 1 + SkipWs(s[1..]);
    var u := s[..m] + rest;
    BlankEndsValue(rest);
    ParseValueLocal(s[c..], rest);
    SkipsSame(s, u, m, 1);
    assert u[c..] == s[c..][..m - c] + rest && u[m..] == rest;
    assert s[c..][m - c..] == s[m..] && s[c..][m - c - 1] == s[m - 1];
  }

  lemma TailInParts(s: seq<byte>) returns (a: nat, k: nat, t: Type, m: nat)
    requires ParseTail(s).Some?
    ensures a == SkipWs(s) && a + k + m <= |s| && ParseType(s[a..]) == Some((t, k))
    ensures ParseEquals(s[a + k..], t).Some? && ParseEquals(s[a + k..], t).value.1 == m
    ensures ParseTail(s) == Some((t, ParseEquals(s[a + k..], t).value.0, a + k + m))
  {
    hide ParseType, ParseEquals, SkipWs;
    a := SkipWs(s);
    t, k := ParseType(s[a..]).value.0, ParseType(s[a..]).value.1;
    m := ParseEquals(s[a + k..], t).value.1;
  }

  /** The type is read the same with another rest behind the value. */
  lemma TypePartLocal(s: seq<byte>, a: nat, k: nat, t: Type, n: nat, rest: seq<byte>)
    requires a == SkipWs(s) && a + k < n <= |s| && ParseType(s[a..]) == Some((t, k)) && s[a + k] == EQUALS
    ensures var u := s[..n] + rest; SkipWs(u) == a && ParseType(u[a..]) == Some((t, k))
  {
    hide ParseType, SkipWs;
    var u := s[..n] + rest;
    assert s[0..] == s && u[0..] == u;
    SkipsSame(s, u, n, 0);
    assert s[a..][k] == s[a + k] && u[a..] == s[a..][..n - a] + rest;
    ParseTypeLocal(s[a..], n - a, rest);
  }

  lemma StartsWithEquals(s: seq<byte>, t: Type)
    requires ParseEquals(s, t).Some?
    ensures s != [] && s[0] == EQUALS
  {
  }

  lemma TailStart(s: seq<byte>, a: nat)
    requires a == SkipWs(s) && a < |s| && ParseType(s[a..]).Some? && (ParseType(s[a..]).value.1 == 0 ==> s[a] == EQUALS)
    ensures !BareChar(s[0])
  {
    if a == 0 { assert s[0..] == s; } else { assert IsWs(s[0]); }
  }

  /** A tail begins with nothing that could extend a name and does not end in a carriage
      return. */
  lemma TailEnds(s: seq<byte>)
    requires ParseTail(s).Some?
    ensures var n := ParseTail(s).value.2; n > 0 && s[n - 1] != RETURN && !BareChar(s[0])
  {
    hide ParseTail, ParseType, ParseEquals, SkipWs, BareChar;
    var a, k, t, m := TailInParts(s);
    ParseEqualsLocal(s[a + k..], t, []) by { BlankNothing(); }
    StartsWithEquals(s[a + k..], t);
    TailStart(s, a);
    assert s[a + k..][m - 1] == s[a + k + m - 1];
  }

  lemma ParseTailLocal(s: seq<byte>, rest: seq<byte>)
    requires ParseTail(s).Some? && RestIsBlank(rest)
    ensures ParseTail(s[..ParseTail(s).value.2] + rest) == ParseTail(s)
  {
    hide ParseTail, ParseType, ParseEquals, SkipWs, RestIsBlank;
    var a, k, t, m := TailInParts(s);
    var v, n := s[a + k..], a + k + m;
    ParseEqualsLocal(v, t, rest);
    StartsWithEquals(v, t);
    TypePartLocal(s, a, k, t, n, rest) by { assert v[0] == s[a + k]; }
    assert (s[..n] + rest)[a + k..] == v[..m] + rest;
    TailFrom(s[..n] + rest, a, k, t, v[..m] + rest);
  }

  /** An entry reads the same with any other blanks or comment behind its value. */
  lemma EntryLocal(text: seq<byte>, rest: seq<byte>)
    requires ParseLine(text).Entry? && RestIsBlank(rest)
    ensures var e := ParseLine(text);
            && e.valueEnd <= |text| && e.valueEnd > 0 && text[e.valueEnd - 1] != RETURN
            && ParseLine(text[..e.valueEnd] + rest) == e.(text := text[..e.valueEnd] + rest)
  {
    hide ParseName, ParseTail, RestIsBlank, SkipWs, KeyPrefix;
    var e, p := ParseLine(text), SkipWs(text);
    var pre, s := text[..e.keyEnd], text[e.keyEnd..];
    var m := e.valueEnd - e.keyEnd;
    KeyIsPrefix(text, p, e.keyEnd - p);
    ParseTailLocal(s, rest);
    TailEnds(s);
    var tail := s[..m] + rest;
    assert tail[0] == s[0] && s[m - 1] == text[e.valueEnd - 1];
    KeyReads(pre, e.name, tail);
    PrefixSkips(text, e.keyEnd);
    assert pre + tail == text[..e.valueEnd] + rest && (pre + tail)[e.keyEnd..] == tail;
  }

  lemma PrefixSkips(text: seq<byte>, n: nat)
    requires SkipWs(text) < n <= |text|
    ensures SkipWs(text[..n]) == SkipWs(text)
  {
    SkipWsIs(text[..n], SkipWs(text));
  }

  /** A blank rest that ends in a carriage return is a comment, with or without it. */
  lemma ReturnInComment(s: seq<byte>)
    requires RestIsBlank(s) && EndsInReturn(s)
    ensures RestIsBlank(s[..|s| - 1])
  {
    var n := SkipWs(s);
    assert n < |s| - 1;
    SkipWsIs(s[..|s| - 1], n);
  }

  /** `Strip` takes one carriage return off the end, as loading does. */
  function Strip(s: seq<byte>): seq<byte> {
    if EndsInReturn(s) then s[..|s| - 1] else s
  }

  lemma EntryStripped(text: seq<byte>)
    requires ParseLine(text).Entry?
    ensures ParseLine(Strip(text)) == ParseLine(text).(text := Strip(text))
  {
    hide ParseLine, RestIsBlank, KeyPrefix, CheckType, Normal;
    if EndsInReturn(text) {
      EntryShape(text);
      var n := ParseLine(text).valueEnd;
      var rest := text[n..];
      EntryLocal(text, rest);
      assert n < |text|;
      ReturnInComment(rest);
      EntryLocal(text, rest[..|rest| - 1]);
      assert text[..n] + rest[..|rest| - 1] == Strip(text);
    }
  }

  /** A section header by the positions of its parts. */
  predicate IsHeader(text: seq<byte>, p: nat, a: nat, k: nat, b: nat, name: seq<byte>) {
    && p < a && a + k <= b < |text| && p == SkipWs(text) && text[p] == LBRACKET
    && a == p + 1 + SkipWs(text[p + 1..]) && ParseName(text[a..]) == Some((name, k))
    && b == a + k + SkipWs(text[a + k..]) && text[b] == RBRACKET && RestIsBlank(text[b + 1..])
  }

  lemma HeaderReads(text: seq<byte>, p: nat, a: nat, k: nat, b: nat, name: seq<byte>)
    requires IsHeader(text, p, a, k, b, name)
    ensures ParseLine(text) == Section(text, name)
  {
    hide ParseSection, SkipWs, ParseName, RestIsBlank;
    SectionFrom(text, p + 1, a, k, b, name);
  }

  lemma SectionFrom(text: seq<byte>, p: nat, a: nat, k: nat, b: nat, name: seq<byte>)
    requires p <= a && a + k <= b < |text|
    requires a == p + SkipWs(text[p..]) && ParseName(text[a..]) == Some((name, k))
    requires b == a + k + SkipWs(text[a + k..]) && text[b] == RBRACKET && RestIsBlank(text[b + 1..])
    ensures ParseSection(text, p) == Section(text, name)
  {
    hide SkipWs, ParseName, RestIsBlank;
  }

  lemma SectionShape(text: seq<byte>) returns (p: nat, a: nat, k: nat, b: nat)
    requires ParseLine(text).Section?
    ensures IsHeader(text, p, a, k, b, ParseLine(text).name)
  {
    hide ParseName, RestIsBlank, SkipWs;
    p := SkipWs(text);
    a := p + 1 + SkipWs(text[p + 1..]);
    k := ParseName(text[a..]).value.1;
    b := a + k + SkipWs(text[a + k..]);
  }

  /** A header reads the same when its rest is cut short. */
  lemma HeaderLocal(text: seq<byte>, n: nat, p: nat, a: nat, k: nat, b: nat, name: seq<byte>)
    requires IsHeader(text, p, a, k, b, name) && b < n <= |text| && RestIsBlank(text[..n][b + 1..])
    ensures IsHeader(text[..n], p, a, k, b, name)
  {
    hide ParseName, RestIsBlank, SkipWs, BareChar;
    var u := text[..n];
    assert SkipWs(u) == p by {
      assert text[0..] == text && u[0..] == u;
      SkipsSame(text, u, n, 0);
    }
    assert SkipWs(u[p + 1..]) == SkipWs(text[p + 1..]) by { SkipsSame(text, u, n, p + 1); }
    assert SkipWs(u[a + k..]) == SkipWs(text[a + k..]) by { SkipsSame(text, u, n, a + k); }
    assert ParseName(u[a..]) == ParseName(text[a..]) by {
      NotBare(text, a + k, b);
      NameSame(text, u, n, a, k);
    }
  }

  lemma SectionStripped(text: seq<byte>)
    requires ParseLine(text).Section?
    ensures ParseLine(Strip(text)) == Section(Strip(text), ParseLine(text).name)
  {
    hide ParseLine, ParseName, RestIsBlank, SkipWs;
    if EndsInReturn(text) {
      var p, a, k, b := SectionShape(text);
      var n := |text| - 1;
      assert b < n;
      EndsInBlank(text, b + 1);
      ReturnInComment(text[b + 1..]);
      assert text[..n][b + 1..] == text[b + 1..][..n - b - 1];
      HeaderLocal(text, n, p, a, k, b, ParseLine(text).name);
      HeaderReads(text[..n], p, a, k, b, ParseLine(text).name);
    }
  }

  lemma EndsInBlank(text: seq<byte>, n: nat)
    requires EndsInReturn(text) && n < |text|
    ensures EndsInReturn(text[n..])
  {
  }

  lemma NotBare(text: seq<byte>, p: nat, b: nat)
    requires p <= b < |text| && b == p + SkipWs(text[p..]) && text[b] == RBRACKET
    ensures !BareChar(text[p])
  {
    if p < b { assert IsWs(text[p..][0]); }
  }

  lemma NameSame(s: seq<byte>, u: seq<byte>, n: nat, p: nat, k: nat)
    requires n <= |s| && n <= |u| && (forall i | 0 <= i < n :: u[i] == s[i])
    requires p <= n && ParseName(s[p..]).Some? && ParseName(s[p..]).value.1 == k && p + k < n && !BareChar(s[p + k])
    ensures ParseName(u[p..]) == ParseName(s[p..])
  {
    hide ParseName;
    ParseNameLocal(s[p..], u[p + k..]);
    assert u[p..] == s[p..][..k] + u[p + k..];
  }
}
