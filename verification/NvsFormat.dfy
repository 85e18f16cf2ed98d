/** The format of the store as idf_compat/README.md documents it, in characters: the names and ranges
    of the types, the characters of a bare name, the escapes of a string, where new keys go, and the
    example file with what its getters give. */
module NvsFormat {
  import opened Prelude
  import opened NvsText
  import opened NvsValue
  import opened NvsLine
  import opened NvsLines
  import opened NvsFile
  import opened NvsStore

  /** The bytes of a text in ASCII. */
  function Ascii(s: string): (b: seq<byte>)
    ensures |b| == |s|
  {
    seq(|s|, i requires 0 <= i < |s| => if s[i] < 128 as char then s[i] as int else 0)
  }

  // ----- types

  function BitsOf(t: Type): nat
    requires IsInt(t)
  {
    if t == U8 || t == I8 then 8 else if t == U16 || t == I16 then 16 else if t == U32 || t == I32 then 32 else 64
  }

  lemma Powers()
    ensures Pow2(8) == 0x100 && Pow2(16) == 0x1_0000 && Pow2(32) == 0x1_0000_0000 && Pow2(64) == 0x1_0000_0000_0000_0000
  {
    hide Pow2;
    PowerSum(0, 0);
    PowerSum(1, 1);
    PowerSum(2, 2);
    PowerSum(4, 4);
    PowerSum(8, 8);
    PowerSum(16, 16);
    PowerSum(32, 32);
    PowerOne();
  }

  lemma PowerOne()
    ensures Pow2(0) == 1 && Pow2(1) == 2 && Pow2(2) == 4
  {
  }

  lemma {:induction false} PowerSum(a: nat, b: nat)
    ensures Pow2(a + b) == Pow2(a) * Pow2(b)
  {
    if a > 0 {
      PowerSum(a - 1, b);
      assert 2 * (Pow2(a - 1) * Pow2(b)) == (2 * Pow2(a - 1)) * Pow2(b);
    } else {
      assert Pow2(0) == 1;
    }
  }

  lemma RangeOfBits(t: Type)
    requires IsInt(t)
    ensures Greatest(t) - Least(t) + 1 == Pow2(BitsOf(t)) && (Least(t) < 0 ==> Least(t) + Greatest(t) == -1)
  {
    hide Pow2;
    Powers();
  }

  lemma BitsInDecimal()
    ensures Decimal(8) == [56] && Decimal(16) == [49, 54] && Decimal(32) == [51, 50] && Decimal(64) == [54, 52]
  {
    assert Decimal(16) == [49] + [54] && Decimal(32) == [51] + [50] && Decimal(64) == [54] + [52];
  }

  /** The name of an integer type is `u` or `i` with the number of its bits, and its range is that of
      an unsigned or a two's complement number of so many bits. */
  lemma TypeWords(t: Type)
    requires IsInt(t)
    ensures TypeName(t) == Ascii(if Least(t) < 0 then "i" else "u") + Decimal(BitsOf(t))
    ensures Greatest(t) - Least(t) + 1 == Pow2(BitsOf(t)) && (Least(t) < 0 ==> Least(t) + Greatest(t) == -1)
  {
    hide Pow2, Decimal;
    BitsInDecimal();
    RangeOfBits(t);
  }

  lemma WordsOfBytes()
    ensures TypeName(StrType) == Ascii("str") && TypeName(BlobType) == Ascii("blob")
  {
  }

  // ----- names and strings

  /** A bare name is made of letters, digits, the underscore and the minus sign. */
  lemma BareChars(c: char)
    requires c < 128 as char
    ensures BareChar(c as int) <==> 'A' <= c <= 'Z' || 'a' <= c <= 'z' || '0' <= c <= '9' || c == '_' || c == '-'
  {
  }

  /** A quote, a backslash, a newline and a tab have an escape of their own, other controls are
      written by their code, and every other byte stands for itself. */
  lemma Escapes(c: byte)
    ensures c == '\"' as int ==> Escape([c]) == Ascii("\\\"")
    ensures c == '\\' as int ==> Escape([c]) == Ascii("\\\\")
    ensures c == '\n' as int ==> Escape([c]) == Ascii("\\n")
    ensures c == '\t' as int ==> Escape([c]) == Ascii("\\t")
    ensures c == 0x7f ==> Escape([c]) == Ascii("\\u007f")
    ensures 0x20 <= c && c != 0x7f && c != '\"' as int && c != '\\' as int ==> Escape([c]) == [c]
  {
    assert Escape([c]) == EscapeByte(c) + Escape([]);
  }

  /** A backslash in front of these characters stands for one byte, whatever follows. */
  lemma EscapesRead(rest: seq<byte>)
    ensures ParseChar(Ascii("\\\"") + rest) == Some(([34], 2)) && ParseChar(Ascii("\\\\") + rest) == Some(([92], 2))
    ensures ParseChar(Ascii("\\n") + rest) == Some(([10], 2)) && ParseChar(Ascii("\\t") + rest) == Some(([9], 2))
    ensures ParseChar(Ascii("\\r") + rest) == Some(([13], 2)) && ParseChar(Ascii("\\b") + rest) == Some(([8], 2))
    ensures ParseChar(Ascii("\\f") + rest) == Some(([12], 2)) && ParseChar(Ascii("\\a") + rest) == None
  {
    hide ReadHex, Utf8, BadCodePoint;
  }

  /** The four digits behind `u`, in either case, are a code point; NUL and the surrogates are refused. */
  lemma CodePointsRead(rest: seq<byte>)
    ensures ParseChar(Ascii("\\u20aC") + rest) == Some(([0xe2, 0x82, 0xac], 6))
    ensures ParseChar(Ascii("\\u0000") + rest) == None && ParseChar(Ascii("\\uD800") + rest) == None
  {
    hide ParseChar, Ascii, Utf8, BadCodePoint, IsDigits;
    DigitsRead();
    CodePointIs("\\u20aC", "20aC", 0x2, 0x0, 0xa, 0xc, rest);
    CodePointIs("\\u0000", "0000", 0, 0, 0, 0, rest);
    CodePointIs("\\uD800", "D800", 0xd, 8, 0, 0, rest);
  }

  predicate IsDigits(digits: string, a: nat, b: nat, c: nat, d: nat) {
    && |digits| == 4 && a < 16 && b < 16 && c < 16 && d < 16
    && HexVal(Ascii(digits)[0]) == Some(a) && HexVal(Ascii(digits)[1]) == Some(b)
    && HexVal(Ascii(digits)[2]) == Some(c) && HexVal(Ascii(digits)[3]) == Some(d)
  }

  lemma DigitsRead()
    ensures IsDigits("20aC", 0x2, 0x0, 0xa, 0xc) && IsDigits("0000", 0, 0, 0, 0) && IsDigits("D800", 0xd, 8, 0, 0)
    ensures Utf8(0x20ac) == [0xe2, 0x82, 0xac]
    ensures !BadCodePoint(0x20ac) && BadCodePoint(0) && BadCodePoint(0xd800)
  {
  }

  lemma CodePointIs(text: string, digits: string, a: nat, b: nat, c: nat, d: nat, rest: seq<byte>)
    requires IsDigits(digits, a, b, c, d)
    requires |text| == 6 && text[0] == '\\' && text[1] == 'u' && text[2..] == digits
    ensures var cp := 0x1000 * a + 0x100 * b + 0x10 * c + d;
            cp < 0x1_0000 && ParseChar(Ascii(text) + rest) == if BadCodePoint(cp) then None else Some((Utf8(cp), 6))
  {
    hide HexVal, BadCodePoint, Utf8, ReadHex;
    HexFour(a, b, c, d, digits, rest);
    CodePointAt(text, digits, rest);
  }

  lemma CodePointAt(text: string, digits: string, rest: seq<byte>)
    requires |text| == 6 && text[0] == '\\' && text[1] == 'u' && |digits| == 4 && text[2..] == digits
    ensures var s := Ascii(text) + rest; s[0] == BACKSLASH && s[1] == 117 && s[2..] == Ascii(digits) + rest
  {
  }

  lemma HexFour(a: nat, b: nat, c: nat, d: nat, digits: string, rest: seq<byte>)
    requires |digits| == 4 && a < 16 && b < 16 && c < 16 && d < 16
    requires HexVal(Ascii(digits)[0]) == Some(a) && HexVal(Ascii(digits)[1]) == Some(b)
    requires HexVal(Ascii(digits)[2]) == Some(c) && HexVal(Ascii(digits)[3]) == Some(d)
    ensures ReadHex(Ascii(digits) + rest, 4, 0) == Some(0x1000 * a + 0x100 * b + 0x10 * c + d)
  {
    hide HexVal;
    var s := Ascii(digits) + rest;
    assert s[1..][0] == s[1] && s[1..][1..] == s[2..] && s[2..][1..] == s[3..] && s[3..][1..] == s[4..];
    assert ReadHex(s, 4, 0) == ReadHex(s[1..], 3, a);
    assert ReadHex(s[1..], 3, a) == ReadHex(s[2..], 2, 0x10 * a + b);
    assert ReadHex(s[2..], 2, 0x10 * a + b) == ReadHex(s[3..], 1, 0x100 * a + 0x10 * b + c);
  }

  // ----- where new keys go

  /** Line `i` lies in the namespace and is an entry or its header. */
  predicate Holds(s: seq<Line>, ns: Text, i: nat)
    requires i < |s|
  {
    Current(None, s[..i + 1]) == Some(ns) && !s[i].Raw?
  }

  /** A new key goes directly behind the last entry or header of its namespace; there is no place
      for it exactly where the namespace has neither. */
  lemma {:induction false} AfterLastEntry(s: seq<Line>, ns: Text)
    ensures match InsertPoint(s, ns)
            case None => forall i: nat | i < |s| :: !Holds(s, ns, i)
            case Some(at) => 0 < at <= |s| && Holds(s, ns, at - 1) && forall i: nat | at <= i < |s| :: !Holds(s, ns, i)
  {
    hide Current;
    if s != [] {
      var n := |s| - 1;
      assert s[..n + 1] == s && Last(s) == s[n];
      if !Holds(s, ns, n) {
        AfterLastEntry(Front(s), ns);
        forall i: nat | i < n ensures Holds(Front(s), ns, i) == Holds(s, ns, i) {
          assert Front(s)[..i + 1] == s[..i + 1];
        }
      }
    }
  }

  // ----- the documented example

  function CommentLine(): Text {
    Ascii("# comments and blank lines are kept")
  }

  function AppLine(): Text {
    Ascii("[app]")
  }

  function VolumeLine(): Text {
    Ascii("volume: u8 = 90")
  }

  function NameLine(): Text {
    Ascii("name: str = \"example\"")
  }

  function SsidLine(): Text {
    Ascii("ssid = \"example-ap\"")
  }

  function SimLine(): Text {
    Ascii("[idf_compat_sim]")
  }

  function MacLine(): Text {
    Ascii("factory_mac: blob = 0x020000000001")
  }

  /** The file of the documentation, line by line. */
  function ExampleTexts(): seq<Text> {
    [CommentLine(), AppLine(), VolumeLine(), NameLine(), SsidLine(), [], SimLine(), MacLine()]
  }

  function AppNs(): Text {
    Ascii("app")
  }

  function SimNs(): Text {
    Ascii("idf_compat_sim")
  }

  function App(name: string): Key {
    Key(AppNs(), Ascii(name))
  }

  function Mac(): Key {
    Key(SimNs(), Ascii("factory_mac"))
  }

  predicate Plain(c: byte) {
    0x20 <= c && c != 0x7f && c != QUOTE && c != BACKSLASH
  }

  lemma {:induction false} EscapePlain(b: seq<byte>)
    requires forall i | 0 <= i < |b| :: Plain(b[i])
    ensures Escape(b) == b
  {
    if b != [] { EscapePlain(b[1..]); }
  }

  /** The line of a bare key. */
  lemma BareEntry(name: seq<byte>, t: Type, l: Literal, text: seq<byte>)
    requires IsBareKey(name) && Storable(l) && CheckType(t, l) && text == name + TailText(t, l)
    ensures ParseLine(text) == Entry(text, name, |name|, |text|, t, l)
  {
    hide ParseLine, TailText, Storable, CheckType;
    NewEntryReads(name, t, l);
    assert name[..|name|] == name && name[|name|..] == [];
    assert text + [] == text;
  }

  lemma BareLine(line: string, name: string, tail: string, t: Type, l: Literal)
    requires line == name + tail && IsBareKey(Ascii(name)) && Ascii(tail) == TailText(t, l) && Storable(l) && CheckType(t, l)
    ensures ParseLine(Ascii(line)) == Entry(Ascii(line), Ascii(name), |name|, |line|, t, l)
  {
    hide ParseLine, TailText, Storable, CheckType, IsBareKey;
    assert Ascii(line) == Ascii(name) + Ascii(tail);
    BareEntry(Ascii(name), t, l, Ascii(line));
  }

  lemma VolumeTail()
    ensures TailText(U8, Int(false, 90)) == Ascii(": u8 = 90")
  {
    assert Decimal(90) == [57] + [48];
  }

  lemma Volume()
    ensures ParseLine(VolumeLine()) == Entry(VolumeLine(), Ascii("volume"), 6, 15, U8, Int(false, 90))
  {
    hide ParseLine, TailText;
    VolumeTail();
    BareLine("volume: u8 = 90", "volume", ": u8 = 90", U8, Int(false, 90));
  }

  lemma NameValue()
    ensures Quoted(Ascii("example")) == Ascii("\"example\"")
  {
    hide Escape;
    EscapePlain(Ascii("example"));
  }

  lemma NameTail()
    ensures TailText(StrType, Str(Ascii("example"))) == Ascii(": str = \"example\"")
  {
    hide Quoted;
    NameValue();
  }

  lemma Name()
    ensures ParseLine(NameLine()) ==
            Entry(NameLine(), Ascii("name"), 4, 21, StrType, Str(Ascii("example")))
  {
    hide ParseLine, TailText;
    NameTail();
    BareLine("name: str = \"example\"", "name", ": str = \"example\"", StrType, Str(Ascii("example")));
  }

  lemma SsidValue()
    ensures Quoted(Ascii("example-ap")) == Ascii("\"example-ap\"")
  {
    hide Escape;
    EscapePlain(Ascii("example-ap"));
  }

  lemma SsidTail()
    ensures TailText(NoType, Str(Ascii("example-ap"))) == Ascii(" = \"example-ap\"")
  {
    hide Quoted;
    SsidValue();
  }

  lemma Ssid()
    ensures ParseLine(SsidLine()) ==
            Entry(SsidLine(), Ascii("ssid"), 4, 19, NoType, Str(Ascii("example-ap")))
  {
    hide ParseLine, TailText;
    SsidTail();
    BareLine("ssid = \"example-ap\"", "ssid", " = \"example-ap\"", NoType, Str(Ascii("example-ap")));
  }

  lemma HexMore(s: seq<byte>, rest: string, line: string)
    requires s != [] && HexText(s[1..]) == Ascii(rest) && |line| == |rest| + 2 && line[2..] == rest
    requires Hex2(s[0]) == Ascii(line[..2])
    ensures HexText(s) == Ascii(line)
  {
    hide Hex2;
    assert Ascii(line) == Ascii(line[..2]) + Ascii(rest);
  }

  lemma HexZero(s: seq<byte>, rest: string, line: string)
    requires s != [] && s[0] == 0 && HexText(s[1..]) == Ascii(rest) && line == "00" + rest
    ensures HexText(s) == Ascii(line)
  {
    hide HexText;
    HexMore(s, rest, line);
  }

  lemma MacDigits()
    ensures HexText([2, 0, 0, 0, 0, 1]) == Ascii("020000000001")
  {
    hide HexText, Ascii;
    assert [1][1..] == [] && "01"[2..] == "";
    HexMore([1], "", "01") by { HexNothing(); }
    HexZero([0, 1], "01", "0001");
    HexZero([0, 0, 1], "0001", "000001");
    HexZero([0, 0, 0, 1], "000001", "00000001");
    HexZero([0, 0, 0, 0, 1], "00000001", "0000000001");
    HexMore([2, 0, 0, 0, 0, 1], "0000000001", "020000000001") by { HexNothing(); }
  }

  lemma HexNothing()
    ensures HexText([]) == Ascii("") && Hex2(1) == Ascii("01"[..2]) && Hex2(2) == Ascii("020000000001"[..2])
  {
  }

  lemma MacValue()
    ensures ValueText(Blob([2, 0, 0, 0, 0, 1])) == Ascii("0x020000000001")
  {
    hide HexText;
    MacDigits();
    assert Ascii("0x020000000001") == Ascii("0x") + Ascii("020000000001");
  }

  lemma MacTail()
    ensures TailText(BlobType, Blob([2, 0, 0, 0, 0, 1])) == Ascii(": blob = 0x020000000001")
  {
    hide ValueText;
    MacValue();
  }

  lemma FactoryMac()
    ensures ParseLine(MacLine()) ==
            Entry(MacLine(), Ascii("factory_mac"), 11, 34, BlobType, Blob([2, 0, 0, 0, 0, 1]))
  {
    hide ParseLine, TailText;
    MacTail();
    BareLine("factory_mac: blob = 0x020000000001", "factory_mac", ": blob = 0x020000000001", BlobType, Blob([2, 0, 0, 0, 0, 1]));
  }

  lemma Comment()
    ensures ParseLine(CommentLine()).Raw?
  {
    SkipWsIs(CommentLine(), 0);
  }

  lemma BareHeader(line: string, name: string)
    requires line == "[" + name + "]" && IsBareKey(Ascii(name))
    ensures ParseLine(Ascii(line)) == Section(Ascii(line), Ascii(name))
  {
    hide ParseLine;
    SectionReads(Ascii(name));
    assert SectionText(Ascii(name)) == Ascii(line);
  }

  lemma AppHeader()
    ensures ParseLine(AppLine()) == Section(AppLine(), AppNs())
  {
    hide ParseLine;
    BareHeader("[app]", "app");
  }

  lemma {:induction false} BareAppend(a: string, b: string)
    requires IsBareKey(Ascii(a)) && IsBareKey(Ascii(b))
    ensures IsBareKey(Ascii(a + b))
  {
    assert Ascii(a + b) == Ascii(a) + Ascii(b);
  }

  lemma MacNamespace()
    ensures IsBareKey(SimNs()) && "[idf_compat_sim]" == "[" + "idf_compat_sim" + "]"
  {
    BareAppend("idf_c", "ompat");
    BareAppend("idf_compat", "_sim");
    assert "idf_c" + "ompat" == "idf_compat";
    assert "idf_compat" + "_sim" == "idf_compat_sim";
  }

  lemma MacHeader()
    ensures ParseLine(SimLine()) == Section(SimLine(), SimNs())
  {
    hide ParseLine, IsBareKey, Ascii;
    MacNamespace();
    BareHeader("[idf_compat_sim]", "idf_compat_sim");
  }

  /** A file of ended lines without carriage returns is loaded line by line. */
  lemma {:induction false} TextsOfLines(texts: seq<Text>)
    requires AllLines(texts) && forall i | 0 <= i < |texts| :: !EndsInReturn(texts[i])
    ensures NoNul(Lines(texts)) && Texts(Lines(texts)) == texts
  {
    hide Texts;
    if texts == [] {
      NoTexts();
    } else {
      TextsOfLines(texts[1..]);
      TextsStep(texts[0], Lines(texts[1..]));
    }
  }

  lemma {:induction false} BoundMore(s: seq<Line>, l: Line)
    ensures Bound(s + [l]) == Bind(Current(None, s), Bound(s), l)
    ensures Current(None, s + [l]) == if l.Section? then Some(l.name) else Current(None, s)
  {
    FrontLast(s, l);
  }

  /** The lines loaded so far, the section in force and what is bound. */
  ghost predicate Loaded(texts: seq<Text>, s: seq<Line>, cur: Option<Text>, m: Bindings) {
    s == ClassifyAll(None, texts) && cur == Current(None, s) && m == Bound(s)
  }

  lemma LoadedMore(texts: seq<Text>, s: seq<Line>, cur: Option<Text>, m: Bindings, t: Text, l: Line)
    requires Loaded(texts, s, cur, m) && ParseLine(t) == l && (l.Entry? ==> cur.Some?)
    ensures Loaded(texts + [t], s + [l], if l.Section? then Some(l.name) else cur, Bind(cur, m, l))
  {
    hide ParseLine, Current, Bound, ClassifyAll;
    ClassifyOneMore(None, texts, t);
    BoundMore(s, l);
  }

  lemma LoadedNothing()
    ensures Loaded([], [], None, map[])
  {
  }

  /** No control character in a text. */
  predicate Visible(t: Text) {
    forall i | 0 <= i < |t| :: t[i] >= 0x20
  }

  lemma VisibleIsLine(t: Text)
    requires Visible(t)
    ensures LineText(t) && !EndsInReturn(t)
  {
  }

  lemma VisibleComment()
    ensures Visible(CommentLine())
  {
  }

  lemma VisibleEntries()
    ensures Visible(VolumeLine()) && Visible(NameLine())
  {
  }

  lemma VisibleMore()
    ensures Visible(SsidLine()) && Visible(MacLine())
  {
  }

  lemma VisibleHeaders()
    ensures Visible(AppLine()) && Visible(SimLine()) && Visible([])
  {
  }

  /** Reads the next line of a prefix of the example. */
  lemma ReadNext(n: nat, s: seq<Line>, cur: Option<Text>, m: Bindings, l: Line) returns (more: seq<Line>)
    requires n < |ExampleTexts()| && Loaded(ExampleTexts()[..n], s, cur, m)
    requires ParseLine(ExampleTexts()[n]) == l && (l.Entry? ==> cur.Some?)
    ensures Loaded(ExampleTexts()[..n + 1], more, if l.Section? then Some(l.name) else cur, Bind(cur, m, l))
  {
    hide ExampleTexts, ParseLine, Loaded, Bind;
    var texts := ExampleTexts();
    LoadedMore(texts[..n], s, cur, m, texts[n], l);
    more := s + [l];
    assert texts[..n] + [texts[n]] == texts[..n + 1];
  }

  lemma NothingRead()
    ensures Loaded(ExampleTexts()[..0], [], None, map[])
  {
    LoadedNothing();
    assert ExampleTexts()[..0] == [];
  }

  lemma EmptyLine()
    ensures ParseLine([]).Raw?
  {
  }

  lemma ExampleLines()
    ensures AllLines(ExampleTexts()) && forall i | 0 <= i < |ExampleTexts()| :: !EndsInReturn(ExampleTexts()[i])
  {
    hide Visible, LineText, EndsInReturn, CommentLine, AppLine, VolumeLine, NameLine, SsidLine, SimLine, MacLine;
    VisibleComment();
    VisibleEntries();
    VisibleMore();
    VisibleHeaders();
    forall i | 0 <= i < |ExampleTexts()| ensures LineText(ExampleTexts()[i]) && !EndsInReturn(ExampleTexts()[i]) {
      VisibleIsLine(ExampleTexts()[i]);
    }
  }

  lemma ReadApp() returns (s: seq<Line>)
    ensures Loaded(ExampleTexts()[..2], s, Some(AppNs()), map[])
  {
    hide Ascii, ParseLine, Loaded, CommentLine, AppLine, VolumeLine, NameLine, SsidLine, SimLine, MacLine, AppNs, SimNs;
    NothingRead();
    Comment();
    s := ReadNext(0, [], None, map[], ParseLine(CommentLine()));
    AppHeader();
    s := ReadNext(1, s, None, map[], ParseLine(AppLine()));
  }

  /** The three bindings of the first namespace. */
  function AppBindings(): Bindings {
    map[][App("volume") := Value(U8, Int(false, 90))]
         [App("name") := Value(StrType, Str(Ascii("example")))]
         [App("ssid") := Value(NoType, Str(Ascii("example-ap")))]
  }

  lemma ReadEntries() returns (s: seq<Line>)
    ensures Loaded(ExampleTexts()[..5], s, Some(AppNs()), AppBindings())
  {
    hide Ascii, ParseLine, Loaded, CommentLine, AppLine, VolumeLine, NameLine, SsidLine, SimLine, MacLine, AppNs, SimNs;
    var app := Some(AppNs());
    s := ReadApp();
    Volume();
    s := ReadNext(2, s, app, map[], ParseLine(VolumeLine()));
    var m := map[][App("volume") := Value(U8, Int(false, 90))];
    Name();
    s := ReadNext(3, s, app, m, ParseLine(NameLine()));
    m := m[App("name") := Value(StrType, Str(Ascii("example")))];
    Ssid();
    s := ReadNext(4, s, app, m, ParseLine(SsidLine()));
  }

  function ExampleBindings(): Bindings {
    AppBindings()[Mac() := Value(BlobType, Blob([2, 0, 0, 0, 0, 1]))]
  }

  lemma ReadSim() returns (s: seq<Line>)
    ensures Loaded(ExampleTexts()[..7], s, Some(SimNs()), AppBindings())
  {
    hide Ascii, ParseLine, Loaded, AppBindings, SimLine, MacLine, AppNs, SimNs, CommentLine, AppLine, VolumeLine, NameLine, SsidLine;
    s := ReadEntries();
    EmptyLine();
    s := ReadNext(5, s, Some(AppNs()), AppBindings(), ParseLine([]));
    MacHeader();
    s := ReadNext(6, s, Some(AppNs()), AppBindings(), ParseLine(SimLine()));
  }

  lemma ReadMac() returns (s: seq<Line>)
    ensures Loaded(ExampleTexts()[..8], s, Some(SimNs()), ExampleBindings())
  {
    hide Ascii, ParseLine, Loaded, AppBindings, SimLine, MacLine, SimNs, CommentLine, AppLine, VolumeLine, NameLine, SsidLine;
    s := ReadSim();
    FactoryMac();
    s := ReadNext(7, s, Some(SimNs()), AppBindings(), ParseLine(MacLine()));
  }

  lemma ExampleBinds()
    ensures Bound(ClassifyAll(None, ExampleTexts())) == ExampleBindings()
  {
    hide Ascii, ParseLine, ExampleBindings, ExampleTexts, Loaded;
    var s := ReadMac();
    EightLines();
    LoadedIs(ExampleTexts()[..8], s, Some(SimNs()), ExampleBindings());
  }

  lemma LoadedIs(texts: seq<Text>, s: seq<Line>, cur: Option<Text>, m: Bindings)
    requires Loaded(texts, s, cur, m)
    ensures Bound(ClassifyAll(None, texts)) == m
  {
    hide Bound, ClassifyAll, Current;
  }

  lemma EightLines()
    ensures |ExampleTexts()| == 8 && ExampleTexts()[..8] == ExampleTexts()
  {
  }

  /** The documented file is read as the documentation says. */
  lemma ExampleFile()
    ensures Bound(Load(Lines(ExampleTexts()))) == ExampleBindings()
  {
    hide Bound, ExampleBindings, ExampleTexts, ClassifyAll, Texts, Lines, LineText, EndsInReturn;
    ExampleLines();
    TextsOfLines(ExampleTexts());
    NoNulWhole(Lines(ExampleTexts()));
    ExampleBinds();
  }

  lemma ExampleKeys()
    ensures App("volume") in ExampleBindings() && ExampleBindings()[App("volume")] == Value(U8, Int(false, 90))
    ensures App("name") in ExampleBindings() && ExampleBindings()[App("name")] == Value(StrType, Str(Ascii("example")))
    ensures App("ssid") in ExampleBindings() && ExampleBindings()[App("ssid")] == Value(NoType, Str(Ascii("example-ap")))
    ensures Mac() in ExampleBindings() && ExampleBindings()[Mac()] == Value(BlobType, Blob([2, 0, 0, 0, 0, 1]))
  {
    hide Ascii;
    KeysDiffer();
  }

  lemma KeysDiffer()
    ensures Ascii("volume") != Ascii("name") && Ascii("volume") != Ascii("ssid") && Ascii("name") != Ascii("ssid")
    ensures AppNs() != SimNs()
  {
    assert |Ascii("volume")| == 6 && |Ascii("name")| == 4 == |Ascii("ssid")|;
    assert Ascii("name")[0] == 110 && Ascii("ssid")[0] == 115;
    assert |AppNs()| == 3 && |SimNs()| == 14;
  }

  /** What the getters give on it: the volume as an unsigned byte and as nothing else, the name as a
      string with its NUL, the untyped one also as a blob without, and the address as a blob. */
  lemma ExampleGetters(t: Type)
    ensures var m := Bound(Load(Lines(ExampleTexts())));
            && (IsInt(t) ==> IntIn(m, App("volume"), t) == if t == U8 then Some(90) else None)
            && VarIn(m, App("name"), StrType) == Some(Ascii("example") + [0]) && VarIn(m, App("name"), BlobType) == None
            && VarIn(m, App("ssid"), StrType) == Some(Ascii("example-ap") + [0])
            && VarIn(m, App("ssid"), BlobType) == Some(Ascii("example-ap"))
            && VarIn(m, Mac(), BlobType) == Some([2, 0, 0, 0, 0, 1]) && VarIn(m, Mac(), StrType) == None
  {
    hide Ascii, Bound, Load, Lines, ExampleTexts, ExampleBindings, App, Mac;
    ExampleFile();
    ExampleKeys();
    UntypedGetBytes(ExampleBindings(), App("ssid"), Str(Ascii("example-ap")));
    assert Blob([2, 0, 0, 0, 0, 1]).data + [] == [2, 0, 0, 0, 0, 1];
  }
}
