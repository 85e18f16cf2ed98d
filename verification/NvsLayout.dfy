/** Lines of the store of idf_compat/src/nvs.c as a hand may write them: any spaces and tabs around
    the key, the colon, the type, the equals sign and the value, and a comment at the end. */
module NvsLayout {
  import opened Prelude
  import opened NvsText
  import opened NvsValue
  import opened NvsLine
  import opened NvsLines

  /** Spaces and tabs. */
  predicate Blanks(s: seq<byte>) {
    forall i | 0 <= i < |s| :: s[i] == 32 || s[i] == 9
  }

  lemma SkipBlanks(b: seq<byte>, rest: seq<byte>)
    requires Blanks(b) && (rest != [] ==> rest[0] != 32 && rest[0] != 9)
    ensures SkipWs(b + rest) == |b| && (b + rest)[|b|..] == rest
  {
    var s := b + rest;
    assert forall i | 0 <= i < |b| :: s[i] == b[i];
    SkipWsIs(s, |b|);
  }

  /** Blanks and then nothing, or a number sign and anything. */
  ghost predicate Remark(s: seq<byte>) {
    exists b: seq<byte>, c: seq<byte> :: Blanks(b) && s == b + c && (c != [] ==> c[0] == 35)
  }

  lemma RemarkIsBlank(s: seq<byte>)
    requires Remark(s)
    ensures RestIsBlank(s)
  {
    var b: seq<byte>, c: seq<byte> :| Blanks(b) && s == b + c && (c != [] ==> c[0] == 35);
    SkipBlanks(b, c);
  }

  // ----- the parts of an entry

  function ValuePart(e: seq<byte>, l: Literal, rest: seq<byte>): seq<byte> {
    [61] + (e + (ValueText(l) + rest))
  }

  lemma ReadsEquals(e: seq<byte>, t: Type, l: Literal, rest: seq<byte>)
    requires Blanks(e) && Storable(l) && CheckType(t, l) && RestIsBlank(rest)
    ensures ParseEquals(ValuePart(e, l, rest), t) == Some((l, 1 + |e| + |ValueText(l)|))
  {
    hide ParseValue, ValueText, RestIsBlank, SkipWs, Storable, CheckType, Blanks;
    var s, v := ValuePart(e, l, rest), ValueText(l) + rest;
    ValueStart(l);
    assert s[1..] == e + v && v[0] == ValueText(l)[0];
    SkipBlanks(e, v);
    assert s[1 + |e|..] == v;
    BlankEndsValue(rest);
    ValueRoundTrip(l, rest);
    assert s[1 + |e| + |ValueText(l)|..] == rest;
  }

  function TypePart(c: seq<byte>, t: Type, d: seq<byte>): seq<byte> {
    if t == NoType then [] else [58] + (c + (TypeName(t) + d))
  }

  /** `s` is a colon, `c`, the name `n`, `d` and `v`. */
  predicate IsTyped(s: seq<byte>, c: seq<byte>, n: seq<byte>, d: seq<byte>, v: seq<byte>) {
    var start, end := 1 + |c|, 1 + |c| + |n|;
    && end <= |s| && s[0] == 58 && s[0..] == s && s[0 + 1..] == c + (n + (d + v))
    && s[start..] == n + (d + v) && s[end..] == d + v && s[start..end] == n
  }

  lemma TypedParts(c: seq<byte>, n: seq<byte>, d: seq<byte>, v: seq<byte>)
    ensures var s := [58] + (c + (n + (d + v)));
            IsTyped(s, c, n, d, v) && s == [58] + (c + (n + d)) + v && |[58] + (c + (n + d))| == 1 + |c| + |n| + |d|
  {
    var s := [58] + (c + (n + (d + v)));
    assert s[1..] == c + (n + (d + v));
    assert s[1 + |c|..] == n + (d + v);
  }

  lemma ReadsType(c: seq<byte>, t: Type, d: seq<byte>, v: seq<byte>)
    requires Blanks(c) && Blanks(d) && v != [] && v[0] == 61
    ensures ParseType(TypePart(c, t, d) + v) == Some((t, |TypePart(c, t, d)|))
  {
    hide TypeName, SkipWs, Blanks, IsTyped, ParseType;
    if t == NoType {
      NoTypePart(c, d, v);
    } else {
      TypedParts(c, TypeName(t), d, v);
      ReadsTyped([58] + (c + (TypeName(t) + (d + v))), c, t, d, v);
    }
  }

  lemma NoTypePart(c: seq<byte>, d: seq<byte>, v: seq<byte>)
    requires v != [] && v[0] == 61
    ensures TypePart(c, NoType, d) == [] && ParseType([] + v) == Some((NoType, 0))
  {
    assert [] + v == v;
  }

  lemma ReadsTyped(s: seq<byte>, c: seq<byte>, t: Type, d: seq<byte>, v: seq<byte>)
    requires Blanks(c) && Blanks(d) && v != [] && v[0] == 61 && t != NoType && IsTyped(s, c, TypeName(t), d, v)
    ensures ParseType(s) == Some((t, 1 + |c| + |TypeName(t)| + |d|))
  {
    hide TypeName, TypeOf, SkipWs, TypeRun, ParseType, Blanks;
    var n, start, end := TypeName(t), 1 + |c|, 1 + |c| + |TypeName(t)|;
    TypeNameStart(t);
    assert SkipWs(s[0 + 1..]) == |c| by {
      assert (n + (d + v))[0] == n[0];
      SkipBlanks(c, n + (d + v));
    }
    assert TypeRun(s[start..]) == end - start && TypeOf(n) == t by {
      EndsType(d, v);
      TypeRoundTrip(t, d + v);
    }
    assert SkipWs(s[end..]) == |d| by { SkipBlanks(d, v); }
    TypeIsRead(s, start, end, t, |d|);
  }

  lemma EndsType(d: seq<byte>, v: seq<byte>)
    requires Blanks(d) && v != [] && v[0] == 61
    ensures !TypeChar((d + v)[0])
  {
    if d != [] { assert (d + v)[0] == d[0]; }
  }

  lemma TypeIsRead(s: seq<byte>, start: nat, end: nat, t: Type, k: nat)
    requires 0 < start <= end <= |s| && s[0] == 58 && s[0..] == s && SkipWs(s[0 + 1..]) == start - 1
    requires TypeRun(s[start..]) == end - start && t != NoType && TypeOf(s[start..end]) == t && SkipWs(s[end..]) == k
    ensures ParseType(s) == Some((t, end + k))
  {
    hide TypeName, TypeOf, SkipWs, TypeRun, ParseType;
    TypeAt(s, 0, start, end);
  }

  lemma ReadsTail(b: seq<byte>, c: seq<byte>, t: Type, d: seq<byte>, e: seq<byte>, l: Literal, rest: seq<byte>)
    requires Blanks(b) && Blanks(c) && Blanks(d) && Blanks(e) && Storable(l) && CheckType(t, l) && RestIsBlank(rest)
    ensures var tail := b + (TypePart(c, t, d) + ValuePart(e, l, rest));
            ParseTail(tail) == Some((t, l, |tail| - |rest|))
  {
    hide ParseTail, ParseType, ParseEquals, SkipWs, TypeName, ValueText, Storable, CheckType, RestIsBlank, Blanks;
    var v := ValuePart(e, l, rest);
    var more := TypePart(c, t, d) + v;
    assert more[0] == 58 || more[0] == 61;
    SkipBlanks(b, more);
    ReadsType(c, t, d, v);
    ReadsEquals(e, t, l, rest);
    assert (b + more)[|b| + |TypePart(c, t, d)|..] == v;
    TailFrom(b + more, |b|, |TypePart(c, t, d)|, t, v);
  }

  lemma WrittenKey(a: seq<byte>, name: seq<byte>)
    requires Blanks(a) && NoNul(name)
    ensures KeyPrefix(a + NameText(name), name)
  {
    hide ParseName, SkipWs, NameText, Blanks;
    NameStart(name);
    SkipBlanks(a, NameText(name));
    NameRoundTrip(name, []);
    assert NameText(name) + [] == NameText(name);
  }

  /** However an entry is laid out, it is read as its key, type and value, from the place its key
      ends to the place its value ends. */
  lemma AnyLayout(a: seq<byte>, name: seq<byte>, b: seq<byte>, c: seq<byte>, t: Type, d: seq<byte>, e: seq<byte>,
                  l: Literal, rest: seq<byte>)
    requires Blanks(a) && Blanks(b) && Blanks(c) && Blanks(d) && Blanks(e) && Remark(rest)
    requires NoNul(name) && Storable(l) && CheckType(t, l)
    ensures var key := a + NameText(name);
            var text := key + (b + (TypePart(c, t, d) + ([61] + (e + (ValueText(l) + rest)))));
            ParseLine(text) == Entry(text, name, |key|, |text| - |rest|, t, l)
  {
    hide ParseName, ParseTail, SkipWs, RestIsBlank, CheckType, Storable, KeyPrefix, NameText, ValueText, TypePart, Remark;
    RemarkIsBlank(rest);
    var key, tail := a + NameText(name), b + (TypePart(c, t, d) + ValuePart(e, l, rest));
    var text := key + tail;
    WrittenKey(a, name);
    ReadsTail(b, c, t, d, e, l, rest);
    EndsKey(b, c, t, d, ValuePart(e, l, rest));
    KeyReads(key, name, tail);
    assert text[|key|..] == tail;
  }

  lemma EndsKey(b: seq<byte>, c: seq<byte>, t: Type, d: seq<byte>, v: seq<byte>)
    requires Blanks(b) && v != [] && v[0] == 61
    ensures EndsName(b + (TypePart(c, t, d) + v))
  {
    var s := b + (TypePart(c, t, d) + v);
    if b != [] { assert s[0] == b[0]; }
  }

  // ----- lines that are no entry

  /** An empty line and a comment are kept as text. */
  lemma RemarkIsRaw(s: seq<byte>)
    requires Remark(s)
    ensures ParseLine(s) == Raw(s)
  {
    var b: seq<byte>, c: seq<byte> :| Blanks(b) && s == b + c && (c != [] ==> c[0] == 35);
    SkipBlanks(b, c);
  }

  /** A header may have blanks anywhere and a comment behind it. */
  lemma AnyHeader(a: seq<byte>, b: seq<byte>, ns: seq<byte>, c: seq<byte>, rest: seq<byte>)
    requires Blanks(a) && Blanks(b) && Blanks(c) && Remark(rest) && NoNul(ns)
    ensures var text := a + ([91] + (b + (NameText(ns) + (c + ([93] + rest)))));
            ParseLine(text) == Section(text, ns)
  {
    hide ParseName, ParseLine, SkipWs, NameText, Blanks, Remark, RestIsBlank;
    RemarkIsBlank(rest);
    var n := NameText(ns);
    var close := [93] + rest;
    var text := a + ([91] + (b + (n + (c + close))));
    HeaderParts(a, b, n, c, rest);
    NameStart(ns);
    SkipBlanks(a, [91] + (b + (n + (c + close))));
    SkipBlanks(b, n + (c + close));
    EndsHeader(c, close);
    NameRoundTrip(ns, c + close);
    SkipBlanks(c, close);
    var p := |a| + 1 + |b|;
    HeaderReads(text, |a|, p, |n|, p + |n| + |c|, ns);
  }

  lemma HeaderParts(a: seq<byte>, b: seq<byte>, n: seq<byte>, c: seq<byte>, rest: seq<byte>)
    ensures var close := [93] + rest;
            var text, p := a + ([91] + (b + (n + (c + close)))), |a| + 1 + |b|;
            && p + |n| + |c| < |text| && text[|a|] == 91 && text[|a| + 1..] == b + (n + (c + close))
            && text[p..] == n + (c + close) && text[p + |n|..] == c + close && text[p + |n| + |c|] == 93
            && text[p + |n| + |c| + 1..] == rest && (n != [] ==> (n + (c + close))[0] == n[0])
  {
    assert (a + ([91] + (b + (n + (c + ([93] + rest))))))[|a| + 1..] == b + (n + (c + ([93] + rest)));
  }

  lemma EndsHeader(c: seq<byte>, close: seq<byte>)
    requires Blanks(c) && close != [] && close[0] == 93
    ensures EndsName(c + close)
  {
    if c != [] { assert (c + close)[0] == c[0]; }
  }

  // ----- a new namespace

  /** A namespace that is not there yet is opened at the end: its header `[ns]` stands behind an
      empty line, or begins the file, and at most that one line is added for it. */
  lemma NewNamespace(s: seq<Line>, ns: Text, e: Line)
    requires InsertPoint(s, ns).None?
    ensures var t := Inserted(s, ns, e);
            && |s| + 2 <= |t| <= |s| + 3 && t[..|s|] == s && t[|t| - 1] == e
            && t[|t| - 2] == Section([91] + NameText(ns) + [93], ns)
            && (|t| > 2 ==> t[|t| - 3].text == [])
            && (|t| == |s| + 3 ==> t[|s|] == Raw([]) && s[|s| - 1].text != [])
  {
    hide InsertPoint, NameText;
  }
}
