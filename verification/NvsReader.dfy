/** The loops of idf_compat/src/nvs.c that read and print one line, with a cursor into the
    text and a string builder, each proved against the function for the same part of the
    line. */
module NvsReader {
  import opened Prelude
  import opened NvsText
  import opened NvsValue
  import opened NvsLine

  // ----- printing

  method PutQuoted(b: seq<byte>) returns (out: seq<byte>)
    ensures out == Quoted(b)
  {
    out := [QUOTE];
    var i := 0;
    while i < |b|
      invariant 0 <= i <= |b| && out + Escape(b[i..]) == [QUOTE] + Escape(b)
    {
      assert b[i..][1..] == b[i + 1..];
      assert out + EscapeByte(b[i]) + Escape(b[i + 1..]) == out + Escape(b[i..]);
      out := out + EscapeByte(b[i]);
      i := i + 1;
    }
    assert out + Escape(b[i..]) == out;
    out := out + [QUOTE];
  }

  method IsBareKeyLoop(name: seq<byte>) returns (r: bool)
    ensures r == IsBareKey(name)
  {
    if name == [] { return false; }
    var i := 0;
    while i < |name|
      invariant 0 <= i <= |name| && forall j | 0 <= j < i :: BareChar(name[j])
    {
      if !BareChar(name[i]) { return false; }
      i := i + 1;
    }
    return true;
  }

  method PutName(name: seq<byte>) returns (out: seq<byte>)
    ensures out == NameText(name)
  {
    var bare := IsBareKeyLoop(name);
    if bare { return name; }
    out := PutQuoted(name);
  }

  method PutValue(l: Literal) returns (out: seq<byte>)
    ensures out == ValueText(l)
  {
    match l
    case Int(neg, mag) => out := (if neg then [MINUS] else []) + Decimal(mag);
    case Str(data) => out := PutQuoted(data);
    case Blob(data) =>
      out := [ZERO, LOWER_X];
      var i := 0;
      while i < |data|
        invariant 0 <= i <= |data| && out + HexText(data[i..]) == [ZERO, LOWER_X] + HexText(data)
      {
        assert data[i..][1..] == data[i + 1..];
        assert out + Hex2(data[i]) + HexText(data[i + 1..]) == out + HexText(data[i..]);
        out := out + Hex2(data[i]);
        i := i + 1;
      }
      assert out + HexText(data[i..]) == out;
  }

  /** `entry_render` on a line whose type and literal are already stored. */
  method EntryRender(e: Line) returns (r: Line)
    requires e.Entry? && e.keyEnd <= |e.text| && e.valueEnd <= |e.text|
    ensures r == Render(e, e.vtype, e.lit)
  {
    var sb := e.text[..e.keyEnd];
    if e.vtype != NoType {
      sb := sb + [COLON, SPACE] + TypeName(e.vtype);
    }
    sb := sb + [SPACE, EQUALS, SPACE];
    var v := PutValue(e.lit);
    sb := sb + v;
    assert sb == e.text[..e.keyEnd] + TailText(e.vtype, e.lit);
    r := e.(text := sb + e.text[e.valueEnd..], valueEnd := |sb|);
  }

  // ----- reading

  /** `ParseChars` by positions in the text. */
  lemma CharsAt(text: seq<byte>, p: nat)
    requires p < |text|
    ensures text[p] == QUOTE ==> ParseChars(text[p..]) == Some(([], 1))
    ensures text[p] != QUOTE ==>
              ParseChars(text[p..]) ==
              match ParseChar(text[p..])
              case None => None
              case Some((b, n)) =>
                match ParseChars(text[p + n..])
                case None => None
                case Some((rest, m)) => Some((b + rest, n + m))
  {
    hide ParseChar;
    if text[p] != QUOTE && ParseChar(text[p..]).Some? { DropDrop(text, p, ParseChar(text[p..]).value.1); }
  }

  lemma CharsEnd(s: seq<byte>)
    ensures s == [] ==> ParseChars(s).None?
  {
  }

  method ReadString(text: seq<byte>, p0: nat) returns (ok: bool, out: seq<byte>, p: nat)
    requires p0 < |text|
    ensures ok == ParseString(text[p0..]).Some?
    ensures ok ==> p0 <= p <= |text| && ParseString(text[p0..]) == Some((out, p - p0))
  {
    hide ParseChar, ParseChars;
    p, out, ok := p0 + 1, [], true;
    DropDrop(text, p0, 1);
    ghost var all := ParseChars(text[p0 + 1..]);
    if all.Some? { assert out + all.value.0 == all.value.0; }
    while p < |text| && text[p] != QUOTE
      invariant p0 < p <= |text|
      invariant all ==
                match ParseChars(text[p..])
                case None => None
                case Some((b, n)) => Some((out + b, n + (p - p0 - 1)))
    {
      CharsAt(text, p);
      var c := ParseChar(text[p..]);
      if c.None? { return false, out, p; }
      ghost var more := ParseChars(text[p + c.value.1..]);
      if more.Some? { assert out + (c.value.0 + more.value.0) == out + c.value.0 + more.value.0; }
      out, p := out + c.value.0, p + c.value.1;
    }
    if p == |text| {
      CharsEnd(text[p..]);
      return false, out, p;
    }
    CharsAt(text, p);
    assert out + [] == out;
    p := p + 1;
  }

  method ReadName(text: seq<byte>, p0: nat) returns (ok: bool, name: seq<byte>, p: nat)
    requires p0 <= |text|
    ensures ok == ParseName(text[p0..]).Some?
    ensures ok ==> p0 <= p <= |text| && ParseName(text[p0..]) == Some((name, p - p0))
  {
    if p0 < |text| && text[p0] == QUOTE {
      ok, name, p := ReadString(text, p0);
      return;
    }
    p := p0;
    while p < |text| && BareChar(text[p])
      invariant p0 <= p <= |text| && forall i | p0 <= i < p :: BareChar(text[i])
    {
      p := p + 1;
    }
    BareRunIs(text[p0..], p - p0);
    ok, name := p != p0, text[p0..p];
    assert text[p0..][..p - p0] == text[p0..p];
  }

  method HexRunLoop(text: seq<byte>, p0: nat) returns (p: nat)
    requires p0 <= |text|
    ensures p0 <= p <= |text| && p == p0 + HexRun(text[p0..])
  {
    p := p0;
    while p < |text| && HexVal(text[p]).Some?
      invariant p0 <= p <= |text| && forall i | p0 <= i < p :: HexVal(text[i]).Some?
    {
      p := p + 1;
    }
    HexRunIs(text[p0..], p - p0);
  }

  lemma NextPair(s: seq<byte>, i: nat)
    requires |s| % 2 == 0 && i % 2 == 0 && i < |s| && forall k | 0 <= k < |s| :: HexVal(s[k]).Some?
    ensures i + 2 <= |s| && HexPairs(s[i..]) == [HexByte(s[i], s[i + 1])] + HexPairs(s[i + 2..])
  {
    DropDrop(s, i, 2);
  }

  method HexBytes(s: seq<byte>) returns (out: seq<byte>)
    requires |s| % 2 == 0 && forall i | 0 <= i < |s| :: HexVal(s[i]).Some?
    ensures out == HexPairs(s)
  {
    hide HexPairs, HexByte, HexVal;
    out := [];
    var i := 0;
    assert s[0..] == s;
    while i < |s|
      invariant 0 <= i <= |s| && i % 2 == 0 && out + HexPairs(s[i..]) == HexPairs(s)
    {
      NextPair(s, i);
      var b := HexByte(s[i], s[i + 1]);
      assert out + [b] + HexPairs(s[i + 2..]) == out + ([b] + HexPairs(s[i + 2..]));
      out := out + [b];
      i := i + 2;
    }
    assert HexPairs(s[i..]) == [] by { NoPairs(s[i..]); }
  }

  lemma NoPairs(s: seq<byte>)
    requires s == []
    ensures HexPairs(s) == []
  {
  }

  method ReadInt(text: seq<byte>, p0: nat) returns (ok: bool, l: Literal, p: nat)
    requires p0 <= |text|
    ensures ok == ParseInt(text[p0..]).Some?
    ensures ok ==> p0 <= p <= |text| && ParseInt(text[p0..]) == Some((l, p - p0))
  {
    hide ReadDigits;
    p, l := p0, Int(false, 0);
    var neg := p < |text| && text[p] == MINUS;
    if neg { p := p + 1; }
    DropDrop(text, p0, p - p0);
    if p == |text| || !IsDigit(text[p]) { return false, l, p; }
    var mag;
    ok, mag, p := ReadDigitsLoop(text, p);
    if !ok || (neg && mag > 0x8000_0000_0000_0000) { return false, l, p; }
    l := Int(neg && mag != 0, mag);
  }

  method ReadValue(text: seq<byte>, p0: nat) returns (ok: bool, l: Literal, p: nat)
    requires p0 <= |text|
    ensures ok == ParseValue(text[p0..]).Some?
    ensures ok ==> p0 <= p <= |text| && ParseValue(text[p0..]) == Some((l, p - p0))
  {
    hide ParseInt, ParseString, HexPairs, HexRun;
    l := Int(false, 0);
    if p0 < |text| && text[p0] == QUOTE {
      var data;
      ok, data, p := ReadString(text, p0);
      l := Str(data);
    } else if p0 + 1 < |text| && text[p0] == ZERO && (text[p0 + 1] == LOWER_X || text[p0 + 1] == 88) {
      DropDrop(text, p0, 2);
      p := HexRunLoop(text, p0 + 2);
      var n := p - (p0 + 2);
      ok := n % 2 == 0;
      if ok {
        assert text[p0 + 2..][..n] == text[p0 + 2..p];
        var data := HexBytes(text[p0 + 2..p]);
        l := Blob(data);
      }
    } else {
      ok, l, p := ReadInt(text, p0);
    }
  }

  method TypeRunLoop(text: seq<byte>, p0: nat) returns (p: nat)
    requires p0 <= |text|
    ensures p0 <= p <= |text| && p == p0 + TypeRun(text[p0..])
  {
    p := p0;
    while p < |text| && TypeChar(text[p])
      invariant p0 <= p <= |text| && forall i | p0 <= i < p :: TypeChar(text[i])
    {
      p := p + 1;
    }
    TypeRunIs(text[p0..], p - p0);
  }

  lemma NothingAt(text: seq<byte>, p: nat, t: Type)
    requires p <= |text|
    ensures p == |text| || text[p] != COLON ==> ParseType(text[p..]) == Some((NoType, 0))
    ensures p == |text| || text[p] != EQUALS ==> ParseEquals(text[p..], t).None?
  {
  }

  method ReadType(text: seq<byte>, p0: nat) returns (ok: bool, t: Type, p: nat)
    requires p0 <= |text|
    ensures ok == ParseType(text[p0..]).Some?
    ensures ok ==> p0 <= p <= |text| && ParseType(text[p0..]) == Some((t, p - p0))
  {
    hide TypeOf, SkipWs, TypeRun, ParseType;
    p, t := p0, NoType;
    if p == |text| || text[p] != COLON {
      NothingAt(text, p, t);
      return true, t, p;
    }
    var start := SkipWsLoop(text, p + 1);
    var end := TypeRunLoop(text, start);
    TypeAt(text, p, start, end);
    t := TypeOf(text[start..end]);
    if t == NoType { return false, t, p; }
    p := SkipWsLoop(text, end);
    ok := true;
  }

  method BlankFrom(text: seq<byte>, p0: nat) returns (r: bool)
    requires p0 <= |text|
    ensures r == RestIsBlank(text[p0..])
  {
    var p := SkipWsLoop(text, p0);
    return p == |text| || text[p] == HASH;
  }

  /** `ParseEquals` by positions in the text. */
  lemma EqualsAt(text: seq<byte>, p: nat, v: nat, t: Type)
    requires p < v <= |text| && text[p] == EQUALS && v == p + 1 + SkipWs(text[p + 1..])
    ensures ParseEquals(text[p..], t) ==
            match ParseValue(text[v..])
            case None => None
            case Some((l, n)) => if RestIsBlank(text[v + n..]) && CheckType(t, l) then Some((l, v + n - p)) else None
  {
    hide ParseValue, SkipWs, RestIsBlank, CheckType;
    DropDrop(text, p, 1);
    DropDrop(text, p, v - p);
    var r := ParseValue(text[v..]);
    if r.Some? { DropDrop(text, p, v - p + r.value.1); }
  }

  method ReadEquals(text: seq<byte>, p0: nat, t: Type) returns (ok: bool, l: Literal, p: nat)
    requires p0 <= |text|
    ensures ok == ParseEquals(text[p0..], t).Some?
    ensures ok ==> p0 <= p <= |text| && ParseEquals(text[p0..], t) == Some((l, p - p0))
  {
    hide ParseEquals, ParseValue, SkipWs, RestIsBlank, CheckType;
    p, l := p0, Int(false, 0);
    if p == |text| || text[p] != EQUALS {
      NothingAt(text, p, t);
      return false, l, p;
    }
    var v := SkipWsLoop(text, p + 1);
    EqualsAt(text, p0, v, t);
    ok, l, p := ReadValue(text, v);
    if !ok { return; }
    var blank := BlankFrom(text, p);
    ok := blank && CheckType(t, l);
  }

  /** `ParseTail` by positions in the text. */
  lemma TailAt(text: seq<byte>, p: nat, a: nat)
    requires p <= a <= |text| && a == p + SkipWs(text[p..])
    ensures ParseTail(text[p..]) ==
            match ParseType(text[a..])
            case None => None
            case Some((t, k)) =>
              match ParseEquals(text[a + k..], t)
              case None => None
              case Some((l, m)) => Some((t, l, a + k + m - p))
  {
    hide ParseType, ParseEquals, SkipWs, CheckType, RestIsBlank;
    DropDrop(text, p, a - p);
    var r := ParseType(text[a..]);
    if r.Some? { DropDrop(text, p, a - p + r.value.1); }
  }

  method ReadEntry(text: seq<byte>, p0: nat) returns (l: Line)
    requires p0 <= |text|
    ensures l == ParseEntry(text, p0)
  {
    hide ParseName, ParseType, ParseEquals, ParseTail, SkipWs, CheckType, RestIsBlank;
    var ok, name, keyEnd := ReadName(text, p0);
    if !ok { return Raw(text); }
    var p := SkipWsLoop(text, keyEnd);
    TailAt(text, keyEnd, p);
    var t, lit;
    ok, t, p := ReadType(text, p);
    if !ok { return Raw(text); }
    ok, lit, p := ReadEquals(text, p, t);
    if !ok { return Raw(text); }
    l := Entry(text, name, keyEnd, p, t, lit);
  }

  method ReadSection(text: seq<byte>, p0: nat) returns (l: Line)
    requires p0 <= |text|
    ensures l == ParseSection(text, p0)
  {
    hide ParseName, SkipWs, RestIsBlank;
    var p := SkipWsLoop(text, p0);
    var ok, name;
    ok, name, p := ReadName(text, p);
    if !ok { return Raw(text); }
    p := SkipWsLoop(text, p);
    if p == |text| || text[p] != RBRACKET { return Raw(text); }
    var blank := BlankFrom(text, p + 1);
    l := if blank then Section(text, name) else Raw(text);
  }

  /** `parse_line` */
  method ReadLine(text: seq<byte>) returns (l: Line)
    ensures l == ParseLine(text)
  {
    hide ParseEntry, ParseSection;
    var p := SkipWsLoop(text, 0);
    assert text[0..] == text;
    if p == |text| || text[p] == HASH { return Raw(text); }
    if text[p] == LBRACKET {
      l := ReadSection(text, p + 1);
    } else {
      l := ReadEntry(text, p);
    }
  }
}
