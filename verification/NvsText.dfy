/** The pieces of a line of idf_compat/src/nvs.c, as bytes without the final NUL. */
module NvsText {
  import opened Prelude

  const TAB: byte := 9
  const NEWLINE: byte := 10
  const RETURN: byte := 13
  const SPACE: byte := 32
  const QUOTE: byte := 34
  const HASH: byte := 35
  const MINUS: byte := 45
  const ZERO: byte := 48
  const COLON: byte := 58
  const EQUALS: byte := 61
  const LBRACKET: byte := 91
  const BACKSLASH: byte := 92
  const RBRACKET: byte := 93
  const LOWER_X: byte := 120

  // ----- blanks

  predicate IsWs(c: byte) {
    c == SPACE || c == TAB
  }

  function SkipWs(s: seq<byte>): (n: nat)
    ensures n <= |s| && (forall i | 0 <= i < n :: IsWs(s[i])) && (n < |s| ==> !IsWs(s[n]))
  {
    if s != [] && IsWs(s[0]) then 1 + SkipWs(s[1..]) else 0
  }

  method SkipWsLoop(text: seq<byte>, p0: nat) returns (p: nat)
    requires p0 <= |text|
    ensures p == p0 + SkipWs(text[p0..])
  {
    p := p0;
    while p < |text| && IsWs(text[p])
      invariant p0 <= p <= |text| && p + SkipWs(text[p..]) == p0 + SkipWs(text[p0..])
    {
      assert text[p..][1..] == text[p + 1..];
      p := p + 1;
    }
  }

  /** Nothing but blanks, or a comment. */
  predicate RestIsBlank(s: seq<byte>) {
    var n := SkipWs(s);
    n == |s| || s[n] == HASH
  }

  // ----- hexadecimal

  function HexVal(c: byte): Option<nat> {
    if 48 <= c <= 57 then Some(c - 48)
    else if 97 <= c <= 102 then Some(c - 97 + 10)
    else if 65 <= c <= 70 then Some(c - 65 + 10)
    else None
  }

  function HexDigit(v: nat): byte
    requires v < 16
  {
    if v < 10 then 48 + v else 97 + (v - 10)
  }

  function Hex2(v: byte): seq<byte> {
    [HexDigit(v / 16), HexDigit(v % 16)]
  }

  lemma HexRoundTrip(v: nat)
    requires v < 16
    ensures HexVal(HexDigit(v)) == Some(v)
  {
  }

  /** Exactly `digits` hexadecimal digits, added to `cp`. */
  function ReadHex(s: seq<byte>, digits: nat, cp: nat): Option<nat>
    decreases digits
  {
    if digits == 0 then Some(cp)
    else if s == [] || HexVal(s[0]).None? then None
    else ReadHex(s[1..], digits - 1, 16 * cp + HexVal(s[0]).value)
  }

  lemma {:induction false} ReadHexEnough(s: seq<byte>, digits: nat, cp: nat)
    requires ReadHex(s, digits, cp).Some?
    ensures digits <= |s|
    decreases digits
  {
    if digits > 0 { ReadHexEnough(s[1..], digits - 1, 16 * cp + HexVal(s[0]).value); }
  }

  lemma {:induction false} ReadHexLocal(s: seq<byte>, t: seq<byte>, digits: nat, cp: nat)
    requires digits <= |s| && digits <= |t| && s[..digits] == t[..digits]
    ensures ReadHex(s, digits, cp) == ReadHex(t, digits, cp)
    decreases digits
  {
    if digits > 0 {
      assert s[0] == s[..digits][0] == t[..digits][0] == t[0];
      assert s[1..][..digits - 1] == s[..digits][1..] && t[1..][..digits - 1] == t[..digits][1..];
      if HexVal(s[0]).Some? {
        ReadHexLocal(s[1..], t[1..], digits - 1, 16 * cp + HexVal(s[0]).value);
      }
    }
  }

  // ----- quoted strings

  function Utf8(cp: nat): (b: seq<byte>)
    requires cp < 0x11_0000
  {
    if cp < 0x80 then [cp]
    else if cp < 0x800 then [0xc0 + cp / 64, 0x80 + cp % 64]
    else if cp < 0x1_0000 then [0xe0 + cp / 4096, 0x80 + cp / 64 % 64, 0x80 + cp % 64]
    else [0xf0 + cp / 262144, 0x80 + cp / 4096 % 64, 0x80 + cp / 64 % 64, 0x80 + cp % 64]
  }

  predicate IsTail(c: byte) {
    0x80 <= c < 0xc0
  }

  /** Section 3 of RFC 3629, read backwards. */
  function FromUtf8(b: seq<byte>): Option<nat> {
    if |b| == 1 && b[0] < 0x80 then Some(b[0])
    else if |b| == 2 && 0xc0 <= b[0] < 0xe0 && IsTail(b[1]) then Some((b[0] as nat - 0xc0) * 64 + (b[1] - 0x80))
    else if |b| == 3 && 0xe0 <= b[0] < 0xf0 && IsTail(b[1]) && IsTail(b[2]) then
      Some((b[0] as nat - 0xe0) * 4096 + (b[1] as nat - 0x80) * 64 + (b[2] - 0x80))
    else if |b| == 4 && 0xf0 <= b[0] < 0xf8 && IsTail(b[1]) && IsTail(b[2]) && IsTail(b[3]) then
      Some((b[0] as nat - 0xf0) * 262144 + (b[1] as nat - 0x80) * 4096 + (b[2] as nat - 0x80) * 64 + (b[3] - 0x80))
    else None
  }

  /** Four digits of six bits. */
  lemma SixBitDigits(cp: nat)
    ensures cp / 64 * 64 + cp % 64 == cp
    ensures cp / 4096 * 4096 + cp / 64 % 64 * 64 + cp % 64 == cp
    ensures cp / 262144 * 262144 + cp / 4096 % 64 * 4096 + cp / 64 % 64 * 64 + cp % 64 == cp
  {
    var a, b := cp / 64, cp / 64 / 64;
    DivUnique(cp, 4096, b, a % 64 * 64 + cp % 64);
    DivUnique(cp, 262144, b / 64, b % 64 * 4096 + a % 64 * 64 + cp % 64);
  }

  /** An escape stands for the UTF-8 of its code point, which holds no NUL. */
  lemma Utf8Decodes(cp: nat)
    requires cp < 0x11_0000
    ensures FromUtf8(Utf8(cp)) == Some(cp) && (cp > 0 ==> NoNul(Utf8(cp)))
  {
    SixBitDigits(cp);
    if cp < 0x80 {
      assert Utf8(cp) == [cp];
    } else if cp < 0x800 {
      Utf8Two(cp / 64, cp % 64);
    } else if cp < 0x1_0000 {
      Utf8Three(cp / 4096, cp / 64 % 64, cp % 64);
    } else {
      Utf8Four(cp / 262144, cp / 4096 % 64, cp / 64 % 64, cp % 64);
    }
  }

  lemma Utf8Two(a: nat, b: nat)
    requires a < 32 && b < 64
    ensures FromUtf8([0xc0 + a, 0x80 + b]) == Some(a * 64 + b)
  {
  }

  lemma Utf8Three(a: nat, b: nat, c: nat)
    requires a < 16 && b < 64 && c < 64
    ensures FromUtf8([0xe0 + a, 0x80 + b, 0x80 + c]) == Some(a * 4096 + b * 64 + c)
  {
  }

  lemma Utf8Four(a: nat, b: nat, c: nat, d: nat)
    requires a < 8 && b < 64 && c < 64 && d < 64
    ensures FromUtf8([0xf0 + a, 0x80 + b, 0x80 + c, 0x80 + d]) == Some(a * 262144 + b * 4096 + c * 64 + d)
  {
  }

  predicate BadCodePoint(cp: nat) {
    cp == 0 || cp > 0x10_ffff || 0xd800 <= cp <= 0xdfff
  }

  /** One character of a quoted string: the bytes it stands for and its length. */
  function ParseChar(s: seq<byte>): (r: Option<(seq<byte>, nat)>)
    requires s != [] && s[0] != QUOTE
    ensures r.Some? ==> 0 < r.value.1 <= |s|
  {
    if s[0] != BACKSLASH then Some(([s[0]], 1))
    else if |s| == 1 then None
    else if s[1] == QUOTE || s[1] == BACKSLASH then Some(([s[1]], 2))
    else if s[1] == 110 then Some(([10], 2))
    else if s[1] == 116 then Some(([9], 2))
    else if s[1] == 114 then Some(([13], 2))
    else if s[1] == 98 then Some(([8], 2))
    else if s[1] == 102 then Some(([12], 2))
    else if s[1] == 117 || s[1] == 85 then
      var digits := if s[1] == 117 then 4 else 8;
      match ReadHex(s[2..], digits, 0)
      case None => None
      case Some(cp) =>
        ReadHexEnough(s[2..], digits, 0);
        if BadCodePoint(cp) then None else Some((Utf8(cp), 2 + digits))
    else None
  }

  /** After the opening quote: the bytes and the length up to and with the closing one. */
  function ParseChars(s: seq<byte>): (r: Option<(seq<byte>, nat)>)
    ensures r.Some? ==> 0 < r.value.1 <= |s|
    decreases |s|
  {
    if s == [] then None
    else if s[0] == QUOTE then Some(([], 1))
    else
      match ParseChar(s)
      case None => None
      case Some((b, n)) =>
        match ParseChars(s[n..])
        case None => None
        case Some((rest, m)) => Some((b + rest, n + m))
  }

  /** `parse_string`, from the opening quote. */
  function ParseString(s: seq<byte>): (r: Option<(seq<byte>, nat)>)
    requires s != []
    ensures r.Some? ==> 1 < r.value.1 <= |s|
  {
    match ParseChars(s[1..])
    case None => None
    case Some((b, n)) => Some((b, n + 1))
  }

  function EscapeByte(c: byte): seq<byte> {
    if c == QUOTE then [BACKSLASH, QUOTE]
    else if c == BACKSLASH then [BACKSLASH, BACKSLASH]
    else if c == NEWLINE then [BACKSLASH, 110]
    else if c == TAB then [BACKSLASH, 116]
    else if c < 0x20 || c == 0x7f then [BACKSLASH, 117, ZERO, ZERO] + Hex2(c)
    else [c]
  }

  function Escape(b: seq<byte>): seq<byte> {
    if b == [] then [] else EscapeByte(b[0]) + Escape(b[1..])
  }

  /** `put_quoted` */
  function Quoted(b: seq<byte>): seq<byte> {
    [QUOTE] + Escape(b) + [QUOTE]
  }

  predicate NoNul(b: seq<byte>) {
    forall i | 0 <= i < |b| :: b[i] != 0
  }

  lemma EscapedByteReads(c: byte, rest: seq<byte>)
    requires c != 0
    ensures var s := EscapeByte(c) + rest; s[0] != QUOTE && ParseChar(s) == Some(([c], |EscapeByte(c)|))
  {
    var s := EscapeByte(c) + rest;
    if c != QUOTE && c != BACKSLASH && c != NEWLINE && c != TAB && (c < 0x20 || c == 0x7f) {
      var t := s[2..];
      assert t == [ZERO, ZERO, HexDigit(c / 16), HexDigit(c % 16)] + rest;
      HexRoundTrip(c / 16);
      HexRoundTrip(c % 16);
      assert t[1..][0] == ZERO && t[1..][1..][0] == HexDigit(c / 16) && t[1..][1..][1..][0] == HexDigit(c % 16);
      assert ReadHex(t[1..][1..][1..][1..], 0, c) == Some(c);
      assert ReadHex(t[1..][1..], 2, 0) == Some(c);
      assert ReadHex(t, 4, 0) == Some(c);
    }
  }

  lemma {:induction false} EscapeReads(b: seq<byte>, rest: seq<byte>)
    requires NoNul(b)
    ensures ParseChars(Escape(b) + [QUOTE] + rest) == Some((b, |Escape(b)| + 1))
  {
    hide ParseChar, EscapeByte;
    var s := Escape(b) + [QUOTE] + rest;
    if b != [] {
      var tail := Escape(b[1..]) + [QUOTE] + rest;
      EscapedByteReads(b[0], tail);
      EscapeReads(b[1..], rest);
      assert s == EscapeByte(b[0]) + tail;
      assert s[|EscapeByte(b[0])|..] == tail;
      assert b == [b[0]] + b[1..];
    }
  }

  /** A printed string reads back, whatever follows it. */
  lemma QuotedRoundTrip(b: seq<byte>, rest: seq<byte>)
    requires NoNul(b)
    ensures ParseString(Quoted(b) + rest) == Some((b, |Quoted(b)|))
  {
    EscapeReads(b, rest);
    assert (Quoted(b) + rest)[1..] == Escape(b) + [QUOTE] + rest;
  }

  /** Whatever can be read holds no NUL, escapes included. */
  lemma {:induction false} ParsedHasNoNul(s: seq<byte>)
    requires NoNul(s) && ParseChars(s).Some?
    ensures NoNul(ParseChars(s).value.0)
    decreases |s|
  {
    hide Utf8, ReadHex;
    if s[0] != QUOTE {
      var n := ParseChar(s).value.1;
      ParsedHasNoNul(s[n..]);
      if s[0] == BACKSLASH && (s[1] == 117 || s[1] == 85) {
        var digits := if s[1] == 117 then 4 else 8;
        Utf8Decodes(ReadHex(s[2..], digits, 0).value);
      }
    }
  }

  /** Reading looks at nothing past the closing quote. */
  lemma ParseCharLocal(s: seq<byte>, n: nat, t: seq<byte>)
    requires s != [] && s[0] != QUOTE && ParseChar(s).Some? && ParseChar(s).value.1 == n
    ensures var u := s[..n] + t; u != [] && u[0] != QUOTE && ParseChar(u) == ParseChar(s)
  {
    var u := s[..n] + t;
    assert forall i | 0 <= i < n :: u[i] == s[i];
    if s[0] == BACKSLASH && (s[1] == 117 || s[1] == 85) {
      var digits := if s[1] == 117 then 4 else 8;
      ReadHexEnough(s[2..], digits, 0);
      assert s[2..][..digits] == u[2..][..digits];
      ReadHexLocal(s[2..], u[2..], digits, 0);
    }
  }

  lemma {:induction false} ParseCharsLocal(s: seq<byte>, t: seq<byte>)
    requires ParseChars(s).Some?
    ensures var n := ParseChars(s).value.1; ParseChars(s[..n] + t) == ParseChars(s)
    decreases |s|
  {
    hide ParseChar;
    var n := ParseChars(s).value.1;
    if s[0] != QUOTE {
      var k := ParseChar(s).value.1;
      ParseCharsLocal(s[k..], t);
      ParseCharLocal(s, k, s[k..n] + t);
      assert s[..n] + t == s[..k] + (s[k..n] + t);
      assert s[k..][..n - k] == s[k..n];
      assert (s[..n] + t)[k..] == s[k..n] + t;
    }
  }

  lemma ParseStringLocal(s: seq<byte>, t: seq<byte>)
    requires s != [] && ParseString(s).Some?
    ensures var n := ParseString(s).value.1; ParseString(s[..n] + t) == ParseString(s)
  {
    var n := ParseString(s).value.1;
    ParseCharsLocal(s[1..], t);
    assert s[1..][..n - 1] == s[..n][1..];
    assert (s[..n] + t)[1..] == s[1..][..n - 1] + t;
  }

  lemma {:induction false} LastIsQuote(s: seq<byte>)
    requires ParseChars(s).Some?
    ensures s[ParseChars(s).value.1 - 1] == QUOTE
    decreases |s|
  {
    hide ParseChar;
    if s[0] != QUOTE {
      var k := ParseChar(s).value.1;
      LastIsQuote(s[k..]);
    }
  }

  lemma ClosingQuote(s: seq<byte>)
    requires s != [] && ParseString(s).Some?
    ensures s[ParseString(s).value.1 - 1] == QUOTE
  {
    LastIsQuote(s[1..]);
  }

  // ----- names

  predicate BareChar(c: byte) {
    65 <= c <= 90 || 97 <= c <= 122 || 48 <= c <= 57 || c == 95 || c == 45
  }

  /** The bare characters at the front. */
  function BareRun(s: seq<byte>): (n: nat)
    ensures n <= |s| && (forall i | 0 <= i < n :: BareChar(s[i])) && (n < |s| ==> !BareChar(s[n]))
  {
    if s != [] && BareChar(s[0]) then 1 + BareRun(s[1..]) else 0
  }

  predicate IsBareKey(name: seq<byte>) {
    name != [] && forall i | 0 <= i < |name| :: BareChar(name[i])
  }

  /** `put_name` */
  function NameText(name: seq<byte>): seq<byte> {
    if IsBareKey(name) then name else Quoted(name)
  }

  function ParseName(s: seq<byte>): (r: Option<(seq<byte>, nat)>)
    ensures r.Some? ==> 0 < r.value.1 <= |s|
  {
    if s != [] && s[0] == QUOTE then ParseString(s)
    else
      var n := BareRun(s);
      if n == 0 then None else Some((s[..n], n))
  }

  lemma {:induction false} BareRunIs(s: seq<byte>, n: nat)
    requires n <= |s| && (forall i | 0 <= i < n :: BareChar(s[i])) && (n < |s| ==> !BareChar(s[n]))
    ensures BareRun(s) == n
  {
    if n > 0 { BareRunIs(s[1..], n - 1); }
  }

  /** What may follow a name without becoming part of it. */
  predicate EndsName(rest: seq<byte>) {
    rest == [] || !BareChar(rest[0])
  }

  lemma NameRoundTrip(name: seq<byte>, rest: seq<byte>)
    requires NoNul(name) && EndsName(rest)
    ensures ParseName(NameText(name) + rest) == Some((name, |NameText(name)|))
  {
    var s := NameText(name) + rest;
    if IsBareKey(name) {
      assert s[0] == name[0];
      BareRunIs(s, |name|);
    } else {
      QuotedRoundTrip(name, rest);
    }
  }

  lemma NameHasNoNul(s: seq<byte>)
    requires NoNul(s) && ParseName(s).Some?
    ensures NoNul(ParseName(s).value.0)
  {
    hide ParseChars;
    if s[0] == QUOTE { ParsedHasNoNul(s[1..]); }
  }

  /** A name reads the same whatever ends it. */
  lemma ParseNameLocal(s: seq<byte>, t: seq<byte>)
    requires ParseName(s).Some? && EndsName(t)
    ensures var n := ParseName(s).value.1; ParseName(s[..n] + t) == ParseName(s)
  {
    var n := ParseName(s).value.1;
    var u := s[..n] + t;
    assert u[0] == s[0];
    if s[0] == QUOTE {
      ParseStringLocal(s, t);
    } else {
      BareRunIs(u, n);
      assert u[..n] == s[..n];
    }
  }
}
