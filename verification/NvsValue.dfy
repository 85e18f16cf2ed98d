/** Values of idf_compat/src/nvs.c: literals, types and the integer ranges. */
module NvsValue {
  import opened Prelude
  import opened NvsText

  datatype Literal =
    | Int(neg: bool, mag: u64)
    | Str(data: seq<byte>)
    | Blob(data: seq<byte>)

  datatype Type = NoType | U8 | I8 | U16 | I16 | U32 | I32 | U64 | I64 | StrType | BlobType

  function TypeName(t: Type): seq<byte> {
    match t
    case NoType => []
    case U8 => [117, 56]
    case I8 => [105, 56]
    case U16 => [117, 49, 54]
    case I16 => [105, 49, 54]
    case U32 => [117, 51, 50]
    case I32 => [105, 51, 50]
    case U64 => [117, 54, 52]
    case I64 => [105, 54, 52]
    case StrType => [115, 116, 114]
    case BlobType => [98, 108, 111, 98]
  }

  function TypeOf(name: seq<byte>): Type {
    if name == [117, 56] then U8
    else if name == [105, 56] then I8
    else if name == [117, 49, 54] then U16
    else if name == [105, 49, 54] then I16
    else if name == [117, 51, 50] then U32
    else if name == [105, 51, 50] then I32
    else if name == [117, 54, 52] then U64
    else if name == [105, 54, 52] then I64
    else if name == [115, 116, 114] then StrType
    else if name == [98, 108, 111, 98] then BlobType
    else NoType
  }

  predicate TypeChar(c: byte) {
    97 <= c <= 122 || 48 <= c <= 57
  }

  function TypeRun(s: seq<byte>): (n: nat)
    ensures n <= |s| && (forall i | 0 <= i < n :: TypeChar(s[i])) && (n < |s| ==> !TypeChar(s[n]))
  {
    if s != [] && TypeChar(s[0]) then 1 + TypeRun(s[1..]) else 0
  }

  lemma {:induction false} TypeRunIs(s: seq<byte>, n: nat)
    requires n <= |s| && (forall i | 0 <= i < n :: TypeChar(s[i])) && (n < |s| ==> !TypeChar(s[n]))
    ensures TypeRun(s) == n
  {
    if n > 0 { TypeRunIs(s[1..], n - 1); }
  }

  lemma TypeRoundTrip(t: Type, rest: seq<byte>)
    requires t != NoType && rest != [] && !TypeChar(rest[0])
    ensures TypeRun(TypeName(t) + rest) == |TypeName(t)| && TypeOf(TypeName(t)) == t
    ensures (TypeName(t) + rest)[..|TypeName(t)|] == TypeName(t)
  {
    TypeRunIs(TypeName(t) + rest, |TypeName(t)|);
  }

  // ----- integers and their types

  predicate IsSigned(t: Type) {
    t == I8 || t == I16 || t == I32 || t == I64
  }

  predicate IsInt(t: Type) {
    t != NoType && t != StrType && t != BlobType
  }

  /** 1 shifted by the bits of the type. */
  function Range(t: Type): nat
    requires IsInt(t)
  {
    if t == U8 || t == I8 then 0x100
    else if t == U16 || t == I16 then 0x1_0000
    else if t == U32 || t == I32 then 0x1_0000_0000
    else 0x1_0000_0000_0000_0000
  }

  predicate IntFits(neg: bool, mag: u64, t: Type)
    requires IsInt(t)
  {
    if IsSigned(t) then if neg then mag <= Range(t) / 2 else mag < Range(t) / 2
    else !neg && (t == U64 || mag < Range(t))
  }

  function IntOf(neg: bool, mag: u64): int {
    var m: int := mag;
    if neg then -m else m
  }

  function Least(t: Type): int
    requires IsInt(t)
  {
    if IsSigned(t) then -(Range(t) / 2) else 0
  }

  function Greatest(t: Type): int
    requires IsInt(t)
  {
    if IsSigned(t) then Range(t) / 2 - 1 else Range(t) - 1
  }

  /** The guard on sign and magnitude is exactly the range of the type. */
  lemma IntFitsIsRange(neg: bool, mag: u64, t: Type)
    requires IsInt(t) && (neg ==> mag > 0)
    ensures IntFits(neg, mag, t) <==> Least(t) <= IntOf(neg, mag) <= Greatest(t)
  {
  }

  predicate Normal(l: Literal) {
    l.Int? && l.neg ==> 0 < l.mag <= 0x8000_0000_0000_0000
  }

  /** What a setter stores for an integer of type `t`. */
  function IntLiteral(v: int): Literal
    requires -0x8000_0000_0000_0000 <= v < 0x1_0000_0000_0000_0000
  {
    if v < 0 then Int(true, -v) else Int(false, v)
  }

  /** The low bits that fit the type, as the casts in `get_int` keep them. */
  function Low(u: u64, t: Type): nat
    requires IsInt(t)
  {
    if t == U8 || t == I8 then u % 0x100
    else if t == U16 || t == I16 then u % 0x1_0000
    else if t == U32 || t == I32 then u % 0x1_0000_0000
    else u
  }

  /** `get_int`: negated modulo 2^64, cut to the width of the type, read as that type. */
  function ReadBack(neg: bool, mag: u64, t: Type): int
    requires IsInt(t)
  {
    var w := Low(if neg && mag != 0 then 0x1_0000_0000_0000_0000 - mag else mag, t);
    if IsSigned(t) && w >= Range(t) / 2 then w - Range(t) else w
  }

  /** A setter's argument always passes the guard it will meet when the line is read. */
  lemma SetterFits(v: int, t: Type)
    requires IsInt(t) && Least(t) <= v <= Greatest(t)
    ensures var l := IntLiteral(v); l.Int? && Normal(l) && IntFits(l.neg, l.mag, t) && IntOf(l.neg, l.mag) == v
  {
  }

  /** Every literal the guard admits is read back as the number it denotes. */
  lemma IntReadsBack(neg: bool, mag: u64, t: Type)
    requires IsInt(t) && IntFits(neg, mag, t) && (neg ==> mag > 0)
    ensures ReadBack(neg, mag, t) == IntOf(neg, mag)
  {
    hide Low;
    if neg { LowNegative(mag, t); } else { LowSmall(mag, t); }
  }

  lemma LowSmall(mag: u64, t: Type)
    requires IsInt(t) && mag < Range(t)
    ensures Low(mag, t) == mag
  {
  }

  lemma LowNegative(mag: u64, t: Type)
    requires IsInt(t) && 0 < mag < Range(t)
    ensures Low(0x1_0000_0000_0000_0000 - mag, t) == Range(t) - mag
  {
  }

  predicate CheckType(t: Type, l: Literal) {
    match t
    case NoType => true
    case StrType => l.Str?
    case BlobType => l.Blob?
    case _ => l.Int? && IntFits(l.neg, l.mag, t)
  }

  // ----- decimal

  predicate IsDigit(c: byte) {
    48 <= c <= 57
  }

  function Decimal(v: nat): (s: seq<byte>)
    ensures s != [] && forall i | 0 <= i < |s| :: IsDigit(s[i])
  {
    if v < 10 then [48 + v] else Decimal(v / 10) + [48 + v % 10]
  }

  /** Digits at the front, added to `mag`; `None` if the value leaves 64 bits. */
  function ReadDigits(s: seq<byte>, mag: u64): (r: Option<(u64, nat)>)
    ensures r.Some? ==> r.value.1 <= |s|
  {
    if s == [] || !IsDigit(s[0]) then Some((mag, 0))
    else
      var d: nat := s[0] - 48;
      if mag > (0xffff_ffff_ffff_ffff - d) / 10 then None
      else
        match ReadDigits(s[1..], 10 * mag + d)
        case None => None
        case Some((v, n)) => Some((v, n + 1))
  }

  /** The division in the guard refuses exactly what would overflow. */
  lemma OverflowGuardExact(mag: u64, d: nat)
    requires d < 10
    ensures mag > (0xffff_ffff_ffff_ffff - d) / 10 <==> 10 * mag + d > 0xffff_ffff_ffff_ffff
  {
  }

  predicate EndsDigits(rest: seq<byte>) {
    rest == [] || !IsDigit(rest[0])
  }

  /** One decimal digit in front. */
  lemma ReadDigit(mag: u64, d: nat, tail: seq<byte>)
    requires d < 10 && 10 * mag + d < 0x1_0000_0000_0000_0000
    ensures ReadDigits([48 + d] + tail, mag) ==
            match ReadDigits(tail, 10 * mag + d)
            case None => None
            case Some((w, n)) => Some((w, n + 1))
  {
    var s := [48 + d] + tail;
    OverflowGuardExact(mag, d);
    assert s[1..] == tail;
  }

  lemma {:induction false} DigitsOfDecimal(v: nat, tail: seq<byte>)
    requires v < 0x1_0000_0000_0000_0000
    ensures ReadDigits(Decimal(v) + tail, 0) ==
            match ReadDigits(tail, v)
            case None => None
            case Some((w, n)) => Some((w, n + |Decimal(v)|))
  {
    hide ReadDigits;
    if v < 10 {
      ReadDigit(0, v, tail);
    } else {
      var d := v % 10;
      var more := [48 + d] + tail;
      assert 10 * (v / 10) + d == v;
      assert Decimal(v) + tail == Decimal(v / 10) + more;
      DigitsOfDecimal(v / 10, more);
      ReadDigit(v / 10, d, tail);
    }
  }

  lemma DecimalRoundTrip(v: u64, tail: seq<byte>)
    requires EndsDigits(tail)
    ensures ReadDigits(Decimal(v) + tail, 0) == Some((v, |Decimal(v)|))
  {
    DigitsOfDecimal(v, tail);
  }

  method ReadDigitsLoop(text: seq<byte>, p0: nat) returns (ok: bool, mag: u64, p: nat)
    requires p0 <= |text|
    ensures ok == ReadDigits(text[p0..], 0).Some?
    ensures ok ==> ReadDigits(text[p0..], 0) == Some((mag, p - p0)) && p0 <= p <= |text|
  {
    mag, p, ok := 0, p0, true;
    while p < |text| && IsDigit(text[p])
      invariant p0 <= p <= |text|
      invariant ReadDigits(text[p0..], 0) ==
                match ReadDigits(text[p..], mag)
                case None => None
                case Some((v, n)) => Some((v, n + (p - p0)))
    {
      var d: nat := text[p] - 48;
      assert text[p..][1..] == text[p + 1..];
      OverflowGuardExact(mag, d);
      if mag > (0xffff_ffff_ffff_ffff - d) / 10 { return false, mag, p; }
      mag := 10 * mag + d;
      p := p + 1;
    }
  }

  // ----- blobs

  function HexText(b: seq<byte>): seq<byte> {
    if b == [] then [] else Hex2(b[0]) + HexText(b[1..])
  }

  function HexRun(s: seq<byte>): (n: nat)
    ensures n <= |s| && (forall i | 0 <= i < n :: HexVal(s[i]).Some?) && (n < |s| ==> HexVal(s[n]).None?)
  {
    if s != [] && HexVal(s[0]).Some? then 1 + HexRun(s[1..]) else 0
  }

  lemma {:induction false} HexRunIs(s: seq<byte>, n: nat)
    requires n <= |s| && (forall i | 0 <= i < n :: HexVal(s[i]).Some?) && (n < |s| ==> HexVal(s[n]).None?)
    ensures HexRun(s) == n
  {
    if n > 0 { HexRunIs(s[1..], n - 1); }
  }

  function HexByte(hi: byte, lo: byte): byte
    requires HexVal(hi).Some? && HexVal(lo).Some?
  {
    16 * HexVal(hi).value + HexVal(lo).value
  }

  function HexPairs(s: seq<byte>): seq<byte>
    requires |s| % 2 == 0 && forall i | 0 <= i < |s| :: HexVal(s[i]).Some?
  {
    if s == [] then [] else [HexByte(s[0], s[1])] + HexPairs(s[2..])
  }

  lemma {:induction false} HexTextReads(b: seq<byte>)
    ensures |HexText(b)| == 2 * |b| && forall i | 0 <= i < |HexText(b)| :: HexVal(HexText(b)[i]).Some?
    ensures HexPairs(HexText(b)) == b
  {
    if b != [] {
      HexRoundTrip(b[0] / 16);
      HexRoundTrip(b[0] % 16);
      HexTextReads(b[1..]);
      var t := HexText(b);
      assert t == [HexDigit(b[0] / 16), HexDigit(b[0] % 16)] + HexText(b[1..]);
      forall i | 0 <= i < |t| ensures HexVal(t[i]).Some? {
        if i >= 2 { assert t[i] == HexText(b[1..])[i - 2]; }
      }
      assert t[2..] == HexText(b[1..]);
    }
  }

  // ----- values

  /** `put_value` */
  function ValueText(l: Literal): seq<byte> {
    match l
    case Int(neg, mag) => (if neg then [MINUS] else []) + Decimal(mag)
    case Str(data) => Quoted(data)
    case Blob(data) => [ZERO, LOWER_X] + HexText(data)
  }

  /** Whether a value begins with `0x` or `0X`. */
  predicate IsHexStart(s: seq<byte>) {
    |s| >= 2 && s[0] == ZERO && (s[1] == LOWER_X || s[1] == 88)
  }

  function ParseInt(s: seq<byte>): (r: Option<(Literal, nat)>)
    ensures r.Some? ==> r.value.1 <= |s| && Normal(r.value.0)
  {
    var neg := s != [] && s[0] == MINUS;
    var k := if neg then 1 else 0;
    var digits := s[k..];
    if digits == [] || !IsDigit(digits[0]) then None
    else
      match ReadDigits(digits, 0)
      case None => None
      case Some((mag, n)) =>
        if neg && mag > 0x8000_0000_0000_0000 then None
        else Some((Int(neg && mag != 0, mag), k + n))
  }

  function ParseValue(s: seq<byte>): (r: Option<(Literal, nat)>)
    ensures r.Some? ==> r.value.1 <= |s| && Normal(r.value.0)
  {
    if s != [] && s[0] == QUOTE then
      match ParseString(s)
      case None => None
      case Some((data, n)) => Some((Str(data), n))
    else if IsHexStart(s) then
      var n := HexRun(s[2..]);
      if n % 2 != 0 then None else Some((Blob(HexPairs(s[2..][..n])), 2 + n))
    else ParseInt(s)
  }

  /** A value is followed by nothing, a blank or a comment. */
  predicate EndsValue(rest: seq<byte>) {
    rest == [] || IsWs(rest[0]) || rest[0] == HASH
  }

  predicate Storable(l: Literal) {
    Normal(l) && (l.Str? ==> NoNul(l.data))
  }

  lemma IntRoundTrip(neg: bool, mag: u64, rest: seq<byte>)
    requires Normal(Int(neg, mag)) && EndsValue(rest)
    ensures ParseInt(ValueText(Int(neg, mag)) + rest) == Some((Int(neg, mag), |ValueText(Int(neg, mag))|))
  {
    hide Decimal, ReadDigits;
    var s := ValueText(Int(neg, mag)) + rest;
    DecimalRoundTrip(mag, rest);
    assert IsDigit(Decimal(mag)[0]);
    if neg {
      assert s[1..] == Decimal(mag) + rest;
    } else {
      assert s == Decimal(mag) + rest && s[0..] == s;
      assert s[0] == Decimal(mag)[0];
    }
  }

  lemma BlobRoundTrip(data: seq<byte>, rest: seq<byte>)
    requires EndsValue(rest)
    ensures ParseValue(ValueText(Blob(data)) + rest) == Some((Blob(data), |ValueText(Blob(data))|))
  {
    hide HexText, HexPairs, HexRun, ParseInt, ParseString;
    var s := ValueText(Blob(data)) + rest;
    HexTextReads(data);
    var n := 2 * |data|;
    assert s[0] == ZERO && s[1] == LOWER_X;
    assert s[2..] == HexText(data) + rest;
    HexRunIs(s[2..], n);
    assert s[2..][..n] == HexText(data);
  }

  lemma NotHexStart(neg: bool, mag: u64, rest: seq<byte>)
    requires EndsValue(rest)
    ensures var s := ValueText(Int(neg, mag)) + rest; s != [] && s[0] != QUOTE && !IsHexStart(s)
  {
    var s, d := ValueText(Int(neg, mag)) + rest, Decimal(mag);
    assert IsDigit(d[0]);
    if !neg {
      assert s[0] == d[0];
      if |d| > 1 { assert s[1] == d[1] && IsDigit(d[1]); } else if |s| > 1 { assert s[1] == rest[0]; }
    }
  }

  /** Whatever a setter stores reads back from its text. */
  lemma ValueRoundTrip(l: Literal, rest: seq<byte>)
    requires Storable(l) && EndsValue(rest)
    ensures ParseValue(ValueText(l) + rest) == Some((l, |ValueText(l)|))
  {
    match l
    case Int(neg, mag) =>
      NotHexStart(neg, mag, rest);
      IntRoundTrip(neg, mag, rest);
    case Str(data) => QuotedRoundTrip(data, rest);
    case Blob(data) => BlobRoundTrip(data, rest);
  }

  // ----- a value is read without what follows it

  lemma NoDigits(rest: seq<byte>, mag: u64)
    requires EndsDigits(rest)
    ensures ReadDigits(rest, mag) == Some((mag, 0))
  {
  }

  lemma OneMoreDigit(s: seq<byte>, mag: u64)
    requires s != [] && IsDigit(s[0]) && ReadDigits(s, mag).Some?
    ensures var d: nat := s[0] - 48;
            && 10 * mag + d < 0x1_0000_0000_0000_0000 && ReadDigits(s[1..], 10 * mag + d).Some?
            && var (v, n) := ReadDigits(s[1..], 10 * mag + d).value; ReadDigits(s, mag) == Some((v, n + 1))
  {
    OverflowGuardExact(mag, s[0] - 48);
  }

  lemma {:induction false} ReadDigitsLocal(s: seq<byte>, mag: u64, rest: seq<byte>)
    requires ReadDigits(s, mag).Some? && EndsDigits(rest)
    ensures var n := ReadDigits(s, mag).value.1;
            ReadDigits(s[..n] + rest, mag) == ReadDigits(s, mag) && forall i | 0 <= i < n :: IsDigit(s[i])
  {
    hide ReadDigits;
    if s == [] || !IsDigit(s[0]) {
      NoDigits(s, mag);
      NoDigits(rest, mag);
      assert s[..0] + rest == rest;
    } else {
      var d: nat := s[0] - 48;
      OneMoreDigit(s, mag);
      ReadDigitsLocal(s[1..], 10 * mag + d, rest);
      var n := ReadDigits(s, mag).value.1;
      var u := s[1..][..n - 1] + rest;
      assert s[..n] + rest == [48 + d] + u;
      ReadDigit(mag, d, u);
    }
  }

  /** The minus sign of an integer, if any. */
  function SignLength(s: seq<byte>): (k: nat)
    ensures k <= 1 && k <= |s|
  {
    if s != [] && s[0] == MINUS then 1 else 0
  }

  lemma ParseIntLocal(s: seq<byte>, rest: seq<byte>)
    requires ParseInt(s).Some? && EndsDigits(rest)
    ensures var n := ParseInt(s).value.1; n > 0 && IsDigit(s[n - 1]) && ParseInt(s[..n] + rest) == ParseInt(s)
  {
    hide ReadDigits;
    var k, n := SignLength(s), ParseInt(s).value.1;
    var u := s[..n] + rest;
    ReadDigitsLocal(s[k..], 0, rest);
    FirstDigit(s[k..]);
    assert u[k..] == s[k..][..n - k] + rest;
    assert u[0] == s[0] && u[k] == s[k] && s[n - 1] == s[k..][n - 1 - k];
  }

  lemma FirstDigit(s: seq<byte>)
    requires s != [] && IsDigit(s[0]) && ReadDigits(s, 0).Some?
    ensures ReadDigits(s, 0).value.1 > 0
  {
  }

  lemma BlobLocal(s: seq<byte>, rest: seq<byte>)
    requires (s == [] || s[0] != QUOTE) && IsHexStart(s) && ParseValue(s).Some? && EndsValue(rest)
    ensures var n := ParseValue(s).value.1; n >= 2 && s[n - 1] != RETURN && ParseValue(s[..n] + rest) == ParseValue(s)
  {
    hide ParseInt, ParseString, HexPairs;
    var n := HexRun(s[2..]);
    var u := s[..2 + n] + rest;
    assert u[2..] == s[2..][..n] + rest;
    HexRunIs(u[2..], n);
    assert u[2..][..n] == s[2..][..n];
    if n > 0 { assert HexVal(s[2..][n - 1]).Some?; }
  }

  /** Reading a value looks at nothing past its end but what ends it, and a value does not
      end in a carriage return. */
  lemma ParseValueLocal(s: seq<byte>, rest: seq<byte>)
    requires ParseValue(s).Some? && EndsValue(rest)
    ensures var n := ParseValue(s).value.1; n > 0 && s[n - 1] != RETURN && ParseValue(s[..n] + rest) == ParseValue(s)
  {
    hide ReadDigits, HexRun, HexPairs, ParseChars;
    if s != [] && s[0] == QUOTE {
      ParseStringLocal(s, rest);
      ClosingQuote(s);
    } else if IsHexStart(s) {
      BlobLocal(s, rest);
    } else {
      IntValueLocal(s, rest);
    }
  }

  lemma IntValueLocal(s: seq<byte>, rest: seq<byte>)
    requires (s == [] || s[0] != QUOTE) && !IsHexStart(s) && ParseInt(s).Some? && EndsValue(rest)
    ensures var n := ParseInt(s).value.1; n > 0 && IsDigit(s[n - 1]) && ParseValue(s[..n] + rest) == ParseInt(s)
  {
    ParseIntLocal(s, rest);
    hide ParseInt, ParseString, HexRun, HexPairs;
    var n := ParseInt(s).value.1;
    var u := s[..n] + rest;
    assert u[0] == s[0] && u[n - 1] == s[n - 1];
    if n > 1 { assert u[1] == s[1]; } else if rest != [] { assert u[1] == rest[0]; }
  }
}
