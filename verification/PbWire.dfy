/** What a message on the wire of tools/protogen means. */
module PbWire {
  // Said on its bytes: unknown fields are skipped whatever their wire type, concatenation merges, the
  // last occurrence of a member wins, packed and unpacked elements are the same, and a number keeps
  // its sign and value from one integer type to another. The decoders of pb.c and pb.rs compute
  // `DecodeAt`, so this is what they accept.

  import opened Prelude
  import opened PbVarint
  import opened PbSchema
  import opened PbEncode
  import opened PbDecode
  import opened PbGrammar

  // ----- one field in front

  /** The field `e` in front of `rest` is merged first. */
  lemma FieldFirst(s: Schema, d: nat, e: seq<byte>, k: nat, t: Token, rest: seq<byte>, m: Msg, depth: nat, lazy: bool)
    requires ValidSchema(s) && d < |s| && |m.slots| == |s[d].fields| && IsField(e, k, t)
    ensures DecodeLoop(s, d, e + rest, m, depth, lazy) ==
            match MergeField(s, d, m, t.number, t.payload, depth, lazy)
            case None => None
            case Some(next) => DecodeLoop(s, d, rest, next, depth, lazy)
  {
    hide NextField, MergeField, IsVarint, IsDelimited;
    assert (e + rest)[..t.size] == e && (e + rest)[t.size..] == rest;
    FieldIsRead(e + rest, k, t);
    NextFieldTakes(e + rest);
  }

  lemma NextFieldTakes(b: seq<byte>)
    requires NextField(b).Some?
    ensures b != []
  {
  }

  /** A field with a number the message does not have changes nothing. */
  lemma SkipUnknown(s: Schema, d: nat, e: seq<byte>, k: nat, t: Token, rest: seq<byte>, m: Msg, depth: nat, lazy: bool)
    requires ValidSchema(s) && d < |s| && |m.slots| == |s[d].fields|
    requires IsField(e, k, t) && Lookup(s[d].fields, t.number).None?
    ensures DecodeLoop(s, d, e + rest, m, depth, lazy) == DecodeLoop(s, d, rest, m, depth, lazy)
  {
    hide DecodeLoop, IsField;
    FieldFirst(s, d, e, k, t, rest, m, depth, lazy);
  }

  lemma IsVarintField(number: nat, v: u64)
    requires 1 <= number <= 0xffff_ffff
    ensures IsField(VarintField(number, v), |Varint(8 * number)|, Token(number, Varint64(v), |VarintField(number, v)|))
  {
    hide IsVarint, Varint;
    VarintIsVarint(8 * number);
    VarintIsVarint(v);
    var e, k := VarintField(number, v), |Varint(8 * number)|;
    assert e[..k] == Varint(8 * number) && e[k..] == Varint(v);
  }

  lemma IsFixedField(number: nat, wt: nat, v: seq<byte>)
    requires 1 <= number <= 0xffff_ffff && ((wt == 1 && |v| == 8) || (wt == 5 && |v| == 4))
    ensures IsField(Varint(8 * number + wt) + v, |Varint(8 * number + wt)|,
                    Token(number, Fixed, |Varint(8 * number + wt) + v|))
  {
    hide IsVarint, Varint;
    VarintIsVarint(8 * number + wt);
    var e, k := Varint(8 * number + wt) + v, |Varint(8 * number + wt)|;
    assert e[..k] == Varint(8 * number + wt) && e[k..] == v;
  }

  lemma IsLenField(number: nat, data: seq<byte>)
    requires 1 <= number <= 0xffff_ffff && |data| < 0x1_0000_0000_0000_0000
    ensures IsField(LenField(number, data), |Varint(8 * number + 2)|, Token(number, Len(data), |LenField(number, data)|))
  {
    hide IsVarint, Varint;
    VarintIsVarint(8 * number + 2);
    VarintIsVarint(|data|);
    var e, k, l := LenField(number, data), |Varint(8 * number + 2)|, |Varint(|data|)|;
    assert e[..k] == Varint(8 * number + 2) && e[k..] == Varint(|data|) + data;
    assert e[k..][..l] == Varint(|data|) && e[k..][l..] == data;
  }

  /** Unknown fields of all four wire types, on their bytes: a varint, eight bytes, a length with
      its bytes, and four bytes. */
  lemma UnknownFields(s: Schema, d: nat, number: nat, x: u64, eight: seq<byte>, data: seq<byte>, four: seq<byte>,
                      rest: seq<byte>, m: Msg, depth: nat, lazy: bool)
    requires ValidSchema(s) && d < |s| && |m.slots| == |s[d].fields|
    requires 1 <= number <= 0xffff_ffff && Lookup(s[d].fields, number).None?
    requires |eight| == 8 && |data| < 0x1_0000_0000_0000_0000 && |four| == 4
    ensures DecodeLoop(s, d, Varint(8 * number + 0) + Varint(x) + rest, m, depth, lazy) == DecodeLoop(s, d, rest, m, depth, lazy)
    ensures DecodeLoop(s, d, Varint(8 * number + 1) + eight + rest, m, depth, lazy) == DecodeLoop(s, d, rest, m, depth, lazy)
    ensures DecodeLoop(s, d, Varint(8 * number + 2) + Varint(|data|) + data + rest, m, depth, lazy) ==
            DecodeLoop(s, d, rest, m, depth, lazy)
    ensures DecodeLoop(s, d, Varint(8 * number + 5) + four + rest, m, depth, lazy) == DecodeLoop(s, d, rest, m, depth, lazy)
  {
    hide DecodeLoop, Lookup, IsField, Varint;
    IsVarintField(number, x);
    IsFixedField(number, 1, eight);
    IsLenField(number, data);
    IsFixedField(number, 5, four);
    SkipUnknown(s, d, VarintField(number, x), |Varint(8 * number)|,
                Token(number, Varint64(x), |VarintField(number, x)|), rest, m, depth, lazy);
    SkipUnknown(s, d, Varint(8 * number + 1) + eight, |Varint(8 * number + 1)|,
                Token(number, Fixed, |Varint(8 * number + 1) + eight|), rest, m, depth, lazy);
    SkipUnknown(s, d, LenField(number, data), |Varint(8 * number + 2)|,
                Token(number, Len(data), |LenField(number, data)|), rest, m, depth, lazy);
    SkipUnknown(s, d, Varint(8 * number + 5) + four, |Varint(8 * number + 5)|,
                Token(number, Fixed, |Varint(8 * number + 5) + four|), rest, m, depth, lazy);
  }

  // ----- what is refused

  /** A tag with number 0, a number above 32 bits, or wire type 3, 4, 6 or 7 is refused at once. */
  lemma RefusedTag(s: Schema, d: nat, tag: u64, rest: seq<byte>, m: Msg, depth: nat, lazy: bool)
    requires ValidSchema(s) && d < |s| && |m.slots| == |s[d].fields|
    requires tag / 8 == 0 || tag / 8 > 0xffff_ffff || tag % 8 == 3 || tag % 8 == 4 || tag % 8 >= 6
    ensures DecodeLoop(s, d, Varint(tag) + rest, m, depth, lazy) == None
  {
    hide Varint, ReadVarint;
    VarintRoundTrip(tag, rest);
  }

  /** A wire type a field of this kind cannot have: only a repeated scalar may come in both forms. */
  predicate Mismatch(f: Field, p: Payload) {
    match p
    case Varint64(_) => !IsScalar(f.ftype)
    case Len(_) => IsScalar(f.ftype) && !f.kind.Repeated?
    case Fixed => true
  }

  lemma RefusedType(s: Schema, d: nat, i: nat, e: seq<byte>, k: nat, t: Token, rest: seq<byte>, m: Msg, depth: nat, lazy: bool)
    requires ValidSchema(s) && d < |s| && |m.slots| == |s[d].fields|
    requires IsField(e, k, t) && Lookup(s[d].fields, t.number) == Some(i) && Mismatch(s[d].fields[i], t.payload)
    ensures DecodeLoop(s, d, e + rest, m, depth, lazy) == None
  {
    hide DecodeLoop, IsField;
    FieldFirst(s, d, e, k, t, rest, m, depth, lazy);
  }

  // ----- concatenation

  /** Two encodings behind each other are decoded as the second merged into the first. */
  lemma {:induction false} Concatenation(s: Schema, d: nat, b: seq<byte>, more: seq<byte>, m: Msg, depth: nat, lazy: bool)
    requires ValidSchema(s) && d < |s| && |m.slots| == |s[d].fields|
    requires DecodeLoop(s, d, b, m, depth, lazy).Some?
    ensures DecodeLoop(s, d, b + more, m, depth, lazy) ==
            DecodeLoop(s, d, more, DecodeLoop(s, d, b, m, depth, lazy).value, depth, lazy)
    decreases |b|
  {
    hide NextField, MergeField;
    if b == [] {
      assert b + more == more;
    } else {
      var t := NextField(b).value;
      NextFieldLocal(b, more);
      assert (b + more)[t.size..] == b[t.size..] + more;
      var next := MergeField(s, d, m, t.number, t.payload, depth, lazy).value;
      Concatenation(s, d, b[t.size..], more, next, depth, lazy);
    }
  }

  /** Unknown fields may follow an encoded message. */
  lemma UnknownFieldAppended(s: Schema, d: nat, b: seq<byte>, e: seq<byte>, k: nat, t: Token, depth: nat, lazy: bool)
    requires ValidSchema(s) && d < |s| && DecodeAt(s, d, b, depth, lazy).Some?
    requires IsField(e, k, t) && Lookup(s[d].fields, t.number).None?
    ensures DecodeAt(s, d, b + e, depth, lazy) == DecodeAt(s, d, b, depth, lazy)
  {
    hide DecodeLoop, IsField;
    var m := DecodeAt(s, d, b, depth, lazy).value;
    Concatenation(s, d, b, e, Default(s[d]), depth, lazy);
    SkipUnknown(s, d, e, k, t, [], m, depth, lazy);
    assert e + [] == e;
    NothingLeft(s, d, m, depth, lazy);
  }

  lemma NothingLeft(s: Schema, d: nat, m: Msg, depth: nat, lazy: bool)
    requires ValidSchema(s) && d < |s| && |m.slots| == |s[d].fields|
    ensures DecodeLoop(s, d, [], m, depth, lazy) == Some(m)
  {
  }

  // ----- the last occurrence wins

  /** A later occurrence of `j` leaves nothing of an earlier one of `i`: the same singular member,
      or two members of one oneof. */
  predicate Overwrites(fields: seq<Field>, i: nat, j: nat) {
    && i < |fields| && j < |fields|
    && if fields[i].kind.Oneof? then fields[j].kind == fields[i].kind else fields[i].kind.Singular? && i == j
  }

  lemma LastWins(s: Schema, d: nat, i: nat, j: nat, e: seq<byte>, k: nat, t: Token, late: seq<byte>, l: nat, u: Token,
                 rest: seq<byte>, m: Msg, depth: nat, lazy: bool)
    requires ValidSchema(s) && d < |s| && |m.slots| == |s[d].fields| && Overwrites(s[d].fields, i, j)
    requires IsField(e, k, t) && Lookup(s[d].fields, t.number) == Some(i)
    requires IsField(late, l, u) && Lookup(s[d].fields, u.number) == Some(j)
    requires MergeField(s, d, m, t.number, t.payload, depth, lazy).Some?
    ensures DecodeLoop(s, d, e + (late + rest), m, depth, lazy) == DecodeLoop(s, d, late + rest, m, depth, lazy)
  {
    hide DecodeLoop, IsField, MergeField;
    FieldFirst(s, d, e, k, t, late + rest, m, depth, lazy);
    var next := MergeField(s, d, m, t.number, t.payload, depth, lazy).value;
    FieldFirst(s, d, late, l, u, rest, next, depth, lazy);
    FieldFirst(s, d, late, l, u, rest, m, depth, lazy);
    Overwritten(s, d, i, j, t, u, m, depth, lazy);
  }

  lemma Overwritten(s: Schema, d: nat, i: nat, j: nat, t: Token, u: Token, m: Msg, depth: nat, lazy: bool)
    requires ValidSchema(s) && d < |s| && |m.slots| == |s[d].fields| && Overwrites(s[d].fields, i, j)
    requires Lookup(s[d].fields, t.number) == Some(i) && Lookup(s[d].fields, u.number) == Some(j)
    requires MergeField(s, d, m, t.number, t.payload, depth, lazy).Some?
    ensures var next := MergeField(s, d, m, t.number, t.payload, depth, lazy).value;
            MergeField(s, d, next, u.number, u.payload, depth, lazy) == MergeField(s, d, m, u.number, u.payload, depth, lazy)
  {
    hide DecodeValue, ReadPacked, Lookup;
    var next := MergeField(s, d, m, t.number, t.payload, depth, lazy).value;
    var f, g := s[d].fields[i], s[d].fields[j];
    assert ValidDesc(s, s[d]);
    var v, w := DecodeValue(s, f, t.payload, depth, lazy), DecodeValue(s, g, u.payload, depth, lazy);
    if w.Some? {
      if f.kind.Singular? {
        assert m.slots[i := One(v.value)][i := One(w.value)] == m.slots[i := One(w.value)];
      } else {
        assert SetOneof(s[d].fields, next.slots, j, w.value) == SetOneof(s[d].fields, m.slots, j, w.value);
      }
    }
  }

  // ----- packed or one element at a time

  function Varints(xs: seq<u64>): seq<byte> {
    if xs == [] then [] else Varint(xs[0]) + Varints(xs[1..])
  }

  function Elementwise(number: nat, xs: seq<u64>): seq<byte> {
    if xs == [] then [] else VarintField(number, xs[0]) + Elementwise(number, xs[1..])
  }

  function Stored(t: Type, xs: seq<u64>): (vs: seq<Value>)
    ensures |vs| == |xs|
  {
    seq(|xs|, k requires 0 <= k < |xs| => Scalar(SetScalar(t, xs[k])))
  }

  lemma {:induction false} ReadVarints(t: Type, xs: seq<u64>)
    ensures ReadPacked(t, Varints(xs)) == Some(Stored(t, xs))
  {
    hide Varint, ReadVarint;
    if xs != [] {
      ReadVarints(t, xs[1..]);
      VarintRoundTrip(xs[0], Varints(xs[1..]));
      assert Varints(xs)[|Varint(xs[0])|..] == Varints(xs[1..]);
      assert Stored(t, xs) == [Scalar(SetScalar(t, xs[0]))] + Stored(t, xs[1..]);
    }
  }

  lemma MergePacked(s: Schema, d: nat, i: nat, xs: seq<u64>, m: Msg, depth: nat, lazy: bool)
    requires ValidSchema(s) && d < |s| && |m.slots| == |s[d].fields| && i < |m.slots| && m.slots[i].Many?
    requires s[d].fields[i].kind.Repeated? && IsScalar(s[d].fields[i].ftype)
    requires Lookup(s[d].fields, s[d].fields[i].number) == Some(i)
    ensures MergeField(s, d, m, s[d].fields[i].number, Len(Varints(xs)), depth, lazy) ==
            Some(Msg(m.slots[i := Many(m.slots[i].vs + Stored(s[d].fields[i].ftype, xs))]))
  {
    hide Varints, Lookup, ReadPacked;
    ReadVarints(s[d].fields[i].ftype, xs);
  }

  lemma MergeElement(s: Schema, d: nat, i: nat, x: u64, m: Msg, depth: nat, lazy: bool)
    requires ValidSchema(s) && d < |s| && |m.slots| == |s[d].fields| && i < |m.slots| && m.slots[i].Many?
    requires s[d].fields[i].kind.Repeated? && IsScalar(s[d].fields[i].ftype)
    requires Lookup(s[d].fields, s[d].fields[i].number) == Some(i)
    ensures MergeField(s, d, m, s[d].fields[i].number, Varint64(x), depth, lazy) ==
            Some(Msg(m.slots[i := Many(m.slots[i].vs + [Scalar(SetScalar(s[d].fields[i].ftype, x))])]))
  {
    hide Lookup;
  }

  /** Elements written one at a time are appended in order. */
  lemma {:induction false} DecodeElements(s: Schema, d: nat, i: nat, xs: seq<u64>, rest: seq<byte>, m: Msg, depth: nat, lazy: bool)
    requires ValidSchema(s) && d < |s| && |m.slots| == |s[d].fields| && i < |m.slots| && m.slots[i].Many?
    requires s[d].fields[i].kind.Repeated? && IsScalar(s[d].fields[i].ftype)
    requires Lookup(s[d].fields, s[d].fields[i].number) == Some(i)
    ensures DecodeLoop(s, d, Elementwise(s[d].fields[i].number, xs) + rest, m, depth, lazy) ==
            DecodeLoop(s, d, rest, Msg(m.slots[i := Many(m.slots[i].vs + Stored(s[d].fields[i].ftype, xs))]), depth, lazy)
    decreases |xs|
  {
    hide DecodeLoop, MergeField, VarintField, IsField, Lookup;
    var f := s[d].fields[i];
    assert ValidDesc(s, s[d]);
    if xs == [] {
      assert Elementwise(f.number, xs) + rest == rest;
      assert m.slots[i].vs + Stored(f.ftype, xs) == m.slots[i].vs;
      assert m.slots[i := m.slots[i]] == m.slots;
    } else {
      var e, tail := VarintField(f.number, xs[0]), Elementwise(f.number, xs[1..]) + rest;
      assert Elementwise(f.number, xs) + rest == e + tail;
      IsVarintField(f.number, xs[0]);
      FieldFirst(s, d, e, |Varint(8 * f.number)|, Token(f.number, Varint64(xs[0]), |e|), tail, m, depth, lazy);
      MergeElement(s, d, i, xs[0], m, depth, lazy);
      var v := Scalar(SetScalar(f.ftype, xs[0]));
      var next := Msg(m.slots[i := Many(m.slots[i].vs + [v])]);
      DecodeElements(s, d, i, xs[1..], rest, next, depth, lazy);
      assert Stored(f.ftype, xs) == [v] + Stored(f.ftype, xs[1..]);
      assert next.slots[i].vs + Stored(f.ftype, xs[1..]) == m.slots[i].vs + Stored(f.ftype, xs);
      assert next.slots[i := Many(m.slots[i].vs + Stored(f.ftype, xs))] == m.slots[i := Many(m.slots[i].vs + Stored(f.ftype, xs))];
    }
  }

  /** A repeated scalar may come packed or one element at a time, and both may be mixed: the same
      elements are appended. */
  lemma PackedIsElementwise(s: Schema, d: nat, i: nat, xs: seq<u64>, rest: seq<byte>, m: Msg, depth: nat, lazy: bool)
    requires ValidSchema(s) && d < |s| && |m.slots| == |s[d].fields| && i < |m.slots| && m.slots[i].Many?
    requires s[d].fields[i].kind.Repeated? && IsScalar(s[d].fields[i].ftype)
    requires Lookup(s[d].fields, s[d].fields[i].number) == Some(i) && |Varints(xs)| < 0x1_0000_0000_0000_0000
    ensures DecodeLoop(s, d, LenField(s[d].fields[i].number, Varints(xs)) + rest, m, depth, lazy) ==
            DecodeLoop(s, d, Elementwise(s[d].fields[i].number, xs) + rest, m, depth, lazy)
    ensures DecodeLoop(s, d, Elementwise(s[d].fields[i].number, xs) + rest, m, depth, lazy) ==
            DecodeLoop(s, d, rest, Msg(m.slots[i := Many(m.slots[i].vs + Stored(s[d].fields[i].ftype, xs))]), depth, lazy)
  {
    hide DecodeLoop, MergeField, IsField, Lookup, Elementwise, Varints;
    var f := s[d].fields[i];
    assert ValidDesc(s, s[d]);
    var e := LenField(f.number, Varints(xs));
    IsLenField(f.number, Varints(xs));
    FieldFirst(s, d, e, |Varint(8 * f.number + 2)|, Token(f.number, Len(Varints(xs)), |e|), rest, m, depth, lazy);
    MergePacked(s, d, i, xs, m, depth, lazy);
    DecodeElements(s, d, i, xs, rest, m, depth, lazy);
  }

  // ----- numbers keep their value across types

  /** `e` is one varint field that says the number `z`, in two's complement for a signed type. */
  ghost predicate SaysNumber(e: seq<byte>, number: nat, t: Type, z: int) {
    exists k: nat, v: u64 :: SaysVarint(e, k, number, v) && z == if t.Int32? || t.Int64? then Signed64(v) else v
  }

  ghost predicate SaysVarint(e: seq<byte>, k: nat, number: nat, v: u64) {
    IsField(e, k, Token(number, Varint64(v), |e|))
  }

  /** The bytes of a scalar member say the number it stands for: all 64 bits of a negative int32. */
  lemma ScalarSays(s: Schema, f: Field, x: u64)
    requires 1 <= f.number <= 0xffff_ffff && IsScalar(f.ftype) && InRange(f.ftype, x)
    ensures SaysNumber(EncodeValue(s, f, Scalar(x)), f.number, f.ftype, Meaning(f.ftype, x))
  {
    hide IsField, GetScalar, Varint;
    var v := GetScalar(f.ftype, x);
    IsVarintField(f.number, v);
    WireMeaning(f.ftype, x);
    assert SaysVarint(EncodeValue(s, f, Scalar(x)), |Varint(8 * f.number)|, f.number, v);
  }

  /** What a field of a singular integer member says is what that member then holds, whatever
      integer type wrote it: the bytes of a negative int32 read back as the same negative number
      in an int64 member. */
  lemma NumberKept(s: Schema, d: nat, i: nat, f: Field, x: u64, rest: seq<byte>, m: Msg, depth: nat, lazy: bool)
    requires ValidSchema(s) && d < |s| && |m.slots| == |s[d].fields| && i < |m.slots|
    requires s[d].fields[i].kind.Singular? && Lookup(s[d].fields, s[d].fields[i].number) == Some(i)
    requires f.number == s[d].fields[i].number && InRange(f.ftype, x)
    requires (f.ftype.Int32? || f.ftype.Int64?) && (s[d].fields[i].ftype.Int32? || s[d].fields[i].ftype.Int64?)
    requires s[d].fields[i].ftype.Int32? ==> -0x8000_0000 <= Meaning(f.ftype, x) < 0x8000_0000
    ensures exists y: u64 {:trigger Scalar(y)} ::
              && InRange(s[d].fields[i].ftype, y) && Meaning(s[d].fields[i].ftype, y) == Meaning(f.ftype, x)
              && DecodeLoop(s, d, EncodeValue(s, f, Scalar(x)) + rest, m, depth, lazy) ==
                 DecodeLoop(s, d, rest, Msg(m.slots[i := One(Scalar(y))]), depth, lazy)
  {
    hide DecodeLoop, IsField, Lookup, GetScalar, SetScalar;
    var g := s[d].fields[i];
    assert ValidDesc(s, s[d]);
    var v := GetScalar(f.ftype, x);
    var e, y := VarintField(f.number, v), SetScalar(g.ftype, v);
    IsVarintField(f.number, v);
    FieldFirst(s, d, e, |Varint(8 * f.number)|, Token(f.number, Varint64(v), |e|), rest, m, depth, lazy);
    WireMeaning(f.ftype, x);
    StoredMeaning(g.ftype, v);
    assert EncodeValue(s, f, Scalar(x)) == e;
    assert MergeField(s, d, m, f.number, Varint64(v), depth, lazy) == Some(Msg(m.slots[i := One(Scalar(y))]));
  }

  // ----- nesting

  /** `n` messages inside each other. */
  function Nested(n: nat): seq<byte> {
    if n == 0 then [] else LenField(1, Nested(n - 1))
  }

  /** A message type that holds one of itself. */
  const CHAIN: Schema := [Desc(8, [Field(1, Message(0), Singular)])]

  lemma LongerThan(number: nat, data: seq<byte>)
    ensures |data| < |LenField(number, data)|
  {
  }

  /** Sixteen levels of nesting are decoded and seventeen are refused. */
  lemma {:induction false} SixteenLevels(n: nat, depth: nat)
    requires |Nested(n)| < 0x1_0000_0000_0000_0000
    ensures ValidSchema(CHAIN)
    ensures DecodeAt(CHAIN, 0, Nested(n), depth, false).Some? <==> depth + n <= 16
    decreases n
  {
    hide NextField, IsField, LenField, Varint, DecodeLoop;
    if n == 0 {
      NothingLeft(CHAIN, 0, Default(CHAIN[0]), depth, false);
    } else {
      var inner, e := Nested(n - 1), Nested(n);
      LongerThan(1, inner);
      SixteenLevels(n - 1, depth + 1);
      IsLenField(1, inner);
      var m := Default(CHAIN[0]);
      FieldFirst(CHAIN, 0, e, |Varint(8 * 1 + 2)|, Token(1, Len(inner), |e|), [], m, depth, false);
      assert e + [] == e;
      var next := MergeField(CHAIN, 0, m, 1, Len(inner), depth, false);
      if next.Some? { NothingLeft(CHAIN, 0, next.value, depth, false); }
    }
  }
}
