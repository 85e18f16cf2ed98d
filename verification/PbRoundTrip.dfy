/** Decoding undoes encoding, exactly for the messages that are not nested too deep. */
module PbRoundTrip {
  import opened Prelude
  import opened PbVarint
  import opened PbSchema
  import opened PbEncode
  import opened PbDecode

  // ----- which messages fit the depth limit, and what they read back as

  /** Every message of the tree that reaches the wire lies at depth 16 or less. */
  ghost predicate Fits(s: Schema, d: nat, m: Msg, depth: nat)
    decreases m
  {
    && depth <= MAX_DEPTH
    && (forall i | 0 <= i < |m.slots| :: d < |s| && i < |s[d].fields| ==> FitsSlot(s, s[d].fields[i], m.slots[i], depth))
  }

  ghost predicate FitsSlot(s: Schema, f: Field, slot: Slot, depth: nat)
    decreases slot
  {
    match slot
    case One(v) => (f.kind.Singular? && v == Sub(None)) || FitsValue(s, f, v, depth)
    case Many(vs) => forall k | 0 <= k < |vs| :: FitsValue(s, f, vs[k], depth)
    case Unset => true
  }

  ghost predicate FitsValue(s: Schema, f: Field, v: Value, depth: nat)
    decreases v
  {
    match v
    case Sub(None) => depth < MAX_DEPTH
    case Sub(Some(m)) => f.ftype.Message? ==> Fits(s, f.ftype.desc, m, depth + 1)
    case _ => true
  }

  /** A null submessage among repeated or oneof values reads back as an empty one. */
  ghost function Normal(s: Schema, d: nat, m: Msg): (r: Msg)
    decreases m
  {
    Msg(seq(|m.slots|, i requires 0 <= i < |m.slots| =>
      if d < |s| && i < |s[d].fields| then NormalSlot(s, s[d].fields[i], m.slots[i]) else m.slots[i]))
  }

  ghost function NormalSlot(s: Schema, f: Field, slot: Slot): Slot
    decreases slot
  {
    match slot
    case One(v) => if f.kind.Singular? && v == Sub(None) then slot else One(NormalValue(s, f, v))
    case Many(vs) => Many(seq(|vs|, k requires 0 <= k < |vs| => NormalValue(s, f, vs[k])))
    case Unset => Unset
  }

  ghost function NormalValue(s: Schema, f: Field, v: Value): Value
    decreases v
  {
    match v
    case Sub(None) => if f.ftype.Message? && f.ftype.desc < |s| then Sub(Some(Default(s[f.ftype.desc]))) else v
    case Sub(Some(m)) => if f.ftype.Message? then Sub(Some(Normal(s, f.ftype.desc, m))) else v
    case _ => v
  }

  // ----- one field on the wire

  lemma VarintFieldToken(number: nat, v: u64, rest: seq<byte>)
    requires 1 <= number < 65536
    ensures NextField(VarintField(number, v) + rest) ==
            Some(Token(number, Varint64(v), |VarintField(number, v)|))
  {
    hide ReadVarint, Varint;
    KeyParts(number, 0);
    var key := Varint(8 * number + 0);
    var b := VarintField(number, v) + rest;
    VarintRoundTrip(8 * number + 0, Varint(v) + rest);
    assert b == key + (Varint(v) + rest);
    VarintRoundTrip(v, rest);
    assert b[|key|..] == Varint(v) + rest;
  }

  lemma KeyParts(number: nat, wt: nat)
    requires wt < 8
    ensures (8 * number + wt) / 8 == number && (8 * number + wt) % 8 == wt
  {
  }

  lemma NextFieldLen(b: seq<byte>, number: nat, n: nat, len: nat, k: nat)
    requires 1 <= number < 65536 && len < 0x1_0000_0000_0000_0000
    requires n <= |b| && ReadVarint(b) == Some((8 * number + 2, n)) && ReadVarint(b[n..]) == Some((len, k))
    requires n + k + len <= |b|
    ensures NextField(b) == Some(Token(number, Len(b[n + k..n + k + len]), n + k + len))
  {
    hide ReadVarint;
    KeyParts(number, 2);
  }

  lemma LenFieldToken(number: nat, data: seq<byte>, rest: seq<byte>)
    requires 1 <= number < 65536 && |data| < 0x1_0000_0000_0000_0000
    ensures NextField(LenField(number, data) + rest) ==
            Some(Token(number, Len(data), |LenField(number, data)|))
  {
    hide NextField, ReadVarint, Varint;
    var key, len := Varint(8 * number + 2), Varint(|data|);
    var b := LenField(number, data) + rest;
    assert b == key + (len + (data + rest));
    VarintRoundTrip(8 * number + 2, len + (data + rest));
    VarintRoundTrip(|data|, data + rest);
    assert b[|key|..] == len + (data + rest);
    NextFieldLen(b, number, |key|, |data|, |len|);
    assert b[|key| + |len|..|key| + |len| + |data|] == data;
  }

  lemma {:induction false} LookupAt(s: Schema, d: Desc, i: nat)
    requires ValidDesc(s, d) && i < |d.fields|
    ensures Lookup(d.fields, d.fields[i].number) == Some(i)
  {
  }

  /** One encoded value is one token, whose payload decodes to the value. */
  lemma ValueToken(s: Schema, f: Field, v: Value, rest: seq<byte>, depth: nat) returns (p: Payload)
    requires ValidSchema(s) && 1 <= f.number < 65536 && (f.ftype.Message? ==> f.ftype.desc < |s|)
    requires TypedValue(s, f.ftype, v) && |EncodeValue(s, f, v)| < 0x1_0000_0000_0000_0000
    ensures NextField(EncodeValue(s, f, v) + rest) == Some(Token(f.number, p, |EncodeValue(s, f, v)|))
    ensures DecodeValue(s, f, p, depth, false) ==
            if FitsValue(s, f, v, depth) then Some(NormalValue(s, f, v)) else None
    ensures IsScalar(f.ftype) == p.Varint64?
    decreases v, 0
  {
    match v
    case Scalar(x) =>
      ScalarRoundTrip(f.ftype, x);
      p := Varint64(GetScalar(f.ftype, x));
      VarintFieldToken(f.number, GetScalar(f.ftype, x), rest);
    case Data(b) =>
      p := Len(b);
      LenFieldToken(f.number, b, rest);
    case Sub(None) =>
      p := Len([]);
      LenFieldToken(f.number, [], rest);
    case Sub(Some(m)) =>
      var b := EncodeMsg(s, f.ftype.desc, m);
      p := Len(b);
      LenFieldToken(f.number, b, rest);
      MsgRoundTrip(s, f.ftype.desc, m, depth + 1);
  }

  /** A packed field reads back element by element. */
  lemma {:induction false} PackedRoundTrip(s: Schema, t: Type, vs: seq<Value>)
    requires IsScalar(t) && forall k | 0 <= k < |vs| :: TypedValue(s, t, vs[k])
    ensures ReadPacked(t, Packed(t, vs)) == Some(vs)
  {
    if vs != [] {
      var x := vs[0].v;
      var g := GetScalar(t, x);
      ScalarRoundTrip(t, x);
      VarintRoundTrip(g, Packed(t, vs[1..]));
      assert Packed(t, vs) == Varint(g) + Packed(t, vs[1..]);
      assert Packed(t, vs)[|Varint(g)|..] == Packed(t, vs[1..]);
      PackedRoundTrip(s, t, vs[1..]);
      assert vs == [Scalar(SetScalar(t, g))] + vs[1..];
    }
  }

  // ----- one slot

  /** The message after the first `i` slots came back. */
  ghost function Part(s: Schema, d: nat, m: Msg, i: nat): (r: Msg)
    requires d < |s| && |m.slots| == |s[d].fields|
    ensures |r.slots| == |m.slots|
  {
    Msg(seq(|m.slots|, j requires 0 <= j < |m.slots| =>
      if j < i then NormalSlot(s, s[d].fields[j], m.slots[j]) else DefaultSlot(s[d].fields[j])))
  }

  lemma DecodeOne(s: Schema, d: nat, b: seq<byte>, rest: seq<byte>, m: Msg, t: Token, depth: nat)
    requires ValidSchema(s) && d < |s| && |m.slots| == |s[d].fields|
    requires NextField(b + rest) == Some(t) && t.size == |b|
    ensures DecodeLoop(s, d, b + rest, m, depth, false) ==
            match MergeField(s, d, m, t.number, t.payload, depth, false)
            case None => None
            case Some(m') => DecodeLoop(s, d, rest, m', depth, false)
  {
    assert (b + rest)[|b|..] == rest;
  }

  lemma OneRoundTrip(s: Schema, d: nat, m: Msg, i: nat, rest: seq<byte>, depth: nat)
    requires ValidSchema(s) && Typed(s, d, m) && i < |m.slots| && m.slots[i].One?
    requires !(s[d].fields[i].kind.Singular? && IsDefault(m.slots[i].v))
    requires |EncodeValue(s, s[d].fields[i], m.slots[i].v)| < 0x1_0000_0000_0000_0000
    ensures DecodeLoop(s, d, EncodeValue(s, s[d].fields[i], m.slots[i].v) + rest, Part(s, d, m, i), depth, false) ==
            if FitsSlot(s, s[d].fields[i], m.slots[i], depth)
            then DecodeLoop(s, d, rest, Part(s, d, m, i + 1), depth, false) else None
    decreases m.slots[i], 0
  {
    var f, v := s[d].fields[i], m.slots[i].v;
    assert ValidDesc(s, s[d]) && TypedSlot(s, f, m.slots[i]);
    var e := EncodeValue(s, f, v);
    var part := Part(s, d, m, i);
    var p := ValueToken(s, f, v, rest, depth);
    LookupAt(s, s[d], i);
    DecodeOne(s, d, e, rest, part, Token(f.number, p, |e|), depth);
    if FitsValue(s, f, v, depth) {
      var next := Part(s, d, m, i + 1);
      if f.kind.Singular? {
        assert part.slots[i := One(NormalValue(s, f, v))] == next.slots;
      } else {
        assert forall j | 0 <= j < |m.slots| && j != i && s[d].fields[j].kind == f.kind :: m.slots[j].Unset?;
        assert SetOneof(s[d].fields, part.slots, i, NormalValue(s, f, v)) == next.slots;
      }
    }
  }

  /** The message while the `i`-th slot, a repeated one, is being read back. */
  ghost function PartMany(s: Schema, d: nat, m: Msg, i: nat, k: nat): (r: Msg)
    requires d < |s| && |m.slots| == |s[d].fields| && i < |m.slots|
    requires m.slots[i].Many? && k <= |m.slots[i].vs|
    ensures |r.slots| == |m.slots|
  {
    Msg(Part(s, d, m, i).slots[i := Many(NormalSlot(s, s[d].fields[i], m.slots[i]).vs[..k])])
  }

  lemma {:induction false} ValuesRoundTrip(s: Schema, d: nat, m: Msg, i: nat, k: nat, rest: seq<byte>, depth: nat)
    requires ValidSchema(s) && Typed(s, d, m) && i < |m.slots|
    requires m.slots[i].Many? && !IsScalar(s[d].fields[i].ftype) && k <= |m.slots[i].vs|
    requires |EncodeValues(s, s[d].fields[i], m.slots[i].vs[k..])| < 0x1_0000_0000_0000_0000
    ensures var f, vs := s[d].fields[i], m.slots[i].vs;
            DecodeLoop(s, d, EncodeValues(s, f, vs[k..]) + rest, PartMany(s, d, m, i, k), depth, false) ==
            if forall j | k <= j < |vs| :: FitsValue(s, f, vs[j], depth)
            then DecodeLoop(s, d, rest, Part(s, d, m, i + 1), depth, false) else None
    decreases m.slots[i], |m.slots[i].vs| - k
  {
    hide NextField, DecodeValue, Lookup, NormalValue, FitsValue;
    var f, vs := s[d].fields[i], m.slots[i].vs;
    assert ValidDesc(s, s[d]) && TypedSlot(s, f, m.slots[i]);
    var part := PartMany(s, d, m, i, k);
    var all := NormalSlot(s, f, m.slots[i]).vs;
    if k == |vs| {
      assert vs[k..] == [] && [] + rest == rest;
      assert all[..k] == all;
      assert part.slots == Part(s, d, m, i + 1).slots;
    } else {
      var v, e := vs[k], EncodeValue(s, f, vs[k]);
      var tail := EncodeValues(s, f, vs[k + 1..]);
      assert vs[k..][0] == v && vs[k..][1..] == vs[k + 1..];
      assert EncodeValues(s, f, vs[k..]) + rest == e + (tail + rest);
      var p := ValueToken(s, f, v, tail + rest, depth);
      LookupAt(s, s[d], i);
      DecodeOne(s, d, e, tail + rest, part, Token(f.number, p, |e|), depth);
      if FitsValue(s, f, v, depth) {
        assert all[..k] + [NormalValue(s, f, v)] == all[..k + 1];
        assert part.slots[i := Append(part.slots[i], [NormalValue(s, f, v)])] == PartMany(s, d, m, i, k + 1).slots;
        ValuesRoundTrip(s, d, m, i, k + 1, rest, depth);
      }
    }
  }

  lemma UntouchedRoundTrip(s: Schema, d: nat, m: Msg, i: nat, rest: seq<byte>, depth: nat)
    requires ValidSchema(s) && Typed(s, d, m) && i < |m.slots|
    requires m.slots[i] == DefaultSlot(s[d].fields[i])
    ensures [] + rest == rest && Part(s, d, m, i) == Part(s, d, m, i + 1)
    ensures FitsSlot(s, s[d].fields[i], m.slots[i], depth)
  {
    var f := s[d].fields[i];
    if f.kind.Repeated? { assert NormalSlot(s, f, m.slots[i]).vs == []; }
    assert NormalSlot(s, f, m.slots[i]) == DefaultSlot(f);
    assert Part(s, d, m, i).slots == Part(s, d, m, i + 1).slots;
  }

  lemma PackedSlotRoundTrip(s: Schema, d: nat, m: Msg, i: nat, rest: seq<byte>, depth: nat)
    requires ValidSchema(s) && Typed(s, d, m) && i < |m.slots|
    requires m.slots[i].Many? && m.slots[i].vs != [] && IsScalar(s[d].fields[i].ftype)
    requires |Packed(s[d].fields[i].ftype, m.slots[i].vs)| < 0x1_0000_0000_0000_0000
    ensures FitsSlot(s, s[d].fields[i], m.slots[i], depth)
    ensures DecodeLoop(s, d, LenField(s[d].fields[i].number, Packed(s[d].fields[i].ftype, m.slots[i].vs)) + rest,
                       Part(s, d, m, i), depth, false) ==
            DecodeLoop(s, d, rest, Part(s, d, m, i + 1), depth, false)
  {
    hide NextField, Packed, ReadPacked, LenField;
    var f, vs := s[d].fields[i], m.slots[i].vs;
    assert ValidDesc(s, s[d]) && TypedSlot(s, f, m.slots[i]);
    var part := Part(s, d, m, i);
    var b := Packed(f.ftype, vs);
    PackedRoundTrip(s, f.ftype, vs);
    LenFieldToken(f.number, b, rest);
    LookupAt(s, s[d], i);
    DecodeOne(s, d, LenField(f.number, b), rest, part, Token(f.number, Len(b), |LenField(f.number, b)|), depth);
    assert NormalSlot(s, f, m.slots[i]).vs == vs;
    assert [] + vs == vs;
    assert part.slots[i := Append(part.slots[i], vs)] == Part(s, d, m, i + 1).slots;
  }

  lemma SlotRoundTrip(s: Schema, d: nat, m: Msg, i: nat, rest: seq<byte>, depth: nat)
    requires ValidSchema(s) && Typed(s, d, m) && i < |m.slots|
    requires |EncodeSlot(s, s[d].fields[i], m.slots[i])| < 0x1_0000_0000_0000_0000
    ensures DecodeLoop(s, d, EncodeSlot(s, s[d].fields[i], m.slots[i]) + rest, Part(s, d, m, i), depth, false) ==
            if FitsSlot(s, s[d].fields[i], m.slots[i], depth)
            then DecodeLoop(s, d, rest, Part(s, d, m, i + 1), depth, false) else None
    decreases m.slots[i], if m.slots[i].Many? then |m.slots[i].vs| + 1 else 1
  {
    hide NextField, MergeField, EncodeValue, Packed, DecodeLoop, NormalValue, FitsValue;
    var f, slot := s[d].fields[i], m.slots[i];
    assert ValidDesc(s, s[d]) && TypedSlot(s, f, slot);
    match slot
    case Unset =>
      UntouchedRoundTrip(s, d, m, i, rest, depth);
    case One(v) =>
      if f.kind.Singular? && IsDefault(v) {
        assert v == DefaultValue(f.ftype);
        UntouchedRoundTrip(s, d, m, i, rest, depth);
      } else {
        OneRoundTrip(s, d, m, i, rest, depth);
      }
    case Many(vs) =>
      if vs == [] {
        UntouchedRoundTrip(s, d, m, i, rest, depth);
      } else if IsScalar(f.ftype) {
        PackedSlotRoundTrip(s, d, m, i, rest, depth);
      } else {
        assert vs[0..] == vs;
        assert NormalSlot(s, f, slot).vs[..0] == [];
        assert PartMany(s, d, m, i, 0) == Part(s, d, m, i);
        ValuesRoundTrip(s, d, m, i, 0, rest, depth);
      }
  }

  // ----- the whole message

  lemma {:induction false} FromRoundTrip(s: Schema, d: nat, m: Msg, i: nat, depth: nat)
    requires ValidSchema(s) && Typed(s, d, m) && i <= |m.slots| && |EncodeFrom(s, d, m, i)| < 0x1_0000_0000_0000_0000
    ensures DecodeLoop(s, d, EncodeFrom(s, d, m, i), Part(s, d, m, i), depth, false) ==
            if forall j | i <= j < |m.slots| :: FitsSlot(s, s[d].fields[j], m.slots[j], depth)
            then Some(Normal(s, d, m)) else None
    decreases m, |m.slots| - i
  {
    hide DecodeAt, MergeField, NextField, EncodeSlot, FitsSlot, NormalSlot;
    if i == |m.slots| {
      assert Part(s, d, m, i) == Normal(s, d, m);
    } else {
      SlotRoundTrip(s, d, m, i, EncodeFrom(s, d, m, i + 1), depth);
      if FitsSlot(s, s[d].fields[i], m.slots[i], depth) {
        FromRoundTrip(s, d, m, i + 1, depth);
      }
    }
  }

  /** For every message: it reads back, in normal form, if it fits the depth limit,
      and is refused if it does not. */
  lemma MsgRoundTrip(s: Schema, d: nat, m: Msg, depth: nat)
    requires ValidSchema(s) && Typed(s, d, m) && |EncodeMsg(s, d, m)| < 0x1_0000_0000_0000_0000
    ensures DecodeAt(s, d, EncodeMsg(s, d, m), depth, false) ==
            if Fits(s, d, m, depth) then Some(Normal(s, d, m)) else None
    decreases m, |m.slots| + 1
  {
    if depth <= MAX_DEPTH {
      FromRoundTrip(s, d, m, 0, depth);
      assert Part(s, d, m, 0) == Default(s[d]);
    }
  }
}
