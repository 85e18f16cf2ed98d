/** The encoder that tools/protogen/gen_rust.py emits over tools/protogen/pb.rs. */
module PbRustEncode {
  // Lengths are in closed form, and a oneof is written once, at its first member.

  import opened Prelude
  import opened PbVarint
  import opened PbSchema
  import opened PbEncode

  // ----- closed-form lengths

  function TagLen(number: nat): nat {
    VarintLen(8 * number)
  }

  function LenBytes(number: nat, len: nat): nat {
    TagLen(number) + VarintLen(len) + len
  }

  function PackedLen(t: Type, vs: seq<Value>): nat {
    if vs == [] then 0
    else (if vs[0].Scalar? then VarintLen(GetScalar(t, vs[0].v)) else 0) + PackedLen(t, vs[1..])
  }

  function LenValue(s: Schema, f: Field, v: Value): nat
    decreases v, 0
  {
    match v
    case Scalar(x) => TagLen(f.number) + VarintLen(GetScalar(f.ftype, x))
    case Data(b) => LenBytes(f.number, |b|)
    case Sub(None) => LenBytes(f.number, 0)
    case Sub(Some(m)) => LenBytes(f.number, if f.ftype.Message? then LenMsg(s, f.ftype.desc, m) else 0)
    case Lazy(wire) => LenBytes(f.number, |wire|)
  }

  function LenValues(s: Schema, f: Field, vs: seq<Value>): nat
    decreases vs, 1
  {
    if vs == [] then 0 else LenValue(s, f, vs[0]) + LenValues(s, f, vs[1..])
  }

  function LenPlain(s: Schema, f: Field, slot: Slot): nat
    decreases slot, 2
  {
    match slot
    case Unset => 0
    case One(v) => if IsDefault(v) then 0 else LenValue(s, f, v)
    case Many(vs) =>
      if vs == [] then 0
      else if IsScalar(f.ftype) then LenBytes(f.number, PackedLen(f.ftype, vs))
      else LenValues(s, f, vs)
  }

  /** The member a Rust `Option` of the oneof would hold. */
  function Active(fields: seq<Field>, slots: seq<Slot>, g: nat): (r: Option<nat>)
    requires |fields| == |slots|
    ensures match r
            case None => forall i | 0 <= i < |fields| && fields[i].kind == Oneof(g) :: !slots[i].One?
            case Some(i) => i < |fields| && fields[i].kind == Oneof(g) && slots[i].One?
  {
    if fields == [] then None
    else
      var last := |fields| - 1;
      if fields[last].kind == Oneof(g) && slots[last].One? then Some(last)
      else Active(fields[..last], slots[..last], g)
  }

  /** `done`: the oneofs already met on the walk. */
  function LenFrom(s: Schema, d: nat, m: Msg, i: nat, done: set<nat>): nat
    decreases m, if i <= |m.slots| then |m.slots| - i else 0
  {
    if d < |s| && i < |m.slots| && |m.slots| == |s[d].fields| then
      var f := s[d].fields[i];
      if f.kind.Oneof? then
        (if f.kind.group in done then 0
         else
           match Active(s[d].fields, m.slots, f.kind.group)
           case None => 0
           case Some(k) => LenValue(s, s[d].fields[k], m.slots[k].v)) +
        LenFrom(s, d, m, i + 1, done + {f.kind.group})
      else
        LenPlain(s, f, m.slots[i]) + LenFrom(s, d, m, i + 1, done)
    else 0
  }

  function LenMsg(s: Schema, d: nat, m: Msg): nat
    decreases m, |m.slots| + 1
  {
    LenFrom(s, d, m, 0, {})
  }

  // ----- the bytes, each length prefix taken from the closed form

  function Prefixed(number: nat, len: nat, data: seq<byte>): seq<byte> {
    Varint(8 * number + 2) + Varint(len) + data
  }

  function RustValue(s: Schema, f: Field, v: Value): seq<byte>
    decreases v, 0
  {
    match v
    case Scalar(x) => VarintField(f.number, GetScalar(f.ftype, x))
    case Data(b) => Prefixed(f.number, |b|, b)
    case Sub(None) => Prefixed(f.number, 0, [])
    case Sub(Some(m)) =>
      if f.ftype.Message? then Prefixed(f.number, LenMsg(s, f.ftype.desc, m), RustMsg(s, f.ftype.desc, m))
      else Prefixed(f.number, 0, [])
    case Lazy(wire) => Prefixed(f.number, |wire|, wire)
  }

  function RustValues(s: Schema, f: Field, vs: seq<Value>): seq<byte>
    decreases vs, 1
  {
    if vs == [] then [] else RustValue(s, f, vs[0]) + RustValues(s, f, vs[1..])
  }

  function RustPlain(s: Schema, f: Field, slot: Slot): seq<byte>
    decreases slot, 2
  {
    match slot
    case Unset => []
    case One(v) => if IsDefault(v) then [] else RustValue(s, f, v)
    case Many(vs) =>
      if vs == [] then []
      else if IsScalar(f.ftype) then Prefixed(f.number, PackedLen(f.ftype, vs), Packed(f.ftype, vs))
      else RustValues(s, f, vs)
  }

  function RustOneof(s: Schema, d: nat, m: Msg, g: nat): seq<byte>
    requires d < |s| && |m.slots| == |s[d].fields|
    decreases m, 0, 0
  {
    match Active(s[d].fields, m.slots, g)
    case None => []
    case Some(k) => RustValue(s, s[d].fields[k], m.slots[k].v)
  }

  function RustFrom(s: Schema, d: nat, m: Msg, i: nat, done: set<nat>): seq<byte>
    decreases m, 1, if i <= |m.slots| then |m.slots| - i else 0
  {
    if d < |s| && i < |m.slots| && |m.slots| == |s[d].fields| then
      var f := s[d].fields[i];
      if f.kind.Oneof? then
        (if f.kind.group in done then [] else RustOneof(s, d, m, f.kind.group)) +
        RustFrom(s, d, m, i + 1, done + {f.kind.group})
      else
        RustPlain(s, f, m.slots[i]) + RustFrom(s, d, m, i + 1, done)
    else []
  }

  function RustMsg(s: Schema, d: nat, m: Msg): seq<byte>
    decreases m, 2
  {
    RustFrom(s, d, m, 0, {})
  }

  // ----- the closed form is the number of bytes written

  lemma {:induction false} PackedLenIsLength(t: Type, vs: seq<Value>)
    ensures PackedLen(t, vs) == |Packed(t, vs)|
  {
    if vs != [] {
      if vs[0].Scalar? { VarintLenIsLength(GetScalar(t, vs[0].v)); }
      PackedLenIsLength(t, vs[1..]);
    }
  }

  lemma PrefixedLength(number: nat, data: seq<byte>)
    requires number >= 1
    ensures LenBytes(number, |data|) == |Prefixed(number, |data|, data)|
  {
    hide Varint, VarintLen;
    KeyLength(number, 2);
    VarintLenIsLength(|data|);
  }

  lemma ValueLength(s: Schema, f: Field, v: Value)
    requires ValidSchema(s) && f.number >= 1
    ensures LenValue(s, f, v) == |RustValue(s, f, v)|
    decreases v, 0
  {
    hide Varint, VarintLen, Prefixed, LenFrom, RustFrom;
    match v
    case Scalar(x) =>
      KeyLength(f.number, 0);
      VarintLenIsLength(GetScalar(f.ftype, x));
    case Data(b) => PrefixedLength(f.number, b);
    case Sub(None) => PrefixedLength(f.number, []);
    case Sub(Some(m)) =>
      if f.ftype.Message? {
        MsgLength(s, f.ftype.desc, m);
        PrefixedLength(f.number, RustMsg(s, f.ftype.desc, m));
      } else {
        PrefixedLength(f.number, []);
      }
    case Lazy(wire) => PrefixedLength(f.number, wire);
  }

  lemma {:induction false} ValuesLength(s: Schema, f: Field, vs: seq<Value>)
    requires ValidSchema(s) && f.number >= 1
    ensures LenValues(s, f, vs) == |RustValues(s, f, vs)|
    decreases vs, 1
  {
    hide LenValue, RustValue;
    if vs != [] {
      ValueLength(s, f, vs[0]);
      ValuesLength(s, f, vs[1..]);
    }
  }

  lemma PlainLength(s: Schema, f: Field, slot: Slot)
    requires ValidSchema(s) && f.number >= 1
    ensures LenPlain(s, f, slot) == |RustPlain(s, f, slot)|
    decreases slot, 2
  {
    hide LenValue, RustValue;
    match slot
    case Unset =>
    case One(v) => ValueLength(s, f, v);
    case Many(vs) =>
      PackedLenIsLength(f.ftype, vs);
      PrefixedLength(f.number, Packed(f.ftype, vs));
      ValuesLength(s, f, vs);
  }

  lemma {:induction false} FromLength(s: Schema, d: nat, m: Msg, i: nat, done: set<nat>)
    requires ValidSchema(s)
    ensures LenFrom(s, d, m, i, done) == |RustFrom(s, d, m, i, done)|
    decreases m, if i <= |m.slots| then |m.slots| - i else 0
  {
    hide LenValue, RustValue, LenPlain, RustPlain;
    if d < |s| && i < |m.slots| && |m.slots| == |s[d].fields| {
      var f := s[d].fields[i];
      assert ValidDesc(s, s[d]);
      if f.kind.Oneof? {
        var k := Active(s[d].fields, m.slots, f.kind.group);
        if k.Some? { ValueLength(s, s[d].fields[k.value], m.slots[k.value].v); }
        FromLength(s, d, m, i + 1, done + {f.kind.group});
      } else {
        PlainLength(s, f, m.slots[i]);
        FromLength(s, d, m, i + 1, done);
      }
    }
  }

  /** `encoded_len` is exactly what `encode_fields` writes, for every message. */
  lemma MsgLength(s: Schema, d: nat, m: Msg)
    requires ValidSchema(s)
    ensures LenMsg(s, d, m) == |RustMsg(s, d, m)|
    decreases m, |m.slots| + 1
  {
    FromLength(s, d, m, 0, {});
  }

  // ----- the interleaving rule of the generator

  /** No field stands between two members of a oneof unless it is one itself. */
  ghost predicate Contiguous(fields: seq<Field>) {
    forall i, j, k | 0 <= i < j < k < |fields| && fields[i].kind.Oneof? && fields[i].kind == fields[k].kind ::
      fields[j].kind == fields[i].kind
  }

  ghost predicate ContiguousSchema(s: Schema) {
    forall d | 0 <= d < |s| :: Contiguous(s[d].fields)
  }

  ghost predicate Block(fields: seq<Field>, i: nat, e: nat, g: nat)
    requires e <= |fields|
  {
    && (forall j | i <= j < e :: fields[j].kind == Oneof(g))
    && (forall j | e <= j < |fields| :: fields[j].kind != Oneof(g))
  }

  /** The end of the block of members that starts at `i`. */
  lemma BlockEnd(fields: seq<Field>, i: nat, g: nat) returns (e: nat)
    requires Contiguous(fields) && i < |fields| && fields[i].kind == Oneof(g)
    ensures i < e <= |fields| && Block(fields, i, e, g)
  {
    e := i + 1;
    while e < |fields| && fields[e].kind == Oneof(g)
      invariant i < e <= |fields| && forall j | i <= j < e :: fields[j].kind == Oneof(g)
    {
      e := e + 1;
    }
    if e < |fields| {
      assert forall j | e < j < |fields| && fields[j].kind == Oneof(g) :: fields[e].kind == fields[i].kind;
    }
  }

  /** Once met, the rest of a oneof's block is passed over. */
  lemma {:induction false} BlockSkipped(s: Schema, d: nat, m: Msg, i: nat, e: nat, done: set<nat>, g: nat)
    requires d < |s| && |m.slots| == |s[d].fields| && i <= e <= |m.slots| && g in done
    requires Block(s[d].fields, i, e, g)
    ensures RustFrom(s, d, m, i, done) == RustFrom(s, d, m, e, done)
    decreases e - i
  {
    if i < e {
      assert done + {g} == done;
      BlockSkipped(s, d, m, i + 1, e, done, g);
    }
  }

  /** In the C order the block contributes its active member and nothing else. */
  lemma {:induction false} BlockEncoded(s: Schema, d: nat, m: Msg, i: nat, e: nat, g: nat)
    requires Typed(s, d, m) && i <= e <= |m.slots| && Block(s[d].fields, i, e, g)
    ensures var k := Active(s[d].fields, m.slots, g);
            EncodeFrom(s, d, m, i) ==
            (if k.Some? && k.value >= i then EncodeValue(s, s[d].fields[k.value], m.slots[k.value].v) else []) +
            EncodeFrom(s, d, m, e)
    decreases e - i
  {
    hide EncodeValue, TypedValue;
    var k := Active(s[d].fields, m.slots, g);
    if i < e {
      BlockEncoded(s, d, m, i + 1, e, g);
      assert TypedSlot(s, s[d].fields[i], m.slots[i]);
      if k == Some(i) {
        assert EncodeSlot(s, s[d].fields[i], m.slots[i]) == EncodeValue(s, s[d].fields[i], m.slots[i].v);
      } else {
        assert m.slots[i].Unset?;
      }
    }
  }

  // ----- the two encoders agree

  lemma ValueSame(s: Schema, f: Field, v: Value)
    requires ValidSchema(s) && ContiguousSchema(s) && f.number >= 1 && TypedValue(s, f.ftype, v)
    ensures RustValue(s, f, v) == EncodeValue(s, f, v)
    decreases v, 0
  {
    hide Varint, EncodeFrom, RustFrom, LenFrom, LenMsg;
    if v.Sub? && v.m.Some? {
      MsgSame(s, f.ftype.desc, v.m.value);
      MsgLength(s, f.ftype.desc, v.m.value);
    }
  }

  lemma {:induction false} ValuesSame(s: Schema, f: Field, vs: seq<Value>)
    requires ValidSchema(s) && ContiguousSchema(s) && f.number >= 1
    requires forall k | 0 <= k < |vs| :: TypedValue(s, f.ftype, vs[k])
    ensures RustValues(s, f, vs) == EncodeValues(s, f, vs)
    decreases vs, 1
  {
    hide RustValue, EncodeValue, TypedValue;
    if vs != [] {
      ValueSame(s, f, vs[0]);
      ValuesSame(s, f, vs[1..]);
    }
  }

  lemma PlainSame(s: Schema, f: Field, slot: Slot)
    requires ValidSchema(s) && ContiguousSchema(s) && f.number >= 1 && TypedSlot(s, f, slot) && !f.kind.Oneof?
    ensures RustPlain(s, f, slot) == EncodeSlot(s, f, slot)
    decreases slot, 2
  {
    hide RustValue, EncodeValue, TypedValue;
    match slot
    case Unset =>
    case One(v) => if !IsDefault(v) { ValueSame(s, f, v); }
    case Many(vs) =>
      PackedLenIsLength(f.ftype, vs);
      ValuesSame(s, f, vs);
  }

  /** `done` holds exactly the oneofs with members before `i`, and none from `i` on. */
  ghost predicate Walked(fields: seq<Field>, i: nat, done: set<nat>) {
    && (forall j | 0 <= j < |fields| && j < i && fields[j].kind.Oneof? :: fields[j].kind.group in done)
    && (forall j | i <= j < |fields| && fields[j].kind.Oneof? :: fields[j].kind.group !in done)
  }

  lemma {:induction false} OneofRust(s: Schema, d: nat, m: Msg, i: nat, done: set<nat>, e: nat, g: nat)
    requires ValidSchema(s) && Typed(s, d, m) && i < e <= |m.slots|
    requires Walked(s[d].fields, i, done) && s[d].fields[i].kind == Oneof(g) && Block(s[d].fields, i, e, g)
    ensures RustFrom(s, d, m, i, done) == RustOneof(s, d, m, g) + RustFrom(s, d, m, e, done + {g})
    ensures Walked(s[d].fields, e, done + {g})
  {
    hide RustOneof, TypedSlot;
    BlockSkipped(s, d, m, i + 1, e, done + {g}, g);
  }

  /** The members of a oneof, met at `i`: the C encoder writes the active one. */
  lemma OneofC(s: Schema, d: nat, m: Msg, i: nat, done: set<nat>, e: nat, g: nat)
    requires ValidSchema(s) && ContiguousSchema(s) && Typed(s, d, m) && i < e <= |m.slots|
    requires Walked(s[d].fields, i, done) && s[d].fields[i].kind == Oneof(g) && Block(s[d].fields, i, e, g)
    ensures EncodeFrom(s, d, m, i) == RustOneof(s, d, m, g) + EncodeFrom(s, d, m, e)
    decreases m, 0, 0
  {
    hide RustValue, EncodeValue, TypedValue, EncodeSlot, EncodeFrom, RustFrom;
    BlockEncoded(s, d, m, i, e, g);
    var k := Active(s[d].fields, m.slots, g);
    if k.Some? {
      assert ValidDesc(s, s[d]) && TypedSlot(s, s[d].fields[k.value], m.slots[k.value]);
      ValueSame(s, s[d].fields[k.value], m.slots[k.value].v);
    }
  }

  lemma {:induction false} FromSame(s: Schema, d: nat, m: Msg, i: nat, done: set<nat>)
    requires ValidSchema(s) && ContiguousSchema(s) && Typed(s, d, m) && i <= |m.slots|
    requires Walked(s[d].fields, i, done)
    ensures RustFrom(s, d, m, i, done) == EncodeFrom(s, d, m, i)
    decreases m, 1, |m.slots| - i
  {
    hide RustPlain, EncodeSlot, RustOneof;
    if i < |m.slots| {
      var f := s[d].fields[i];
      assert ValidDesc(s, s[d]) && TypedSlot(s, f, m.slots[i]);
      if f.kind.Oneof? {
        var e := BlockEnd(s[d].fields, i, f.kind.group);
        OneofRust(s, d, m, i, done, e, f.kind.group);
        OneofC(s, d, m, i, done, e, f.kind.group);
        FromSame(s, d, m, e, done + {f.kind.group});
      } else {
        PlainSame(s, f, m.slots[i]);
        FromSame(s, d, m, i + 1, done);
      }
    }
  }

  /** With the rule kept, both encoders write the same bytes for every message. */
  lemma MsgSame(s: Schema, d: nat, m: Msg)
    requires ValidSchema(s) && ContiguousSchema(s) && Typed(s, d, m)
    ensures RustMsg(s, d, m) == EncodeMsg(s, d, m)
    decreases m, 2
  {
    FromSame(s, d, m, 0, {});
  }
}
