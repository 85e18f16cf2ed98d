/** The C writer of tools/protogen/pb.c: one recursive walk that measures when
    `out` is null and writes otherwise. */
module PbPack {
  import opened Prelude
  import opened PbVarint
  import opened PbSchema
  import opened PbEncode
  import opened PbWire

  /** `memcpy(out + at, b, |b|)` */
  method CopyBytes(out: array<byte>, at: nat, b: seq<byte>)
    requires at + |b| <= out.Length
    modifies out
    ensures out[..] == Splice(old(out[..]), at, b)
  {
    hide Splice;
    ghost var was := out[..];
    SpliceNothing(was, at);
    assert b[..0] == [];
    for k := 0 to |b|
      invariant out[..] == Splice(was, at, b[..k])
    {
      PutByte(out, at + k, b[k]);
      SpliceAppend(was, at, b[..k], [b[k]]);
      assert b[..k] + [b[k]] == b[..k + 1];
    }
    assert b[..|b|] == b;
  }

  method PackLen(number: nat, len: u64, out: array?<byte>, at: nat) returns (n: nat)
    requires number < 65536
    requires out != null ==> at + |Varint(8 * number + 2)| + |Varint(len)| <= out.Length
    modifies out
    ensures n == |Varint(8 * number + 2) + Varint(len)|
    ensures out != null ==> out[..] == Splice(old(out[..]), at, Varint(8 * number + 2) + Varint(len))
  {
    ghost var was := if out != null then out[..] else [];
    n := PutVarint(out, at, 8 * number + 2);
    var k := PutVarint(out, at + n, len);
    if out != null { SpliceAppend(was, at, Varint(8 * number + 2), Varint(len)); }
    n := n + k;
  }

  method PackData(number: nat, b: seq<byte>, out: array?<byte>, at: nat) returns (n: nat)
    requires number < 65536 && |b| < 0x1_0000_0000_0000_0000
    requires out != null ==> at + |LenField(number, b)| <= out.Length
    modifies out
    ensures n == |LenField(number, b)|
    ensures out != null ==> out[..] == Splice(old(out[..]), at, LenField(number, b))
  {
    ghost var was := if out != null then out[..] else [];
    n := PackLen(number, |b|, out, at);
    if out != null && |b| > 0 {
      CopyBytes(out, at + n, b);
      SpliceAppend(was, at, Varint(8 * number + 2) + Varint(|b|), b);
    }
    n := n + |b|;
  }

  method PackScalar(number: nat, v: u64, out: array?<byte>, at: nat) returns (n: nat)
    requires number < 65536
    requires out != null ==> at + |VarintField(number, v)| <= out.Length
    modifies out
    ensures n == |VarintField(number, v)|
    ensures out != null ==> out[..] == Splice(old(out[..]), at, VarintField(number, v))
  {
    hide Splice, Varint;
    ghost var was := if out != null then out[..] else [];
    n := PutVarint(out, at, 8 * number + 0);
    var k := PutVarint(out, at + n, v);
    if out != null { SpliceAppend(was, at, Varint(8 * number + 0), Varint(v)); }
    n := n + k;
  }

  /** The submessage is measured, and then written after its length. */
  method PackSub(s: Schema, f: Field, m: Option<Msg>, out: array?<byte>, at: nat) returns (n: nat)
    requires ValidSchema(s) && f.number < 65536 && f.ftype.Message? && TypedValue(s, f.ftype, Sub(m))
    requires |EncodeValue(s, f, Sub(m))| < 0x1_0000_0000_0000_0000
    requires out != null ==> at + |EncodeValue(s, f, Sub(m))| <= out.Length
    modifies out
    ensures n == |EncodeValue(s, f, Sub(m))|
    ensures out != null ==> out[..] == Splice(old(out[..]), at, EncodeValue(s, f, Sub(m)))
    decreases m, 3
  {
    hide Splice, Varint, EncodeFrom;
    ghost var was := if out != null then out[..] else [];
    var j := f.ftype.desc;
    var len: u64 := 0;
    if m.Some? {
      assert |LenField(f.number, EncodeMsg(s, j, m.value))| >= |EncodeMsg(s, j, m.value)|;
      len := PackMsg(s, j, m.value, null, 0);
    }
    ghost var head := Varint(8 * f.number + 2) + Varint(len);
    assert head + [] == head;
    n := PackLen(f.number, len, out, at);
    if out != null && m.Some? {
      var k := PackMsg(s, j, m.value, out, at + n);
      SpliceAppend(was, at, head, EncodeMsg(s, j, m.value));
    }
    n := n + len;
  }

  method PackValue(s: Schema, f: Field, v: Value, out: array?<byte>, at: nat) returns (n: nat)
    requires ValidSchema(s) && f.number < 65536 && TypedValue(s, f.ftype, v)
    requires |EncodeValue(s, f, v)| < 0x1_0000_0000_0000_0000
    requires out != null ==> at + |EncodeValue(s, f, v)| <= out.Length
    modifies out
    ensures n == |EncodeValue(s, f, v)|
    ensures out != null ==> out[..] == Splice(old(out[..]), at, EncodeValue(s, f, v))
    ensures out != null && IsScalar(f.ftype) && f.number >= 1 ==>
              at + n <= out.Length && SaysNumber(out[at..at + n], f.number, f.ftype, Meaning(f.ftype, v.v))
    decreases v, 0
  {
    hide Splice, Varint, EncodeFrom, SaysNumber;
    ghost var was := if out != null then out[..] else [];
    match f.ftype {
      case Bytes => n := PackData(f.number, v.b, out, at);
      case Message(_) => n := PackSub(s, f, v.m, out, at);
      case _ =>
        n := PackScalar(f.number, GetScalar(f.ftype, v.v), out, at);
        if out != null && f.number >= 1 {
          ScalarSays(s, f, v.v);
          SpliceHolds(was, at, EncodeValue(s, f, v));
          assert out[at..at + n] == out[..][at..at + n];
        }
    }
  }

  lemma PackedSplit(t: Type, vs: seq<Value>, k: nat)
    requires k < |vs| && vs[k].Scalar?
    ensures Packed(t, vs[k..]) == Varint(GetScalar(t, vs[k].v)) + Packed(t, vs[k + 1..])
  {
    assert vs[k..][1..] == vs[k + 1..];
  }

  method PackedLen(t: Type, vs: seq<Value>) returns (len: nat)
    requires forall k | 0 <= k < |vs| :: vs[k].Scalar?
    ensures len == |Packed(t, vs)|
  {
    len := 0;
    for k := 0 to |vs|
      invariant len + |Packed(t, vs[k..])| == |Packed(t, vs)|
    {
      PackedSplit(t, vs, k);
      var size := VarintSize(GetScalar(t, vs[k].v));
      len := len + size;
    }
  }

  method PackElements(t: Type, vs: seq<Value>, out: array?<byte>, at: nat) returns (n: nat)
    requires forall k | 0 <= k < |vs| :: vs[k].Scalar?
    requires out != null ==> at + |Packed(t, vs)| <= out.Length
    modifies out
    ensures n == |Packed(t, vs)|
    ensures out != null ==> out[..] == Splice(old(out[..]), at, Packed(t, vs))
  {
    hide Varint, Splice;
    ghost var was := if out != null then out[..] else [];
    ghost var done: seq<byte> := [];
    if out != null { SpliceNothing(was, at); }
    n := 0;
    assert vs[0..] == vs;
    for k := 0 to |vs|
      invariant done + Packed(t, vs[k..]) == Packed(t, vs)
      invariant n == |done|
      invariant out != null ==> out[..] == Splice(was, at, done)
    {
      PackedSplit(t, vs, k);
      ghost var e := Varint(GetScalar(t, vs[k].v));
      assert Packed(t, vs) == (done + e) + Packed(t, vs[k + 1..]);
      var size := PutVarint(out, at + n, GetScalar(t, vs[k].v));
      if out != null { SpliceAppend(was, at, done, e); }
      done := done + e;
      n := n + size;
    }
    assert done == Packed(t, vs);
  }

  /** A packed field: its length is summed first, then the elements are written. */
  method PackPacked(f: Field, vs: seq<Value>, out: array?<byte>, at: nat) returns (n: nat)
    requires f.number < 65536 && forall k | 0 <= k < |vs| :: vs[k].Scalar?
    requires |Packed(f.ftype, vs)| < 0x1_0000_0000_0000_0000
    requires out != null ==> at + |LenField(f.number, Packed(f.ftype, vs))| <= out.Length
    modifies out
    ensures n == |LenField(f.number, Packed(f.ftype, vs))|
    ensures out != null ==> out[..] == Splice(old(out[..]), at, LenField(f.number, Packed(f.ftype, vs)))
  {
    hide Splice, Varint, Packed;
    ghost var was := if out != null then out[..] else [];
    var len := PackedLen(f.ftype, vs);
    n := PackLen(f.number, len, out, at);
    var k := PackElements(f.ftype, vs, out, at + n);
    if out != null {
      SpliceAppend(was, at, Varint(8 * f.number + 2) + Varint(len), Packed(f.ftype, vs));
    }
    n := n + k;
  }

  lemma ValuesSplit(s: Schema, f: Field, vs: seq<Value>, k: nat)
    requires k < |vs|
    ensures EncodeValues(s, f, vs[k..]) == EncodeValue(s, f, vs[k]) + EncodeValues(s, f, vs[k + 1..])
  {
    assert vs[k..][1..] == vs[k + 1..];
  }

  method PackValues(s: Schema, f: Field, vs: seq<Value>, out: array?<byte>, at: nat) returns (n: nat)
    requires ValidSchema(s) && f.number < 65536 && forall k | 0 <= k < |vs| :: TypedValue(s, f.ftype, vs[k])
    requires |EncodeValues(s, f, vs)| < 0x1_0000_0000_0000_0000
    requires out != null ==> at + |EncodeValues(s, f, vs)| <= out.Length
    modifies out
    ensures n == |EncodeValues(s, f, vs)|
    ensures out != null ==> out[..] == Splice(old(out[..]), at, EncodeValues(s, f, vs))
    decreases vs, 1
  {
    hide EncodeValue, TypedValue, Splice;
    ghost var was := if out != null then out[..] else [];
    n := 0;
    ghost var done: seq<byte> := [];
    if out != null { SpliceNothing(was, at); }
    assert vs[0..] == vs;
    for k := 0 to |vs|
      invariant done + EncodeValues(s, f, vs[k..]) == EncodeValues(s, f, vs)
      invariant n == |done|
      invariant out != null ==> out[..] == Splice(was, at, done)
    {
      ValuesSplit(s, f, vs, k);
      ghost var e := EncodeValue(s, f, vs[k]);
      assert EncodeValues(s, f, vs) == (done + e) + EncodeValues(s, f, vs[k + 1..]);
      var size := PackValue(s, f, vs[k], out, at + n);
      if out != null { SpliceAppend(was, at, done, e); }
      done := done + e;
      n := n + size;
    }
    assert done == EncodeValues(s, f, vs);
  }

  method PackSlot(s: Schema, f: Field, slot: Slot, out: array?<byte>, at: nat) returns (n: nat)
    requires ValidSchema(s) && f.number < 65536 && TypedSlot(s, f, slot)
    requires |EncodeSlot(s, f, slot)| < 0x1_0000_0000_0000_0000
    requires out != null ==> at + |EncodeSlot(s, f, slot)| <= out.Length
    modifies out
    ensures n == |EncodeSlot(s, f, slot)|
    ensures out != null ==> out[..] == Splice(old(out[..]), at, EncodeSlot(s, f, slot))
    decreases slot, 2
  {
    n := 0;
    match slot
    case Unset =>
    case One(v) =>
      if !f.kind.Singular? || !IsDefault(v) { n := PackValue(s, f, v, out, at); }
    case Many(vs) =>
      if |vs| > 0 {
        if IsScalar(f.ftype) {
          n := PackPacked(f, vs, out, at);
        } else {
          n := PackValues(s, f, vs, out, at);
        }
      }
  }

  /** Writes exactly the encoding and nothing else; with `out == null` it returns
      the same count without writing. */
  method PackMsg(s: Schema, d: nat, m: Msg, out: array?<byte>, at: nat) returns (n: nat)
    requires ValidSchema(s) && Typed(s, d, m)
    requires |EncodeMsg(s, d, m)| < 0x1_0000_0000_0000_0000
    requires out != null ==> at + |EncodeMsg(s, d, m)| <= out.Length
    modifies out
    ensures n == |EncodeMsg(s, d, m)|
    ensures out != null ==> out[..] == Splice(old(out[..]), at, EncodeMsg(s, d, m))
    decreases m, 2
  {
    hide EncodeSlot, TypedSlot, Varint, Splice;
    ghost var was := if out != null then out[..] else [];
    n := 0;
    ghost var done: seq<byte> := [];
    if out != null { SpliceNothing(was, at); }
    assert ValidDesc(s, s[d]);
    for i := 0 to |m.slots|
      invariant done + EncodeFrom(s, d, m, i) == EncodeMsg(s, d, m)
      invariant n == |done|
      invariant out != null ==> out[..] == Splice(was, at, done)
    {
      ghost var e := EncodeSlot(s, s[d].fields[i], m.slots[i]);
      assert EncodeMsg(s, d, m) == (done + e) + EncodeFrom(s, d, m, i + 1);
      var size := PackSlot(s, s[d].fields[i], m.slots[i], out, at + n);
      if out != null { SpliceAppend(was, at, done, e); }
      done := done + e;
      n := n + size;
    }
    assert done == EncodeMsg(s, d, m);
  }
}
