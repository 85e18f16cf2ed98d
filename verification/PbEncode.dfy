/** The schema-driven encoder of tools/protogen/pb.c. */
module PbEncode {
  import opened Prelude
  import opened PbVarint
  import opened PbSchema

  function VarintField(number: nat, v: u64): seq<byte> {
    Varint(8 * number + 0) + Varint(v)
  }

  function LenField(number: nat, data: seq<byte>): seq<byte> {
    Varint(8 * number + 2) + Varint(|data|) + data
  }

  function Packed(t: Type, vs: seq<Value>): seq<byte> {
    if vs == [] then []
    else (if vs[0].Scalar? then Varint(GetScalar(t, vs[0].v)) else []) + Packed(t, vs[1..])
  }

  function IsDefault(v: Value): bool {
    match v
    case Scalar(x) => x == 0
    case Data(b) => b == []
    case Sub(m) => m.None?
    case Lazy(_) => false
  }

  function EncodeValue(s: Schema, f: Field, v: Value): seq<byte>
    decreases v, 0
  {
    match v
    case Scalar(x) => VarintField(f.number, GetScalar(f.ftype, x))
    case Data(b) => LenField(f.number, b)
    case Sub(None) => LenField(f.number, [])
    case Sub(Some(m)) =>
      LenField(f.number, if f.ftype.Message? then EncodeMsg(s, f.ftype.desc, m) else [])
    case Lazy(wire) => LenField(f.number, wire)
  }

  function EncodeValues(s: Schema, f: Field, vs: seq<Value>): seq<byte>
    decreases vs, 1
  {
    if vs == [] then [] else EncodeValue(s, f, vs[0]) + EncodeValues(s, f, vs[1..])
  }

  function EncodeSlot(s: Schema, f: Field, slot: Slot): seq<byte>
    decreases slot, 2
  {
    match slot
    case Unset => []
    case One(v) => if f.kind.Singular? && IsDefault(v) then [] else EncodeValue(s, f, v)
    case Many(vs) =>
      if vs == [] then []
      else if IsScalar(f.ftype) then LenField(f.number, Packed(f.ftype, vs))
      else EncodeValues(s, f, vs)
  }

  /** The fields from the `i`-th on, in number order. */
  function EncodeFrom(s: Schema, d: nat, m: Msg, i: nat): seq<byte>
    decreases m, if i <= |m.slots| then |m.slots| - i else 0
  {
    if d < |s| && i < |m.slots| && i < |s[d].fields| then
      EncodeSlot(s, s[d].fields[i], m.slots[i]) + EncodeFrom(s, d, m, i + 1)
    else []
  }

  function EncodeMsg(s: Schema, d: nat, m: Msg): seq<byte>
    decreases m, |m.slots| + 1
  {
    EncodeFrom(s, d, m, 0)
  }
}
