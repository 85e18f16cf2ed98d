/** Message descriptors (tools/protogen/pb.h) and the messages they describe. */
module PbSchema {
  import opened Prelude

  datatype Type = Int32 | Int64 | UInt32 | UInt64 | Bool | Bytes | Message(desc: nat)

  /** A oneof member knows its group by the offset of the shared case field. */
  datatype Kind = Singular | Repeated | Oneof(group: nat)

  datatype Field = Field(number: nat, ftype: Type, kind: Kind)

  datatype Desc = Desc(size: nat, fields: seq<Field>)

  /** A message type is an index, so descriptors may refer to each other freely. */
  type Schema = seq<Desc>

  predicate IsScalar(t: Type) {
    !t.Bytes? && !t.Message?
  }

  predicate IsLazy(f: Field) {
    f.kind.Oneof? && f.ftype.Message?
  }

  /** What the generator emits: fields sorted by number, 16-bit sizes and numbers. */
  ghost predicate ValidDesc(s: Schema, d: Desc) {
    && d.size < 65536
    && (forall i | 0 <= i < |d.fields| :: 1 <= d.fields[i].number < 65536)
    && (forall i | 0 <= i < |d.fields| :: d.fields[i].ftype.Message? ==> d.fields[i].ftype.desc < |s|)
    && (forall i, j | 0 <= i < j < |d.fields| :: d.fields[i].number < d.fields[j].number)
  }

  ghost predicate ValidSchema(s: Schema) {
    forall d | 0 <= d < |s| :: ValidDesc(s, s[d])
  }

  /** `Scalar` holds the bits of the C member (`Int32` and `UInt32` 32 of them).
      `Sub(None)` is a null pointer. `Lazy` is a member the Rust runtime keeps as
      bytes. */
  datatype Value =
    | Scalar(v: u64)
    | Data(b: seq<byte>)
    | Sub(m: Option<Msg>)
    | Lazy(wire: seq<byte>)

  /** `One`: a singular member, or the member its oneof's case names.
      `Unset`: a oneof member the case does not name. */
  datatype Slot = One(v: Value) | Many(vs: seq<Value>) | Unset

  /** One slot per field, in the order of the descriptor. */
  datatype Msg = Msg(slots: seq<Slot>)

  predicate InRange(t: Type, v: u64) {
    match t
    case Int32 | UInt32 => v < 0x1_0000_0000
    case Bool => v < 2
    case _ => true
  }

  ghost predicate Typed(s: Schema, d: nat, m: Msg)
    decreases m
  {
    && d < |s|
    && |m.slots| == |s[d].fields|
    && (forall i | 0 <= i < |m.slots| :: TypedSlot(s, s[d].fields[i], m.slots[i]))
    && OneActive(s[d].fields, m.slots)
  }

  ghost predicate TypedSlot(s: Schema, f: Field, slot: Slot)
    decreases slot
  {
    match slot
    case One(v) => !f.kind.Repeated? && TypedValue(s, f.ftype, v)
    case Many(vs) => f.kind.Repeated? && forall k | 0 <= k < |vs| :: TypedValue(s, f.ftype, vs[k])
    case Unset => f.kind.Oneof?
  }

  ghost predicate TypedValue(s: Schema, t: Type, v: Value)
    decreases v
  {
    match v
    case Scalar(x) => IsScalar(t) && InRange(t, x)
    case Data(_) => t.Bytes?
    case Sub(None) => t.Message?
    case Sub(Some(m)) => t.Message? && Typed(s, t.desc, m)
    case Lazy(_) => false
  }

  /** A case field names at most one member of its group. */
  ghost predicate OneActive(fields: seq<Field>, slots: seq<Slot>)
    requires |slots| == |fields|
  {
    forall i, j | 0 <= i < j < |fields| ::
      fields[i].kind.Oneof? && fields[i].kind == fields[j].kind ==> slots[i].Unset? || slots[j].Unset?
  }

  function DefaultValue(t: Type): Value {
    match t
    case Bytes => Data([])
    case Message(_) => Sub(None)
    case _ => Scalar(0)
  }

  function DefaultSlot(f: Field): Slot {
    match f.kind
    case Singular => One(DefaultValue(f.ftype))
    case Repeated => Many([])
    case Oneof(_) => Unset
  }

  /** Zeroed memory. */
  function Default(d: Desc): (m: Msg)
    ensures |m.slots| == |d.fields|
    ensures forall i | 0 <= i < |d.fields| :: m.slots[i] == DefaultSlot(d.fields[i])
  {
    Msg(seq(|d.fields|, i requires 0 <= i < |d.fields| => DefaultSlot(d.fields[i])))
  }

  // ----- scalars

  /** What `get_scalar` puts on the wire: a negative `int32` is sign extended. */
  function GetScalar(t: Type, x: u64): u64 {
    if t.Int32? && 0x8000_0000 <= x < 0x1_0000_0000 then x + 0xffff_ffff_0000_0000 else x
  }

  /** What `set_scalar` keeps of a wire value. */
  function SetScalar(t: Type, v: u64): (x: u64)
    ensures InRange(t, x)
  {
    match t
    case Int32 | UInt32 => v % 0x1_0000_0000
    case Bool => if v != 0 then 1 else 0
    case _ => v
  }

  lemma ScalarRoundTrip(t: Type, x: u64)
    requires InRange(t, x)
    ensures SetScalar(t, GetScalar(t, x)) == x
    ensures GetScalar(t, x) == 0 <==> x == 0
  {
    if t.Int32? && x >= 0x8000_0000 {
      assert x + 0xffff_ffff_0000_0000 == x + 0x1_0000_0000 * 0xffff_ffff;
    }
  }

  // ----- what the bits of a member and of a wire value say

  /** Two's complement of 32 bits. */
  function Signed32(x: nat): int {
    if x < 0x8000_0000 then x else x - 0x1_0000_0000
  }

  /** Two's complement of 64 bits. */
  function Signed64(x: nat): int {
    if x < 0x8000_0000_0000_0000 then x else x - 0x1_0000_0000_0000_0000
  }

  /** The number a member stands for. */
  function Meaning(t: Type, x: u64): int {
    match t
    case Int32 => Signed32(x)
    case Int64 => Signed64(x)
    case _ => x
  }

  /** The number goes on the wire whole: 64 bits of two's complement for a signed type. */
  lemma WireMeaning(t: Type, x: u64)
    requires InRange(t, x)
    ensures Meaning(t, x) == if t.Int32? || t.Int64? then Signed64(GetScalar(t, x)) else GetScalar(t, x)
  {
  }

  /** A wire value is stored as the number it says where the member can hold that, and otherwise as
      its low 32 bits; a flag is set by every value but zero. */
  lemma StoredMeaning(t: Type, v: u64)
    ensures t.Int32? && -0x8000_0000 <= Signed64(v) < 0x8000_0000 ==> Meaning(t, SetScalar(t, v)) == Signed64(v)
    ensures t.UInt32? && v < 0x1_0000_0000 ==> Meaning(t, SetScalar(t, v)) == v
    ensures t.Int32? || t.UInt32? ==> exists high: nat :: v == high * 0x1_0000_0000 + SetScalar(t, v)
    ensures t.Int64? ==> Meaning(t, SetScalar(t, v)) == Signed64(v)
    ensures t.UInt64? ==> Meaning(t, SetScalar(t, v)) == v
    ensures t.Bool? ==> (Meaning(t, SetScalar(t, v)) == 0 <==> v == 0) && 0 <= Meaning(t, SetScalar(t, v)) <= 1
  {
    if t.Int32? && v >= 0x8000_0000_0000_0000 && Signed64(v) >= -0x8000_0000 {
      assert v == (v - 0xffff_ffff_0000_0000) + 0x1_0000_0000 * 0xffff_ffff;
    }
    assert v == v / 0x1_0000_0000 * 0x1_0000_0000 + v % 0x1_0000_0000;
  }

  // ----- field lookup

  function Lookup(fields: seq<Field>, number: nat): (r: Option<nat>)
    ensures match r
            case None => forall i | 0 <= i < |fields| :: fields[i].number != number
            case Some(i) => i < |fields| && fields[i].number == number
  {
    if fields == [] then None
    else
      var last := |fields| - 1;
      if fields[last].number == number then Some(last) else Lookup(fields[..last], number)
  }

  /** The binary search of `find_field`. */
  method FindField(s: Schema, d: Desc, number: nat) returns (r: Option<nat>)
    requires ValidDesc(s, d)
    ensures r == Lookup(d.fields, number)
  {
    var lo, hi := 0, |d.fields|;
    while lo < hi
      invariant 0 <= lo <= hi <= |d.fields|
      invariant forall i | 0 <= i < lo :: d.fields[i].number < number
      invariant forall i | hi <= i < |d.fields| :: d.fields[i].number > number
    {
      var mid := (lo + hi) / 2;
      var n := d.fields[mid].number;
      if n == number { return Some(mid); }
      if n < number { lo := mid + 1; } else { hi := mid; }
    }
    return None;
  }
}
