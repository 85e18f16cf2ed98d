/** Single-pass decoding as tools/protogen/pb.rs and its generated `merge_field`
    do it. It is also what the C decoder is proved to compute. */
module PbDecode {
  import opened Prelude
  import opened PbVarint
  import opened PbSchema

  const MAX_DEPTH: nat := 16

  datatype Payload = Varint64(v: u64) | Len(data: seq<byte>) | Fixed

  /** A field on the wire and the number of bytes it takes. */
  datatype Token = Token(number: nat, payload: Payload, size: nat)

  function NextField(b: seq<byte>): (r: Option<Token>)
    ensures r.Some? ==> 0 < r.value.size <= |b|
    ensures r.Some? && r.value.payload.Len? ==> |r.value.payload.data| < |b|
  {
    match ReadVarint(b)
    case None => None
    case Some((tag, n)) =>
      var number := tag / 8;
      if number == 0 || number > 0xffff_ffff then None
      else
        match tag % 8
        case 0 =>
          (match ReadVarint(b[n..])
           case None => None
           case Some((v, k)) => Some(Token(number, Varint64(v), n + k)))
        case 1 => if 8 <= |b| - n then Some(Token(number, Fixed, n + 8)) else None
        case 2 =>
          (match ReadVarint(b[n..])
           case None => None
           case Some((len, k)) =>
             if len <= |b| - n - k then Some(Token(number, Len(b[n + k..n + k + len]), n + k + len)) else None)
        case 5 => if 4 <= |b| - n then Some(Token(number, Fixed, n + 4)) else None
        case _ => None
  }

  /** The elements of a packed field. */
  function ReadPacked(t: Type, b: seq<byte>): Option<seq<Value>> {
    if b == [] then Some([])
    else
      match ReadVarint(b)
      case None => None
      case Some((v, n)) =>
        match ReadPacked(t, b[n..])
        case None => None
        case Some(vs) => Some([Scalar(SetScalar(t, v))] + vs)
  }

  function PayloadSize(p: Payload): nat {
    if p.Len? then |p.data| else 0
  }

  /** One value of field `f`. With `lazy`, a oneof message member stays encoded. */
  function DecodeValue(s: Schema, f: Field, p: Payload, depth: nat, lazy: bool): Option<Value>
    requires ValidSchema(s)
    requires f.ftype.Message? ==> f.ftype.desc < |s|
    decreases PayloadSize(p), 3
  {
    match f.ftype
    case Bytes => if p.Len? then Some(Data(p.data)) else None
    case Message(j) =>
      if !p.Len? then None
      else if lazy && IsLazy(f) then
        if depth >= MAX_DEPTH then None else Some(Lazy(p.data))
      else
        (match DecodeAt(s, j, p.data, depth + 1, lazy)
         case None => None
         case Some(m) => Some(Sub(Some(m))))
    case _ => if p.Varint64? then Some(Scalar(SetScalar(f.ftype, p.v))) else None
  }

  function Append(slot: Slot, vs: seq<Value>): Slot {
    if slot.Many? then Many(slot.vs + vs) else Many(vs)
  }

  /** Setting a oneof member unsets the others of its group. */
  function SetOneof(fields: seq<Field>, slots: seq<Slot>, i: nat, v: Value): (r: seq<Slot>)
    requires |fields| == |slots| && i < |slots|
    ensures |r| == |slots|
  {
    seq(|slots|, j requires 0 <= j < |slots| =>
      if j == i then One(v) else if fields[j].kind == fields[i].kind then Unset else slots[j])
  }

  /** A later occurrence of a singular field replaces the earlier one. */
  function MergeField(s: Schema, d: nat, m: Msg, number: nat, p: Payload, depth: nat, lazy: bool): (r: Option<Msg>)
    requires ValidSchema(s) && d < |s| && |m.slots| == |s[d].fields|
    ensures r.Some? ==> |r.value.slots| == |s[d].fields|
    decreases PayloadSize(p), 4
  {
    match Lookup(s[d].fields, number)
    case None => Some(m)
    case Some(i) =>
      var f := s[d].fields[i];
      assert ValidDesc(s, s[d]);
      if f.kind.Repeated? && IsScalar(f.ftype) && p.Len? then
        match ReadPacked(f.ftype, p.data)
        case None => None
        case Some(vs) => Some(Msg(m.slots[i := Append(m.slots[i], vs)]))
      else
        match DecodeValue(s, f, p, depth, lazy)
        case None => None
        case Some(v) =>
          match f.kind
          case Singular => Some(Msg(m.slots[i := One(v)]))
          case Repeated => Some(Msg(m.slots[i := Append(m.slots[i], [v])]))
          case Oneof(_) => Some(Msg(SetOneof(s[d].fields, m.slots, i, v)))
  }

  /** The loop over the fields of one message. */
  function DecodeLoop(s: Schema, d: nat, b: seq<byte>, m: Msg, depth: nat, lazy: bool): (r: Option<Msg>)
    requires ValidSchema(s) && d < |s| && |m.slots| == |s[d].fields|
    ensures r.Some? ==> |r.value.slots| == |s[d].fields|
    decreases |b|, 1
  {
    if b == [] then Some(m)
    else
      match NextField(b)
      case None => None
      case Some(t) =>
        match MergeField(s, d, m, t.number, t.payload, depth, lazy)
        case None => None
        case Some(m') => DecodeLoop(s, d, b[t.size..], m', depth, lazy)
  }

  function DecodeAt(s: Schema, d: nat, b: seq<byte>, depth: nat, lazy: bool): (r: Option<Msg>)
    requires ValidSchema(s) && d < |s|
    ensures r.Some? ==> |r.value.slots| == |s[d].fields|
    decreases |b|, 2
  {
    if depth > MAX_DEPTH then None else DecodeLoop(s, d, b, Default(s[d]), depth, lazy)
  }
}
