/** The C decoder of tools/protogen/pb.c: measure, one allocation, then a counting
    pass and a filling pass over the memory of each message. */
module PbUnpack {
  import opened Prelude
  import opened PbVarint
  import opened PbSchema
  import opened PbDecode
  import opened PbMeasure
  import opened PbArena

  class Arena {
    var cur: nat
    const end: nat

    constructor (start: nat, end: nat)
      ensures cur == start && this.end == end
    {
      cur := start;
      this.end := end;
    }

    /** `None` is the null pointer of an exhausted arena. */
    method Alloc(size: nat) returns (p: Option<nat>)
      requires cur <= end
      modifies this
      ensures Align(size) <= end - old(cur) ==> p == Some(old(cur)) && cur == old(cur) + Align(size)
      ensures Align(size) > end - old(cur) ==> p.None? && cur == old(cur)
    {
      var n := Align(size);
      if n > end - cur { return None; }
      p := Some(cur);
      cur := cur + n;
    }
  }

  /** The memory of one message: singular and oneof members by field, the case of
      each oneof, and for repeated fields the count and the array it counts. */
  class Memory {
    var member: seq<Value>
    var cases: map<nat, nat>
    var count: seq<nat>
    var arr: seq<seq<Value>>

    /** Zeroed memory. */
    constructor (d: Desc)
      ensures fresh(this)
      ensures Zero(d)
    {
      member := seq(|d.fields|, i requires 0 <= i < |d.fields| => DefaultValue(d.fields[i].ftype));
      cases := map[];
      count := seq(|d.fields|, _ => 0);
      arr := seq(|d.fields|, _ => []);
    }

    ghost predicate Shape(d: Desc)
      reads this
    {
      |member| == |count| == |arr| == |d.fields|
    }

    ghost predicate Zero(d: Desc)
      reads this
    {
      && Shape(d) && cases == map[]
      && (forall i | 0 <= i < |count| :: member[i] == DefaultValue(d.fields[i].ftype) && count[i] == 0 && arr[i] == [])
    }

    ghost predicate Filled(d: Desc)
      reads this
    {
      Shape(d) && forall i | 0 <= i < |count| :: count[i] <= |arr[i]|
    }

    /** The message this memory holds. */
    function Contents(d: Desc): (m: Msg)
      requires Filled(d)
      reads this
      ensures |m.slots| == |d.fields|
    {
      Msg(SlotsOf(d.fields, member, cases, count, arr))
    }
  }

  function SlotOf(f: Field, member: Value, cases: map<nat, nat>, count: nat, arr: seq<Value>): Slot
    requires count <= |arr|
  {
    match f.kind
    case Singular => One(member)
    case Repeated => Many(arr[..count])
    case Oneof(g) => if g in cases && cases[g] == f.number then One(member) else Unset
  }

  function SlotsOf(fields: seq<Field>, member: seq<Value>, cases: map<nat, nat>, count: seq<nat>, arr: seq<seq<Value>>):
    (slots: seq<Slot>)
    requires |member| == |count| == |arr| == |fields| && forall i | 0 <= i < |count| :: count[i] <= |arr[i]|
    ensures |slots| == |fields|
    ensures forall i | 0 <= i < |fields| :: slots[i] == SlotOf(fields[i], member[i], cases, count[i], arr[i])
  {
    seq(|fields|, i requires 0 <= i < |fields| => SlotOf(fields[i], member[i], cases, count[i], arr[i]))
  }

  // ----- one value

  /** `depth` is not in the code: the measuring pass has already checked it. */
  method DecodeValueC(s: Schema, f: Field, w: WireField, ghost t: Token, ghost depth: nat, a: Arena)
    returns (ok: bool, v: Value)
    requires ValidSchema(s) && (f.ftype.Message? ==> f.ftype.desc < |s|) && Matches(w, t)
    requires SubNeed(s, f, t.payload, depth).Some? && a.cur + SubNeed(s, f, t.payload, depth).value <= a.end
    modifies a
    ensures ok == DecodeValue(s, f, t.payload, depth, false).Some?
    ensures ok ==> DecodeValue(s, f, t.payload, depth, false) == Some(v)
    ensures old(a.cur) <= a.cur <= old(a.cur) + SubNeed(s, f, t.payload, depth).value
    decreases |w.val|, 2
  {
    v := Sub(None);
    match f.ftype
    case Bytes =>
      if w.wt != 2 { return false, v; }
      return true, Data(w.val);
    case Message(j) =>
      if w.wt != 2 { return false, v; }
      var sub := a.Alloc(s[j].size);
      if sub.None? { assert false; }
      var memory := new Memory(s[j]);
      ok := Decode(s, j, w.val, depth + 1, memory, a);
      if ok { v := Sub(Some(memory.Contents(s[j]))); }
    case _ =>
      if w.wt != 0 { return false, v; }
      var x, p;
      ok, x, p := GetVarint(w.val);
      if ok { v := Scalar(SetScalar(f.ftype, x)); }
  }

  // ----- one field

  /** The packed loop: `(*count)++` per element. */
  method FillPacked(f: Field, i: nat, b: seq<byte>, m: Memory) returns (ok: bool)
    requires i < |m.count| == |m.arr| && m.count[i] + Terminators(b) <= |m.arr[i]|
    modifies m`count, m`arr
    ensures ok == ReadPacked(f.ftype, b).Some?
    ensures |m.count| == |m.arr| == old(|m.count|) && |m.arr[i]| == old(|m.arr[i]|) && m.count[i] <= |m.arr[i]|
    ensures forall j | 0 <= j < |m.count| && j != i :: m.count[j] == old(m.count[j]) && m.arr[j] == old(m.arr[j])
    ensures ok ==> m.arr[i][..m.count[i]] == old(m.arr[i][..m.count[i]]) + ReadPacked(f.ftype, b).value
    ensures ok ==> m.count[i] == old(m.count[i]) + Terminators(b)
  {
    hide ReadVarint;
    ghost var was := m.arr[i][..m.count[i]];
    ghost var got: seq<Value> := [];
    var q := b;
    assert was + got == was;
    assert ReadPacked(f.ftype, b).Some? ==> got + ReadPacked(f.ftype, b).value == ReadPacked(f.ftype, b).value;
    while q != []
      invariant |m.count| == |m.arr| == old(|m.count|) && |m.arr[i]| == old(|m.arr[i]|)
      invariant m.count[i] + Terminators(q) == old(m.count[i]) + Terminators(b)
      invariant forall j | 0 <= j < |m.count| && j != i :: m.count[j] == old(m.count[j]) && m.arr[j] == old(m.arr[j])
      invariant m.count[i] <= |m.arr[i]| && m.arr[i][..m.count[i]] == was + got
      invariant ReadPacked(f.ftype, b) ==
                match ReadPacked(f.ftype, q)
                case None => None
                case Some(vs) => Some(got + vs)
      decreases |q|
    {
      var v, n;
      ok, v, n := GetVarint(q);
      if !ok { return; }
      VarintTerminates(q);
      var e := Scalar(SetScalar(f.ftype, v));
      var k := m.count[i];
      ghost var next := ReadPacked(f.ftype, q[n..]);
      assert next.Some? ==> got + ([e] + next.value) == (got + [e]) + next.value;
      StoreElement(m, i, e);
      got := got + [e];
      q := q[n..];
    }
    ok := true;
  }

  /** `arr[(*count)++] = v`: the write must be inside the array. */
  method StoreElement(m: Memory, i: nat, v: Value)
    requires i < |m.count| == |m.arr| && m.count[i] < |m.arr[i]|
    modifies m`count, m`arr
    ensures m.count == old(m.count)[i := old(m.count[i]) + 1]
    ensures |m.arr| == old(|m.arr|) && |m.arr[i]| == old(|m.arr[i]|)
    ensures forall j | 0 <= j < |m.arr| && j != i :: m.arr[j] == old(m.arr[j])
    ensures m.arr[i][..m.count[i]] == old(m.arr[i][..m.count[i]]) + [v]
  {
    var k := m.count[i];
    m.arr := m.arr[i := m.arr[i][k := v]];
    m.count := m.count[i := k + 1];
  }

  /** Stores one token into the memory of the message. */
  method FillField(s: Schema, d: nat, i: nat, w: WireField, ghost t: Token, ghost depth: nat, m: Memory, a: Arena)
    returns (ok: bool)
    requires ValidSchema(s) && d < |s| && i < |s[d].fields| && Lookup(s[d].fields, t.number) == Some(i)
    requires Matches(w, t) && s[d].fields[i].number == t.number
    requires s[d].fields[i].ftype.Message? ==> s[d].fields[i].ftype.desc < |s|
    requires m.Filled(s[d])
    requires s[d].fields[i].kind.Repeated? ==> m.count[i] + Elements(s[d].fields[i], t.payload) <= |m.arr[i]|
    requires SubNeed(s, s[d].fields[i], t.payload, depth).Some?
    requires a.cur + SubNeed(s, s[d].fields[i], t.payload, depth).value <= a.end
    modifies m, a
    ensures ok == MergeField(s, d, old(m.Contents(s[d])), t.number, t.payload, depth, false).Some?
    ensures ok ==> m.Filled(s[d])
    ensures ok ==> MergeField(s, d, old(m.Contents(s[d])), t.number, t.payload, depth, false) == Some(m.Contents(s[d]))
    ensures ok ==> forall j | 0 <= j < |m.arr| :: |m.arr[j]| == old(|m.arr[j]|)
    ensures ok ==> forall j | 0 <= j < |m.count| :: m.count[j] == old(m.count[j]) + TokenCount(s, d, t, j)
    ensures old(a.cur) <= a.cur <= old(a.cur) + SubNeed(s, s[d].fields[i], t.payload, depth).value
    decreases |w.val|, 3
  {
    hide DecodeValue, SubNeed, ReadPacked, Matches, Lookup;
    MatchesPayload(w, t);
    var f := s[d].fields[i];
    ghost var before := m.Contents(s[d]);
    if !f.kind.Repeated? {
      if f.kind.Oneof? { m.cases := m.cases[f.kind.group := f.number]; }
      var v;
      ok, v := DecodeValueC(s, f, w, t, depth, a);
      if !ok { return; }
      m.member := m.member[i := v];
      ghost var after := m.Contents(s[d]);
      if f.kind.Oneof? {
        assert ValidDesc(s, s[d]);
        assert after.slots == SetOneof(s[d].fields, before.slots, i, v);
      } else {
        assert after.slots == before.slots[i := One(v)];
      }
    } else if IsScalar(f.ftype) && w.wt == 2 {
      ok := FillPacked(f, i, w.val, m);
      if !ok { return; }
      assert m.Contents(s[d]).slots == before.slots[i := Append(before.slots[i], ReadPacked(f.ftype, w.val).value)];
    } else {
      var v;
      ok, v := DecodeValueC(s, f, w, t, depth, a);
      if !ok { return; }
      StoreElement(m, i, v);
      assert m.Contents(s[d]).slots == before.slots[i := Append(before.slots[i], [v])];
    }
  }

  // ----- one message

  /** The counting pass. */
  method CountPass(s: Schema, d: nat, b: seq<byte>, ghost depth: nat, m: Memory)
    requires ValidSchema(s) && d < |s| && NeedLoop(s, d, b, depth).Some? && m.Zero(s[d])
    modifies m`count
    ensures |m.count| == |s[d].fields| && forall i | 0 <= i < |m.count| :: m.count[i] == Count(s, d, b, i)
  {
    hide NextField, Lookup, Elements, SubNeed, ArrayNeed, Matches;
    var rest := b;
    while rest != []
      invariant NeedLoop(s, d, rest, depth).Some?
      invariant |m.count| == |s[d].fields|
      invariant forall i | 0 <= i < |m.count| :: m.count[i] + Count(s, d, rest, i) == Count(s, d, b, i)
      decreases |rest|
    {
      var ok, w, p := NextWire(rest);
      if !ok { assert false; }
      ghost var t := NextField(rest).value;
      MatchesPayload(w, t);
      ghost var here := rest;
      rest := rest[p..];
      var found := FindField(s, s[d], w.number);
      if found.Some? && s[d].fields[found.value].kind.Repeated? {
        var i := found.value;
        var n := CountElements(s[d].fields[i], w, t);
        m.count := m.count[i := m.count[i] + n];
      }
      assert forall i | 0 <= i < |m.count| :: Count(s, d, here, i) == TokenCount(s, d, t, i) + Count(s, d, rest, i);
    }
  }

  method CountElements(f: Field, w: WireField, ghost t: Token) returns (n: nat)
    requires Matches(w, t)
    ensures n == Elements(f, t.payload)
  {
    n := 1;
    if IsScalar(f.ftype) && w.wt == 2 { n := CountVarints(w.val); }
  }

  /** One array per repeated field that has elements. */
  method AllocPass(s: Schema, d: nat, ghost b: seq<byte>, m: Memory, a: Arena)
    requires ValidSchema(s) && d < |s| && |m.count| == |m.arr| == |s[d].fields|
    requires forall i | 0 <= i < |m.count| :: m.count[i] == Count(s, d, b, i) && m.arr[i] == []
    requires a.cur + AllocUpTo(s, d, b, |s[d].fields|) <= a.end
    modifies m`count, m`arr, a
    ensures |m.count| == |m.arr| == |s[d].fields|
    ensures forall i | 0 <= i < |m.count| :: s[d].fields[i].kind.Repeated? ==> m.count[i] == 0 && |m.arr[i]| == Count(s, d, b, i)
    ensures forall i | 0 <= i < |m.count| :: !s[d].fields[i].kind.Repeated? ==> m.count[i] == Count(s, d, b, i) && m.arr[i] == []
    ensures a.cur == old(a.cur) + AllocUpTo(s, d, b, |s[d].fields|)
  {
    hide Count, Align, ElemSize, DefaultValue, ValidSchema;
    for i := 0 to |s[d].fields|
      invariant |m.count| == |m.arr| == |s[d].fields|
      invariant forall j | 0 <= j < i :: s[d].fields[j].kind.Repeated? ==> m.count[j] == 0 && |m.arr[j]| == Count(s, d, b, j)
      invariant forall j | 0 <= j < |m.count| :: j >= i || !s[d].fields[j].kind.Repeated? ==> m.count[j] == Count(s, d, b, j) && m.arr[j] == []
      invariant a.cur == old(a.cur) + AllocUpTo(s, d, b, i)
    {
      AllocUpToMonotone(s, d, b, i + 1, |s[d].fields|);
      var f := s[d].fields[i];
      if f.kind.Repeated? && m.count[i] != 0 {
        var p := a.Alloc(m.count[i] * ElemSize(f.ftype));
        if p.None? { assert false; }
        m.arr := m.arr[i := seq(m.count[i], _ => DefaultValue(f.ftype))];
        m.count := m.count[i := 0];
      }
    }
  }

  /** What is left of the filling pass. */
  ghost predicate Filling(s: Schema, d: nat, rest: seq<byte>, depth: nat, m: Memory, a: Arena)
    requires ValidSchema(s) && d < |s|
    reads m, a
  {
    && m.Filled(s[d])
    && NeedLoop(s, d, rest, depth).Some?
    && a.cur + SubTotal(s, d, rest, depth) <= a.end
    && forall i | 0 <= i < |s[d].fields| ::
         s[d].fields[i].kind.Repeated? ==> m.count[i] + Count(s, d, rest, i) <= |m.arr[i]|
  }

  lemma MergeUnknown(s: Schema, d: nat, m: Msg, t: Token, depth: nat)
    requires ValidSchema(s) && d < |s| && |m.slots| == |s[d].fields|
    requires Lookup(s[d].fields, t.number).None?
    ensures MergeField(s, d, m, t.number, t.payload, depth, false) == Some(m)
  {
  }

  /** The filling pass. `next_field` is not checked here. */
  method FillPass(s: Schema, d: nat, b: seq<byte>, ghost depth: nat, m: Memory, a: Arena) returns (ok: bool)
    requires ValidSchema(s) && d < |s| && Filling(s, d, b, depth, m, a)
    modifies m, a
    ensures ok == DecodeLoop(s, d, b, old(m.Contents(s[d])), depth, false).Some?
    ensures ok ==> m.Filled(s[d])
    ensures ok ==> DecodeLoop(s, d, b, old(m.Contents(s[d])), depth, false) == Some(m.Contents(s[d]))
    ensures old(a.cur) <= a.cur <= old(a.cur) + SubTotal(s, d, b, depth)
    decreases |b|, 0
  {
    hide NextField, Lookup, MergeField, SubNeed, Matches, ArrayNeed, Elements;
    var rest := b;
    while rest != []
      invariant Filling(s, d, rest, depth, m, a) && |rest| <= |b|
      invariant DecodeLoop(s, d, rest, m.Contents(s[d]), depth, false) ==
                DecodeLoop(s, d, b, old(m.Contents(s[d])), depth, false)
      invariant old(a.cur) <= a.cur && a.cur + SubTotal(s, d, rest, depth) <= old(a.cur) + SubTotal(s, d, b, depth)
      decreases |rest|
    {
      var parsed, w, p := NextWire(rest);
      assert parsed;
      ghost var t := NextField(rest).value;
      MatchesPayload(w, t);
      var found := FindField(s, s[d], w.number);
      if found.Some? {
        assert ValidDesc(s, s[d]);
        ok := FillField(s, d, found.value, w, t, depth, m, a);
        if !ok { return; }
      } else {
        MergeUnknown(s, d, m.Contents(s[d]), t, depth);
      }
      rest := rest[p..];
    }
    ok := true;
  }

  /** Nothing can fail here but the input: no allocation is refused, and the result
      is that of the single-pass decoder. */
  method Decode(s: Schema, d: nat, b: seq<byte>, ghost depth: nat, m: Memory, a: Arena) returns (ok: bool)
    requires ValidSchema(s) && d < |s| && Need(s, d, b, depth).Some? && m.Zero(s[d])
    requires a.cur + Need(s, d, b, depth).value <= a.end
    modifies m, a
    ensures ok == DecodeAt(s, d, b, depth, false).Some?
    ensures ok ==> m.Filled(s[d]) && DecodeAt(s, d, b, depth, false) == Some(m.Contents(s[d]))
    ensures old(a.cur) <= a.cur <= old(a.cur) + Need(s, d, b, depth).value
    decreases |b|, 1
  {
    CountPass(s, d, b, depth, m);
    ArenaSuffices(s, d, b, depth, |s[d].fields|);
    CountOnlyRepeated(s, d, b);
    AllocPass(s, d, b, m, a);
    assert m.Contents(s[d]).slots == Default(s[d]).slots;
    ok := FillPass(s, d, b, depth, m, a);
  }

  lemma {:induction false} CountOnlyRepeated(s: Schema, d: nat, b: seq<byte>)
    requires d < |s|
    ensures forall i | 0 <= i < |s[d].fields| && !s[d].fields[i].kind.Repeated? :: Count(s, d, b, i) == 0
    decreases |b|
  {
    if b != [] && NextField(b).Some? {
      CountOnlyRepeated(s, d, b[NextField(b).value.size..]);
    }
  }

  /** What the measuring pass refuses no decoder would accept. */
  lemma {:induction false} RefusedByMeasure(s: Schema, d: nat, b: seq<byte>, m: Msg, depth: nat)
    requires ValidSchema(s) && d < |s| && |m.slots| == |s[d].fields|
    requires NeedLoop(s, d, b, depth).None?
    ensures DecodeLoop(s, d, b, m, depth, false).None?
    decreases |b|
  {
    hide ReadVarint, Lookup, ReadPacked;
    if b != [] && NextField(b).Some? {
      var t := NextField(b).value;
      var merged := MergeField(s, d, m, t.number, t.payload, depth, false);
      match Lookup(s[d].fields, t.number)
      case None =>
        RefusedByMeasure(s, d, b[t.size..], m, depth);
      case Some(i) =>
        assert ValidDesc(s, s[d]);
        var f := s[d].fields[i];
        if SubNeed(s, f, t.payload, depth).None? {
          assert f.ftype.Message? && t.payload.Len? && Need(s, f.ftype.desc, t.payload.data, depth + 1).None?;
          if depth + 1 <= MAX_DEPTH {
            RefusedByMeasure(s, f.ftype.desc, t.payload.data, Default(s[f.ftype.desc]), depth + 1);
          }
          assert DecodeValue(s, f, t.payload, depth, false).None?;
        } else if merged.Some? {
          RefusedByMeasure(s, d, b[t.size..], merged.value, depth);
        }
    }
  }

  /** `block_t` in front, then the message, then the arena. */
  const BLOCK := 8

  /** For every input the result is exactly that of the single-pass decoder. */
  method Unpack(s: Schema, d: nat, b: seq<byte>) returns (r: Option<Msg>)
    requires ValidSchema(s) && d < |s|
    ensures r == DecodeAt(s, d, b, 0, false)
  {
    var need := Align(BLOCK) + Align(s[d].size);
    var ok;
    ok, need := Measure(s, d, b, 0, need);
    if !ok {
      RefusedByMeasure(s, d, b, Default(s[d]), 0);
      return None;
    }
    var m := new Memory(s[d]);
    var a := new Arena(Align(BLOCK) + Align(s[d].size), need);
    ok := Decode(s, d, b, 0, m, a);
    if !ok { return None; }
    r := Some(m.Contents(s[d]));
  }
}
