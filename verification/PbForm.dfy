/** The form of an encoding of tools/protogen/pb.c. */
module PbForm {
  // Said by the field numbers met on the wire: ascending, nothing for a member at its default, one
  // packed field for a repeated scalar, and otherwise one field for every value.

  import opened Prelude
  import opened PbVarint
  import opened PbSchema
  import opened PbEncode
  import opened PbDecode
  import opened PbGrammar
  import opened PbWire

  /** The field numbers on the wire, in order. */
  function Numbers(b: seq<byte>): Option<seq<nat>> {
    if b == [] then Some([])
    else
      match NextField(b)
      case None => None
      case Some(t) => Prepend([t.number], Numbers(b[t.size..]))
  }

  function Prepend(ns: seq<nat>, more: Option<seq<nat>>): Option<seq<nat>> {
    match more
    case None => None
    case Some(tail) => Some(ns + tail)
  }

  function Times(ns: seq<nat>, n: nat): nat {
    if ns == [] then 0 else (if ns[0] == n then 1 else 0) + Times(ns[1..], n)
  }

  function Copies(n: nat, k: nat): (ns: seq<nat>)
    ensures |ns| == k && forall j | 0 <= j < k :: ns[j] == n
  {
    seq(k, _ => n)
  }

  /** How often the number of `f` is on the wire. */
  function Occurs(f: Field, slot: Slot): nat {
    if slot == DefaultSlot(f) then 0
    else if slot.Many? && !IsScalar(f.ftype) then |slot.vs|
    else 1
  }

  lemma NumbersFirst(e: seq<byte>, k: nat, t: Token, rest: seq<byte>)
    requires IsField(e, k, t)
    ensures Numbers(e + rest) == Prepend([t.number], Numbers(rest))
  {
    hide NextField, IsVarint, IsDelimited;
    assert (e + rest)[..t.size] == e && (e + rest)[t.size..] == rest;
    FieldIsRead(e + rest, k, t);
    NextFieldTakes(e + rest);
  }

  /** One value is one field. */
  lemma ValueIsField(s: Schema, f: Field, v: Value) returns (k: nat, t: Token)
    requires 1 <= f.number <= 0xffff_ffff && TypedValue(s, f.ftype, v)
    requires |EncodeValue(s, f, v)| < 0x1_0000_0000_0000_0000
    ensures IsField(EncodeValue(s, f, v), k, t) && t.number == f.number
  {
    hide IsField, GetScalar, Varint, EncodeMsg, Typed;
    var e := EncodeValue(s, f, v);
    match v
    case Scalar(x) =>
      var w := GetScalar(f.ftype, x);
      IsVarintField(f.number, w);
      k, t := |Varint(8 * f.number)|, Token(f.number, Varint64(w), |e|);
    case Data(b) =>
      IsLenField(f.number, b);
      k, t := |Varint(8 * f.number + 2)|, Token(f.number, Len(b), |e|);
    case Sub(sub) =>
      var b := if sub.Some? then EncodeMsg(s, f.ftype.desc, sub.value) else [];
      IsLenField(f.number, b);
      k, t := |Varint(8 * f.number + 2)|, Token(f.number, Len(b), |e|);
  }

  lemma PrependBoth(a: seq<nat>, b: seq<nat>, more: Option<seq<nat>>)
    ensures Prepend(a, Prepend(b, more)) == Prepend(a + b, more)
  {
    if more.Some? { assert a + (b + more.value) == (a + b) + more.value; }
  }

  lemma {:induction false} ValuesNumbers(s: Schema, f: Field, vs: seq<Value>, rest: seq<byte>)
    requires 1 <= f.number <= 0xffff_ffff && forall j | 0 <= j < |vs| :: TypedValue(s, f.ftype, vs[j])
    requires |EncodeValues(s, f, vs)| < 0x1_0000_0000_0000_0000
    ensures Numbers(EncodeValues(s, f, vs) + rest) == Prepend(Copies(f.number, |vs|), Numbers(rest))
  {
    hide Numbers, IsField, EncodeValue, TypedValue;
    if vs == [] {
      assert EncodeValues(s, f, vs) + rest == rest;
      assert Numbers(rest).Some? ==> Copies(f.number, 0) + Numbers(rest).value == Numbers(rest).value;
    } else {
      var k, t := ValueIsField(s, f, vs[0]);
      var e, tail := EncodeValue(s, f, vs[0]), EncodeValues(s, f, vs[1..]) + rest;
      assert EncodeValues(s, f, vs) + rest == e + tail;
      NumbersFirst(e, k, t, tail);
      ValuesNumbers(s, f, vs[1..], rest);
      PrependBoth([f.number], Copies(f.number, |vs| - 1), Numbers(rest));
      assert [f.number] + Copies(f.number, |vs| - 1) == Copies(f.number, |vs|);
    }
  }

  lemma SlotNumbers(s: Schema, f: Field, slot: Slot, rest: seq<byte>)
    requires 1 <= f.number <= 0xffff_ffff && TypedSlot(s, f, slot)
    requires |EncodeSlot(s, f, slot)| < 0x1_0000_0000_0000_0000
    ensures Numbers(EncodeSlot(s, f, slot) + rest) == Prepend(Copies(f.number, Occurs(f, slot)), Numbers(rest))
  {
    hide Numbers, IsField, EncodeValue, EncodeValues, Packed, Typed;
    var e := EncodeSlot(s, f, slot);
    if slot == DefaultSlot(f) {
      assert e == [];
      assert e + rest == rest;
      assert Numbers(rest).Some? ==> Copies(f.number, 0) + Numbers(rest).value == Numbers(rest).value;
    } else {
      assert Copies(f.number, 1) == [f.number];
      match slot
      case One(v) =>
        OneIsEncoded(s, f, v);
        var k, t := ValueIsField(s, f, v);
        NumbersFirst(e, k, t, rest);
      case Many(vs) =>
        if IsScalar(f.ftype) {
          var b := Packed(f.ftype, vs);
          IsLenField(f.number, b);
          NumbersFirst(e, |Varint(8 * f.number + 2)|, Token(f.number, Len(b), |e|), rest);
        } else {
          ValuesNumbers(s, f, vs, rest);
        }
    }
  }

  lemma OneIsEncoded(s: Schema, f: Field, v: Value)
    requires TypedSlot(s, f, One(v)) && One(v) != DefaultSlot(f)
    ensures EncodeSlot(s, f, One(v)) == EncodeValue(s, f, v)
  {
    hide EncodeValue, Typed;
  }

  /** The numbers of the fields from the `i`-th on, each as often as it occurs. */
  function NumbersFrom(fields: seq<Field>, slots: seq<Slot>, i: nat): seq<nat>
    requires |fields| == |slots| && i <= |fields|
    decreases |fields| - i
  {
    if i == |fields| then []
    else Copies(fields[i].number, Occurs(fields[i], slots[i])) + NumbersFrom(fields, slots, i + 1)
  }

  lemma {:induction false} FromNumbers(s: Schema, d: nat, m: Msg, i: nat)
    requires ValidSchema(s) && Typed(s, d, m) && i <= |m.slots| && |EncodeFrom(s, d, m, i)| < 0x1_0000_0000_0000_0000
    ensures Numbers(EncodeFrom(s, d, m, i)) == Some(NumbersFrom(s[d].fields, m.slots, i))
    decreases |m.slots| - i
  {
    hide Numbers, EncodeSlot, TypedSlot, Occurs;
    if i == |m.slots| {
      NumbersNone();
    } else {
      assert ValidDesc(s, s[d]);
      SlotNumbers(s, s[d].fields[i], m.slots[i], EncodeFrom(s, d, m, i + 1));
      FromNumbers(s, d, m, i + 1);
    }
  }

  lemma NumbersNone()
    ensures Numbers([]) == Some([])
  {
  }

  lemma {:induction false} TimesAppend(a: seq<nat>, b: seq<nat>, n: nat)
    ensures Times(a + b, n) == Times(a, n) + Times(b, n)
  {
    if a == [] {
      assert a + b == b;
    } else {
      assert (a + b)[1..] == a[1..] + b;
      TimesAppend(a[1..], b, n);
    }
  }

  lemma {:induction false} TimesCopies(c: nat, k: nat, n: nat)
    ensures Times(Copies(c, k), n) == if c == n then k else 0
  {
    if k > 0 {
      assert Copies(c, k)[1..] == Copies(c, k - 1);
      TimesCopies(c, k - 1, n);
    }
  }

  /** Ascending numbers, those from field `i` on, `j`'s as often as `j` occurs. */
  lemma {:induction false} FromAscending(s: Schema, d: nat, slots: seq<Slot>, i: nat, j: nat)
    requires ValidSchema(s) && d < |s| && |slots| == |s[d].fields| && i <= |slots| && j < |slots|
    ensures var ns := NumbersFrom(s[d].fields, slots, i);
            && (forall p, q | 0 <= p < q < |ns| :: ns[p] <= ns[q])
            && (forall p | 0 <= p < |ns| :: exists h | i <= h < |slots| :: ns[p] == s[d].fields[h].number)
            && Times(ns, s[d].fields[j].number) == if i <= j then Occurs(s[d].fields[j], slots[j]) else 0
    decreases |slots| - i
  {
    hide Occurs;
    if i < |slots| {
      FromAscending(s, d, slots, i + 1, j);
      var f := s[d].fields[i];
      assert ValidDesc(s, s[d]);
      var here, more := Copies(f.number, Occurs(f, slots[i])), NumbersFrom(s[d].fields, slots, i + 1);
      TimesAppend(here, more, s[d].fields[j].number);
      TimesCopies(f.number, Occurs(f, slots[i]), s[d].fields[j].number);
    }
  }

  /** The fields of an encoded message come in ascending order of their numbers; a member at its
      default is left out, also a flag or a number that is zero, but a oneof's active member never
      is; a repeated scalar is one packed field, and other members are a field for each value. */
  lemma EncodingForm(s: Schema, d: nat, m: Msg)
    requires ValidSchema(s) && Typed(s, d, m) && |EncodeMsg(s, d, m)| < 0x1_0000_0000_0000_0000
    ensures Numbers(EncodeMsg(s, d, m)).Some?
    ensures var ns := Numbers(EncodeMsg(s, d, m)).value;
            && (forall p, q | 0 <= p < q < |ns| :: ns[p] <= ns[q])
            && (forall p | 0 <= p < |ns| :: exists h | 0 <= h < |m.slots| :: ns[p] == s[d].fields[h].number)
            && (forall j | 0 <= j < |m.slots| :: Times(ns, s[d].fields[j].number) == Occurs(s[d].fields[j], m.slots[j]))
  {
    hide Numbers, NumbersFrom, EncodeFrom, Occurs, TypedSlot, ValidDesc;
    FromNumbers(s, d, m, 0);
    forall j | 0 <= j < |m.slots|
      ensures Times(NumbersFrom(s[d].fields, m.slots, 0), s[d].fields[j].number) == Occurs(s[d].fields[j], m.slots[j])
    {
      FromAscending(s, d, m.slots, 0, j);
    }
    if |m.slots| > 0 { FromAscending(s, d, m.slots, 0, 0); }
    else { NoFields(s, d, m.slots); }
  }

  lemma NoFields(s: Schema, d: nat, slots: seq<Slot>)
    requires d < |s| && |slots| == |s[d].fields| == 0
    ensures NumbersFrom(s[d].fields, slots, 0) == []
  {
  }
}
