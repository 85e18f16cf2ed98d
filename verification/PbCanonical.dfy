/** What decoding produces, and that it survives being encoded again. */
module PbCanonical {
  import opened Prelude
  import opened PbVarint
  import opened PbSchema
  import opened PbEncode
  import opened PbDecode
  import opened PbRoundTrip

  // ----- every decoded message is well formed and already in normal form

  ghost predicate CanonicalSlot(s: Schema, f: Field, slot: Slot, depth: nat) {
    TypedSlot(s, f, slot) && FitsSlot(s, f, slot, depth) && NormalSlot(s, f, slot) == slot
  }

  ghost predicate CanonicalValue(s: Schema, f: Field, v: Value, depth: nat) {
    TypedValue(s, f.ftype, v) && FitsValue(s, f, v, depth) && NormalValue(s, f, v) == v
  }

  ghost predicate Canonical(s: Schema, d: nat, m: Msg, depth: nat) {
    Typed(s, d, m) && Fits(s, d, m, depth) && Normal(s, d, m) == m
  }

  ghost predicate CanonicalSlots(s: Schema, d: nat, slots: seq<Slot>, depth: nat)
    requires d < |s|
  {
    && |slots| == |s[d].fields|
    && (forall i | 0 <= i < |slots| :: CanonicalSlot(s, s[d].fields[i], slots[i], depth))
    && OneActive(s[d].fields, slots)
  }

  lemma CanonicalFromSlots(s: Schema, d: nat, m: Msg, depth: nat)
    requires d < |s| && depth <= MAX_DEPTH && CanonicalSlots(s, d, m.slots, depth)
    ensures Canonical(s, d, m, depth)
  {
    hide TypedSlot, FitsSlot, NormalSlot;
    assert Normal(s, d, m).slots == m.slots;
  }

  lemma DefaultCanonical(s: Schema, d: nat, depth: nat)
    requires d < |s|
    ensures CanonicalSlots(s, d, Default(s[d]).slots, depth)
  {
    var slots := Default(s[d]).slots;
    forall i | 0 <= i < |slots| ensures CanonicalSlot(s, s[d].fields[i], slots[i], depth) {
      var f := s[d].fields[i];
      assert slots[i] == DefaultSlot(f);
      if f.kind.Repeated? { assert NormalSlot(s, f, slots[i]).vs == []; }
    }
  }

  lemma ManyCanonical(s: Schema, f: Field, vs: seq<Value>, depth: nat)
    requires f.kind.Repeated? && forall k | 0 <= k < |vs| :: CanonicalValue(s, f, vs[k], depth)
    ensures CanonicalSlot(s, f, Many(vs), depth)
  {
    hide TypedValue, FitsValue, NormalValue;
    assert NormalSlot(s, f, Many(vs)).vs == vs;
  }

  lemma ManyElements(s: Schema, f: Field, vs: seq<Value>, depth: nat)
    requires CanonicalSlot(s, f, Many(vs), depth)
    ensures f.kind.Repeated? && forall k | 0 <= k < |vs| :: CanonicalValue(s, f, vs[k], depth)
  {
    hide TypedValue, FitsValue, NormalValue;
    forall k | 0 <= k < |vs| ensures NormalValue(s, f, vs[k]) == vs[k] {
      assert NormalSlot(s, f, Many(vs)).vs[k] == vs[k];
    }
  }

  lemma AppendCanonical(s: Schema, f: Field, slot: Slot, more: seq<Value>, depth: nat)
    requires f.kind.Repeated? && CanonicalSlot(s, f, slot, depth)
    requires forall k | 0 <= k < |more| :: CanonicalValue(s, f, more[k], depth)
    ensures CanonicalSlot(s, f, Append(slot, more), depth)
  {
    hide CanonicalValue;
    ManyElements(s, f, slot.vs, depth);
    ManyCanonical(s, f, slot.vs + more, depth);
  }

  lemma {:induction false} PackedCanonical(s: Schema, f: Field, b: seq<byte>, depth: nat)
    requires IsScalar(f.ftype) && ReadPacked(f.ftype, b).Some?
    ensures var vs := ReadPacked(f.ftype, b).value; forall k | 0 <= k < |vs| :: CanonicalValue(s, f, vs[k], depth)
    decreases |b|
  {
    hide ReadVarint;
    if b != [] { PackedCanonical(s, f, b[ReadVarint(b).value.1..], depth); }
  }

  lemma ValueCanonical(s: Schema, f: Field, p: Payload, depth: nat)
    requires ValidSchema(s) && (f.ftype.Message? ==> f.ftype.desc < |s|)
    requires DecodeValue(s, f, p, depth, false).Some?
    ensures CanonicalValue(s, f, DecodeValue(s, f, p, depth, false).value, depth)
    ensures DecodeValue(s, f, p, depth, false).value != Sub(None)
    decreases PayloadSize(p), 3
  {
    hide DecodeLoop;
    if f.ftype.Message? { DecodedCanonical(s, f.ftype.desc, p.data, depth + 1); }
  }

  lemma MergeCanonical(s: Schema, d: nat, m: Msg, number: nat, p: Payload, depth: nat)
    requires ValidSchema(s) && d < |s| && CanonicalSlots(s, d, m.slots, depth)
    requires MergeField(s, d, m, number, p, depth, false).Some?
    ensures CanonicalSlots(s, d, MergeField(s, d, m, number, p, depth, false).value.slots, depth)
    decreases PayloadSize(p), 4
  {
    hide DecodeValue, ReadPacked, CanonicalSlot, CanonicalValue;
    match Lookup(s[d].fields, number)
    case None =>
    case Some(i) =>
      var f := s[d].fields[i];
      assert ValidDesc(s, s[d]);
      if f.kind.Repeated? && IsScalar(f.ftype) && p.Len? {
        PackedCanonical(s, f, p.data, depth);
        AppendCanonical(s, f, m.slots[i], ReadPacked(f.ftype, p.data).value, depth);
      } else {
        ValueCanonical(s, f, p, depth);
        var v := DecodeValue(s, f, p, depth, false).value;
        if f.kind.Repeated? {
          AppendCanonical(s, f, m.slots[i], [v], depth);
        } else {
          OneCanonical(s, f, v, depth);
          UnsetCanonical(s, s[d].fields, depth);
        }
      }
  }

  lemma OneCanonical(s: Schema, f: Field, v: Value, depth: nat)
    requires !f.kind.Repeated? && CanonicalValue(s, f, v, depth) && v != Sub(None)
    ensures CanonicalSlot(s, f, One(v), depth)
  {
  }

  lemma UnsetCanonical(s: Schema, fields: seq<Field>, depth: nat)
    ensures forall f <- fields :: f.kind.Oneof? ==> CanonicalSlot(s, f, Unset, depth)
  {
  }

  lemma {:induction false} LoopCanonical(s: Schema, d: nat, b: seq<byte>, m: Msg, depth: nat)
    requires ValidSchema(s) && d < |s| && CanonicalSlots(s, d, m.slots, depth)
    requires DecodeLoop(s, d, b, m, depth, false).Some?
    ensures CanonicalSlots(s, d, DecodeLoop(s, d, b, m, depth, false).value.slots, depth)
    decreases |b|, 1
  {
    hide MergeField, NextField, CanonicalSlot, OneActive;
    if b != [] {
      var t := NextField(b).value;
      MergeCanonical(s, d, m, t.number, t.payload, depth);
      LoopCanonical(s, d, b[t.size..], MergeField(s, d, m, t.number, t.payload, depth, false).value, depth);
    }
  }

  /** A decoded message is typed, keeps the depth limit and has no null left to change. */
  lemma DecodedCanonical(s: Schema, d: nat, b: seq<byte>, depth: nat)
    requires ValidSchema(s) && d < |s| && DecodeAt(s, d, b, depth, false).Some?
    ensures Canonical(s, d, DecodeAt(s, d, b, depth, false).value, depth)
    decreases |b|, 2
  {
    hide DecodeLoop, CanonicalSlots;
    DefaultCanonical(s, d, depth);
    LoopCanonical(s, d, b, Default(s[d]), depth);
    CanonicalFromSlots(s, d, DecodeAt(s, d, b, depth, false).value, depth);
  }

  /** Whatever was accepted, encoding it again and decoding that gives the same message. */
  lemma ReencodeStable(s: Schema, d: nat, b: seq<byte>)
    requires ValidSchema(s) && d < |s| && DecodeAt(s, d, b, 0, false).Some?
    requires |EncodeMsg(s, d, DecodeAt(s, d, b, 0, false).value)| < 0x1_0000_0000_0000_0000
    ensures var m := DecodeAt(s, d, b, 0, false).value;
            DecodeAt(s, d, EncodeMsg(s, d, m), 0, false) == Some(m)
  {
    hide DecodeAt, EncodeMsg;
    DecodedCanonical(s, d, b, 0);
    MsgRoundTrip(s, d, DecodeAt(s, d, b, 0, false).value, 0);
  }
}
