/** Eager decoding (pb.c) against decoding that keeps oneof messages encoded (pb.rs). */
module PbLazy {
  import opened Prelude
  import opened PbVarint
  import opened PbSchema
  import opened PbEncode
  import opened PbDecode
  import opened PbRoundTrip

  /** `l`, decoded lazily at `depth`, stands for the eagerly decoded `e`. */
  ghost predicate StandsFor(s: Schema, d: nat, l: Msg, e: Msg, depth: nat)
    requires ValidSchema(s)
    decreases l
  {
    && d < |s| && |l.slots| == |e.slots| == |s[d].fields|
    && forall i | 0 <= i < |l.slots| :: SlotStandsFor(s, s[d].fields[i], l.slots[i], e.slots[i], depth)
  }

  ghost predicate SlotStandsFor(s: Schema, f: Field, l: Slot, e: Slot, depth: nat)
    requires ValidSchema(s)
    decreases l
  {
    match l
    case Unset => e.Unset?
    case One(v) => e.One? && ValueStandsFor(s, f, v, e.v, depth)
    case Many(vs) =>
      e.Many? && |vs| == |e.vs| && forall k | 0 <= k < |vs| :: ValueStandsFor(s, f, vs[k], e.vs[k], depth)
  }

  ghost predicate ValueStandsFor(s: Schema, f: Field, l: Value, e: Value, depth: nat)
    requires ValidSchema(s)
    decreases l
  {
    match l
    case Lazy(wire) =>
      && f.ftype.Message? && f.ftype.desc < |s| && e.Sub?
      && Some(e.m) == (match DecodeAt(s, f.ftype.desc, wire, depth + 1, false)
                       case None => None
                       case Some(m) => Some(Some(m)))
    case Sub(Some(m)) =>
      f.ftype.Message? && e.Sub? && e.m.Some? && StandsFor(s, f.ftype.desc, m, e.m.value, depth + 1)
    case _ => l == e
  }

  lemma DefaultStands(s: Schema, d: nat, depth: nat)
    requires ValidSchema(s) && d < |s|
    ensures StandsFor(s, d, Default(s[d]), Default(s[d]), depth)
  {
    var m := Default(s[d]);
    forall i | 0 <= i < |m.slots| ensures SlotStandsFor(s, s[d].fields[i], m.slots[i], m.slots[i], depth) {
      assert m.slots[i] == DefaultSlot(s[d].fields[i]);
    }
  }

  lemma {:induction false} PackedAreScalars(s: Schema, f: Field, b: seq<byte>, depth: nat)
    requires ValidSchema(s) && ReadPacked(f.ftype, b).Some?
    ensures var vs := ReadPacked(f.ftype, b).value; forall k | 0 <= k < |vs| :: ValueStandsFor(s, f, vs[k], vs[k], depth)
    decreases |b|
  {
    hide ReadVarint;
    if b != [] { PackedAreScalars(s, f, b[ReadVarint(b).value.1..], depth); }
  }

  lemma ValueStands(s: Schema, f: Field, p: Payload, depth: nat)
    requires ValidSchema(s) && (f.ftype.Message? ==> f.ftype.desc < |s|) && depth <= MAX_DEPTH
    requires DecodeValue(s, f, p, depth, false).Some?
    ensures DecodeValue(s, f, p, depth, true).Some?
    ensures ValueStandsFor(s, f, DecodeValue(s, f, p, depth, true).value, DecodeValue(s, f, p, depth, false).value, depth)
    decreases PayloadSize(p), 3
  {
    hide DecodeLoop;
    if f.ftype.Message? && !IsLazy(f) { EagerImpliesLazy(s, f.ftype.desc, p.data, depth + 1); }
  }

  lemma AppendStands(s: Schema, f: Field, l: Slot, e: Slot, lvs: seq<Value>, evs: seq<Value>, depth: nat)
    requires ValidSchema(s) && SlotStandsFor(s, f, l, e, depth) && |lvs| == |evs|
    requires forall k | 0 <= k < |lvs| :: ValueStandsFor(s, f, lvs[k], evs[k], depth)
    ensures SlotStandsFor(s, f, Append(l, lvs), Append(e, evs), depth)
  {
    hide ValueStandsFor;
  }

  lemma MergeStands(s: Schema, d: nat, l: Msg, e: Msg, number: nat, p: Payload, depth: nat)
    requires ValidSchema(s) && d < |s| && StandsFor(s, d, l, e, depth) && depth <= MAX_DEPTH
    requires MergeField(s, d, e, number, p, depth, false).Some?
    ensures MergeField(s, d, l, number, p, depth, true).Some?
    ensures StandsFor(s, d, MergeField(s, d, l, number, p, depth, true).value,
                      MergeField(s, d, e, number, p, depth, false).value, depth)
    decreases PayloadSize(p), 4
  {
    hide DecodeValue, ReadPacked, ValueStandsFor;
    match Lookup(s[d].fields, number)
    case None =>
    case Some(i) =>
      var f := s[d].fields[i];
      assert ValidDesc(s, s[d]);
      if f.kind.Repeated? && IsScalar(f.ftype) && p.Len? {
        PackedAreScalars(s, f, p.data, depth);
        var vs := ReadPacked(f.ftype, p.data).value;
        AppendStands(s, f, l.slots[i], e.slots[i], vs, vs, depth);
      } else {
        ValueStands(s, f, p, depth);
        var lv, ev := DecodeValue(s, f, p, depth, true).value, DecodeValue(s, f, p, depth, false).value;
        AppendStands(s, f, l.slots[i], e.slots[i], [lv], [ev], depth);
      }
  }

  lemma {:induction false} LoopStands(s: Schema, d: nat, b: seq<byte>, l: Msg, e: Msg, depth: nat)
    requires ValidSchema(s) && d < |s| && StandsFor(s, d, l, e, depth) && depth <= MAX_DEPTH
    requires DecodeLoop(s, d, b, e, depth, false).Some?
    ensures DecodeLoop(s, d, b, l, depth, true).Some?
    ensures StandsFor(s, d, DecodeLoop(s, d, b, l, depth, true).value, DecodeLoop(s, d, b, e, depth, false).value, depth)
    decreases |b|, 1
  {
    hide MergeField, NextField, SlotStandsFor;
    if b != [] {
      var t := NextField(b).value;
      MergeStands(s, d, l, e, t.number, t.payload, depth);
      LoopStands(s, d, b[t.size..], MergeField(s, d, l, t.number, t.payload, depth, true).value,
                 MergeField(s, d, e, t.number, t.payload, depth, false).value, depth);
    }
  }

  /** What pb.c accepts pb.rs accepts, and every oneof message it kept encoded
      decodes to the one pb.c decoded. */
  lemma EagerImpliesLazy(s: Schema, d: nat, b: seq<byte>, depth: nat)
    requires ValidSchema(s) && d < |s| && DecodeAt(s, d, b, depth, false).Some?
    ensures DecodeAt(s, d, b, depth, true).Some?
    ensures StandsFor(s, d, DecodeAt(s, d, b, depth, true).value, DecodeAt(s, d, b, depth, false).value, depth)
    decreases |b|, 2
  {
    hide DecodeLoop;
    DefaultStands(s, d, depth);
    LoopStands(s, d, b, Default(s[d]), Default(s[d]), depth);
  }

  // ----- which inputs only the lazy decoder accepts

  /** Every oneof message in the field decodes at its depth: the field itself, or those of
      the message it holds. */
  ghost predicate FieldDecodes(s: Schema, d: nat, number: nat, p: Payload, depth: nat)
    requires ValidSchema(s) && d < |s|
    decreases PayloadSize(p), 2
  {
    match Lookup(s[d].fields, number)
    case None => true
    case Some(i) =>
      var f := s[d].fields[i];
      assert ValidDesc(s, s[d]);
      if !f.ftype.Message? || !p.Len? then true
      else if IsLazy(f) then DecodeAt(s, f.ftype.desc, p.data, depth + 1, false).Some?
      else WireDecodes(s, f.ftype.desc, p.data, depth + 1)
  }

  /** Every oneof message on the wire decodes at its depth, also those that are replaced
      later and those inside other messages. */
  ghost predicate WireDecodes(s: Schema, d: nat, b: seq<byte>, depth: nat)
    requires ValidSchema(s) && d < |s|
    decreases |b|, 1
  {
    b == [] || NextField(b).None? ||
    var t := NextField(b).value;
    FieldDecodes(s, d, t.number, t.payload, depth) && WireDecodes(s, d, b[t.size..], depth)
  }

  /** One value of a message field. */
  lemma {:induction false} ValueAccepted(s: Schema, f: Field, p: Payload, depth: nat)
    requires ValidSchema(s) && f.ftype.Message? && f.ftype.desc < |s| && depth <= MAX_DEPTH
    ensures DecodeValue(s, f, p, depth, true).Some? ==> p.Len?
    ensures DecodeValue(s, f, p, depth, false).Some? <==>
            && DecodeValue(s, f, p, depth, true).Some?
            && if IsLazy(f) then DecodeAt(s, f.ftype.desc, p.data, depth + 1, false).Some?
                         else WireDecodes(s, f.ftype.desc, p.data, depth + 1)
    decreases PayloadSize(p), 3
  {
    hide DecodeLoop, WireDecodes;
    if p.Len? {
      assert depth == MAX_DEPTH ==> DecodeAt(s, f.ftype.desc, p.data, depth + 1, false).None?;
      if !IsLazy(f) { EagerExact(s, f.ftype.desc, p.data, depth + 1); }
    }
  }

  /** Whether a field is accepted does not depend on the message it is merged into. */
  lemma {:induction false} FieldAccepted(s: Schema, d: nat, l: Msg, e: Msg, number: nat, p: Payload, depth: nat)
    requires ValidSchema(s) && d < |s| && |l.slots| == |e.slots| == |s[d].fields| && depth <= MAX_DEPTH
    ensures MergeField(s, d, e, number, p, depth, false).Some? <==>
            MergeField(s, d, l, number, p, depth, true).Some? && FieldDecodes(s, d, number, p, depth)
    decreases PayloadSize(p), 4
  {
    hide DecodeValue, DecodeAt, ReadPacked, WireDecodes, Append, SetOneof;
    match Lookup(s[d].fields, number)
    case None =>
    case Some(i) =>
      var f := s[d].fields[i];
      assert ValidDesc(s, s[d]);
      if f.ftype.Message? { ValueAccepted(s, f, p, depth); } else { PlainValue(s, f, p, depth); }
  }

  lemma PlainValue(s: Schema, f: Field, p: Payload, depth: nat)
    requires ValidSchema(s) && !f.ftype.Message?
    ensures DecodeValue(s, f, p, depth, true) == DecodeValue(s, f, p, depth, false)
  {
  }

  lemma {:induction false} LoopAccepted(s: Schema, d: nat, b: seq<byte>, l: Msg, e: Msg, depth: nat)
    requires ValidSchema(s) && d < |s| && |l.slots| == |e.slots| == |s[d].fields| && depth <= MAX_DEPTH
    ensures DecodeLoop(s, d, b, e, depth, false).Some? <==>
            DecodeLoop(s, d, b, l, depth, true).Some? && WireDecodes(s, d, b, depth)
    decreases |b|, 1
  {
    hide MergeField, NextField, FieldDecodes;
    if b != [] && NextField(b).Some? {
      var t := NextField(b).value;
      FieldAccepted(s, d, l, e, t.number, t.payload, depth);
      var lm, em := MergeField(s, d, l, t.number, t.payload, depth, true), MergeField(s, d, e, t.number, t.payload, depth, false);
      if lm.Some? && em.Some? { LoopAccepted(s, d, b[t.size..], lm.value, em.value, depth); }
    }
  }

  /** An input is accepted by pb.c exactly when it is accepted by pb.rs and every oneof
      message on the wire decodes at its depth. */
  lemma {:induction false} EagerExact(s: Schema, d: nat, b: seq<byte>, depth: nat)
    requires ValidSchema(s) && d < |s|
    ensures DecodeAt(s, d, b, depth, false).Some? <==>
            DecodeAt(s, d, b, depth, true).Some? && WireDecodes(s, d, b, depth)
    decreases |b|, 2
  {
    hide DecodeLoop, WireDecodes;
    if depth <= MAX_DEPTH { LoopAccepted(s, d, b, Default(s[d]), Default(s[d]), depth); }
  }

  // ----- without lazy members the two agree on every input

  ghost predicate NoLazy(s: Schema) {
    forall d, i | 0 <= d < |s| && 0 <= i < |s[d].fields| :: !IsLazy(s[d].fields[i])
  }

  lemma ValueAgrees(s: Schema, f: Field, p: Payload, depth: nat)
    requires ValidSchema(s) && NoLazy(s) && (f.ftype.Message? ==> f.ftype.desc < |s|) && !IsLazy(f)
    ensures DecodeValue(s, f, p, depth, true) == DecodeValue(s, f, p, depth, false)
    decreases PayloadSize(p), 3
  {
    hide DecodeLoop;
    if f.ftype.Message? && p.Len? { DecodersAgree(s, f.ftype.desc, p.data, depth + 1); }
  }

  lemma MergeAgrees(s: Schema, d: nat, m: Msg, number: nat, p: Payload, depth: nat)
    requires ValidSchema(s) && NoLazy(s) && d < |s| && |m.slots| == |s[d].fields|
    ensures MergeField(s, d, m, number, p, depth, true) == MergeField(s, d, m, number, p, depth, false)
    decreases PayloadSize(p), 4
  {
    hide DecodeValue, ReadPacked;
    match Lookup(s[d].fields, number)
    case None =>
    case Some(i) =>
      assert ValidDesc(s, s[d]);
      ValueAgrees(s, s[d].fields[i], p, depth);
  }

  lemma {:induction false} LoopAgrees(s: Schema, d: nat, b: seq<byte>, m: Msg, depth: nat)
    requires ValidSchema(s) && NoLazy(s) && d < |s| && |m.slots| == |s[d].fields|
    ensures DecodeLoop(s, d, b, m, depth, true) == DecodeLoop(s, d, b, m, depth, false)
    decreases |b|, 1
  {
    hide MergeField, NextField, NoLazy;
    if b != [] && NextField(b).Some? {
      var t := NextField(b).value;
      MergeAgrees(s, d, m, t.number, t.payload, depth);
      var next := MergeField(s, d, m, t.number, t.payload, depth, false);
      if next.Some? { LoopAgrees(s, d, b[t.size..], next.value, depth); }
    }
  }

  /** Same inputs accepted, same values, for every schema without a oneof message. */
  lemma DecodersAgree(s: Schema, d: nat, b: seq<byte>, depth: nat)
    requires ValidSchema(s) && NoLazy(s) && d < |s|
    ensures DecodeAt(s, d, b, depth, true) == DecodeAt(s, d, b, depth, false)
    decreases |b|, 2
  {
    if depth <= MAX_DEPTH { LoopAgrees(s, d, b, Default(s[d]), depth); }
  }

  // ----- with a lazy member they do not

  lemma UnfinishedVarint(s: Schema, d: nat, m: Msg, depth: nat)
    requires ValidSchema(s) && d < |s| && |m.slots| == |s[d].fields|
    ensures DecodeLoop(s, d, [255], m, depth, false).None?
  {
    var b: seq<byte> := [255];
    assert b[1..] == [] && ReadGroups([], 1).None? && ReadGroups(b, 0).None?;
  }

  /** A lazy member holding one unfinished varint: pb.rs accepts the input, and
      fails only when the member is read; pb.c refuses it. */
  lemma LazyAcceptsMore(s: Schema, d: nat, i: nat)
    requires ValidSchema(s) && d < |s| && i < |s[d].fields| && IsLazy(s[d].fields[i])
    ensures var b := LenField(s[d].fields[i].number, [255]);
            DecodeAt(s, d, b, 0, true).Some? && DecodeAt(s, d, b, 0, false).None?
  {
    hide NextField, Lookup, LenField;
    assert ValidDesc(s, s[d]);
    var f, m := s[d].fields[i], Default(s[d]);
    var data: seq<byte> := [255];
    var b := LenField(f.number, data);
    assert b + [] == b && b[|b|..] == [];
    LenFieldToken(f.number, data, []);
    LookupAt(s, s[d], i);
    UnfinishedVarint(s, f.ftype.desc, Default(s[f.ftype.desc]), 1);
    assert DecodeValue(s, f, Len(data), 0, false).None?;
    assert DecodeValue(s, f, Len(data), 0, true) == Some(Lazy(data));
    assert MergeField(s, d, m, f.number, Len(data), 0, false).None?;
    var lazily := MergeField(s, d, m, f.number, Len(data), 0, true);
    assert DecodeLoop(s, d, b, m, 0, true) == DecodeLoop(s, d, [], lazily.value, 0, true);
  }

  /** The two decoders agree on every input of every message type exactly when the
      schema has no oneof message member. */
  lemma {:induction false} AgreementIffNoLazy(s: Schema)
    requires ValidSchema(s)
    ensures NoLazy(s) <==>
            forall d, b: seq<byte> | 0 <= d < |s| :: DecodeAt(s, d, b, 0, true) == DecodeAt(s, d, b, 0, false)
  {
    if NoLazy(s) {
      forall d, b: seq<byte> | 0 <= d < |s| ensures DecodeAt(s, d, b, 0, true) == DecodeAt(s, d, b, 0, false) {
        DecodersAgree(s, d, b, 0);
      }
    } else {
      var d, i :| 0 <= d < |s| && 0 <= i < |s[d].fields| && IsLazy(s[d].fields[i]);
      LazyAcceptsMore(s, d, i);
    }
  }
}
