/** Why tools/protogen/gen_rust.py refuses interleaved oneofs. */
module PbInterleave {
  import opened Prelude
  import opened PbVarint
  import opened PbSchema
  import opened PbEncode
  import opened PbRustEncode
  import opened PbOneofRule
  import opened PbCanonical

  // ----- a field that is surely written

  function SampleValue(s: Schema, t: Type): Value {
    match t
    case Bytes => Data([0])
    case Message(j) => if j < |s| then Sub(Some(Default(s[j]))) else Sub(None)
    case _ => Scalar(1)
  }

  function Sample(s: Schema, f: Field): Slot {
    if f.kind.Repeated? then Many([SampleValue(s, f.ftype)]) else One(SampleValue(s, f.ftype))
  }

  lemma {:induction false} SampleTyped(s: Schema, f: Field)
    requires f.ftype.Message? ==> f.ftype.desc < |s|
    ensures TypedSlot(s, f, Sample(s, f))
  {
    if f.ftype.Message? {
      var j := f.ftype.desc;
      DefaultCanonical(s, j, 0);
      CanonicalFromSlots(s, j, Default(s[j]), 0);
      assert Typed(s, j, Default(s[j]));
    }
  }

  /** The field number of the first key in `b`. */
  function FirstNumber(b: seq<byte>): Option<nat> {
    match ReadVarint(b)
    case None => None
    case Some((key, _)) => Some(key / 8)
  }

  lemma KeyFirst(number: nat, wt: nat, rest: seq<byte>)
    requires 1 <= number < 65536 && wt < 8
    ensures FirstNumber(Varint(8 * number + wt) + rest) == Some(number)
  {
    hide ReadVarint, Varint;
    VarintRoundTrip(8 * number + wt, rest);
  }

  lemma LenFirst(number: nat, len: nat, data: seq<byte>, rest: seq<byte>)
    requires 1 <= number < 65536
    ensures FirstNumber(Prefixed(number, len, data) + rest) == Some(number)
  {
    hide FirstNumber, Varint;
    KeyFirst(number, 2, Varint(len) + data + rest);
    assert Prefixed(number, len, data) + rest == Varint(8 * number + 2) + (Varint(len) + data + rest);
  }

  lemma ScalarFirst(number: nat, v: u64, rest: seq<byte>)
    requires 1 <= number < 65536
    ensures FirstNumber(VarintField(number, v) + rest) == Some(number)
  {
    hide FirstNumber, Varint;
    KeyFirst(number, 0, Varint(v) + rest);
    assert VarintField(number, v) + rest == Varint(8 * number + 0) + (Varint(v) + rest);
  }

  /** Both encoders begin the field with its key. */
  lemma SampleFirst(s: Schema, f: Field, rest: seq<byte>)
    requires 1 <= f.number < 65536 && (f.ftype.Message? ==> f.ftype.desc < |s|)
    ensures FirstNumber(EncodeSlot(s, f, Sample(s, f)) + rest) == Some(f.number)
    ensures f.kind.Oneof? ==> FirstNumber(RustValue(s, f, Sample(s, f).v) + rest) == Some(f.number)
  {
    hide FirstNumber, Varint, EncodeMsg, RustMsg, LenMsg, VarintField, Default;
    var v := SampleValue(s, f.ftype);
    match v {
      case Scalar(x) => ScalarFirst(f.number, GetScalar(f.ftype, x), rest);
      case Data(b) => LenFirst(f.number, |b|, b, rest);
      case Sub(None) =>
      case Sub(Some(m)) =>
        var b := EncodeMsg(s, f.ftype.desc, m);
        LenFirst(f.number, |b|, b, rest);
        LenFirst(f.number, LenMsg(s, f.ftype.desc, m), RustMsg(s, f.ftype.desc, m), rest);
    }
    if f.kind.Repeated? {
      assert [v][1..] == [];
      if IsScalar(f.ftype) {
        var data := Packed(f.ftype, [v]);
        LenFirst(f.number, |data|, data, rest);
      } else {
        var e := EncodeValue(s, f, v);
        assert EncodeValues(s, f, [v]) == e + [] == e;
      }
    }
  }

  // ----- a message of two such fields

  /** Field `x` stands between members of the oneof of `z`, whose first is `a`; a oneof of
      `x`, if it has one, begins after `a`. */
  ghost predicate Between(fields: seq<Field>, a: nat, x: nat, z: nat) {
    && a < x < z < |fields| && fields[a].kind.Oneof? && fields[z].kind == fields[a].kind && fields[x].kind != fields[a].kind
    && (forall p | 0 <= p < a :: fields[p].kind != fields[a].kind)
    && (fields[x].kind.Oneof? ==> forall p | 0 <= p < a :: fields[p].kind != fields[x].kind)
  }

  lemma FindBetween(fields: seq<Field>, i: nat, j: nat, k: nat) returns (a: nat, x: nat, z: nat)
    requires i < j < k < |fields| && fields[i].kind.Oneof? && fields[i].kind == fields[k].kind
    requires fields[j].kind != fields[i].kind
    ensures Between(fields, a, x, z)
    decreases i
  {
    a, x, z := 0, j, k;
    while fields[a].kind != fields[i].kind
      invariant a <= i && forall p | 0 <= p < a :: fields[p].kind != fields[i].kind
      decreases i - a
    {
      a := a + 1;
    }
    if fields[j].kind.Oneof? {
      if p :| 0 <= p < a && fields[p].kind == fields[j].kind {
        a, x, z := FindBetween(fields, p, a, j);
      }
    }
  }

  function Two(s: Schema, fields: seq<Field>, x: nat, z: nat): (m: Msg)
    ensures |m.slots| == |fields|
    ensures forall i | 0 <= i < |fields| ::
              m.slots[i] == if i == x || i == z then Sample(s, fields[i]) else DefaultSlot(fields[i])
  {
    Msg(seq(|fields|, i requires 0 <= i < |fields| =>
      if i == x || i == z then Sample(s, fields[i]) else DefaultSlot(fields[i])))
  }

  lemma DefaultSlotTyped(s: Schema, f: Field)
    ensures TypedSlot(s, f, DefaultSlot(f))
  {
  }

  lemma {:induction false} TwoTyped(s: Schema, d: nat, a: nat, x: nat, z: nat)
    requires ValidSchema(s) && d < |s| && Between(s[d].fields, a, x, z)
    ensures Typed(s, d, Two(s, s[d].fields, x, z))
  {
    hide TypedSlot, Sample, DefaultSlot;
    var fields := s[d].fields;
    var m := Two(s, fields, x, z);
    assert ValidDesc(s, s[d]);
    forall i | 0 <= i < |m.slots| ensures TypedSlot(s, fields[i], m.slots[i]) {
      SampleTyped(s, fields[i]);
      DefaultSlotTyped(s, fields[i]);
    }
    forall i, j | 0 <= i < j < |fields| && fields[i].kind.Oneof? && fields[i].kind == fields[j].kind
      ensures m.slots[i].Unset? || m.slots[j].Unset?
    {
      if i != x && i != z { OneofDefault(fields[i]); } else if j != x && j != z { OneofDefault(fields[j]); }
    }
  }

  lemma OneofDefault(f: Field)
    requires f.kind.Oneof?
    ensures DefaultSlot(f) == Unset
  {
  }

  lemma DefaultWritesNothing(s: Schema, f: Field)
    ensures EncodeSlot(s, f, DefaultSlot(f)) == []
    ensures !f.kind.Oneof? ==> RustPlain(s, f, DefaultSlot(f)) == []
  {
  }

  /** The C encoder writes `x` first. */
  lemma {:induction false} CFirst(s: Schema, d: nat, a: nat, x: nat, z: nat, i: nat)
    requires ValidSchema(s) && d < |s| && Between(s[d].fields, a, x, z) && i <= x
    ensures FirstNumber(EncodeFrom(s, d, Two(s, s[d].fields, x, z), i)) == Some(s[d].fields[x].number)
    decreases x - i
  {
    hide FirstNumber, EncodeSlot, Sample, DefaultSlot;
    var fields := s[d].fields;
    var m := Two(s, fields, x, z);
    assert ValidDesc(s, s[d]);
    if i == x {
      SampleFirst(s, fields[x], EncodeFrom(s, d, m, x + 1));
    } else {
      DefaultWritesNothing(s, fields[i]);
      CFirst(s, d, a, x, z, i + 1);
      var rest := EncodeFrom(s, d, m, i + 1);
      assert [] + rest == rest;
    }
  }

  /** The only oneof members set are `z` and perhaps `x`. */
  lemma ActiveOfTwo(s: Schema, fields: seq<Field>, a: nat, x: nat, z: nat, g: nat)
    requires Between(fields, a, x, z)
    ensures var k := Active(fields, Two(s, fields, x, z).slots, g);
            if fields[z].kind == Oneof(g) then k == Some(z) else fields[x].kind != Oneof(g) ==> k == None
  {
    hide Sample, DefaultSlot;
    var m := Two(s, fields, x, z);
    forall i | 0 <= i < |fields| && fields[i].kind.Oneof? ensures m.slots[i].One? <==> i == x || i == z {
      SampleIsOne(s, fields[i]);
      OneofDefault(fields[i]);
    }
  }

  lemma SampleIsOne(s: Schema, f: Field)
    requires f.kind.Oneof?
    ensures Sample(s, f).One?
  {
  }

  /** The Rust encoder writes `z` first, at the first member of its oneof. */
  lemma {:induction false} RustFirst(s: Schema, d: nat, a: nat, x: nat, z: nat, i: nat, done: set<nat>)
    requires ValidSchema(s) && d < |s| && Between(s[d].fields, a, x, z) && i <= a && s[d].fields[a].kind.group !in done
    ensures FirstNumber(RustFrom(s, d, Two(s, s[d].fields, x, z), i, done)) == Some(s[d].fields[z].number)
    decreases a - i
  {
    hide FirstNumber, RustPlain, RustValue, Sample, DefaultSlot;
    var fields := s[d].fields;
    var m := Two(s, fields, x, z);
    assert ValidDesc(s, s[d]);
    var f := fields[i];
    if i == a {
      ActiveOfTwo(s, fields, a, x, z, f.kind.group);
      SampleFirst(s, fields[z], RustFrom(s, d, m, i + 1, done + {f.kind.group}));
    } else if f.kind.Oneof? {
      ActiveOfTwo(s, fields, a, x, z, f.kind.group);
      RustFirst(s, d, a, x, z, i + 1, done + {f.kind.group});
      var rest := RustFrom(s, d, m, i + 1, done + {f.kind.group});
      assert [] + rest == rest;
    } else {
      DefaultWritesNothing(s, f);
      RustFirst(s, d, a, x, z, i + 1, done);
      var rest := RustFrom(s, d, m, i + 1, done);
      assert [] + rest == rest;
    }
  }

  /** A schema that breaks the rule has a message the two encoders write differently. */
  lemma InterleavedDiffers(s: Schema, d: nat) returns (m: Msg)
    requires ValidSchema(s) && d < |s| && !Contiguous(s[d].fields)
    ensures Typed(s, d, m) && RustMsg(s, d, m) != EncodeMsg(s, d, m)
  {
    hide RustFrom, EncodeFrom, Typed, FirstNumber, Between, Two;
    var fields := s[d].fields;
    var i, j, k :| 0 <= i < j < k < |fields| && fields[i].kind.Oneof? && fields[i].kind == fields[k].kind
                   && fields[j].kind != fields[i].kind;
    var a, x, z := FindBetween(fields, i, j, k);
    m := Two(s, fields, x, z);
    TwoTyped(s, d, a, x, z);
    CFirst(s, d, a, x, z, 0);
    RustFirst(s, d, a, x, z, 0, {});
    BetweenDiffer(s, d, a, x, z);
  }

  lemma BetweenDiffer(s: Schema, d: nat, a: nat, x: nat, z: nat)
    requires ValidSchema(s) && d < |s| && Between(s[d].fields, a, x, z)
    ensures s[d].fields[x].number != s[d].fields[z].number
  {
    assert ValidDesc(s, s[d]);
  }

  /** The generator accepts the oneofs of a schema exactly when its encoder and the C
      encoder write the same bytes for every message. */
  lemma RuleIsExact(s: Schema)
    requires ValidSchema(s)
    ensures (forall d | 0 <= d < |s| :: CheckAccepts(s[d].fields)) <==>
            forall d: nat, m: Msg | Typed(s, d, m) :: RustMsg(s, d, m) == EncodeMsg(s, d, m)
  {
    hide RustMsg, EncodeMsg, Typed, CheckAccepts, Contiguous;
    forall d | 0 <= d < |s| ensures CheckAccepts(s[d].fields) <==> Contiguous(s[d].fields) {
      CheckIsContiguity(s, s[d]);
    }
    if forall d | 0 <= d < |s| :: CheckAccepts(s[d].fields) {
      forall d: nat, m: Msg | Typed(s, d, m) ensures RustMsg(s, d, m) == EncodeMsg(s, d, m) {
        MsgSame(s, d, m);
      }
    } else {
      var d :| 0 <= d < |s| && !CheckAccepts(s[d].fields);
      var m := InterleavedDiffers(s, d);
    }
  }
}
