/** The measuring pass of tools/protogen/pb.c and what its bound covers. */
module PbMeasure {
  import opened Prelude
  import opened PbVarint
  import opened PbSchema
  import opened PbDecode
  import opened PbGrammar

  // ----- a field on the wire, as the C cursor sees it

  /** `val` is the field's value: for a varint its own bytes, to be read again. */
  datatype WireField = WireField(number: nat, wt: nat, val: seq<byte>)

  ghost predicate Matches(w: WireField, t: Token) {
    && w.number == t.number
    && match t.payload
       case Varint64(v) => w.wt == 0 && ReadVarint(w.val) == Some((v, |w.val|))
       case Len(data) => w.wt == 2 && w.val == data
       case Fixed => w.wt == 1 || w.wt == 5
  }

  method NextWire(b: seq<byte>) returns (ok: bool, w: WireField, p: nat)
    ensures ok == NextField(b).Some?
    ensures ok ==> Matches(w, NextField(b).value) && p == NextField(b).value.size && |w.val| < |b|
    ensures ok ==> ReadVarint(b).Some? && IsField(b[..p], KeySize(b), NextField(b).value)
    ensures ok && w.wt != 2 ==> w.val == b[KeySize(b)..p]
  {
    hide ReadVarint, IsField;
    if NextField(b).Some? { ReadIsField(b); }
    w, p := WireField(0, 0, []), 0;
    var tag, n, v, k;
    ok, tag, n := GetVarint(b);
    if !ok || tag / 8 == 0 || tag / 8 > 0xffff_ffff { return false, w, p; }
    var number, wt := tag / 8, tag % 8;
    if wt == 0 {
      ok, v, k := GetVarint(b[n..]);
      if !ok { return; }
      ReadVarintPrefix(b[n..]);
      w, p := WireField(number, wt, b[n..][..k]), n + k;
      return;
    }
    var start, len: nat := n, 0;
    if wt == 1 {
      len := 8;
    } else if wt == 5 {
      len := 4;
    } else if wt == 2 {
      ok, v, k := GetVarint(b[n..]);
      if !ok || v > |b| - n - k { return false, w, p; }
      start, len := n + k, v;
    } else {
      return false, w, p;
    }
    if len > |b| - start { return false, w, p; }
    w, p := WireField(number, wt, b[start..start + len]), start + len;
  }

  // ----- counting elements

  /** Bytes without the continuation bit. */
  function Terminators(b: seq<byte>): nat {
    if b == [] then 0 else (if b[0] < 128 then 1 else 0) + Terminators(b[1..])
  }

  method CountVarints(b: seq<byte>) returns (n: nat)
    ensures n == Terminators(b)
  {
    n := 0;
    for i := 0 to |b|
      invariant n + Terminators(b[i..]) == Terminators(b)
    {
      assert b[i..][1..] == b[i + 1..];
      n := n + (if b[i] < 128 then 1 else 0);
    }
  }

  lemma {:induction false} GroupsTerminate(b: seq<byte>, k: nat)
    requires ReadGroups(b, k).Some?
    ensures Terminators(b) == 1 + Terminators(b[ReadGroups(b, k).value.1..])
    decreases 10 - k
  {
    if b[0] >= 128 {
      GroupsTerminate(b[1..], k + 1);
      var n := ReadGroups(b, k).value.1;
      assert b[1..][n - 1..] == b[n..];
    }
  }

  /** A varint that can be read takes exactly one terminator. */
  lemma VarintTerminates(b: seq<byte>)
    requires ReadVarint(b).Some?
    ensures Terminators(b) == 1 + Terminators(b[ReadVarint(b).value.1..])
  {
    GroupsTerminate(b, 0);
  }

  /** Elements an occurrence adds to a repeated field. */
  function Elements(f: Field, p: Payload): nat {
    if IsScalar(f.ftype) && p.Len? then Terminators(p.data) else 1
  }

  /** `sizeof` a member, with 64-bit pointers and `size_t`. */
  function ElemSize(t: Type): nat {
    match t
    case Int32 | UInt32 => 4
    case Int64 | UInt64 => 8
    case Bool => 1
    case Bytes => 16
    case Message(_) => 8
  }

  lemma Pow2Byte(n: nat)
    ensures Pow2(n + 8) == 256 * Pow2(n)
  {
    assert Pow2(n + 2) == 4 * Pow2(n) && Pow2(n + 4) == 4 * Pow2(n + 2);
    assert Pow2(n + 6) == 4 * Pow2(n + 4) && Pow2(n + 8) == 4 * Pow2(n + 6);
  }

  lemma Pow2Zero()
    ensures Pow2(0) == 1
  {
  }

  lemma Pow2Words()
    ensures Pow2(32) == 0x1_0000_0000 && Pow2(64) == 0x1_0000_0000_0000_0000
  {
    hide Pow2;
    Pow2Zero();
    Pow2Byte(0);
    Pow2Byte(8);
    Pow2Byte(16);
    Pow2Byte(24);
    Pow2Byte(32);
    Pow2Byte(40);
    Pow2Byte(48);
    Pow2Byte(56);
  }

  /** An array element has exactly the bits its values take. */
  lemma ElemSizeExact(t: Type, v: nat)
    requires IsScalar(t) && !t.Bool?
    ensures v < Pow2(8 * ElemSize(t)) <==> v < 0x1_0000_0000_0000_0000 && InRange(t, v)
  {
    hide Pow2;
    Pow2Words();
  }

  function Align(n: nat): nat {
    (n + 7) / 8 * 8
  }

  /** `n` rounded up: the least multiple of eight that is not below it. */
  lemma AlignIsLeast(n: nat)
    ensures Align(n) % 8 == 0 && n <= Align(n) < n + 8
  {
  }

  // ----- the bound

  /** What one occurrence of `f` adds for the array of a repeated field. */
  function ArrayNeed(f: Field, p: Payload): nat {
    if f.kind.Repeated? then Elements(f, p) * ElemSize(f.ftype) + 7 else 0
  }

  /** What one occurrence of `f` adds for the message it holds. */
  function SubNeed(s: Schema, f: Field, p: Payload, depth: nat): Option<nat>
    requires ValidSchema(s) && (f.ftype.Message? ==> f.ftype.desc < |s|)
    decreases PayloadSize(p), 3
  {
    if f.ftype.Message? && p.Len? then
      match Need(s, f.ftype.desc, p.data, depth + 1)
      case None => None
      case Some(n) => Some(Align(s[f.ftype.desc].size) + n)
    else Some(0)
  }

  function NeedLoop(s: Schema, d: nat, b: seq<byte>, depth: nat): Option<nat>
    requires ValidSchema(s) && d < |s|
    decreases |b|, 1
  {
    if b == [] then Some(0)
    else
      match NextField(b)
      case None => None
      case Some(t) =>
        match Lookup(s[d].fields, t.number)
        case None => NeedLoop(s, d, b[t.size..], depth)
        case Some(i) =>
          assert ValidDesc(s, s[d]);
          match SubNeed(s, s[d].fields[i], t.payload, depth)
          case None => None
          case Some(sub) =>
            match NeedLoop(s, d, b[t.size..], depth)
            case None => None
            case Some(n) => Some(ArrayNeed(s[d].fields[i], t.payload) + sub + n)
  }

  /** Bytes of arena the fields of one message need, or `None` when `measure` fails. */
  function Need(s: Schema, d: nat, b: seq<byte>, depth: nat): Option<nat>
    requires ValidSchema(s) && d < |s|
    decreases |b|, 2
  {
    if depth > MAX_DEPTH then None else NeedLoop(s, d, b, depth)
  }

  lemma ArrayNeedIs(f: Field, p: Payload, count: nat)
    requires f.kind.Repeated? && count == if IsScalar(f.ftype) && p.Len? then Terminators(p.data) else 1
    ensures ArrayNeed(f, p) == count * ElemSize(f.ftype) + 7
  {
    hide Terminators, ElemSize;
  }

  lemma NoArrayNeed(f: Field, p: Payload)
    requires !f.kind.Repeated?
    ensures ArrayNeed(f, p) == 0
  {
  }

  /** `NeedLoop`, one field at a time. */
  lemma NeedOne(s: Schema, d: nat, b: seq<byte>, depth: nat)
    requires ValidSchema(s) && d < |s|
    ensures b == [] ==> NeedLoop(s, d, b, depth) == Some(0)
    ensures b != [] && NextField(b).None? ==> NeedLoop(s, d, b, depth) == None
    ensures b != [] && NextField(b).Some? ==>
              var t := NextField(b).value;
              var rest := NeedLoop(s, d, b[t.size..], depth);
              match Lookup(s[d].fields, t.number)
              case None => NeedLoop(s, d, b, depth) == rest
              case Some(i) =>
                && (s[d].fields[i].ftype.Message? ==> s[d].fields[i].ftype.desc < |s|)
                && var sub := SubNeed(s, s[d].fields[i], t.payload, depth);
                NeedLoop(s, d, b, depth) ==
                  if sub.None? || rest.None? then None
                  else Some(ArrayNeed(s[d].fields[i], t.payload) + sub.value + rest.value)
  {
    hide NextField, SubNeed, ArrayNeed;
    assert ValidDesc(s, s[d]);
  }

  /** `need0` is what `*need` already holds. */
  method Measure(s: Schema, d: nat, b: seq<byte>, depth: nat, need0: nat) returns (ok: bool, need: nat)
    requires ValidSchema(s) && d < |s|
    ensures ok == Need(s, d, b, depth).Some?
    ensures ok ==> need == need0 + Need(s, d, b, depth).value
    decreases |b|
  {
    hide NextField, Lookup, Matches, ReadVarint, Terminators, ElemSize, Align, NeedLoop, ArrayNeed, IsScalar, ValidDesc;
    need := need0;
    if depth > MAX_DEPTH { return false, need; }
    var rest := b;
    while rest != []
      invariant NeedLoop(s, d, b, depth) ==
                match NeedLoop(s, d, rest, depth)
                case None => None
                case Some(n) => Some(need - need0 + n)
      invariant need >= need0 && |rest| <= |b|
      decreases |rest|
    {
      var w, p;
      NeedOne(s, d, rest, depth);
      ok, w, p := NextWire(rest);
      if !ok { return; }
      ghost var t := NextField(rest).value;
      MatchesPayload(w, t);
      var found := FindField(s, s[d], w.number);
      var here := rest;
      rest := rest[p..];
      if found.Some? {
        var f := s[d].fields[found.value];
        if f.kind.Repeated? {
          var count := 1;
          if IsScalar(f.ftype) && w.wt == 2 { count := CountVarints(w.val); }
          ArrayNeedIs(f, t.payload, count);
          need := need + (count * ElemSize(f.ftype) + 7);
        } else {
          NoArrayNeed(f, t.payload);
        }
        if f.ftype.Message? && w.wt == 2 {
          need := need + Align(s[f.ftype.desc].size);
          ok, need := Measure(s, f.ftype.desc, w.val, depth + 1, need);
          if !ok { return; }
        }
      }
    }
    NeedOne(s, d, [], depth);
    ok := true;
  }

  lemma MatchesPayload(w: WireField, t: Token)
    requires Matches(w, t)
    ensures w.number == t.number
    ensures w.wt == 0 <==> t.payload.Varint64?
    ensures w.wt == 2 <==> t.payload.Len?
    ensures t.payload.Len? ==> w.val == t.payload.data
    ensures t.payload.Varint64? ==> ReadVarint(w.val) == Some((t.payload.v, |w.val|))
  {
  }
}
