/** What decoding one message allocates is at most what measuring summed. */
module PbArena {
  import opened Prelude
  import opened PbSchema
  import opened PbDecode
  import opened PbMeasure

  /** What one token adds to the element count of the `i`-th field. */
  ghost function TokenCount(s: Schema, d: nat, t: Token, i: nat): nat
    requires d < |s|
  {
    if Lookup(s[d].fields, t.number) == Some(i) && s[d].fields[i].kind.Repeated?
    then Elements(s[d].fields[i], t.payload) else 0
  }

  /** Elements of the `i`-th field in `b`. */
  ghost function Count(s: Schema, d: nat, b: seq<byte>, i: nat): nat
    requires d < |s|
    decreases |b|
  {
    if b == [] then 0
    else
      match NextField(b)
      case None => 0
      case Some(t) => TokenCount(s, d, t, i) + Count(s, d, b[t.size..], i)
  }

  /** The array need of one token, and of all tokens, for the `i`-th field. */
  ghost function TokenArray(s: Schema, d: nat, t: Token, i: nat): nat
    requires d < |s|
  {
    if Lookup(s[d].fields, t.number) == Some(i) then ArrayNeed(s[d].fields[i], t.payload) else 0
  }

  ghost function FieldArray(s: Schema, d: nat, b: seq<byte>, i: nat): nat
    requires d < |s|
    decreases |b|
  {
    if b == [] then 0
    else
      match NextField(b)
      case None => 0
      case Some(t) => TokenArray(s, d, t, i) + FieldArray(s, d, b[t.size..], i)
  }

  /** The same summed over tokens, whatever their field. */
  ghost function ArrayTotal(s: Schema, d: nat, b: seq<byte>): nat
    requires d < |s|
    decreases |b|
  {
    if b == [] then 0
    else
      match NextField(b)
      case None => 0
      case Some(t) =>
        (match Lookup(s[d].fields, t.number)
         case None => 0
         case Some(i) => ArrayNeed(s[d].fields[i], t.payload)) + ArrayTotal(s, d, b[t.size..])
  }

  /** What the submessages of one token, and of all tokens, need. */
  ghost function TokenSub(s: Schema, d: nat, t: Token, depth: nat): nat
    requires ValidSchema(s) && d < |s|
  {
    match Lookup(s[d].fields, t.number)
    case None => 0
    case Some(i) =>
      assert ValidDesc(s, s[d]);
      match SubNeed(s, s[d].fields[i], t.payload, depth)
      case None => 0
      case Some(n) => n
  }

  ghost function SubTotal(s: Schema, d: nat, b: seq<byte>, depth: nat): nat
    requires ValidSchema(s) && d < |s|
    decreases |b|
  {
    if b == [] then 0
    else
      match NextField(b)
      case None => 0
      case Some(t) => TokenSub(s, d, t, depth) + SubTotal(s, d, b[t.size..], depth)
  }

  lemma {:induction false} NeedSplits(s: Schema, d: nat, b: seq<byte>, depth: nat)
    requires ValidSchema(s) && d < |s| && NeedLoop(s, d, b, depth).Some?
    ensures NeedLoop(s, d, b, depth).value == ArrayTotal(s, d, b) + SubTotal(s, d, b, depth)
    decreases |b|
  {
    hide NextField, Lookup, ArrayNeed;
    if b != [] {
      NeedSplits(s, d, b[NextField(b).value.size..], depth);
    }
  }

  // ----- allocation per field against the sum per token

  ghost function FieldAlloc(s: Schema, d: nat, b: seq<byte>, i: nat): nat
    requires d < |s| && i < |s[d].fields|
  {
    var n := Count(s, d, b, i);
    if s[d].fields[i].kind.Repeated? && n > 0 then Align(n * ElemSize(s[d].fields[i].ftype)) else 0
  }

  /** Allocated for the arrays of the first `k` fields. */
  ghost function AllocUpTo(s: Schema, d: nat, b: seq<byte>, k: nat): nat
    requires d < |s| && k <= |s[d].fields|
  {
    if k == 0 then 0 else AllocUpTo(s, d, b, k - 1) + FieldAlloc(s, d, b, k - 1)
  }

  ghost function ArrayUpTo(s: Schema, d: nat, b: seq<byte>, k: nat): nat
    requires d < |s| && k <= |s[d].fields|
  {
    if k == 0 then 0 else ArrayUpTo(s, d, b, k - 1) + FieldArray(s, d, b, k - 1)
  }

  lemma Distribute(a: nat, b: nat, e: nat)
    ensures (a + b) * e == a * e + b * e
  {
  }

  lemma {:induction false} CountWithinArray(s: Schema, d: nat, b: seq<byte>, i: nat)
    requires ValidSchema(s) && d < |s| && i < |s[d].fields| && s[d].fields[i].kind.Repeated?
    ensures var n := Count(s, d, b, i) * ElemSize(s[d].fields[i].ftype);
            FieldArray(s, d, b, i) >= if Count(s, d, b, i) > 0 then n + 7 else n
    decreases |b|
  {
    hide NextField, Lookup, Elements, ElemSize;
    if b != [] && NextField(b).Some? {
      var t := NextField(b).value;
      CountWithinArray(s, d, b[t.size..], i);
      Distribute(TokenCount(s, d, t, i), Count(s, d, b[t.size..], i), ElemSize(s[d].fields[i].ftype));
    }
  }

  lemma {:induction false} AllocWithinArray(s: Schema, d: nat, b: seq<byte>, k: nat)
    requires ValidSchema(s) && d < |s| && k <= |s[d].fields|
    ensures AllocUpTo(s, d, b, k) <= ArrayUpTo(s, d, b, k)
  {
    if k > 0 {
      AllocWithinArray(s, d, b, k - 1);
      if s[d].fields[k - 1].kind.Repeated? { CountWithinArray(s, d, b, k - 1); }
    }
  }

  /** A token counts for one field only, so the two sums agree. */
  lemma {:induction false} ArrayUpToStep(s: Schema, d: nat, b: seq<byte>, k: nat)
    requires d < |s| && k <= |s[d].fields| && b != [] && NextField(b).Some?
    ensures var t := NextField(b).value;
            ArrayUpTo(s, d, b, k) == ArrayUpTo(s, d, b[t.size..], k) +
            (match Lookup(s[d].fields, t.number)
             case None => 0
             case Some(i) => if i < k then ArrayNeed(s[d].fields[i], t.payload) else 0)
  {
    if k > 0 { ArrayUpToStep(s, d, b, k - 1); }
  }

  lemma {:induction false} ArrayUpToEnd(s: Schema, d: nat, k: nat)
    requires d < |s| && k <= |s[d].fields|
    ensures ArrayUpTo(s, d, [], k) == 0
  {
    if k > 0 { ArrayUpToEnd(s, d, k - 1); }
  }

  lemma {:induction false} ArraySumsAgree(s: Schema, d: nat, b: seq<byte>, depth: nat)
    requires ValidSchema(s) && d < |s| && NeedLoop(s, d, b, depth).Some?
    ensures ArrayUpTo(s, d, b, |s[d].fields|) == ArrayTotal(s, d, b)
    decreases |b|
  {
    hide NextField, Lookup, ArrayNeed;
    if b == [] {
      ArrayUpToEnd(s, d, |s[d].fields|);
    } else {
      ArrayUpToStep(s, d, b, |s[d].fields|);
      ArraySumsAgree(s, d, b[NextField(b).value.size..], depth);
    }
  }

  lemma {:induction false} AllocUpToMonotone(s: Schema, d: nat, b: seq<byte>, k: nat, n: nat)
    requires d < |s| && k <= n <= |s[d].fields|
    ensures AllocUpTo(s, d, b, k) <= AllocUpTo(s, d, b, n)
  {
    if k < n { AllocUpToMonotone(s, d, b, k, n - 1); }
  }

  /** The arrays of a message and then its submessages fit what was measured. */
  lemma ArenaSuffices(s: Schema, d: nat, b: seq<byte>, depth: nat, k: nat)
    requires ValidSchema(s) && d < |s| && NeedLoop(s, d, b, depth).Some? && k <= |s[d].fields|
    ensures AllocUpTo(s, d, b, k) + SubTotal(s, d, b, depth) <= NeedLoop(s, d, b, depth).value
  {
    NeedSplits(s, d, b, depth);
    ArraySumsAgree(s, d, b, depth);
    AllocWithinArray(s, d, b, |s[d].fields|);
    AllocUpToMonotone(s, d, b, k, |s[d].fields|);
  }

  // ----- size_t does not overflow

  lemma ElementsBound(f: Field, p: Payload)
    ensures ArrayNeed(f, p) <= if f.ftype.Message? then 15 else 16 * PayloadSize(p) + 23
  {
    if p.Len? { TerminatorsBound(p.data); }
  }

  lemma {:induction false} TerminatorsBound(b: seq<byte>)
    ensures Terminators(b) <= |b|
  {
    if b != [] { TerminatorsBound(b[1..]); }
  }

  lemma SubNeedBound(s: Schema, f: Field, p: Payload, depth: nat)
    requires ValidSchema(s) && (f.ftype.Message? ==> f.ftype.desc < |s|)
    requires SubNeed(s, f, p, depth).Some?
    ensures SubNeed(s, f, p, depth).value <= if f.ftype.Message? then 65536 + 32780 * PayloadSize(p) else 0
    ensures !p.Len? ==> SubNeed(s, f, p, depth).value == 0
    decreases PayloadSize(p), 1
  {
    hide NeedLoop, Align;
    if f.ftype.Message? && p.Len? {
      NeedBound(s, f.ftype.desc, p.data, depth + 1);
      assert ValidDesc(s, s[f.ftype.desc]);
      AlignBound(s[f.ftype.desc].size);
    }
  }

  /** Each byte of input asks for at most 32780 bytes of arena, so the sum stays in a
      64-bit `size_t` for every input shorter than 2 to the 48. */
  lemma {:induction false} NeedBound(s: Schema, d: nat, b: seq<byte>, depth: nat)
    requires ValidSchema(s) && d < |s| && NeedLoop(s, d, b, depth).Some?
    ensures NeedLoop(s, d, b, depth).value <= 32780 * |b|
    decreases |b|, 0
  {
    hide Lookup, ArrayNeed, SubNeed, NextField;
    if b != [] {
      var t := NextField(b).value;
      NeedBound(s, d, b[t.size..], depth);
      PayloadShorter(b);
      match Lookup(s[d].fields, t.number)
      case None =>
      case Some(i) =>
        assert ValidDesc(s, s[d]);
        ElementsBound(s[d].fields[i], t.payload);
        SubNeedBound(s, s[d].fields[i], t.payload, depth);
    }
  }

  lemma AlignBound(n: nat)
    requires n < 65536
    ensures Align(n) <= 65536
  {
  }

  lemma PayloadShorter(b: seq<byte>)
    requires NextField(b).Some?
    ensures PayloadSize(NextField(b).value.payload) + 2 <= NextField(b).value.size
  {
  }
}
