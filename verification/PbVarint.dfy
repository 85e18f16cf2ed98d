/** Base 128 varints: the C reader and writer of tools/protogen/pb.c, and the
    closed-form length of tools/protogen/pb.rs. */
module PbVarint {
  import opened Prelude

  /** `(uint8_t)v | 0x80` */
  function Continued(v: nat): byte {
    v % 128 + 128
  }

  /** `v >> 7` */
  function High(v: nat): (h: nat)
    ensures v >= 128 ==> h < v
  {
    v / 128
  }

  /** Bytes of `v`, least significant group of seven bits first. */
  function Varint(v: nat): (b: seq<byte>)
    ensures |b| >= 1
  {
    if v < 128 then [v] else [Continued(v)] + Varint(High(v))
  }

  /** The groups at the front of `b`, when `k` bytes of the same varint came
      before: their value and how many bytes they take. A varint has at most ten. */
  function ReadGroups(b: seq<byte>, k: nat): (r: Option<(nat, nat)>)
    ensures r.Some? ==> 0 < r.value.1 <= |b| && r.value.1 + k <= 10
    decreases 10 - k
  {
    if k >= 10 || b == [] then None
    else if b[0] < 128 then Some((b[0], 1))
    else
      match ReadGroups(b[1..], k + 1)
      case None => None
      case Some((v, n)) => Some((b[0] - 128 + 128 * v, n + 1))
  }

  function Wrap64(v: nat): (r: u64)
    ensures v < 0x1_0000_0000_0000_0000 ==> r == v
  {
    if v < 0x1_0000_0000_0000_0000 then v else v % 0x1_0000_0000_0000_0000
  }

  /** The varint at the front of `b`: its value in 64 bits and its length. */
  function ReadVarint(b: seq<byte>): (r: Option<(u64, nat)>)
    ensures r.Some? ==> 0 < r.value.1 <= |b| && r.value.1 <= 10
  {
    match ReadGroups(b, 0)
    case None => None
    case Some((v, n)) => Some((Wrap64(v), n))
  }

  /** `v << 7 * k` without loss. */
  function Shift(v: nat, k: nat): nat {
    if k == 0 then v else 128 * Shift(v, k - 1)
  }

  lemma ShiftOf10()
    ensures Shift(1, 9) == 0x8000_0000_0000_0000
    ensures Shift(1, 10) == 0x40_0000_0000_0000_0000
  {
    assert Shift(1, 5) == 128 * 128 * 128 * 128 * 128;
    assert Shift(1, 9) == 128 * 128 * 128 * 128 * Shift(1, 5);
  }

  lemma {:induction false} GroupsOfVarint(v: nat, rest: seq<byte>, k: nat)
    requires k < 10 && v < Shift(1, 10 - k)
    ensures ReadGroups(Varint(v) + rest, k) == Some((v, |Varint(v)|))
    decreases 10 - k
  {
    var b := Varint(v) + rest;
    if v >= 128 {
      assert Shift(1, 1) == 128;
      assert v / 128 < Shift(1, 10 - (k + 1));
      GroupsOfVarint(v / 128, rest, k + 1);
      assert b[1..] == Varint(v / 128) + rest;
    }
  }

  /** Reading undoes writing for every 64-bit value, whatever follows it. */
  lemma {:induction false} VarintRoundTrip(v: u64, rest: seq<byte>)
    ensures ReadVarint(Varint(v) + rest) == Some((v, |Varint(v)|))
  {
    ShiftOf10();
    GroupsOfVarint(v, rest, 0);
  }

  /** Only the bytes of the varint itself are looked at. */
  lemma {:induction false} GroupsPrefix(b: seq<byte>, k: nat)
    requires ReadGroups(b, k).Some?
    ensures var n := ReadGroups(b, k).value.1; ReadGroups(b[..n], k) == ReadGroups(b, k)
    decreases 10 - k
  {
    if b[0] >= 128 {
      GroupsPrefix(b[1..], k + 1);
      var n := ReadGroups(b, k).value.1;
      assert b[1..][..n - 1] == b[..n][1..];
    }
  }

  /** A stored varint can be read back from exactly the bytes it occupied. */
  lemma ReadVarintPrefix(b: seq<byte>)
    requires ReadVarint(b).Some?
    ensures var n := ReadVarint(b).value.1; ReadVarint(b[..n]) == ReadVarint(b)
  {
    GroupsPrefix(b, 0);
  }

  // ----- the C loops

  method VarintSize(value: u64) returns (n: nat)
    ensures n == |Varint(value)|
  {
    var v: nat := value;
    n := 1;
    while v >= 128
      invariant n + |Varint(v)| == 1 + |Varint(value)|
    {
      v := v / 128;
      n := n + 1;
    }
  }

  method PutByte(out: array<byte>, at: nat, b: byte)
    requires at < out.Length
    modifies out
    ensures out[..] == Splice(old(out[..]), at, [b])
  {
    out[at] := b;
  }

  lemma VarintStep(v: nat)
    ensures Varint(v) == if v < 128 then [v] else [Continued(v)] + Varint(High(v))
  {
  }

  method WriteVarint(out: array<byte>, at: nat, value: u64) returns (n: nat)
    requires at + |Varint(value)| <= out.Length
    modifies out
    ensures n == |Varint(value)|
    ensures out[..] == Splice(old(out[..]), at, Varint(value))
  {
    hide Splice, Varint, Continued, High;
    var v: nat := value;
    n := 0;
    ghost var was, done: seq<byte> := out[..], [];
    SpliceNothing(was, at);
    while v >= 128
      invariant n == |done| && done + Varint(v) == Varint(value)
      invariant out[..] == Splice(was, at, done)
    {
      VarintStep(v);
      PutByte(out, at + n, Continued(v));
      SpliceAppend(was, at, done, [Continued(v)]);
      assert (done + [Continued(v)]) + Varint(High(v)) == done + Varint(v);
      done := done + [Continued(v)];
      n := n + 1;
      v := High(v);
    }
    VarintStep(v);
    var last: byte := v;
    PutByte(out, at + n, last);
    SpliceAppend(was, at, done, [last]);
    assert done + [last] == Varint(value);
    n := n + 1;
  }

  /** `out == null` only measures. */
  method PutVarint(out: array?<byte>, at: nat, value: u64) returns (n: nat)
    requires out != null ==> at + |Varint(value)| <= out.Length
    modifies out
    ensures n == |Varint(value)|
    ensures out != null ==> out[..] == Splice(old(out[..]), at, Varint(value))
  {
    if out == null {
      n := VarintSize(value);
    } else {
      n := WriteVarint(out, at, value);
    }
  }

  lemma {:induction false} ShiftAdds(x: nat, w: nat, k: nat)
    ensures Shift(x + 128 * w, k) == Shift(x, k) + Shift(w, k + 1)
  {
    if k > 0 { ShiftAdds(x, w, k - 1); }
  }

  lemma {:induction false} ShiftBelow(x: nat, k: nat)
    requires x < 128
    ensures Shift(x, k) <= Shift(1, k + 1) - Shift(1, k)
  {
    if k > 0 { ShiftBelow(x, k - 1); }
  }

  lemma ShiftFits(k: nat)
    requires k <= 9
    ensures Shift(1, k) <= 0x8000_0000_0000_0000
    decreases 9 - k
  {
    ShiftOf10();
    if k < 9 { ShiftFits(k + 1); }
  }

  /** What the loop of the reader has left to do after `k` groups of value `r`. */
  ghost function Finish(r: nat, k: nat, rest: seq<byte>): Option<(nat, nat)> {
    match ReadGroups(rest, k)
    case None => None
    case Some((w, n)) => Some((r + Shift(w, k), k + n))
  }

  /** `r |= (b & 0x7f) << 7 * k` on a 64-bit word: the group is disjoint from the
      bits of `r`, so or-ing it in is adding it; bits shifted out are lost. */
  function AddGroup(r: nat, b: byte, k: nat): u64 {
    Wrap64(r + Shift(b % 128, k))
  }

  /** After `k` groups of value `r` the rest of the bytes decides the outcome. */
  ghost predicate Reading(r: nat, k: nat, rest: seq<byte>, whole: Option<(nat, nat)>) {
    if k < 10 then r < Shift(1, k) && Finish(r, k, rest) == whole else whole.None?
  }

  lemma FinishStep(r: nat, k: nat, rest: seq<byte>)
    requires k < 10 && rest != [] && r < Shift(1, k)
    ensures var next := r + Shift(rest[0] % 128, k);
            && next < Shift(1, k + 1)
            && Finish(r, k, rest) == if rest[0] < 128 then Some((next, k + 1)) else Finish(next, k + 1, rest[1..])
  {
    hide Shift;
    ShiftBelow(rest[0] % 128, k);
    if rest[0] >= 128 && ReadGroups(rest[1..], k + 1).Some? {
      ShiftAdds(rest[0] % 128, ReadGroups(rest[1..], k + 1).value.0, k);
    }
  }

  lemma ReadingStep(r: nat, k: nat, rest: seq<byte>, whole: Option<(nat, nat)>)
    requires k < 10 && rest != [] && Reading(r, k, rest, whole)
    ensures rest[0] >= 128 ==> Reading(AddGroup(r, rest[0], k), k + 1, rest[1..], whole)
    ensures rest[0] < 128 ==> whole.Some? && whole.value.1 == k + 1 && Wrap64(whole.value.0) == AddGroup(r, rest[0], k)
  {
    hide Shift;
    FinishStep(r, k, rest);
    if k < 9 { ShiftFits(k + 1); }
  }

  /** `data` is what lies between the cursor and the end; `p` is how far the cursor
      moves. */
  method GetVarint(data: seq<byte>) returns (ok: bool, v: u64, p: nat)
    ensures ok == ReadVarint(data).Some?
    ensures ok ==> ReadVarint(data) == Some((v, p)) && 0 < p <= |data|
  {
    p := 0;
    v := 0;
    ghost var rest, whole := data, ReadGroups(data, 0);
    while p < 10 && p < |data|
      invariant p <= 10 && p <= |data| && rest == data[p..]
      invariant Reading(v, p, rest, whole)
    {
      ReadingStep(v, p, rest, whole);
      var b := data[p];
      v := AddGroup(v, b, p);
      rest := rest[1..];
      p := p + 1;
      if b < 128 {
        return true, v, p;
      }
    }
    return false, 0, p;
  }

  // ----- the closed form of pb.rs

  /** 64 minus the leading zeros of `v` in a 64-bit word. */
  function BitLength(v: nat): nat {
    if v == 0 then 0 else 1 + BitLength(v / 2)
  }

  function DivCeil(a: nat, b: nat): nat
    requires b > 0
  {
    (a + b - 1) / b
  }

  /** `(64 - (v | 1).leading_zeros()).div_ceil(7)` */
  function VarintLen(v: nat): nat {
    DivCeil(BitLength(if v % 2 == 0 then v + 1 else v), 7)
  }

  lemma {:induction false} BitLengthOfShift(v: nat)
    requires v >= 128
    ensures BitLength(v) == 7 + BitLength(v / 128)
  {
    assert v / 2 / 2 == v / 4 && v / 4 / 2 == v / 8 && v / 8 / 2 == v / 16;
    assert v / 16 / 2 == v / 32 && v / 32 / 2 == v / 64 && v / 64 / 2 == v / 128;
    assert BitLength(v) == 1 + BitLength(v / 2) == 2 + BitLength(v / 4) == 3 + BitLength(v / 8);
    assert BitLength(v / 8) == 1 + BitLength(v / 16) == 2 + BitLength(v / 32) == 3 + BitLength(v / 64);
  }

  lemma {:induction false} BitLengthBound(v: nat, k: nat)
    requires v < Pow2(k)
    ensures BitLength(v) <= k
  {
    if v > 0 { BitLengthBound(v / 2, k - 1); }
  }

  lemma BitLengthSmall(v: nat)
    requires 1 <= v < 128
    ensures 1 <= BitLength(v) <= 7
  {
    assert Pow2(4) == 16 && Pow2(7) == 8 * Pow2(4);
    BitLengthBound(v, 7);
  }

  lemma BitLengthOfOr1(v: nat)
    requires v >= 1
    ensures BitLength(if v % 2 == 0 then v + 1 else v) == BitLength(v)
  {
    assert v % 2 == 0 ==> (v + 1) / 2 == v / 2;
  }

  /** The closed form counts exactly the bytes written. */
  lemma {:induction false} VarintLenIsLength(v: nat)
    ensures VarintLen(v) == |Varint(v)|
  {
    if v < 128 {
      BitLengthSmall(if v % 2 == 0 then v + 1 else v);
    } else {
      VarintLenIsLength(v / 128);
      BitLengthOfOr1(v);
      BitLengthOfOr1(v / 128);
      BitLengthOfShift(v);
    }
  }

  /** A key is as long as its number shifted by three, whatever its wire type. */
  lemma KeyLength(number: nat, wt: nat)
    requires number >= 1 && wt < 8
    ensures |Varint(8 * number + wt)| == VarintLen(8 * number)
  {
    VarintLenIsLength(8 * number);
    if 8 * number >= 128 {
      assert (8 * number + wt) / 128 == 8 * number / 128;
    }
  }
}
