/** The wire format of tools/protogen, as a grammar on bytes. */
module PbGrammar {
  // No reader is part of the grammar; the readers of pb.c and pb.rs accept exactly it.

  import opened Prelude
  import opened PbVarint
  import opened PbDecode

  // ----- varints

  /** Seven bits from each byte, the least significant first. */
  function Groups(e: seq<byte>): nat {
    if e == [] then 0 else e[0] % 128 + 128 * Groups(e[1..])
  }

  /** At most ten bytes, all but the last with the continuation bit; 64 bits of the value count. */
  ghost predicate IsVarint(e: seq<byte>, v: nat) {
    && 1 <= |e| <= 10
    && (forall i | 0 <= i < |e| - 1 :: e[i] >= 128)
    && e[|e| - 1] < 128
    && v == Groups(e) % 0x1_0000_0000_0000_0000
  }

  ghost predicate IsGroups(e: seq<byte>, most: int, v: nat) {
    && 1 <= |e| <= most
    && (forall i | 0 <= i < |e| - 1 :: e[i] >= 128)
    && e[|e| - 1] < 128
    && v == Groups(e)
  }

  lemma ConsGroups(c: byte, e: seq<byte>, most: int, v: nat)
    requires c >= 128
    ensures IsGroups([c] + e, most, c - 128 + 128 * v) <==> IsGroups(e, most - 1, v)
  {
    var b := [c] + e;
    assert b[1..] == e;
    if e != [] {
      assert b[|b| - 1] == e[|e| - 1];
      assert forall i | 0 <= i < |e| - 1 :: b[i + 1] == e[i];
      if forall i | 0 <= i < |b| - 1 :: b[i] >= 128 {
        assert forall i | 0 <= i < |e| - 1 :: e[i] == b[i + 1];
      }
    }
  }

  lemma {:induction false} GroupsExact(b: seq<byte>, k: nat, v: nat, n: nat)
    ensures ReadGroups(b, k) == Some((v, n)) <==> n <= |b| && IsGroups(b[..n], 10 - k, v)
    decreases 10 - k
  {
    hide IsGroups;
    if k >= 10 || b == [] || n == 0 || n > |b| {
      GroupsNone(b, k, v, n);
    } else if b[0] < 128 {
      GroupsLast(b, k, v, n);
    } else {
      assert b[..n] == [b[0]] + b[1..][..n - 1];
      if (v - (b[0] - 128)) % 128 == 0 && v >= b[0] - 128 {
        var w := (v - (b[0] - 128)) / 128;
        assert v == b[0] - 128 + 128 * w;
        GroupsExact(b[1..], k + 1, w, n - 1);
        ConsGroups(b[0], b[1..][..n - 1], 10 - k, w);
      } else {
        GroupsHead(b[..n], 10 - k, v);
      }
    }
  }

  lemma GroupsNone(b: seq<byte>, k: nat, v: nat, n: nat)
    requires k >= 10 || b == [] || n == 0 || n > |b|
    ensures ReadGroups(b, k) != Some((v, n))
    ensures n <= |b| ==> !IsGroups(b[..n], 10 - k, v)
  {
  }

  lemma GroupsLast(b: seq<byte>, k: nat, v: nat, n: nat)
    requires k < 10 && 1 <= n <= |b| && b[0] < 128
    ensures ReadGroups(b, k) == Some((v, n)) <==> IsGroups(b[..n], 10 - k, v)
  {
    if n > 1 {
      assert b[..n][0] == b[0];
    } else {
      assert b[..1][1..] == [];
      assert Groups(b[..1]) == b[0] % 128 + 128 * Groups([]);
    }
  }

  lemma GroupsHead(e: seq<byte>, most: int, v: nat)
    requires e != [] && e[0] >= 128
    requires !((v - (e[0] - 128)) % 128 == 0 && v >= e[0] - 128)
    ensures !IsGroups(e, most, v)
  {
    assert e[0] % 128 == e[0] - 128;
  }

  /** Reading accepts a varint exactly where the grammar has one: ten bytes at most, an
      eleventh group refused, bits above the 64th dropped. */
  lemma ReadVarintExact(b: seq<byte>, v: u64, n: nat)
    ensures ReadVarint(b) == Some((v, n)) <==> n <= |b| && IsVarint(b[..n], v)
  {
    if n <= |b| && IsVarint(b[..n], v) {
      GroupsExact(b, 0, Groups(b[..n]), n);
    }
    if ReadVarint(b).Some? {
      var (w, m) := ReadGroups(b, 0).value;
      GroupsExact(b, 0, w, m);
    }
  }

  lemma VarintIsVarint(v: u64)
    ensures IsVarint(Varint(v), v)
  {
    VarintRoundTrip(v, []);
    ReadVarintExact(Varint(v) + [], v, |Varint(v)|);
    assert (Varint(v) + [])[..|Varint(v)|] == Varint(v);
  }

  // ----- fields

  /** `e` is one field whose key takes `k` bytes: a varint, eight bytes, a length and as many
      bytes, or four bytes, by the low three bits of the key. */
  ghost predicate IsField(e: seq<byte>, k: nat, t: Token) {
    && k <= |e| == t.size
    && 1 <= t.number <= 0xffff_ffff
    && match t.payload
       case Varint64(v) => IsVarint(e[..k], 8 * t.number) && IsVarint(e[k..], v)
       case Fixed =>
         || (IsVarint(e[..k], 8 * t.number + 1) && |e| - k == 8)
         || (IsVarint(e[..k], 8 * t.number + 5) && |e| - k == 4)
       case Len(data) => IsVarint(e[..k], 8 * t.number + 2) && IsDelimited(e[k..], data)
  }

  /** A length and the bytes it counts. */
  ghost predicate IsDelimited(e: seq<byte>, data: seq<byte>) {
    exists l: nat | l <= |e| :: IsVarint(e[..l], |data|) && e[l..] == data
  }

  lemma DelimitedExact(b: seq<byte>, n: nat, data: seq<byte>)
    requires n <= |b|
    ensures IsDelimited(b[..n], data) <==>
            && ReadVarint(b).Some?
            && var (len, l) := ReadVarint(b).value;
            n == l + len && data == b[l..n]
  {
    hide IsVarint;
    if IsDelimited(b[..n], data) {
      var e := b[..n];
      var l: nat :| l <= |e| && IsVarint(e[..l], |data|) && e[l..] == data;
      assert e[..l] == b[..l];
      IsVarintFits(b[..l], |data|);
      ReadVarintExact(b, |data|, l);
    }
    if ReadVarint(b).Some? {
      var (len, l) := ReadVarint(b).value;
      ReadVarintExact(b, len, l);
      if n == l + len && data == b[l..n] {
        assert b[..n][..l] == b[..l] && b[..n][l..] == data && |data| == len;
      }
    }
  }

  lemma IsVarintFits(e: seq<byte>, v: nat)
    requires IsVarint(e, v)
    ensures v < 0x1_0000_0000_0000_0000
  {
  }

  /** The key at the front of a field with the tag `tag`. */
  lemma KeyOfField(b: seq<byte>, e: seq<byte>, k: nat, tag: u64)
    requires |e| <= |b| && e == b[..|e|] && k <= |e| && IsVarint(e[..k], tag)
    ensures ReadVarint(b) == Some((tag, k))
  {
    assert e[..k] == b[..k];
    ReadVarintExact(b, tag, k);
  }

  lemma FieldIsRead(b: seq<byte>, k: nat, t: Token)
    requires t.size <= |b| && IsField(b[..t.size], k, t)
    ensures NextField(b) == Some(t)
  {
    hide ReadVarint, IsVarint, IsDelimited;
    var e := b[..t.size];
    var body := b[k..];
    match t.payload
    case Varint64(v) =>
      KeyOfField(b, e, k, 8 * t.number);
      assert e[k..] == body[..t.size - k];
      ReadVarintExact(body, v, t.size - k);
    case Fixed =>
      KeyOfField(b, e, k, if IsVarint(e[..k], 8 * t.number + 1) && |e| - k == 8 then 8 * t.number + 1 else 8 * t.number + 5);
    case Len(data) =>
      KeyOfField(b, e, k, 8 * t.number + 2);
      assert e[k..] == body[..t.size - k];
      DelimitedExact(body, t.size - k, data);
      var (len, l) := ReadVarint(body).value;
      assert body[l..l + len] == b[k + l..k + l + len];
  }

  /** How many bytes the key takes. */
  ghost function KeySize(b: seq<byte>): nat
    requires ReadVarint(b).Some?
  {
    ReadVarint(b).value.1
  }

  lemma ReadIsField(b: seq<byte>)
    requires NextField(b).Some?
    ensures var t := NextField(b).value; ReadVarint(b).Some? && IsField(b[..t.size], KeySize(b), t)
  {
    hide ReadVarint, IsVarint, IsDelimited;
    var t := NextField(b).value;
    var (tag, k) := ReadVarint(b).value;
    var e, body := b[..t.size], b[k..];
    ReadVarintExact(b, tag, k);
    assert e[..k] == b[..k] && e[k..] == body[..t.size - k];
    match t.payload
    case Varint64(v) =>
      ReadVarintExact(body, v, t.size - k);
    case Fixed =>
    case Len(data) =>
      var (len, l) := ReadVarint(body).value;
      assert body[l..l + len] == b[k + l..k + l + len];
      DelimitedExact(body, t.size - k, data);
  }

  /** Both readers take a field exactly where the grammar has one: numbers from 1 to
      0xffff_ffff, wire types 0, 1, 2 and 5, nothing cut short. */
  lemma NextFieldExact(b: seq<byte>, t: Token)
    ensures NextField(b) == Some(t) <==> t.size <= |b| && exists k: nat :: IsField(b[..t.size], k, t)
  {
    hide NextField, IsField, ReadVarint;
    if NextField(b) == Some(t) { ReadIsField(b); }
    if t.size <= |b| {
      if k: nat :| IsField(b[..t.size], k, t) { FieldIsRead(b, k, t); }
    }
  }

  /** What follows a field has no say in how it is read. */
  lemma NextFieldLocal(b: seq<byte>, rest: seq<byte>)
    requires NextField(b).Some?
    ensures NextField(b + rest) == NextField(b)
  {
    hide NextField, IsField, ReadVarint;
    var t := NextField(b).value;
    ReadIsField(b);
    assert (b + rest)[..t.size] == b[..t.size];
    FieldIsRead(b + rest, KeySize(b), t);
  }
}
