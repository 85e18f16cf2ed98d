/** Types and sequence facts shared by every part of the model: options, bytes and 64-bit
    words, writing over a stretch of a sequence, quotients and remainders, and buffers cut
    into slots of equal size. */
module Prelude {

  datatype Option<+T> = None | Some(value: T)

  type byte = x: int | 0 <= x < 256

  type u64 = x: int | 0 <= x < 0x1_0000_0000_0000_0000

  /** `s` with `t` written over it from position `at`. */
  function Splice<T>(s: seq<T>, at: nat, t: seq<T>): (r: seq<T>)
    requires at + |t| <= |s|
    ensures |r| == |s|
  {
    s[..at] + t + s[at + |t|..]
  }

  /** Two adjacent writes are one write of the concatenation. */
  lemma SpliceAppend<T>(s: seq<T>, at: nat, t: seq<T>, u: seq<T>)
    requires at + |t| + |u| <= |s|
    ensures Splice(Splice(s, at, t), at + |t|, u) == Splice(s, at, t + u)
  {
    var l, r := Splice(Splice(s, at, t), at + |t|, u), Splice(s, at, t + u);
    forall i | 0 <= i < |s| ensures l[i] == r[i] {
      if i < at {
      } else if i < at + |t| {
        assert Splice(s, at, t)[i] == t[i - at];
      } else if i < at + |t| + |u| {
      } else {
        assert Splice(s, at, t)[i] == s[i];
      }
    }
  }

  lemma SpliceNothing<T>(s: seq<T>, at: nat)
    requires at <= |s|
    ensures Splice(s, at, []) == s
  {
  }

  lemma SpliceHolds<T>(s: seq<T>, at: nat, t: seq<T>)
    requires at + |t| <= |s|
    ensures Splice(s, at, t)[at..at + |t|] == t
  {
  }

  predicate Ascending(s: seq<nat>) {
    forall i, j | 0 <= i < j < |s| :: s[i] < s[j]
  }

  // ----- powers and division

  function Pow2(n: nat): (p: nat)
    ensures p >= 1
  {
    if n == 0 then 1 else 2 * Pow2(n - 1)
  }

  /** Quotient and remainder are unique. */
  lemma DivUnique(v: nat, d: nat, q: nat, r: nat)
    requires d >= 1 && v == q * d + r && r < d
    ensures v / d == q && v % d == r
  {
    var q', r' := v / d, v % d;
    var k := q - q';
    assert k * d == r' - r && -k * d == r - r' by {
      assert v == q' * d + r';
      assert (q - q') * d == q * d - q' * d;
    }
    if k >= 1 {
      MulAtLeast(k, d);
    } else if k <= -1 {
      MulAtLeast(-k, d);
    }
  }

  lemma MulAtLeast(a: nat, d: nat)
    requires a >= 1
    ensures a * d >= d
  {
  }

  // ----- a buffer of equal slots

  lemma SlotFits(k: nat, length: nat, size: nat)
    requires k < length
    ensures k * size + size <= length * size
  {
    if k + 1 < length {
      SlotFits(k, length - 1, size);
      assert length * size == (length - 1) * size + size;
    } else {
      assert length * size == k * size + size;
    }
  }

  /** Slot `k` of a buffer of `length` slots of `size` bytes. */
  function Item(bytes: seq<byte>, k: nat, length: nat, size: nat): (r: seq<byte>)
    requires k < length && |bytes| == length * size
    ensures |r| == size
  {
    SlotFits(k, length, size);
    bytes[k * size..k * size + size]
  }

  /** Writing one slot leaves the others alone. */
  lemma WriteItem(bytes: seq<byte>, k: nat, j: nat, length: nat, size: nat, item: seq<byte>)
    requires k < length && j < length && |bytes| == length * size && |item| == size
    ensures k * size + size <= |bytes|
    ensures Item(Splice(bytes, k * size, item), j, length, size) == if j == k then item else Item(bytes, j, length, size)
  {
    SlotFits(k, length, size);
    SlotFits(j, length, size);
    if j < k {
      SlotFits(j, k, size);
    } else if k < j {
      SlotFits(k, j, size);
    }
  }
}
