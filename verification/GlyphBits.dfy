/** Bit streams: numbers as bits, most significant first, bits as bytes with zeros to fill
    the last one, and the two ways they are read, bit by bit in Python and through a window
    of three bytes on the device. */
module GlyphBits {
  import opened Prelude

  /** The low `n` bits of `v`, most significant first. */
  function Bits(v: nat, n: nat): (b: seq<bool>)
    ensures |b| == n
  {
    if n == 0 then [] else Bits(v / 2, n - 1) + [v % 2 == 1]
  }

  function Value(b: seq<bool>): nat {
    if b == [] then 0 else 2 * Value(b[..|b| - 1]) + if b[|b| - 1] then 1 else 0
  }

  /** `acc << n | v`, for `v` below `1 << n`. */
  function Push(acc: nat, v: nat, n: nat): nat {
    if n == 0 then acc else 2 * Push(acc, v / 2, n - 1) + v % 2
  }

  lemma {:induction false} PushIsShiftOr(acc: nat, v: nat, n: nat)
    requires v < Pow2(n)
    ensures Push(acc, v, n) == acc * Pow2(n) + v
  {
    if n > 0 {
      PushIsShiftOr(acc, v / 2, n - 1);
      assert 2 * (acc * Pow2(n - 1)) == acc * Pow2(n);
    }
  }

  lemma {:induction false} BitsOfPush(acc: nat, v: nat, bits: nat, n: nat)
    ensures Bits(Push(acc, v, n), bits + n) == Bits(acc, bits) + Bits(v, n)
  {
    if n > 0 {
      BitsOfPush(acc, v / 2, bits, n - 1);
      var w := Push(acc, v, n);
      assert w / 2 == Push(acc, v / 2, n - 1) && w % 2 == v % 2;
      assert Bits(w, bits + n) == (Bits(acc, bits) + Bits(v / 2, n - 1)) + [v % 2 == 1];
      assert Bits(v, n) == Bits(v / 2, n - 1) + [v % 2 == 1];
    } else {
      assert Bits(acc, bits) + [] == Bits(acc, bits);
    }
  }

  lemma {:induction false} ValueOfBits(v: nat, n: nat)
    requires v < Pow2(n)
    ensures Value(Bits(v, n)) == v
  {
    if n > 0 {
      ValueOfBits(v / 2, n - 1);
      var b := Bits(v, n);
      assert b[..n - 1] == Bits(v / 2, n - 1);
    }
  }

  lemma {:induction false} ValueBelow(b: seq<bool>)
    ensures Value(b) < Pow2(|b|)
  {
    if b != [] { ValueBelow(b[..|b| - 1]); }
  }

  lemma {:induction false} BitsOfValue(b: seq<bool>)
    ensures Bits(Value(b), |b|) == b
  {
    if b != [] {
      BitsOfValue(b[..|b| - 1]);
      assert b == b[..|b| - 1] + [b[|b| - 1]];
    }
  }

  // ----- bytes

  /** Whole bytes, most significant bit first. */
  function Pack(b: seq<bool>): (s: seq<byte>)
    requires |b| % 8 == 0
    ensures |s| == |b| / 8
  {
    if b == [] then []
    else
      var cut := |b| - 8;
      Pack(b[..cut]) + [ByteOf(b[cut..])]
  }

  function ByteOf(b: seq<bool>): byte
    requires |b| == 8
  {
    ValueBelow(b);
    assert Pow2(8) == 256;
    Value(b)
  }

  function Padding(n: nat): (p: nat)
    ensures (n + p) % 8 == 0 && p < 8
  {
    (8 - n % 8) % 8
  }

  /** The stream in bytes, its last byte filled with zeros. */
  function Stream(b: seq<bool>): seq<byte> {
    Pack(b + seq(Padding(|b|), _ => false))
  }

  /** `v.to_bytes(n, "big")` */
  function ToBytes(v: nat, n: nat): seq<byte> {
    if n == 0 then [] else ToBytes(v / 256, n - 1) + [v % 256]
  }

  lemma {:induction false} BitsSplit(v: nat, n: nat, k: nat)
    requires k <= n
    ensures Bits(v, n)[..n - k] == Bits(v / Pow2(k), n - k)
    ensures Bits(v, n)[n - k..] == Bits(v, k)
  {
    if k > 0 {
      BitsSplit(v / 2, n - 1, k - 1);
      assert v / Pow2(k) == v / 2 / Pow2(k - 1) by { DivTwice(v, Pow2(k - 1)); }
      var b, c := Bits(v, n), Bits(v / 2, n - 1);
      assert b == c + [v % 2 == 1];
      assert b[..n - k] == c[..n - k];
      assert b[n - k..] == c[n - k..] + [v % 2 == 1];
    } else {
      assert Bits(v, n)[n..] == [];
    }
  }

  lemma DivTwice(v: nat, d: nat)
    requires d >= 1
    ensures v / (2 * d) == v / 2 / d
  {
    var q := v / 2 / d;
    var r := v / 2 % d;
    assert v / 2 == q * d + r;
    assert v == 2 * (q * d + r) + v % 2;
    assert 2 * (q * d) == q * (2 * d);
    assert v == q * (2 * d) + (2 * r + v % 2);
    assert 0 <= 2 * r + v % 2 < 2 * d;
    DivUnique(v, 2 * d, q, 2 * r + v % 2);
  }

  lemma ByteOfBits(v: nat)
    ensures ByteOf(Bits(v, 8)) == v % 256
  {
    assert Pow2(8) == 256;
    ValueOfBits(v % 256, 8);
    BitsOfMod(v, 8);
  }

  /** Only the low bits matter. */
  lemma {:induction false} BitsOfMod(v: nat, n: nat)
    ensures Bits(v % Pow2(n), n) == Bits(v, n)
  {
    if n > 0 {
      var w, p := v % Pow2(n), Pow2(n - 1);
      ModTwice(v, p);
      BitsOfMod(v / 2, n - 1);
    }
  }

  lemma ModTwice(v: nat, d: nat)
    requires d >= 1
    ensures v % (2 * d) / 2 == v / 2 % d && v % (2 * d) % 2 == v % 2
  {
    var q := v / 2 / d;
    var r := v / 2 % d;
    assert v / 2 == q * d + r;
    assert 2 * (q * d) == q * (2 * d);
    assert v == q * (2 * d) + (2 * r + v % 2);
    DivUnique(v, 2 * d, q, 2 * r + v % 2);
  }

  lemma {:induction false} ToBytesIsPack(v: nat, n: nat)
    ensures ToBytes(v, n) == Pack(Bits(v, 8 * n))
  {
    if n > 0 {
      ToBytesIsPack(v / 256, n - 1);
      assert Pow2(8) == 256;
      BitsSplit(v, 8 * n, 8);
      ByteOfBits(v);
    }
  }

  /** Bit `p` of the data; zero past the end. */
  function BitAt(data: seq<byte>, p: nat): bool {
    p / 8 < |data| && Bits(data[p / 8], 8)[p % 8]
  }

  lemma {:induction false} BitOfPack(b: seq<bool>, p: nat)
    requires |b| % 8 == 0 && p < |b|
    ensures BitAt(Pack(b), p) == b[p]
  {
    var cut := |b| - 8;
    if p < cut {
      BitOfPack(b[..cut], p);
      assert Pack(b)[p / 8] == Pack(b[..cut])[p / 8];
    } else {
      BitsOfValue(b[cut..]);
      assert p / 8 == |b| / 8 - 1;
    }
  }

  // ----- reading

  /** From position `pos` on the data holds the bits `b`. */
  ghost predicate Carries(data: seq<byte>, pos: nat, b: seq<bool>) {
    forall k | 0 <= k < |b| :: BitAt(data, pos + k) == b[k]
  }

  lemma CarriesStream(b: seq<bool>, after: seq<byte>)
    ensures Carries(Stream(b) + after, 0, b)
  {
    var padded := b + seq(Padding(|b|), _ => false);
    forall k | 0 <= k < |b| ensures BitAt(Stream(b) + after, 0 + k) == b[k] {
      BitOfPack(padded, k);
    }
  }

  lemma CarriesSplit(data: seq<byte>, pos: nat, a: seq<bool>, b: seq<bool>)
    requires Carries(data, pos, a + b)
    ensures Carries(data, pos, a) && Carries(data, pos + |a|, b)
  {
    forall k | 0 <= k < |a| ensures BitAt(data, pos + k) == a[k] {
      assert (a + b)[k] == a[k];
    }
    forall k | 0 <= k < |b| ensures BitAt(data, pos + |a| + k) == b[k] {
      assert (a + b)[|a| + k] == b[k];
    }
  }

  function ReadBits(data: seq<byte>, pos: nat, n: nat): nat {
    if n == 0 then 0 else 2 * ReadBits(data, pos, n - 1) + if BitAt(data, pos + n - 1) then 1 else 0
  }

  lemma {:induction false} ReadCarried(data: seq<byte>, pos: nat, b: seq<bool>)
    requires Carries(data, pos, b)
    ensures ReadBits(data, pos, |b|) == Value(b)
  {
    if b != [] {
      ReadCarried(data, pos, b[..|b| - 1]);
      assert BitAt(data, pos + (|b| - 1)) == b[|b| - 1];
    }
  }

  /** `read` of the Python decoder. */
  method Read(data: seq<byte>, position: nat, length: nat) returns (value: nat, next: nat)
    ensures value == ReadBits(data, position, length) && next == position + length
  {
    value := 0;
    for i := 0 to length
      invariant value == ReadBits(data, position, i)
    {
      var bit := false;
      if position + i < 8 * |data| {
        bit := BitAt(data, position + i);
      }
      value := 2 * value + if bit then 1 else 0;
    }
    next := position + length;
  }

  // ----- the 24-bit window of the device's reader

  /** Three bytes from `at` on. */
  function Window(data: seq<byte>, at: nat): nat
    requires at + 2 < |data|
  {
    var a: nat, b: nat, c: nat := data[at], data[at + 1], data[at + 2];
    65536 * a + 256 * b + c
  }

  lemma WindowBits(data: seq<byte>, at: nat)
    requires at + 2 < |data|
    ensures Bits(Window(data, at), 24) == Bits(data[at], 8) + Bits(data[at + 1], 8) + Bits(data[at + 2], 8)
  {
    var a, b, c := data[at], data[at + 1], data[at + 2];
    assert Pow2(8) == 256;
    PushIsShiftOr(a, b, 8);
    PushIsShiftOr(Push(a, b, 8), c, 8);
    BitsOfPush(a, b, 8, 8);
    BitsOfPush(Push(a, b, 8), c, 16, 8);
  }

  /** `(window >> (24 - offset - n)) & ((1 << n) - 1)` is the `n` bits at `offset`. */
  lemma WindowSlice(w: nat, offset: nat, n: nat)
    requires offset + n <= 24
    ensures w / Pow2(24 - offset - n) % Pow2(n) == Value(Bits(w, 24)[offset..offset + n])
  {
    var k := 24 - offset - n;
    var v := w / Pow2(k);
    BitsSplit(w, 24, k);
    assert Bits(w, 24)[offset..offset + n] == Bits(v, offset + n)[offset..];
    BitsSplit(v, offset + n, n);
    BitsOfMod(v, n);
    ValueOfBits(v % Pow2(n), n);
  }

  lemma WindowBit(data: seq<byte>, at: nat, j: nat)
    requires at + 2 < |data| && j < 24
    ensures Bits(Window(data, at), 24)[j] == BitAt(data, 8 * at + j)
  {
    hide Window, Bits;
    WindowBits(data, at);
    DivUnique(8 * at + j, 8, at + j / 8, j % 8);
    var a, b, c := Bits(data[at], 8), Bits(data[at + 1], 8), Bits(data[at + 2], 8);
    assert (a + b + c)[j] == if j < 8 then a[j] else if j < 16 then b[j - 8] else c[j - 16];
  }

  /** The window gives what reading bit by bit gives. */
  lemma WindowReads(data: seq<byte>, pos: nat, n: nat)
    requires pos / 8 + 2 < |data| && n <= 16
    ensures Window(data, pos / 8) / Pow2(24 - pos % 8 - n) % Pow2(n) == ReadBits(data, pos, n)
  {
    hide Window, BitAt, Bits, Value, Pow2;
    var at, offset := pos / 8, pos % 8;
    var w := Window(data, at);
    WindowSlice(w, offset, n);
    var b := Bits(w, 24)[offset..offset + n];
    forall k | 0 <= k < n ensures BitAt(data, pos + k) == b[k] {
      WindowBit(data, at, offset + k);
      assert 8 * at + (offset + k) == pos + k;
    }
    ReadCarried(data, pos, b);
  }
}
