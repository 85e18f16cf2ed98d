/** Raw packing and the row filter of tools/resgen/resgen.py: levels of one, two, four or
    eight bits in order in their bytes, and rows stored as the difference to the row
    above. */
module GlyphPack {
  import opened Prelude
  import opened GlyphBits
  import opened GlyphRle
  import opened GlyphCodec

  // ----- the row filter

  function Xor(a: nat, b: nat): nat {
    if a == 0 && b == 0 then 0 else 2 * Xor(a / 2, b / 2) + if a % 2 != b % 2 then 1 else 0
  }

  lemma {:induction false} XorTwice(a: nat, b: nat)
    ensures Xor(Xor(a, b), b) == a
  {
    if a != 0 || b != 0 {
      XorTwice(a / 2, b / 2);
      var x := Xor(a, b);
      assert x / 2 == Xor(a / 2, b / 2) && x % 2 == if a % 2 != b % 2 then 1 else 0;
    }
  }

  /** Bit `i` of `v`, by halving. */
  function BitOf(v: nat, i: nat): bool {
    if i == 0 then v % 2 == 1 else BitOf(v / 2, i - 1)
  }

  /** A bit is set exactly when it is set in one of the two. */
  lemma {:induction false} XorBits(a: nat, b: nat, i: nat)
    ensures BitOf(Xor(a, b), i) == (BitOf(a, i) != BitOf(b, i))
    decreases i
  {
    var x := Xor(a, b);
    assert x / 2 == Xor(a / 2, b / 2) && x % 2 == if a % 2 != b % 2 then 1 else 0;
    if i > 0 { XorBits(a / 2, b / 2, i - 1); }
  }

  lemma {:induction false} XorBelow(a: nat, b: nat, n: nat)
    requires a < Pow2(n) && b < Pow2(n)
    ensures Xor(a, b) < Pow2(n)
  {
    if a != 0 || b != 0 { XorBelow(a / 2, b / 2, n - 1); }
  }

  function XorRow(a: seq<nat>, b: seq<nat>): (r: seq<nat>)
    requires |a| == |b|
    ensures |r| == |a|
  {
    seq(|a|, i requires 0 <= i < |a| => Xor(a[i], b[i]))
  }

  /** Every row is xored with the row above, the first with `previous`. */
  function Filtered(levels: seq<nat>, w: nat, h: nat, previous: seq<nat>): (r: seq<nat>)
    requires |levels| == w * h && |previous| == w
    ensures |r| == |levels|
    decreases h
  {
    if h == 0 then []
    else
      RestOfRows(w, h);
      XorRow(levels[..w], previous) + Filtered(levels[w..], w, h - 1, levels[..w])
  }

  function Unfiltered(levels: seq<nat>, w: nat, h: nat, previous: seq<nat>): (r: seq<nat>)
    requires |levels| == w * h && |previous| == w
    ensures |r| == |levels|
    decreases h
  {
    if h == 0 then []
    else
      RestOfRows(w, h);
      var row := XorRow(levels[..w], previous);
      row + Unfiltered(levels[w..], w, h - 1, row)
  }

  lemma RestOfRows(w: nat, h: nat)
    requires h >= 1
    ensures w * h == w + w * (h - 1) && w * (h - 1) >= 0
  {
  }

  lemma {:induction false} FilterRoundTrip(levels: seq<nat>, w: nat, h: nat, previous: seq<nat>)
    requires |levels| == w * h && |previous| == w
    ensures Unfiltered(Filtered(levels, w, h, previous), w, h, previous) == levels
    decreases h
  {
    if h > 0 {
      RestOfRows(w, h);
      var row, tail := levels[..w], levels[w..];
      var f := Filtered(levels, w, h, previous);
      assert f[..w] == XorRow(row, previous) && f[w..] == Filtered(tail, w, h - 1, row);
      assert XorRow(f[..w], previous) == row by {
        forall i | 0 <= i < w ensures XorRow(f[..w], previous)[i] == row[i] {
          XorTwice(row[i], previous[i]);
        }
      }
      FilterRoundTrip(tail, w, h - 1, row);
    }
  }

  lemma {:induction false} FilteredBelow(levels: seq<nat>, w: nat, h: nat, previous: seq<nat>, bpp: nat)
    requires |levels| == w * h && |previous| == w && Below(levels, bpp) && Below(previous, bpp)
    ensures Below(Filtered(levels, w, h, previous), bpp)
    decreases h
  {
    if h > 0 {
      RestOfRows(w, h);
      var row := levels[..w];
      forall i | 0 <= i < w ensures XorRow(row, previous)[i] < Pow2(bpp) {
        XorBelow(row[i], previous[i], bpp);
      }
      FilteredBelow(levels[w..], w, h - 1, row, bpp);
    }
  }

  function NoRow(w: nat): (r: seq<nat>)
    ensures |r| == w
  {
    seq(w, _ => 0)
  }

  lemma MulLe(a: nat, b: nat, w: nat)
    requires a <= b
    ensures a * w <= b * w
  {
  }

  /** Row `y` is the first row of what is left, and the rows after it are left then. */
  lemma RowOfRest(levels: seq<nat>, w: nat, h: nat, y: nat)
    requires |levels| == w * h && y < h
    ensures y * w <= (y + 1) * w <= |levels|
    ensures var rest := levels[y * w..];
            && |rest| == w * (h - y) && w <= |rest|
            && levels[y * w..(y + 1) * w] == rest[..w]
            && levels[(y + 1) * w..] == rest[w..] && |rest[w..]| == w * (h - y - 1)
  {
    MulLe(y + 1, h, w);
    assert (y + 1) * w == y * w + w && h * w == w * h;
    assert w * (h - y) == w * h - y * w && w * (h - y - 1) == w * (h - y) - w;
  }

  lemma FilteredRow(levels: seq<nat>, w: nat, h: nat, previous: seq<nat>)
    requires |levels| == w * h && |previous| == w && levels != []
    ensures h >= 1 && |levels[w..]| == w * (h - 1)
    ensures Filtered(levels, w, h, previous) == XorRow(levels[..w], previous) + Filtered(levels[w..], w, h - 1, levels[..w])
  {
    assert h == 0 ==> w * h == 0;
    RestOfRows(w, h);
  }

  /** A level of the filtered glyph is the glyph's level xored with the one above. */
  lemma {:induction false} FilteredAt(levels: seq<nat>, w: nat, h: nat, previous: seq<nat>, i: nat)
    requires |levels| == w * h && |previous| == w && i < |levels|
    ensures Filtered(levels, w, h, previous)[i] == Xor(levels[i], if i < w then previous[i] else levels[i - w])
    decreases h
  {
    hide Xor, Filtered;
    FilteredRow(levels, w, h, previous);
    if i >= w {
      FilteredAt(levels[w..], w, h - 1, levels[..w], i - w);
    }
  }

  /** The level above the `i`-th, zero in the first row. */
  function Above(levels: seq<nat>, w: nat, i: nat): nat
    requires i < |levels| + w
  {
    if i < w then 0 else levels[i - w]
  }

  /** Bit by bit: `out` differs from `levels` where the level above has a bit. */
  ghost predicate DiffersByRowAbove(out: seq<nat>, levels: seq<nat>, above: seq<nat>, w: nat)
    requires |out| == |levels| == |above|
  {
    forall p, i: nat | 0 <= p < |levels| ::
      BitOf(out[p], i) == (BitOf(levels[p], i) != BitOf(Above(above, w, p), i))
  }

  lemma FilteredBits(levels: seq<nat>, w: nat, h: nat)
    requires |levels| == w * h
    ensures DiffersByRowAbove(Filtered(levels, w, h, NoRow(w)), levels, levels, w)
  {
    hide Xor, BitOf, Filtered;
    forall p, i: nat | 0 <= p < |levels|
      ensures BitOf(Filtered(levels, w, h, NoRow(w))[p], i) == (BitOf(levels[p], i) != BitOf(Above(levels, w, p), i))
    {
      FilteredAt(levels, w, h, NoRow(w), p);
      XorBits(levels[p], Above(levels, w, p), i);
    }
  }

  lemma UnfilteredRow(levels: seq<nat>, w: nat, h: nat, previous: seq<nat>)
    requires |levels| == w * h && |previous| == w && levels != []
    ensures h >= 1 && |levels[w..]| == w * (h - 1)
    ensures var row := XorRow(levels[..w], previous);
            Unfiltered(levels, w, h, previous) == row + Unfiltered(levels[w..], w, h - 1, row)
  {
    assert h == 0 ==> w * h == 0;
    RestOfRows(w, h);
  }

  /** A level of the glyph is the filtered level xored with the glyph's level above. */
  lemma {:induction false} UnfilteredAt(levels: seq<nat>, w: nat, h: nat, previous: seq<nat>, i: nat)
    requires |levels| == w * h && |previous| == w && i < |levels|
    ensures var out := Unfiltered(levels, w, h, previous);
            out[i] == Xor(levels[i], if i < w then previous[i] else out[i - w])
    decreases h
  {
    hide Xor, Unfiltered;
    UnfilteredRow(levels, w, h, previous);
    if i >= w {
      var row := XorRow(levels[..w], previous);
      UnfilteredAt(levels[w..], w, h - 1, row, i - w);
    }
  }

  lemma UnfilteredBits(levels: seq<nat>, w: nat, h: nat)
    requires |levels| == w * h
    ensures var out := Unfiltered(levels, w, h, NoRow(w)); DiffersByRowAbove(out, levels, out, w)
  {
    hide Xor, BitOf, Unfiltered;
    var out := Unfiltered(levels, w, h, NoRow(w));
    forall p, i: nat | 0 <= p < |levels|
      ensures BitOf(out[p], i) == (BitOf(levels[p], i) != BitOf(Above(out, w, p), i))
    {
      UnfilteredAt(levels, w, h, NoRow(w), p);
      XorBits(levels[p], Above(out, w, p), i);
    }
  }

  method PrefilterRows(levels: seq<nat>, width: nat, height: nat) returns (out: seq<nat>)
    requires |levels| == width * height
    ensures out == Filtered(levels, width, height, NoRow(width))
    ensures |out| == |levels| && DiffersByRowAbove(out, levels, levels, width)
  {
    hide XorRow, DiffersByRowAbove;
    FilteredBits(levels, width, height);
    out := [];
    var previous := NoRow(width);
    ghost var rest := levels;
    for y := 0 to height
      invariant |previous| == width && |rest| == width * (height - y)
      invariant y * width <= |levels| && rest == levels[y * width..]
      invariant out + Filtered(rest, width, height - y, previous) == Filtered(levels, width, height, NoRow(width))
    {
      RowOfRest(levels, width, height, y);
      var row := levels[y * width..(y + 1) * width];
      ghost var more := Filtered(rest[width..], width, height - y - 1, row);
      assert out + (XorRow(row, previous) + more) == (out + XorRow(row, previous)) + more;
      out := out + XorRow(row, previous);
      previous := row;
      rest := rest[width..];
    }
  }

  method UnprefilterRows(levels: seq<nat>, width: nat, height: nat) returns (out: seq<nat>)
    requires |levels| == width * height
    ensures out == Unfiltered(levels, width, height, NoRow(width))
    ensures |out| == |levels| && DiffersByRowAbove(out, levels, out, width)
  {
    hide XorRow, DiffersByRowAbove;
    UnfilteredBits(levels, width, height);
    out := [];
    var previous := NoRow(width);
    ghost var rest := levels;
    for y := 0 to height
      invariant |previous| == width && |rest| == width * (height - y)
      invariant y * width <= |levels| && rest == levels[y * width..]
      invariant out + Unfiltered(rest, width, height - y, previous) == Unfiltered(levels, width, height, NoRow(width))
    {
      RowOfRest(levels, width, height, y);
      var row := XorRow(levels[y * width..(y + 1) * width], previous);
      ghost var more := Unfiltered(rest[width..], width, height - y - 1, row);
      assert out + (row + more) == (out + row) + more;
      out := out + row;
      previous := row;
      rest := rest[width..];
    }
  }

  // ----- raw glyphs

  function RawBits(levels: seq<nat>, bpp: nat): (b: seq<bool>)
    ensures |b| == |levels| * bpp
  {
    if levels == [] then []
    else
      assert |levels| * bpp == bpp + (|levels| - 1) * bpp;
      Bits(levels[0], bpp) + RawBits(levels[1..], bpp)
  }

  /** `pack_levels` of one byte's worth of levels. */
  function GroupByte(g: seq<nat>, bpp: nat): nat {
    if bpp == 8 && |g| == 1 then g[0]
    else if bpp == 4 && |g| == 2 then 16 * g[0] + g[1]
    else if bpp == 2 && |g| == 4 then 64 * g[0] + 16 * g[1] + 4 * g[2] + g[3]
    else if bpp == 1 && |g| == 8 then
      128 * g[0] + 64 * g[1] + 32 * g[2] + 16 * g[3] + 8 * g[4] + 4 * g[5] + 2 * g[6] + g[7]
    else 0
  }

  predicate Depth(bpp: nat) {
    bpp == 1 || bpp == 2 || bpp == 4 || bpp == 8
  }

  function PerByte(bpp: nat): (n: nat)
    requires Depth(bpp)
    ensures n >= 1 && n * bpp == 8
  {
    if bpp == 1 then 8 else if bpp == 2 then 4 else if bpp == 4 then 2 else 1
  }

  /** The accumulator that ors the levels of a group in from the left. */
  function Accumulate(g: seq<nat>, bpp: nat): nat {
    if g == [] then 0 else Push(Accumulate(g[..|g| - 1], bpp), g[|g| - 1], bpp)
  }

  lemma {:induction false} RawAppend(a: seq<nat>, b: seq<nat>, bpp: nat)
    ensures RawBits(a + b, bpp) == RawBits(a, bpp) + RawBits(b, bpp)
  {
    if a == [] {
      assert a + b == b;
    } else {
      assert (a + b)[1..] == a[1..] + b;
      RawAppend(a[1..], b, bpp);
    }
  }

  lemma {:induction false} AccumulateBits(g: seq<nat>, bpp: nat)
    ensures Bits(Accumulate(g, bpp), |g| * bpp) == RawBits(g, bpp)
  {
    if g != [] {
      var init, last := g[..|g| - 1], g[|g| - 1];
      AccumulateBits(init, bpp);
      assert |g| * bpp == |init| * bpp + bpp;
      BitsOfPush(Accumulate(init, bpp), last, |init| * bpp, bpp);
      RawAppend(init, [last], bpp);
      assert g == init + [last];
      assert RawBits([last], bpp) == Bits(last, bpp) + RawBits([], bpp);
    }
  }

  lemma AccumulateStep(g: seq<nat>, bpp: nat, k: nat, unit: nat)
    requires k < |g| && g[k] < unit == Pow2(bpp)
    ensures Accumulate(g[..k + 1], bpp) == unit * Accumulate(g[..k], bpp) + g[k]
  {
    assert g[..k + 1][..k] == g[..k];
    PushIsShiftOr(Accumulate(g[..k], bpp), g[k], bpp);
  }

  lemma Powers()
    ensures Pow2(1) == 2 && Pow2(2) == 4 && Pow2(4) == 16 && Pow2(8) == 256
  {
  }

  lemma AccumulateNothing(g: seq<nat>, bpp: nat)
    ensures Accumulate(g[..0], bpp) == 0 && g[..|g|] == g
  {
  }

  /** Four one-bit levels more. */
  lemma FourBits(g: seq<nat>, k: nat)
    requires k + 4 <= |g| && Below(g, 1)
    ensures Accumulate(g[..k + 4], 1) == 16 * Accumulate(g[..k], 1) + 8 * g[k] + 4 * g[k + 1] + 2 * g[k + 2] + g[k + 3]
  {
    hide Accumulate, Pow2;
    Powers();
    AccumulateStep(g, 1, k, 2);
    AccumulateStep(g, 1, k + 1, 2);
    AccumulateStep(g, 1, k + 2, 2);
    AccumulateStep(g, 1, k + 3, 2);
  }

  lemma EightLevels(g: seq<nat>)
    requires |g| == 8 && Below(g, 1)
    ensures Accumulate(g, 1) == GroupByte(g, 1) < 256
  {
    hide Accumulate, Pow2;
    AccumulateNothing(g, 1);
    FourBits(g, 0);
    FourBits(g, 4);
    Powers();
  }

  lemma FourLevels(g: seq<nat>)
    requires |g| == 4 && Below(g, 2)
    ensures Accumulate(g, 2) == GroupByte(g, 2) < 256
  {
    hide Accumulate, Pow2;
    Powers();
    AccumulateNothing(g, 2);
    AccumulateStep(g, 2, 0, 4);
    AccumulateStep(g, 2, 1, 4);
    AccumulateStep(g, 2, 2, 4);
    AccumulateStep(g, 2, 3, 4);
  }

  lemma TwoLevels(g: seq<nat>)
    requires |g| == 2 && Below(g, 4)
    ensures Accumulate(g, 4) == GroupByte(g, 4) < 256
  {
    hide Accumulate, Pow2;
    Powers();
    AccumulateNothing(g, 4);
    AccumulateStep(g, 4, 0, 16);
    AccumulateStep(g, 4, 1, 16);
  }

  lemma OneLevel(g: seq<nat>)
    requires |g| == 1 && Below(g, 8)
    ensures Accumulate(g, 8) == GroupByte(g, 8) < 256
  {
    hide Accumulate, Pow2;
    Powers();
    AccumulateNothing(g, 8);
    AccumulateStep(g, 8, 0, 256);
  }

  /** The shifted sum of a group is its levels' bits in order. */
  lemma {:induction false} GroupBits(g: seq<nat>, bpp: nat)
    requires Depth(bpp) && |g| == PerByte(bpp) && Below(g, bpp)
    ensures GroupByte(g, bpp) < 256 && Bits(GroupByte(g, bpp), 8) == RawBits(g, bpp)
  {
    hide Accumulate, Pow2, Bits, RawBits, GroupByte;
    AccumulateBits(g, bpp);
    if bpp == 1 { EightLevels(g); }
    else if bpp == 2 { FourLevels(g); }
    else if bpp == 4 { TwoLevels(g); }
    else { OneLevel(g); }
  }

  /** The levels of the first byte, with zeros where the glyph is out of levels. */
  function Group(levels: seq<nat>, bpp: nat): (g: seq<nat>)
    requires Depth(bpp) && Below(levels, bpp)
    ensures |g| == PerByte(bpp) && Below(g, bpp)
  {
    var per := PerByte(bpp);
    if |levels| >= per then levels[..per] else levels + NoRow(per - |levels|)
  }

  function PackLevels(levels: seq<nat>, bpp: nat): (s: seq<byte>)
    requires Depth(bpp) && Below(levels, bpp)
    decreases |levels|
  {
    if levels == [] then []
    else
      var g := Group(levels, bpp);
      GroupBits(g, bpp);
      [GroupByte(g, bpp)] + PackLevels(if |levels| >= |g| then levels[|g|..] else [], bpp)
  }

  /** The first byte carries the levels of its group. */
  lemma FirstByte(levels: seq<nat>, bpp: nat, data: seq<byte>)
    requires Depth(bpp) && Below(levels, bpp) && levels != []
    requires data != [] && data[0] == GroupByte(Group(levels, bpp), bpp)
    ensures var n := if |levels| < PerByte(bpp) then |levels| else PerByte(bpp);
            Carries(data, 0, RawBits(levels[..n], bpp))
  {
    hide GroupByte;
    var g := Group(levels, bpp);
    var n := if |levels| < |g| then |levels| else |g|;
    GroupBits(g, bpp);
    assert g == levels[..n] + g[n..];
    RawAppend(levels[..n], g[n..], bpp);
    var b := RawBits(levels[..n], bpp);
    forall k | 0 <= k < |b| ensures BitAt(data, 0 + k) == b[k] {
      assert |b| <= |RawBits(g, bpp)| == 8;
      assert k / 8 == 0 && k % 8 == k;
      assert b[k] == RawBits(g, bpp)[k];
    }
  }

  lemma ShiftByte(data: seq<byte>, b: seq<bool>)
    requires data != [] && Carries(data[1..], 0, b)
    ensures Carries(data, 8, b)
  {
    forall k | 0 <= k < |b| ensures BitAt(data, 8 + k) == b[k] {
      assert BitAt(data[1..], 0 + k) == b[k];
      assert (8 + k) / 8 == k / 8 + 1 && (8 + k) % 8 == k % 8;
    }
  }

  lemma CarriesAppend(data: seq<byte>, pos: nat, a: seq<bool>, b: seq<bool>)
    requires Carries(data, pos, a) && Carries(data, pos + |a|, b)
    ensures Carries(data, pos, a + b)
  {
    forall k | 0 <= k < |a + b| ensures BitAt(data, pos + k) == (a + b)[k] {
      if k < |a| {
      } else {
        assert BitAt(data, pos + |a| + (k - |a|)) == b[k - |a|];
      }
    }
  }

  /** Raw packing carries every level in `bpp` bits, in order. */
  lemma {:induction false} PackLevelsCarry(levels: seq<nat>, bpp: nat, after: seq<byte>)
    requires Depth(bpp) && Below(levels, bpp)
    ensures Carries(PackLevels(levels, bpp) + after, 0, RawBits(levels, bpp))
    ensures |RawBits(levels, bpp)| <= 8 * |PackLevels(levels, bpp)|
    decreases |levels|
  {
    hide GroupByte, Group, BitAt, RawBits;
    if levels != [] {
      var per := PerByte(bpp);
      var n := if |levels| < per then |levels| else per;
      var tail := levels[n..];
      var data := PackLevels(levels, bpp) + after;
      PackLevelsCarry(tail, bpp, after);
      assert data[1..] == PackLevels(tail, bpp) + after;
      FirstByte(levels, bpp, data);
      ShiftByte(data, RawBits(tail, bpp));
      assert levels == levels[..n] + tail;
      RawAppend(levels[..n], tail, bpp);
      if n == per {
        CarriesAppend(data, 0, RawBits(levels[..n], bpp), RawBits(tail, bpp));
      } else {
        RawNothing(bpp);
        assert RawBits(levels[..n], bpp) + [] == RawBits(levels, bpp);
        assert n * bpp <= 8 by { MulLe(n, per, bpp); }
      }
    }
  }

  lemma RawNothing(bpp: nat)
    ensures RawBits([], bpp) == []
  {
  }

  /** Levels read one after the other, `bpp` bits each. */
  function ReadRaw(data: seq<byte>, pos: nat, bpp: nat, count: nat): seq<nat>
    decreases count
  {
    if count == 0 then [] else [ReadBits(data, pos, bpp)] + ReadRaw(data, pos + bpp, bpp, count - 1)
  }

  lemma {:induction false} RawRoundTrip(data: seq<byte>, pos: nat, levels: seq<nat>, bpp: nat)
    requires Below(levels, bpp) && Carries(data, pos, RawBits(levels, bpp))
    ensures ReadRaw(data, pos, bpp, |levels|) == levels
    decreases |levels|
  {
    if levels != [] {
      ReadNumber(data, pos, levels[0], bpp, RawBits(levels[1..], bpp));
      RawRoundTrip(data, pos + bpp, levels[1..], bpp);
    }
  }
}
