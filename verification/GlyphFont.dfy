/** From the glyphs of a font to a pack and back on the device. */
module GlyphFont {
  import opened Prelude
  import opened GlyphBits
  import opened GlyphRle
  import opened GlyphCodec
  import opened GlyphPack

  datatype Glyph = Glyph(codepoint: nat, width: nat, height: nat, levels: seq<nat>)

  ghost predicate ValidGlyph(g: Glyph, bpp: nat) {
    |g.levels| == g.width * g.height && Below(g.levels, bpp)
  }

  /** What the run-length code is applied to. */
  function Source(g: Glyph, prefilter: bool): (s: seq<nat>)
    requires |g.levels| == g.width * g.height
    ensures |s| == |g.levels|
  {
    if prefilter then Filtered(g.levels, g.width, g.height, NoRow(g.width)) else g.levels
  }

  lemma SourceBelow(g: Glyph, prefilter: bool, bpp: nat)
    requires ValidGlyph(g, bpp)
    ensures Below(Source(g, prefilter), bpp)
  {
    FilteredBelow(g.levels, g.width, g.height, NoRow(g.width), bpp);
  }

  function Code(g: Glyph, bpp: nat, prefilter: bool, compressed: bool): seq<byte>
    requires Depth(bpp) && |g.levels| == g.width * g.height && Below(g.levels, bpp)
  {
    if compressed then Stream(RleBits(Source(g, prefilter), bpp)) else PackLevels(g.levels, bpp)
  }

  method EncodePackGlyph(g: Glyph, bpp: nat, compress: bool, prefilter: bool)
    returns (encoded: seq<byte>, compressed: bool)
    requires Depth(bpp) && ValidGlyph(g, bpp)
    ensures encoded == Code(g, bpp, prefilter, compressed)
    ensures compressed <==> compress && |Stream(RleBits(Source(g, prefilter), bpp))| < (|g.levels| * bpp + 7) / 8
    ensures compressed ==> exists source: seq<nat> ::
              && |source| == |g.levels| && encoded == Stream(RleBits(source, bpp))
              && if prefilter then DiffersByRowAbove(source, g.levels, g.levels, g.width) else source == g.levels
  {
    hide DiffersByRowAbove, RleBits, Stream, Filtered;
    if compress {
      var source := g.levels;
      if prefilter { source := PrefilterRows(g.levels, g.width, g.height); }
      SourceBelow(g, prefilter, bpp);
      var rle := RleEncode(source, bpp);
      if |rle| < (|g.levels| * bpp + 7) / 8 { return rle, true; }
    }
    return PackLevels(g.levels, bpp), false;
  }

  // ----- the table

  /** `offset | 0x80000000` */
  function Flagged(offset: nat): nat {
    if offset / 0x8000_0000 % 2 == 1 then offset else offset + 0x8000_0000
  }

  /** The entry of a glyph leads to its code, which has `slack` bytes after it. */
  ghost predicate Stored(row: nat, data: seq<byte>, g: Glyph, bpp: nat, prefilter: bool, slack: nat)
    requires Depth(bpp) && ValidGlyph(g, bpp)
  {
    var compressed, offset := row >= 0x8000_0000, row % 0x8000_0000;
    var code := Code(g, bpp, prefilter, compressed);
    offset + |code| + slack <= |data| && data[offset..offset + |code|] == code
  }

  lemma StoredAppend(row: nat, data: seq<byte>, more: seq<byte>, g: Glyph, bpp: nat, prefilter: bool)
    requires Depth(bpp) && ValidGlyph(g, bpp) && Stored(row, data, g, bpp, prefilter, 0)
    ensures Stored(row, data + more, g, bpp, prefilter, |more|)
  {
    hide Code;
    var offset := row % 0x8000_0000;
    var code := Code(g, bpp, prefilter, row >= 0x8000_0000);
    assert (data + more)[offset..offset + |code|] == data[offset..offset + |code|];
  }

  lemma StoredLess(row: nat, data: seq<byte>, g: Glyph, bpp: nat, prefilter: bool, slack: nat)
    requires Depth(bpp) && ValidGlyph(g, bpp) && Stored(row, data, g, bpp, prefilter, slack)
    ensures Stored(row, data, g, bpp, prefilter, 0)
  {
  }

  lemma StoredHere(data: seq<byte>, code: seq<byte>, g: Glyph, bpp: nat, prefilter: bool, compressed: bool)
    requires Depth(bpp) && ValidGlyph(g, bpp) && |data| < 0x8000_0000
    requires code == Code(g, bpp, prefilter, compressed)
    ensures Stored(if compressed then Flagged(|data|) else |data|, data + code, g, bpp, prefilter, 0)
  {
    hide Code;
    assert (data + code)[|data|..|data| + |code|] == code;
  }

  ghost predicate ByCodepoint(glyphs: seq<Glyph>) {
    forall i, j | 0 <= i < j < |glyphs| :: glyphs[i].codepoint <= glyphs[j].codepoint
  }

  /** The glyphs come sorted by code point. `None`: one has a code point above U+FFFF or is
      larger than 255 pixels. Entries are offsets while the data is shorter than 2 to the 31,
      which leaves the top bit for the flag. */
  method GeneratePack(glyphs: seq<Glyph>, bpp: nat, compress: bool) returns (r: Option<(seq<nat>, seq<byte>)>)
    requires Depth(bpp) && ByCodepoint(glyphs) && forall g <- glyphs :: ValidGlyph(g, bpp)
    ensures r.None? <==> exists g <- glyphs :: g.codepoint > 0xffff || (g.levels != [] && (g.width > 255 || g.height > 255))
    ensures r.Some? ==>
              var (rows, data) := r.value;
              && |rows| == |glyphs|
              && (|data| < 0x8000_0000 ==>
                    forall i | 0 <= i < |glyphs| :: glyphs[i].levels != [] ==> Stored(rows[i], data, glyphs[i], bpp, compress, 2))
  {
    hide Stored, ValidGlyph;
    var prefilter := compress;
    if glyphs != [] && glyphs[|glyphs| - 1].codepoint > 0xffff { return None; }
    assert forall i | 0 <= i < |glyphs| :: glyphs[i].codepoint <= glyphs[|glyphs| - 1].codepoint <= 0xffff;
    var data: seq<byte>, rows: seq<nat> := [], [];
    for k := 0 to |glyphs|
      invariant |rows| == k
      invariant forall i | 0 <= i < k :: glyphs[i].levels != [] ==> glyphs[i].width <= 255 && glyphs[i].height <= 255
      invariant |data| < 0x8000_0000 ==>
                  forall i | 0 <= i < k :: glyphs[i].levels != [] ==> Stored(rows[i], data, glyphs[i], bpp, prefilter, 0)
    {
      var g := glyphs[k];
      if g.levels == [] {
        rows := rows + [0];
      } else {
        var encoded, compressed := EncodePackGlyph(g, bpp, compress, prefilter);
        if g.width > 255 || g.height > 255 { return None; }
        var row := if compressed then Flagged(|data|) else |data|;
        if |data + encoded| < 0x8000_0000 {
          StoredHere(data, encoded, g, bpp, prefilter, compressed);
          forall i | 0 <= i < k && glyphs[i].levels != []
            ensures Stored(rows[i], data + encoded, glyphs[i], bpp, prefilter, 0)
          {
            StoredAppend(rows[i], data, encoded, glyphs[i], bpp, prefilter);
            StoredLess(rows[i], data + encoded, glyphs[i], bpp, prefilter, |encoded|);
          }
        }
        rows := rows + [row];
        data := data + encoded;
      }
    }
    var slack: seq<byte> := [0, 0];
    if |data + slack| < 0x8000_0000 {
      forall i | 0 <= i < |glyphs| && glyphs[i].levels != []
        ensures Stored(rows[i], data + slack, glyphs[i], bpp, prefilter, 2)
      {
        StoredAppend(rows[i], data, slack, glyphs[i], bpp, prefilter);
      }
    }
    r := Some((rows, data + slack));
  }

  // ----- decoding on the device

  lemma {:induction false} DecodeIndex(data: seq<byte>, bpp: nat, r: State, count: nat, i: nat)
    requires i < count
    ensures Decode(data, bpp, r, count)[i] == Next(data, bpp, After(data, bpp, r, i)).0
    ensures After(data, bpp, r, i + 1) == Next(data, bpp, After(data, bpp, r, i)).1
    decreases i
  {
    hide Next;
    if i > 0 {
      DecodeIndex(data, bpp, Next(data, bpp, r).1, count - 1, i - 1);
    } else {
      assert After(data, bpp, r, 1) == After(data, bpp, Next(data, bpp, r).1, 0);
    }
  }

  lemma {:induction false} PositionGrows(data: seq<byte>, bpp: nat, r: State, i: nat, n: nat)
    requires i <= n
    ensures After(data, bpp, r, i).pos <= After(data, bpp, r, n).pos
    decreases n
  {
    hide ReadBits;
    if i > 0 {
      PositionGrows(data, bpp, Next(data, bpp, r).1, i - 1, n - 1);
    } else if n > 0 {
      PositionGrows(data, bpp, Next(data, bpp, r).1, 0, n - 1);
    }
  }

  lemma {:induction false} RawIndex(data: seq<byte>, pos: nat, bpp: nat, count: nat, i: nat)
    requires i < count
    ensures |ReadRaw(data, pos, bpp, count)| == count
    ensures ReadRaw(data, pos, bpp, count)[i] == ReadBits(data, pos + i * bpp, bpp)
    decreases i
  {
    hide ReadBits;
    RawCount(data, pos, bpp, count);
    if i > 0 {
      RawIndex(data, pos + bpp, bpp, count - 1, i - 1);
      assert pos + i * bpp == pos + bpp + (i - 1) * bpp;
    }
  }

  lemma {:induction false} RawCount(data: seq<byte>, pos: nat, bpp: nat, count: nat)
    ensures |ReadRaw(data, pos, bpp, count)| == count
    decreases count
  {
    if count > 0 { RawCount(data, pos + bpp, bpp, count - 1); }
  }

  /** The reader stands before level `i` of `g`, and two bytes follow its code. */
  ghost predicate Reading(r: Reader, g: Glyph, bpp: nat, prefilter: bool, i: nat)
    requires Depth(bpp) && ValidGlyph(g, bpp)
    reads r
  {
    var code := Code(g, bpp, prefilter, r.compressed);
    && r.bpp == bpp && |code| + 2 <= |r.data| && r.data[..|code|] == code
    && if r.compressed then r.View() == After(r.data, bpp, START, i) && (r.state == Count ==> r.repeats > 0)
       else r.position == i * bpp
  }

  /** One level, as the pixel loop gets it: a level of the source. */
  method NextOf(r: Reader, ghost g: Glyph, bpp: nat, ghost prefilter: bool, ghost i: nat) returns (v: nat)
    requires Depth(bpp) && ValidGlyph(g, bpp) && i < |g.levels| && Reading(r, g, bpp, prefilter, i)
    modifies r
    ensures Reading(r, g, bpp, prefilter, i + 1)
    ensures v == if r.compressed then Source(g, prefilter)[i] else g.levels[i]
  {
    hide Next, PackLevels, Stream, RleBits, ReadBits, Decode, Below;
    ghost var code := Code(g, bpp, prefilter, r.compressed);
    ghost var after := r.data[|code|..];
    assert r.data == code + after;
    ghost var n := |g.levels|;
    if r.compressed {
      SourceBelow(g, prefilter, bpp);
      RleRoundTrip(Source(g, prefilter), bpp, after);
      DecodeIndex(r.data, bpp, START, n, i);
      PositionGrows(r.data, bpp, START, i + 1, n);
      StreamLength(RleBits(Source(g, prefilter), bpp));
      v := r.NextLevel();
    } else {
      PackLevelsCarry(g.levels, bpp, after);
      RawRoundTrip(r.data, 0, g.levels, bpp);
      RawIndex(r.data, 0, bpp, n, i);
      MulLe(i + 1, n, bpp);
      assert (i + 1) * bpp == i * bpp + bpp;
      v := r.NextRaw();
    }
  }

  lemma StreamLength(b: seq<bool>)
    ensures |b| <= 8 * |Stream(b)|
  {
  }

  /** `PackedFont::decode`, before the level is mapped to an opacity: from its entry in
      the table every glyph comes back, and no read leaves the pack's data. */
  method DecodeGlyph(row: nat, data: seq<byte>, ghost g: Glyph, width: nat, height: nat, bpp: nat, packPrefilter: bool)
    returns (out: seq<nat>)
    requires Depth(bpp) && ValidGlyph(g, bpp) && g.width == width <= 255 && g.height == height
    requires Stored(row, data, g, bpp, packPrefilter, 2)
    ensures out == g.levels
  {
    hide Code, Reading, Xor, ValidGlyph, Filtered;
    var compressed := row >= 0x8000_0000;
    var reader := new Reader(data[row % 0x8000_0000..], bpp, compressed);
    ReadingStarts(reader, row, data, g, bpp, packPrefilter);
    var prefilter := compressed && packPrefilter;
    var previous := NoRow(256);
    out := [];
    assert |g.levels| == width * height by { GlyphSize(g, bpp); }
    for y := 0 to height
      invariant |out| == y * width <= |g.levels| && out == g.levels[..|out|]
      invariant Reading(reader, g, bpp, packPrefilter, |out|) && reader.compressed == compressed
      invariant fresh(reader)
      invariant |previous| == 256
      invariant prefilter ==> forall x | 0 <= x < width :: previous[x] == Above(g.levels, width, |out| + x)
    {
      RowFits(width, height, y);
      ghost var row := |out|;
      for x := 0 to width
        invariant |out| == row + x && row + width <= |g.levels| && out == g.levels[..|out|]
        invariant Reading(reader, g, bpp, packPrefilter, |out|) && reader.compressed == compressed
        invariant fresh(reader)
        invariant |previous| == 256
        invariant prefilter ==> forall j | x <= j < width :: previous[j] == Above(g.levels, width, row + j)
        invariant prefilter ==> forall j | 0 <= j < x :: previous[j] == g.levels[row + j]
      {
        var level := NextOf(reader, g, bpp, packPrefilter, |out|);
        if prefilter {
          LevelBack(g.levels, width, height, |out|);
          level := Xor(level, previous[x]);
          previous := previous[x := level];
        }
        assert level == g.levels[|out|];
        out := out + [level];
      }
      assert |out| == (y + 1) * width;
    }
    assert height * width == |g.levels|;
    assert g.levels[..|out|] == g.levels;
  }

  lemma RowFits(w: nat, h: nat, y: nat)
    requires y < h
    ensures (y + 1) * w == y * w + w <= w * h
  {
    MulLe(y + 1, h, w);
    assert (y + 1) * w == y * w + w && h * w == w * h;
  }

  /** The level above undoes the filter. */
  lemma LevelBack(levels: seq<nat>, w: nat, h: nat, i: nat)
    requires |levels| == w * h && i < |levels|
    ensures Xor(Filtered(levels, w, h, NoRow(w))[i], Above(levels, w, i)) == levels[i]
  {
    FilteredAt(levels, w, h, NoRow(w), i);
    XorTwice(levels[i], Above(levels, w, i));
  }

  lemma GlyphSize(g: Glyph, bpp: nat)
    requires ValidGlyph(g, bpp)
    ensures |g.levels| == g.width * g.height
  {
  }

  lemma ReadingStarts(r: Reader, row: nat, data: seq<byte>, g: Glyph, bpp: nat, prefilter: bool)
    requires Depth(bpp) && ValidGlyph(g, bpp) && Stored(row, data, g, bpp, prefilter, 2)
    requires r.data == data[row % 0x8000_0000..] && r.bpp == bpp && r.compressed == (row >= 0x8000_0000)
    requires r.View() == START
    ensures Reading(r, g, bpp, prefilter, 0)
  {
    hide Code;
    var offset := row % 0x8000_0000;
    var code := Code(g, bpp, prefilter, r.compressed);
    assert data[offset..][..|code|] == data[offset..offset + |code|];
  }
}
