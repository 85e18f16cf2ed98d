/** The rotated blit of bsp/src/bsp_display.c and idf_compat/src/ppa.c. */
module Blit {
  import opened Prelude

  datatype Rotation = R0 | R90 | R180 | R270

  datatype Format = RGB565 | RGB888

  function Bytes(f: Format): nat {
    if f == RGB565 then 2 else 3
  }

  /** The destination rectangle, inside a picture `picW` wide and `picH` high. */
  datatype Rect = Rect(x: nat, y: nat, w: nat, h: nat)

  predicate Inside(r: Rect, picW: nat, picH: nat) {
    r.x + r.w <= picW && r.y + r.h <= picH
  }

  // ----- where a pixel comes from

  /** `blit_rotated_cpu`: the packed source index of destination row `dr`, column `dc`. */
  function SourceIndex(rot: Rotation, w: nat, h: nat, dr: nat, dc: nat): int
    requires dr < h && dc < w
  {
    match rot
    case R90 => dc * h + (h - 1 - dr)
    case R270 => (w - 1 - dc) * h + dr
    case R180 => (h - 1 - dr) * w + (w - 1 - dc)
    case R0 => dr * w + dc
  }

  /** Width and height of the source picture. */
  function SourceSize(rot: Rotation, w: nat, h: nat): (nat, nat) {
    if rot == R90 || rot == R270 then (h, w) else (w, h)
  }

  /** `ppa_do_scale_rotate_mirror`: source coordinates of output coordinates. */
  function Unrotate(rot: Rotation, sw: nat, sh: nat, rx: nat, ry: nat): (nat, nat)
    requires if rot == R90 || rot == R270 then rx < sh && ry < sw else rx < sw && ry < sh
  {
    match rot
    case R90 => (sw - 1 - ry, rx)
    case R180 => (sw - 1 - rx, sh - 1 - ry)
    case R270 => (ry, sh - 1 - rx)
    case R0 => (rx, ry)
  }

  /** The place of (x, y) in a packed picture of width `w`. */
  function Index(x: nat, y: nat, w: nat): (p: int)
    ensures p >= 0
  {
    assert y * w >= 0;
    y * w + x
  }

  lemma IndexInPicture(x: nat, y: nat, w: nat, h: nat)
    requires x < w && y < h
    ensures Index(x, y, w) < h * w
  {
    SlotFits(y, h, w);
  }

  /** A packed picture has no two places with one index. */
  lemma IndexUnique(x: nat, y: nat, x': nat, y': nat, w: nat)
    requires x < w && x' < w
    ensures Index(x, y, w) == Index(x', y', w) <==> x == x' && y == y'
  {
    DivUnique(y * w + x, w, y, x);
    if y * w + x == y' * w + x' { DivUnique(y * w + x, w, y', x'); }
  }

  /** Both ways of finding the source pixel agree, and stay inside the source. */
  lemma PathsAgree(rot: Rotation, w: nat, h: nat, dr: nat, dc: nat)
    requires dr < h && dc < w
    ensures var (sw, sh) := SourceSize(rot, w, h);
            var (px, py) := Unrotate(rot, sw, sh, dc, dr);
            px < sw && py < sh && Index(px, py, sw) == SourceIndex(rot, w, h, dr, dc) < w * h
  {
    var (sw, sh) := SourceSize(rot, w, h);
    var (px, py) := Unrotate(rot, sw, sh, dc, dr);
    IndexInPicture(px, py, sw, sh);
    assert w * h == h * w;
  }

  function Inverse(rot: Rotation): Rotation {
    match rot
    case R90 => R270
    case R270 => R90
    case R180 => R180
    case R0 => R0
  }

  /** Turning a picture and turning it back finds every pixel at its old place. */
  lemma TurnBack(rot: Rotation, w: nat, h: nat, dr: nat, dc: nat)
    requires dr < h && dc < w
    ensures var (sw, sh) := SourceSize(rot, w, h);
            var (px, py) := Unrotate(rot, sw, sh, dc, dr);
            px < sw && py < sh && SourceIndex(Inverse(rot), sw, sh, py, px) == Index(dc, dr, w)
  {
  }

  /** Turning by 90 is counter-clockwise: the source begins in the lower left-hand corner, what was to
      the right lies above, and what was below lies to the right. */
  lemma CounterClockwise(w: nat, h: nat, dr: nat, dc: nat)
    requires dr < h && dc < w
    ensures SourceIndex(R90, w, h, h - 1, 0) == 0
    ensures dr >= 1 ==> SourceIndex(R90, w, h, dr - 1, dc) == SourceIndex(R90, w, h, dr, dc) + 1
    ensures dc + 1 < w ==> SourceIndex(R90, w, h, dr, dc + 1) == SourceIndex(R90, w, h, dr, dc) + h
  {
    assert (dc + 1) * h == dc * h + h;
  }

  /** A half turn is two quarter turns, 270 degrees are three, and four change nothing. */
  lemma QuarterTurns(w: nat, h: nat, x: nat, y: nat)
    requires x < w && y < h
    ensures var (x1, y1) := Unrotate(R90, h, w, x, y);
            && x1 < h && y1 < w
            && var (x2, y2) := Unrotate(R90, w, h, x1, y1);
            && x2 < w && y2 < h && (x2, y2) == Unrotate(R180, w, h, x, y)
            && var (x3, y3) := Unrotate(R90, h, w, x2, y2);
            && x3 < h && y3 < w && (x3, y3) == Unrotate(R270, h, w, x, y)
            && Unrotate(R90, w, h, x3, y3) == (x, y) == Unrotate(R0, w, h, x, y)
  {
  }

  /** Every source pixel is drawn exactly once. */
  lemma SourceIndexUnique(rot: Rotation, w: nat, h: nat, dr: nat, dc: nat, er: nat, ec: nat)
    requires dr < h && dc < w && er < h && ec < w
    ensures SourceIndex(rot, w, h, dr, dc) == SourceIndex(rot, w, h, er, ec) <==> dr == er && dc == ec
  {
    var (sw, sh) := SourceSize(rot, w, h);
    var (px, py) := Unrotate(rot, sw, sh, dc, dr);
    var (qx, qy) := Unrotate(rot, sw, sh, ec, er);
    PathsAgree(rot, w, h, dr, dc);
    PathsAgree(rot, w, h, er, ec);
    IndexUnique(px, py, qx, qy, sw);
  }

  // ----- pixels through the PPA

  function Scale5(v: nat): nat { (v * 255 + 15) / 31 }

  function Scale6(v: nat): nat { (v * 255 + 31) / 63 }

  function To5(v: nat): nat { (v * 31 + 127) / 255 }

  function To6(v: nat): nat { (v * 63 + 127) / 255 }

  /** Widening a channel to 8 bits and narrowing it again changes nothing. */
  lemma ChannelRoundTrip(v: nat)
    ensures v < 32 ==> To5(Scale5(v)) == v && Scale5(v) < 256
    ensures v < 64 ==> To6(Scale6(v)) == v && Scale6(v) < 256
  {
  }

  datatype Color = Color(r: nat, g: nat, b: nat)

  function GetPixel(f: Format, px: seq<byte>): Color
    requires |px| == Bytes(f)
  {
    match f
    case RGB888 => Color(px[2], px[1], px[0])
    case RGB565 =>
      var v: nat := px[0] + 256 * (px[1] as nat);
      Color(Scale5(v / 2048), Scale6(v / 32 % 64), Scale5(v % 32))
  }

  function PutPixel(f: Format, c: Color): (px: seq<byte>)
    requires c.r < 256 && c.g < 256 && c.b < 256
    ensures |px| == Bytes(f)
  {
    match f
    case RGB888 => [c.b, c.g, c.r]
    case RGB565 =>
      NarrowFits(c);
      var v := To5(c.r) * 2048 + To6(c.g) * 32 + To5(c.b);
      [v % 256, v / 256]
  }

  lemma NarrowFits(c: Color)
    requires c.r < 256 && c.g < 256 && c.b < 256
    ensures To5(c.r) < 32 && To6(c.g) < 64 && To5(c.b) < 32
  {
  }

  lemma WordFields(v: nat)
    requires v < 0x1_0000
    ensures v / 2048 < 32 && v / 32 % 64 < 64 && v % 32 < 32
    ensures v / 2048 * 2048 + v / 32 % 64 * 32 + v % 32 == v
  {
  }

  lemma WordBytes(lo: byte, hi: byte)
    ensures var v: nat := lo + 256 * (hi as nat); v < 0x1_0000 && v % 256 == lo && v / 256 == hi
  {
  }

  /** A pixel read as a color and written in the same format keeps its bytes. */
  method ThroughPpa(f: Format, px: seq<byte>) returns (out: seq<byte>)
    requires |px| == Bytes(f)
    ensures out == px
  {
    hide Scale5, Scale6, To5, To6;
    if f == RGB565 {
      var v: nat := px[0] + 256 * (px[1] as nat);
      WordBytes(px[0], px[1]);
      WordFields(v);
      ChannelRoundTrip(v / 2048);
      ChannelRoundTrip(v / 32 % 64);
      ChannelRoundTrip(v % 32);
    }
    var c := GetPixel(f, px);
    out := PutPixel(f, c);
  }

  // ----- the picture drawn

  /** A buffer is its pixels, each the bytes of one memcpy. */
  type Pixel = seq<byte>

  /** The destination, `picW * picH` pixels, and the packed source. */
  predicate Fits(dst: seq<Pixel>, src: seq<Pixel>, picW: nat, picH: nat, r: Rect) {
    |dst| == picH * picW && |src| == r.w * r.h && Inside(r, picW, picH)
  }

  function DstPixel(dst: seq<Pixel>, picW: nat, picH: nat, x: nat, y: nat): Pixel
    requires |dst| == picH * picW && x < picW && y < picH
  {
    IndexInPicture(x, y, picW, picH);
    dst[Index(x, y, picW)]
  }

  function SrcPixel(src: seq<Pixel>, rot: Rotation, r: Rect, dr: nat, dc: nat): Pixel
    requires |src| == r.w * r.h && dr < r.h && dc < r.w
  {
    PathsAgree(rot, r.w, r.h, dr, dc);
    src[SourceIndex(rot, r.w, r.h, dr, dc)]
  }

  predicate InRect(r: Rect, x: nat, y: nat) {
    r.x <= x < r.x + r.w && r.y <= y < r.y + r.h
  }

  /** Whether the pixel at (x, y) is drawn once rows before `dr` and columns before `dc` of
      row `dr` are. */
  predicate Reached(r: Rect, dr: nat, dc: nat, x: nat, y: nat) {
    InRect(r, x, y) && (y - r.y < dr || (y - r.y == dr && x - r.x < dc))
  }

  function Wanted(was: seq<Pixel>, src: seq<Pixel>, picW: nat, picH: nat, rot: Rotation, r: Rect,
                  dr: nat, dc: nat, x: nat, y: nat): Pixel
    requires Fits(was, src, picW, picH, r) && x < picW && y < picH
  {
    if Reached(r, dr, dc, x, y) then SrcPixel(src, rot, r, y - r.y, x - r.x) else DstPixel(was, picW, picH, x, y)
  }

  /** `now` is `was` with the part of the rectangle reached drawn over it. */
  predicate Drawn(now: seq<Pixel>, was: seq<Pixel>, src: seq<Pixel>, picW: nat, picH: nat, rot: Rotation, r: Rect,
                  dr: nat, dc: nat)
  {
    && Fits(was, src, picW, picH, r) && |now| == |was|
    && forall x, y | 0 <= x < picW && 0 <= y < picH ::
         DstPixel(now, picW, picH, x, y) == Wanted(was, src, picW, picH, rot, r, dr, dc, x, y)
  }

  /** The picture asked for: inside the rectangle the turned source, outside what was
      there before. */
  predicate Blitted(now: seq<Pixel>, was: seq<Pixel>, src: seq<Pixel>, picW: nat, picH: nat, rot: Rotation, r: Rect) {
    && Fits(was, src, picW, picH, r) && |now| == |was|
    && forall x, y | 0 <= x < picW && 0 <= y < picH ::
         DstPixel(now, picW, picH, x, y) ==
         if InRect(r, x, y) then SrcPixel(src, rot, r, y - r.y, x - r.x) else DstPixel(was, picW, picH, x, y)
  }

  lemma AllRowsDrawn(now: seq<Pixel>, was: seq<Pixel>, src: seq<Pixel>, picW: nat, picH: nat, rot: Rotation, r: Rect)
    requires Drawn(now, was, src, picW, picH, rot, r, r.h, 0)
    ensures Blitted(now, was, src, picW, picH, rot, r)
  {
    hide SrcPixel, DstPixel;
    forall x, y | 0 <= x < picW && 0 <= y < picH
      ensures DstPixel(now, picW, picH, x, y) ==
              if InRect(r, x, y) then SrcPixel(src, rot, r, y - r.y, x - r.x) else DstPixel(was, picW, picH, x, y)
    {
      assert DstPixel(now, picW, picH, x, y) == Wanted(was, src, picW, picH, rot, r, r.h, 0, x, y);
    }
  }

  /** The picture is fixed by what was there, the source and the turn, so any two ways of
      drawing it leave the same buffer. */
  lemma BlitIsUnique(a: seq<Pixel>, b: seq<Pixel>, was: seq<Pixel>, src: seq<Pixel>, picW: nat, picH: nat, rot: Rotation, r: Rect)
    requires Blitted(a, was, src, picW, picH, rot, r) && Blitted(b, was, src, picW, picH, rot, r)
    ensures a == b
  {
    hide SrcPixel, SourceIndex;
    forall p | 0 <= p < |a| ensures a[p] == b[p] {
      var x, y := Place(p, picW, picH);
      assert DstPixel(a, picW, picH, x, y) == DstPixel(b, picW, picH, x, y);
    }
  }

  lemma Place(p: nat, w: nat, h: nat) returns (x: nat, y: nat)
    requires p < h * w
    ensures x < w && y < h && Index(x, y, w) == p
  {
    if h == 0 {
      assert false;
    } else if p >= (h - 1) * w {
      x, y := p - (h - 1) * w, h - 1;
      assert h * w == (h - 1) * w + w;
    } else {
      x, y := Place(p, w, h - 1);
    }
  }

  lemma NothingDrawn(was: seq<Pixel>, src: seq<Pixel>, picW: nat, picH: nat, rot: Rotation, r: Rect)
    requires Fits(was, src, picW, picH, r)
    ensures Drawn(was, was, src, picW, picH, rot, r, 0, 0)
  {
  }

  /** One more pixel. */
  lemma DrawPixel(now: seq<Pixel>, was: seq<Pixel>, src: seq<Pixel>, picW: nat, picH: nat, rot: Rotation, r: Rect,
                  dr: nat, dc: nat)
    requires Drawn(now, was, src, picW, picH, rot, r, dr, dc) && dr < r.h && dc < r.w
    ensures var at := Index(r.x + dc, r.y + dr, picW);
            at < |now| && Drawn(now[at := SrcPixel(src, rot, r, dr, dc)], was, src, picW, picH, rot, r, dr, dc + 1)
  {
    hide SrcPixel, Index;
    var at := Index(r.x + dc, r.y + dr, picW);
    IndexInPicture(r.x + dc, r.y + dr, picW, picH);
    var next := now[at := SrcPixel(src, rot, r, dr, dc)];
    forall x, y | 0 <= x < picW && 0 <= y < picH
      ensures DstPixel(next, picW, picH, x, y) == Wanted(was, src, picW, picH, rot, r, dr, dc + 1, x, y)
    {
      IndexInPicture(x, y, picW, picH);
      IndexUnique(x, y, r.x + dc, r.y + dr, picW);
      assert DstPixel(now, picW, picH, x, y) == Wanted(was, src, picW, picH, rot, r, dr, dc, x, y);
    }
  }

  /** A finished row is the start of the next one. */
  lemma NextRow(now: seq<Pixel>, was: seq<Pixel>, src: seq<Pixel>, picW: nat, picH: nat, rot: Rotation, r: Rect, dr: nat)
    requires Drawn(now, was, src, picW, picH, rot, r, dr, r.w) && dr < r.h
    ensures Drawn(now, was, src, picW, picH, rot, r, dr + 1, 0)
  {
    hide SrcPixel, DstPixel;
    forall x, y | 0 <= x < picW && 0 <= y < picH
      ensures Wanted(was, src, picW, picH, rot, r, dr + 1, 0, x, y) == Wanted(was, src, picW, picH, rot, r, dr, r.w, x, y)
    {
    }
  }

  // ----- the loops

  /** `blit_rotated_cpu` */
  method BlitCpu(dst: array<Pixel>, picW: nat, picH: nat, r: Rect, src: seq<Pixel>, rot: Rotation)
    requires Fits(dst[..], src, picW, picH, r)
    modifies dst
    ensures Blitted(dst[..], old(dst[..]), src, picW, picH, rot, r)
  {
    hide Drawn, SourceIndex, Index, Blitted;
    ghost var was := dst[..];
    NothingDrawn(was, src, picW, picH, rot, r);
    var dr := 0;
    while dr < r.h
      invariant 0 <= dr <= r.h && Drawn(dst[..], was, src, picW, picH, rot, r, dr, 0)
    {
      var dc := 0;
      while dc < r.w
        invariant 0 <= dc <= r.w && Drawn(dst[..], was, src, picW, picH, rot, r, dr, dc)
      {
        PathsAgree(rot, r.w, r.h, dr, dc);
        DrawPixel(dst[..], was, src, picW, picH, rot, r, dr, dc);
        var at := Index(r.x + dc, r.y + dr, picW);
        ghost var next := dst[..][at := SrcPixel(src, rot, r, dr, dc)];
        dst[at] := src[SourceIndex(rot, r.w, r.h, dr, dc)];
        assert dst[..] == next;
        dc := dc + 1;
      }
      NextRow(dst[..], was, src, picW, picH, rot, r, dr);
      dr := dr + 1;
    }
    AllRowsDrawn(dst[..], was, src, picW, picH, rot, r);
  }

  /** `ppa_do_scale_rotate_mirror` at scale 1 without mirroring, as `blit_rotated_ppa` sets
      it up: one format on both sides, the block at the rectangle's origin. */
  method BlitPpa(dst: array<Pixel>, picW: nat, picH: nat, f: Format, r: Rect, src: seq<Pixel>, rot: Rotation)
    requires Fits(dst[..], src, picW, picH, r) && forall i | 0 <= i < |src| :: |src[i]| == Bytes(f)
    modifies dst
    ensures Blitted(dst[..], old(dst[..]), src, picW, picH, rot, r)
  {
    hide Drawn, SourceIndex, GetPixel, PutPixel, Unrotate, Index, Blitted;
    ghost var was := dst[..];
    var (sw, sh) := SourceSize(rot, r.w, r.h);
    NothingDrawn(was, src, picW, picH, rot, r);
    var oy := 0;
    while oy < r.h
      invariant 0 <= oy <= r.h && Drawn(dst[..], was, src, picW, picH, rot, r, oy, 0)
    {
      var ox := 0;
      while ox < r.w
        invariant 0 <= ox <= r.w && Drawn(dst[..], was, src, picW, picH, rot, r, oy, ox)
      {
        PathsAgree(rot, r.w, r.h, oy, ox);
        DrawPixel(dst[..], was, src, picW, picH, rot, r, oy, ox);
        var (x, y) := Unrotate(rot, sw, sh, ox, oy);
        var at := Index(r.x + ox, r.y + oy, picW);
        ghost var next := dst[..][at := SrcPixel(src, rot, r, oy, ox)];
        var bytes := src[Index(x, y, sw)];
        var drawn := ThroughPpa(f, bytes);
        dst[at] := drawn;
        assert dst[..] == next;
        ox := ox + 1;
      }
      NextRow(dst[..], was, src, picW, picH, rot, r, oy);
      oy := oy + 1;
    }
    AllRowsDrawn(dst[..], was, src, picW, picH, rot, r);
  }

  /** One row copied whole. */
  lemma DrawRow(now: seq<Pixel>, next: seq<Pixel>, was: seq<Pixel>, src: seq<Pixel>, picW: nat, picH: nat, r: Rect, dr: nat)
    requires Drawn(now, was, src, picW, picH, R0, r, dr, 0) && dr < r.h && |next| == |now|
    requires var to, from := Index(r.x, r.y + dr, picW), Index(0, dr, r.w);
             && to + r.w <= |now| && from + r.w <= |src|
             && forall p | 0 <= p < |now| :: next[p] == if to <= p < to + r.w then src[from + (p - to)] else now[p]
    ensures Drawn(next, was, src, picW, picH, R0, r, dr + 1, 0)
  {
    var to := Index(r.x, r.y + dr, picW);
    forall x, y | 0 <= x < picW && 0 <= y < picH
      ensures DstPixel(next, picW, picH, x, y) == Wanted(was, src, picW, picH, R0, r, dr + 1, 0, x, y)
    {
      var p := Index(x, y, picW);
      IndexInPicture(x, y, picW, picH);
      assert DstPixel(now, picW, picH, x, y) == Wanted(was, src, picW, picH, R0, r, dr, 0, x, y);
      if to <= p < to + r.w { IndexUnique(x, y, r.x + (p - to), r.y + dr, picW); }
    }
  }

  lemma RowFits(r: Rect, picW: nat, picH: nat, dr: nat)
    requires Inside(r, picW, picH) && dr < r.h && r.w > 0
    ensures Index(r.x, r.y + dr, picW) + r.w <= picH * picW && Index(0, dr, r.w) + r.w <= r.w * r.h
  {
    SlotFits(r.y + dr, picH, picW);
    SlotFits(dr, r.h, r.w);
    assert r.w * r.h == r.h * r.w;
  }

  /** The row copies of `bsp_blit_rotated` for an unturned picture. */
  method BlitRows(dst: array<Pixel>, picW: nat, picH: nat, r: Rect, src: seq<Pixel>)
    requires Fits(dst[..], src, picW, picH, r) && r.w > 0
    modifies dst
    ensures Blitted(dst[..], old(dst[..]), src, picW, picH, R0, r)
  {
    hide Drawn, Index, Blitted;
    ghost var was := dst[..];
    NothingDrawn(was, src, picW, picH, R0, r);
    var row := 0;
    while row < r.h
      invariant 0 <= row <= r.h && Drawn(dst[..], was, src, picW, picH, R0, r, row, 0)
    {
      ghost var now := dst[..];
      RowFits(r, picW, picH, row);
      var to, from := Index(r.x, r.y + row, picW), Index(0, row, r.w);
      forall c | 0 <= c < r.w { dst[to + c] := src[from + c]; }
      DrawRow(now, dst[..], was, src, picW, picH, r, row) by {
        forall p | 0 <= p < |now| ensures dst[p] == if to <= p < to + r.w then src[from + (p - to)] else now[p] {
          if to <= p < to + r.w { assert p == to + (p - to); }
        }
      }
      row := row + 1;
    }
    AllRowsDrawn(dst[..], was, src, picW, picH, R0, r);
  }

  /** `bsp_blit_rotated` between equal formats: the picture does not depend on whether the
      PPA takes the job. */
  method BlitRotated(dst: array<Pixel>, picW: nat, picH: nat, f: Format, r: Rect, src: seq<Pixel>, rot: Rotation,
                     async: bool, ppaAccepts: bool)
    requires Fits(dst[..], src, picW, picH, r) && forall i | 0 <= i < |src| :: |src[i]| == Bytes(f)
    modifies dst
    ensures Blitted(dst[..], old(dst[..]), src, picW, picH, rot, r)
  {
    hide SourceIndex, Index, DstPixel, SrcPixel;
    if r.w == 0 || r.h == 0 { return; }
    if (async || rot != R0) && ppaAccepts {
      BlitPpa(dst, picW, picH, f, r, src, rot);
    } else if rot == R0 {
      BlitRows(dst, picW, picH, r, src);
    } else {
      BlitCpu(dst, picW, picH, r, src, rot);
    }
  }
}
