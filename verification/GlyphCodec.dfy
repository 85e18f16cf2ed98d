/** The loops that write and read the run-length code. */
module GlyphCodec {
  // `rle_encode` and `rle_decode` of tools/resgen/resgen.py, and the device's reader in
  // libs/ui_framework/src/packed_font.cpp.

  import opened Prelude
  import opened GlyphBits
  import opened GlyphRle

  /** Writing `v` in `n` bits moves it from what is left to what is written. */
  lemma Emit(acc: nat, bits: nat, v: nat, n: nat, rest: seq<bool>)
    ensures Bits(acc, bits) + (Bits(v, n) + rest) == Bits(Push(acc, v, n), bits + n) + rest
  {
    BitsOfPush(acc, v, bits, n);
  }

  lemma EmitFlag(acc: nat, bits: nat, flag: bool, rest: seq<bool>)
    ensures Bits(acc, bits) + ([flag] + rest) == Bits(Push(acc, if flag then 1 else 0, 1), bits + 1) + rest
  {
    var v := if flag then 1 else 0;
    assert Bits(v / 2, 0) == [];
    assert Bits(v, 1) == [flag];
    Emit(acc, bits, v, 1, rest);
  }

  /** What the encoder has yet to write. */
  ghost function Left(levels: seq<nat>, index: nat, previous: Option<nat>, repeats: nat, repeating: bool, bpp: nat): seq<bool>
    requires index <= |levels| && (repeating ==> previous.Some?)
  {
    if repeating then Repeats(levels[index..], previous.value, repeats, bpp)
    else Literals(levels[index..], previous, bpp)
  }

  lemma LeftLiteral(levels: seq<nat>, index: nat, previous: Option<nat>, bpp: nat)
    requires index < |levels|
    ensures var v := levels[index];
            Left(levels, index, previous, 0, false, bpp) ==
            Bits(v, bpp) + Left(levels, index + 1, Some(v), 0, previous == Some(v), bpp)
  {
    hide Bits;
    assert levels[index..][1..] == levels[index + 1..];
  }

  lemma LeftBreak(levels: seq<nat>, index: nat, v: nat, repeats: nat, bpp: nat)
    requires index < |levels| && levels[index] != v
    ensures Left(levels, index, Some(v), repeats, true, bpp) == [false] + Left(levels, index, Some(v), 0, false, bpp)
  {
    hide Literals;
  }

  lemma LeftRepeat(levels: seq<nat>, index: nat, v: nat, repeats: nat, bpp: nat)
    requires index < |levels| && levels[index] == v && repeats + 1 != 11
    ensures Left(levels, index, Some(v), repeats, true, bpp) == [true] + Left(levels, index + 1, Some(v), repeats + 1, true, bpp)
  {
    hide Literals, Counted;
    assert levels[index..][1..] == levels[index + 1..];
  }

  /** The eleventh repeat: the count, then the value it runs out on, if there is one. */
  lemma LeftCount(levels: seq<nat>, index: nat, v: nat, run: nat, bpp: nat)
    requires index < |levels| && levels[index] == v && run == RunLength(levels[index + 1..], v)
    ensures var length := if run + 1 < 63 then run + 1 else 63;
            var at := index + length;
            && at <= |levels|
            && Left(levels, index, Some(v), 10, true, bpp) == [true] + (Bits(length, 6) +
               if at < |levels| then Bits(levels[at], bpp) + Left(levels, at + 1, Some(levels[at]), 0, false, bpp)
               else Left(levels, at, Some(v), 0, false, bpp))
  {
    hide Bits, RunLength;
    var tail := levels[index + 1..];
    assert levels[index..][1..] == tail;
    var length := if run + 1 < 63 then run + 1 else 63;
    if length <= |tail| {
      assert tail[length..] == levels[index + length + 1..];
      assert tail[length - 1] == levels[index + length];
      assert Counted(tail, v, length, bpp) ==
             Bits(levels[index + length], bpp) + Left(levels, index + length + 1, Some(levels[index + length]), 0, false, bpp);
    } else {
      assert levels[index + length..] == [];
      LiteralsOfNothing(Some(v), bpp);
    }
  }

  lemma LiteralsOfNothing(previous: Option<nat>, bpp: nat)
    ensures Literals([], previous, bpp) == []
  {
  }

  method RleEncode(levels: seq<nat>, bpp: nat) returns (data: seq<byte>)
    requires Below(levels, bpp)
    ensures data == Stream(RleBits(levels, bpp))
  {
    hide Bits, Push, Left, RunLength;
    var acc: nat, bits: nat, total, index := 0, 0, |levels|, 0;
    var previous: Option<nat> := None;
    var repeats, repeating := 0, false;
    EncodeStarts(levels, bpp);
    while index < total
      invariant index <= total && (repeating ==> previous.Some? && repeats <= 10)
      invariant Bits(acc, bits) + Left(levels, index, previous, if repeating then repeats else 0, repeating, bpp) == RleBits(levels, bpp)
      decreases total - index, repeating
    {
      if !repeating {
        var value := levels[index];
        LeftLiteral(levels, index, previous, bpp);
        Emit(acc, bits, value, bpp, Left(levels, index + 1, Some(value), 0, previous == Some(value), bpp));
        acc, bits := Push(acc, value, bpp), bits + bpp;
        index := index + 1;
        repeating := previous == Some(value);
        repeats := 0;
        previous := Some(value);
      } else if levels[index] == previous.value {
        acc, bits, index, previous, repeats, repeating :=
          EncodeRepeat(levels, bpp, acc, bits, index, previous.value, repeats);
      } else {
        LeftBreak(levels, index, previous.value, repeats, bpp);
        EmitFlag(acc, bits, false, Left(levels, index, previous, 0, false, bpp));
        acc, bits := Push(acc, 0, 1), bits + 1;
        repeating := false;
      }
    }
    EncodeEnds(levels, previous, repeats, repeating, bpp);
    assert Bits(acc, bits) == RleBits(levels, bpp);
    var pad := Padding(bits);
    PadStream(acc, bits, pad);
    data := ToBytes(Push(acc, 0, pad), (bits + pad) / 8);
  }

  /** The branch of the encoder's loop that takes a repeat. */
  method EncodeRepeat(levels: seq<nat>, bpp: nat, acc0: nat, bits0: nat, index0: nat, v: nat, repeats0: nat)
    returns (acc: nat, bits: nat, index: nat, previous: Option<nat>, repeats: nat, repeating: bool)
    requires index0 < |levels| && levels[index0] == v && repeats0 <= 10
    requires Bits(acc0, bits0) + Left(levels, index0, Some(v), repeats0, true, bpp) == RleBits(levels, bpp)
    ensures index0 < index <= |levels| && (repeating ==> previous.Some? && repeats <= 10)
    ensures Bits(acc, bits) + Left(levels, index, previous, if repeating then repeats else 0, repeating, bpp) == RleBits(levels, bpp)
  {
    hide Bits, Push, Left, RunLength;
    previous, repeating := Some(v), true;
    acc, bits := Push(acc0, 1, 1), bits0 + 1;
    repeats, index := repeats0 + 1, index0 + 1;
    if repeats != 11 {
      LeftRepeat(levels, index0, v, repeats0, bpp);
      EmitFlag(acc0, bits0, true, Left(levels, index, previous, repeats, true, bpp));
      return;
    }
    var run := 0;
    RunSplit(levels, index, 0, v);
    while index + run < |levels| && levels[index + run] == v
      invariant index + run <= |levels|
      invariant RunLength(levels[index..], v) == run + RunLength(levels[index + run..], v)
    {
      RunSplit(levels, index, run, v);
      run := run + 1;
    }
    RunSplit(levels, index, run, v);
    LeftCount(levels, index0, v, run, bpp);
    var length := if run + 1 < 63 then run + 1 else 63;
    index := index + (length - 1);
    ghost var tail := if index < |levels|
                      then Bits(levels[index], bpp) + Left(levels, index + 1, Some(levels[index]), 0, false, bpp)
                      else Left(levels, index, previous, 0, false, bpp);
    EmitFlag(acc0, bits0, true, Bits(length, 6) + tail);
    Emit(acc, bits, length, 6, tail);
    acc, bits := Push(acc, length, 6), bits + 6;
    if index < |levels| {
      previous := Some(levels[index]);
      Emit(acc, bits, levels[index], bpp, Left(levels, index + 1, previous, 0, false, bpp));
      acc, bits := Push(acc, levels[index], bpp), bits + bpp;
      index := index + 1;
    }
    repeating := false;
  }

  lemma RunSplit(levels: seq<nat>, index: nat, run: nat, v: nat)
    requires index + run <= |levels|
    ensures RunLength(levels[index + run..], v) ==
            if index + run < |levels| && levels[index + run] == v then 1 + RunLength(levels[index + run + 1..], v) else 0
  {
    if index + run < |levels| {
      assert levels[index + run..][1..] == levels[index + run + 1..];
    }
  }

  lemma EncodeStarts(levels: seq<nat>, bpp: nat)
    ensures Bits(0, 0) + Left(levels, 0, None, 0, false, bpp) == RleBits(levels, bpp)
  {
    assert levels[0..] == levels;
    assert Bits(0, 0) == [];
  }

  lemma EncodeEnds(levels: seq<nat>, previous: Option<nat>, repeats: nat, repeating: bool, bpp: nat)
    requires repeating ==> previous.Some?
    ensures Left(levels, |levels|, previous, if repeating then repeats else 0, repeating, bpp) == []
  {
  }

  lemma PadStream(acc: nat, bits: nat, pad: nat)
    requires pad == Padding(bits)
    ensures ToBytes(Push(acc, 0, pad), (bits + pad) / 8) == Stream(Bits(acc, bits))
  {
    ToBytesIsPack(Push(acc, 0, pad), (bits + pad) / 8);
    BitsOfPush(acc, 0, bits, pad);
    ZeroBits(pad);
    assert 8 * ((bits + pad) / 8) == bits + pad;
  }

  lemma {:induction false} ZeroBits(n: nat)
    ensures Bits(0, n) == seq(n, _ => false)
  {
    if n > 0 {
      ZeroBits(n - 1);
      assert Bits(0, n) == Bits(0, n - 1) + [false];
    }
  }

  // ----- the Python decoder

  lemma DecodeStep(data: seq<byte>, bpp: nat, r: State, count: nat)
    ensures Decode(data, bpp, r, 0) == []
    ensures count > 0 ==>
              var (v, next) := Next(data, bpp, r); Decode(data, bpp, r, count) == [v] + Decode(data, bpp, next, count - 1)
  {
  }

  method RleDecode(data: seq<byte>, count: nat, bpp: nat) returns (out: seq<nat>)
    requires bpp >= 1
    ensures out == Decode(data, bpp, START, count)
  {
    hide ReadBits, Decode;
    out := [];
    var position, state, previous, repeats := 0, Single, 0, 0;
    ghost var r := START;
    for i := 0 to count
      invariant r == State(position, position != 0, previous, repeats, state)
      invariant (state != Single ==> position != 0) && (state == Count ==> repeats > 0)
      invariant out + Decode(data, bpp, r, count - i) == Decode(data, bpp, START, count)
    {
      ghost var here, step := r, Next(data, bpp, r);
      var value;
      if state == Single {
        var first := position == 0;
        value, position := Read(data, position, bpp);
        if !first && value == previous {
          state := Repeat;
          repeats := 0;
        }
        previous := value;
      } else if state == Repeat {
        repeats := repeats + 1;
        var bit;
        bit, position := Read(data, position, 1);
        if bit == 1 {
          value := previous;
          if repeats == 11 {
            repeats, position := Read(data, position, 6);
            if repeats != 0 {
              state := Count;
            } else {
              value, position := Read(data, position, bpp);
              previous := value;
              state := Single;
            }
          }
        } else {
          value, position := Read(data, position, bpp);
          previous := value;
          state := Single;
        }
      } else {
        value := previous;
        repeats := repeats - 1;
        if repeats == 0 {
          value, position := Read(data, position, bpp);
          previous := value;
          state := Single;
        }
      }
      r := step.1;
      assert value == step.0;
      DecodeStep(data, bpp, here, count - i);
      assert out + ([value] + Decode(data, bpp, r, count - i - 1)) == out + [value] + Decode(data, bpp, r, count - i - 1);
      out := out + [value];
    }
    DecodeStep(data, bpp, r, 0);
  }

  /** The two Python loops are inverse, for every level sequence of the depth and
      whatever bytes are appended. */
  method EncodeThenDecode(levels: seq<nat>, bpp: nat, after: seq<byte>) returns (out: seq<nat>)
    requires bpp >= 1 && Below(levels, bpp)
    ensures out == levels
  {
    var data := RleEncode(levels, bpp);
    RleRoundTrip(levels, bpp, after);
    out := RleDecode(data + after, |levels|, bpp);
  }

  // ----- the device's reader

  class Reader {
    const data: seq<byte>
    const bpp: nat
    const compressed: bool
    var position: nat
    var started: bool
    var previous: nat
    var repeats: nat
    var state: Mode

    constructor (data: seq<byte>, bpp: nat, compressed: bool)
      ensures this.data == data && this.bpp == bpp && this.compressed == compressed
      ensures View() == START
    {
      this.data, this.bpp, this.compressed := data, bpp, compressed;
      position, started, previous, repeats, state := 0, false, 0, 0, Single;
    }

    function View(): State
      reads this
    {
      State(position, started, previous, repeats, state)
    }

    /** The window holds three bytes, so two must follow the one the cursor is in. */
    method ReadWindow(count: nat) returns (v: nat)
      requires position / 8 + 2 < |data| && count <= 16
      modifies this`position
      ensures v == ReadBits(data, old(position), count) && position == old(position) + count
    {
      hide Window, Pow2, ReadBits;
      WindowReads(data, position, count);
      var byte, offset := position / 8, position % 8;
      var window := Window(data, byte);
      position := position + count;
      v := window / Pow2(24 - offset - count) % Pow2(count);
    }

    /** One level of a compressed glyph. The data goes on for two bytes after the last
        bit this level reads. */
    method NextLevel() returns (v: nat)
      requires 1 <= bpp <= 8 && compressed && (state == Count ==> repeats > 0)
      requires Next(data, bpp, View()).1.pos <= 8 * |data| - 16
      modifies this
      ensures Next(data, bpp, old(View())) == (v, View())
      ensures state == Count ==> repeats > 0
    {
      hide ReadBits;
      match state
      case Single =>
        v := ReadWindow(bpp);
        if started && v == previous {
          state := Repeat;
          repeats := 0;
        }
        started := true;
        previous := v;
      case Repeat =>
        repeats := repeats + 1;
        var bit := ReadWindow(1);
        if bit != 0 {
          FlagBelow(data, old(position));
          if repeats != 11 { return previous; }
          repeats := ReadWindow(6);
          if repeats != 0 {
            state := Count;
            return previous;
          }
        }
        v := ReadSingle();
      case Count =>
        repeats := repeats - 1;
        if repeats != 0 { return previous; }
        v := ReadSingle();
    }

    method ReadSingle() returns (v: nat)
      requires position / 8 + 2 < |data| && bpp <= 16
      modifies this
      ensures v == ReadBits(data, old(position), bpp)
      ensures View() == old(View()).(pos := old(position) + bpp, previous := v, mode := Single)
    {
      previous := ReadWindow(bpp);
      state := Single;
      v := previous;
    }

    /** One level of a glyph stored raw. */
    method NextRaw() returns (v: nat)
      requires 1 <= bpp <= 8 && !compressed && position + bpp <= 8 * |data| - 16
      modifies this
      ensures v == ReadBits(data, old(position), bpp) && position == old(position) + bpp
    {
      v := ReadWindow(bpp);
    }
  }

  lemma FlagBelow(data: seq<byte>, pos: nat)
    ensures ReadBits(data, pos, 1) < 2
  {
    assert ReadBits(data, pos, 0) == 0;
  }
}
