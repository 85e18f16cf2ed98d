/** The run-length code of tools/resgen on a run of one level. */
module GlyphRuns {
  // The device's reader is a fixed decoder, so these bits are not the encoder's to choose.

  import opened Prelude
  import opened GlyphBits
  import opened GlyphRle

  function Same(v: nat, n: nat): (s: seq<nat>)
    ensures |s| == n && forall i | 0 <= i < n :: s[i] == v
  {
    seq(n, _ => v)
  }

  function Ones(n: nat): (s: seq<bool>)
    ensures |s| == n && forall i | 0 <= i < n :: s[i]
  {
    seq(n, _ => true)
  }

  lemma SameTail(v: nat, n: nat, tail: seq<nat>)
    requires n >= 1
    ensures (Same(v, n) + tail)[0] == v && (Same(v, n) + tail)[1..] == Same(v, n - 1) + tail
  {
  }

  /** A one for every further repeat up to the tenth. */
  lemma {:induction false} OnesForRepeats(v: nat, n: nat, k: nat, tail: seq<nat>, bpp: nat)
    requires k + n <= 10
    ensures Repeats(Same(v, n) + tail, v, k, bpp) == Ones(n) + Repeats(tail, v, k + n, bpp)
    decreases n
  {
    hide Literals, Counted, RunLength;
    if n == 0 {
      assert Same(v, 0) + tail == tail;
      assert Ones(0) + Repeats(tail, v, k, bpp) == Repeats(tail, v, k, bpp);
    } else {
      SameTail(v, n, tail);
      OnesForRepeats(v, n - 1, k + 1, tail, bpp);
      assert [true] + Ones(n - 1) == Ones(n);
    }
  }

  lemma {:induction false} RunOfSame(v: nat, n: nat, tail: seq<nat>)
    requires tail != [] ==> tail[0] != v
    ensures RunLength(Same(v, n) + tail, v) == n
  {
    if n == 0 {
      assert Same(v, 0) + tail == tail;
    } else {
      SameTail(v, n, tail);
      RunOfSame(v, n - 1, tail);
    }
  }

  /** The eleventh repeat is followed by six bits that count the rest of the run and the level
      behind it, 63 at most. */
  lemma CountForRest(v: nat, n: nat, tail: seq<nat>, bpp: nat)
    requires tail != [] ==> tail[0] != v
    ensures Repeats(Same(v, n + 1) + tail, v, 10, bpp) ==
            if n <= 62 then [true] + (Bits(n + 1, 6) + Outside(tail, bpp))
            else [true] + (Bits(63, 6) + (Bits(v, bpp) + Literals(Same(v, n - 63) + tail, Some(v), bpp)))
  {
    hide Literals, RunLength, Bits;
    SameTail(v, n + 1, tail);
    RunOfSame(v, n, tail);
    var ls := Same(v, n) + tail;
    if n <= 62 {
      if tail != [] { assert ls[n] == tail[0] && ls[n + 1..] == tail[1..]; }
    } else {
      assert ls[62] == v && ls[63..] == Same(v, n - 63) + tail;
    }
  }

  /** The level behind a counted run is written out. */
  function Outside(tail: seq<nat>, bpp: nat): seq<bool> {
    if tail == [] then [] else Bits(tail[0], bpp) + Literals(tail[1..], Some(tail[0]), bpp)
  }

  /** The level behind a run that was not counted is announced by a zero. */
  function Broken(v: nat, tail: seq<nat>, bpp: nat): seq<bool> {
    if tail == [] then [] else [false] + Literals(tail, Some(v), bpp)
  }

  /** `n` times the level `v` at the start of a glyph: two copies of it, a one for each of the next
      eleven, and then a six-bit count, which stands for 75 levels at most. */
  lemma RunCode(v: nat, n: nat, tail: seq<nat>, bpp: nat)
    requires n >= 1 && (tail != [] ==> tail[0] != v)
    ensures n == 1 ==> RleBits(Same(v, n) + tail, bpp) == Bits(v, bpp) + Literals(tail, Some(v), bpp)
    ensures 2 <= n <= 12 ==>
              RleBits(Same(v, n) + tail, bpp) == Bits(v, bpp) + (Bits(v, bpp) + (Ones(n - 2) + Broken(v, tail, bpp)))
    ensures 13 <= n <= 75 ==>
              RleBits(Same(v, n) + tail, bpp) ==
              Bits(v, bpp) + (Bits(v, bpp) + (Ones(11) + (Bits(n - 12, 6) + Outside(tail, bpp))))
    ensures n >= 76 ==>
              RleBits(Same(v, n) + tail, bpp) ==
              Bits(v, bpp) + (Bits(v, bpp) + (Ones(11) + (Bits(63, 6) +
                (Bits(v, bpp) + Literals(Same(v, n - 76) + tail, Some(v), bpp)))))
  {
    hide Bits, RunLength, Counted, Repeats;
    SameTail(v, n, tail);
    if n == 1 {
      assert Same(v, 0) + tail == tail;
    } else {
      LiteralTwice(v, Same(v, n - 2) + tail, bpp);
      assert Same(v, n) + tail == [v] + ([v] + (Same(v, n - 2) + tail));
      if n <= 12 {
        OnesForRepeats(v, n - 2, 0, tail, bpp);
        RepeatsEnd(v, n - 2, tail, bpp);
      } else {
        LongRun(v, n - 13, tail, bpp);
      }
    }
  }

  lemma LongRun(v: nat, n: nat, tail: seq<nat>, bpp: nat)
    requires tail != [] ==> tail[0] != v
    ensures Repeats(Same(v, n + 11) + tail, v, 0, bpp) ==
            if n <= 62 then Ones(11) + (Bits(n + 1, 6) + Outside(tail, bpp))
            else Ones(11) + (Bits(63, 6) + (Bits(v, bpp) + Literals(Same(v, n - 63) + tail, Some(v), bpp)))
  {
    hide Bits, RunLength, Counted, Repeats, Literals;
    OnesForRepeats(v, 10, 0, Same(v, n + 1) + tail, bpp);
    assert Same(v, n + 11) + tail == Same(v, 10) + (Same(v, n + 1) + tail);
    CountForRest(v, n, tail, bpp);
    OneMore(Bits(n + 1, 6) + Outside(tail, bpp));
    if n > 62 { OneMore(Bits(63, 6) + (Bits(v, bpp) + Literals(Same(v, n - 63) + tail, Some(v), bpp))); }
  }

  lemma OneMore(rest: seq<bool>)
    ensures Ones(10) + ([true] + rest) == Ones(11) + rest
  {
  }

  lemma LiteralTwice(v: nat, rest: seq<nat>, bpp: nat)
    ensures Literals([v] + ([v] + rest), None, bpp) == Bits(v, bpp) + (Bits(v, bpp) + Repeats(rest, v, 0, bpp))
  {
    hide Repeats, Bits;
    var ls := [v] + ([v] + rest);
    assert ls[1..] == [v] + rest && ([v] + rest)[1..] == rest;
    assert Literals(ls[1..], Some(v), bpp) == Bits(v, bpp) + Repeats(rest, v, 0, bpp);
  }

  lemma RepeatsEnd(v: nat, k: nat, tail: seq<nat>, bpp: nat)
    requires tail != [] ==> tail[0] != v
    ensures Repeats(tail, v, k, bpp) == Broken(v, tail, bpp)
  {
    hide Literals, Counted, Bits;
  }
}
