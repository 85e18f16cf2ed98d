/** The glyph run-length code of tools/resgen/resgen.py. */
module GlyphRle {
  import opened Prelude
  import opened GlyphBits

  // ----- the code as a bit sequence

  /** Length of the run of `v` at the front. */
  function RunLength(ls: seq<nat>, v: nat): (n: nat)
    ensures n <= |ls| && (forall i | 0 <= i < n :: ls[i] == v) && (n < |ls| ==> ls[n] != v)
  {
    if ls != [] && ls[0] == v then 1 + RunLength(ls[1..], v) else 0
  }

  /** Outside a repeat: a value costs `bpp` bits, and one equal to the previous value
      starts a repeat. */
  function Literals(ls: seq<nat>, previous: Option<nat>, bpp: nat): seq<bool>
    decreases |ls|, 1
  {
    if ls == [] then []
    else
      Bits(ls[0], bpp) +
      if previous == Some(ls[0]) then Repeats(ls[1..], ls[0], 0, bpp) else Literals(ls[1..], Some(ls[0]), bpp)
  }

  /** In a repeat of `v`, after `k` further repeats. */
  function Repeats(ls: seq<nat>, v: nat, k: nat, bpp: nat): seq<bool>
    decreases |ls|, 2
  {
    if ls == [] then []
    else if ls[0] != v then [false] + Literals(ls, Some(v), bpp)
    else if k + 1 != 11 then [true] + Repeats(ls[1..], v, k + 1, bpp)
    else
      var run := RunLength(ls[1..], v);
      var length := if run + 1 < 63 then run + 1 else 63;
      [true] + (Bits(length, 6) + Counted(ls[1..], v, length, bpp))
  }

  /** `n - 1` more values equal `v`, then one value is written out. */
  function Counted(ls: seq<nat>, v: nat, n: nat, bpp: nat): seq<bool>
    decreases |ls|, 1
  {
    if n == 0 || |ls| < n then []
    else Bits(ls[n - 1], bpp) + Literals(ls[n..], Some(ls[n - 1]), bpp)
  }

  function RleBits(levels: seq<nat>, bpp: nat): seq<bool> {
    Literals(levels, None, bpp)
  }

  // ----- the decoder as a state machine

  datatype Mode = Single | Repeat | Count

  datatype State = State(pos: nat, started: bool, previous: nat, repeats: nat, mode: Mode)

  const START := State(0, false, 0, 0, Single)

  function ReadLiteral(data: seq<byte>, bpp: nat, r: State, pos: nat): (nat, State) {
    var v := ReadBits(data, pos, bpp);
    (v, r.(pos := pos + bpp, previous := v, mode := Single))
  }

  /** One level, and the state after it. */
  function Next(data: seq<byte>, bpp: nat, r: State): (nat, State) {
    match r.mode
    case Single =>
      var v := ReadBits(data, r.pos, bpp);
      var next := r.(pos := r.pos + bpp, started := true, previous := v);
      (v, if r.started && v == r.previous then next.(mode := Repeat, repeats := 0) else next)
    case Repeat =>
      var k := r.repeats + 1;
      if ReadBits(data, r.pos, 1) == 1 then
        if k != 11 then (r.previous, r.(pos := r.pos + 1, repeats := k))
        else
          var c := ReadBits(data, r.pos + 1, 6);
          if c != 0 then (r.previous, r.(pos := r.pos + 7, repeats := c, mode := Count))
          else ReadLiteral(data, bpp, r.(repeats := 0), r.pos + 7)
      else ReadLiteral(data, bpp, r.(repeats := k), r.pos + 1)
    case Count =>
      var k := if r.repeats > 0 then r.repeats - 1 else 0;
      if k != 0 then (r.previous, r.(repeats := k))
      else ReadLiteral(data, bpp, r.(repeats := 0), r.pos)
  }

  function Decode(data: seq<byte>, bpp: nat, r: State, count: nat): (out: seq<nat>)
    ensures |out| == count
    decreases count
  {
    if count == 0 then []
    else
      var (v, next) := Next(data, bpp, r);
      [v] + Decode(data, bpp, next, count - 1)
  }

  /** The state after `count` levels. */
  function After(data: seq<byte>, bpp: nat, r: State, count: nat): State
    decreases count
  {
    if count == 0 then r else After(data, bpp, Next(data, bpp, r).1, count - 1)
  }

  // ----- the decoder follows the encoder

  /** Data that carries `b` from the reader on makes it produce `ls` and read all of `b`. */
  ghost predicate Follows(data: seq<byte>, bpp: nat, r: State, ls: seq<nat>, b: seq<bool>) {
    Decode(data, bpp, r, |ls|) == ls && After(data, bpp, r, |ls|).pos == r.pos + |b|
  }

  ghost predicate Below(ls: seq<nat>, bpp: nat) {
    forall i | 0 <= i < |ls| :: ls[i] < Pow2(bpp)
  }

  lemma ReadNumber(data: seq<byte>, pos: nat, v: nat, n: nat, rest: seq<bool>)
    requires v < Pow2(n) && Carries(data, pos, Bits(v, n) + rest)
    ensures ReadBits(data, pos, n) == v && Carries(data, pos + n, rest)
  {
    hide Bits, Value, BitAt, Carries, ReadBits, Pow2;
    CarriesSplit(data, pos, Bits(v, n), rest);
    ReadCarried(data, pos, Bits(v, n));
    ValueOfBits(v, n);
  }

  lemma ReadFlag(data: seq<byte>, pos: nat, flag: bool, rest: seq<bool>)
    requires Carries(data, pos, [flag] + rest)
    ensures ReadBits(data, pos, 1) == (if flag then 1 else 0) && Carries(data, pos + 1, rest)
  {
    CarriesSplit(data, pos, [flag], rest);
    assert [flag][0] == flag && BitAt(data, pos + 0) == [flag][0];
    assert ReadBits(data, pos, 0) == 0;
  }

  /** One more level in front. */
  lemma FollowsStep(data: seq<byte>, bpp: nat, r: State, next: State, ls: seq<nat>, b: seq<bool>, used: nat)
    requires ls != [] && Next(data, bpp, r) == (ls[0], next) && next.pos == r.pos + used && used <= |b|
    requires Follows(data, bpp, next, ls[1..], b[used..])
    ensures Follows(data, bpp, r, ls, b)
  {
  }

  lemma NothingFollows(data: seq<byte>, bpp: nat, r: State)
    ensures Follows(data, bpp, r, [], [])
  {
  }

  lemma {:induction false} LiteralsFollow(data: seq<byte>, bpp: nat, r: State, ls: seq<nat>, previous: Option<nat>)
    requires Below(ls, bpp) && r.mode == Single && r.started == previous.Some?
    requires previous.Some? ==> r.previous == previous.value
    requires Carries(data, r.pos, Literals(ls, previous, bpp))
    ensures Follows(data, bpp, r, ls, Literals(ls, previous, bpp))
    decreases |ls|, 1
  {
    hide Bits, BitAt, ReadBits, Carries, Follows, Repeats, Counted, RunLength, Pow2;
    NothingFollows(data, bpp, r);
    if ls != [] {
      var v, tail := ls[0], ls[1..];
      var b := Literals(ls, previous, bpp);
      var next := Next(data, bpp, r).1;
      var rest := if previous == Some(v) then Repeats(tail, v, 0, bpp) else Literals(tail, Some(v), bpp);
      ReadNumber(data, r.pos, v, bpp, rest);
      assert b[bpp..] == rest;
      if previous == Some(v) {
        RepeatsFollow(data, bpp, next, tail, v, 0);
      } else {
        LiteralsFollow(data, bpp, next, tail, Some(v));
      }
      FollowsStep(data, bpp, r, next, ls, b, bpp);
    }
  }

  lemma {:induction false} RepeatsFollow(data: seq<byte>, bpp: nat, r: State, ls: seq<nat>, v: nat, k: nat)
    requires Below(ls, bpp) && r.mode == Repeat && r.started && r.previous == v && r.repeats == k
    requires Carries(data, r.pos, Repeats(ls, v, k, bpp))
    ensures Follows(data, bpp, r, ls, Repeats(ls, v, k, bpp))
    decreases |ls|, 2
  {
    hide Bits, BitAt, ReadBits, Carries, Follows, Counted, RunLength, Literals, Pow2;
    NothingFollows(data, bpp, r);
    if ls != [] {
      if ls[0] != v {
        BreakFollows(data, bpp, r, ls, v, k);
      } else if k + 1 != 11 {
        var b, rest := Repeats(ls, v, k, bpp), Repeats(ls[1..], v, k + 1, bpp);
        ReadFlag(data, r.pos, true, rest);
        assert b[1..] == rest;
        var next := Next(data, bpp, r).1;
        RepeatsFollow(data, bpp, next, ls[1..], v, k + 1);
        FollowsStep(data, bpp, r, next, ls, b, 1);
      } else {
        CountStarts(data, bpp, r, ls, v, k);
      }
    }
  }

  /** A value that ends the repeat: a zero bit, then the value. */
  lemma BreakFollows(data: seq<byte>, bpp: nat, r: State, ls: seq<nat>, v: nat, k: nat)
    requires Below(ls, bpp) && r.mode == Repeat && r.started && r.previous == v && r.repeats == k
    requires ls != [] && ls[0] != v
    requires Carries(data, r.pos, Repeats(ls, v, k, bpp))
    ensures Follows(data, bpp, r, ls, Repeats(ls, v, k, bpp))
    decreases |ls|, 1
  {
    hide Bits, BitAt, ReadBits, Carries, Follows, Counted, RunLength, Pow2;
    var b, tail := Repeats(ls, v, k, bpp), Literals(ls[1..], Some(ls[0]), bpp);
    assert Literals(ls, Some(v), bpp) == Bits(ls[0], bpp) + tail;
    assert b == [false] + (Bits(ls[0], bpp) + tail);
    ReadFlag(data, r.pos, false, Bits(ls[0], bpp) + tail);
    ReadNumber(data, r.pos + 1, ls[0], bpp, tail);
    assert b[1 + bpp..] == tail;
    var next := Next(data, bpp, r).1;
    LiteralsFollow(data, bpp, next, ls[1..], Some(ls[0]));
    FollowsStep(data, bpp, r, next, ls, b, 1 + bpp);
  }

  lemma SixBits()
    ensures Pow2(6) == 64
  {
  }

  /** The eleventh repeat: a one bit and the count of what the run still holds. */
  lemma CountStarts(data: seq<byte>, bpp: nat, r: State, ls: seq<nat>, v: nat, k: nat)
    requires Below(ls, bpp) && r.mode == Repeat && r.started && r.previous == v && r.repeats == k
    requires ls != [] && ls[0] == v && k + 1 == 11
    requires Carries(data, r.pos, Repeats(ls, v, k, bpp))
    ensures Follows(data, bpp, r, ls, Repeats(ls, v, k, bpp))
    decreases |ls|, 1
  {
    hide Bits, BitAt, ReadBits, Carries, Follows, Counted, Literals, Pow2;
    var b := Repeats(ls, v, k, bpp);
    var run := RunLength(ls[1..], v);
    var length := if run + 1 < 63 then run + 1 else 63;
    var rest := Counted(ls[1..], v, length, bpp);
    SixBits();
    ReadFlag(data, r.pos, true, Bits(length, 6) + rest);
    ReadNumber(data, r.pos + 1, length, 6, rest);
    assert b[7..] == rest;
    var next := Next(data, bpp, r).1;
    CountedFollow(data, bpp, next, ls[1..], v, length);
    FollowsStep(data, bpp, r, next, ls, b, 7);
  }

  lemma CountedFollow(data: seq<byte>, bpp: nat, r: State, ls: seq<nat>, v: nat, n: nat)
    requires Below(ls, bpp) && r.mode == Count && r.started && r.previous == v && r.repeats == n
    requires 1 <= n <= |ls| + 1 && forall i | 0 <= i < n - 1 :: ls[i] == v
    requires Carries(data, r.pos, Counted(ls, v, n, bpp))
    ensures Follows(data, bpp, r, ls, Counted(ls, v, n, bpp))
    decreases |ls|, 0
  {
    hide Bits, BitAt, ReadBits, Carries, Follows, Repeats, RunLength, Pow2;
    NothingFollows(data, bpp, r);
    if ls != [] {
      var b, next := Counted(ls, v, n, bpp), Next(data, bpp, r).1;
      if n == 1 {
        var rest := Literals(ls[1..], Some(ls[0]), bpp);
        ReadNumber(data, r.pos, ls[0], bpp, rest);
        assert b[bpp..] == rest;
        LiteralsFollow(data, bpp, next, ls[1..], Some(ls[0]));
        FollowsStep(data, bpp, r, next, ls, b, bpp);
      } else {
        if n <= |ls| { assert ls[1..][n - 1..] == ls[n..]; }
        assert b[0..] == Counted(ls[1..], v, n - 1, bpp);
        CountedFollow(data, bpp, next, ls[1..], v, n - 1);
        FollowsStep(data, bpp, r, next, ls, b, 0);
      }
    }
  }

  /** Decoding undoes encoding, whatever bytes come after, and reads no further than
      the code. */
  lemma RleRoundTrip(levels: seq<nat>, bpp: nat, after: seq<byte>)
    requires Below(levels, bpp)
    ensures var data := Stream(RleBits(levels, bpp)) + after;
            && Decode(data, bpp, START, |levels|) == levels
            && After(data, bpp, START, |levels|).pos == |RleBits(levels, bpp)|
  {
    var data := Stream(RleBits(levels, bpp)) + after;
    CarriesStream(RleBits(levels, bpp), after);
    LiteralsFollow(data, bpp, START, levels, None);
  }

  // ----- size

  /** Half bits: `bpp` and a half for every level. */
  function Budget(n: nat, bpp: nat): nat {
    if n == 0 then 0 else Budget(n - 1, bpp) + 2 * bpp + 1
  }

  lemma {:induction false} BudgetSum(n: nat, bpp: nat)
    ensures Budget(n, bpp) == 2 * (n * bpp) + n
  {
    if n > 0 {
      BudgetSum(n - 1, bpp);
      assert n * bpp == (n - 1) * bpp + bpp;
    }
  }

  lemma {:induction false} BudgetGrows(n: nat, m: nat, bpp: nat)
    requires n <= m
    ensures Budget(n, bpp) <= Budget(m, bpp)
  {
    if n < m { BudgetGrows(n, m - 1, bpp); }
  }

  lemma LiteralsSize(ls: seq<nat>, previous: Option<nat>, bpp: nat)
    requires bpp >= 1
    ensures 2 * |Literals(ls, previous, bpp)| <= Budget(|ls|, bpp)
    decreases |ls|, 1
  {
    hide Bits, Repeats;
    if ls != [] {
      if previous == Some(ls[0]) {
        RepeatsSize(ls[1..], ls[0], 0, bpp);
      } else {
        LiteralsSize(ls[1..], Some(ls[0]), bpp);
      }
    }
  }

  /** Every repeat saves at least half a bit; eleven of them and the value that began
      the run pay for the six bits of the count. */
  lemma RepeatsSize(ls: seq<nat>, v: nat, k: nat, bpp: nat)
    requires bpp >= 1 && k <= 10
    ensures 2 * |Repeats(ls, v, k, bpp)| <= Budget(|ls|, bpp) + 1 + k
    decreases |ls|, 0
  {
    hide Bits, Counted, RunLength;
    if ls != [] {
      if ls[0] != v {
        var tail := Literals(ls[1..], Some(ls[0]), bpp);
        assert Literals(ls, Some(v), bpp) == Bits(ls[0], bpp) + tail;
        LiteralsSize(ls[1..], Some(ls[0]), bpp);
      } else if k + 1 != 11 {
        RepeatsSize(ls[1..], v, k + 1, bpp);
      } else {
        var run := RunLength(ls[1..], v);
        CountedSize(ls[1..], v, if run + 1 < 63 then run + 1 else 63, bpp);
      }
    }
  }

  lemma CountedSize(ls: seq<nat>, v: nat, n: nat, bpp: nat)
    requires bpp >= 1
    ensures 2 * |Counted(ls, v, n, bpp)| <= Budget(|ls|, bpp)
    decreases |ls|, 0
  {
    if 0 < n <= |ls| {
      LiteralsSize(ls[n..], Some(ls[n - 1]), bpp);
      BudgetGrows(|ls| - n + 1, |ls|, bpp);
    }
  }

  /** At most `bpp` and a half bits a level. */
  lemma RleSize(levels: seq<nat>, bpp: nat)
    requires bpp >= 1
    ensures 2 * |RleBits(levels, bpp)| <= 2 * (|levels| * bpp) + |levels|
  {
    LiteralsSize(levels, None, bpp);
    BudgetSum(|levels|, bpp);
  }
}
