/** The character maps of tools/resgen/resgen.py and lookups in them. */
module FontCmaps {
  import opened Prelude

  /** A map of consecutive code points, or a list of them. */
  datatype Cmap = Range(cps: seq<nat>) | Sparse(cps: seq<nat>)

  const MIN_RANGE: nat := 8
  const MAX_MAPS: nat := 511

  predicate Consecutive(s: seq<nat>) {
    forall i | 0 <= i < |s| :: s[i] == s[0] + i
  }

  function LastOf(s: seq<nat>): nat
    requires s != []
  {
    s[|s| - 1]
  }

  // ----- looking up

  function IndexIn(s: seq<nat>, cp: nat): (r: Option<nat>)
    ensures r.Some? ==> r.value < |s| && s[r.value] == cp
    ensures r.None? ==> cp !in s
  {
    if s == [] then None
    else if LastOf(s) == cp then Some(|s| - 1)
    else IndexIn(s[..|s| - 1], cp)
  }

  /** The `range_length` that is computed for a map. */
  function Span(m: Cmap): int
    requires m.cps != []
  {
    LastOf(m.cps) - m.cps[0] + 1
  }

  /** The glyph of a code point in the emitted tables; each map begins at the glyph after
      the last one of the map before it, and 0 is "no glyph". The length of a map and its
      first glyph are members of 16 bits. */
  function Lookup(cmaps: seq<Cmap>, first: nat, cp: nat): nat {
    if cmaps == [] then 0
    else
      var m, next := cmaps[0], first + |cmaps[0].cps|;
      if m.cps == [] || cp < m.cps[0] || cp - m.cps[0] >= Span(m) % 0x1_0000 then Lookup(cmaps[1..], next, cp)
      else
        match m
        case Range(cps) => first % 0x1_0000 + (cp - cps[0])
        case Sparse(cps) =>
          match IndexIn(cps, cp)
          case Some(i) => first % 0x1_0000 + i
          case None => Lookup(cmaps[1..], next, cp)
  }

  /** The two members of a map that begins at glyph `first` hold their values. */
  predicate Fits(m: Cmap, first: nat) {
    m.cps != [] && Span(m) <= 0xffff && first <= 0xffff
  }

  predicate AllFit(cmaps: seq<Cmap>, first: nat) {
    cmaps == [] || (Fits(cmaps[0], first) && AllFit(cmaps[1..], first + |cmaps[0].cps|))
  }

  // ----- what the maps are

  function Flat(cmaps: seq<Cmap>): seq<nat> {
    if cmaps == [] then [] else Flat(cmaps[..|cmaps| - 1]) + cmaps[|cmaps| - 1].cps
  }

  function FlatRuns(runs: seq<seq<nat>>): seq<nat> {
    if runs == [] then [] else FlatRuns(runs[..|runs| - 1]) + runs[|runs| - 1]
  }

  /** A range has at least eight consecutive code points; the offsets of a list fit 16
      bits. */
  predicate Sound(m: Cmap) {
    && m.cps != [] && Ascending(m.cps)
    && (m.Range? ==> Consecutive(m.cps) && |m.cps| >= MIN_RANGE)
    && (m.Sparse? ==> LastOf(m.cps) - m.cps[0] <= 0xffff)
  }

  predicate AllSound(cmaps: seq<Cmap>) {
    forall i | 0 <= i < |cmaps| :: Sound(cmaps[i])
  }

  lemma {:induction false} FlatFirst(cmaps: seq<Cmap>)
    requires cmaps != []
    ensures Flat(cmaps) == cmaps[0].cps + Flat(cmaps[1..])
  {
    var n := |cmaps| - 1;
    if n == 0 {
      assert cmaps[..0] == [] && cmaps[1..] == [];
    } else {
      FlatFirst(cmaps[..n]);
      assert cmaps[..n][1..] == cmaps[1..][..n - 1];
    }
  }

  /** In ascending code points there is one place for each. */
  lemma IndexIs(s: seq<nat>, k: nat)
    requires Ascending(s) && k < |s|
    ensures IndexIn(s, s[k]) == Some(k)
  {
    var i := IndexIn(s, s[k]).value;
    assert s[i] == s[k];
  }

  lemma IndexOfConcat(a: seq<nat>, b: seq<nat>, cp: nat)
    requires Ascending(a + b)
    ensures IndexIn(a + b, cp) ==
            match IndexIn(a, cp)
            case Some(i) => Some(i)
            case None => (match IndexIn(b, cp) case Some(i) => Some(|a| + i) case None => None)
  {
    hide Ascending;
    if IndexIn(a, cp).Some? {
      assert (a + b)[IndexIn(a, cp).value] == cp;
      IndexIs(a + b, IndexIn(a, cp).value);
    } else if IndexIn(b, cp).Some? {
      assert (a + b)[|a| + IndexIn(b, cp).value] == cp;
      IndexIs(a + b, |a| + IndexIn(b, cp).value);
    } else {
      assert cp !in a + b;
    }
  }

  lemma AscendingPart(a: seq<nat>, b: seq<nat>)
    requires Ascending(a + b)
    ensures Ascending(a) && Ascending(b)
  {
    forall i, j | 0 <= i < j < |a| ensures a[i] < a[j] { assert (a + b)[i] < (a + b)[j]; }
    forall i, j | 0 <= i < j < |b| ensures b[i] < b[j] { assert (a + b)[|a| + i] < (a + b)[|a| + j]; }
  }

  /** A sound map answers for its own code points alone: for all within its length. */
  lemma LookupStep(cmaps: seq<Cmap>, first: nat, cp: nat)
    requires cmaps != [] && Sound(cmaps[0])
    ensures var m := cmaps[0];
            Lookup(cmaps, first, cp) ==
            match IndexIn(m.cps, cp)
            case Some(i) =>
              if cp - m.cps[0] < Span(m) % 0x1_0000 then first % 0x1_0000 + i
              else Lookup(cmaps[1..], first + |m.cps|, cp)
            case None => Lookup(cmaps[1..], first + |m.cps|, cp)
  {
    var m := cmaps[0];
    var found := IndexIn(m.cps, cp);
    assert m.cps[0] <= LastOf(m.cps);
    ShorterLength(Span(m));
    if found.Some? { assert m.cps[0] <= m.cps[found.value] <= LastOf(m.cps); }
    if m.Range? && m.cps[0] <= cp <= LastOf(m.cps) {
      assert m.cps[cp - m.cps[0]] == cp;
      IndexIs(m.cps, cp - m.cps[0]);
    }
  }

  lemma ShorterLength(n: int)
    requires n > 0
    ensures 0 <= n % 0x1_0000 <= n && (n > 0xffff ==> n % 0x1_0000 < n) && (n <= 0xffff ==> n % 0x1_0000 == n)
  {
  }

  /** Where the members hold their values, a code point of the font finds its own glyph,
      counted in order of code points; any other code point finds none anyway. */
  lemma {:induction false} LookupFindsGlyph(cmaps: seq<Cmap>, first: nat, cp: nat)
    requires AllSound(cmaps) && Ascending(Flat(cmaps)) && (cp !in Flat(cmaps) || AllFit(cmaps, first))
    ensures Lookup(cmaps, first, cp) ==
            match IndexIn(Flat(cmaps), cp)
            case Some(k) => first + k
            case None => 0
    decreases |cmaps|
  {
    hide Ascending, Sound, IndexIn, Flat, Lookup;
    if cmaps == [] {
      NothingFound(first, cp);
    } else {
      var m, rest := cmaps[0], Flat(cmaps[1..]);
      FlatFirst(cmaps);
      LookupStep(cmaps, first, cp);
      IndexOfConcat(m.cps, rest, cp);
      AscendingPart(m.cps, rest);
      if IndexIn(m.cps, cp).Some? {
        InSpan(m, IndexIn(m.cps, cp).value);
        ShorterLength(Span(m));
      } else {
        LookupFindsGlyph(cmaps[1..], first + |m.cps|, cp);
      }
    }
  }

  lemma InSpan(m: Cmap, i: nat)
    requires Sound(m) && i < |m.cps|
    ensures 0 <= m.cps[i] - m.cps[0] < Span(m)
  {
    if 0 < i { assert m.cps[0] < m.cps[i]; }
    if i < |m.cps| - 1 { assert m.cps[i] < m.cps[|m.cps| - 1]; }
  }

  /** Every code point of the font finds its own glyph. */
  predicate FindsAll(cmaps: seq<Cmap>, first: nat) {
    forall k | 0 <= k < |Flat(cmaps)| :: Lookup(cmaps, first, Flat(cmaps)[k]) == first + k
  }

  /** A map whose length or first glyph does not fit loses one of its code points. */
  lemma MisfitHides(cmaps: seq<Cmap>, first: nat) returns (k: nat)
    requires AllSound(cmaps) && Ascending(Flat(cmaps)) && first > 0 && cmaps != [] && !Fits(cmaps[0], first)
    ensures k < |Flat(cmaps)| && Lookup(cmaps, first, Flat(cmaps)[k]) != first + k
  {
    hide Sound, Lookup;
    var m := cmaps[0];
    assert Sound(m);
    assert m.cps != [] by { SoundNotEmpty(m); }
    FlatFirst(cmaps);
    AscendingPart(m.cps, Flat(cmaps[1..]));
    k := if Span(m) > 0xffff then |m.cps| - 1 else 0;
    var cp := m.cps[k];
    InSpan(m, k);
    IndexIs(m.cps, k);
    LookupStep(cmaps, first, cp);
    ShorterLength(Span(m));
    NotBehind(m.cps, Flat(cmaps[1..]), k);
    LookupFindsGlyph(cmaps[1..], first + |m.cps|, cp);
  }

  lemma SoundNotEmpty(m: Cmap)
    requires Sound(m)
    ensures m.cps != []
  {
  }

  lemma NotBehind(a: seq<nat>, b: seq<nat>, k: nat)
    requires Ascending(a + b) && k < |a|
    ensures a[k] !in b
  {
    forall j | 0 <= j < |b| ensures b[j] != a[k] { assert (a + b)[k] < (a + b)[|a| + j]; }
  }

  lemma NotBefore(a: seq<nat>, b: seq<nat>, k: nat)
    requires Ascending(a + b) && k < |b|
    ensures b[k] !in a
  {
    forall j | 0 <= j < |a| ensures a[j] != b[k] { assert (a + b)[j] < (a + b)[|a| + k]; }
  }

  lemma {:induction false} SomeMisfitHides(cmaps: seq<Cmap>, first: nat) returns (k: nat)
    requires AllSound(cmaps) && Ascending(Flat(cmaps)) && first > 0 && !AllFit(cmaps, first)
    ensures k < |Flat(cmaps)| && Lookup(cmaps, first, Flat(cmaps)[k]) != first + k
    decreases |cmaps|
  {
    hide Sound, Lookup, Fits, Ascending;
    var m := cmaps[0];
    if !Fits(m, first) {
      k := MisfitHides(cmaps, first);
    } else {
      var rest := Flat(cmaps[1..]);
      FlatFirst(cmaps);
      AscendingPart(m.cps, rest);
      k := SomeMisfitHides(cmaps[1..], first + |m.cps|);
      NotBefore(m.cps, rest, k);
      LookupStep(cmaps, first, rest[k]);
      k := |m.cps| + k;
    }
  }

  /** Every code point finds its own glyph exactly when every map spans at most 65535 code
      points and begins at a glyph below 65536. */
  lemma LookupExact(cmaps: seq<Cmap>, first: nat)
    requires AllSound(cmaps) && Ascending(Flat(cmaps)) && first > 0
    ensures FindsAll(cmaps, first) <==> AllFit(cmaps, first)
  {
    hide Sound, Lookup, Fits, Ascending, Flat, AllFit;
    if AllFit(cmaps, first) {
      forall k | 0 <= k < |Flat(cmaps)| ensures Lookup(cmaps, first, Flat(cmaps)[k]) == first + k {
        IndexIs(Flat(cmaps), k);
        LookupFindsGlyph(cmaps, first, Flat(cmaps)[k]);
      }
    } else {
      var k := SomeMisfitHides(cmaps, first);
    }
  }

  lemma NothingFound(first: nat, cp: nat)
    ensures Lookup([], first, cp) == 0 && IndexIn(Flat([]), cp) == None
  {
  }

  // ----- building

  function AddCode(runs: seq<seq<nat>>, cp: nat): seq<seq<nat>> {
    var n := |runs| - 1;
    if runs != [] && runs[n] != [] && cp == LastOf(runs[n]) + 1 then runs[n := runs[n] + [cp]] else runs + [[cp]]
  }

  /** The runs of consecutive code points. */
  function RunsOf(cps: seq<nat>): seq<seq<nat>> {
    if cps == [] then [] else AddCode(RunsOf(cps[..|cps| - 1]), LastOf(cps))
  }

  function AddRun(cmaps: seq<Cmap>, run: seq<nat>): seq<Cmap>
    requires run != []
  {
    var n := |cmaps| - 1;
    if |run| >= MIN_RANGE then cmaps + [Range(run)]
    else if cmaps != [] && cmaps[n].Sparse? && cmaps[n].cps != [] && LastOf(run) - cmaps[n].cps[0] <= 0xffff then
      cmaps[n := Sparse(cmaps[n].cps + run)]
    else cmaps + [Sparse(run)]
  }

  predicate NoneEmpty(runs: seq<seq<nat>>) {
    forall k | 0 <= k < |runs| :: runs[k] != []
  }

  /** One map for each long run, and lists for the short runs between. */
  function MapsOf(runs: seq<seq<nat>>): seq<Cmap>
    requires NoneEmpty(runs)
  {
    if runs == [] then [] else AddRun(MapsOf(runs[..|runs| - 1]), runs[|runs| - 1])
  }

  lemma GrowRun(runs: seq<seq<nat>>, cp: nat)
    requires runs != []
    ensures var n := |runs| - 1; FlatRuns(runs[n := runs[n] + [cp]]) == FlatRuns(runs) + [cp]
  {
    var n := |runs| - 1;
    assert runs[n := runs[n] + [cp]][..n] == runs[..n];
    assert FlatRuns(runs[..n]) + (runs[n] + [cp]) == FlatRuns(runs[..n]) + runs[n] + [cp];
  }

  lemma StartRun(runs: seq<seq<nat>>, cp: nat)
    ensures FlatRuns(runs + [[cp]]) == FlatRuns(runs) + [cp]
  {
    assert (runs + [[cp]])[..|runs|] == runs;
  }

  predicate RunAt(runs: seq<seq<nat>>, k: nat)
    requires k < |runs|
  {
    runs[k] != [] && Consecutive(runs[k])
  }

  predicate AreRuns(runs: seq<seq<nat>>) {
    forall k | 0 <= k < |runs| :: RunAt(runs, k)
  }

  lemma AddCodeKeeps(runs: seq<seq<nat>>, cp: nat)
    requires AreRuns(runs)
    ensures AreRuns(AddCode(runs, cp)) && FlatRuns(AddCode(runs, cp)) == FlatRuns(runs) + [cp]
  {
    hide FlatRuns;
    var more, n := AddCode(runs, cp), |runs| - 1;
    if runs != [] { assert RunAt(runs, n); }
    if runs != [] && cp == LastOf(runs[n]) + 1 {
      GrowRun(runs, cp);
      forall k | 0 <= k < |more| ensures RunAt(more, k) { if k < n { assert RunAt(runs, k); } }
    } else {
      StartRun(runs, cp);
      forall k | 0 <= k < |more| ensures RunAt(more, k) { if k <= n { assert RunAt(runs, k); } }
    }
  }

  lemma {:induction false} RunsOfFlat(cps: seq<nat>)
    ensures AreRuns(RunsOf(cps)) && FlatRuns(RunsOf(cps)) == cps
  {
    hide AddCode;
    if cps != [] {
      var rest := cps[..|cps| - 1];
      RunsOfFlat(rest);
      AddCodeKeeps(RunsOf(rest), LastOf(cps));
      assert cps == rest + [LastOf(cps)];
    }
  }

  /** Splits the code points into runs of consecutive ones. */
  method Runs(codepoints: seq<nat>) returns (runs: seq<seq<nat>>)
    ensures runs == RunsOf(codepoints) && AreRuns(runs) && FlatRuns(runs) == codepoints
  {
    runs := [];
    var i := 0;
    while i < |codepoints|
      invariant 0 <= i <= |codepoints| && runs == RunsOf(codepoints[..i])
    {
      var cp, n := codepoints[i], |runs| - 1;
      RunsOfFlat(codepoints[..i]);
      assert runs != [] ==> RunAt(runs, n);
      assert codepoints[..i + 1][..i] == codepoints[..i];
      if runs != [] && cp == LastOf(runs[n]) + 1 {
        runs := runs[n := runs[n] + [cp]];
      } else {
        runs := runs + [[cp]];
      }
      i := i + 1;
    }
    assert codepoints[..i] == codepoints;
    RunsOfFlat(codepoints);
  }

  lemma {:induction false} RunsPrefix(runs: seq<seq<nat>>, n: nat)
    requires n <= |runs|
    ensures FlatRuns(runs[..n]) <= FlatRuns(runs)
  {
    var last := |runs| - 1;
    if n == |runs| {
      assert runs[..n] == runs;
    } else {
      RunsPrefix(runs[..last], n);
      assert runs[..last][..n] == runs[..n];
    }
  }

  lemma AscendingPrefix(p: seq<nat>, s: seq<nat>)
    requires Ascending(s) && p <= s
    ensures Ascending(p)
  {
    forall i, j | 0 <= i < j < |p| ensures p[i] < p[j] { assert s[i] < s[j]; }
  }

  lemma ShortRun(run: seq<nat>)
    requires run != [] && Consecutive(run) && |run| < MIN_RANGE
    ensures LastOf(run) - run[0] <= 0xffff
  {
  }

  lemma AddMap(cmaps: seq<Cmap>, m: Cmap)
    ensures Flat(cmaps + [m]) == Flat(cmaps) + m.cps
  {
    assert (cmaps + [m])[..|cmaps|] == cmaps;
  }

  lemma ExtendMap(cmaps: seq<Cmap>, run: seq<nat>)
    requires cmaps != [] && run != [] && cmaps[|cmaps| - 1].Sparse? && AllSound(cmaps)
    requires Ascending(Flat(cmaps) + run) && LastOf(run) - cmaps[|cmaps| - 1].cps[0] <= 0xffff
    ensures var n := |cmaps| - 1;
            var longer := Sparse(cmaps[n].cps + run);
            Sound(longer) && Flat(cmaps[n := longer]) == Flat(cmaps) + run
  {
    hide Ascending, Consecutive;
    var n := |cmaps| - 1;
    var head, last := Flat(cmaps[..n]), cmaps[n].cps;
    assert Flat(cmaps) == head + last;
    assert cmaps[n := Sparse(last + run)][..n] == cmaps[..n];
    assert head + last + run == head + (last + run);
    AscendingPart(head, last + run);
    assert LastOf(last + run) == LastOf(run) && (last + run)[0] == last[0];
  }

  /** A run more keeps the maps sound and puts its code points at the end. */
  lemma AddRunKeeps(cmaps: seq<Cmap>, run: seq<nat>)
    requires AllSound(cmaps) && run != [] && Consecutive(run) && Ascending(Flat(cmaps) + run)
    ensures AllSound(AddRun(cmaps, run)) && Flat(AddRun(cmaps, run)) == Flat(cmaps) + run
  {
    hide Flat, Consecutive, Ascending;
    var n := |cmaps| - 1;
    AscendingPart(Flat(cmaps), run);
    if cmaps != [] { SoundNotEmpty(cmaps[n]); }
    if |run| >= MIN_RANGE {
      AddMap(cmaps, Range(run));
    } else {
      ShortRun(run);
      if cmaps != [] && cmaps[n].Sparse? && LastOf(run) - cmaps[n].cps[0] <= 0xffff {
        ExtendMap(cmaps, run);
      } else {
        AddMap(cmaps, Sparse(run));
      }
    }
  }

  lemma {:induction false} MapsOfKeeps(runs: seq<seq<nat>>)
    requires AreRuns(runs) && Ascending(FlatRuns(runs))
    ensures NoneEmpty(runs) && AllSound(MapsOf(runs)) && Flat(MapsOf(runs)) == FlatRuns(runs)
    decreases |runs|
  {
    hide Ascending, Consecutive, AddRun, Sound, Flat;
    RunsNotEmpty(runs);
    if runs == [] {
      FlatNothing();
    } else {
      var n := |runs| - 1;
      RunsPrefix(runs, n);
      AscendingPrefix(FlatRuns(runs[..n]), FlatRuns(runs));
      assert AreRuns(runs[..n]) by { forall k | 0 <= k < n ensures RunAt(runs[..n], k) { assert RunAt(runs, k); } }
      MapsOfKeeps(runs[..n]);
      assert RunAt(runs, n);
      AddRunKeeps(MapsOf(runs[..n]), runs[n]);
    }
  }

  lemma RunsNotEmpty(runs: seq<seq<nat>>)
    requires AreRuns(runs)
    ensures NoneEmpty(runs)
  {
    forall k | 0 <= k < |runs| ensures runs[k] != [] { assert RunAt(runs, k); }
  }

  lemma FlatNothing()
    ensures Flat([]) == []
  {
  }

  /** Fewer than 65536 glyphs in fewer than 65536 code points always fit. */
  lemma {:induction false} NarrowFits(cmaps: seq<Cmap>, first: nat)
    requires AllSound(cmaps) && Ascending(Flat(cmaps)) && first + |Flat(cmaps)| <= 0x1_0000
    requires Flat(cmaps) != [] ==> LastOf(Flat(cmaps)) - Flat(cmaps)[0] < 0xffff
    ensures AllFit(cmaps, first)
    decreases |cmaps|
  {
    hide Sound, Ascending, Flat;
    if cmaps != [] {
      var m, rest := cmaps[0], Flat(cmaps[1..]);
      SoundNotEmpty(m);
      FlatFirst(cmaps);
      AscendingPart(m.cps, rest);
      if rest != [] { Between(m.cps, rest); }
      NarrowFits(cmaps[1..], first + |m.cps|);
    }
  }

  lemma Between(a: seq<nat>, b: seq<nat>)
    requires a != [] && b != [] && Ascending(a + b)
    ensures a[0] <= LastOf(a) < b[0] <= LastOf(b) == LastOf(a + b) && (a + b)[0] == a[0]
  {
    var s := a + b;
    assert s[0] == a[0] && s[|a| - 1] == LastOf(a) && s[|a|] == b[0] && s[|s| - 1] == LastOf(b);
    if |a| > 1 { assert s[0] < s[|a| - 1]; }
    if |b| > 1 { assert s[|a|] < s[|s| - 1]; }
    assert s[|a| - 1] < s[|a|];
  }

  /** `build_cmaps`; it fails with more than 511 maps. */
  method BuildCmaps(codepoints: seq<nat>) returns (ok: bool, cmaps: seq<Cmap>)
    requires Ascending(codepoints)
    ensures NoneEmpty(RunsOf(codepoints)) && cmaps == MapsOf(RunsOf(codepoints)) && ok == (|cmaps| <= MAX_MAPS)
    ensures AllSound(cmaps) && Flat(cmaps) == codepoints
    ensures FindsAll(cmaps, 1) <==> AllFit(cmaps, 1)
    ensures codepoints != [] && LastOf(codepoints) - codepoints[0] < 0xffff ==> FindsAll(cmaps, 1)
    ensures forall cp: nat :: cp !in codepoints ==> Lookup(cmaps, 1, cp) == 0
  {
    hide Lookup, Ascending, Consecutive, Flat, FlatRuns, RunsOf, FindsAll, AllFit, IndexIn, Sound;
    var runs := Runs(codepoints);
    MapsOfKeeps(runs);
    cmaps := [];
    var i := 0;
    while i < |runs|
      invariant 0 <= i <= |runs| && NoneEmpty(runs[..i]) && cmaps == MapsOf(runs[..i])
    {
      var run, n := runs[i], |cmaps| - 1;
      MapsSoFar(runs, i);
      if |run| >= MIN_RANGE {
        cmaps := cmaps + [Range(run)];
      } else if cmaps != [] && cmaps[n].Sparse? && LastOf(run) - cmaps[n].cps[0] <= 0xffff {
        cmaps := cmaps[n := Sparse(cmaps[n].cps + run)];
      } else {
        cmaps := cmaps + [Sparse(run)];
      }
      i := i + 1;
    }
    assert runs[..i] == runs;
    ok := |cmaps| <= MAX_MAPS;
    LookupExact(cmaps, 1);
    if codepoints != [] && LastOf(codepoints) - codepoints[0] < 0xffff {
      CountInSpan(codepoints);
      NarrowFits(cmaps, 1);
    }
    forall cp: nat | cp !in codepoints ensures Lookup(cmaps, 1, cp) == 0 {
      LookupFindsGlyph(cmaps, 1, cp);
    }
  }

  lemma MapsSoFar(runs: seq<seq<nat>>, i: nat)
    requires i < |runs| && AreRuns(runs) && Ascending(FlatRuns(runs)) && NoneEmpty(runs[..i])
    ensures runs[i] != [] && NoneEmpty(runs[..i + 1])
    ensures MapsOf(runs[..i + 1]) == AddRun(MapsOf(runs[..i]), runs[i])
    ensures forall k | 0 <= k < |MapsOf(runs[..i])| :: MapsOf(runs[..i])[k].cps != []
  {
    hide Ascending, Consecutive, AddRun, Sound, Flat, FlatRuns;
    RunsNotEmpty(runs);
    assert runs[..i + 1][..i] == runs[..i];
    assert AreRuns(runs[..i]) by { forall k | 0 <= k < i ensures RunAt(runs[..i], k) { assert RunAt(runs, k); } }
    RunsPrefix(runs, i);
    AscendingPrefix(FlatRuns(runs[..i]), FlatRuns(runs));
    MapsOfKeeps(runs[..i]);
    forall k | 0 <= k < |MapsOf(runs[..i])| ensures MapsOf(runs[..i])[k].cps != [] {
      SoundNotEmpty(MapsOf(runs[..i])[k]);
    }
  }

  lemma {:induction false} CountInSpan(s: seq<nat>)
    requires s != [] && Ascending(s)
    ensures |s| <= LastOf(s) - s[0] + 1
    decreases |s|
  {
    if |s| > 1 {
      var init := s[..|s| - 1];
      CountInSpan(init);
      assert LastOf(init) == s[|s| - 2] < s[|s| - 1];
    }
  }

  /** Two code points 0xffff apart share one list, whose length then reads as 0. */
  lemma WideListHides()
    ensures var cps := [0x20, 0x1001f];
            && Ascending(cps) && NoneEmpty(RunsOf(cps)) && MapsOf(RunsOf(cps)) == [Sparse(cps)]
            && Lookup(MapsOf(RunsOf(cps)), 1, 0x20) == 0 && Lookup(MapsOf(RunsOf(cps)), 1, 0x1001f) == 0
  {
    var cps := [0x20, 0x1001f];
    assert cps[..1] == [0x20] && cps[..1][..0] == [];
    assert RunsOf([]) == [] && RunsOf(cps[..1]) == [[0x20]];
    var runs: seq<seq<nat>> := [[0x20], [0x1001f]];
    assert RunsOf(cps) == runs;
    assert runs[..1] == [[0x20]] && runs[..1][..0] == [];
    assert MapsOf([]) == [] && MapsOf(runs[..1]) == [Sparse([0x20])];
    assert [0x20] + [0x1001f] == cps;
    assert MapsOf(runs) == [Sparse(cps)];
    assert [Sparse(cps)][1..] == [];
  }
}
