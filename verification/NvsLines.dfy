/** The line list of idf_compat/src/nvs.c as a map from (namespace, key) to a typed value. */
module NvsLines {
  import opened Prelude
  import opened NvsValue
  import opened NvsLine

  type Text = seq<byte>

  datatype Key = Key(ns: Text, name: Text)

  datatype Value = Value(vtype: Type, lit: Literal)

  type Bindings = map<Key, Value>

  function Front<T>(s: seq<T>): seq<T>
    requires s != []
  {
    s[..|s| - 1]
  }

  function Last<T>(s: seq<T>): T
    requires s != []
  {
    s[|s| - 1]
  }

  lemma FrontLast<T>(s: seq<T>, x: T)
    ensures Front(s + [x]) == s && Last(s + [x]) == x
  {
  }

  lemma TakeNext<T>(s: seq<T>, i: nat)
    requires i < |s|
    ensures s[..i + 1] == s[..i] + [s[i]] && Front(s[..i + 1]) == s[..i] && Last(s[..i + 1]) == s[i]
  {
  }

  lemma FrontOfConcat<T>(s: seq<T>, t: seq<T>)
    requires t != []
    ensures s + t != [] && Front(s + t) == s + Front(t) && Last(s + t) == Last(t)
  {
  }

  // ----- the section in force and what is bound

  /** The section in force after `s`, when `cur` was before it. */
  function Current(cur: Option<Text>, s: seq<Line>): Option<Text> {
    if s == [] then cur
    else if Last(s).Section? then Some(Last(s).name)
    else Current(cur, Front(s))
  }

  function Bind(cur: Option<Text>, m: Bindings, l: Line): Bindings {
    if l.Entry? && cur.Some? then m[Key(cur.value, l.name) := Value(l.vtype, l.lit)] else m
  }

  /** The bindings after `s`: a later entry overrides an earlier one. */
  function BindFrom(cur: Option<Text>, m: Bindings, s: seq<Line>): Bindings {
    if s == [] then m else Bind(Current(cur, Front(s)), BindFrom(cur, m, Front(s)), Last(s))
  }

  function Bound(lines: seq<Line>): Bindings {
    BindFrom(None, map[], lines)
  }

  lemma {:induction false} CurrentConcat(cur: Option<Text>, s: seq<Line>, t: seq<Line>)
    ensures Current(cur, s + t) == Current(Current(cur, s), t)
  {
    if t == [] {
      assert s + t == s;
    } else {
      FrontOfConcat(s, t);
      CurrentConcat(cur, s, Front(t));
    }
  }

  lemma {:induction false} BindConcat(cur: Option<Text>, m: Bindings, s: seq<Line>, t: seq<Line>)
    ensures BindFrom(cur, m, s + t) == BindFrom(Current(cur, s), BindFrom(cur, m, s), t)
  {
    if t == [] {
      assert s + t == s;
    } else {
      FrontOfConcat(s, t);
      BindConcat(cur, m, s, Front(t));
      CurrentConcat(cur, s, Front(t));
    }
  }

  /** Whether a line following `before` gives a value to the key. */
  predicate Binds(cur: Option<Text>, l: Line, k: Key) {
    cur == Some(k.ns) && l.Entry? && l.name == k.name
  }

  predicate NeverBinds(cur: Option<Text>, s: seq<Line>, k: Key) {
    s == [] || (NeverBinds(cur, Front(s), k) && !Binds(Current(cur, Front(s)), Last(s), k))
  }

  /** `find_entry`: the last line that binds the key. */
  function Find(s: seq<Line>, k: Key): (r: Option<nat>)
    ensures r.Some? ==> r.value < |s| && s[r.value].Entry? && s[r.value].name == k.name
  {
    if s == [] then None
    else if Binds(Current(None, Front(s)), Last(s), k) then Some(|s| - 1)
    else Find(Front(s), k)
  }

  lemma FrontSlices<T>(s: seq<T>, i: nat)
    requires i + 1 < |s|
    ensures Front(s)[..i] == s[..i] && Front(s)[..i + 1] == s[..i + 1] && Front(s)[i] == s[i]
    ensures s[i + 1..] != [] && Front(s[i + 1..]) == Front(s)[i + 1..] && Last(s[i + 1..]) == Last(s)
    ensures s[..i + 1] + Front(s[i + 1..]) == Front(s)
  {
  }

  /** The line found is bound to the key and none after it is. */
  lemma {:induction false} FindIsLast(s: seq<Line>, k: Key)
    ensures Find(s, k).None? ==> NeverBinds(None, s, k)
    ensures Find(s, k).Some? ==>
              var i := Find(s, k).value;
              && Binds(Current(None, s[..i]), s[i], k)
              && NeverBinds(Current(None, s[..i + 1]), s[i + 1..], k)
  {
    hide Current, Binds;
    if s != [] {
      if Binds(Current(None, Front(s)), Last(s), k) {
        assert s[|s|..] == [];
      } else {
        FindIsLast(Front(s), k);
        if Find(s, k).Some? {
          var i := Find(s, k).value;
          FrontSlices(s, i);
          CurrentConcat(None, s[..i + 1], Front(s[i + 1..]));
        }
      }
    }
  }

  /** The lookup is the map: it finds a line exactly for the bound keys, and that line
      carries the bound value. */
  lemma {:induction false} FindIsLookup(s: seq<Line>, k: Key)
    ensures k in Bound(s) <==> Find(s, k).Some?
    ensures Find(s, k).Some? ==> var l := s[Find(s, k).value]; Bound(s)[k] == Value(l.vtype, l.lit)
  {
    if s != [] {
      FindIsLookup(Front(s), k);
    }
  }

  // ----- a change of one binding

  /** Lines that do not bind `k` do not care what it was bound to. */
  lemma {:induction false} BindElsewhere(cur: Option<Text>, m: Bindings, k: Key, v: Value, s: seq<Line>)
    requires NeverBinds(cur, s, k)
    ensures BindFrom(cur, m[k := v], s) == BindFrom(cur, m, s)[k := v]
  {
    if s != [] {
      BindElsewhere(cur, m, k, v, Front(s));
    }
  }

  /** An entry put where `k.ns` is in force, with no later line binding `k`. */
  lemma BindInserted(a: seq<Line>, e: Line, b: seq<Line>, k: Key)
    requires Binds(Current(None, a), e, k) && NeverBinds(Current(None, a), b, k)
    ensures Bound(a + [e] + b) == Bound(a + b)[k := Value(e.vtype, e.lit)]
    ensures Find(a + [e] + b, k) == Some(|a|)
  {
    hide Current;
    var cur, v := Current(None, a), Value(e.vtype, e.lit);
    EntryKeepsSection(a, e);
    FrontLast(a, e);
    BindConcat(None, map[], a + [e], b);
    BindConcat(None, map[], a, b);
    BindElsewhere(cur, Bound(a), k, v, b);
    FindPast(a + [e], b, k);
  }

  lemma EntryKeepsSection(a: seq<Line>, e: Line)
    requires !e.Section?
    ensures Current(None, a + [e]) == Current(None, a)
  {
    FrontLast(a, e);
  }

  lemma {:induction false} FindPast(a: seq<Line>, b: seq<Line>, k: Key)
    requires NeverBinds(Current(None, a), b, k)
    ensures Find(a + b, k) == Find(a, k)
  {
    if b == [] {
      assert a + b == a;
    } else {
      FrontOfConcat(a, b);
      CurrentConcat(None, a, Front(b));
      FindPast(a, Front(b), k);
    }
  }

  /** The found line rewritten with another value. */
  lemma BindReplaced(s: seq<Line>, k: Key, e: Line)
    requires Find(s, k).Some? && e.Entry? && e.name == k.name
    ensures var t := s[Find(s, k).value := e];
            Bound(t) == Bound(s)[k := Value(e.vtype, e.lit)] && Find(t, k) == Find(s, k)
  {
    hide Bound, Current, Find, NeverBinds;
    var i := Find(s, k).value;
    var a, b, t := s[..i], s[i + 1..], s[i := e];
    FindIsLast(s, k);
    TakeNext(s, i);
    EntryKeepsSection(a, s[i]);
    BindInserted(a, s[i], b, k);
    BindInserted(a, e, b, k);
    assert s == a + [s[i]] + b && t == a + [e] + b;
    assert Bound(s)[k := Value(e.vtype, e.lit)] == Bound(a + b)[k := Value(e.vtype, e.lit)];
  }

  // ----- insertion

  /** Where `insert_entry` puts a line of a namespace that exists: after its last line
      that is not raw. */
  function InsertPoint(s: seq<Line>, ns: Text): (r: Option<nat>)
    ensures r.Some? ==> 0 < r.value <= |s|
  {
    if s == [] then None
    else if Current(None, s) == Some(ns) && !Last(s).Raw? then Some(|s|)
    else InsertPoint(Front(s), ns)
  }

  /** The lines put in front of the entry of a namespace that does not exist. */
  function Heading(s: seq<Line>, ns: Text): seq<Line> {
    (if s != [] && Last(s).text != [] then [Raw([])] else []) + [Section(SectionText(ns), ns)]
  }

  /** `insert_entry` */
  function Inserted(s: seq<Line>, ns: Text, e: Line): seq<Line> {
    match InsertPoint(s, ns)
    case None => s + Heading(s, ns) + [e]
    case Some(at) => s[..at] + [e] + s[at..]
  }

  /** Where the inserted entry comes to stand. */
  function EntryAt(s: seq<Line>, ns: Text): nat {
    match InsertPoint(s, ns)
    case None => |s| + |Heading(s, ns)|
    case Some(at) => at
  }

  lemma InsertedAt(s: seq<Line>, ns: Text, e: Line, d: Line)
    ensures var t, at := Inserted(s, ns, e), EntryAt(s, ns);
            at < |t| && t[at] == e && t[at := d] == Inserted(s, ns, d)
  {
    hide Heading, InsertPoint;
  }

  lemma {:induction false} InsertPointIsIn(s: seq<Line>, ns: Text)
    requires InsertPoint(s, ns).Some?
    ensures Current(None, s[..InsertPoint(s, ns).value]) == Some(ns)
  {
    if Current(None, s) == Some(ns) && !Last(s).Raw? {
      assert s[..|s|] == s;
    } else {
      InsertPointIsIn(Front(s), ns);
      var at := InsertPoint(s, ns).value;
      assert Front(s)[..at] == s[..at];
    }
  }

  lemma {:induction false} NeverBindsConcat(cur: Option<Text>, s: seq<Line>, t: seq<Line>, k: Key)
    ensures NeverBinds(cur, s + t, k) <==> NeverBinds(cur, s, k) && NeverBinds(Current(cur, s), t, k)
  {
    if t == [] {
      assert s + t == s;
    } else {
      FrontOfConcat(s, t);
      CurrentConcat(cur, s, Front(t));
      NeverBindsConcat(cur, s, Front(t), k);
    }
  }

  lemma OtherLineBindsNothing(a: seq<Line>, l: Line)
    requires !l.Entry?
    ensures Bound(a + [l]) == Bound(a)
  {
    FrontLast(a, l);
  }

  lemma HeadingOpens(s: seq<Line>, ns: Text)
    ensures Current(None, s + Heading(s, ns)) == Some(ns) && Bound(s + Heading(s, ns)) == Bound(s)
  {
    hide Bound, SectionText;
    var sec := Section(SectionText(ns), ns);
    var blank := if s != [] && Last(s).text != [] then [Raw([])] else [];
    assert s + Heading(s, ns) == s + blank + [sec];
    FrontLast(s + blank, sec);
    OtherLineBindsNothing(s + blank, sec);
    if blank != [] { OtherLineBindsNothing(s, Raw([])); } else { assert s + blank == s; }
  }

  /** Inserting an entry of an unbound key binds it and nothing else. */
  lemma {:induction false} InsertBinds(s: seq<Line>, k: Key, e: Line)
    requires Find(s, k).None? && e.Entry? && e.name == k.name
    ensures var t := Inserted(s, k.ns, e);
            && Bound(t) == Bound(s)[k := Value(e.vtype, e.lit)]
            && Find(t, k) == Some(EntryAt(s, k.ns))
  {
    hide Bound, Current, Find, NeverBinds, Heading, InsertPoint;
    FindIsLast(s, k);
    match InsertPoint(s, k.ns)
    case Some(at) =>
      InsertPointIsIn(s, k.ns);
      NeverBindsConcat(None, s[..at], s[at..], k);
      assert s[..at] + s[at..] == s;
      BindInserted(s[..at], e, s[at..], k);
    case None =>
      var a := s + Heading(s, k.ns);
      HeadingOpens(s, k.ns);
      assert a + [e] + [] == a + [e] && a + [] == a;
      BindInserted(a, e, [], k) by { NeverBindsNothing(k); }
  }

  lemma NeverBindsNothing(k: Key)
    ensures forall cur :: NeverBinds(cur, [], k)
  {
  }

  // ----- set

  /** `set_value` on the list. */
  function SetLines(s: seq<Line>, k: Key, t: Type, l: Literal): (r: seq<Line>)
    requires forall i | 0 <= i < |s| && s[i].Entry? :: s[i].keyEnd <= |s[i].text| && s[i].valueEnd <= |s[i].text|
  {
    match Find(s, k)
    case Some(i) => s[i := Render(s[i], t, l)]
    case None => Inserted(s, k.ns, Render(NewEntry(k.name), t, l))
  }

  /** One binding changes and no other. */
  lemma SetBinds(s: seq<Line>, k: Key, t: Type, l: Literal)
    requires forall i | 0 <= i < |s| && s[i].Entry? :: s[i].keyEnd <= |s[i].text| && s[i].valueEnd <= |s[i].text|
    ensures Bound(SetLines(s, k, t, l)) == Bound(s)[k := Value(t, l)]
  {
    hide Bound, Find, Inserted;
    match Find(s, k)
    case Some(i) => BindReplaced(s, k, Render(s[i], t, l));
    case None => InsertBinds(s, k, Render(NewEntry(k.name), t, l));
  }

  /** Every other line keeps its text and its place in the order: one line is replaced,
      or one run of new lines is put in. */
  lemma SetKeepsLines(s: seq<Line>, k: Key, t: Type, l: Literal) returns (at: nat, added: seq<Line>, cut: nat)
    requires forall i | 0 <= i < |s| && s[i].Entry? :: s[i].keyEnd <= |s[i].text| && s[i].valueEnd <= |s[i].text|
    ensures at + cut <= |s| && SetLines(s, k, t, l) == s[..at] + added + s[at + cut..]
    ensures cut == (if k in Bound(s) then 1 else 0)
    ensures cut == 1 ==> |added| == 1
    ensures IsAddition(added, k)
  {
    hide Bound, Find, Inserted, Render, NewEntry;
    FindIsLookup(s, k);
    match Find(s, k) {
      case Some(i) => at, added, cut := i, [Render(s[i], t, l)], 1;
      case None =>
        at, added := InsertKeepsLines(s, k, Render(NewEntry(k.name), t, l)) by { NewEntryName(k.name); }
        cut := 0;
    }
  }

  lemma NewEntryName(key: Text)
    ensures NewEntry(key).Entry? && NewEntry(key).name == key
    ensures NewEntry(key).keyEnd <= |NewEntry(key).text| && NewEntry(key).valueEnd <= |NewEntry(key).text|
  {
  }

  /** One entry of the key, behind what opens its namespace. */
  predicate IsAddition(added: seq<Line>, k: Key) {
    && added != [] && Last(added).Entry? && Last(added).name == k.name
    && forall i | 0 <= i < |added| - 1 :: added[i] == Raw([]) || added[i] == Section(SectionText(k.ns), k.ns)
  }

  lemma InsertKeepsLines(s: seq<Line>, k: Key, e: Line) returns (at: nat, added: seq<Line>)
    requires e.Entry? && e.name == k.name
    ensures at <= |s| && Inserted(s, k.ns, e) == s[..at] + added + s[at..] && IsAddition(added, k)
  {
    hide InsertPoint, SectionText;
    match InsertPoint(s, k.ns) {
      case Some(p) => at, added := p, [e];
      case None =>
        at, added := |s|, Heading(s, k.ns) + [e];
        assert s + Heading(s, k.ns) + [e] == s[..at] + added + s[at..];
    }
  }

  // ----- removal

  predicate Removes(cur: Option<Text>, l: Line, ns: Text, key: Option<Text>) {
    cur == Some(ns) && l.Entry? && (key.None? || l.name == key.value)
  }

  /** `remove_entries` */
  function Removed(s: seq<Line>, ns: Text, key: Option<Text>): (r: seq<Line>)
    ensures |r| <= |s|
  {
    if s == [] then []
    else
      var rest := Removed(Front(s), ns, key);
      if Removes(Current(None, Front(s)), Last(s), ns, key) then rest else rest + [Last(s)]
  }

  predicate Hit(k: Key, ns: Text, key: Option<Text>) {
    k.ns == ns && (key.None? || k.name == key.value)
  }

  function Without(m: Bindings, ns: Text, key: Option<Text>): Bindings {
    map k | k in m && !Hit(k, ns, key) :: m[k]
  }

  /** Exactly the keys asked for become unbound, earlier duplicates included. */
  lemma {:induction false} RemoveUnbinds(s: seq<Line>, ns: Text, key: Option<Text>)
    ensures Current(None, Removed(s, ns, key)) == Current(None, s)
    ensures Bound(Removed(s, ns, key)) == Without(Bound(s), ns, key)
  {
    if s != [] {
      RemoveUnbinds(Front(s), ns, key);
      var rest := Removed(Front(s), ns, key);
      FrontLast(rest, Last(s));
    }
  }

  /** Something is removed exactly when a key asked for was bound. */
  lemma {:induction false} RemovedSome(s: seq<Line>, ns: Text, key: Option<Text>)
    ensures |Removed(s, ns, key)| == |s| <==> forall k :: k in Bound(s) ==> !Hit(k, ns, key)
    ensures |Removed(s, ns, key)| == |s| ==> Removed(s, ns, key) == s
  {
    if s != [] {
      RemovedSome(Front(s), ns, key);
      var cur, l := Current(None, Front(s)), Last(s);
      if Removes(cur, l, ns, key) {
        assert Key(cur.value, l.name) in Bound(s) && Hit(Key(cur.value, l.name), ns, key);
      } else {
        assert forall k :: k in Bound(Front(s)) ==> k in Bound(s);
        assert s == Front(s) + [l];
      }
    }
  }

  /** What is removed is entries; everything else stays, in order. */
  predicate IsSubsequence(r: seq<Line>, s: seq<Line>) {
    if s == [] then r == []
    else (r != [] && Last(r) == Last(s) && IsSubsequence(Front(r), Front(s))) || (Last(s).Entry? && IsSubsequence(r, Front(s)))
  }

  lemma {:induction false} RemovedKeepsRest(s: seq<Line>, ns: Text, key: Option<Text>)
    ensures IsSubsequence(Removed(s, ns, key), s)
  {
    if s != [] {
      RemovedKeepsRest(Front(s), ns, key);
      FrontLast(Removed(Front(s), ns, key), Last(s));
    }
  }

  // ----- erasing the flash

  /** Whether `store_free_except_simulator_identity` is dropping lines. */
  predicate Drops(cur: Option<Text>, reserved: Text) {
    cur.Some? && cur.value != reserved
  }

  function Erased(s: seq<Line>, reserved: Text): (r: seq<Line>)
    ensures |r| <= |s|
  {
    if s == [] then []
    else
      var rest := Erased(Front(s), reserved);
      if Drops(Current(None, s), reserved) then rest else rest + [Last(s)]
  }

  function Only(m: Bindings, ns: Text): Bindings {
    map k | k in m && k.ns == ns :: m[k]
  }

  lemma {:induction false} ErasedSection(s: seq<Line>, reserved: Text)
    ensures !Drops(Current(None, s), reserved) ==> Current(None, Erased(s, reserved)) == Current(None, s)
    ensures Current(None, s).None? ==> Erased(s, reserved) == s
    ensures Current(None, Erased(s, reserved)).Some? ==> Current(None, Erased(s, reserved)) == Some(reserved)
  {
    if s != [] {
      ErasedSection(Front(s), reserved);
      FrontLast(Erased(Front(s), reserved), Last(s));
      assert s == Front(s) + [Last(s)];
    }
  }

  /** Exactly the reserved namespace's bindings survive. */
  lemma {:induction false} EraseKeepsReserved(s: seq<Line>, reserved: Text)
    ensures Bound(Erased(s, reserved)) == Only(Bound(s), reserved)
  {
    hide Current;
    if s != [] {
      EraseKeepsReserved(Front(s), reserved);
      ErasedSection(Front(s), reserved);
      var l := Last(s);
      FrontLast(Erased(Front(s), reserved), l);
      if l.Entry? {
        EntryKeepsSection(Front(s), l);
        assert s == Front(s) + [l];
      }
    }
  }

  // ----- counting

  /** The keys bound in a namespace. */
  function KeysOf(s: seq<Line>, ns: Text): set<Key> {
    set k | k in Bound(s) && k.ns == ns
  }

  /** The lines `nvs_get_used_entry_count` counts: those the lookup would find. */
  function Used(s: seq<Line>, n: nat, ns: Text): nat
    requires n <= |s|
  {
    if n == 0 then 0
    else
      Used(s, n - 1, ns) + if Counts(s, n - 1, ns) then 1 else 0
  }

  /** The keys whose binding line lies before `n`. */
  function FoundBefore(s: seq<Line>, n: nat, ns: Text): set<Key> {
    set k | k in KeysOf(s, ns) && Find(s, k).Some? && Find(s, k).value < n
  }

  lemma {:induction false} UsedIsFound(s: seq<Line>, n: nat, ns: Text)
    requires n <= |s|
    ensures Used(s, n, ns) == |FoundBefore(s, n, ns)|
  {
    if n == 0 {
      assert FoundBefore(s, 0, ns) == {};
    } else {
      UsedIsFound(s, n - 1, ns);
      UsedStep(s, n - 1, ns);
    }
  }

  lemma {:induction false} FoundAt(s: seq<Line>, i: nat, k: Key)
    requires i < |s| && Find(s, k) == Some(i)
    ensures Current(None, s[..i]) == Some(k.ns) && s[i].Entry? && s[i].name == k.name && k in Bound(s)
  {
    FindIsLast(s, k);
    FindIsLookup(s, k);
  }

  predicate Counts(s: seq<Line>, i: nat, ns: Text)
    requires i < |s|
  {
    Current(None, s[..i]) == Some(ns) && s[i].Entry? && Find(s, Key(ns, s[i].name)) == Some(i)
  }

  /** The key found at line `i`, if any, is the one that is counted there. */
  lemma FoundNext(s: seq<Line>, i: nat, ns: Text, k: Key)
    requires i < |s|
    ensures k in FoundBefore(s, i + 1, ns) <==>
            k in FoundBefore(s, i, ns) || (Counts(s, i, ns) && k == Key(ns, s[i].name))
    ensures Counts(s, i, ns) ==> Key(ns, s[i].name) !in FoundBefore(s, i, ns)
  {
    hide Bound, Current, Find;
    if Find(s, k) == Some(i) { FoundAt(s, i, k); }
  }

  lemma UsedStep(s: seq<Line>, i: nat, ns: Text)
    requires i < |s|
    ensures |FoundBefore(s, i + 1, ns)| == |FoundBefore(s, i, ns)| + if Counts(s, i, ns) then 1 else 0
  {
    var more, fewer := FoundBefore(s, i + 1, ns), FoundBefore(s, i, ns);
    forall k ensures k in more <==> k in fewer || (Counts(s, i, ns) && k == Key(ns, s[i].name)) {
      FoundNext(s, i, ns, k);
    }
    hide FoundBefore, Counts;
    if Counts(s, i, ns) {
      FoundNext(s, i, ns, Key(ns, s[i].name));
      assert more == fewer + {Key(ns, s[i].name)};
    } else {
      assert more == fewer;
    }
  }

  /** The used count is the number of distinct bound keys of the namespace. */
  lemma UsedIsKeys(s: seq<Line>, ns: Text)
    ensures Used(s, |s|, ns) == |KeysOf(s, ns)|
  {
    UsedIsFound(s, |s|, ns);
    forall k | k in KeysOf(s, ns) ensures Find(s, k).Some? { FindIsLookup(s, k); }
    assert FoundBefore(s, |s|, ns) == KeysOf(s, ns);
  }
}
