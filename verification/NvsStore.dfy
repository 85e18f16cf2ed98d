/** The NVS store of idf_compat/src/nvs.c: the line list, edited in place, and the calls
    of its interface. */
module NvsStore {
  import opened Prelude
  import opened NvsText
  import opened NvsValue
  import opened NvsLine
  import opened NvsLines
  import opened NvsFile
  import opened NvsRun
  import opened NvsReader

  datatype Error = Ok | InvalidHandle | ReadOnly | NotFound | InvalidLength

  datatype Handle = Handle(ns: Text, readonly: bool)

  // ----- what the getters give

  predicate IntMatches(v: Value, t: Type)
    requires IsInt(t)
  {
    if v.vtype == NoType then v.lit.Int? && IntFits(v.lit.neg, v.lit.mag, t) else v.vtype == t
  }

  predicate VarMatches(v: Value, t: Type) {
    if v.vtype == NoType then v.lit.Str? || (t == BlobType && v.lit.Blob?) else v.vtype == t
  }

  /** The integer a getter of type `t` finds in the map. */
  function IntIn(m: Bindings, k: Key, t: Type): Option<int>
    requires IsInt(t)
  {
    if k in m && IntMatches(m[k], t) && m[k].lit.Int? then Some(IntOf(m[k].lit.neg, m[k].lit.mag)) else None
  }

  /** The bytes a string or blob getter finds in the map; a string ends in a NUL. */
  function VarIn(m: Bindings, k: Key, t: Type): Option<seq<byte>> {
    if k in m && VarMatches(m[k], t) && !m[k].lit.Int? then Some(m[k].lit.data + if t == StrType then [0] else []) else None
  }

  /** Answer and size reported to a caller with or without a buffer. */
  function VarAnswer(m: Bindings, k: Key, t: Type, buffer: bool, length: nat): (Error, nat) {
    match VarIn(m, k, t)
    case None => (NotFound, length)
    case Some(data) => if buffer && length < |data| then (InvalidLength, length) else (Ok, |data|)
  }

  function Overwritten(s: seq<byte>, data: seq<byte>): (r: seq<byte>)
    ensures |data| <= |s| ==> |r| == |s|
  {
    if |data| <= |s| then Splice(s, 0, data) else s
  }

  lemma OverwrittenParts(s: seq<byte>, data: seq<byte>)
    requires |data| <= |s|
    ensures Overwritten(s, data)[..|data|] == data && Overwritten(s, data)[|data|..] == s[|data|..]
  {
  }

  /** A set string or blob is read back whole by its own getter and by no other. */
  lemma SetThenGetBytes(m: Bindings, k: Key, data: seq<byte>, u: Type)
    requires u == StrType || u == BlobType
    ensures VarIn(m[k := Value(StrType, Str(data))], k, u) == if u == StrType then Some(data + [0]) else None
    ensures VarIn(m[k := Value(BlobType, Blob(data))], k, u) == if u == BlobType then Some(data) else None
  {
    assert data + [] == data;
  }

  /** A set integer is read back with its own type, and with no other. */
  lemma SetThenGet(m: Bindings, k: Key, t: Type, v: int, u: Type)
    requires IsInt(t) && IsInt(u) && Least(t) <= v <= Greatest(t)
    ensures IntIn(m[k := Value(t, IntLiteral(v))], k, u) == if u == t then Some(v) else None
  {
    SetterFits(v, t);
  }

  /** An untyped number is read back by exactly the types that can hold it. */
  lemma UntypedGet(m: Bindings, k: Key, neg: bool, mag: u64, u: Type)
    requires k in m && m[k] == Value(NoType, Int(neg, mag)) && Normal(Int(neg, mag)) && IsInt(u)
    ensures IntIn(m, k, u) == if Least(u) <= IntOf(neg, mag) <= Greatest(u) then Some(IntOf(neg, mag)) else None
  {
    IntFitsIsRange(neg, mag, u);
  }

  /** An untyped string is found by both getters, by the string getter with its NUL; an untyped blob
      by the blob getter alone; an untyped number by neither. */
  lemma UntypedGetBytes(m: Bindings, k: Key, l: Literal)
    requires k in m && m[k] == Value(NoType, l)
    ensures l.Str? ==> VarIn(m, k, StrType) == Some(l.data + [0]) && VarIn(m, k, BlobType) == Some(l.data)
    ensures l.Blob? ==> VarIn(m, k, StrType) == None && VarIn(m, k, BlobType) == Some(l.data)
    ensures l.Int? ==> VarIn(m, k, StrType) == None && VarIn(m, k, BlobType) == None
    ensures !l.Int? ==> forall t | IsInt(t) :: IntIn(m, k, t) == None
  {
    if !l.Int? { assert l.data + [] == l.data; }
  }

  /** What no entry binds no getter finds, and a typed entry only the getter of its own type. */
  lemma OtherGetters(m: Bindings, k: Key, t: Type)
    requires k in m ==> m[k].vtype != NoType && m[k].vtype != t
    ensures IsInt(t) ==> IntIn(m, k, t) == None
    ensures t == StrType || t == BlobType ==> VarIn(m, k, t) == None
  {
  }

  /** The size reported without a buffer is the least a buffer must have. */
  lemma SizeIsEnough(m: Bindings, k: Key, t: Type, unused: nat, length: nat)
    ensures var (e, size) := VarAnswer(m, k, t, false, unused);
            && (e == Ok <==> VarIn(m, k, t).Some?)
            && (e == Ok ==> size == |VarIn(m, k, t).value|)
            && (VarAnswer(m, k, t, true, length) ==
                 if e != Ok then (NotFound, length) else if length >= size then (Ok, size) else (InvalidLength, length))
  {
  }

  lemma TextsAt(buf: seq<byte>, p: nat)
    requires p < |buf|
    ensures var n := NewlineAt(buf[p..]);
            Texts(buf[p..]) == [Strip(buf[p..p + n])] + if p + n == |buf| then [] else Texts(buf[p + n + 1..])
  {
    hide NewlineAt, Strip;
    var n := NewlineAt(buf[p..]);
    assert buf[p..][..n] == buf[p..p + n];
    if p + n < |buf| { assert buf[p..][n + 1..] == buf[p + n + 1..]; }
  }

  lemma ClassifyCons(cur: Option<Text>, t: Text, rest: seq<Text>)
    ensures var l := Classify(cur, t);
            ClassifyAll(cur, [t] + rest) == [l] + ClassifyAll(if l.Section? then Some(l.name) else cur, rest)
  {
    hide Classify;
    assert ([t] + rest)[1..] == rest;
  }

  /** One turn of the loop that splits the file. */
  lemma LoadStep(buf: seq<byte>, p: nat, cur: Option<Text>)
    requires p < |buf|
    ensures var n := NewlineAt(buf[p..]);
            var l := Classify(cur, Strip(buf[p..p + n]));
            ClassifyAll(cur, Texts(buf[p..])) ==
            [l] + if p + n == |buf| then [] else ClassifyAll(if l.Section? then Some(l.name) else cur, Texts(buf[p + n + 1..]))
  {
    hide NewlineAt, Strip, Classify, Texts;
    var n := NewlineAt(buf[p..]);
    var rest := if p + n == |buf| then [] else Texts(buf[p + n + 1..]);
    TextsAt(buf, p);
    ClassifyCons(cur, Strip(buf[p..p + n]), rest);
    if p + n == |buf| { NoLines(if Classify(cur, Strip(buf[p..p + n])).Section? then Some(Classify(cur, Strip(buf[p..p + n])).name) else cur); }
  }

  lemma NoLines(cur: Option<Text>)
    ensures ClassifyAll(cur, []) == []
  {
  }

  /** The loop of `ensure_loaded`. */
  method LoadLines(file: seq<byte>) returns (lines: seq<Line>)
    ensures lines == Load(file)
  {
    hide ParseLine, UptoNul, NewlineAt, Texts, ClassifyAll, Strip;
    lines := [];
    var buf := UptoNul(file);
    var section, p := None, 0;
    assert buf[0..] == buf;
    while p < |buf|
      invariant p <= |buf| && Load(file) == lines + ClassifyAll(section, Texts(buf[p..]))
    {
      var n := NewlineAt(buf[p..]);
      var text := Strip(buf[p..p + n]);
      LoadStep(buf, p, section);
      var l := ReadLine(text);
      if l.Entry? && section.None? { l := Raw(text); }
      lines := lines + [l];
      if p + n == |buf| { return; }
      if l.Section? { section := Some(l.name); }
      p := p + n + 1;
    }
    NothingLeft(section, buf[p..]);
  }

  lemma NothingLeft(cur: Option<Text>, f: seq<byte>)
    requires f == []
    ensures ClassifyAll(cur, Texts(f)) == []
  {
  }

  lemma IntMatched(v: Value, t: Type)
    requires IsInt(t) && CheckType(v.vtype, v.lit) && Normal(v.lit) && IntMatches(v, t)
    ensures v.lit.Int? && ReadBack(v.lit.neg, v.lit.mag, t) == IntOf(v.lit.neg, v.lit.mag)
  {
    hide ReadBack, IntFits, IntOf;
    IntReadsBack(v.lit.neg, v.lit.mag, t);
  }

  lemma VarMatched(v: Value, t: Type)
    requires (t == StrType || t == BlobType) && CheckType(v.vtype, v.lit) && VarMatches(v, t)
    ensures !v.lit.Int?
  {
  }

  class Store {
    var lines: seq<Line>
    var loaded: bool
    var file: seq<byte>
    var handles: map<nat, Handle>
    var next: nat

    ghost predicate Valid()
      reads this
    {
      && (if loaded then Coherent(None, lines) else lines == [])
      && (forall h | h in handles :: h < next && NoNul(handles[h].ns))
    }

    /** The lines as the next call will see them. */
    ghost function View(): seq<Line>
      reads this
    {
      if loaded then lines else Load(file)
    }

    /** What the store holds. */
    ghost function Contents(): Bindings
      reads this
    {
      Bound(View())
    }

    /** The lines as the next call will see them, and the file. */
    ghost function Now(): Image
      reads this
    {
      Image(View(), file)
    }

    constructor (file: seq<byte>)
      ensures Valid() && this.file == file && View() == Load(file) && handles == map[]
    {
      this.file := file;
      lines, loaded, handles, next := [], false, map[], 1;
    }

    // ----- loading and saving

    method EnsureLoaded()
      requires Valid()
      modifies this`lines, this`loaded
      ensures Valid() && loaded && lines == old(View())
    {
      hide Coherent;
      if loaded { return; }
      loaded := true;
      lines := LoadLines(file);
      LoadCoherent(file);
    }

    method SaveUnlocked()
      modifies this`file
      ensures file == Save(lines)
    {
      file := [];
      var i := 0;
      assert lines[0..] == lines;
      while i < |lines|
        invariant 0 <= i <= |lines| && file + Save(lines[i..]) == Save(lines)
      {
        var piece := lines[i].text + [NEWLINE];
        assert lines[i..][1..] == lines[i + 1..];
        assert file + (piece + Save(lines[i + 1..])) == file + piece + Save(lines[i + 1..]);
        file := file + piece;
        i := i + 1;
      }
      assert file + Save(lines[i..]) == file;
    }

    // ----- walking the list

    method FindNs(ns: Text) returns (r: bool)
      ensures r <==> exists i | 0 <= i < |lines| :: lines[i].Section? && lines[i].name == ns
    {
      var i := 0;
      while i < |lines|
        invariant 0 <= i <= |lines|
        invariant forall j | 0 <= j < i :: !(lines[j].Section? && lines[j].name == ns)
      {
        if lines[i].Section? && lines[i].name == ns { return true; }
        i := i + 1;
      }
      return false;
    }

    method FindEntry(ns: Text, key: Text) returns (found: Option<nat>)
      ensures found == Find(lines, Key(ns, key))
    {
      found := None;
      var within, i := false, 0;
      while i < |lines|
        invariant 0 <= i <= |lines|
        invariant within == (Current(None, lines[..i]) == Some(ns)) && found == Find(lines[..i], Key(ns, key))
      {
        var l := lines[i];
        TakeNext(lines, i);
        if l.Section? {
          within := l.name == ns;
        } else if within && l.Entry? && l.name == key {
          found := Some(i);
        }
        i := i + 1;
      }
      assert lines[..i] == lines;
    }

    method InsertPosition(ns: Text) returns (found: bool, at: nat)
      ensures InsertPoint(lines, ns) == if found then Some(at) else None
    {
      at, found := 0, false;
      var within, i := false, 0;
      while i < |lines|
        invariant 0 <= i <= |lines|
        invariant within == (Current(None, lines[..i]) == Some(ns))
        invariant InsertPoint(lines[..i], ns) == if found then Some(at) else None
      {
        var l := lines[i];
        TakeNext(lines, i);
        if l.Section? { within := l.name == ns; }
        if within && !l.Raw? {
          at, found := i + 1, true;
        }
        i := i + 1;
      }
      assert lines[..i] == lines;
    }

    /** `insert_entry` */
    method InsertEntry(ns: Text, entry: Line)
      modifies this`lines
      ensures lines == Inserted(old(lines), ns, entry)
    {
      hide InsertPoint;
      ghost var s := lines;
      var found, at := InsertPosition(ns);
      if !found {
        if lines != [] && lines[|lines| - 1].text != [] {
          lines := lines + [Raw([])];
        }
        var name := PutName(ns);
        lines := lines + [Section([LBRACKET] + name + [RBRACKET], ns)];
        assert lines == s + Heading(s, ns);
        at := |lines|;
        assert lines[..at] == lines && lines[at..] == [];
        assert lines[..at] + [entry] + lines[at..] == lines + [entry];
      }
      lines := lines[..at] + [entry] + lines[at..];
    }

    method RemoveEntries(ns: Text, key: Option<Text>) returns (removed: nat)
      modifies this`lines
      ensures lines == Removed(old(lines), ns, key) && removed == |old(lines)| - |lines|
    {
      hide Current, Removed;
      ghost var s := lines;
      var kept, within, i := 0, false, 0;
      removed := 0;
      NothingYet(ns, key);
      while i < |lines|
        invariant 0 <= kept <= i <= |lines| == |s| && kept + removed == i
        invariant lines[..kept] == Removed(s[..i], ns, key)
        invariant forall j | i <= j < |s| :: lines[j] == s[j]
        invariant within == (Current(None, s[..i]) == Some(ns))
      {
        var l := lines[i];
        assert l == s[i];
        TakeNext(s, i);
        SectionStep(s[..i], l);
        RemoveStep(s[..i], l, ns, key);
        if l.Section? { within := l.name == ns; }
        if within && l.Entry? && (key.None? || l.name == key.value) {
          removed := removed + 1;
        } else {
          Compacted(lines, kept, l);
          lines := lines[kept := l];
          kept := kept + 1;
        }
        i := i + 1;
      }
      assert s[..i] == s;
      lines := lines[..kept];
    }

    method EraseExceptReserved()
      modifies this`lines
      ensures lines == Erased(old(lines), Reserved())
    {
      hide Current, Reserved, Erased;
      ghost var s := lines;
      var kept, drop, i := 0, false, 0;
      NothingYet(Reserved(), None);
      while i < |lines|
        invariant 0 <= kept <= i <= |lines| == |s|
        invariant lines[..kept] == Erased(s[..i], Reserved())
        invariant forall j | i <= j < |s| :: lines[j] == s[j]
        invariant drop == Drops(Current(None, s[..i]), Reserved())
      {
        var l := lines[i];
        assert l == s[i];
        TakeNext(s, i);
        SectionStep(s[..i], l);
        EraseStep(s[..i], l, Reserved());
        if l.Section? { drop := l.name != Reserved(); }
        if !drop {
          Compacted(lines, kept, l);
          lines := lines[kept := l];
          kept := kept + 1;
        }
        i := i + 1;
      }
      assert s[..i] == s;
      lines := lines[..kept];
    }

    // ----- calls that write

    /** `set_value` */
    method SetValue(h: nat, key: Text, t: Type, l: Literal) returns (r: Error)
      requires Valid() && NoNul(key) && Settable(t, l)
      modifies this`lines, this`loaded, this`file
      ensures Valid() && loaded
      ensures r == if h !in handles then InvalidHandle else if handles[h].readonly then ReadOnly else Ok
      ensures r != Ok ==> Now() == old(Now())
      ensures r == Ok ==>
                var k := Key(handles[h].ns, key);
                && Printable(old(View())) && Now() == Step(old(Now()), Op.Set(k, t, l))
                && Contents() == old(Contents())[k := Value(t, l)]
    {
      hide Coherent, Find, Inserted, Bound, Load, Save, Render, Settable, SetLines;
      EnsureLoaded();
      if h !in handles { return InvalidHandle; }
      if handles[h].readonly { return ReadOnly; }
      var k := Key(handles[h].ns, key);
      CoherentPrintable(lines);
      SetCoherent(lines, k, t, l);
      SetBinds(lines, k, t, l);
      StoreEntry(k, t, l);
      SaveUnlocked();
      return Ok;
    }

    /** Finds the line of the key, or makes one, and prints the value into it. */
    method StoreEntry(k: Key, t: Type, l: Literal)
      requires Printable(lines)
      modifies this`lines
      ensures lines == SetLines(old(lines), k, t, l)
    {
      hide Find, Inserted, Bound, Render, NewEntry, SetLines, EntryAt;
      ghost var s := lines;
      var at := FindEntry(k.ns, k.name);
      if at.None? {
        var name := PutName(k.name);
        var entry := Entry(name, k.name, |name|, |name|, NoType, Int(false, 0));
        NewEntryIs(entry, k.name);
        InsertEntry(k.ns, entry);
        InsertBinds(s, k, entry);
        InsertedAt(s, k.ns, entry, Render(entry, t, l));
        at := FindEntry(k.ns, k.name);
      }
      var e := lines[at.value].(vtype := t, lit := l);
      RenderIgnoresValue(lines[at.value], t, l);
      var rendered := EntryRender(e);
      lines := lines[at.value := rendered];
      SetLinesIs(s, k, t, l);
    }

    method SetInt(h: nat, key: Text, t: Type, v: int) returns (r: Error)
      requires Valid() && NoNul(key) && IsInt(t) && Least(t) <= v <= Greatest(t)
      modifies this`lines, this`loaded, this`file
      ensures Valid() && r == if h !in handles then InvalidHandle else if handles[h].readonly then ReadOnly else Ok
      ensures r == Ok ==> IntIn(Contents(), Key(handles[h].ns, key), t) == Some(v)
    {
      hide Coherent, Bound, Load, IntIn;
      SetterFits(v, t);
      ghost var m := Contents();
      r := SetValue(h, key, t, IntLiteral(v));
      if r == Ok { SetThenGet(m, Key(handles[h].ns, key), t, v, t); }
    }

    method EraseKey(h: nat, key: Text) returns (r: Error)
      requires Valid()
      modifies this`lines, this`loaded, this`file
      ensures Valid() && loaded
      ensures r == if h !in handles then InvalidHandle else if handles[h].readonly then ReadOnly
                   else if Key(handles[h].ns, key) !in old(Contents()) then NotFound else Ok
      ensures r != Ok ==> Now() == old(Now())
      ensures r == Ok ==> Contents() == old(Contents()) - {Key(handles[h].ns, key)}
      ensures r == Ok || r == NotFound ==>
                Printable(old(View())) && Now() == Step(old(Now()), Op.EraseKey(Key(handles[h].ns, key)))
    {
      hide Coherent, Bound, Load, Save, Removed;
      EnsureLoaded();
      if h !in handles { return InvalidHandle; }
      if handles[h].readonly { return ReadOnly; }
      var ns := handles[h].ns;
      ghost var s, k := lines, Key(ns, key);
      CoherentPrintable(s);
      RemoveCoherent(s, ns, Some(key));
      RemoveUnbinds(s, ns, Some(key));
      RemovedSome(s, ns, Some(key));
      assert forall j | j in Bound(s) :: Hit(j, ns, Some(key)) <==> j == k;
      assert Without(Bound(s), ns, Some(key)) == Bound(s) - {k};
      var removed := RemoveEntries(ns, Some(key));
      if removed == 0 { return NotFound; }
      SaveUnlocked();
      return Ok;
    }

    method EraseAll(h: nat) returns (r: Error)
      requires Valid()
      modifies this`lines, this`loaded, this`file
      ensures Valid() && loaded
      ensures r == if h !in handles then InvalidHandle else if handles[h].readonly then ReadOnly else Ok
      ensures r != Ok ==> Now() == old(Now())
      ensures r == Ok ==>
                && Printable(old(View())) && Now() == Step(old(Now()), Op.EraseAll(handles[h].ns))
                && Contents() == map k | k in old(Contents()) && k.ns != handles[h].ns :: old(Contents())[k]
    {
      hide Coherent, Bound, Load, Save, Removed;
      EnsureLoaded();
      if h !in handles { return InvalidHandle; }
      if handles[h].readonly { return ReadOnly; }
      var ns := handles[h].ns;
      CoherentPrintable(lines);
      RemoveCoherent(lines, ns, None);
      RemoveUnbinds(lines, ns, None);
      var removed := RemoveEntries(ns, None);
      SaveUnlocked();
      return Ok;
    }

    method FlashErase()
      requires Valid()
      modifies this`lines, this`loaded, this`file
      ensures Valid() && loaded && Printable(old(View())) && Now() == Step(old(Now()), Op.EraseFlash)
      ensures Contents() == Only(old(Contents()), Reserved())
    {
      hide Coherent, Bound, Load, Save, Erased, Reserved;
      EnsureLoaded();
      CoherentPrintable(lines);
      EraseCoherent(lines, Reserved());
      EraseKeepsReserved(lines, Reserved());
      EraseExceptReserved();
      SaveUnlocked();
    }

    // ----- handles

    method Open(ns: Text, readonly: bool) returns (r: Error, h: nat)
      requires Valid() && NoNul(ns)
      modifies this`lines, this`loaded, this`handles, this`next
      ensures Valid() && loaded && lines == old(View())
      ensures r == (if readonly && !(exists i | 0 <= i < |lines| :: lines[i].Section? && lines[i].name == ns) then NotFound else Ok)
      ensures r == Ok ==> h !in old(handles) && handles == old(handles)[h := Handle(ns, readonly)]
      ensures r != Ok ==> handles == old(handles)
    {
      EnsureLoaded();
      h := 0;
      if readonly {
        var known := FindNs(ns);
        if !known { return NotFound, h; }
      }
      h := next;
      next := next + 1;
      handles := handles[h := Handle(ns, readonly)];
      r := Ok;
    }

    method Close(h: nat)
      requires Valid()
      modifies this`handles
      ensures Valid() && handles == old(handles) - {h}
    {
      handles := handles - {h};
    }

    /** `nvs_commit` writes the lines in memory without loading first, so on a store that
        is not loaded (`SetPath` with a handle still open) it empties the file. */
    method Commit(h: nat) returns (r: Error)
      requires Valid()
      modifies this`file
      ensures Valid() && r == if h in handles then Ok else InvalidHandle
      ensures r != Ok ==> file == old(file)
      ensures r == Ok ==> file == Save(lines) && Contents() == if loaded then old(Contents()) else map[]
      ensures r == Ok && loaded ==> Printable(old(View())) && Now() == Step(old(Now()), Op.Commit)
    {
      hide Coherent;
      if h !in handles { return InvalidHandle; }
      if loaded { CoherentPrintable(lines); }
      SaveUnlocked();
      return Ok;
    }

    /** `nvs_flash_sim_set_path`: another file, read at the next call that loads. */
    method SetPath(file: seq<byte>)
      requires Valid()
      modifies this`lines, this`loaded, this`file
      ensures Valid() && !loaded && this.file == file && Contents() == Bound(Load(file))
    {
      lines, loaded := [], false;
      this.file := file;
    }

    // ----- calls that read

    method Lookup(k: Key) returns (at: Option<nat>)
      requires Coherent(None, lines)
      ensures at.Some? <==> k in Bound(lines)
      ensures at.Some? ==>
                && at.value < |lines| && lines[at.value].Entry?
                && Bound(lines)[k] == Value(lines[at.value].vtype, lines[at.value].lit)
                && CheckType(lines[at.value].vtype, lines[at.value].lit) && Normal(lines[at.value].lit)
    {
      hide Coherent, Bound, Find, CheckType, Normal;
      FindIsLookup(lines, k);
      at := FindEntry(k.ns, k.name);
      if at.Some? { CoherentEntry(lines, at.value); }
    }

    /** The part of `get_int` below the lookup of the handle. */
    method FetchInt(k: Key, t: Type) returns (r: Error, v: int)
      requires Coherent(None, lines) && IsInt(t)
      ensures r == if IntIn(Bound(lines), k, t).None? then NotFound else Ok
      ensures r == Ok ==> IntIn(Bound(lines), k, t) == Some(v)
    {
      hide Coherent, Bound, CheckType, Normal, IntFits, ReadBack, IntOf;
      v := 0;
      var at := Lookup(k);
      if at.None? { return NotFound, v; }
      var l := lines[at.value];
      if if l.vtype == NoType then !l.lit.Int? || !IntFits(l.lit.neg, l.lit.mag, t) else l.vtype != t {
        return NotFound, v;
      }
      IntMatched(Value(l.vtype, l.lit), t);
      return Ok, ReadBack(l.lit.neg, l.lit.mag, t);
    }

    method GetInt(h: nat, key: Text, t: Type) returns (r: Error, v: int)
      requires Valid() && IsInt(t)
      modifies this`lines, this`loaded
      ensures Valid() && loaded && lines == old(View())
      ensures r == if h !in handles then InvalidHandle
                   else if IntIn(Contents(), Key(handles[h].ns, key), t).None? then NotFound else Ok
      ensures r == Ok ==> IntIn(Contents(), Key(handles[h].ns, key), t) == Some(v)
    {
      hide Coherent, Bound, Load, IntIn;
      EnsureLoaded();
      v := 0;
      if h !in handles { return InvalidHandle, v; }
      r, v := FetchInt(Key(handles[h].ns, key), t);
    }

    /** The part of `get_var` below the lookup of the handle; without a buffer it only
        reports the size. */
    method FetchVar(k: Key, t: Type, out: array?<byte>, length: nat) returns (r: Error, size: nat)
      requires Coherent(None, lines) && (t == StrType || t == BlobType) && (out != null ==> length <= out.Length)
      modifies out
      ensures (r, size) == VarAnswer(Bound(lines), k, t, out != null, length)
      ensures out != null ==> out[..] == if r == Ok then Overwritten(old(out[..]), VarIn(Bound(lines), k, t).value) else old(out[..])
    {
      hide Coherent, Bound, CheckType, Normal, Overwritten;
      size := length;
      var at := Lookup(k);
      if at.None? { return NotFound, size; }
      var l := lines[at.value];
      if !(if l.vtype == NoType then l.lit.Str? || (t == BlobType && l.lit.Blob?) else l.vtype == t) {
        return NotFound, size;
      }
      VarMatched(Value(l.vtype, l.lit), t);
      ghost var bytes := l.lit.data + if t == StrType then [0] else [];
      var need := |l.lit.data| + if t == StrType then 1 else 0;
      if out == null { return Ok, need; }
      if length < need { return InvalidLength, size; }
      CopyOut(l.lit.data, t == StrType, out);
      return Ok, need;
    }

    static method CopyOut(data: seq<byte>, terminated: bool, out: array<byte>)
      requires |data| + (if terminated then 1 else 0) <= out.Length
      modifies out
      ensures out[..] == Overwritten(old(out[..]), data + if terminated then [0] else [])
    {
      forall i | 0 <= i < |data| { out[i] := data[i]; }
      if terminated { out[|data|] := 0; }
      assert out[..] == Overwritten(old(out[..]), data + if terminated then [0] else []);
    }

    method GetVar(h: nat, key: Text, t: Type, out: array?<byte>, length: nat) returns (r: Error, size: nat)
      requires Valid() && (t == StrType || t == BlobType) && (out != null ==> length <= out.Length)
      modifies this`lines, this`loaded, out
      ensures Valid() && loaded && lines == old(View())
      ensures h !in handles ==> r == InvalidHandle && size == length && (out != null ==> out[..] == old(out[..]))
      ensures h in handles ==> (r, size) == VarAnswer(Contents(), Key(handles[h].ns, key), t, out != null, length)
      ensures out != null && r != Ok ==> out[..] == old(out[..])
      ensures r == Ok && out != null ==>
                && size <= out.Length && out[size..] == old(out[size..])
                && VarIn(Contents(), Key(handles[h].ns, key), t) == Some(out[..size])
    {
      hide Coherent, Bound, Load, VarIn, Overwritten;
      EnsureLoaded();
      if h !in handles { return InvalidHandle, length; }
      ghost var was := if out != null then out[..] else [];
      r, size := FetchVar(Key(handles[h].ns, key), t, out, length);
      if r == Ok && out != null {
        ghost var data := VarIn(Bound(lines), Key(handles[h].ns, key), t).value;
        OverwrittenParts(was, data);
        assert out[..size] == out[..][..size] && out[size..] == out[..][size..];
      }
    }

    method CountUsed(ns: Text) returns (count: nat)
      ensures count == |set k | k in Bound(lines) && k.ns == ns|
    {
      hide Bound, Find, Current;
      count := 0;
      var within, i := false, 0;
      NothingYet(ns, None);
      while i < |lines|
        invariant 0 <= i <= |lines| && within == (Current(None, lines[..i]) == Some(ns))
        invariant count == Used(lines, i, ns)
      {
        var l := lines[i];
        TakeNext(lines, i);
        SectionStep(lines[..i], l);
        if l.Section? {
          within := l.name == ns;
        } else if within && l.Entry? {
          var found := FindEntry(ns, l.name);
          if found == Some(i) { count := count + 1; }
        }
        i := i + 1;
      }
      UsedIsKeys(lines, ns);
    }

    method UsedEntryCount(h: nat) returns (r: Error, count: nat)
      requires Valid()
      modifies this`lines, this`loaded
      ensures Valid() && loaded && lines == old(View())
      ensures r == if h in handles then Ok else InvalidHandle
      ensures r == Ok ==> count == |set k | k in Contents() && k.ns == handles[h].ns|
    {
      hide Coherent, Bound, Load;
      EnsureLoaded();
      if h !in handles { return InvalidHandle, 0; }
      count := CountUsed(handles[h].ns);
      r := Ok;
    }
  }

  /** The program starts again: a store on the file, with no handle open. */
  method StartAgain(s: Store) returns (t: Store)
    requires s.Valid()
    ensures fresh(t) && t.Valid() && t.handles == map[]
    ensures Printable(s.View()) && t.Now() == Step(s.Now(), Restart)
  {
    hide Coherent, Load;
    if !s.loaded { LoadCoherent(s.file); }
    CoherentPrintable(s.View());
    t := new Store(s.file);
  }

  /** A commit through a handle that was open before another file was chosen empties that
      file, whatever it holds. */
  method CommitAfterSetPath(s: Store, ns: Text, f: seq<byte>, k: Key)
    requires s.Valid() && NoNul(ns) && k in Bound(Load(f))
    modifies s
    ensures s.Valid() && s.file == [] && k !in s.Contents()
  {
    hide Coherent, Load, Bound;
    var r, h := s.Open(ns, false);
    s.SetPath(f);
    assert k in s.Contents();
    r := s.Commit(h);
    NothingSaved();
  }

  lemma NothingSaved()
    ensures Save([]) == []
  {
  }

  lemma RemoveStep(s: seq<Line>, l: Line, ns: Text, key: Option<Text>)
    ensures Removed(s + [l], ns, key) ==
            Removed(s, ns, key) + if Removes(Current(None, s), l, ns, key) then [] else [l]
  {
    FrontLast(s, l);
  }

  lemma EraseStep(s: seq<Line>, l: Line, reserved: Text)
    ensures Erased(s + [l], reserved) == Erased(s, reserved) + if Drops(Current(None, s + [l]), reserved) then [] else [l]
  {
    FrontLast(s, l);
  }

  /** One step of moving the kept lines to the front. */
  lemma Compacted(s: seq<Line>, kept: nat, l: Line)
    requires kept < |s|
    ensures s[kept := l][..kept + 1] == s[..kept] + [l]
    ensures forall j | kept < j < |s| :: s[kept := l][j] == s[j]
  {
  }

  /** Before the first line no section is in force and nothing is kept. */
  lemma NothingYet(ns: Text, key: Option<Text>)
    ensures Current(None, []) == None && Removed([], ns, key) == [] == Erased([], ns)
  {
  }

  lemma SectionStep(s: seq<Line>, l: Line)
    ensures Current(None, s + [l]) == if l.Section? then Some(l.name) else Current(None, s)
  {
    FrontLast(s, l);
  }

  lemma NewEntryIs(e: Line, key: Text)
    requires e == Entry(NameText(key), key, |NameText(key)|, |NameText(key)|, NoType, Int(false, 0))
    ensures e == NewEntry(key)
  {
  }

  /** Rendering writes the stored value, whatever was stored before. */
  lemma RenderIgnoresValue(e: Line, t: Type, l: Literal)
    requires e.Entry? && e.keyEnd <= |e.text| && e.valueEnd <= |e.text|
    ensures Render(e.(vtype := t, lit := l), t, l) == Render(e, t, l)
  {
  }

  lemma SetLinesIs(s: seq<Line>, k: Key, t: Type, l: Literal)
    requires Printable(s)
    ensures SetLines(s, k, t, l) ==
            match Find(s, k)
            case Some(i) => s[i := Render(s[i], t, l)]
            case None => Inserted(s, k.ns, Render(NewEntry(k.name), t, l))
  {
  }
}
