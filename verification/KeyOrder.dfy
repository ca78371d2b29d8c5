/** RFC 8785 section 3.2.3 sorts keys by UTF-16 code units; the program sorts them by code point. */
module KeyOrder {
  import opened Text
  import opened Json
  import opened JsonRoundTrip
  import opened JsonCanonical

  function Units(c: char): seq<nat> {
    if c as int < 0x1_0000 then [c as int] else [HighSurrogate(c as int), LowSurrogate(c as int)]
  }

  function Utf16(s: string): seq<nat> {
    if s == "" then [] else Units(s[0]) + Utf16(s[1..])
  }

  predicate UnitsLess(a: seq<nat>, b: seq<nat>) {
    b != [] && (a == [] || a[0] < b[0] || (a[0] == b[0] && UnitsLess(a[1..], b[1..])))
  }

  predicate Astral(c: char) { 0x1_0000 <= c as int }

  /** U+E000 to U+FFFF: above the surrogates as a unit, below the astral planes as a code point. */
  predicate AboveSurrogates(c: char) { 0xE000 <= c as int < 0x1_0000 }

  /** The first place the strings differ holds one astral character and one above the surrogates. */
  predicate Crossed(a: string, b: string) {
    a != "" && b != "" &&
    if a[0] == b[0] then Crossed(a[1..], b[1..])
    else (Astral(a[0]) && AboveSurrogates(b[0])) || (AboveSurrogates(a[0]) && Astral(b[0]))
  }

  lemma {:induction false} UnitsLessByHeads(p: seq<nat>, s: seq<nat>, t: seq<nat>)
    ensures UnitsLess(p + s, p + t) <==> UnitsLess(s, t)
  {
    if p == [] {
      assert p + s == s && p + t == t;
    } else {
      UnitsLessByHeads(p[1..], s, t);
      assert (p + s)[1..] == p[1..] + s && (p + t)[1..] == p[1..] + t;
    }
  }

  lemma DifferentUnits(c: char, d: char, s: seq<nat>, t: seq<nat>)
    requires c != d
    ensures UnitsLess(Units(c) + s, Units(d) + t)
        <==> if (Astral(c) && AboveSurrogates(d)) || (AboveSurrogates(c) && Astral(d)) then d < c else c < d
  {
    var a, b := Units(c) + s, Units(d) + t;
    if Astral(c) && Astral(d) {
      assert a[1..][0] == LowSurrogate(c as int) && b[1..][0] == LowSurrogate(d as int);
    }
  }

  /** The two key orders agree on two different keys exactly when the keys are not crossed. */
  lemma {:induction false} KeyOrdersAgreeIff(a: string, b: string)
    requires a != b
    ensures (UnitsLess(Utf16(a), Utf16(b)) <==> Less(a, b)) <==> !Crossed(a, b)
  {
    if a != "" && b != "" {
      if a[0] == b[0] {
        assert a == [a[0]] + a[1..] && b == [b[0]] + b[1..];
        KeyOrdersAgreeIff(a[1..], b[1..]);
        UnitsLessByHeads(Units(a[0]), Utf16(a[1..]), Utf16(b[1..]));
      } else {
        DifferentUnits(a[0], b[0], Utf16(a[1..]), Utf16(b[1..]));
      }
    }
  }

  /** A pair of keys the program sorts the other way round than RFC 8785. */
  lemma KeyOrderCounterexample()
    ensures Less("\U{E000}", "\U{10000}") && UnitsLess(Utf16("\U{10000}"), Utf16("\U{E000}"))
  {
    assert Utf16("\U{10000}")[0] == 0xD800;
    assert Utf16("\U{E000}")[0] == 0xE000;
  }

  /* ---------- whole texts ---------- */

  ghost predicate UnitsAscend(entries: seq<Entry>) {
    forall i, j | 0 <= i < j < |entries| :: UnitsLess(Utf16(entries[i].key), Utf16(entries[j].key))
  }

  /** Every dict in strictly ascending order of the UTF-16 units of its keys. */
  ghost predicate UnitOrdered(v: Json) {
    match v
    case Arr(items) => forall i | 0 <= i < |items| :: UnitOrdered(items[i])
    case Obj(entries) =>
      && UnitsAscend(entries)
      && forall i | 0 <= i < |entries| :: UnitOrdered(entries[i].value)
    case _ => true
  }

  ghost predicate UncrossedFields(fields: map<string, Value>) {
    forall a, b | a in fields && b in fields :: !Crossed(a, b)
  }

  ghost predicate UncrossedEntries(entries: seq<Entry>) {
    forall i, j | 0 <= i < j < |entries| :: !Crossed(entries[i].key, entries[j].key)
  }

  /** No dict holds a crossed pair of keys. */
  ghost predicate NoneCrossed(v: Value) {
    match v
    case VList(items) => forall i | 0 <= i < |items| :: NoneCrossed(items[i])
    case VDict(fields) =>
      && UncrossedFields(fields)
      && forall key | key in fields :: NoneCrossed(fields[key])
    case _ => true
  }

  /** The same, of the dicts as they are listed. */
  ghost predicate NonePaired(v: Json) {
    match v
    case Arr(items) => forall i | 0 <= i < |items| :: NonePaired(items[i])
    case Obj(entries) =>
      && UncrossedEntries(entries)
      && forall i | 0 <= i < |entries| :: NonePaired(entries[i].value)
    case _ => true
  }

  lemma {:induction false} CrossedIsSymmetric(a: string, b: string)
    ensures Crossed(a, b) <==> Crossed(b, a)
    ensures !Crossed(a, a)
  {
    if a != "" {
      CrossedIsSymmetric(a[1..], if b == "" then b else b[1..]);
    }
  }

  lemma {:induction false} ItemsMeaning(items: seq<Json>)
    ensures |MeaningItems(items)| == |items|
    ensures forall i | 0 <= i < |items| :: MeaningItems(items)[i] == Meaning(items[i])
  {
    if items != [] { ItemsMeaning(items[1..]); }
  }

  lemma KeysOfFields(entries: seq<Entry>, key: string) returns (i: nat)
    requires key in MeaningFields(entries)
    ensures i < |entries| && entries[i].key == key
  {
    FieldsHaveKeys(entries);
    i :| i < |entries| && entries[i].key == key;
  }

  lemma {:induction false} PairedIffCrossed(v: Json)
    requires WellFormed(v)
    ensures NonePaired(v) <==> NoneCrossed(Meaning(v))
    decreases v
  {
    match v
    case Arr(items) =>
      ItemsMeaning(items);
      forall i | 0 <= i < |items| ensures NonePaired(items[i]) <==> NoneCrossed(MeaningItems(items)[i]) {
        PairedIffCrossed(items[i]);
      }
    case Obj(entries) =>
      forall i | 0 <= i < |entries| ensures NonePaired(entries[i].value) <==> NoneCrossed(Meaning(entries[i].value)) {
        PairedIffCrossed(entries[i].value);
      }
      DictCrossed(entries);
    case _ =>
  }

  lemma DictCrossed(entries: seq<Entry>)
    requires UniqueKeys(entries)
    ensures NoneCrossed(Meaning(Obj(entries)))
       <==> UncrossedEntries(entries) && forall i | 0 <= i < |entries| :: NoneCrossed(Meaning(entries[i].value))
  {
    PairsOfFields(entries);
    ValuesOfFields(entries);
    assert Meaning(Obj(entries)) == VDict(MeaningFields(entries));
    hide UncrossedEntries, UncrossedFields, Meaning, MeaningFields;
  }

  lemma PairsOfFields(entries: seq<Entry>)
    requires UniqueKeys(entries)
    ensures UncrossedEntries(entries) <==> UncrossedFields(MeaningFields(entries))
  {
    hide MeaningFields, Crossed;
    forall i | 0 <= i < |entries| ensures entries[i].key in MeaningFields(entries) { FieldIs(entries, i); }
    if a, b :| a in MeaningFields(entries) && b in MeaningFields(entries) && Crossed(a, b) {
      var i := KeysOfFields(entries, a);
      var j := KeysOfFields(entries, b);
      CrossedIsSymmetric(a, b);
      CrossedIsSymmetric(a, a);
      assert i < j || j < i;
    }
  }

  lemma ValuesOfFields(entries: seq<Entry>)
    requires UniqueKeys(entries)
    ensures (forall i | 0 <= i < |entries| :: NoneCrossed(Meaning(entries[i].value)))
       <==> forall key | key in MeaningFields(entries) :: NoneCrossed(MeaningFields(entries)[key])
  {
    hide MeaningFields, NoneCrossed, Meaning;
    forall i | 0 <= i < |entries|
      ensures entries[i].key in MeaningFields(entries)
      ensures MeaningFields(entries)[entries[i].key] == Meaning(entries[i].value)
    {
      FieldIs(entries, i);
    }
    if key :| key in MeaningFields(entries) && !NoneCrossed(MeaningFields(entries)[key]) {
      var i := KeysOfFields(entries, key);
    }
  }

  /** A value in UTF-16 order is in code point order too exactly when no dict lists a crossed pair. */
  lemma {:induction false} BothOrdersIff(v: Json)
    requires WellFormed(v) && UnitOrdered(v)
    ensures Ordered(v) <==> NonePaired(v)
    decreases v
  {
    match v
    case Arr(items) =>
      forall i | 0 <= i < |items| ensures Ordered(items[i]) <==> NonePaired(items[i]) { BothOrdersIff(items[i]); }
    case Obj(entries) =>
      forall i | 0 <= i < |entries| ensures Ordered(entries[i].value) <==> NonePaired(entries[i].value) {
        BothOrdersIff(entries[i].value);
      }
      forall i, j | 0 <= i < j < |entries|
        ensures Less(entries[i].key, entries[j].key) <==> !Crossed(entries[i].key, entries[j].key)
      {
        KeyOrdersAgreeIff(entries[i].key, entries[j].key);
      }
    case _ =>
  }

  /** Canonical text is the text with every dict in UTF-16 order exactly when no dict holds a crossed
      pair of keys. */
  lemma CanonicalTextAgreesIff(v: Json, w: Json)
    requires WellFormed(v) && WellFormed(w) && Meaning(w) == Meaning(v) && UnitOrdered(w)
    ensures Print(w, CANONICAL, 0) == Canonicalize(v) <==> NoneCrossed(Meaning(v))
  {
    hide UnitOrdered, Ordered, NonePaired, NoneCrossed, Meaning, SortKeys, Print, WellFormed, Loads;
    SortKeysFacts(v);
    BothOrdersIff(w);
    PairedIffCrossed(w);
    var sorted := SortKeys(v);
    assert Canonicalize(v) == Print(sorted, CANONICAL, 0);
    if Ordered(w) {
      OrderedIsUnique(w, sorted);
    }
    if Print(w, CANONICAL, 0) == Print(sorted, CANONICAL, 0) {
      LoadsOfPrint(w, CANONICAL, "", "");
      LoadsOfPrint(sorted, CANONICAL, "", "");
    }
  }

  /* ---------- every value has its UTF-16 order ---------- */

  lemma {:induction false} UnitsLessIsTransitive(a: seq<nat>, b: seq<nat>, c: seq<nat>)
    requires UnitsLess(a, b) && UnitsLess(b, c)
    ensures UnitsLess(a, c)
  {
    if a != [] && a[0] == b[0] == c[0] {
      UnitsLessIsTransitive(a[1..], b[1..], c[1..]);
    }
  }

  lemma UnitsAreTotal(a: string, b: string)
    requires a != b
    ensures UnitsLess(Utf16(a), Utf16(b)) || UnitsLess(Utf16(b), Utf16(a))
  {
    hide UnitsLess, Utf16, Crossed;
    KeyOrdersAgreeIff(a, b);
    KeyOrdersAgreeIff(b, a);
    CrossedIsSymmetric(a, b);
    LessIsTotal(a, b);
  }

  /** An entry with a new key finds its place. */
  lemma {:induction false} InsertInUnits(e: Entry, entries: seq<Entry>) returns (r: seq<Entry>)
    requires UnitsAscend(entries) && !HasKey(entries, e.key)
    ensures UnitsAscend(r) && MeaningFields(r) == MeaningFields(entries)[e.key := Meaning(e.value)]
    ensures forall x | x in r :: x == e || x in entries
  {
    hide Utf16, UnitsLess, Meaning;
    if entries == [] || UnitsLess(Utf16(e.key), Utf16(entries[0].key)) {
      r := [e] + entries;
      assert r[1..] == entries;
      LeastInUnits(e, entries);
    } else {
      HasKeyCons(entries, e.key);
      UnitsAreTotal(e.key, entries[0].key);
      var rest := InsertInUnits(e, entries[1..]);
      r := [entries[0]] + rest;
      assert r[1..] == rest;
      forall j | 0 <= j < |rest| ensures UnitsLess(Utf16(entries[0].key), Utf16(rest[j].key)) {
        assert rest[j] in rest;
      }
    }
  }

  lemma LeastInUnits(e: Entry, entries: seq<Entry>)
    requires UnitsAscend(entries) && (entries == [] || UnitsLess(Utf16(e.key), Utf16(entries[0].key)))
    ensures UnitsAscend([e] + entries)
  {
    hide Utf16, UnitsLess;
    forall j | 0 < j < |entries| ensures UnitsLess(Utf16(e.key), Utf16(entries[j].key)) {
      UnitsLessIsTransitive(Utf16(e.key), Utf16(entries[0].key), Utf16(entries[j].key));
    }
  }

  lemma UnitsAscendAreUnique(entries: seq<Entry>)
    requires UnitsAscend(entries)
    ensures UniqueKeys(entries)
  {
    hide Utf16;
    forall i, j | 0 <= i < j < |entries| ensures entries[i].key != entries[j].key {
      NotBelowItself(Utf16(entries[i].key));
    }
  }

  lemma {:induction false} NotBelowItself(a: seq<nat>)
    ensures !UnitsLess(a, a)
  {
    if a != [] { NotBelowItself(a[1..]); }
  }

  /** Every value can be written with all its dicts in UTF-16 order. */
  lemma {:induction false} UnitOrderExists(v: Json) returns (w: Json)
    requires WellFormed(v)
    ensures WellFormed(w) && UnitOrdered(w) && Meaning(w) == Meaning(v)
    decreases v, 1
  {
    match v
    case Arr(items) =>
      var sorted := ItemsInUnits(items);
      w := Arr(sorted);
    case Obj(entries) =>
      var sorted := EntriesInUnits(entries);
      UnitsAscendAreUnique(sorted);
      w := Obj(sorted);
    case _ => w := v;
  }

  lemma {:induction false} ItemsInUnits(items: seq<Json>) returns (r: seq<Json>)
    requires forall i | 0 <= i < |items| :: WellFormed(items[i])
    ensures MeaningItems(r) == MeaningItems(items)
    ensures forall i | 0 <= i < |r| :: WellFormed(r[i]) && UnitOrdered(r[i])
    decreases items, 0
  {
    hide WellFormed, UnitOrdered, Meaning;
    if items == [] {
      r := [];
    } else {
      var first := UnitOrderExists(items[0]);
      var rest := ItemsInUnits(items[1..]);
      r := [first] + rest;
      assert r[1..] == rest;
    }
  }

  lemma {:induction false} EntriesInUnits(entries: seq<Entry>) returns (r: seq<Entry>)
    requires UniqueKeys(entries) && forall i | 0 <= i < |entries| :: WellFormed(entries[i].value)
    ensures UnitsAscend(r) && MeaningFields(r) == MeaningFields(entries)
    ensures forall i | 0 <= i < |r| :: WellFormed(r[i].value) && UnitOrdered(r[i].value)
    decreases entries, 0
  {
    hide WellFormed, UnitOrdered, Meaning, UnitsAscend;
    if entries == [] {
      r := [];
      NothingAscends();
    } else {
      var value := UnitOrderExists(entries[0].value);
      var rest := EntriesInUnits(entries[1..]);
      FieldsHaveKeys(rest);
      FieldsHaveKeys(entries[1..]);
      assert !HasKey(entries[1..], entries[0].key);
      r := InsertInUnits(Entry(entries[0].key, value), rest);
      forall i | 0 <= i < |r| ensures WellFormed(r[i].value) && UnitOrdered(r[i].value) {
        assert r[i] in r;
      }
    }
  }

  lemma NothingAscends()
    ensures UnitsAscend([])
  {}
}
