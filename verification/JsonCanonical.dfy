/** What canonical JSON is for: one text per value, whatever order its dicts were built in. */
module JsonCanonical {
  import opened Text
  import opened Json
  import opened JsonRoundTrip

  /** A JSON value up to the insertion order of its dicts. */
  datatype Value =
    | VNull
    | VBool(b: bool)
    | VInt(n: int)
    | VFloat(lexeme: Lexeme)
    | VStr(s: string)
    | VList(items: seq<Value>)
    | VDict(fields: map<string, Value>)

  function Meaning(v: Json): Value
    decreases v
  {
    match v
    case Null => VNull
    case Bool(b) => VBool(b)
    case Int(n) => VInt(n)
    case Float(lexeme) => VFloat(lexeme)
    case Str(s) => VStr(s)
    case Arr(items) => VList(MeaningItems(items))
    case Obj(entries) => VDict(MeaningFields(entries))
  }

  function MeaningItems(items: seq<Json>): seq<Value>
    decreases items
  {
    if items == [] then [] else [Meaning(items[0])] + MeaningItems(items[1..])
  }

  function MeaningFields(entries: seq<Entry>): map<string, Value>
    decreases entries
  {
    if entries == [] then map[]
    else MeaningFields(entries[1..])[entries[0].key := Meaning(entries[0].value)]
  }

  ghost predicate HasKey(entries: seq<Entry>, key: string) {
    exists i :: 0 <= i < |entries| && entries[i].key == key
  }

  lemma HasKeyCons(entries: seq<Entry>, key: string)
    requires entries != []
    ensures HasKey(entries, key) <==> entries[0].key == key || HasKey(entries[1..], key)
  {
    if HasKey(entries[1..], key) {
      var i :| 0 <= i < |entries[1..]| && entries[1..][i].key == key;
      assert entries[i + 1].key == key;
    }
    if HasKey(entries, key) && entries[0].key != key {
      var i :| 0 <= i < |entries| && entries[i].key == key;
      assert entries[1..][i - 1].key == key;
    }
  }

  lemma {:induction false} FieldsHaveKeys(entries: seq<Entry>)
    ensures forall key :: key in MeaningFields(entries) <==> HasKey(entries, key)
  {
    if entries != [] {
      FieldsHaveKeys(entries[1..]);
      forall key ensures key in MeaningFields(entries) <==> HasKey(entries, key) {
        HasKeyCons(entries, key);
      }
    }
  }

  /** What a dict with unique keys holds. */
  lemma {:induction false} FieldIs(entries: seq<Entry>, i: nat)
    requires UniqueKeys(entries) && i < |entries|
    ensures
      var fields := MeaningFields(entries);
      entries[i].key in fields && fields[entries[i].key] == Meaning(entries[i].value)
  {
    hide Meaning;
    if i > 0 {
      FieldIs(entries[1..], i - 1);
    }
  }

  /* ---------- sorted values ---------- */

  ghost predicate KeysAscend(entries: seq<Entry>) {
    forall i, j | 0 <= i < j < |entries| :: Less(entries[i].key, entries[j].key)
  }

  /** Every dict in strictly ascending order of its keys. */
  ghost predicate Ordered(v: Json) {
    match v
    case Arr(items) => forall i | 0 <= i < |items| :: Ordered(items[i])
    case Obj(entries) => KeysAscend(entries) && forall i | 0 <= i < |entries| :: Ordered(entries[i].value)
    case _ => true
  }

  lemma {:induction false} InsertEntryKeys(e: Entry, entries: seq<Entry>)
    ensures |InsertEntry(e, entries)| == |entries| + 1
    ensures forall i | 0 <= i < |InsertEntry(e, entries)| ::
              InsertEntry(e, entries)[i] == e || InsertEntry(e, entries)[i] in entries
  {
    if entries != [] && !Leq(e.key, entries[0].key) {
      InsertEntryKeys(e, entries[1..]);
    }
  }

  lemma {:induction false} InsertEntryAscends(e: Entry, entries: seq<Entry>)
    requires KeysAscend(entries) && !HasKey(entries, e.key)
    ensures KeysAscend(InsertEntry(e, entries))
  {
    if entries != [] {
      LessIsTotal(e.key, entries[0].key);
      HasKeyCons(entries, e.key);
      if Less(e.key, entries[0].key) {
        forall j | 0 < j < |entries| ensures Less(e.key, entries[j].key) {
          LessIsTransitive(e.key, entries[0].key, entries[j].key);
        }
      } else {
        InsertEntryAscends(e, entries[1..]);
        InsertEntryKeys(e, entries[1..]);
        forall j | 0 <= j < |InsertEntry(e, entries[1..])|
          ensures Less(entries[0].key, InsertEntry(e, entries[1..])[j].key)
        {}
      }
    }
  }

  lemma {:induction false} InsertEntryMeaning(e: Entry, entries: seq<Entry>)
    requires !HasKey(entries, e.key)
    ensures MeaningFields(InsertEntry(e, entries)) == MeaningFields(entries)[e.key := Meaning(e.value)]
  {
    if entries != [] {
      HasKeyCons(entries, e.key);
      if Leq(e.key, entries[0].key) {
        assert ([e] + entries)[1..] == entries;
      } else {
        InsertEntryMeaning(e, entries[1..]);
        assert ([entries[0]] + InsertEntry(e, entries[1..]))[1..] == InsertEntry(e, entries[1..]);
      }
    }
  }

  lemma AscendingIsUnique(entries: seq<Entry>)
    requires KeysAscend(entries)
    ensures UniqueKeys(entries)
  {
    forall i, j | 0 <= i < j < |entries| ensures entries[i].key != entries[j].key {
      LessIsTotal(entries[i].key, entries[j].key);
    }
  }

  /** Sorting the keys orders every dict and changes nothing else. */
  lemma {:induction false} SortKeysFacts(v: Json)
    requires WellFormed(v)
    ensures Ordered(SortKeys(v)) && WellFormed(SortKeys(v))
    ensures Meaning(SortKeys(v)) == Meaning(v)
    decreases v, 1
  {
    match v
    case Arr(items) => SortItemsFacts(items);
    case Obj(entries) =>
      SortEntriesFacts(entries);
      AscendingIsUnique(SortEntries(entries));
    case _ =>
  }

  lemma {:induction false} SortItemsFacts(items: seq<Json>)
    requires forall i | 0 <= i < |items| :: WellFormed(items[i])
    ensures |SortItems(items)| == |items|
    ensures forall i | 0 <= i < |items| :: Ordered(SortItems(items)[i]) && WellFormed(SortItems(items)[i])
    ensures MeaningItems(SortItems(items)) == MeaningItems(items)
    decreases items, 0
  {
    if items != [] {
      SortKeysFacts(items[0]);
      SortItemsFacts(items[1..]);
      assert SortItems(items)[1..] == SortItems(items[1..]);
    }
  }

  lemma {:induction false} SortEntriesFacts(entries: seq<Entry>)
    requires UniqueKeys(entries) && forall i | 0 <= i < |entries| :: WellFormed(entries[i].value)
    ensures KeysAscend(SortEntries(entries))
    ensures forall i | 0 <= i < |SortEntries(entries)| ::
              Ordered(SortEntries(entries)[i].value) && WellFormed(SortEntries(entries)[i].value)
    ensures MeaningFields(SortEntries(entries)) == MeaningFields(entries)
    decreases entries, 0
  {
    if entries != [] {
      var e, rest := Entry(entries[0].key, SortKeys(entries[0].value)), SortEntries(entries[1..]);
      SortKeysFacts(entries[0].value);
      SortEntriesFacts(entries[1..]);
      FieldsHaveKeys(rest);
      FieldsHaveKeys(entries[1..]);
      assert !HasKey(entries[1..], e.key);
      assert e.key !in MeaningFields(rest);
      InsertEntryAscends(e, rest);
      InsertEntryKeys(e, rest);
      InsertEntryMeaning(e, rest);
    }
  }

  /* ---------- an ordered value is determined by its meaning ---------- */

  lemma {:induction false} OrderedIsUnique(v: Json, w: Json)
    requires Ordered(v) && Ordered(w) && Meaning(v) == Meaning(w)
    ensures v == w
    decreases v, 1
  {
    match v
    case Arr(items) => OrderedItemsAreUnique(items, w.items);
    case Obj(entries) => OrderedEntriesAreUnique(entries, w.entries);
    case _ =>
  }

  lemma {:induction false} OrderedItemsAreUnique(a: seq<Json>, b: seq<Json>)
    requires forall i | 0 <= i < |a| :: Ordered(a[i])
    requires forall i | 0 <= i < |b| :: Ordered(b[i])
    requires MeaningItems(a) == MeaningItems(b)
    ensures a == b
    decreases a, 0
  {
    if a != [] && b != [] {
      assert MeaningItems(a)[0] == Meaning(a[0]) && MeaningItems(b)[0] == Meaning(b[0]);
      assert MeaningItems(a)[1..] == MeaningItems(a[1..]) && MeaningItems(b)[1..] == MeaningItems(b[1..]);
      OrderedIsUnique(a[0], b[0]);
      OrderedItemsAreUnique(a[1..], b[1..]);
      assert a == [a[0]] + a[1..] && b == [b[0]] + b[1..];
    }
  }

  lemma EmptyHasNoKey(entries: seq<Entry>)
    ensures entries == [] <==> MeaningFields(entries) == map[]
  {
    if entries != [] {
      assert entries[0].key in MeaningFields(entries);
    }
  }

  lemma UpdateThenRemove(m: map<string, Value>, key: string, value: Value)
    requires key !in m
    ensures m[key := value] - {key} == m
  {}

  lemma FirstKeyOnce(entries: seq<Entry>)
    requires entries != [] && KeysAscend(entries)
    ensures entries[0].key !in MeaningFields(entries[1..])
  {
    FieldsHaveKeys(entries[1..]);
    AscendingIsUnique(entries);
  }

  lemma TailMeaning(entries: seq<Entry>)
    requires entries != [] && KeysAscend(entries)
    ensures MeaningFields(entries[1..]) == MeaningFields(entries) - {entries[0].key}
  {
    FirstKeyOnce(entries);
    UpdateThenRemove(MeaningFields(entries[1..]), entries[0].key, Meaning(entries[0].value));
  }

  /** The first key of an ascending dict is its least. */
  lemma FirstKeyIsLeast(entries: seq<Entry>, key: string)
    requires entries != [] && KeysAscend(entries) && key in MeaningFields(entries)
    ensures Leq(entries[0].key, key)
  {
    FieldsHaveKeys(entries);
    var i :| 0 <= i < |entries| && entries[i].key == key;
  }

  lemma {:induction false} OrderedEntriesAreUnique(a: seq<Entry>, b: seq<Entry>)
    requires KeysAscend(a) && forall i | 0 <= i < |a| :: Ordered(a[i].value)
    requires KeysAscend(b) && forall i | 0 <= i < |b| :: Ordered(b[i].value)
    requires MeaningFields(a) == MeaningFields(b)
    ensures a == b
    decreases a, 0
  {
    if a == [] || b == [] {
      EmptyHasNoKey(a);
      EmptyHasNoKey(b);
    } else {
      assert a[0].key in MeaningFields(a) && b[0].key in MeaningFields(b);
      FirstKeyIsLeast(a, b[0].key);
      FirstKeyIsLeast(b, a[0].key);
      LessIsTotal(a[0].key, b[0].key);
      assert MeaningFields(a)[a[0].key] == Meaning(a[0].value) && MeaningFields(b)[b[0].key] == Meaning(b[0].value);
      OrderedIsUnique(a[0].value, b[0].value);
      TailMeaning(a);
      TailMeaning(b);
      OrderedEntriesAreUnique(a[1..], b[1..]);
      assert a == [a[0]] + a[1..] && b == [b[0]] + b[1..];
    }
  }

  /* ---------- main results ---------- */

  /** Canonical text loads as the value it was made from, with its keys sorted. */
  lemma CanonicalRoundTrip(v: Json)
    requires WellFormed(v)
    ensures Loads(Canonicalize(v)) == Some(SortKeys(v))
    ensures Meaning(SortKeys(v)) == Meaning(v)
    ensures Canonicalize(SortKeys(v)) == Canonicalize(v)
  {
    SortKeysFacts(v);
    SortKeysFacts(SortKeys(v));
    LoadsOfPrint(SortKeys(v), CANONICAL, "", "");
    assert "" + Print(SortKeys(v), CANONICAL, 0) + "" == Canonicalize(v);
    OrderedIsUnique(SortKeys(v), SortKeys(SortKeys(v)));
  }

  /** Two values have the same canonical text exactly when they are the same up to dict order. */
  lemma CanonicalTextIsMeaning(v: Json, w: Json)
    requires WellFormed(v) && WellFormed(w)
    ensures Canonicalize(v) == Canonicalize(w) <==> Meaning(v) == Meaning(w)
  {
    CanonicalRoundTrip(v);
    CanonicalRoundTrip(w);
    if Meaning(v) == Meaning(w) {
      SortKeysFacts(v);
      SortKeysFacts(w);
      OrderedIsUnique(SortKeys(v), SortKeys(w));
    }
  }

  /** Every style prints a text that loads with the same meaning and the same canonical text. */
  lemma DumpsRoundTrip(v: Json, style: Style, after: string)
    requires WellFormed(v) && AllSpace(after)
    ensures Loads(Dumps(v, style) + after) == Some(Arranged(v, style))
    ensures WellFormed(Arranged(v, style)) && Meaning(Arranged(v, style)) == Meaning(v)
    ensures Canonicalize(Arranged(v, style)) == Canonicalize(v)
  {
    hide SortKeys, Print, Loads, Canonicalize, Meaning, WellFormed, AllSpace;
    SortKeysFacts(v);
    LoadsOfPrint(Arranged(v, style), style, "", after);
    assert "" + Print(Arranged(v, style), style, 0) + after == Dumps(v, style) + after;
    CanonicalRoundTrip(v);
  }
}
