/** What `json.loads` accepts is always a well-formed value, whatever the text. */
module JsonLoads {
  import opened Json

  lemma UnsignedIsNumber(u: string)
    ensures
      var r := ParseUnsigned(u);
      r.Ok? ==>
        && IsWhole(r.value.whole)
        && AllDigits(r.value.fraction)
        && (r.value.exponent == "" || IsExponent(r.value.exponent))
  {
    SpanIsDigits(u);
    var n := if Starts(u, '0') then 1 else DigitSpan(u);
    FractionIsDigits(u[n..]);
    ExponentIsExponent(ParseFraction(u[n..]).1);
  }

  lemma FractionIsDigits(t: string)
    ensures AllDigits(ParseFraction(t).0)
  {
    if t != "" { SpanIsDigits(t[1..]); }
  }

  lemma ExponentIsExponent(t: string)
    ensures var e := ParseExponent(t).0; e == "" || IsExponent(e)
  {
    if Starts(t, 'e') || Starts(t, 'E') {
      var u := t[1..];
      var sign := if Starts(u, '+') || Starts(u, '-') then 1 else 0;
      var n := DigitSpan(u[sign..]);
      SpanIsDigits(u[sign..]);
      assert u[..sign + n][sign..] == u[sign..][..n];
    }
  }

  lemma ScalarIsWellFormed(t: string)
    ensures ParseScalar(t).Ok? ==> WellFormed(ParseScalar(t).value)
  {
    UnsignedIsNumber(if Starts(t, '-') then t[1..] else t);
  }

  lemma {:induction false} PutKeepsUnique(entries: seq<Entry>, key: string, value: Json)
    requires UniqueKeys(entries)
    ensures UniqueKeys(Put(entries, key, value))
    ensures forall e | e in Put(entries, key, value) :: e in entries || e == Entry(key, value)
    ensures forall e | e in Put(entries, key, value) :: e.key == key || exists f :: f in entries && f.key == e.key
  {
    if entries != [] && entries[0].key != key {
      var tail := Put(entries[1..], key, value);
      PutKeepsUnique(entries[1..], key, value);
      forall i | 0 <= i < |tail| ensures tail[i].key != entries[0].key {
        assert tail[i] in tail;
        if tail[i].key != key {
          var f :| f in entries[1..] && f.key == tail[i].key;
        }
      }
      assert Put(entries, key, value) == [entries[0]] + tail;
    } else if entries != [] {
      forall e | e in [Entry(key, value)] + entries[1..] && e != Entry(key, value) ensures e in entries {}
    }
  }

  lemma {:induction false} DictIsWellFormed(pairs: seq<Entry>)
    requires forall i | 0 <= i < |pairs| :: WellFormed(pairs[i].value)
    ensures UniqueKeys(Dict(pairs))
    ensures forall e | e in Dict(pairs) :: WellFormed(e.value)
  {
    if pairs != [] {
      var last := pairs[|pairs| - 1];
      DictIsWellFormed(pairs[..|pairs| - 1]);
      PutKeepsUnique(Dict(pairs[..|pairs| - 1]), last.key, last.value);
    }
  }

  lemma {:induction false} ValueIsWellFormed(t: string)
    ensures ParseValue(t).Ok? ==> WellFormed(ParseValue(t).value)
    decreases |t|, 1
  {
    if Starts(t, '[') {
      ArrayIsWellFormed(SkipSpace(t[1..]));
    } else if Starts(t, '{') {
      ObjectIsWellFormed(SkipSpace(t[1..]));
    } else {
      ScalarIsWellFormed(t);
    }
  }

  lemma {:induction false} ArrayIsWellFormed(t: string)
    ensures ParseArray(t).Ok? ==> WellFormed(ParseArray(t).value)
    decreases |t|, 3
  {
    if !Starts(t, ']') { ItemsAreWellFormed(t); }
  }

  lemma {:induction false} ObjectIsWellFormed(t: string)
    ensures ParseObject(t).Ok? ==> WellFormed(ParseObject(t).value)
    decreases |t|, 3
  {
    if !Starts(t, '}') {
      EntriesAreWellFormed(t);
      var r := ParseEntries(t);
      if r.Ok? {
        DictIsWellFormed(r.value);
        forall i | 0 <= i < |Dict(r.value)| ensures WellFormed(Dict(r.value)[i].value) {
          assert Dict(r.value)[i] in Dict(r.value);
        }
      }
    }
  }

  /** The items are the first one, alone or followed by those after the comma. */
  lemma ItemsCases(t: string)
    requires ParseItems(t).Ok?
    ensures
      var first := ParseValue(t);
      && first.Ok?
      && (|| ParseItems(t).value == [first.value]
          || (Starts(SkipSpace(first.rest), ',')
              && var more := ParseItems(SkipSpace(SkipSpace(first.rest)[1..]));
              more.Ok? && ParseItems(t).value == [first.value] + more.value))
  {}

  predicate AllWellFormed(items: seq<Json>) {
    forall i | 0 <= i < |items| :: WellFormed(items[i])
  }

  lemma {:induction false} ItemsAreWellFormed(t: string)
    ensures ParseItems(t).Ok? ==> AllWellFormed(ParseItems(t).value)
    decreases |t|, 2
  {
    if ParseItems(t).Ok? {
      ItemsCases(t);
      ValueIsWellFormed(t);
      var first := ParseValue(t);
      if ParseItems(t).value != [first.value] {
        ItemsAreWellFormed(SkipSpace(SkipSpace(first.rest)[1..]));
      }
    }
  }

  lemma {:induction false} EntryIsWellFormed(t: string)
    ensures var r := ParseEntry(t); r.Ok? ==> WellFormed(r.value.value)
    decreases |t|, 0
  {
    if Starts(t, '"') {
      var key := ParseString(t[1..]);
      if key.Ok? {
        var u := SkipSpace(key.rest);
        if Starts(u, ':') {
          ValueIsWellFormed(SkipSpace(u[1..]));
        }
      }
    }
  }

  lemma EntriesCases(t: string)
    requires ParseEntries(t).Ok?
    ensures
      var first := ParseEntry(t);
      && first.Ok?
      && (|| ParseEntries(t).value == [first.value]
          || (Starts(SkipSpace(first.rest), ',')
              && var more := ParseEntries(SkipSpace(SkipSpace(first.rest)[1..]));
              more.Ok? && ParseEntries(t).value == [first.value] + more.value))
  {}

  predicate AllEntriesWellFormed(entries: seq<Entry>) {
    forall i | 0 <= i < |entries| :: WellFormed(entries[i].value)
  }

  lemma {:induction false} EntriesAreWellFormed(t: string)
    ensures ParseEntries(t).Ok? ==> AllEntriesWellFormed(ParseEntries(t).value)
    decreases |t|, 2
  {
    if ParseEntries(t).Ok? {
      EntriesCases(t);
      EntryIsWellFormed(t);
      var first := ParseEntry(t);
      if ParseEntries(t).value != [first.value] {
        EntriesAreWellFormed(SkipSpace(SkipSpace(first.rest)[1..]));
      }
    }
  }

  lemma LoadsIsWellFormed(t: string)
    ensures Loads(t).Some? ==> WellFormed(Loads(t).value)
  {
    ValueIsWellFormed(SkipSpace(t));
  }
}
