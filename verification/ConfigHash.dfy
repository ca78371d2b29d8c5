/** The text whose hash is `config_hash`. */
module ConfigHash {
  import opened Text
  import opened Json
  import opened JsonCanonical

  /** The settings of a scan that go into the hash. */
  datatype Settings = Settings(target: string, enabled: seq<string>, viaTor: bool, offline: bool, allowIntrusive: bool)

  function Strings(texts: seq<string>): seq<Json> {
    if texts == [] then [] else [Str(texts[0])] + Strings(texts[1..])
  }

  function SettingsDict(c: Settings): Json {
    Obj([Entry("target", Str(c.target)), Entry("enabled", Arr(Strings(Sort(c.enabled)))),
         Entry("via_tor", Bool(c.viaTor)), Entry("offline", Bool(c.offline)),
         Entry("allow_intrusive", Bool(c.allowIntrusive))])
  }

  function SettingsText(c: Settings): string {
    Canonicalize(SettingsDict(c))
  }

  lemma {:induction false} StringsAreWellFormed(texts: seq<string>)
    ensures WellFormed(Arr(Strings(texts)))
  {
    if texts != [] { StringsAreWellFormed(texts[1..]); }
  }

  lemma {:induction false} StringsAreInjective(a: seq<string>, b: seq<string>)
    ensures MeaningItems(Strings(a)) == MeaningItems(Strings(b)) <==> a == b
  {
    if a != [] && b != [] {
      StringsAreInjective(a[1..], b[1..]);
      StringsCons(a);
      StringsCons(b);
      assert a == [a[0]] + a[1..] && b == [b[0]] + b[1..];
      var x, y := MeaningItems(Strings(a)), MeaningItems(Strings(b));
      assert x[0] == VStr(a[0]) && x[1..] == MeaningItems(Strings(a[1..]));
      assert y[0] == VStr(b[0]) && y[1..] == MeaningItems(Strings(b[1..]));
    }
  }

  lemma StringsCons(a: seq<string>)
    requires a != []
    ensures MeaningItems(Strings(a)) == [VStr(a[0])] + MeaningItems(Strings(a[1..]))
  {
    assert Strings(a)[1..] == Strings(a[1..]);
  }

  lemma FieldsCons(e: Entry, rest: seq<Entry>)
    ensures MeaningFields([e] + rest) == MeaningFields(rest)[e.key := Meaning(e.value)]
  {
    assert ([e] + rest)[1..] == rest;
  }

  ghost function MeaningFive(a: Entry, b: Entry, c: Entry, d: Entry, e: Entry): map<string, Value> {
    map[][e.key := Meaning(e.value)][d.key := Meaning(d.value)][c.key := Meaning(c.value)][b.key := Meaning(b.value)]
      [a.key := Meaning(a.value)]
  }

  lemma FiveFields(a: Entry, b: Entry, c: Entry, d: Entry, e: Entry)
    ensures MeaningFields([a, b, c, d, e]) == MeaningFive(a, b, c, d, e)
  {
    hide MeaningFields, Meaning;
    assert [e] == [e] + [] && [d, e] == [d] + [e] && [c, d, e] == [c] + [d, e];
    assert [b, c, d, e] == [b] + [c, d, e] && [a, b, c, d, e] == [a] + [b, c, d, e];
    FieldsCons(e, []);
    FieldsCons(d, [e]);
    FieldsCons(c, [d, e]);
    FieldsCons(b, [c, d, e]);
    FieldsCons(a, [b, c, d, e]);
    NoFields();
  }

  lemma NoFields()
    ensures MeaningFields([]) == map[]
  {}

  lemma SettingsMeaning(c: Settings)
    ensures
      var fields := MeaningFields(SettingsDict(c).entries);
      fields == map["target" := VStr(c.target), "enabled" := VList(MeaningItems(Strings(Sort(c.enabled)))),
                    "via_tor" := VBool(c.viaTor), "offline" := VBool(c.offline),
                    "allow_intrusive" := VBool(c.allowIntrusive)]
  {
    var e := SettingsDict(c).entries;
    FiveFields(e[0], e[1], e[2], e[3], e[4]);
  }

  lemma SettingsAreWellFormed(c: Settings)
    ensures WellFormed(SettingsDict(c))
  {
    StringsAreWellFormed(Sort(c.enabled));
  }

  lemma {:induction false} SortIsCanonical(a: seq<string>, b: seq<string>)
    ensures Sort(a) == Sort(b) <==> multiset(a) == multiset(b)
  {
    SortSorts(a);
    SortSorts(b);
    if multiset(a) == multiset(b) {
      SortedIsUnique(Sort(a), Sort(b));
    }
  }

  lemma {:induction false} SortedIsUnique(s: seq<string>, t: seq<string>)
    requires Sorted(s) && Sorted(t) && multiset(s) == multiset(t)
    ensures s == t
  {
    hide Sorted;
    if s == [] {
      assert |multiset(t)| == 0;
    } else {
      SameFirst(s, t);
      SortedTail(s);
      SortedTail(t);
      SameTails(s, t);
      SortedIsUnique(s[1..], t[1..]);
      assert s == [s[0]] + s[1..] && t == [t[0]] + t[1..];
    }
  }

  lemma SortedTail(s: seq<string>)
    requires Sorted(s) && s != []
    ensures Sorted(s[1..])
  {}

  lemma SameTails(s: seq<string>, t: seq<string>)
    requires s != [] && t != [] && s[0] == t[0] && multiset(s) == multiset(t)
    ensures multiset(s[1..]) == multiset(t[1..])
  {
    assert s == [s[0]] + s[1..] && t == [t[0]] + t[1..];
    assert multiset(s[1..]) == multiset(s) - multiset{s[0]} && multiset(t[1..]) == multiset(t) - multiset{t[0]};
  }

  lemma SameFirst(s: seq<string>, t: seq<string>)
    requires Sorted(s) && Sorted(t) && s != [] && multiset(s) == multiset(t)
    ensures t != [] && s[0] == t[0]
  {
    hide Sorted;
    assert |multiset(s)| == |s| && |multiset(t)| == |t|;
    assert s[0] in multiset(t) && t[0] in multiset(s);
    LeastIsFirst(s, t[0]);
    LeastIsFirst(t, s[0]);
    LessIsTotal(s[0], t[0]);
  }

  lemma LeastIsFirst(s: seq<string>, x: string)
    requires Sorted(s) && x in s
    ensures Leq(s[0], x)
  {
    var i :| 0 <= i < |s| && s[i] == x;
  }

  /** The hashed text identifies the settings up to the order in which analyzers are enabled, so equal
      settings hash alike and, SHA-256 aside, different ones do not. */
  lemma SettingsTextIsSettings(c: Settings, d: Settings)
    ensures SettingsText(c) == SettingsText(d)
       <==> && c.target == d.target && multiset(c.enabled) == multiset(d.enabled)
            && c.viaTor == d.viaTor && c.offline == d.offline && c.allowIntrusive == d.allowIntrusive
  {
    SettingsAreWellFormed(c);
    SettingsAreWellFormed(d);
    CanonicalTextIsMeaning(SettingsDict(c), SettingsDict(d));
    SettingsMeaning(c);
    SettingsMeaning(d);
    StringsAreInjective(Sort(c.enabled), Sort(d.enabled));
    SortIsCanonical(c.enabled, d.enabled);
    var f, g := MeaningFields(SettingsDict(c).entries), MeaningFields(SettingsDict(d).entries);
    if f == g {
      assert f["target"] == g["target"] && f["enabled"] == g["enabled"] && f["via_tor"] == g["via_tor"];
      assert f["offline"] == g["offline"] && f["allow_intrusive"] == g["allow_intrusive"];
    }
  }
}
