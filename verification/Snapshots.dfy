/** What the baseline store reads out of a report, and the difference of two such readings. */
module Snapshots {
  import opened Text
  import opened Json
  import opened JsonCanonical

  /* ---------- reading a report ---------- */

  /** The report of one analyzer: its grade and the ids of its findings. */
  datatype Section = Section(grade: string, findings: seq<string>)

  datatype Snapshot = Snapshot(target: string, startedAt: string, configHash: string,
                               sections: map<string, Option<Section>>)

  predicate HasText(v: Value, key: string) {
    v.VDict? && key in v.fields && v.fields[key].VStr?
  }

  predicate IsBaseReport(v: Value) {
    && HasText(v, "grade")
    && "findings" in v.fields && v.fields["findings"].VList?
    && forall i | 0 <= i < |v.fields["findings"].items| :: HasText(v.fields["findings"].items[i], "id")
  }

  predicate IsResult(v: Value) {
    v.VDict? && "report" in v.fields && (v.fields["report"].VNull? || IsBaseReport(v.fields["report"]))
  }

  predicate IsReport(v: Value) {
    && HasText(v, "target") && HasText(v, "started_at") && HasText(v, "config_hash")
    && "analyzers" in v.fields && v.fields["analyzers"].VDict?
    && forall name | name in v.fields["analyzers"].fields :: IsResult(v.fields["analyzers"].fields[name])
  }

  function ReadSection(v: Value): Option<Section>
    requires IsResult(v)
  {
    var report := v.fields["report"];
    if report.VNull? then None
    else
      var findings := report.fields["findings"].items;
      Some(Section(report.fields["grade"].s,
                   seq(|findings|, i requires 0 <= i < |findings| => findings[i].fields["id"].s)))
  }

  /** `ScanReport.model_validate`, as far as the store looks at the report. */
  function Read(v: Value): Snapshot
    requires IsReport(v)
  {
    var analyzers := v.fields["analyzers"].fields;
    Snapshot(v.fields["target"].s, v.fields["started_at"].s, v.fields["config_hash"].s,
             map name | name in analyzers :: ReadSection(analyzers[name]))
  }

  /** A report as `model_dump(mode="json")` returns it. */
  type Report = j: Json | WellFormed(j) && IsReport(Meaning(j))
    witness Obj([Entry("target", Str("")), Entry("started_at", Str("")), Entry("config_hash", Str("")),
                 Entry("analyzers", Obj([]))])

  function View(report: Report): Snapshot {
    Read(Meaning(report))
  }

  /* ---------- the difference of two snapshots ---------- */

  datatype Diff = Diff(target: string, previousAt: string, currentAt: string,
                       added: seq<string>, removed: seq<string>, changed: seq<string>)

  predicate IsMeaningful(d: Diff) {
    d.added != [] || d.removed != [] || d.changed != []
  }

  datatype FindingKey = FindingKey(analyzer: string, id: string)

  function FindingKeys(s: Snapshot): set<FindingKey> {
    set name, id | name in s.sections && s.sections[name].Some? && id in s.sections[name].value.findings ::
      FindingKey(name, id)
  }

  function KeyText(k: FindingKey): string {
    k.analyzer + "::" + k.id
  }

  predicate HasGrade(s: Snapshot, name: string) {
    name in s.sections && s.sections[name].Some?
  }

  function GradeOf(s: Snapshot, name: string): string {
    if HasGrade(s, name) then s.sections[name].value.grade else ""
  }

  /** The analyzers graded on both sides, and differently. */
  function Regraded(prev: Snapshot, cur: Snapshot): set<string> {
    set name |
      && name in cur.sections && HasGrade(cur, name) && HasGrade(prev, name)
      && GradeOf(cur, name) != GradeOf(prev, name)
  }

  function ChangeText(prev: Snapshot, cur: Snapshot, name: string): string {
    name + ": grade " + GradeOf(prev, name) + "→" + GradeOf(cur, name)
  }

  /** The diff as a function of the two reports, free of any iteration order. */
  ghost function PureDiff(prev: Snapshot, cur: Snapshot): Diff {
    Diff(cur.target, prev.startedAt, cur.startedAt,
         SortedTexts(FindingKeys(cur) - FindingKeys(prev), KeyText),
         SortedTexts(FindingKeys(prev) - FindingKeys(cur), KeyText),
         SortedTexts(Regraded(prev, cur), (name: string) => ChangeText(prev, cur, name)))
  }

  /* ---------- laws of the diff ---------- */

  /** No news means: the same findings, and the same grade wherever both sides have one. */
  lemma NotMeaningfulIff(prev: Snapshot, cur: Snapshot)
    ensures !IsMeaningful(PureDiff(prev, cur))
       <==> && FindingKeys(prev) == FindingKeys(cur)
            && forall name | HasGrade(prev, name) && HasGrade(cur, name) :: GradeOf(prev, name) == GradeOf(cur, name)
  {
    SortedTextsContents(FindingKeys(cur) - FindingKeys(prev), KeyText);
    SortedTextsContents(FindingKeys(prev) - FindingKeys(cur), KeyText);
    SortedTextsContents(Regraded(prev, cur), (name: string) => ChangeText(prev, cur, name));
    if !IsMeaningful(PureDiff(prev, cur)) {
      assert FindingKeys(cur) - FindingKeys(prev) == {} && FindingKeys(prev) - FindingKeys(cur) == {};
      forall name | HasGrade(prev, name) && HasGrade(cur, name) ensures GradeOf(prev, name) == GradeOf(cur, name) {
        assert name !in Regraded(prev, cur);
      }
    } else if FindingKeys(prev) == FindingKeys(cur) {
      var name :| name in Regraded(prev, cur);
    }
  }

  /** A report against itself is no news; the other way round, added and removed change places. */
  lemma DiffAlgebra(a: Snapshot, b: Snapshot)
    ensures !IsMeaningful(PureDiff(a, a))
    ensures PureDiff(a, b).added == PureDiff(b, a).removed && PureDiff(a, b).removed == PureDiff(b, a).added
    ensures |PureDiff(a, b).changed| == |PureDiff(b, a).changed|
    ensures IsMeaningful(PureDiff(a, b)) <==> IsMeaningful(PureDiff(b, a))
  {
    NotMeaningfulIff(a, a);
    SortedTextsContents(Regraded(a, b), (name: string) => ChangeText(a, b, name));
    SortedTextsContents(Regraded(b, a), (name: string) => ChangeText(b, a, name));
    assert Regraded(a, b) == Regraded(b, a);
  }

  predicate ColonFree(name: string) {
    ':' !in name
  }

  ghost predicate ColonFreeNames(s: Snapshot) {
    forall name | name in s.sections :: ColonFree(name)
  }

  /** A colon-free name is what comes before the first colon. */
  lemma NameBeforeColon(a: string, b: string, s: string, t: string)
    requires ColonFree(a) && ColonFree(b) && a + ":" + s == b + ":" + t
    ensures a == b && s == t
  {
    var x := a + ":" + s;
    assert x[|a|] == ':' && x[|b|] == ':';
    assert x[..|a|] == a && x[..|b|] == b;
    assert forall i | 0 <= i < |a| :: x[i] == a[i] && a[i] in a;
    assert forall i | 0 <= i < |b| :: x[i] == b[i] && b[i] in b;
    assert |a| == |b|;
    assert x[|a| + 1..] == s && x[|b| + 1..] == t;
  }

  lemma KeyTextsAreDistinct(keys: set<FindingKey>)
    requires forall k | k in keys :: ColonFree(k.analyzer)
    ensures InjectiveOn(keys, KeyText)
  {
    forall k, l | k in keys && l in keys && KeyText(k) == KeyText(l) ensures k == l {
      assert KeyText(k) == k.analyzer + ":" + (":" + k.id) && KeyText(l) == l.analyzer + ":" + (":" + l.id);
      NameBeforeColon(k.analyzer, l.analyzer, ":" + k.id, ":" + l.id);
      assert (":" + k.id)[1..] == k.id && (":" + l.id)[1..] == l.id;
    }
  }

  lemma ChangeTextsAreDistinct(prev: Snapshot, cur: Snapshot)
    requires ColonFreeNames(cur)
    ensures InjectiveOn(Regraded(prev, cur), (name: string) => ChangeText(prev, cur, name))
  {
    forall m, n |
      && m in Regraded(prev, cur) && n in Regraded(prev, cur)
      && ChangeText(prev, cur, m) == ChangeText(prev, cur, n)
      ensures m == n
    {
      var s := " grade " + GradeOf(prev, m) + "→" + GradeOf(cur, m);
      var t := " grade " + GradeOf(prev, n) + "→" + GradeOf(cur, n);
      assert ChangeText(prev, cur, m) == m + ":" + s && ChangeText(prev, cur, n) == n + ":" + t;
      NameBeforeColon(m, n, s, t);
    }
  }

  ghost function TextSet(keys: set<FindingKey>): set<string> {
    set k | k in keys :: KeyText(k)
  }

  ghost function ChangeSet(prev: Snapshot, cur: Snapshot): set<string> {
    set name | name in Regraded(prev, cur) :: ChangeText(prev, cur, name)
  }

  /** With colon-free analyzer names each list of a diff is the strictly sorted listing of its set,
      and there is only one such listing. */
  lemma DiffListsAreListings(prev: Snapshot, cur: Snapshot)
    requires ColonFreeNames(prev) && ColonFreeNames(cur)
    ensures
      var d := PureDiff(prev, cur);
      && d.added == Listing(TextSet(FindingKeys(cur) - FindingKeys(prev)))
      && d.removed == Listing(TextSet(FindingKeys(prev) - FindingKeys(cur)))
      && d.changed == Listing(ChangeSet(prev, cur))
  {
    KeyListing(FindingKeys(cur) - FindingKeys(prev));
    KeyListing(FindingKeys(prev) - FindingKeys(cur));
    ChangeListing(prev, cur);
  }

  lemma ChangeListing(prev: Snapshot, cur: Snapshot)
    requires ColonFreeNames(cur)
    ensures SortedTexts(Regraded(prev, cur), (name: string) => ChangeText(prev, cur, name))
         == Listing(ChangeSet(prev, cur))
  {
    hide Regraded, ChangeText;
    var text := (name: string) => ChangeText(prev, cur, name);
    ChangeTextsAreDistinct(prev, cur);
    SortedTextsStrict(Regraded(prev, cur), text);
    SortedTextsContents(Regraded(prev, cur), text);
    ListingListsSet(ChangeSet(prev, cur));
    StrictlySortedIsUnique(SortedTexts(Regraded(prev, cur), text), Listing(ChangeSet(prev, cur)));
  }

  lemma KeyListing(keys: set<FindingKey>)
    requires forall k | k in keys :: ColonFree(k.analyzer)
    ensures SortedTexts(keys, KeyText) == Listing(TextSet(keys))
  {
    KeyTextsAreDistinct(keys);
    SortedTextsStrict(keys, KeyText);
    SortedTextsContents(keys, KeyText);
    ListingListsSet(TextSet(keys));
    StrictlySortedIsUnique(SortedTexts(keys, KeyText), Listing(TextSet(keys)));
  }

  /* ---------- the diff in terms of the reports ---------- */

  /** The report of this analyzer lists this finding. */
  ghost predicate Lists(s: Snapshot, name: string, id: string) {
    exists i ::
      && name in s.sections && s.sections[name].Some?
      && 0 <= i < |s.sections[name].value.findings| && s.sections[name].value.findings[i] == id
  }

  lemma ListsIff(s: Snapshot, name: string, id: string)
    ensures FindingKey(name, id) in FindingKeys(s) <==> Lists(s, name, id)
  {}

  ghost predicate GradedAs(s: Snapshot, name: string, grade: string) {
    name in s.sections && s.sections[name].Some? && s.sections[name].value.grade == grade
  }

  lemma TextInKeys(keys: set<FindingKey>, k: FindingKey)
    requires ColonFree(k.analyzer) && forall l | l in keys :: ColonFree(l.analyzer)
    ensures KeyText(k) in SortedTexts(keys, KeyText) <==> k in keys
  {
    SortedTextsContents(keys, KeyText);
    KeyTextsAreDistinct(keys + {k});
  }

  /** Added is what the current report lists and the previous one does not, removed the reverse, and either
      names nothing else. */
  lemma DiffListsFindings(prev: Snapshot, cur: Snapshot, name: string, id: string)
    requires ColonFreeNames(prev) && ColonFreeNames(cur) && ColonFree(name)
    ensures name + "::" + id in PureDiff(prev, cur).added <==> Lists(cur, name, id) && !Lists(prev, name, id)
    ensures name + "::" + id in PureDiff(prev, cur).removed <==> Lists(prev, name, id) && !Lists(cur, name, id)
  {
    var k := FindingKey(name, id);
    ListsIff(prev, name, id);
    ListsIff(cur, name, id);
    TextInKeys(FindingKeys(cur) - FindingKeys(prev), k);
    TextInKeys(FindingKeys(prev) - FindingKeys(cur), k);
    assert KeyText(k) == name + "::" + id;
  }

  lemma DiffListsNothingElse(prev: Snapshot, cur: Snapshot, text: string)
    ensures text in PureDiff(prev, cur).added ==>
              exists name, id :: text == name + "::" + id && Lists(cur, name, id) && !Lists(prev, name, id)
    ensures text in PureDiff(prev, cur).removed ==>
              exists name, id :: text == name + "::" + id && Lists(prev, name, id) && !Lists(cur, name, id)
  {
    SortedTextsContents(FindingKeys(cur) - FindingKeys(prev), KeyText);
    SortedTextsContents(FindingKeys(prev) - FindingKeys(cur), KeyText);
    if text in PureDiff(prev, cur).added {
      var k :| k in FindingKeys(cur) - FindingKeys(prev) && KeyText(k) == text;
      ListsIff(cur, k.analyzer, k.id);
      ListsIff(prev, k.analyzer, k.id);
      assert text == k.analyzer + "::" + k.id;
    }
    if text in PureDiff(prev, cur).removed {
      var k :| k in FindingKeys(prev) - FindingKeys(cur) && KeyText(k) == text;
      ListsIff(cur, k.analyzer, k.id);
      ListsIff(prev, k.analyzer, k.id);
      assert text == k.analyzer + "::" + k.id;
    }
  }

  /** Changed names the analyzers that are graded on both sides and differently, with the old grade first. */
  lemma DiffListsGrades(prev: Snapshot, cur: Snapshot, name: string, was: string, now: string)
    ensures GradedAs(prev, name, was) && GradedAs(cur, name, now) && was != now ==>
              name + ": grade " + was + "→" + now in PureDiff(prev, cur).changed
  {
    SortedTextsContents(Regraded(prev, cur), (name: string) => ChangeText(prev, cur, name));
    if GradedAs(prev, name, was) && GradedAs(cur, name, now) && was != now {
      assert name in Regraded(prev, cur);
      assert ChangeText(prev, cur, name) == name + ": grade " + was + "→" + now;
    }
  }

  lemma DiffListsNoOtherGrades(prev: Snapshot, cur: Snapshot, text: string)
    requires text in PureDiff(prev, cur).changed
    ensures exists name, was, now ::
      && GradedAs(prev, name, was) && GradedAs(cur, name, now) && was != now
      && text == name + ": grade " + was + "→" + now
  {
    SortedTextsContents(Regraded(prev, cur), (name: string) => ChangeText(prev, cur, name));
    var name :| name in Regraded(prev, cur) && ChangeText(prev, cur, name) == text;
    var was, now := prev.sections[name].value.grade, cur.sections[name].value.grade;
    assert GradedAs(prev, name, was) && GradedAs(cur, name, now) && text == name + ": grade " + was + "→" + now;
  }

  /** There is news exactly when a finding is listed on one side only, or a grade changed. */
  lemma MeaningfulIff(prev: Snapshot, cur: Snapshot)
    ensures IsMeaningful(PureDiff(prev, cur))
       <==> || (exists name, id :: Lists(prev, name, id) != Lists(cur, name, id))
            || exists name, was, now :: GradedAs(prev, name, was) && GradedAs(cur, name, now) && was != now
  {
    NotMeaningfulIff(prev, cur);
    forall name, id ensures FindingKey(name, id) in FindingKeys(prev) <==> Lists(prev, name, id) {
      ListsIff(prev, name, id);
    }
    forall name, id ensures FindingKey(name, id) in FindingKeys(cur) <==> Lists(cur, name, id) {
      ListsIff(cur, name, id);
    }
    hide Lists, FindingKeys;
    if FindingKeys(prev) != FindingKeys(cur) {
      var k :| (k in FindingKeys(prev)) != (k in FindingKeys(cur));
      assert k == FindingKey(k.analyzer, k.id);
      assert Lists(prev, k.analyzer, k.id) != Lists(cur, k.analyzer, k.id);
    }
    if name, was, now :| GradedAs(prev, name, was) && GradedAs(cur, name, now) && was != now {
      assert HasGrade(prev, name) && HasGrade(cur, name) && GradeOf(prev, name) != GradeOf(cur, name);
    }
    if name :| HasGrade(prev, name) && HasGrade(cur, name) && GradeOf(prev, name) != GradeOf(cur, name) {
      assert GradedAs(prev, name, GradeOf(prev, name)) && GradedAs(cur, name, GradeOf(cur, name));
    }
  }

  /** A diff is of the current report's target, from the previous start to the current one. */
  lemma DiffIsDated(prev: Snapshot, cur: Snapshot)
    ensures
      var d := PureDiff(prev, cur);
      d.target == cur.target && d.previousAt == prev.startedAt && d.currentAt == cur.startedAt
  {}

  /** What the store reads in a report: target, start and hash as they stand, and of each analyzer's report
      the grade and all findings in order. */
  lemma ReadIs(v: Value, name: string)
    requires IsReport(v)
    ensures
      var s, analyzers := Read(v), v.fields["analyzers"].fields;
      && VStr(s.target) == v.fields["target"] && VStr(s.startedAt) == v.fields["started_at"]
      && VStr(s.configHash) == v.fields["config_hash"]
      && (name in s.sections <==> name in analyzers)
      && (name in analyzers ==> ReadsAs(analyzers[name].fields["report"], s.sections[name]))
  {}

  ghost predicate ReadsAs(report: Value, section: Option<Section>) {
    match section
    case None => report == VNull
    case Some(x) =>
      && report.VDict? && "grade" in report.fields && report.fields["grade"] == VStr(x.grade)
      && "findings" in report.fields && report.fields["findings"].VList?
      && |report.fields["findings"].items| == |x.findings|
      && forall i | 0 <= i < |x.findings| ::
           var finding := report.fields["findings"].items[i];
           finding.VDict? && "id" in finding.fields && finding.fields["id"] == VStr(x.findings[i])
  }

  /** The rendered findings of a report. */
  ghost function Findings(s: Snapshot): set<string> {
    TextSet(FindingKeys(s))
  }

  ghost function Elements(s: seq<string>): set<string> {
    set x | x in s
  }

  /** What a reader does with a diff: take out what was removed, put in what was added. */
  ghost function Apply(findings: set<string>, d: Diff): set<string> {
    findings - Elements(d.removed) + Elements(d.added)
  }

  /** A finding that stays is rendered like one that goes, and like none that comes. */
  ghost predicate LosesText(prev: Snapshot, cur: Snapshot) {
    exists kept, gone ::
      && kept in FindingKeys(prev) && kept in FindingKeys(cur)
      && gone in FindingKeys(prev) && gone !in FindingKeys(cur)
      && KeyText(kept) == KeyText(gone)
      && forall k | k in FindingKeys(cur) && k !in FindingKeys(prev) :: KeyText(k) != KeyText(kept)
  }

  lemma ElementsOfDiff(prev: Snapshot, cur: Snapshot)
    ensures Elements(PureDiff(prev, cur).added) == TextSet(FindingKeys(cur) - FindingKeys(prev))
    ensures Elements(PureDiff(prev, cur).removed) == TextSet(FindingKeys(prev) - FindingKeys(cur))
  {
    SortedTextsContents(FindingKeys(cur) - FindingKeys(prev), KeyText);
    SortedTextsContents(FindingKeys(prev) - FindingKeys(cur), KeyText);
  }

  lemma AppliedIsCurrent(prev: Snapshot, cur: Snapshot)
    ensures Apply(Findings(prev), PureDiff(prev, cur)) <= Findings(cur)
  {
    ElementsOfDiff(prev, cur);
    var p, c := FindingKeys(prev), FindingKeys(cur);
    forall x | x in Apply(Findings(prev), PureDiff(prev, cur)) ensures x in Findings(cur) {
      if x in TextSet(c - p) {
        var k :| k in c - p && KeyText(k) == x;
      } else {
        var k :| k in p && KeyText(k) == x;
        assert k !in p - c;
      }
    }
  }

  lemma LostTextIsMissing(prev: Snapshot, cur: Snapshot)
    requires LosesText(prev, cur)
    ensures exists x :: x in Findings(cur) && x !in Apply(Findings(prev), PureDiff(prev, cur))
  {
    ElementsOfDiff(prev, cur);
    var p, c := FindingKeys(prev), FindingKeys(cur);
    var kept, gone :| kept in p && kept in c && gone in p && gone !in c && KeyText(kept) == KeyText(gone)
      && forall k | k in c && k !in p :: KeyText(k) != KeyText(kept);
    assert gone in p - c;
    assert KeyText(kept) in Findings(cur) && KeyText(kept) in TextSet(p - c) && KeyText(kept) !in TextSet(c - p);
  }

  lemma NothingLost(prev: Snapshot, cur: Snapshot)
    requires !LosesText(prev, cur)
    ensures Findings(cur) <= Apply(Findings(prev), PureDiff(prev, cur))
  {
    ElementsOfDiff(prev, cur);
    var p, c := FindingKeys(prev), FindingKeys(cur);
    forall x | x in Findings(cur) ensures x in Apply(Findings(prev), PureDiff(prev, cur)) {
      var k :| k in c && KeyText(k) == x;
      if k !in p {
        assert k in c - p;
      } else if x in TextSet(p - c) {
        var gone :| gone in p - c && KeyText(gone) == x;
        assert x in TextSet(c - p);
      } else {
        assert x in Findings(prev);
      }
    }
  }

  /** Applying a diff to the old findings gives the new ones exactly when no text is lost. */
  lemma ApplyIff(prev: Snapshot, cur: Snapshot)
    ensures Apply(Findings(prev), PureDiff(prev, cur)) == Findings(cur) <==> !LosesText(prev, cur)
  {
    AppliedIsCurrent(prev, cur);
    if LosesText(prev, cur) {
      LostTextIsMissing(prev, cur);
    } else {
      NothingLost(prev, cur);
    }
  }

  lemma ColonFreeLosesNothing(prev: Snapshot, cur: Snapshot)
    requires ColonFreeNames(prev)
    ensures !LosesText(prev, cur)
  {
    KeyTextsAreDistinct(FindingKeys(prev));
  }

  /** Two findings rendered alike: the diff then drops the one that stayed. */
  lemma LostTextExample()
    ensures
      var both := Snapshot("h", "", "", map["a" := Some(Section("A", [":b"])), "a:" := Some(Section("A", ["b"]))]);
      var one := Snapshot("h", "", "", map["a" := Some(Section("A", [":b"])), "a:" := Some(Section("A", []))]);
      LosesText(both, one)
  {
    var both := Snapshot("h", "", "", map["a" := Some(Section("A", [":b"])), "a:" := Some(Section("A", ["b"]))]);
    var one := Snapshot("h", "", "", map["a" := Some(Section("A", [":b"])), "a:" := Some(Section("A", []))]);
    var kept, gone := FindingKey("a", ":b"), FindingKey("a:", "b");
    assert both.sections["a"].value.findings[0] == ":b" && one.sections["a"].value.findings[0] == ":b";
    assert both.sections["a:"].value.findings[0] == "b";
    assert kept in FindingKeys(both) && kept in FindingKeys(one);
    assert gone in FindingKeys(both) && gone !in FindingKeys(one);
    assert KeyText(kept) == "a:::b" == KeyText(gone);
    forall k | k in FindingKeys(one) ensures k in FindingKeys(both) {}
  }
}
