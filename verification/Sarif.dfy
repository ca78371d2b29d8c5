/** The SARIF export: one result per finding, one rule per finding id. */
module Sarif {
  import opened Text
  import opened Reports

  function Level(s: Severity): string {
    match s
    case Critical => "error"
    case High => "error"
    case Medium => "warning"
    case Low => "note"
    case Info => "note"
  }

  datatype SarifRule = SarifRule(id: string, name: string, fullDescription: string, level: string, severity: Severity,
                                 cwe: Option<string>, helpUri: Option<string>, help: Option<string>)

  datatype SarifResult = SarifResult(ruleId: string, level: string, message: string, uri: string,
                                     analyzer: string, severity: Severity, cwe: Option<string>)

  /** An optional text that Python takes for true. */
  function NonEmpty(text: Option<string>): Option<string> {
    if text == Some("") then None else text
  }

  function RuleFor(f: Finding): SarifRule {
    SarifRule(f.id, f.title, f.description, Level(f.severity), f.severity, NonEmpty(f.cwe),
              if f.references == [] then None else Some(f.references[0]), NonEmpty(f.remediation))
  }

  function ResultFor(f: Finding, analyzer: string, target: string): SarifResult {
    SarifResult(f.id, Level(f.severity), f.description, "https://" + target, analyzer, f.severity, f.cwe)
  }

  /* ---------- all findings in rendering order ---------- */

  datatype Located = Located(analyzer: string, finding: Finding)

  function Locate(analyzer: string, findings: seq<Finding>): seq<Located> {
    if findings == [] then []
    else Locate(analyzer, findings[..|findings| - 1]) + [Located(analyzer, findings[|findings| - 1])]
  }

  function FindingsOf(r: AnalyzerResult): seq<Finding> {
    if r.report.None? then [] else r.report.value.findings
  }

  /** The findings of the named analyzers, one analyzer after the other. */
  function AllFindings(names: seq<string>, analyzers: Results): seq<Located>
    requires forall n | n in names :: n in analyzers
  {
    if names == [] then []
    else
      var last := names[|names| - 1];
      AllFindings(names[..|names| - 1], analyzers) + Locate(last, FindingsOf(analyzers[last]))
  }

  function ResultsFor(all: seq<Located>, target: string): seq<SarifResult> {
    seq(|all|, i requires 0 <= i < |all| => ResultFor(all[i].finding, all[i].analyzer, target))
  }

  predicate HasRule(rules: seq<SarifRule>, id: string) {
    exists i :: 0 <= i < |rules| && rules[i].id == id
  }

  /** The rules dict, by first insertion. */
  function RulesFor(all: seq<Located>): seq<SarifRule> {
    if all == [] then []
    else
      var rules, f := RulesFor(all[..|all| - 1]), all[|all| - 1].finding;
      if HasRule(rules, f.id) then rules else rules + [RuleFor(f)]
  }

  lemma {:induction false} LocateLength(analyzer: string, findings: seq<Finding>)
    ensures |Locate(analyzer, findings)| == |findings|
  {
    if findings != [] { LocateLength(analyzer, findings[..|findings| - 1]); }
  }

  /* ---------- rendering ---------- */

  /** `sorted(report.analyzers.items())`: names are unique, so they decide. */
  method SortedNames(analyzers: Results) returns (names: seq<string>)
    ensures names == Listing(analyzers.Keys)
  {
    names := [];
    var todo := analyzers.Keys;
    while todo != {}
      invariant todo <= analyzers.Keys && names == Listing(analyzers.Keys - todo)
      decreases |todo|
    {
      var n :| n in todo;
      SortedTextsAdd(analyzers.Keys - todo, n, (x: string) => x);
      assert analyzers.Keys - (todo - {n}) == analyzers.Keys - todo + {n};
      names := Insert(n, names);
      todo := todo - {n};
    }
    assert analyzers.Keys - {} == analyzers.Keys;
  }

  ghost function Rendered(analyzers: Results): seq<Located> {
    ListingListsSet(analyzers.Keys);
    AllFindings(Listing(analyzers.Keys), analyzers)
  }

  lemma NothingRendered(target: string)
    ensures RulesFor([]) == [] && ResultsFor([], target) == []
  {}

  method RenderSarif(target: string, analyzers: Results) returns (rules: seq<SarifRule>, results: seq<SarifResult>)
    ensures results == ResultsFor(Rendered(analyzers), target) && rules == RulesFor(Rendered(analyzers))
  {
    hide RulesFor, ResultsFor;
    var names := SortedNames(analyzers);
    ListingListsSet(analyzers.Keys);
    rules, results := [], [];
    NothingRendered(target);
    for i := 0 to |names|
      invariant forall n | n in names[..i] :: n in analyzers
      invariant results == ResultsFor(AllFindings(names[..i], analyzers), target)
      invariant rules == RulesFor(AllFindings(names[..i], analyzers))
    {
      assert names[..i + 1][..i] == names[..i] && names[i] in names;
      var findings := FindingsOf(analyzers[names[i]]);
      ghost var before := AllFindings(names[..i], analyzers);
      assert AllFindings(names[..i + 1], analyzers) == before + Locate(names[i], findings);
      rules, results := RenderFindings(before, names[i], findings, target, rules, results);
    }
    assert names[..|names|] == names;
  }

  /** The inner loop, over the findings of one analyzer. */
  method RenderFindings(ghost before: seq<Located>, analyzer: string, findings: seq<Finding>, target: string,
                        rules0: seq<SarifRule>, results0: seq<SarifResult>)
    returns (rules: seq<SarifRule>, results: seq<SarifResult>)
    requires rules0 == RulesFor(before) && results0 == ResultsFor(before, target)
    ensures rules == RulesFor(before + Locate(analyzer, findings))
    ensures results == ResultsFor(before + Locate(analyzer, findings), target)
  {
    hide HasRule, RuleFor, ResultFor, RulesFor, ResultsFor, Locate;
    rules, results := rules0, results0;
    NothingLocated(before, analyzer);
    for i := 0 to |findings|
      invariant rules == RulesFor(before + Locate(analyzer, findings[..i]))
      invariant results == ResultsFor(before + Locate(analyzer, findings[..i]), target)
    {
      RenderNext(before, analyzer, findings, i, target);
      if !HasRule(rules, findings[i].id) {
        rules := rules + [RuleFor(findings[i])];
      }
      results := results + [ResultFor(findings[i], analyzer, target)];
    }
    assert findings[..|findings|] == findings;
  }

  lemma NothingLocated(before: seq<Located>, analyzer: string)
    ensures before + Locate(analyzer, []) == before
  {}

  /** What one more finding adds to the rules and results. */
  lemma RenderNext(before: seq<Located>, analyzer: string, findings: seq<Finding>, i: nat, target: string)
    requires i < |findings|
    ensures
      var all, more := before + Locate(analyzer, findings[..i]), before + Locate(analyzer, findings[..i + 1]);
      var f := findings[i];
      && RulesFor(more) == (if HasRule(RulesFor(all), f.id) then RulesFor(all) else RulesFor(all) + [RuleFor(f)])
      && ResultsFor(more, target) == ResultsFor(all, target) + [ResultFor(f, analyzer, target)]
  {
    hide HasRule, RuleFor, ResultFor, RulesFor, ResultsFor;
    var all := before + Locate(analyzer, findings[..i]);
    assert findings[..i + 1][..i] == findings[..i];
    assert before + Locate(analyzer, findings[..i + 1]) == all + [Located(analyzer, findings[i])];
    OneMore(all, Located(analyzer, findings[i]), target);
  }

  lemma OneMore(all: seq<Located>, l: Located, target: string)
    ensures RulesFor(all + [l])
         == if HasRule(RulesFor(all), l.finding.id) then RulesFor(all) else RulesFor(all) + [RuleFor(l.finding)]
    ensures ResultsFor(all + [l], target) == ResultsFor(all, target) + [ResultFor(l.finding, l.analyzer, target)]
  {
    hide HasRule, RuleFor, ResultFor;
    assert (all + [l])[..|all|] == all;
  }

  /* ---------- referential integrity ---------- */

  /** Finding k is the first with its id. */
  ghost predicate IsFirst(all: seq<Located>, k: nat) {
    k < |all| && forall j | 0 <= j < k :: all[j].finding.id != all[k].finding.id
  }

  predicate UniqueIds(rules: seq<SarifRule>) {
    forall i, j | 0 <= i < j < |rules| :: rules[i].id != rules[j].id
  }

  lemma HasRuleAppend(rules: seq<SarifRule>, r: SarifRule, id: string)
    ensures HasRule(rules + [r], id) <==> HasRule(rules, id) || r.id == id
  {
    if i :| 0 <= i < |rules| && rules[i].id == id { assert (rules + [r])[i].id == id; }
    if r.id == id { assert (rules + [r])[|rules|].id == id; }
  }

  ghost predicate HasId(all: seq<Located>, id: string) {
    exists k :: 0 <= k < |all| && all[k].finding.id == id
  }

  lemma HasIdAppend(all: seq<Located>, l: Located, id: string)
    ensures HasId(all + [l], id) <==> HasId(all, id) || l.finding.id == id
  {
    if k :| 0 <= k < |all| && all[k].finding.id == id { assert (all + [l])[k].finding.id == id; }
    if l.finding.id == id { assert (all + [l])[|all|].finding.id == id; }
  }

  /** Rule ids are unique and are exactly the ids of the findings. */
  lemma {:induction false} RuleIdsAreFindingIds(all: seq<Located>)
    ensures UniqueIds(RulesFor(all))
    ensures forall id :: HasRule(RulesFor(all), id) <==> HasId(all, id)
  {
    if all != [] {
      var front, last := all[..|all| - 1], all[|all| - 1];
      RuleIdsAreFindingIds(front);
      assert all == front + [last];
      forall id ensures HasRule(RulesFor(all), id) <==> HasId(all, id) {
        HasIdAppend(front, last, id);
        HasRuleAppend(RulesFor(front), RuleFor(last.finding), id);
      }
    }
  }

  ghost predicate FromFirst(all: seq<Located>, r: SarifRule) {
    exists k: nat :: IsFirst(all, k) && r == RuleFor(all[k].finding)
  }

  lemma FromFirstAppend(all: seq<Located>, l: Located, r: SarifRule)
    ensures FromFirst(all + [l], r) <==> FromFirst(all, r) || (!HasId(all, l.finding.id) && r == RuleFor(l.finding))
  {
    hide RuleFor;
    var more := all + [l];
    forall k: nat | k < |all| ensures more[k] == all[k] && (IsFirst(more, k) <==> IsFirst(all, k)) {
      assert forall j | 0 <= j <= k :: more[j] == all[j];
    }
    assert more[|all|] == l;
    assert IsFirst(more, |all|) <==> !HasId(all, l.finding.id) by {
      assert forall j | 0 <= j < |all| :: more[j] == all[j];
    }
    if k: nat :| IsFirst(all, k) && r == RuleFor(all[k].finding) {
      assert IsFirst(more, k);
    }
  }

  /** Each rule comes from the first finding with its id, and each such finding gives its rule. */
  lemma {:induction false} RulesComeFromFirst(all: seq<Located>, r: SarifRule)
    ensures r in RulesFor(all) <==> FromFirst(all, r)
  {
    if all != [] {
      var front, last := all[..|all| - 1], all[|all| - 1];
      assert all == front + [last];
      RulesComeFromFirst(front, r);
      RuleIdsAreFindingIds(front);
      FromFirstAppend(front, last, r);
    }
  }

  /** How many findings the reports of these analyzers hold. */
  function FindingCount(names: seq<string>, analyzers: Results): nat
    requires forall n | n in names :: n in analyzers
  {
    if names == [] then 0
    else FindingCount(names[..|names| - 1], analyzers) + |FindingsOf(analyzers[names[|names| - 1]])|
  }

  lemma {:induction false} AllFindingsLength(names: seq<string>, analyzers: Results)
    requires forall n | n in names :: n in analyzers
    ensures |AllFindings(names, analyzers)| == FindingCount(names, analyzers)
  {
    if names != [] {
      AllFindingsLength(names[..|names| - 1], analyzers);
      LocateLength(names[|names| - 1], FindingsOf(analyzers[names[|names| - 1]]));
    }
  }

  /** Section 3.27.5 of SARIF 2.1.0: every result's `ruleId` names exactly one rule and every rule has
      a result; there is one result for each finding. */
  lemma ReferentialIntegrity(target: string, analyzers: Results)
    ensures
      var all := Rendered(analyzers);
      var rules, results := RulesFor(all), ResultsFor(all, target);
      && UniqueIds(rules)
      && (forall id :: HasRule(rules, id) <==> exists i :: 0 <= i < |results| && results[i].ruleId == id)
      && (forall n | n in Listing(analyzers.Keys) :: n in analyzers)
      && |results| == FindingCount(Listing(analyzers.Keys), analyzers)
  {
    var all := Rendered(analyzers);
    var results := ResultsFor(all, target);
    ListingListsSet(analyzers.Keys);
    RuleIdsAreFindingIds(all);
    AllFindingsLength(Listing(analyzers.Keys), analyzers);
    forall id ensures HasId(all, id) <==> exists i :: 0 <= i < |results| && results[i].ruleId == id {
      if k :| 0 <= k < |all| && all[k].finding.id == id { assert results[k].ruleId == id; }
      if i :| 0 <= i < |results| && results[i].ruleId == id { assert all[i].finding.id == id; }
    }
  }

  /* ---------- what is exported ---------- */

  /** The analyzer's report holds this finding. */
  ghost predicate Reported(analyzers: Results, name: string, f: Finding) {
    name in analyzers && analyzers[name].report.Some? && f in analyzers[name].report.value.findings
  }

  predicate LevelIs(level: string, s: Severity) {
    level == if s == Critical || s == High then "error" else if s == Medium then "warning" else "note"
  }

  /** A result tells which analyzer found what where, and how bad it is. */
  predicate IsResultOf(x: SarifResult, name: string, f: Finding, target: string) {
    && x.ruleId == f.id && x.analyzer == name && x.message == f.description && x.uri == "https://" + target
    && LevelIs(x.level, f.severity) && x.severity == f.severity && x.cwe == f.cwe
  }

  lemma {:induction false} LocatedIff(analyzer: string, findings: seq<Finding>, l: Located)
    ensures l in Locate(analyzer, findings) <==> l.analyzer == analyzer && l.finding in findings
  {
    if findings != [] {
      var front, last := findings[..|findings| - 1], findings[|findings| - 1];
      LocatedIff(analyzer, front, l);
      assert findings == front + [last];
    }
  }

  lemma {:induction false} CollectedIff(names: seq<string>, analyzers: Results, l: Located)
    requires forall n | n in names :: n in analyzers
    ensures l in AllFindings(names, analyzers) <==> l.analyzer in names && Reported(analyzers, l.analyzer, l.finding)
  {
    if names != [] {
      var front, last := names[..|names| - 1], names[|names| - 1];
      CollectedIff(front, analyzers, l);
      LocatedIff(last, FindingsOf(analyzers[last]), l);
      assert names == front + [last];
    }
  }

  /** Exported is exactly what was reported: every finding of every report, and nothing else. */
  lemma ResultsAreFindings(target: string, analyzers: Results, x: SarifResult)
    ensures x in ResultsFor(Rendered(analyzers), target)
       <==> exists name, f :: Reported(analyzers, name, f) && IsResultOf(x, name, f, target)
  {
    ListingListsSet(analyzers.Keys);
    var names := Listing(analyzers.Keys);
    var all := Rendered(analyzers);
    hide Listing;
    if x in ResultsFor(all, target) {
      var i :| 0 <= i < |all| && x == ResultFor(all[i].finding, all[i].analyzer, target);
      CollectedIff(names, analyzers, all[i]);
      assert IsResultOf(x, all[i].analyzer, all[i].finding, target);
    }
    if name, f :| Reported(analyzers, name, f) && IsResultOf(x, name, f, target) {
      CollectedIff(names, analyzers, Located(name, f));
      var i :| 0 <= i < |all| && all[i] == Located(name, f);
      assert x == ResultFor(f, name, target);
      assert ResultsFor(all, target)[i] == x;
    }
  }

  /** What a rule says: title and description of its finding, the level, the weakness and remedy unless they
      are missing or empty, and the first reference. */
  lemma RuleSays(f: Finding)
    ensures
      var r := RuleFor(f);
      && r.id == f.id && r.name == f.title && r.fullDescription == f.description
      && LevelIs(r.level, f.severity) && r.severity == f.severity
      && (forall t :: r.cwe == Some(t) <==> f.cwe == Some(t) && t != "")
      && (forall t :: r.help == Some(t) <==> f.remediation == Some(t) && t != "")
      && (forall t :: r.helpUri == Some(t) <==> |f.references| > 0 && f.references[0] == t)
  {}
}
