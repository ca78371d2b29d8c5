/** The heuristic risk engine and its rules. */
module Risk {
  import opened Text
  import opened Reports
  import opened Headers
  import opened Floats

  /* ---------- rules ---------- */

  /** Points are a float of either sign; that of a hit is validated not to be negative. */
  datatype Points = Negative | Points(value: Float)

  datatype Rule = Rule(ruleId: string, severity: Severity, points: Points, fires: Results -> bool)

  /** The report of an analyzer that went well. */
  function ReportOf(results: Results, analyzer: string): Option<BaseReport> {
    if analyzer !in results || results[analyzer].status != Ok then None else results[analyzer].report
  }

  /** How good a grade is; `N/A` is none. */
  function Order(g: Grade): nat {
    match g case A => 5 case B => 4 case C => 3 case D => 2 case F => 1 case NA => 0
  }

  predicate TlsGradeBelow(results: Results, threshold: Grade) {
    var report := ReportOf(results, "tls");
    report.Some? && Order(report.value.grade) < Order(threshold) && report.value.grade != NA
  }

  /** The `missing` metadata of a report; a report without it reads as nothing missing. */
  function MissingText(report: BaseReport): MetaValue {
    if "missing" in report.metadata then report.metadata["missing"] else MetaValue.Str("")
  }

  predicate MissingSecurityHeader(results: Results, header: string) {
    var report := ReportOf(results, "headers");
    && report.Some? && MissingText(report.value).Str?
    && Contains(AsciiLower(header), AsciiLower(MissingText(report.value).text))
  }

  predicate HasFinding(results: Results, analyzer: string, id: string) {
    var report := ReportOf(results, analyzer);
    report.Some? && exists f :: f in report.value.findings && f.id == id
  }

  const RULE_REGISTRY: seq<Rule> := [
    Rule("WSL-TLS-001", High, Points(Whole(20)), r => TlsGradeBelow(r, B)),
    Rule("WSL-TLS-002", Critical, Points(Whole(25)), r => HasFinding(r, "tls", "tls.cert.expiring_soon")),
    Rule("WSL-HEADERS-001", High, Points(Whole(12)), r => MissingSecurityHeader(r, STS)),
    Rule("WSL-HEADERS-002", Medium, Points(Whole(8)), r => MissingSecurityHeader(r, CSP)),
    Rule("WSL-HEADERS-003", Medium, Points(Whole(5)), r => MissingSecurityHeader(r, XFO)),
    Rule("WSL-DNS-001", Medium, Points(Whole(6)), r => HasFinding(r, "dns_recon", "dns.dnssec.absent")),
    Rule("WSL-DNS-002", Low, Points(Whole(3)), r => HasFinding(r, "dns_recon", "dns.caa.absent"))]

  /* ---------- the engine ---------- */

  datatype Hit = Hit(ruleId: string, severity: Severity, points: Float)

  predicate Scores(rule: Rule, results: Results) {
    rule.fires(results) && rule.points.Points?
  }

  function HitOf(rule: Rule, results: Results): seq<Hit> {
    if Scores(rule, results) then [Hit(rule.ruleId, rule.severity, rule.points.value)] else []
  }

  /** The hits of the rules that fire, in order. */
  function Hits(rules: seq<Rule>, results: Results): seq<Hit> {
    if rules == [] then [] else Hits(rules[..|rules| - 1], results) + HitOf(rules[|rules| - 1], results)
  }

  /** The running sum, rounded at each addition. */
  function Total(hits: seq<Hit>): Float {
    if hits == [] then 0 else Plus(Total(hits[..|hits| - 1]), hits[|hits| - 1].points)
  }

  function Count(hits: seq<Hit>, s: Severity): nat {
    if hits == [] then 0 else Count(hits[..|hits| - 1], s) + if hits[|hits| - 1].severity == s then 1 else 0
  }

  function Cap(score: Float): Float {
    if score <= Whole(100) then score else Whole(100)
  }

  const GRADE_TABLE: seq<(Float, Grade)> := [
    (Whole(70), F), (Whole(50), D), (Whole(30), C), (Whole(15), B), (Whole(0), A)]

  /** The first grade whose threshold is met. */
  function FirstMet(table: seq<(Float, Grade)>, score: Float): Option<Grade> {
    if table == [] then None else if score >= table[0].0 then Some(table[0].1) else FirstMet(table[1..], score)
  }

  /** `_score_to_grade`; None where `next` finds no threshold. */
  function ScoreToGrade(score: Float, critical: bool): Option<Grade> {
    match FirstMet(GRADE_TABLE, score)
    case None => None
    case Some(base) => Some(if critical && (base.A? || base.B? || base.C?) then D else base)
  }

  /** `min(score, 100.0)` for a list of hits. */
  function Score(hits: seq<Hit>): Float {
    Cap(Total(hits))
  }

  function FinalGrade(hits: seq<Hit>): Grade {
    GradeExists(Score(hits), Count(hits, Critical) > 0);
    ScoreToGrade(Score(hits), Count(hits, Critical) > 0).value
  }

  /** What the default engine makes of the results of a scan. */
  function DefaultGrade(results: Results): Grade {
    FinalGrade(Hits(RULE_REGISTRY, results))
  }

  /** Raises: a hit with negative points is no valid `RuleHit`. */
  datatype Assessed = Raises | Assessment(score: Float, grade: Grade, hits: seq<Hit>, counts: map<Severity, nat>)

  /** No rule that fires has negative points. */
  ghost predicate Sound(rules: seq<Rule>, results: Results) {
    forall i | 0 <= i < |rules| :: rules[i].fires(results) ==> rules[i].points.Points?
  }

  /** The loop over the rules: hits and score, until a hit is invalid. */
  method CollectHits(rules: seq<Rule>, results: Results) returns (ok: bool, hits: seq<Hit>, score: Float)
    ensures ok <==> Sound(rules, results)
    ensures ok ==> hits == Hits(rules, results) && score == Total(hits)
  {
    hide Total, Plus, Hits;
    ok, hits, score := true, [], 0;
    NoHits(results);
    for i := 0 to |rules|
      invariant ok && hits == Hits(rules[..i], results) && score == Total(hits)
      invariant forall k | 0 <= k < i :: rules[k].fires(results) ==> rules[k].points.Points?
    {
      HitsNext(rules, results, i);
      if rules[i].fires(results) {
        if rules[i].points.Negative? {
          ok := false;
          break;
        }
        var hit := Hit(rules[i].ruleId, rules[i].severity, rules[i].points.value);
        PushHit(hits, hit);
        hits := hits + [hit];
        score := Plus(score, hit.points);
      }
    }
    assert rules[..|rules|] == rules;
  }

  lemma NoHits(results: Results)
    ensures Hits([], results) == [] && Total([]) == 0 && forall s :: Count([], s) == 0
  {}

  lemma HitsNext(rules: seq<Rule>, results: Results, i: nat)
    requires i < |rules|
    ensures Hits(rules[..i + 1], results) == Hits(rules[..i], results) + HitOf(rules[i], results)
  {
    assert rules[..i + 1][..i] == rules[..i];
  }

  lemma PushHit(hits: seq<Hit>, h: Hit)
    ensures Total(hits + [h]) == Plus(Total(hits), h.points)
    ensures forall s :: Count(hits + [h], s) == Count(hits, s) + if h.severity == s then 1 else 0
  {
    hide Plus;
    assert (hits + [h])[..|hits|] == hits;
  }

  method Assess(rules: seq<Rule>, results: Results) returns (r: Assessed)
    ensures r.Raises? <==> !Sound(rules, results)
    ensures r.Assessment? ==>
              && r.hits == Hits(rules, results)
              && r.score == Score(r.hits)
              && r.grade == FinalGrade(r.hits)
              && (forall s :: s in r.counts <==> Count(r.hits, s) > 0)
              && (forall s | s in r.counts :: r.counts[s] == Count(r.hits, s))
  {
    hide Hits, Total, Count, ScoreToGrade, Sound, Whole;
    var ok, hits, score := CollectHits(rules, results);
    if !ok {
      r := Raises;
    } else {
      score := Cap(score);
      GradeExists(score, Count(hits, Critical) > 0);
      var counts := CountSeverities(hits);
      r := Assessment(score, ScoreToGrade(score, Count(hits, Critical) > 0).value, hits, counts);
    }
  }

  /** `Counter(h.severity for h in hits)` */
  method CountSeverities(hits: seq<Hit>) returns (counts: map<Severity, nat>)
    ensures forall s :: s in counts <==> Count(hits, s) > 0
    ensures forall s | s in counts :: counts[s] == Count(hits, s)
  {
    counts := map[];
    for i := 0 to |hits|
      invariant forall s :: s in counts <==> Count(hits[..i], s) > 0
      invariant forall s | s in counts :: counts[s] == Count(hits[..i], s)
    {
      assert hits[..i + 1][..i] == hits[..i];
      var s := hits[i].severity;
      counts := counts[s := (if s in counts then counts[s] else 0) + 1];
    }
    assert hits[..|hits|] == hits;
  }

  /* ---------- what fires ---------- */

  /** A report counts when its analyzer went well. */
  lemma ReportOfIff(results: Results, analyzer: string, report: BaseReport)
    ensures ReportOf(results, analyzer) == Some(report)
       <==> analyzer in results && results[analyzer].status == Ok && results[analyzer].report == Some(report)
  {}

  /** Below B are exactly the grades C, D and F. */
  lemma TlsBelowBIff(results: Results)
    ensures TlsGradeBelow(results, B)
       <==> var report := ReportOf(results, "tls"); report.Some? && report.value.grade in {C, D, F}
  {}

  /** The rules that score, in order. */
  function Scoring(rules: seq<Rule>, results: Results): seq<Rule> {
    if rules == [] then []
    else (if Scores(rules[0], results) then [rules[0]] else []) + Scoring(rules[1..], results)
  }

  lemma {:induction false} ScoringAppend(a: seq<Rule>, b: seq<Rule>, results: Results)
    ensures Scoring(a + b, results) == Scoring(a, results) + Scoring(b, results)
  {
    hide Scores;
    if a == [] {
      assert a + b == b;
    } else {
      ScoringAppend(a[1..], b, results);
      assert (a + b)[1..] == a[1..] + b;
      Regrouped(if Scores(a[0], results) then [a[0]] else [], Scoring(a[1..], results), Scoring(b, results));
    }
  }

  lemma Regrouped<T>(a: seq<T>, b: seq<T>, c: seq<T>)
    ensures a + b + c == a + (b + c)
  {}

  /** The hits are those of the rules that score, one by one and in order, with their ids, severities and
      points. */
  lemma {:induction false} HitsAreScoring(rules: seq<Rule>, results: Results)
    ensures
      var hits, scoring := Hits(rules, results), Scoring(rules, results);
      && |hits| == |scoring|
      && forall i | 0 <= i < |hits| ::
           && hits[i].ruleId == scoring[i].ruleId && hits[i].severity == scoring[i].severity
           && Points(hits[i].points) == scoring[i].points
  {
    if rules != [] {
      var front, last := rules[..|rules| - 1], rules[|rules| - 1];
      HitsAreScoring(front, results);
      ScoringAppend(front, [last], results);
      assert rules == front + [last] && [last][1..] == [];
    }
  }

  predicate HitIs(h: Hit, ruleId: string, severity: Severity, points: nat)
    requires points <= 100
  {
    h == Hit(ruleId, severity, Whole(points))
  }

  /** The hits of the default rules: which there are, when, how severe and for how many points. */
  lemma DefaultHitsAre(results: Results, h: Hit)
    ensures h in Hits(RULE_REGISTRY, results)
       <==> || (HitIs(h, "WSL-TLS-001", High, 20) && TlsGradeBelow(results, B))
            || (HitIs(h, "WSL-TLS-002", Critical, 25) && HasFinding(results, "tls", "tls.cert.expiring_soon"))
            || (HitIs(h, "WSL-HEADERS-001", High, 12) && MissingSecurityHeader(results, "Strict-Transport-Security"))
            || (HitIs(h, "WSL-HEADERS-002", Medium, 8) && MissingSecurityHeader(results, "Content-Security-Policy"))
            || (HitIs(h, "WSL-HEADERS-003", Medium, 5) && MissingSecurityHeader(results, "X-Frame-Options"))
            || (HitIs(h, "WSL-DNS-001", Medium, 6) && HasFinding(results, "dns_recon", "dns.dnssec.absent"))
            || (HitIs(h, "WSL-DNS-002", Low, 3) && HasFinding(results, "dns_recon", "dns.caa.absent"))
  {
    HitsOfEach(RULE_REGISTRY, results, h);
    RegistryHits(results, h);
    hide Hits, HitOf, HitIs, HasFinding, MissingSecurityHeader, TlsGradeBelow, Whole;
  }

  lemma RegistryHits(results: Results, h: Hit)
    ensures
      var r := RULE_REGISTRY;
      && (h in HitOf(r[0], results) <==> HitIs(h, "WSL-TLS-001", High, 20) && r[0].fires(results))
      && (h in HitOf(r[1], results) <==> HitIs(h, "WSL-TLS-002", Critical, 25) && r[1].fires(results))
      && (h in HitOf(r[2], results) <==> HitIs(h, "WSL-HEADERS-001", High, 12) && r[2].fires(results))
      && (h in HitOf(r[3], results) <==> HitIs(h, "WSL-HEADERS-002", Medium, 8) && r[3].fires(results))
      && (h in HitOf(r[4], results) <==> HitIs(h, "WSL-HEADERS-003", Medium, 5) && r[4].fires(results))
      && (h in HitOf(r[5], results) <==> HitIs(h, "WSL-DNS-001", Medium, 6) && r[5].fires(results))
      && (h in HitOf(r[6], results) <==> HitIs(h, "WSL-DNS-002", Low, 3) && r[6].fires(results))
  {
    hide HasFinding, MissingSecurityHeader, TlsGradeBelow, Whole;
  }

  lemma {:induction false} HitsOfEach(rules: seq<Rule>, results: Results, h: Hit)
    ensures h in Hits(rules, results) <==> exists i :: 0 <= i < |rules| && h in HitOf(rules[i], results)
  {
    hide HitOf;
    if rules != [] {
      var front, last := rules[..|rules| - 1], rules[|rules| - 1];
      HitsOfEach(front, results, h);
      if i :| 0 <= i < |rules| && h in HitOf(rules[i], results) {
        assert i < |front| ==> front[i] == rules[i];
      }
      if i :| 0 <= i < |front| && h in HitOf(front[i], results) {
        assert rules[i] == front[i];
      }
    }
  }

  /* ---------- grades ---------- */

  /** Every score has a grade; F means 70 or more; a critical hit makes it D or F and nothing else makes
      it worse than the score says. */
  lemma GradeExists(score: Float, critical: bool)
    ensures ScoreToGrade(score, critical).Some?
    ensures ScoreToGrade(score, critical) == Some(F) <==> score >= Whole(70)
    ensures critical ==> ScoreToGrade(score, true).value == if score >= Whole(70) then F else D
    ensures !critical ==> ScoreToGrade(score, false) == FirstMet(GRADE_TABLE, score)
  {
    FirstMetIs(score);
  }

  lemma ThresholdOrder()
    ensures Whole(0) == 0 < Whole(15) < Whole(30) < Whole(50) < Whole(70) < Whole(100)
  {
    hide Whole;
    WholeOrder(15, 0);
    WholeOrder(30, 15);
    WholeOrder(50, 30);
    WholeOrder(70, 50);
    WholeOrder(100, 70);
  }

  lemma FirstMetIs(score: Float)
    ensures FirstMet(GRADE_TABLE, score)
         == Some(if score >= Whole(70) then F else if score >= Whole(50) then D else if score >= Whole(30) then C
                 else if score >= Whole(15) then B else A)
    ensures Whole(0) == 0 < Whole(15) < Whole(30) < Whole(50) < Whole(70) < Whole(100)
  {
    ThresholdOrder();
    hide Whole;
    var t := GRADE_TABLE;
    assert t[1..] == [(Whole(50), D), (Whole(30), C), (Whole(15), B), (Whole(0), A)];
    assert t[1..][1..] == [(Whole(30), C), (Whole(15), B), (Whole(0), A)];
    assert t[1..][1..][1..] == [(Whole(15), B), (Whole(0), A)];
    assert t[1..][1..][1..][1..] == [(Whole(0), A)];
    assert FirstMet(t[1..][1..][1..][1..], score) == Some(A);
    assert FirstMet(t[1..][1..], score)
        == if score >= Whole(30) then Some(C) else if score >= Whole(15) then Some(B)
           else FirstMet(t[1..][1..][1..][1..], score);
  }

  /** A higher score or a critical hit never gives a better grade. */
  lemma GradeIsMonotone(score: Float, critical: bool, score': Float, critical': bool)
    requires score <= score' && (critical ==> critical')
    ensures ScoreToGrade(score, critical).Some? && ScoreToGrade(score', critical').Some?
    ensures Order(ScoreToGrade(score', critical').value) <= Order(ScoreToGrade(score, critical).value)
  {
    FirstMetIs(score);
    FirstMetIs(score');
    hide Whole, FirstMet;
  }

  lemma CapIsMonotone(score: Float, score': Float)
    requires score <= score'
    ensures Cap(score) <= Cap(score') <= Whole(100)
  {}

  /** The severity counts add up to the number of hits. */
  lemma {:induction false} CountsAddUp(hits: seq<Hit>)
    ensures Count(hits, Critical) + Count(hits, High) + Count(hits, Medium) + Count(hits, Low) + Count(hits, Info)
         == |hits|
  {
    if hits != [] { CountsAddUp(hits[..|hits| - 1]); }
  }

  /* ---------- the critical floor ---------- */

  lemma HitsLast(rules: seq<Rule>, results: Results)
    requires rules != []
    ensures Hits(rules, results) == Hits(rules[..|rules| - 1], results) + HitOf(rules[|rules| - 1], results)
  {}

  /** What one more rule adds to the score and the counts. */
  lemma HitAdds(hits: seq<Hit>, rule: Rule, results: Results)
    ensures
      var more := hits + HitOf(rule, results);
      && Total(more) == Plus(Total(hits), if Scores(rule, results) then rule.points.value else 0)
      && forall s :: Count(more, s) == Count(hits, s) + if Scores(rule, results) && rule.severity == s then 1 else 0
  {
    hide Total, Plus, Count;
    if Scores(rule, results) {
      PushHit(hits, Hit(rule.ruleId, rule.severity, rule.points.value));
    } else {
      assert hits + HitOf(rule, results) == hits;
      PlusZero(Total(hits));
    }
  }

  /** No rule of the list that scores has this severity. */
  ghost predicate NoneScores(rules: seq<Rule>, results: Results, s: Severity) {
    forall i | 0 <= i < |rules| :: rules[i].severity == s ==> !Scores(rules[i], results)
  }

  lemma NoneScoresLast(rules: seq<Rule>, results: Results, s: Severity)
    requires rules != []
    ensures
      var rule := rules[|rules| - 1];
      var silent := rule.severity == s ==> !Scores(rule, results);
      NoneScores(rules, results, s) <==> NoneScores(rules[..|rules| - 1], results, s) && silent
  {
    assert forall i | 0 <= i < |rules| - 1 :: rules[..|rules| - 1][i] == rules[i];
  }

  lemma {:induction false} CountIsZeroIff(rules: seq<Rule>, results: Results, s: Severity)
    ensures Count(Hits(rules, results), s) == 0 <==> NoneScores(rules, results, s)
  {
    hide Hits, Count, NoneScores, Scores, Plus;
    if rules != [] {
      var front, rule := rules[..|rules| - 1], rules[|rules| - 1];
      CountIsZeroIff(front, results, s);
      HitsLast(rules, results);
      HitAdds(Hits(front, results), rule, results);
      NoneScoresLast(rules, results, s);
    } else {
      NoHits(results);
      NoneToScore(results, s);
    }
  }

  lemma NoneToScore(results: Results, s: Severity)
    ensures NoneScores([], results, s)
  {}

  /** The floor is for critical rules, and there is one: a certificate that expires within a week. */
  lemma CriticalFloorIff(results: Results)
    ensures Count(Hits(RULE_REGISTRY, results), Critical) > 0 <==> HasFinding(results, "tls", "tls.cert.expiring_soon")
  {
    CountIsZeroIff(RULE_REGISTRY, results, Critical);
    hide Hits, HasFinding, Whole;
    assert RULE_REGISTRY[1].severity == Critical;
  }

  /* ---------- more findings, more risk ---------- */

  /** When no rule stops firing, neither the score nor any count falls, however the sums are rounded. */
  lemma {:induction false} MoreHitsMoreScore(rules: seq<Rule>, before: Results, after: Results)
    requires forall i | 0 <= i < |rules| :: rules[i].fires(before) ==> rules[i].fires(after)
    ensures Total(Hits(rules, before)) <= Total(Hits(rules, after))
    ensures forall s :: Count(Hits(rules, before), s) <= Count(Hits(rules, after), s)
  {
    hide Hits, Total, Count, HitOf, Plus;
    if rules != [] {
      var front, rule := rules[..|rules| - 1], rules[|rules| - 1];
      MoreHitsMoreScore(front, before, after);
      HitsLast(rules, before);
      HitsLast(rules, after);
      HitAdds(Hits(front, before), rule, before);
      HitAdds(Hits(front, after), rule, after);
      assert rules[|front|] == rule;
      PlusIsMonotone(Total(Hits(front, before)), if Scores(rule, before) then rule.points.value else 0,
                     Total(Hits(front, after)), if Scores(rule, after) then rule.points.value else 0);
    } else {
      NoHits(before);
      NoHits(after);
    }
  }

  /** Every finding stays, though new ones may come. */
  ghost predicate KeepsFindings(before: Results, after: Results) {
    forall analyzer, id | HasFinding(before, analyzer, id) :: HasFinding(after, analyzer, id)
  }

  /** A graded TLS report stays graded and gets no better. */
  ghost predicate TlsNoBetter(before: Results, after: Results) {
    var b, a := ReportOf(before, "tls"), ReportOf(after, "tls");
    b.Some? && b.value.grade != NA ==> a.Some? && a.value.grade != NA && Order(a.value.grade) <= Order(b.value.grade)
  }

  /** The headers report lists these names as missing. */
  ghost predicate ListsMissing(results: Results, names: seq<string>) {
    var report := ReportOf(results, "headers");
    report.Some? && MissingText(report.value) == MetaValue.Str(CommaJoin(names))
  }

  /** The headers missing before are still missing. */
  ghost predicate KeepsMissing(before: Results, after: Results) {
    ReportOf(before, "headers").Some? ==>
      exists names, more ::
        ListsMissing(before, names) && ListsMissing(after, more) && forall n | n in names :: n in more
  }

  predicate Plain(name: string) { name != "" && ',' !in name }

  lemma LowerIsPlain(name: string)
    requires Plain(name)
    ensures Plain(AsciiLower(name))
  {}

  /** The rule fires exactly when some listed name holds the header's, whatever the case. */
  lemma MissingHeaderIff(results: Results, names: seq<string>, header: string)
    requires ListsMissing(results, names) && Plain(header)
    ensures MissingSecurityHeader(results, header)
       <==> exists n :: n in names && Contains(AsciiLower(header), AsciiLower(n))
  {
    hide AsciiLower, Contains;
    var needle := AsciiLower(header);
    LowerIsPlain(header);
    LowerOfJoin(names);
    CommaJoinContains(needle, LowerAll(names));
    if p :| p in LowerAll(names) && Contains(needle, p) {
      var q :| q in names && AsciiLower(q) == p;
    }
  }

  lemma MissingHeaderPersists(before: Results, after: Results, header: string)
    requires KeepsMissing(before, after) && Plain(header) && MissingSecurityHeader(before, header)
    ensures MissingSecurityHeader(after, header)
  {
    hide AsciiLower, Contains;
    var names, more :| ListsMissing(before, names) && ListsMissing(after, more) && forall n | n in names :: n in more;
    MissingHeaderIff(before, names, header);
    MissingHeaderIff(after, more, header);
  }

  lemma DefaultRulesPersist(before: Results, after: Results, i: nat)
    requires KeepsFindings(before, after) && TlsNoBetter(before, after) && KeepsMissing(before, after)
    requires i < |RULE_REGISTRY|
    ensures RULE_REGISTRY[i].fires(before) ==> RULE_REGISTRY[i].fires(after)
  {
    hide MissingSecurityHeader, KeepsMissing, Whole;
    if 2 <= i <= 4 && RULE_REGISTRY[i].fires(before) {
      MissingHeaderPersists(before, after, if i == 2 then STS else if i == 3 then CSP else XFO);
    }
  }

  /** Risk is monotone: with no finding gone, no missing header back and a TLS grade no better, the
      default engine's score is no lower and its grade no better. */
  lemma RiskIsMonotone(before: Results, after: Results)
    requires KeepsFindings(before, after) && TlsNoBetter(before, after) && KeepsMissing(before, after)
    ensures Score(Hits(RULE_REGISTRY, before)) <= Score(Hits(RULE_REGISTRY, after))
    ensures Order(DefaultGrade(after)) <= Order(DefaultGrade(before))
  {
    hide KeepsFindings, TlsNoBetter, KeepsMissing, Hits, Total, Count, Whole, ScoreToGrade;
    forall i | 0 <= i < |RULE_REGISTRY|
      ensures RULE_REGISTRY[i].fires(before) ==> RULE_REGISTRY[i].fires(after)
    {
      DefaultRulesPersist(before, after, i);
    }
    MoreHitsMoreScore(RULE_REGISTRY, before, after);
    var hits, hits' := Hits(RULE_REGISTRY, before), Hits(RULE_REGISTRY, after);
    CapIsMonotone(Total(hits), Total(hits'));
    GradeIsMonotone(Cap(Total(hits)), Count(hits, Critical) > 0, Cap(Total(hits')), Count(hits', Critical) > 0);
  }

  /** The points of the default rules. */
  const POINTS: seq<nat> := [20, 25, 12, 8, 5, 6, 3]

  /** What rule i adds to the score. */
  function Weight(i: nat, results: Results): nat
    requires i < |POINTS|
  {
    if RULE_REGISTRY[i].fires(results) then POINTS[i] else 0
  }

  function WeightUpTo(n: nat, results: Results): nat
    requires n <= |POINTS|
  {
    if n == 0 then 0 else WeightUpTo(n - 1, results) + Weight(n - 1, results)
  }

  lemma WeightStep(n: nat, results: Results)
    requires n < |POINTS|
    ensures WeightUpTo(n + 1, results) == WeightUpTo(n, results) + Weight(n, results)
    ensures WeightUpTo(0, results) == 0 && Weight(n, results) <= 25
  {
    hide Whole;
  }

  lemma PointsOf(i: nat)
    requires i < |POINTS|
    ensures |RULE_REGISTRY| == |POINTS| && RULE_REGISTRY[i].points == Points(Whole(POINTS[i]))
  {
    hide Whole;
  }

  lemma {:induction false} TotalIsWeight(n: nat, results: Results)
    requires n <= |POINTS|
    ensures WeightUpTo(n, results) <= 25 * n
    ensures Total(Hits(RULE_REGISTRY[..n], results)) == Whole(WeightUpTo(n, results))
  {
    hide Hits, Total, HitOf, Whole, Plus, WeightUpTo;
    WeightStep(0, results);
    if n == 0 {
      NoHits(results);
      WholeOrder(0, 0);
    } else {
      var rules := RULE_REGISTRY[..n];
      TotalIsWeight(n - 1, results);
      WeightStep(n - 1, results);
      PointsOf(n - 1);
      HitsNext(RULE_REGISTRY, results, n - 1);
      HitAdds(Hits(RULE_REGISTRY[..n - 1], results), RULE_REGISTRY[n - 1], results);
      WholeOrder(0, 0);
      WholeAdds(WeightUpTo(n - 1, results), Weight(n - 1, results));
    }
  }

  lemma WeightIsSum(results: Results)
    ensures WeightUpTo(7, results)
         == Weight(0, results) + Weight(1, results) + Weight(2, results) + Weight(3, results)
          + Weight(4, results) + Weight(5, results) + Weight(6, results)
  {
    hide Weight, WeightUpTo;
    WeightStep(0, results);
    WeightStep(1, results);
    WeightStep(2, results);
    WeightStep(3, results);
    WeightStep(4, results);
    WeightStep(5, results);
    WeightStep(6, results);
  }

  lemma DefaultTotal(results: Results)
    ensures WeightUpTo(7, results) <= 79
    ensures Total(Hits(RULE_REGISTRY, results)) == Whole(WeightUpTo(7, results))
  {
    assert RULE_REGISTRY[..7] == RULE_REGISTRY;
    TotalIsWeight(7, results);
    WeightIsSum(results);
    hide Hits, Total, HasFinding, MissingSecurityHeader, TlsGradeBelow, WeightUpTo, Whole;
  }

  /** The default rules never reach the cap, and the grade is F exactly when the TLS, certificate and
      transport security rules fire and no more than nine points of the others are spared. */
  lemma DefaultScoreIs(results: Results)
    ensures
      var total, r := Total(Hits(RULE_REGISTRY, results)), RULE_REGISTRY;
      && Cap(total) == total <= Whole(79)
      && (total >= Whole(70) <==>
            && r[0].fires(results) && r[1].fires(results) && r[2].fires(results)
            && (if r[3].fires(results) then r[4].fires(results) || r[5].fires(results)
                else r[4].fires(results) && r[5].fires(results) && r[6].fires(results)))
  {
    DefaultTotal(results);
    WeightIsSum(results);
    hide Hits, Total, HasFinding, MissingSecurityHeader, TlsGradeBelow, WeightUpTo, Whole, Plus;
    var weight := WeightUpTo(7, results);
    WholeOrder(weight, 79);
    WholeOrder(weight, 100);
    WholeOrder(70, weight);
  }

  predicate ExpiresSoon(results: Results) {
    HasFinding(results, "tls", "tls.cert.expiring_soon")
  }

  /** The points of the default rules, as the reports alone decide them. */
  function PointsOfReports(results: Results): nat {
    (if TlsGradeBelow(results, B) then 20 else 0) + (if ExpiresSoon(results) then 25 else 0)
    + (if MissingSecurityHeader(results, STS) then 12 else 0) + (if MissingSecurityHeader(results, CSP) then 8 else 0)
    + (if MissingSecurityHeader(results, XFO) then 5 else 0)
    + (if HasFinding(results, "dns_recon", "dns.dnssec.absent") then 6 else 0)
    + (if HasFinding(results, "dns_recon", "dns.caa.absent") then 3 else 0)
  }

  lemma WeightIsOfReports(results: Results)
    ensures WeightUpTo(7, results) == PointsOfReports(results)
  {
    WeightIsSum(results);
    hide HasFinding, MissingSecurityHeader, TlsGradeBelow, WeightUpTo, Whole;
  }

  /** The whole default engine in terms of the reports: which sum of points and which grade. */
  lemma DefaultGradeIs(results: Results)
    ensures
      var points := PointsOfReports(results);
      && Score(Hits(RULE_REGISTRY, results)) == Whole(points)
      && DefaultGrade(results)
           == if points >= 70 then F else if ExpiresSoon(results) || points >= 50 then D
              else if points >= 30 then C else if points >= 15 then B else A
  {
    DefaultTotal(results);
    WeightIsOfReports(results);
    CriticalFloorIff(results);
    hide Hits, Total, HasFinding, FirstMet, Whole, WeightUpTo, PointsOfReports, Count;
    var points := PointsOfReports(results);
    WholeOrder(100, points);
    WholeOrder(70, points);
    WholeOrder(50, points);
    WholeOrder(30, points);
    WholeOrder(15, points);
    FirstMetIs(Whole(points));
  }

  /** D or worse takes that finding, or a TLS grade below B, all three headers missing and no DNSSEC:
      critical findings alone do not force it. */
  lemma DOrWorseIff(results: Results)
    ensures DefaultGrade(results) in {D, F}
       <==> || ExpiresSoon(results)
            || (&& TlsGradeBelow(results, B)
                && MissingSecurityHeader(results, STS) && MissingSecurityHeader(results, CSP)
                && MissingSecurityHeader(results, XFO) && HasFinding(results, "dns_recon", "dns.dnssec.absent"))
  {
    DefaultGradeIs(results);
    hide DefaultGrade, ExpiresSoon, TlsGradeBelow, MissingSecurityHeader, HasFinding, Score;
  }

  /** A TLS report graded below B is graded B overall without a headers report, whatever it found short
      of a certificate that expires within a week: no critical finding counts as such. */
  lemma PoorTlsAloneIsB(results: Results)
    requires TlsGradeBelow(results, B) && !ExpiresSoon(results) && ReportOf(results, "headers").None?
    ensures DefaultGrade(results) == B
  {
    DefaultGradeIs(results);
    hide DefaultGrade, ExpiresSoon, TlsGradeBelow, HasFinding, Score;
  }

  /** The handshake verifies the certificate, so an expired one makes the TLS analyzer fail and the HTTPS
      request with it; without a report from either the grade is A, whatever DNS says. */
  lemma NoWebReportsAreGradedA(results: Results)
    requires ReportOf(results, "tls").None? && ReportOf(results, "headers").None?
    ensures DefaultGrade(results) == A
  {
    DefaultGradeIs(results);
    hide DefaultGrade, Score;
  }

  /* ---------- header rules end to end ---------- */

  /** The scan holds the headers analyzer's own report of a response. */
  ghost predicate HoldsHeadersReport(results: Results, headers: ResponseHeaders) {
    var report := ReportOf(results, "headers");
    report.Some? && ReportsOn(report.value, headers)
  }

  /** Header rules are exact end to end: for every response, WSL-HEADERS-001, 002 and 003 fire exactly
      when their header is absent, and exactly when its finding was reported. */
  lemma HeaderRulesAreExact(results: Results, headers: ResponseHeaders, h: SecurityHeader)
    requires HoldsHeadersReport(results, headers) && h in SECURITY_HEADERS
    requires h.name == STS || h.name == CSP || h.name == XFO
    ensures MissingSecurityHeader(results, h.name) <==> !Has(headers, h.name)
    ensures MissingSecurityHeader(results, h.name) <==> HasFinding(results, "headers", MissingId(h.name))
  {
    hide Has, AsciiLower, Contains, Split, MissingSecurityHeader, MissingFindings, LeakFindings;
    FindingIff(headers, h);
    NameIsPlain(h.name);
    MissingHeaderIff(results, Split(SECURITY_HEADERS, headers, false), h.name);
    AbsentIff(headers, h);
  }

  lemma NameIsPlain(name: string)
    requires name == STS || name == CSP || name == XFO
    ensures Plain(name)
  {}

  lemma AbsentIff(headers: ResponseHeaders, h: SecurityHeader)
    requires h in SECURITY_HEADERS && (h.name == STS || h.name == CSP || h.name == XFO)
    ensures !Has(headers, h.name)
       <==> exists n :: n in Split(SECURITY_HEADERS, headers, false) && Contains(AsciiLower(h.name), AsciiLower(n))
  {
    hide Has, AsciiLower, Contains, Split;
    var missing := Split(SECURITY_HEADERS, headers, false);
    SplitMembers(SECURITY_HEADERS, headers, false);
    forall g | g in SECURITY_HEADERS
      ensures Contains(AsciiLower(h.name), AsciiLower(g.name)) <==> g.name == h.name
    {
      NamesDoNotOverlap(h.name, g);
    }
    if !Has(headers, h.name) {
      assert h.name in missing;
    }
    if n :| n in missing && Contains(AsciiLower(h.name), AsciiLower(n)) {
      var i :| 0 <= i < |SECURITY_HEADERS| && SECURITY_HEADERS[i].name == n;
      assert SECURITY_HEADERS[i] in SECURITY_HEADERS;
    }
  }
}
