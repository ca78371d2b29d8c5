/** The security-headers analyzer: what it reports about the headers of one response. */
module Headers {
  import opened Text
  import opened Reports

  /* ---------- strings ---------- */

  function LowerChar(c: char): char {
    if 'A' <= c <= 'Z' then (c as int + 32) as char else c
  }

  /** `str.lower` on the ASCII names this analyzer and its rules compare. */
  function AsciiLower(s: string): string {
    seq(|s|, i requires 0 <= i < |s| => LowerChar(s[i]))
  }

  predicate FoundAt(needle: string, text: string, i: nat) {
    i + |needle| <= |text| && text[i..i + |needle|] == needle
  }

  /** `needle in text` */
  predicate Contains(needle: string, text: string) {
    exists i: nat :: i <= |text| && FoundAt(needle, text, i)
  }

  /** `",".join(parts)` */
  function CommaJoin(parts: seq<string>): string {
    if parts == [] then "" else if |parts| == 1 then parts[0] else parts[0] + "," + CommaJoin(parts[1..])
  }

  lemma ContainedIn(needle: string, a: string, b: string, c: string)
    requires Contains(needle, b)
    ensures Contains(needle, a + b + c)
  {
    var i: nat :| i <= |b| && FoundAt(needle, b, i);
    assert (a + b + c)[|a| + i..|a| + i + |needle|] == b[i..i + |needle|];
    assert FoundAt(needle, a + b + c, |a| + i);
  }

  lemma FoundCharacters(needle: string, text: string, i: nat)
    requires FoundAt(needle, text, i)
    ensures forall k | i <= k < i + |needle| :: text[k] in needle
  {
    assert forall k | i <= k < i + |needle| :: text[k] == text[i..i + |needle|][k - i];
  }

  lemma FoundBehind(needle: string, a: string, b: string, i: nat)
    requires FoundAt(needle, a + b, i) && i >= |a|
    ensures FoundAt(needle, b, i - |a|)
  {
    var k := i - |a|;
    assert b[k..k + |needle|] == (a + b)[i..i + |needle|];
  }

  /** A needle without a comma lies on one side of a comma. */
  lemma CommaSeparates(needle: string, a: string, b: string)
    requires ',' !in needle
    ensures Contains(needle, a + "," + b) <==> Contains(needle, a) || Contains(needle, b)
  {
    var text := a + "," + b;
    if i: nat :| i <= |text| && FoundAt(needle, text, i) {
      FoundCharacters(needle, text, i);
      assert text[|a|] == ',';
      if i + |needle| <= |a| {
        assert a[i..i + |needle|] == needle;
        assert FoundAt(needle, a, i);
      } else {
        FoundBehind(needle, a + ",", b, i);
      }
    }
    if Contains(needle, a) {
      ContainedIn(needle, "", a, "," + b);
      assert "" + a + ("," + b) == text;
    }
    if Contains(needle, b) {
      ContainedIn(needle, a + ",", b, "");
      assert a + "," + b + "" == text;
    }
  }

  /** A needle without a comma is in a comma-joined list exactly when it is in one of its parts. */
  lemma {:induction false} CommaJoinContains(needle: string, parts: seq<string>)
    requires needle != "" && ',' !in needle
    ensures Contains(needle, CommaJoin(parts)) <==> exists p :: p in parts && Contains(needle, p)
  {
    if |parts| > 1 {
      CommaSeparates(needle, parts[0], CommaJoin(parts[1..]));
      CommaJoinContains(needle, parts[1..]);
      assert parts == [parts[0]] + parts[1..];
    }
  }

  function LowerAll(parts: seq<string>): seq<string> {
    if parts == [] then [] else [AsciiLower(parts[0])] + LowerAll(parts[1..])
  }

  lemma {:induction false} LowerOfJoin(parts: seq<string>)
    ensures AsciiLower(CommaJoin(parts)) == CommaJoin(LowerAll(parts))
    ensures |LowerAll(parts)| == |parts|
    ensures forall p :: p in LowerAll(parts) <==> exists q :: q in parts && AsciiLower(q) == p
  {
    if parts != [] {
      LowerOfJoin(parts[1..]);
      assert parts == [parts[0]] + parts[1..];
      var rest := CommaJoin(parts[1..]);
      assert AsciiLower(parts[0] + "," + rest) == AsciiLower(parts[0]) + "," + AsciiLower(rest);
    }
  }

  /* ---------- the analyzer ---------- */

  datatype SecurityHeader = SecurityHeader(name: string, severity: Severity, cwe: string)

  const STS := "Strict-Transport-Security"
  const CSP := "Content-Security-Policy"
  const XFO := "X-Frame-Options"

  const SECURITY_HEADERS := [
    SecurityHeader(STS, High, "CWE-319"),
    SecurityHeader(CSP, Medium, "CWE-693"),
    SecurityHeader(XFO, Medium, "CWE-1021"),
    SecurityHeader("X-Content-Type-Options", Low, "CWE-693"),
    SecurityHeader("Referrer-Policy", Low, "CWE-200"),
    SecurityHeader("Permissions-Policy", Low, "CWE-693")]

  const LEAKY_HEADERS := ["Server", "X-Powered-By", "X-AspNet-Version", "X-Generator"]

  /** Response headers by lower-case name: the lookup ignores case. */
  type ResponseHeaders = map<string, string>

  predicate Has(headers: ResponseHeaders, name: string) {
    AsciiLower(name) in headers
  }

  function MissingId(name: string): string { "headers.missing." + AsciiLower(name) }

  function LeakId(name: string): string { "headers.leak." + AsciiLower(name) }

  const REMEDIATIONS: map<string, string> := map[
    STS := "Add 'Strict-Transport-Security: max-age=63072000; includeSubDomains; preload'.",
    CSP := "Define a baseline CSP, e.g. \"default-src 'self'; object-src 'none'\".",
    XFO := "Set 'X-Frame-Options: DENY' (or use frame-ancestors in CSP).",
    "X-Content-Type-Options" := "Set 'X-Content-Type-Options: nosniff'.",
    "Referrer-Policy" := "Set 'Referrer-Policy: strict-origin-when-cross-origin'.",
    "Permissions-Policy" := "Restrict APIs you do not use, e.g. 'Permissions-Policy: geolocation=()'."]

  function RemediationFor(header: string): string {
    if header in REMEDIATIONS then REMEDIATIONS[header] else "Add " + header + " header."
  }

  function MissingFinding(h: SecurityHeader): Finding {
    Finding(MissingId(h.name), "Security header missing: " + h.name,
            "Server response did not include " + h.name + ".", h.severity, Some(h.cwe),
            Some(RemediationFor(h.name)), [])
  }

  function LeakFinding(name: string, value: string): Finding {
    Finding(LeakId(name), "Information-disclosing header: " + name,
            name + " is set to '" + value + "', revealing software/version detail.", Low, Some("CWE-200"),
            Some("Remove the " + name + " header from server config."), [])
  }

  /** The names of the listed headers that are there, or are not there, in order. */
  function Split(list: seq<SecurityHeader>, headers: ResponseHeaders, there: bool): seq<string> {
    if list == [] then []
    else
      Split(list[..|list| - 1], headers, there) +
      var h := list[|list| - 1]; if Has(headers, h.name) == there then [h.name] else []
  }

  function MissingFindings(list: seq<SecurityHeader>, headers: ResponseHeaders): seq<Finding> {
    if list == [] then []
    else
      MissingFindings(list[..|list| - 1], headers) +
      var h := list[|list| - 1]; if Has(headers, h.name) then [] else [MissingFinding(h)]
  }

  function LeakFindings(list: seq<string>, headers: ResponseHeaders): seq<Finding> {
    if list == [] then []
    else
      var name := list[|list| - 1];
      LeakFindings(list[..|list| - 1], headers) +
      if Has(headers, name) then [LeakFinding(name, headers[AsciiLower(name)])] else []
  }

  function LeakTexts(list: seq<string>, headers: ResponseHeaders): seq<string> {
    if list == [] then []
    else
      var name := list[|list| - 1];
      LeakTexts(list[..|list| - 1], headers) +
      if Has(headers, name) then [name + ": " + headers[AsciiLower(name)]] else []
  }

  /** `_grade` */
  function HeadersGrade(missing: seq<string>, leaks: seq<string>): Grade {
    var heavy := (if STS in missing then 1 else 0) + if CSP in missing then 1 else 0;
    if heavy >= 2 then D
    else if heavy == 1 && leaks != [] then C
    else if missing != [] || leaks != [] then B
    else A
  }

  /** What the report says about the headers of one response. */
  predicate ReportsOn(report: BaseReport, headers: ResponseHeaders) {
    && report.findings == MissingFindings(SECURITY_HEADERS, headers) + LeakFindings(LEAKY_HEADERS, headers)
    && report.metadata == map[
      "present" := MetaValue.Str(CommaJoin(Split(SECURITY_HEADERS, headers, true))),
      "missing" := MetaValue.Str(CommaJoin(Split(SECURITY_HEADERS, headers, false))),
      "info_leaks" := MetaValue.Str(CommaJoin(LeakTexts(LEAKY_HEADERS, headers)))]
    && report.grade == HeadersGrade(Split(SECURITY_HEADERS, headers, false), LeakTexts(LEAKY_HEADERS, headers))
  }

  method Analyze(headers: ResponseHeaders) returns (report: BaseReport)
    ensures report.analyzer == "headers" && ReportsOn(report, headers)
  {
    var findings, present, missing := ClassifySecurity(SECURITY_HEADERS, headers);
    var leakFindings, leaks := ClassifyLeaks(LEAKY_HEADERS, headers);
    report := BaseReport("headers", HeadersGrade(missing, leaks), findings + leakFindings, map[
      "present" := MetaValue.Str(CommaJoin(present)),
      "missing" := MetaValue.Str(CommaJoin(missing)),
      "info_leaks" := MetaValue.Str(CommaJoin(leaks))]);
  }

  /** The loop over the security headers. */
  method ClassifySecurity(list: seq<SecurityHeader>, headers: ResponseHeaders)
    returns (findings: seq<Finding>, present: seq<string>, missing: seq<string>)
    ensures findings == MissingFindings(list, headers)
    ensures present == Split(list, headers, true) && missing == Split(list, headers, false)
  {
    findings, present, missing := [], [], [];
    for i := 0 to |list|
      invariant findings == MissingFindings(list[..i], headers)
      invariant present == Split(list[..i], headers, true) && missing == Split(list[..i], headers, false)
    {
      assert list[..i + 1][..i] == list[..i];
      if Has(headers, list[i].name) {
        present := present + [list[i].name];
      } else {
        missing := missing + [list[i].name];
        findings := findings + [MissingFinding(list[i])];
      }
    }
    assert list[..|list|] == list;
  }

  /** The loop over the leaky headers. */
  method ClassifyLeaks(list: seq<string>, headers: ResponseHeaders) returns (findings: seq<Finding>, leaks: seq<string>)
    ensures findings == LeakFindings(list, headers) && leaks == LeakTexts(list, headers)
  {
    findings, leaks := [], [];
    for i := 0 to |list|
      invariant findings == LeakFindings(list[..i], headers) && leaks == LeakTexts(list[..i], headers)
    {
      assert list[..i + 1][..i] == list[..i];
      var name := list[i];
      if Has(headers, name) {
        leaks := leaks + [name + ": " + headers[AsciiLower(name)]];
        findings := findings + [LeakFinding(name, headers[AsciiLower(name)])];
      }
    }
    assert list[..|list|] == list;
  }

  /* ---------- what is reported missing is what is absent ---------- */

  lemma {:induction false} SplitMembers(list: seq<SecurityHeader>, headers: ResponseHeaders, there: bool)
    ensures forall n :: n in Split(list, headers, there)
              <==> exists i :: 0 <= i < |list| && list[i].name == n && Has(headers, n) == there
  {
    if list != [] {
      var front, last := list[..|list| - 1], list[|list| - 1];
      SplitMembers(front, headers, there);
      forall n ensures n in Split(list, headers, there)
                 <==> exists i :: 0 <= i < |list| && list[i].name == n && Has(headers, n) == there
      {
        if i :| 0 <= i < |list| && list[i].name == n && Has(headers, n) == there {
          assert i < |front| ==> front[i].name == n;
        }
        if i :| 0 <= i < |front| && front[i].name == n && Has(headers, n) == there {
          assert list[i].name == n;
        }
      }
    }
  }

  lemma {:induction false} MissingFindingMembers(list: seq<SecurityHeader>, headers: ResponseHeaders)
    ensures forall f :: f in MissingFindings(list, headers)
              <==> exists h :: h in list && !Has(headers, h.name) && f == MissingFinding(h)
  {
    if list != [] {
      MissingFindingMembers(list[..|list| - 1], headers);
      assert list == list[..|list| - 1] + [list[|list| - 1]];
    }
  }

  lemma {:induction false} LeakFindingMembers(list: seq<string>, headers: ResponseHeaders)
    ensures forall f :: f in LeakFindings(list, headers)
              <==> exists n :: n in list && Has(headers, n) && f == LeakFinding(n, headers[AsciiLower(n)])
  {
    if list != [] {
      LeakFindingMembers(list[..|list| - 1], headers);
      assert list == list[..|list| - 1] + [list[|list| - 1]];
    }
  }

  lemma LeakIdIsNotMissingId(a: string, b: string)
    ensures LeakId(a) != MissingId(b)
  {
    assert LeakId(a)[8] == 'l' && MissingId(b)[8] == 'm';
  }

  lemma MissingIdIsInjective(a: string, b: string)
    requires MissingId(a) == MissingId(b)
    ensures AsciiLower(a) == AsciiLower(b)
  {
    assert MissingId(a)[16..] == AsciiLower(a) && MissingId(b)[16..] == AsciiLower(b);
  }

  /** A finding `headers.missing.x` is reported exactly when a listed header of that name is absent. */
  lemma FindingIff(headers: ResponseHeaders, h: SecurityHeader)
    requires h in SECURITY_HEADERS
    ensures (exists f :: f in MissingFindings(SECURITY_HEADERS, headers) + LeakFindings(LEAKY_HEADERS, headers)
                         && f.id == MissingId(h.name))
       <==> !Has(headers, h.name)
  {
    MissingFindingMembers(SECURITY_HEADERS, headers);
    LeakFindingMembers(LEAKY_HEADERS, headers);
    var findings := MissingFindings(SECURITY_HEADERS, headers) + LeakFindings(LEAKY_HEADERS, headers);
    if f :| f in findings && f.id == MissingId(h.name) {
      if f in MissingFindings(SECURITY_HEADERS, headers) {
        var g :| g in SECURITY_HEADERS && !Has(headers, g.name) && f == MissingFinding(g);
        MissingIdIsInjective(g.name, h.name);
      } else {
        var n :| n in LEAKY_HEADERS && Has(headers, n) && f == LeakFinding(n, headers[AsciiLower(n)]);
        LeakIdIsNotMissingId(n, h.name);
      }
    }
    if !Has(headers, h.name) {
      assert MissingFinding(h) in findings;
    }
  }

  lemma LeakIdIsInjective(a: string, b: string)
    requires LeakId(a) == LeakId(b)
    ensures AsciiLower(a) == AsciiLower(b)
  {
    assert LeakId(a)[13..] == AsciiLower(a) && LeakId(b)[13..] == AsciiLower(b);
  }

  /** A finding `headers.leak.x` is reported exactly when a listed leaky header of that name is there. */
  lemma LeakIff(headers: ResponseHeaders, n: string)
    requires n in {"Server", "X-Powered-By", "X-AspNet-Version", "X-Generator"}
    ensures (exists f :: f in MissingFindings(SECURITY_HEADERS, headers) + LeakFindings(LEAKY_HEADERS, headers)
                         && f.id == "headers.leak." + AsciiLower(n))
       <==> Has(headers, n)
  {
    assert n in LEAKY_HEADERS;
    hide *;
    ListedLeakIff(headers, n);
  }

  lemma ListedLeakIff(headers: ResponseHeaders, n: string)
    requires n in LEAKY_HEADERS
    ensures (exists f :: f in MissingFindings(SECURITY_HEADERS, headers) + LeakFindings(LEAKY_HEADERS, headers)
                         && f.id == "headers.leak." + AsciiLower(n))
       <==> Has(headers, n)
  {
    hide AsciiLower;
    MissingFindingMembers(SECURITY_HEADERS, headers);
    LeakFindingMembers(LEAKY_HEADERS, headers);
    var findings := MissingFindings(SECURITY_HEADERS, headers) + LeakFindings(LEAKY_HEADERS, headers);
    if f :| f in findings && f.id == LeakId(n) {
      if f in LeakFindings(LEAKY_HEADERS, headers) {
        var m :| m in LEAKY_HEADERS && Has(headers, m) && f == LeakFinding(m, headers[AsciiLower(m)]);
        LeakIdIsInjective(m, n);
      } else {
        var g :| g in SECURITY_HEADERS && !Has(headers, g.name) && f == MissingFinding(g);
        LeakIdIsNotMissingId(n, g.name);
      }
    }
    if Has(headers, n) {
      assert LeakFinding(n, headers[AsciiLower(n)]) in findings;
    }
  }

  lemma {:induction false} LeakTextMembers(list: seq<string>, headers: ResponseHeaders)
    ensures forall t :: t in LeakTexts(list, headers)
              <==> exists n :: n in list && Has(headers, n) && t == n + ": " + headers[AsciiLower(n)]
  {
    if list != [] {
      LeakTextMembers(list[..|list| - 1], headers);
      assert list == list[..|list| - 1] + [list[|list| - 1]];
    }
  }

  lemma {:induction false} LeakTextsEmptyIff(list: seq<string>, headers: ResponseHeaders)
    ensures LeakTexts(list, headers) == [] <==> forall n | n in list :: !Has(headers, n)
  {
    if list != [] {
      LeakTextsEmptyIff(list[..|list| - 1], headers);
      assert list == list[..|list| - 1] + [list[|list| - 1]];
    }
  }

  /** Every security header is there and no leaky one is. */
  ghost predicate Spotless(headers: ResponseHeaders) {
    (forall h | h in SECURITY_HEADERS :: Has(headers, h.name)) && (forall n | n in LEAKY_HEADERS :: !Has(headers, n))
  }

  ghost predicate Leaks(headers: ResponseHeaders) {
    exists n :: n in LEAKY_HEADERS && Has(headers, n)
  }

  lemma SplitNothingIff(list: seq<SecurityHeader>, headers: ResponseHeaders, there: bool)
    ensures Split(list, headers, there) == [] <==> forall h | h in list :: Has(headers, h.name) != there
  {
    SplitMembers(list, headers, there);
    hide Split, Has;
    var part := Split(list, headers, there);
    if part != [] {
      assert part[0] in part;
      var i :| 0 <= i < |list| && list[i].name == part[0] && Has(headers, part[0]) == there;
      assert list[i] in list;
    }
    if h :| h in list && Has(headers, h.name) == there {
      assert h.name in part;
    }
  }

  /** The grade in terms of the response: A exactly when nothing is missing and nothing leaks, D exactly
      without both transport security and a content policy, C exactly with one of them and a leak. */
  lemma GradeIs(headers: ResponseHeaders, report: BaseReport)
    requires ReportsOn(report, headers)
    ensures report.grade == A <==> Spotless(headers)
    ensures report.grade == D <==> !Has(headers, STS) && !Has(headers, CSP)
    ensures report.grade == C <==> Has(headers, STS) != Has(headers, CSP) && Leaks(headers)
    ensures report.grade in {A, B, C, D}
  {
    MissingIff(headers, 0, STS);
    MissingIff(headers, 1, CSP);
    hide Split, LeakTexts, Has;
    SplitNothingIff(SECURITY_HEADERS, headers, false);
    LeakTextsEmptyIff(LEAKY_HEADERS, headers);
  }

  lemma MissingIff(headers: ResponseHeaders, i: nat, name: string)
    requires i < |SECURITY_HEADERS| && SECURITY_HEADERS[i].name == name
    ensures name in Split(SECURITY_HEADERS, headers, false) <==> !Has(headers, name)
  {
    SplitMembers(SECURITY_HEADERS, headers, false);
  }

  /** What a response without any header is told, word by word where rules and readers depend on it. */
  lemma NothingSent(report: BaseReport)
    requires ReportsOn(report, map[])
    ensures report.grade == D && |report.findings| == 6
    ensures forall i | 0 <= i < 6 :: report.findings[i] == MissingFinding(SECURITY_HEADERS[i])
    ensures report.findings[0].severity == High && report.findings[0].cwe == Some("CWE-319")
    ensures report.findings[1].severity == Medium && report.findings[1].cwe == Some("CWE-693")
    ensures report.findings[2].severity == Medium && report.findings[2].cwe == Some("CWE-1021")
    ensures report.findings[3].severity == Low && report.findings[3].cwe == Some("CWE-693")
    ensures report.findings[4].severity == Low && report.findings[4].cwe == Some("CWE-200")
    ensures report.findings[5].severity == Low && report.findings[5].cwe == Some("CWE-693")
    ensures report.metadata["present"] == MetaValue.Str("") && report.metadata["info_leaks"] == MetaValue.Str("")
  {
    hide AsciiLower, RemediationFor;
    assert forall name :: !Has(map[], name);
    NoneThere(SECURITY_HEADERS);
    NoLeaks(LEAKY_HEADERS);
    SplitMembers(SECURITY_HEADERS, map[], false);
    assert SECURITY_HEADERS[0].name == STS && SECURITY_HEADERS[1].name == CSP;
  }

  lemma {:induction false} NoneThere(list: seq<SecurityHeader>)
    ensures |MissingFindings(list, map[])| == |list| && Split(list, map[], true) == []
    ensures forall i | 0 <= i < |list| :: MissingFindings(list, map[])[i] == MissingFinding(list[i])
  {
    if list != [] {
      NoneThere(list[..|list| - 1]);
    }
  }

  lemma {:induction false} NoLeaks(list: seq<string>)
    ensures LeakFindings(list, map[]) == [] && LeakTexts(list, map[]) == []
  {
    if list != [] { NoLeaks(list[..|list| - 1]); }
  }

  /** And all six are listed. */
  lemma NothingSentMisses(report: BaseReport)
    requires ReportsOn(report, map[])
    ensures report.metadata["missing"] == MetaValue.Str(
              CommaJoin(["Strict-Transport-Security", "Content-Security-Policy", "X-Frame-Options",
                         "X-Content-Type-Options", "Referrer-Policy", "Permissions-Policy"]))
  {
    hide AsciiLower, CommaJoin, MissingFindings, LeakFindings, LeakTexts;
    NamesOf(SECURITY_HEADERS);
    assert Split(SECURITY_HEADERS, map[], false)
        == ["Strict-Transport-Security", "Content-Security-Policy", "X-Frame-Options",
            "X-Content-Type-Options", "Referrer-Policy", "Permissions-Policy"];
  }

  lemma {:induction false} NamesOf(list: seq<SecurityHeader>)
    ensures |Split(list, map[], false)| == |list|
    ensures forall i | 0 <= i < |list| :: Split(list, map[], false)[i] == list[i].name
  {
    if list != [] { NamesOf(list[..|list| - 1]); }
  }

  /** Every capital letter becomes the small one, and nothing else changes. */
  lemma LowerLetters(s: string, i: nat, k: nat)
    requires i < |s| && k < 26
    ensures
      var capitals, small := "ABCDEFGHIJKLMNOPQRSTUVWXYZ", "abcdefghijklmnopqrstuvwxyz";
      && |AsciiLower(s)| == |s|
      && (s[i] == capitals[k] ==> AsciiLower(s)[i] == small[k])
      && (s[i] < 'A' || 'Z' < s[i] ==> AsciiLower(s)[i] == s[i])
  {}

  /** What the findings say. */
  lemma FindingsSay(h: SecurityHeader, name: string, value: string)
    ensures
      var f := MissingFinding(h);
      && f.id == "headers.missing." + AsciiLower(h.name) && f.title == "Security header missing: " + h.name
      && f.severity == h.severity && f.cwe == Some(h.cwe)
      && (h in SECURITY_HEADERS ==> h.name in REMEDIATIONS && f.remediation == Some(REMEDIATIONS[h.name]))
    ensures
      var f := LeakFinding(name, value);
      && f.id == "headers.leak." + AsciiLower(name) && f.title == "Information-disclosing header: " + name
      && f.severity == Low && f.cwe == Some("CWE-200")
  {}

  /* ---------- the names themselves ---------- */

  lemma TooLong(needle: string, text: string)
    requires |needle| > |text|
    ensures !Contains(needle, text)
  {}

  lemma LacksCharacter(needle: string, text: string, k: nat)
    requires k < |needle| && needle[k] !in text
    ensures !Contains(needle, text)
  {
    forall i: nat ensures !FoundAt(needle, text, i) {
      if i + |needle| <= |text| {
        assert text[i..i + |needle|][k] == text[i + k];
      }
    }
  }

  lemma ContainsItself(text: string)
    ensures Contains(text, text)
  {
    assert FoundAt(text, text, 0);
  }

  lemma LowerIs(name: string, lower: string)
    requires |name| == |lower| && forall i | 0 <= i < |name| :: LowerChar(name[i]) == lower[i]
    ensures AsciiLower(name) == lower
  {}

  lemma LowerRuleNames()
    ensures AsciiLower(STS) == "strict-transport-security"
    ensures AsciiLower(CSP) == "content-security-policy"
    ensures AsciiLower(XFO) == "x-frame-options"
  {
    hide AsciiLower;
    LowerIs(STS, "strict-transport-security");
    LowerIs(CSP, "content-security-policy");
    LowerIs(XFO, "x-frame-options");
  }

  lemma LowerListed(h: SecurityHeader)
    requires h in SECURITY_HEADERS
    ensures h.name == STS || h.name == CSP || h.name == XFO || AsciiLower(h.name) == "x-content-type-options"
         || AsciiLower(h.name) == "referrer-policy" || AsciiLower(h.name) == "permissions-policy"
  {
    hide AsciiLower;
    LowerIs("X-Content-Type-Options", "x-content-type-options");
    LowerIs("Referrer-Policy", "referrer-policy");
    LowerIs("Permissions-Policy", "permissions-policy");
  }

  lemma NoStsInside(e: string)
    requires |e| < 25
    ensures !Contains("strict-transport-security", e)
  {
    TooLong("strict-transport-security", e);
  }

  lemma NoCspInside(e: string)
    requires e == "strict-transport-security" || |e| < 23
    ensures !Contains("content-security-policy", e)
  {
    if |e| < 23 { TooLong("content-security-policy", e); } else { LacksCharacter("content-security-policy", e, 19); }
  }

  lemma NoXfoInside(e: string)
    requires 'x' !in e || 'f' !in e
    ensures !Contains("x-frame-options", e)
  {
    if 'x' !in e { LacksCharacter("x-frame-options", e, 0); } else { LacksCharacter("x-frame-options", e, 2); }
  }

  /** No listed name holds another one that a rule looks for. */
  lemma NamesDoNotOverlap(name: string, h: SecurityHeader)
    requires name == STS || name == CSP || name == XFO
    requires h in SECURITY_HEADERS
    ensures Contains(AsciiLower(name), AsciiLower(h.name)) <==> h.name == name
  {
    LowerRuleNames();
    LowerListed(h);
    hide AsciiLower, Contains;
    var e := AsciiLower(h.name);
    if h.name == name {
      ContainsItself(e);
    } else if name == STS {
      NoStsInside(e);
    } else if name == CSP {
      NoCspInside(e);
    } else {
      NoXfoInside(e);
    }
  }
}
