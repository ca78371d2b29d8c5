/** Complete reports of scans by the TLS analyzer, with and without a finding. */
module SampleReports {
  import opened Text
  import opened Json
  import opened JsonCanonical
  import opened Snapshots

  const STARTED := "2026-01-01T00:00:00Z"

  const BRIEFLY := Float(Lexeme(false, "12", "5", ""))

  /** A `config_hash` of 64 hexadecimal digits. */
  function Digest(digit: char): string {
    seq(64, _ => digit)
  }

  function SampleSource(target: string): seq<Entry> {
    [Entry("kind", Str("tls")), Entry("target", Str(target)), Entry("timestamp", Str(STARTED)),
     Entry("body_sha256", Null), Entry("metadata", Obj([]))]
  }

  const FINDING_ID := "tls.cert.expiring_warning"

  function SampleFinding(target: string): seq<Entry> {
    [Entry("id", Str(FINDING_ID)), Entry("title", Str("Certificate expires within 30 days")),
     Entry("description", Str("Leaf certificate expires on 2026-01-21T00:00:00+00:00.")),
     Entry("severity", Str("medium")), Entry("source", Obj(SampleSource(target))), Entry("cwe", Null),
     Entry("cvss_vector", Null), Entry("cvss_score", Null),
     Entry("remediation", Str("Schedule renewal.")), Entry("references", Arr([]))]
  }

  function SampleFindings(target: string, found: bool): seq<Json> {
    if found then [Obj(SampleFinding(target))] else []
  }

  function SampleMetadata(found: bool): seq<Entry> {
    [Entry("protocol", Str("TLSv1.3")), Entry("cipher", Str("TLS_AES_256_GCM_SHA384")),
     Entry("days_until_expiry", Int(if found then 20 else 80)), Entry("subject", Str("CN=example")),
     Entry("issuer", Str("CN=CA")),
     Entry("not_before", Str("2025-10-01T00:00:00+00:00")),
     Entry("not_after", Str(if found then "2026-01-21T00:00:00+00:00" else "2026-03-22T00:00:00+00:00"))]
  }

  function SampleGrade(found: bool): string {
    if found then "B" else "A"
  }

  function SampleSection(target: string, found: bool): seq<Entry> {
    [Entry("analyzer", Str("tls")), Entry("target", Str(target)), Entry("started_at", Str(STARTED)),
     Entry("duration_ms", BRIEFLY),
     Entry("grade", Str(SampleGrade(found))), Entry("findings", Arr(SampleFindings(target, found))),
     Entry("metadata", Obj(SampleMetadata(found)))]
  }

  function SampleResult(target: string, found: bool): seq<Entry> {
    [Entry("name", Str("tls")), Entry("legal_class", Str("passive")), Entry("status", Str("ok")),
     Entry("report", Obj(SampleSection(target, found))), Entry("skip_reason", Null), Entry("error_kind", Null),
     Entry("error_message", Null)]
  }

  function SampleDump(target: string, configHash: string, found: bool): seq<Entry> {
    [Entry("schema_version", Str("wimsalabim/2.0")), Entry("tool_version", Str("2.0.0")), Entry("target", Str(target)),
     Entry("started_at", Str(STARTED)), Entry("duration_ms", BRIEFLY), Entry("config_hash", Str(configHash)),
     Entry("authorization", Null), Entry("analyzers", Obj([Entry("tls", Obj(SampleResult(target, found)))])),
     Entry("risk", Null),
     Entry("signature", Null), Entry("signing_pubkey", Null), Entry("ots_proof_path", Null)]
  }

  /* ---------- these are reports ---------- */

  lemma OneField(e: Entry)
    ensures MeaningFields([e]) == map[e.key := Meaning(e.value)]
  {
    assert [e][1..] == [];
  }

  lemma SourceIsWellFormed(target: string)
    ensures WellFormed(Obj(SampleSource(target)))
  {
    assert UniqueKeys(SampleSource(target));
  }

  lemma FindingIsWellFormed(target: string)
    ensures UniqueKeys(SampleFinding(target)) && WellFormed(Obj(SampleFinding(target)))
  {
    SourceIsWellFormed(target);
  }

  lemma MetadataIsWellFormed(found: bool)
    ensures WellFormed(Obj(SampleMetadata(found)))
  {}

  lemma BrieflyIsWellFormed()
    ensures WellFormed(BRIEFLY)
  {}

  lemma SectionIsWellFormed(target: string, found: bool)
    ensures UniqueKeys(SampleSection(target, found)) && WellFormed(Obj(SampleSection(target, found)))
  {
    FindingIsWellFormed(target);
    MetadataIsWellFormed(found);
    BrieflyIsWellFormed();
    hide SampleFinding, SampleMetadata;
  }

  lemma ResultIsWellFormed(target: string, found: bool)
    ensures UniqueKeys(SampleResult(target, found)) && WellFormed(Obj(SampleResult(target, found)))
  {
    SectionIsWellFormed(target, found);
    hide SampleSection;
  }

  lemma DumpIsWellFormed(target: string, configHash: string, found: bool)
    ensures UniqueKeys(SampleDump(target, configHash, found)) && WellFormed(Obj(SampleDump(target, configHash, found)))
  {
    ResultIsWellFormed(target, found);
    BrieflyIsWellFormed();
    hide SampleResult;
    assert WellFormed(Obj([Entry("tls", Obj(SampleResult(target, found)))]));
  }

  /* ---------- and what the store reads in them ---------- */

  function SectionView(found: bool): Section {
    Section(SampleGrade(found), if found then [FINDING_ID] else [])
  }

  lemma FindingsRead(target: string, found: bool)
    ensures
      var items := MeaningItems(SampleFindings(target, found));
      && |items| == (if found then 1 else 0)
      && (found ==> HasText(items[0], "id") && items[0].fields["id"].s == FINDING_ID)
  {
    FindingIsWellFormed(target);
    FieldIs(SampleFinding(target), 0);
    if found {
      assert SampleFindings(target, found)[1..] == [];
    }
  }

  lemma SectionRead(target: string, found: bool)
    ensures
      var v := Meaning(Obj(SampleSection(target, found)));
      && IsBaseReport(v) && v.fields["grade"].s == SampleGrade(found)
      && v.fields["findings"].items == MeaningItems(SampleFindings(target, found))
  {
    SectionIsWellFormed(target, found);
    FindingsRead(target, found);
    FieldIs(SampleSection(target, found), 4);
    FieldIs(SampleSection(target, found), 5);
    hide SampleFindings, WellFormed, UniqueKeys, SampleMetadata;
  }

  lemma ResultRead(target: string, found: bool)
    ensures
      var v := Meaning(Obj(SampleResult(target, found)));
      IsResult(v) && ReadSection(v) == Some(SectionView(found))
  {
    ResultIsWellFormed(target, found);
    SectionRead(target, found);
    FindingsRead(target, found);
    FieldIs(SampleResult(target, found), 3);
    hide SampleSection, WellFormed, SampleFindings, IsBaseReport, UniqueKeys;
    var ids := ReadSection(Meaning(Obj(SampleResult(target, found)))).value.findings;
    assert ids == if found then [FINDING_ID] else [];
  }

  function SampleView(target: string, configHash: string, found: bool): Snapshot {
    Snapshot(target, STARTED, configHash, map["tls" := Some(SectionView(found))])
  }

  lemma DumpRead(target: string, configHash: string, found: bool)
    ensures
      var fields := MeaningFields(SampleDump(target, configHash, found));
      && "target" in fields && fields["target"] == VStr(target)
      && "started_at" in fields && fields["started_at"] == VStr(STARTED)
      && "config_hash" in fields && fields["config_hash"] == VStr(configHash)
      && "analyzers" in fields && fields["analyzers"] == VDict(map["tls" := Meaning(Obj(SampleResult(target, found)))])
  {
    var dump := SampleDump(target, configHash, found);
    DumpIsWellFormed(target, configHash, found);
    hide SampleResult, WellFormed, UniqueKeys;
    OneField(Entry("tls", Obj(SampleResult(target, found))));
    FieldIs(dump, 2);
    FieldIs(dump, 3);
    FieldIs(dump, 5);
    FieldIs(dump, 7);
  }

  lemma SampleIsReport(target: string, configHash: string, found: bool)
    ensures
      var j := Obj(SampleDump(target, configHash, found));
      WellFormed(j) && IsReport(Meaning(j)) && Read(Meaning(j)) == SampleView(target, configHash, found)
  {
    DumpIsWellFormed(target, configHash, found);
    ResultRead(target, found);
    DumpRead(target, configHash, found);
    MeaningOfDict(SampleDump(target, configHash, found));
    hide SampleResult, SampleDump, SectionView, Meaning, MeaningFields, WellFormed, IsResult, ReadSection;
    var v := Meaning(Obj(SampleDump(target, configHash, found)));
    assert IsReport(v);
    assert Read(v).sections == map["tls" := Some(SectionView(found))];
  }

  lemma MeaningOfDict(entries: seq<Entry>)
    ensures Meaning(Obj(entries)) == VDict(MeaningFields(entries))
  {}

  function SampleReport(target: string, configHash: string, found: bool): Report {
    SampleIsReport(target, configHash, found);
    Obj(SampleDump(target, configHash, found))
  }

  lemma SampleReportView(target: string, configHash: string, found: bool)
    ensures View(SampleReport(target, configHash, found)) == SampleView(target, configHash, found)
  {
    SampleIsReport(target, configHash, found);
  }

  /** A finding that comes or goes is news. */
  lemma SampleDiff(target: string, configHash: string, before: bool, after: bool)
    ensures IsMeaningful(PureDiff(SampleView(target, configHash, before), SampleView(target, configHash, after)))
       <==> before != after
  {
    var prev, cur := SampleView(target, configHash, before), SampleView(target, configHash, after);
    NotMeaningfulIff(prev, cur);
    if before != after {
      assert GradeOf(prev, "tls") != GradeOf(cur, "tls");
    }
  }
}
