/** The report schema, as far as the orchestrator, the risk engine and the renderers read it. */
module Reports {
  import opened Text
  import opened HostScope

  datatype Severity = Critical | High | Medium | Low | Info

  datatype Grade = A | B | C | D | F | NA

  datatype Finding = Finding(id: string, title: string, description: string, severity: Severity,
                             cwe: Option<string>, remediation: Option<string>, references: seq<string>)

  /** A metadata value: a string, or an int, float or bool. */
  datatype MetaValue = Str(text: string) | NotStr

  datatype BaseReport = BaseReport(analyzer: string, grade: Grade, findings: seq<Finding>,
                                   metadata: map<string, MetaValue>)

  datatype Status = Ok | Skipped | Denied | Error

  datatype ErrorKind = Timeout | Network | Analyzer

  datatype AnalyzerResult = AnalyzerResult(name: string, legalClass: LegalClass, status: Status,
                                           report: Option<BaseReport>, skipReason: Option<Denial>,
                                           errorKind: Option<ErrorKind>)

  /** The `analyzers` dict of a scan report. */
  type Results = map<string, AnalyzerResult>
}
