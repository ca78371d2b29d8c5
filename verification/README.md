# wimsalabim in Dafny

A model of the parts of wimsalabim whose correctness is not visible in one function: the watch daemon
over its snapshot table, canonical JSON and the signed report file, e-mail redaction, host scope and the
concurrent orchestrator, the risk engine with the headers analyzer, and the SARIF export. Everything is
proved for all inputs, all runs and all interleavings; `dafny verify dfyconfig.toml` checks the project.

| files | what they hold |
|---|---|
| `Text.dfy` | code point order, `sorted`, listings of sets that do not depend on iteration order |
| `Json.dfy`, `JsonRoundTrip.dfy`, `JsonCanonical.dfy`, `JsonLoads.dfy`, `JsonGrammar.dfy`, `PrintedText.dfy`, `JsonText.dfy`, `KeyOrder.dfy`, `NumberText.dfy` | `json.dumps` in the three styles the program uses, `json.loads` and the grammar it reads, their round trips, what the text is character by character, and how keys are sorted and numbers printed |
| `SignedReport.dfy`, `ConfigHash.dfy` | sign, write, read back, verify; the text whose hash identifies the settings |
| `Instants.dfy`, `Snapshots.dfy`, `Baseline.dfy`, `History.dfy` | time texts, the diff of two reports, the snapshot table and the history it stands for |
| `Watch.dfy`, `WatchRuns.dfy`, `WatchExample.dfy`, `SampleReports.dfy` | the daemon's loops, laws of whole runs, runs on complete reports that go against the documentation |
| `Privacy.dfy`, `Targets.dfy`, `HostScope.dfy`, `Orchestrator.dfy` | redaction, targets, label scopes and the gate, interleaved tasks |
| `Reports.dfy`, `Headers.dfy`, `Floats.dfy`, `Risk.dfy`, `RuleOrder.dfy`, `Sarif.dfy` | report schema, headers analyzer, binary64 addition, risk rules, what their order changes, SARIF |

## How things are modelled

- Strings are sequences of Unicode scalar values. Integers are exact, finite floats are their number
  lexemes, dicts are entries in insertion order. `Meaning` forgets that order, as Python's dict equality does.
- A report is its dump (`model_dump(mode="json")`); `Read` is what the store takes out of a validated one.
- The snapshot table is a map from (target, time text) to row. The clock, the outcome of each scan,
  recording, diff and callback, the first stop check that finds the event set and the round after which the
  wait is cancelled, if any, are given by a `World`. A run that ends, or is left by cancellation or by what a
  callback raises, is a run of `WatchLoop`, and so is every prefix of an endless one.
- Oracles taken as functions: SHA-256, the Ed25519 check (with its decoding errors), the Unicode word class
  and `str.lower`, and how each analyzer ends.
- Points and scores are binary64 numbers, as their multiples of 2^-1074, and every addition rounds half to
  even. A sum past the largest of them, which Python makes infinite, is capped to 100 either way.

## Where the code and its documentation differ

The model follows the code.

- `rounds_with_diff` counts target scans with a meaningful diff, not rounds
  (`src/wimsalabim/watch/loop.py:61-62`). It is what the documentation says for every run exactly when there
  is one target (`WatchExample.CountsAsDocumentedIff`); for any more, `WatchExample.CounterExceedsRounds` is a
  run where it is not.
- `previous` is the second newest row. The programmatic example in `README.md:510-514` diffs before it
  records, so it reads the right row only when the target has none (`History.DiffBeforeRecordSkipsBaseline`).
- A recording is compared with the target's last one exactly when its stamp is later
  (`History.ComparesWithLastIff`); at an equal stamp it replaces it (`History.EqualStampsLoseBaseline`).
- Snapshots are keyed by target and time. `config_hash` is stored and never used, unlike
  `src/wimsalabim/watch/baseline.py:3-4` says: `History.ComparesAlikeIff` is when like is compared with like,
  `WatchExample.OtherConfigIsCompared` a case where it is not.
- Keys sort by code point, RFC 8785 section 3.2.3 sorts them by UTF-16 unit: `KeyOrder.CanonicalTextAgreesIff`
  and `KeyOrder.KeyOrderCounterexample`.
- Floats are printed as Python prints them, RFC 8785 section 3.2.2.3 prints them as ECMAScript does:
  `NumberText.NumbersAgreeIff` and `NumberText.NumberTextCounterexample`. Integers are printed exactly, there
  as their nearest binary64 number: `NumberText.IntegersAgreeIff`, `NumberText.IntegerTextCounterexamples`.
- The signature leaves out `signing_pubkey` too, which the field description in
  `src/wimsalabim/core/schema.py:169-172` does not mention: `SignedReport.SignedTextIsCoveredFields`.
- The critical floor is for critical rules, and the only one is about expiring, not expired, certificates,
  the example of `docs/architecture.md:165-168`. `Risk.DOrWorseIff` says which reports make a grade D or worse,
  `Risk.PoorTlsAloneIsB` gives B to any other critical TLS finding without a headers report, and
  `Risk.NoWebReportsAreGradedA` gives A when an expired certificate makes the TLS and headers analyzers fail.
- The order of rules changes no hit, but it can change the score and the grade, since sums are rounded:
  `RuleOrder.OrderDecidesGrade` is such a list. `RuleOrder.ScoreIsSafeIff`, `RuleOrder.AnyIsSafeIff` and
  `RuleOrder.OrderNeverMattersIff` say exactly when it cannot; whole points are always safe
  (`RuleOrder.WholePointsAreExact`), so the default rules are.
- A round is always made, even with `max_iterations` of 0 or less, unless a stop comes first: `Watch.WatchLoop`.

## Model

| member | source | states |
|---|---|---|
| JsonRoundTrip.LoadsOfPrint | src/wimsalabim/cli.py:493-518 | parsing undoes printing for every value, in every style (sorted or not, escaped or raw, compact or indented) and with any white space around it |
| JsonCanonical.SortKeysFacts | src/wimsalabim/core/canonical.py:29 | sorting keys puts every nested dict in strictly ascending code point order and changes neither meaning nor well-formedness |
| JsonCanonical.OrderedIsUnique | src/wimsalabim/core/canonical.py:29 | two values with all keys in order and the same meaning are identical |
| JsonCanonical.CanonicalRoundTrip | src/wimsalabim/core/canonical.py:15-32 | canonical text loads as the same value with sorted keys, and canonicalizing that again gives the same text |
| JsonCanonical.CanonicalTextIsMeaning | src/wimsalabim/core/canonical.py:15-32 | two values have the same canonical text if and only if they are equal up to dict insertion order |
| JsonCanonical.DumpsRoundTrip | src/wimsalabim/cli.py:500-517 | what any style writes loads back with the same meaning and the same canonical text |
| JsonLoads.LoadsIsWellFormed | src/wimsalabim/cli.py:386 | whatever text is accepted, the loaded value has unique keys and proper number lexemes everywhere |
| JsonGrammar.LoadsIff | src/wimsalabim/cli.py:386 | the parser accepts exactly the JSON texts of sections 2 to 7 of RFC 8259, as the value they are a text of |
| JsonGrammar.OneValue | src/wimsalabim/cli.py:386 | a JSON text is a text of one value only |
| JsonGrammar.LastValueCounts | src/wimsalabim/cli.py:386 | of repeated keys the last value counts |
| PrintedText.CanonicalString | src/wimsalabim/core/canonical.py:25-32 | canonical text of any string, character by character: only quotes, backslashes and controls are escaped |
| PrintedText.PlainStringIsQuoted | src/wimsalabim/core/canonical.py:27 | a string without those, ASCII or not, is only put in quotes |
| PrintedText.CanonicalScalar | src/wimsalabim/core/canonical.py:25-32 | canonical text of null, booleans and integers |
| PrintedText.CanonicalList | src/wimsalabim/core/canonical.py:25-32 | canonical text of a list: the items' canonical texts between commas |
| PrintedText.CanonicalDict | src/wimsalabim/core/canonical.py:25-32 | canonical text of a dict with its keys in order: key, colon and value of each entry between commas |
| PrintedText.ReportString | src/wimsalabim/cli.py:500-513 | a string in a report file: every character beyond ASCII becomes one or two escaped units |
| PrintedText.ReportList | src/wimsalabim/cli.py:500-513 | a list in a report file: one item a line, two blanks deeper than its brackets |
| PrintedText.ReportDict | src/wimsalabim/cli.py:500-513 | a dict in a report file: one entry a line, a colon and a blank behind the key |
| PrintedText.ReportStyles | src/wimsalabim/cli.py:500-508 | the one report style keeps the order of dicts, the other sorts them, and they differ in nothing else |
| JsonText.CanonicalIsGapless | src/wimsalabim/core/canonical.py:18-22 | canonical text has no white space outside strings |
| JsonText.ReportTextIsAscii | src/wimsalabim/cli.py:500-513 | what the program writes to a JSON or SARIF report file is ASCII, whatever the report |
| KeyOrder.CanonicalTextAgreesIff | src/wimsalabim/core/canonical.py:15-29 | canonical text is that of the value with every dict in UTF-16 order if and only if no dict, however deep, holds a crossed pair of keys |
| KeyOrder.UnitOrderExists | src/wimsalabim/core/canonical.py:15-29 | every value can be written with all its dicts in UTF-16 order |
| KeyOrder.KeyOrdersAgreeIff | src/wimsalabim/core/canonical.py:15-19 | code point order and the UTF-16 order of RFC 8785 agree on two keys unless their first difference sets an astral character against one from U+E000 to U+FFFF |
| KeyOrder.KeyOrderCounterexample | src/wimsalabim/core/canonical.py:15-19 | a pair of keys that the two orders sort differently |
| NumberText.NumbersAgreeIff | src/wimsalabim/core/canonical.py:15-32 | a float is a number lexeme, and printed as RFC 8785 asks if and only if it is a fraction in Python's plain range or has an exponent from 21 or below -9 |
| NumberText.NumberTextCounterexample | src/wimsalabim/core/canonical.py:15-32 | 28.0 is printed `28.0` and not `28` |
| NumberText.PythonPowers | src/wimsalabim/core/canonical.py:15-32 | powers of ten at the ends of Python's plain range: 0.0001, 1e-05, 1000000000000000.0, 1e+16 |
| NumberText.ScriptPowers | src/wimsalabim/core/canonical.py:15-32 | those at the ends of the range of RFC 8785: 0.000001, 1e-7, 10000000000000000, 1e+21 |
| NumberText.IntegersAgreeIff | src/wimsalabim/core/canonical.py:15-32 | an integer is printed as RFC 8785 asks if and only if it is below 10^21 and denoted by the shortest digits of its nearest binary64 number |
| NumberText.SomeDigitsDenote | src/wimsalabim/core/canonical.py:15-32 | every integer is denoted by some digits |
| NumberText.SmallIntegersAgree | src/wimsalabim/core/canonical.py:15-32 | every integer below 2^53 is |
| NumberText.IntegerTextCounterexamples | src/wimsalabim/core/canonical.py:15-32 | 2^53 + 1 and 10^21 are not |
| SignedReport.UnsignedView | src/wimsalabim/cli.py:485-490 | the three pops leave exactly what the comprehension in `verify` keeps |
| SignedReport.SignedTextIsCoveredFields | src/wimsalabim/cli.py:392-397 | two dumps have the same signed text if and only if they agree on every field but the three left out |
| SignedReport.VerifyOfDump | src/wimsalabim/cli.py:386-398 | the verdict on a printed report depends on its fields and signed text only, not on style or trailing white space |
| SignedReport.VerdictIs | src/wimsalabim/cli.py:386-403 | of every file that holds a dict: accepted exactly when it holds a non-empty key and signature that the check accepts for the signed text, rejected exactly when the check rejects them, unsigned exactly when either is missing, null, zero or empty |
| SignedReport.NoDictRaises | src/wimsalabim/cli.py:386-387 | a file that holds no dict gets no verdict |
| SignedReport.UnsignedFileIsNotSigned | src/wimsalabim/cli.py:387-390 | a report that was not signed is called unsigned, however it is printed |
| SignedReport.SignedFileVerifies | src/wimsalabim/cli.py:156-165 | `verify` checks the signature of a written signed report against exactly the text that was signed |
| SignedReport.AnchoredFileVerifies | src/wimsalabim/cli.py:392-398 | the same after any later value of `ots_proof_path` |
| SignedReport.AcceptedFilesAgree | src/wimsalabim/cli.py:386-398 | two files of any layout get the same text checked if and only if their covered fields agree |
| ConfigHash.SettingsTextIsSettings | src/wimsalabim/core/orchestrator.py:88-96 | the hashed text of two scans is equal if and only if their target and three flags are and they enable the same analyzers, in whatever order |
| Instants.IsoOrder | src/wimsalabim/watch/baseline.py:77 | `isoformat` texts compare as the instants do, with the fraction omitted or not |
| Instants.IsoIsInjective | src/wimsalabim/watch/baseline.py:46 | different instants have different keys |
| Instants.IsoReads | src/wimsalabim/watch/baseline.py:77 | year, month and day of an instant can be read at their places in its text |
| Instants.TimeReads | src/wimsalabim/watch/baseline.py:77 | so can hour, minute, second and the microseconds, which are left out when there are none, and the zone |
| Instants.YearLength | src/wimsalabim/watch/baseline.py:46 | the months of a year make 365 days, or 366 in a leap year |
| Snapshots.NotMeaningfulIff | src/wimsalabim/watch/baseline.py:31-33 | a diff is not meaningful if and only if the findings are the same and grades agree wherever both sides have a report |
| Snapshots.MeaningfulIff | src/wimsalabim/watch/baseline.py:31-33 | there is news if and only if a finding is listed by one report only or an analyzer is graded differently |
| Snapshots.DiffListsFindings | src/wimsalabim/watch/baseline.py:105-114 | added names a finding if and only if the current report lists it and the previous one does not, removed the reverse |
| Snapshots.DiffListsNothingElse | src/wimsalabim/watch/baseline.py:105-114 | added and removed hold nothing else |
| Snapshots.DiffListsGrades | src/wimsalabim/watch/baseline.py:116-124 | an analyzer graded differently is in changed, old grade first |
| Snapshots.DiffListsNoOtherGrades | src/wimsalabim/watch/baseline.py:116-124 | changed holds nothing else |
| Snapshots.DiffIsDated | src/wimsalabim/watch/baseline.py:126-133 | the target and the two start times of a diff |
| Snapshots.ReadIs | src/wimsalabim/watch/baseline.py:94-95 | what is read out of a report: its target, start and hash, and of each analyzer's report the grade and all findings in order |
| Snapshots.DiffAlgebra | src/wimsalabim/watch/baseline.py:97-133 | a report against itself is no news; swapping the reports swaps added and removed and keeps whether there is news |
| Snapshots.DiffListsAreListings | src/wimsalabim/watch/baseline.py:111-133 | with colon-free analyzer names added, removed and changed are the strictly sorted listings of the set differences and of the grade changes, whatever the iteration order |
| Snapshots.ApplyIff | src/wimsalabim/watch/baseline.py:105-114 | taking out removed and putting in added turns the old findings into the new ones if and only if no kept finding is rendered like a removed one and like no added one |
| Snapshots.ColonFreeLosesNothing | src/wimsalabim/watch/baseline.py:111-114 | colon-free analyzer names rule that out |
| Snapshots.LostTextExample | src/wimsalabim/watch/baseline.py:111-114 | two findings rendered alike, so that a diff drops the one that stayed |
| Baseline.PayloadReadsBack | src/wimsalabim/watch/baseline.py:69-95 | a stored payload loads, validates and reads as the report that was recorded |
| Baseline.BaselineStore.Record | src/wimsalabim/watch/baseline.py:67-82 | inserts or replaces the row of the target and time text and nothing else; returns the digest of the payload |
| Baseline.BaselineStore.OrderedStamps | src/wimsalabim/watch/baseline.py:86-90 | the strictly sorted stamps of the target, whatever order the rows come in |
| Baseline.BaselineStore.Previous | src/wimsalabim/watch/baseline.py:84-95 | the report in the second row by descending stamp, None if there are fewer than two |
| Baseline.BaselineStore.DiffAgainstPrevious | src/wimsalabim/watch/baseline.py:97-133 | the order-free diff of the current report and the previous one |
| Baseline.RenderKeys | src/wimsalabim/watch/baseline.py:111-114 | appending in any set order and sorting gives one and the same list |
| Baseline.RenderChanges | src/wimsalabim/watch/baseline.py:116-124 | the same for the grade changes |
| History.RecordAppends | src/wimsalabim/watch/baseline.py:67-82 | recording at a later stamp appends to the history that the table represents and loses no row |
| History.PreviousIsSecondLast | src/wimsalabim/watch/baseline.py:84-95 | on a table that represents a history, `previous` is the second last recording of the target |
| History.DiffAfterRecord | src/wimsalabim/watch/loop.py:39-42 | in the order of `watch_once`, `previous` is the target's last earlier recording |
| History.ComparesWithLastIff | src/wimsalabim/watch/baseline.py:73-90 | on every history, the row read after a recording is the target's last earlier one if and only if the new stamp is later |
| History.EqualStampsLoseBaseline | src/wimsalabim/watch/baseline.py:73 | on every history, a report at the instant of the target's last one takes its place and is compared with the one before |
| History.DiffBeforeRecordSkipsBaseline | README.md:510-514 | on every history, diffing before recording compares with the second last recording and after with the last, and the row read before is the right one if and only if the target has none |
| History.ComparesAlikeIff | src/wimsalabim/watch/baseline.py:3-4 | the row compared is the target's last under any `config_hash`, and it is the last under the same one if and only if the target has none or its last has that hash |
| Watch.WatchOnce | src/wimsalabim/watch/loop.py:32-42 | the table and the result of one attempt, for each way it can go |
| Watch.RoundRobin | src/wimsalabim/watch/loop.py:75 | attempt k is number k mod n of round k div n |
| Watch.TargetOfAttempt | src/wimsalabim/watch/loop.py:75 | attempt k is on target k mod n |
| Watch.WatchTarget | src/wimsalabim/watch/loop.py:78-89 | one attempt keeps table, callbacks and counter in step with the run so far, and raises exactly on cancellation or a raising callback |
| Watch.WatchRound | src/wimsalabim/watch/loop.py:75-89 | one attempt per target unless a stop is seen or something is raised |
| Watch.WatchRounds | src/wimsalabim/watch/loop.py:74-98 | rounds until a stop is seen or enough were made; no round beyond the limit, a partial round only after a stop |
| Watch.WatchLoop | src/wimsalabim/watch/loop.py:45-98 | rejected exactly for no targets or a non-positive interval; otherwise table and callbacks are those of the attempts made, the counter counts the meaningful diffs delivered, iterations and attempts are accounted for, and an exception leaves it only from a cancelled scan or wait or a raising callback |
| Watch.EndsBecause | src/wimsalabim/watch/loop.py:74-98 | a run ends because of a stop or with exactly the rounds its limit allows, so without a limit only a stop ends it |
| WatchRuns.StoreRefinesHistory | src/wimsalabim/watch/loop.py:74-89 | with increasing stamps per target, the callbacks of every run are those of a plain append-only history, whatever fails and however targets interleave |
| WatchRuns.DiffsAreConserved | src/wimsalabim/watch/loop.py:74-89 | on a fresh history a target with n recordings gets n - 1 diffs |
| WatchRuns.DiffsTelescope | src/wimsalabim/watch/loop.py:74-89 | replaying the callbacks from a target's baseline findings gives the findings of its newest recording |
| WatchRuns.DaemonKeepsDiffLaws | src/wimsalabim/watch/loop.py:74-89 | both laws for the daemon over its table |
| WatchRuns.CounterCountsScans | src/wimsalabim/watch/loop.py:87-88 | the counter is the number of attempts that deliver a meaningful diff, at most the number of attempts |
| WatchRuns.CounterCountsRoundsIff | src/wimsalabim/watch/loop.py:61-62 | in one run, the counter is at least the number of rounds with a meaningful diff, and equal if and only if no round delivers two |
| WatchExample.CountsAsDocumentedIff | src/wimsalabim/watch/loop.py:61-62 | the counter of every run over these targets is the number of rounds with a meaningful diff if and only if there is one target |
| WatchExample.CounterExceedsRounds | src/wimsalabim/watch/loop.py:61-62 | for any two or more targets, a run of two rounds with counter 2 and one round with a meaningful diff |
| WatchExample.OtherConfigIsCompared | src/wimsalabim/watch/baseline.py:3-4 | two reports with different `config_hash` are compared where none with the same was recorded |
| Privacy.MatchLengthIs | src/wimsalabim/core/privacy.py:62 | the scanner finds the longest address at a place, and finds one if and only if there is one |
| Privacy.RedactedIsMailFree | src/wimsalabim/core/privacy.py:75 | no part of a redacted text is an address, not even across a placeholder |
| Privacy.RedactChangesIff | src/wimsalabim/core/privacy.py:75 | a text is unchanged if and only if it holds no address, so redaction is idempotent |
| Privacy.RedactKeepsTheRest | src/wimsalabim/core/privacy.py:75 | the text is cut into addresses, which are replaced, and address-free pieces, which stay in order |
| Privacy.WholeAddress | src/wimsalabim/core/privacy.py:62 | an address is matched whole, whatever its three parts |
| Privacy.AddressIsRedacted | src/wimsalabim/core/privacy.py:75 | an address in angle brackets becomes `[REDACTED:email]` in angle brackets |
| Privacy.RedactWhois | src/wimsalabim/core/privacy.py:65-78 | the same keys, each value redacted by its key, or everything unchanged on request |
| Privacy.RedactedFieldIsClean | src/wimsalabim/core/privacy.py:70-78 | PII fields are masked, other strings keep everything but their addresses, other values stay, and redacting again changes nothing |
| Privacy.PiiFieldsAre | src/wimsalabim/core/privacy.py:39-60 | which fields are PII: names and e-mails of all roles, phones of three, and the registrant's addresses |
| Targets.NormalizeTarget | src/wimsalabim/cli.py:466-471 | the loop drops each scheme once, in order, then path and trailing dots |
| Targets.AddressesOfOneHost | src/wimsalabim/cli.py:466-471 | a scheme, a path, trailing dots, upper case and white space around it make no difference to the target |
| Targets.TargetTwiceIff | src/wimsalabim/cli.py:466-471 | normalizing a target again changes nothing if and only if the text has no white space right behind its schemes, nor before its path and the dots that precede it |
| Targets.TargetTwiceCounterexample | src/wimsalabim/cli.py:466-471 | a text whose target changes when normalized again |
| HostScope.CoversIsLabelSuffix | src/wimsalabim/core/authorization.py:74-78 | the string test holds if and only if the labels of the one host are the last labels of the other |
| HostScope.CoversIsOrder | src/wimsalabim/core/authorization.py:74-78 | scope is reflexive, transitive and antisymmetric on normalized hosts |
| HostScope.NormalizedIsBare | src/wimsalabim/core/authorization.py:76-77 | a normalized host is the lowered one with exactly its outer dots removed |
| HostScope.EmptyScopeIff | src/wimsalabim/core/authorization.py:74-78 | an authorization for dots alone covers a host if and only if that is nothing but dots too |
| HostScope.CheckAdmitsIff | src/wimsalabim/core/authorization.py:54-71 | the gate admits exactly passive analyzers and those authorized for a label suffix of the target, intrusive ones only when allowed |
| HostScope.CheckDeniesIff | src/wimsalabim/core/authorization.py:54-71 | which of its three reasons the gate gives, and when |
| HostScope.AdmissionIsMonotone | src/wimsalabim/core/authorization.py:54-71 | admission passes to lower legal classes, wider authorizations and subdomains of the target |
| HostScope.ListedIsLabelSuffix | src/wimsalabim/core/privacy.py:81-84 | listed are exactly the hosts that end in a listed name's labels, closed under labels in front |
| HostScope.TelemetryHostIff | src/wimsalabim/core/privacy.py:81-84 | a telemetry host is one whose labels, lower-cased and without trailing dots, end in those of a blacklisted name; then so are all its subdomains |
| HostScope.ListedHosts | src/wimsalabim/core/privacy.py:17-36 | the blacklisted hosts and their subdomains are telemetry hosts |
| Orchestrator.StartedMayRun | src/wimsalabim/core/orchestrator.py:115-137 | in every reachable state of every interleaving, whatever has started was admitted |
| Orchestrator.RunsEnd | src/wimsalabim/core/orchestrator.py:77-82 | no interleaving is longer than two steps a task, and none is stuck before the run is over |
| Orchestrator.RunsAgree | src/wimsalabim/core/orchestrator.py:77-86 | every interleaving ends with the same report or, if and only if an admitted task ends in an exception that is not wrapped, with an exception |
| Orchestrator.AnyCrashMayEscape | src/wimsalabim/core/orchestrator.py:77-82 | which exception that is depends on the interleaving: each crashing task has a run in which all tasks start in order and it crashes first |
| Orchestrator.ReportIsComplete | src/wimsalabim/core/orchestrator.py:108-188 | each enabled registered analyzer has its own result under its name: denied with the gate's reason, ok with its report, or an error of the kind it ended with |
| Orchestrator.ReportIsExact | src/wimsalabim/core/orchestrator.py:77-86 | the report names no other analyzer |
| Headers.Analyze | src/wimsalabim/analyzers/headers.py:77-148 | findings, metadata and grade as functions of the headers of the response |
| Headers.FindingIff | src/wimsalabim/analyzers/headers.py:81-105 | the finding of a listed header is reported if and only if the header is absent |
| Headers.LeakIff | src/wimsalabim/analyzers/headers.py:107-133 | the finding of a leaky header is reported if and only if the header is present |
| Headers.NothingSent | src/wimsalabim/analyzers/headers.py:25-32 | a response without headers: six findings in order with their severities and weaknesses, graded D |
| Headers.NothingSentMisses | src/wimsalabim/analyzers/headers.py:144 | its `missing` metadata lists the six names in order |
| Headers.FindingsSay | src/wimsalabim/analyzers/headers.py:87-133 | id, title, severity, weakness and remediation of the findings |
| Headers.LowerLetters | src/wimsalabim/risk/rules.py:56 | lowering turns every capital into its small letter and keeps the rest |
| Headers.GradeIs | src/wimsalabim/analyzers/headers.py:155-163 | the grade in terms of the response: A if and only if no security header is absent and no leaky one present, D if and only if both transport security and content policy are absent, C if and only if one of them is and something leaks |
| Headers.CommaJoinContains | src/wimsalabim/risk/rules.py:49-56 | a comma-free text is in a comma-joined list if and only if it is in one of its parts |
| Headers.NamesDoNotOverlap | src/wimsalabim/analyzers/headers.py:25-32 | no listed header name contains another one that a rule looks for |
| Risk.Assess | src/wimsalabim/risk/heuristic.py:53-84 | hits are the firing rules in order, the score their capped float sum, the grade and the severity counts those of the hits; it raises exactly when a firing rule has negative points |
| Risk.HitsAreScoring | src/wimsalabim/risk/heuristic.py:57-69 | the hits are those of the rules that fire, one by one in order, with their ids, severities and points |
| Risk.DefaultHitsAre | src/wimsalabim/risk/rules.py:73-139 | which default hits there are, when, how severe and for how many points |
| Risk.TlsBelowBIff | src/wimsalabim/risk/rules.py:41-46 | the TLS rule fires if and only if the TLS report is graded C, D or F |
| Risk.ReportOfIff | src/wimsalabim/risk/rules.py:33-37 | a rule reads a report if and only if its analyzer went well and returned it |
| Risk.GradeExists | src/wimsalabim/risk/heuristic.py:37-42 | every score has a grade; F exactly from 70; a critical hit gives D or F |
| Floats.RoundedIsNearest | src/wimsalabim/risk/heuristic.py:69 | no binary64 number is nearer to a sum than the rounded one |
| Floats.PlusIsMonotone | src/wimsalabim/risk/heuristic.py:69 | larger summands never make a smaller float sum, and adding never makes less |
| RuleOrder.HitsIgnoreOrder | src/wimsalabim/risk/heuristic.py:57-74 | the hits and severity counts are the same for any order of any rules |
| RuleOrder.RuleOrderIsIrrelevant | src/wimsalabim/risk/heuristic.py:53-84 | score and grade are too when all points are multiples of one power of two that sum to less than 2^53 + 2 of it or of which 100 is at most 2^53; the score is then the capped exact sum, rounded once |
| RuleOrder.WholePointsAreExact | src/wimsalabim/risk/heuristic.py:53-84 | rules with whole points are such rules, whatever they sum to |
| RuleOrder.DefaultPointsAreExact | src/wimsalabim/risk/rules.py:73-139 | the default rules are such rules |
| RuleOrder.ScoreIsSafeIff | src/wimsalabim/risk/heuristic.py:57-71 | for hits in a unit with sums up to a limit, no reordering changes the score if and only if the limit is short of 2^53 + 2 units or 100 is at most 2^53 of them |
| RuleOrder.AnyIsSafeIff | src/wimsalabim/risk/heuristic.py:37-72 | for hits in a unit with any sums, no reordering changes the score, and none changes the grade, if and only if 100 is at most 2^53 units |
| RuleOrder.OrderNeverMattersIff | src/wimsalabim/risk/heuristic.py:37-72 | for hits with any points, no reordering of n of them changes the score, and none changes the grade, if and only if n is at most 2 |
| RuleOrder.OrderDecidesGrade | src/wimsalabim/risk/heuristic.py:37-71 | rules of 11.7, 2.2 and 1.1 points are graded A in that order and B with the last two exchanged |
| Risk.CountsAddUp | src/wimsalabim/risk/heuristic.py:74 | the severity counts sum to the number of hits |
| Risk.CriticalFloorIff | src/wimsalabim/risk/rules.py:83-92 | the critical floor applies if and only if the TLS report has `tls.cert.expiring_soon` |
| Risk.DefaultGradeIs | src/wimsalabim/risk/heuristic.py:53-72 | score and grade of the default engine as functions of the seven conditions on the reports |
| Risk.DOrWorseIff | docs/architecture.md:165-168 | the grade is D or worse if and only if the TLS report has `tls.cert.expiring_soon`, or its grade is below B, all three headers are missing and DNSSEC is absent |
| Risk.PoorTlsAloneIsB | docs/architecture.md:165-168 | a TLS report graded below B without that finding gives B when there is no headers report, whatever critical findings it has |
| Risk.NoWebReportsAreGradedA | src/wimsalabim/analyzers/tls.py:46-56 | with no report from the TLS and headers analyzers, as when the handshake fails, the grade is A, whatever DNS says |
| Risk.MoreHitsMoreScore | src/wimsalabim/risk/heuristic.py:57-72 | for any rules, when none stops firing neither the float sum nor any severity count falls |
| Risk.GradeIsMonotone | src/wimsalabim/risk/heuristic.py:37-42 | a higher score or a critical hit never gives a better grade |
| Risk.RiskIsMonotone | src/wimsalabim/risk/rules.py:73-139 | with no finding gone, no missing header back and a TLS grade no better, the default engine's score is no lower and its grade no better |
| Risk.DefaultScoreIs | src/wimsalabim/risk/rules.py:73-139 | the default rules never reach the cap of 100, and reach the 70 points of an F if and only if the stated combinations of them fire |
| Risk.MissingHeaderIff | src/wimsalabim/risk/rules.py:49-56 | on a comma-joined list the header test holds if and only if some listed name contains the header's, whatever the case |
| Risk.HeaderRulesAreExact | src/wimsalabim/risk/rules.py:92-118 | for every response the three header rules fire if and only if their header is absent, and if and only if its finding was reported |
| Sarif.SortedNames | src/wimsalabim/display/sarif.py:28 | the strictly sorted analyzer names |
| Sarif.RenderSarif | src/wimsalabim/display/sarif.py:24-36 | results and rules as functions of all findings in sorted analyzer order |
| Sarif.RuleIdsAreFindingIds | src/wimsalabim/display/sarif.py:33-35 | rule ids are unique and are exactly the ids of the findings |
| Sarif.RulesComeFromFirst | src/wimsalabim/display/sarif.py:34-35 | the rules are exactly those of the first findings with their id |
| Sarif.RuleSays | src/wimsalabim/display/sarif.py:66-82 | id, title, description, level, weakness, remedy and reference of a rule, from its finding |
| Sarif.ResultsAreFindings | src/wimsalabim/display/sarif.py:85-114 | the results are exactly those of the findings reported, with id, analyzer, message, place, level and weakness |
| Sarif.ReferentialIntegrity | src/wimsalabim/display/sarif.py:24-36 | every result's `ruleId` names a rule and every rule has a result; one result for each finding |

## Left out

- Sockets, DNS, TLS, HTTP, Tor and certificate parsing: analyzer outcomes are given.
- Ed25519, base64, key files and SHA-256: functions; UTF-8 encoding of the canonical text is an injective last step that is not modelled.
- Datetimes, models and sets inside `canonicalize` (`_default`): its callers pass dumps and plain dicts, which hold none.
- JsonGrammar.LoadsIff: `json.loads` takes more than JSON texts, namely lone surrogates, `NaN` and the infinities.
- JsonLoads.LoadsIsWellFormed: the parser refuses what `json.loads` takes of lone surrogates, `NaN` and the infinities.
- SignedReport.AcceptedFilesAgree: floats are compared as lexemes, so two spellings of one float count as different fields.
- Orchestrator.RunsAgree: the exception itself is not part of the result.
- Lone surrogates: `json.loads` keeps half an escaped pair and `canonicalize` then fails to encode it; here the parser refuses it. Report strings hold none.
- `NaN` and the infinities, which `allow_nan=False` refuses; the value of a float lexeme, so a file that spells a float otherwise than Python does is not normalized.
- Recursion depth and the digit limit of `int`.
- SQLite itself: connections, commits and locking. A failed write stores nothing, a failed read is a failed attempt.
- Baseline.BaselineStore.Previous: a row whose payload was not written by `record` and does not load is not modelled; `ValidTable` holds of a new store and is kept by every method.
- Report fields that nothing in the model reads: the store keeps the whole dump, but `Read` takes target, start, config hash, grades and finding ids.
- Headers.Analyze: the `url`, `status` and `protocol` metadata and the sources of findings, which no rule reads.
- Risk.Assess: the summary text, the rationales, and that a hit with a malformed `cwe` is rejected too.
- Risk.MissingHeaderIff: lower-casing is ASCII, exact for the listed header names.
- Sarif.RenderSarif: the envelope with schema, version and properties, and the source and CVSS properties of a result.
- Waiting between rounds: time is not modelled, only whether a stop is seen at each check and whether the wait is cancelled.
- Rich and Markdown rendering, the command line, logging, signal handlers, OpenTimestamps, `_resolve_enabled`, the proofs of authorization and the DNS, TLS and port analyzers.
