/** With two or more targets `rounds_with_diff` does not count rounds: for every list of them, a run of
    two rounds in which the second has two meaningful diffs. */
module WatchExample {
  import opened Text
  import opened Instants
  import opened Snapshots
  import opened Baseline
  import opened History
  import opened Watch
  import opened WatchRuns
  import opened SampleReports

  const CONFIG := Digest('0')

  /** Four recordings, of the first two targets in turn. */
  function SampleTarget(targets: seq<string>, j: nat): string
    requires |targets| >= 2
  {
    if j == 0 || j == 2 then targets[0] else targets[1]
  }

  /** The first two are clean. The last two differ from the one before them of the same target. */
  function Found(targets: seq<string>, j: nat): bool
    requires |targets| >= 2
  {
    j == 2 || (j == 3 && targets[0] != targets[1])
  }

  function SampleClock(j: nat): Instant {
    Moment(2026, 1, 1, 0, 0, if j < 60 then j else 0, 0)
  }

  function SampleRecording(targets: seq<string>, j: nat): Recording
    requires |targets| >= 2
  {
    Recording(SampleReport(SampleTarget(targets, j), CONFIG, Found(targets, j)), SampleClock(j))
  }

  /** The recording that attempt k makes: the first two attempts of each round succeed. */
  function Which(len: nat, k: nat): Option<nat> {
    if k < 2 then Some(k) else if k == len then Some(2) else if k == len + 1 then Some(3) else None
  }

  function SampleAttempt(targets: seq<string>, k: nat): Attempt
    requires |targets| >= 2
  {
    match Which(|targets|, k)
    case None => ScanRaises
    case Some(j) => Completes(SampleRecording(targets, j).report, false)
  }

  function Example(targets: seq<string>): World
    requires |targets| >= 2
  {
    World(targets, (k: nat) => SampleAttempt(targets, k),
          (k: nat) => SampleClock(if Which(|targets|, k).Some? then Which(|targets|, k).value else 4),
          3 * |targets| + 4, None, Some(2))
  }

  /** How many recordings are made before attempt k. */
  function Done(len: nat, k: nat): nat {
    if k < 2 then k else if k <= len then 2 else if k == len + 1 then 3 else 4
  }

  function Recorded(targets: seq<string>, j: nat): seq<Recording>
    requires |targets| >= 2
  {
    if j == 0 then [] else Recorded(targets, j - 1) + [SampleRecording(targets, j - 1)]
  }

  lemma {:induction false} RecordedAt(targets: seq<string>, j: nat)
    requires |targets| >= 2
    ensures |Recorded(targets, j)| == j
    ensures forall i | 0 <= i < j :: Recorded(targets, j)[i] == SampleRecording(targets, i)
  {
    hide SampleRecording;
    if j > 0 { RecordedAt(targets, j - 1); }
  }

  lemma RecordedIncreases(targets: seq<string>, j: nat)
    requires |targets| >= 2 && j <= 4
    ensures Increasing(Recorded(targets, j))
  {
    hide View, SampleReport;
    RecordedAt(targets, j);
  }

  lemma RecordingView(targets: seq<string>, j: nat)
    requires |targets| >= 2
    ensures View(SampleRecording(targets, j).report) == SampleView(SampleTarget(targets, j), CONFIG, Found(targets, j))
    ensures TargetOf(SampleRecording(targets, j)) == SampleTarget(targets, j)
  {
    hide View, SampleReport;
    SampleReportView(SampleTarget(targets, j), CONFIG, Found(targets, j));
  }

  lemma LastOfNext(targets: seq<string>, j: nat, target: string)
    requires |targets| >= 2
    ensures Last(Recorded(targets, j + 1), target)
         == if SampleTarget(targets, j) == target then Some(SampleView(target, CONFIG, Found(targets, j)))
            else Last(Recorded(targets, j), target)
    ensures Last(Recorded(targets, 0), target) == None
  {
    RecordingView(targets, j);
    hide View, SampleRecording;
    LastAppend(Recorded(targets, j), SampleRecording(targets, j), target);
  }

  /** What recording j is compared with. */
  lemma LastRecorded(targets: seq<string>, j: nat)
    requires |targets| >= 2 && j < 4
    ensures Last(Recorded(targets, j), SampleTarget(targets, j))
         == if j == 0 || (j == 1 && targets[0] != targets[1]) then None
            else Some(SampleView(SampleTarget(targets, j), CONFIG, !Found(targets, j) && j == 3))
  {
    hide Last, Recorded, SampleView;
    var t := SampleTarget(targets, j);
    LastOfNext(targets, 0, t);
    LastOfNext(targets, 1, t);
    LastOfNext(targets, 2, t);
  }

  lemma DiffOfRecorded(targets: seq<string>, j: nat)
    requires |targets| >= 2 && j < 4
    ensures IsNews(PlainDiff(Recorded(targets, j), SampleRecording(targets, j).report)) <==> j >= 2
  {
    RecordingView(targets, j);
    LastRecorded(targets, j);
    hide View, PureDiff, SampleRecording, Last, IsMeaningful;
    SampleDiff(SampleTarget(targets, j), CONFIG, !Found(targets, j) && j == 3, Found(targets, j));
  }

  lemma NextAttempt(targets: seq<string>, k: nat)
    requires |targets| >= 2
    ensures
      var w := Example(targets);
      var p := PlainRun(w, [], k);
      PlainRun(w, [], k + 1)
        == match Which(|targets|, k)
           case None => p
           case Some(j) =>
             var r := SampleRecording(targets, j);
             Plain(p.history + [r],
                   p.callbacks + [Callback(TargetAt(w, k), View(r.report), PlainDiff(p.history, r.report))])
  {
    hide View, PlainDiff, SampleReport;
  }

  lemma {:induction false} SampleRun(targets: seq<string>, k: nat)
    requires |targets| >= 2
    ensures
      var p := PlainRun(Example(targets), [], k);
      && p.history == Recorded(targets, Done(|targets|, k))
      && NewsCount(p.callbacks) == if Done(|targets|, k) <= 2 then 0 else Done(|targets|, k) - 2
  {
    hide PlainRun, Recorded, NewsCount, PlainDiff, SampleRecording, View, IsNews;
    if k > 0 {
      SampleRun(targets, k - 1);
      NextAttempt(targets, k - 1);
      match Which(|targets|, k - 1)
      case None =>
      case Some(j) =>
        var p := PlainRun(Example(targets), [], k - 1);
        var r := SampleRecording(targets, j);
        NextRecorded(targets, j);
        DiffOfRecorded(targets, j);
        var diff := PlainDiff(p.history, r.report);
        NewsCountAppend(p.callbacks, [Callback(TargetAt(Example(targets), k - 1), View(r.report), diff)]);
    } else {
      NothingYet(targets);
    }
  }

  lemma NextRecorded(targets: seq<string>, j: nat)
    requires |targets| >= 2
    ensures Recorded(targets, j + 1) == Recorded(targets, j) + [SampleRecording(targets, j)]
  {}

  lemma NothingYet(targets: seq<string>)
    requires |targets| >= 2
    ensures PlainRun(Example(targets), [], 0) == Plain(Recorded(targets, 0), []) && NewsCount([]) == 0
  {}

  lemma EmptyTable()
    ensures ValidTable(map[]) && Represents(map[], [])
  {
    assert Keys([]) == [];
  }

  lemma DaemonRun(targets: seq<string>, sha256: string -> string, k: nat)
    requires |targets| >= 2
    ensures ValidTable(map[])
    ensures NewsCount(Run(Example(targets), map[], sha256, k).callbacks)
         == if Done(|targets|, k) <= 2 then 0 else Done(|targets|, k) - 2
  {
    EmptyTable();
    hide Run, PlainRun, Recorded, NewsCount, Represents, Increasing, ValidTable;
    SampleRun(targets, k);
    RecordedIncreases(targets, Done(|targets|, k));
    StoreRefinesHistory(Example(targets), map[], [], sha256, k);
  }

  /** Exactly the first two attempts of the second round bring news. */
  lemma NewsOfExample(targets: seq<string>, sha256: string -> string)
    requires |targets| >= 2 && ValidTable(map[])
    ensures NewsAttempts(Example(targets), map[], sha256, 2 * |targets|) == {|targets|, |targets| + 1}
  {
    hide Run, NewsCount, ValidTable;
    var len := |targets|;
    var w := Example(targets);
    forall k: nat ensures NewsAt(w, map[], sha256, k) <==> k == len || k == len + 1 {
      DaemonRun(targets, sha256, k);
      DaemonRun(targets, sha256, k + 1);
    }
  }

  lemma ExampleEnds(targets: seq<string>)
    requires |targets| >= 2
    ensures
      var w, n := Example(targets), 2 * |targets|;
      Accounted(w, 2, n) && Undisturbed(w, n) && Waited(w, 2)
  {
    var len := |targets|;
    TwoRounds(len);
    forall k: nat | k < 2 * len ensures RoundOf(len, k) <= 1 {
      FirstRounds(len, k);
    }
  }

  lemma FirstRounds(len: nat, k: nat)
    requires len > 0 && k < 2 * len
    ensures RoundOf(len, k) == if k < len then 0 else 1
  {
    if k >= len {
      assert RoundOf(len, k - len) == 0;
    }
  }

  lemma TwoRounds(len: nat)
    requires len > 0
    ensures PlaceOf(len, 2 * len) == 0 && RoundOf(len, 2 * len) == 2
  {
    assert PlaceOf(len, len) == PlaceOf(len, 0) == 0;
    assert RoundOf(len, len) == 1 + RoundOf(len, 0) == 1;
    assert 2 * len - len == len;
  }

  /** For any two or more targets, a run of two rounds on an empty table whose counter is 2 though only
      one round had a meaningful diff. */
  lemma CounterExceedsRounds(targets: seq<string>, sha256: string -> string)
    requires |targets| >= 2
    ensures ValidTable(map[])
    ensures
      var w, n := Example(targets), 2 * |targets|;
      && Accounted(w, 2, n) && Undisturbed(w, n) && Waited(w, 2)
      && NewsCount(Run(w, map[], sha256, n).callbacks) == 2
      && |NewsRounds(w, map[], sha256, n)| == 1
  {
    hide Run, NewsCount, NewsAttempts, ValidTable, Accounted, Undisturbed, Waited, Represents;
    var len := |targets|;
    var w := Example(targets);
    EmptyTable();
    ExampleEnds(targets);
    DaemonRun(targets, sha256, 2 * len);
    NewsOfExample(targets, sha256);
    FirstRounds(len, len);
    FirstRounds(len, len + 1);
    hide RoundOf;
    assert NewsRounds(w, map[], sha256, 2 * len) == {1};
  }

  /** `rounds_with_diff` of every run that ends over these targets is the number of its rounds with a
      meaningful diff. */
  ghost predicate CountsAsDocumented(targets: seq<string>)
    requires targets != []
  {
    forall w: World, rows: Table, sha256: string -> string, iterations: nat, n: nat
      | && w.targets == targets && ValidTable(rows)
        && Accounted(w, iterations, n) && Undisturbed(w, n) && Waited(w, iterations) ::
      NewsCount(Run(w, rows, sha256, n).callbacks) == |NewsRounds(w, rows, sha256, n)|
  }

  /** The documentation is right exactly about a single target. */
  lemma CountsAsDocumentedIff(targets: seq<string>)
    requires targets != []
    ensures CountsAsDocumented(targets) <==> |targets| == 1
  {
    hide Run, NewsCount, NewsRounds, Accounted, Undisturbed, Waited, ValidTable;
    if |targets| == 1 {
      forall w: World, rows: Table, sha256: string -> string, n: nat | w.targets == targets && ValidTable(rows)
        ensures NewsCount(Run(w, rows, sha256, n).callbacks) == |NewsRounds(w, rows, sha256, n)|
      {
        OneTargetCountsRounds(w, rows, sha256, n);
      }
    } else {
      var sha256 := (s: string) => s;
      CounterExceedsRounds(targets, sha256);
      var w := Example(targets);
      assert w.targets == targets;
    }
  }

  /* ---------- config_hash ---------- */

  /** Two scans of a target under different configurations: the second is compared with the first. */
  lemma OtherConfigIsCompared(target: string, sha256: string -> string)
    ensures
      var first := Recording(SampleReport(target, Digest('0'), false), SampleClock(0));
      var second := Recording(SampleReport(target, Digest('1'), false), SampleClock(1));
      var rows := Stored(map[], first.report, first.at, sha256);
      && ValidTable(Stored(rows, second.report, second.at, sha256))
      && PreviousIn(Stored(rows, second.report, second.at, sha256), target) == Some(View(first.report))
      && LastAlike([first], target, View(second.report).configHash) == None
  {
    var first := Recording(SampleReport(target, Digest('0'), false), SampleClock(0));
    var second := Recording(SampleReport(target, Digest('1'), false), SampleClock(1));
    EmptyTable();
    SampleReportView(target, Digest('0'), false);
    SampleReportView(target, Digest('1'), false);
    DigestsDiffer();
    hide View, SampleReport, Digest, Represents, ValidTable, Stored;
    assert [] + [first] == [first];
    RecordAppends(map[], [], first, sha256);
    DiffAfterRecord(Stored(map[], first.report, first.at, sha256), [first], second, sha256);
    LastAppend([], first, target);
  }

  lemma DigestsDiffer()
    ensures Digest('0') != Digest('1')
  {
    assert Digest('0')[0] != Digest('1')[0];
  }
}
