/** What whole runs of the watch daemon keep. The plain model remembers every recording and never
    queries; the daemon's table, text stamps and query refine it. */
module WatchRuns {
  import opened Text
  import opened Instants
  import opened Snapshots
  import opened Baseline
  import opened History
  import opened Watch

  /* ---------- the plain model ---------- */

  datatype Plain = Plain(history: seq<Recording>, callbacks: seq<Callback>)

  /** The diff against the target's last recording, None when there is none. */
  ghost function PlainDiff(h: seq<Recording>, report: Report): Option<Diff> {
    match Last(h, View(report).target)
    case None => None
    case Some(prev) => Some(PureDiff(prev, View(report)))
  }

  ghost function PlainStep(p: Plain, target: string, a: Attempt, now: Instant): Plain {
    match a
    case DiffRaises(report) => p.(history := p.history + [Recording(report, now)])
    case Completes(report, _) =>
      Plain(p.history + [Recording(report, now)],
            p.callbacks + [Callback(target, View(report), PlainDiff(p.history, report))])
    case _ => p
  }

  ghost function PlainRun(w: World, h: seq<Recording>, n: nat): Plain
    requires w.targets != []
  {
    if n == 0 then Plain(h, [])
    else PlainStep(PlainRun(w, h, n - 1), TargetAt(w, n - 1), w.attempt(n - 1), w.clock(n - 1))
  }

  /* ---------- the store refines it ---------- */

  lemma IncreasingPrefix(h: seq<Recording>, r: Recording)
    requires Increasing(h + [r])
    ensures Increasing(h)
  {
    assert forall i | 0 <= i < |h| :: (h + [r])[i] == h[i];
  }

  lemma StepRefines(rows: Table, p: Plain, target: string, a: Attempt, now: Instant, sha256: string -> string)
    requires Represents(rows, p.history) && ValidTable(rows) && Increasing(PlainStep(p, target, a, now).history)
    ensures
      var s, q := Step(State(rows, p.callbacks), target, a, now, sha256), PlainStep(p, target, a, now);
      Represents(s.rows, q.history) && s.callbacks == q.callbacks
  {
    hide Represents, Increasing, ValidTable, View, Last, Stored;
    match a
    case DiffRaises(report) => RecordAppends(rows, p.history, Recording(report, now), sha256);
    case Completes(report, _) =>
      RecordAppends(rows, p.history, Recording(report, now), sha256);
      DiffAfterRecord(rows, p.history, Recording(report, now), sha256);
    case _ =>
  }

  /** Main result: as long as the stamps of each target increase, every callback of every run gets
      exactly the diff against the target's last earlier recording, whatever fails in between and
      however the targets interleave. */
  lemma {:induction false} StoreRefinesHistory(w: World, rows: Table, h: seq<Recording>,
                                               sha256: string -> string, n: nat)
    requires w.targets != [] && Represents(rows, h) && Increasing(PlainRun(w, h, n).history)
    ensures ValidTable(rows)
    ensures
      var s, p := Run(w, rows, sha256, n), PlainRun(w, h, n);
      Represents(s.rows, p.history) && s.callbacks == p.callbacks
  {
    hide *;
    RepresentedIsValid(rows, h);
    RunRefines(w, rows, h, sha256, n);
  }

  lemma {:induction false} RunRefines(w: World, rows: Table, h: seq<Recording>, sha256: string -> string, n: nat)
    requires w.targets != [] && ValidTable(rows) && Represents(rows, h) && Increasing(PlainRun(w, h, n).history)
    ensures
      var s, p := Run(w, rows, sha256, n), PlainRun(w, h, n);
      Represents(s.rows, p.history) && s.callbacks == p.callbacks
  {
    hide *;
    if n == 0 {
      NoStep(w, rows, h, sha256);
    } else {
      var target, a, now := TargetAt(w, n - 1), w.attempt(n - 1), w.clock(n - 1);
      LastStep(w, rows, h, sha256, n);
      PlainGrows(PlainRun(w, h, n - 1), target, a, now);
      RunRefines(w, rows, h, sha256, n - 1);
      NextRefines(Run(w, rows, sha256, n - 1), PlainRun(w, h, n - 1), target, a, now, sha256);
    }
  }

  lemma NextRefines(s: State, p: Plain, target: string, a: Attempt, now: Instant, sha256: string -> string)
    requires ValidTable(s.rows) && Represents(s.rows, p.history) && s.callbacks == p.callbacks
    requires Increasing(PlainStep(p, target, a, now).history)
    ensures
      var s', p' := Step(s, target, a, now, sha256), PlainStep(p, target, a, now);
      Represents(s'.rows, p'.history) && s'.callbacks == p'.callbacks
  {
    hide *;
    StepRefines(s.rows, p, target, a, now, sha256);
    assert s == State(s.rows, p.callbacks);
  }

  lemma NoStep(w: World, rows: Table, h: seq<Recording>, sha256: string -> string)
    requires w.targets != [] && ValidTable(rows)
    ensures Run(w, rows, sha256, 0) == State(rows, []) && PlainRun(w, h, 0) == Plain(h, [])
  {}

  lemma LastStep(w: World, rows: Table, h: seq<Recording>, sha256: string -> string, n: nat)
    requires w.targets != [] && ValidTable(rows) && n > 0
    ensures Run(w, rows, sha256, n)
         == Step(Run(w, rows, sha256, n - 1), TargetAt(w, n - 1), w.attempt(n - 1), w.clock(n - 1), sha256)
    ensures PlainRun(w, h, n) == PlainStep(PlainRun(w, h, n - 1), TargetAt(w, n - 1), w.attempt(n - 1), w.clock(n - 1))
  {}

  lemma PlainGrows(p: Plain, target: string, a: Attempt, now: Instant)
    requires Increasing(PlainStep(p, target, a, now).history)
    ensures Increasing(p.history)
  {
    match a
    case DiffRaises(report) => IncreasingPrefix(p.history, Recording(report, now));
    case Completes(report, _) => IncreasingPrefix(p.history, Recording(report, now));
    case _ =>
  }

  /* ---------- runs in which only scans fail ---------- */

  /** Every attempt before n either completes with a report of its own target or fails in `scan`. */
  ghost predicate OnlyScansFail(w: World, n: nat)
    requires w.targets != []
  {
    forall k | 0 <= k < n ::
      w.attempt(k).ScanRaises? || (w.attempt(k).Completes? && View(w.attempt(k).report).target == TargetAt(w, k))
  }

  /** How many callbacks for a target carry a diff. */
  function DiffsFor(callbacks: seq<Callback>, target: string): nat {
    if callbacks == [] then 0
    else
      var c := callbacks[|callbacks| - 1];
      DiffsFor(callbacks[..|callbacks| - 1], target) + if c.target == target && c.diff.Some? then 1 else 0
  }

  /** How many recordings a target has. */
  function RecordingsOf(h: seq<Recording>, target: string): nat {
    if h == [] then 0
    else RecordingsOf(h[..|h| - 1], target) + if TargetOf(h[|h| - 1]) == target then 1 else 0
  }

  lemma {:induction false} LastMeansRecorded(h: seq<Recording>, target: string)
    ensures Last(h, target).Some? <==> RecordingsOf(h, target) > 0
  {
    if h != [] {
      var front, last := h[..|h| - 1], h[|h| - 1];
      assert h == front + [last];
      LastMeansRecorded(front, target);
      LastAppend(front, last, target);
    }
  }

  function AllButFirst(recorded: nat): nat {
    if recorded == 0 then 0 else recorded - 1
  }

  lemma ConservedStep(p: Plain, r: Recording, target: string)
    requires DiffsFor(p.callbacks, target) == AllButFirst(RecordingsOf(p.history, target))
    ensures
      var c := Callback(TargetOf(r), View(r.report), PlainDiff(p.history, r.report));
      DiffsFor(p.callbacks + [c], target) == AllButFirst(RecordingsOf(p.history + [r], target))
  {
    hide View, PureDiff, Last;
    var c := Callback(TargetOf(r), View(r.report), PlainDiff(p.history, r.report));
    LastMeansRecorded(p.history, target);
    assert (p.history + [r])[..|p.history|] == p.history;
    assert (p.callbacks + [c])[..|p.callbacks|] == p.callbacks;
  }

  lemma OnlyScansFailNext(w: World, n: nat)
    requires w.targets != [] && n > 0 && OnlyScansFail(w, n)
    ensures OnlyScansFail(w, n - 1)
    ensures
      var a := w.attempt(n - 1);
      a.ScanRaises? || (a.Completes? && View(a.report).target == TargetAt(w, n - 1))
  {
    hide View, TargetAt;
  }

  lemma PlainNext(w: World, h: seq<Recording>, n: nat)
    requires w.targets != [] && n > 0 && (w.attempt(n - 1).ScanRaises? || w.attempt(n - 1).Completes?)
    ensures
      var p, a := PlainRun(w, h, n - 1), w.attempt(n - 1);
      PlainRun(w, h, n)
        == if a.ScanRaises? then p
           else Plain(p.history + [Recording(a.report, w.clock(n - 1))],
                      p.callbacks + [Callback(TargetAt(w, n - 1), View(a.report), PlainDiff(p.history, a.report))])
  {
    hide View, TargetAt, PlainDiff;
  }

  /** Conservation: every recording of a target but the first is diffed exactly once. */
  lemma {:induction false} DiffsAreConserved(w: World, n: nat, target: string)
    requires w.targets != [] && OnlyScansFail(w, n)
    ensures
      var p := PlainRun(w, [], n);
      DiffsFor(p.callbacks, target) == AllButFirst(RecordingsOf(p.history, target))
  {
    hide View, PlainDiff, OnlyScansFail, TargetAt, DiffsFor, RecordingsOf, PlainRun;
    if n == 0 {
      NothingToConserve(w, target);
    } else {
      OnlyScansFailNext(w, n);
      DiffsAreConserved(w, n - 1, target);
      PlainNext(w, [], n);
      var a := w.attempt(n - 1);
      if a.Completes? {
        ConservedStep(PlainRun(w, [], n - 1), Recording(a.report, w.clock(n - 1)), target);
      }
    }
  }

  lemma NothingToConserve(w: World, target: string)
    requires w.targets != []
    ensures PlainRun(w, [], 0) == Plain([], []) && DiffsFor([], target) == 0 == RecordingsOf([], target)
  {}

  /** What a reader of the callbacks knows about a target: the findings of its first report, then
      whatever the diffs took out and put in. */
  ghost function Replay(baseline: set<string>, callbacks: seq<Callback>, target: string): set<string> {
    if callbacks == [] then baseline
    else
      var known := Replay(baseline, callbacks[..|callbacks| - 1], target);
      var c := callbacks[|callbacks| - 1];
      if c.target != target then known
      else if c.diff.None? then Findings(c.report)
      else Apply(known, c.diff.value)
  }

  ghost predicate AllColonFree(h: seq<Recording>) {
    forall i | 0 <= i < |h| :: ColonFreeNames(View(h[i].report))
  }

  ghost function FindingsOfLast(h: seq<Recording>, target: string): set<string> {
    match Last(h, target)
    case None => {}
    case Some(s) => Findings(s)
  }

  lemma ColonFreePrefix(h: seq<Recording>, r: Recording)
    requires AllColonFree(h + [r])
    ensures AllColonFree(h)
  {
    assert forall i | 0 <= i < |h| :: (h + [r])[i] == h[i];
  }

  lemma NothingToReplay(baseline: set<string>, target: string)
    ensures Replay(baseline, [], target) == baseline
  {}

  lemma LastIsColonFree(h: seq<Recording>, target: string)
    requires AllColonFree(h) && Last(h, target).Some?
    ensures ColonFreeNames(Last(h, target).value)
  {}

  /** One callback brings the reader from the target's last findings to its newest. */
  lemma ReplayStep(h: seq<Recording>, callbacks: seq<Callback>, baseline: set<string>, r: Recording, target: string)
    requires AllColonFree(h) && Replay(baseline, callbacks, target) == FindingsOfLast(h, target)
    ensures
      var c := Callback(TargetOf(r), View(r.report), PlainDiff(h, r.report));
      Replay(baseline, callbacks + [c], target) == FindingsOfLast(h + [r], target)
  {
    var c := Callback(TargetOf(r), View(r.report), PlainDiff(h, r.report));
    assert (callbacks + [c])[..|callbacks|] == callbacks;
    LastAppend(h, r, target);
    if TargetOf(r) == target && Last(h, target).Some? {
      LastIsColonFree(h, target);
      ColonFreeLosesNothing(Last(h, target).value, View(r.report));
      ApplyIff(Last(h, target).value, View(r.report));
    }
  }

  /** Diffs telescope: replaying the callbacks from the findings of a target's baseline snapshot gives
      exactly the findings of its newest. */
  lemma {:induction false} DiffsTelescope(w: World, h: seq<Recording>, n: nat, target: string)
    requires w.targets != [] && OnlyScansFail(w, n) && AllColonFree(PlainRun(w, h, n).history)
    ensures
      var p := PlainRun(w, h, n);
      Replay(FindingsOfLast(h, target), p.callbacks, target) == FindingsOfLast(p.history, target)
  {
    hide View, PlainDiff, AllColonFree, Replay, FindingsOfLast, OnlyScansFail, TargetAt, PlainRun;
    if n == 0 {
      NothingToReplay(FindingsOfLast(h, target), target);
      NothingPlain(w, h);
    } else {
      OnlyScansFailNext(w, n);
      PlainNext(w, h, n);
      var p, a := PlainRun(w, h, n - 1), w.attempt(n - 1);
      if a.Completes? {
        var r := Recording(a.report, w.clock(n - 1));
        ColonFreePrefix(p.history, r);
        DiffsTelescope(w, h, n - 1, target);
        ReplayStep(p.history, p.callbacks, FindingsOfLast(h, target), r, target);
      } else {
        DiffsTelescope(w, h, n - 1, target);
      }
    }
  }

  lemma NothingPlain(w: World, h: seq<Recording>)
    requires w.targets != []
    ensures PlainRun(w, h, 0) == Plain(h, [])
  {}

  /** The same two laws for the daemon over its table, by refinement. */
  lemma DaemonKeepsDiffLaws(w: World, rows: Table, h: seq<Recording>, sha256: string -> string, n: nat, target: string)
    requires w.targets != [] && Represents(rows, h) && Increasing(PlainRun(w, h, n).history) && OnlyScansFail(w, n)
    ensures ValidTable(rows)
    ensures
      var delivered, history := Run(w, rows, sha256, n).callbacks, PlainRun(w, h, n).history;
      && (h == [] ==> DiffsFor(delivered, target) == AllButFirst(RecordingsOf(history, target)))
      && (AllColonFree(history) ==>
            Replay(FindingsOfLast(h, target), delivered, target) == FindingsOfLast(history, target))
  {
    StoreRefinesHistory(w, rows, h, sha256, n);
    if h == [] { DiffsAreConserved(w, n, target); }
    if AllColonFree(PlainRun(w, h, n).history) { DiffsTelescope(w, h, n, target); }
  }

  /* ---------- rounds_with_diff ---------- */

  /** Attempt k delivers a meaningful diff. */
  ghost predicate NewsAt(w: World, rows: Table, sha256: string -> string, k: nat)
    requires w.targets != [] && ValidTable(rows)
  {
    NewsCount(Run(w, rows, sha256, k + 1).callbacks) > NewsCount(Run(w, rows, sha256, k).callbacks)
  }

  ghost function NewsAttempts(w: World, rows: Table, sha256: string -> string, n: nat): set<nat>
    requires w.targets != [] && ValidTable(rows)
  {
    set k: nat | k < n && NewsAt(w, rows, sha256, k)
  }

  /** The rounds that `rounds_with_diff` is said to count. */
  ghost function NewsRounds(w: World, rows: Table, sha256: string -> string, n: nat): set<nat>
    requires w.targets != [] && ValidTable(rows)
  {
    set k | k in NewsAttempts(w, rows, sha256, n) :: RoundOf(|w.targets|, k)
  }

  /** One attempt adds at most one to the count. */
  lemma AttemptAddsAtMostOne(w: World, rows: Table, sha256: string -> string, k: nat)
    requires w.targets != [] && ValidTable(rows)
    ensures
      var before, after := Run(w, rows, sha256, k).callbacks, Run(w, rows, sha256, k + 1).callbacks;
      NewsCount(before) <= NewsCount(after) <= NewsCount(before) + 1
  {
    var before, after := Run(w, rows, sha256, k).callbacks, Run(w, rows, sha256, k + 1).callbacks;
    assert after == before || after[..|before|] == before;
  }

  lemma NewsAttemptsNext(w: World, rows: Table, sha256: string -> string, n: nat)
    requires w.targets != [] && ValidTable(rows)
    ensures NewsAttempts(w, rows, sha256, n + 1)
         == NewsAttempts(w, rows, sha256, n) + if NewsAt(w, rows, sha256, n) then {n} else {}
    ensures n !in NewsAttempts(w, rows, sha256, n) && NewsAttempts(w, rows, sha256, 0) == {}
  {
    hide NewsAt;
  }

  /** The counter is the number of attempts that deliver a meaningful diff, so at most the number of
      attempts: it counts target scans, not rounds. */
  lemma {:induction false} CounterCountsScans(w: World, rows: Table, sha256: string -> string, n: nat)
    requires w.targets != [] && ValidTable(rows)
    ensures NewsCount(Run(w, rows, sha256, n).callbacks) == |NewsAttempts(w, rows, sha256, n)| <= n
  {
    hide Step, Run, NewsAttempts, ValidTable;
    NewsAttemptsNext(w, rows, sha256, if n > 0 then n - 1 else 0);
    if n > 0 {
      CounterCountsScans(w, rows, sha256, n - 1);
      AttemptAddsAtMostOne(w, rows, sha256, n - 1);
    } else {
      NothingRun(w, rows, sha256);
    }
  }

  lemma NothingRun(w: World, rows: Table, sha256: string -> string)
    requires w.targets != [] && ValidTable(rows)
    ensures Run(w, rows, sha256, 0).callbacks == []
  {}

  ghost function Rounds(len: nat, attempts: set<nat>): set<nat>
    requires len > 0
  {
    set k | k in attempts :: RoundOf(len, k)
  }

  /** No two of the attempts share a round. */
  ghost predicate OnePerRound(len: nat, attempts: set<nat>)
    requires len > 0
  {
    forall j, k | j in attempts && k in attempts && RoundOf(len, j) == RoundOf(len, k) :: j == k
  }

  lemma RoundsAdd(len: nat, attempts: set<nat>, k: nat)
    requires len > 0 && k !in attempts
    ensures Rounds(len, attempts + {k}) == Rounds(len, attempts) + {RoundOf(len, k)}
    ensures OnePerRound(len, attempts + {k})
       <==> OnePerRound(len, attempts) && RoundOf(len, k) !in Rounds(len, attempts)
  {
    hide RoundOf;
    if OnePerRound(len, attempts + {k}) {
      forall j | j in attempts ensures RoundOf(len, j) != RoundOf(len, k) {
        assert j in attempts + {k} && k in attempts + {k};
      }
    }
  }

  lemma {:induction false} RoundsOfAttempts(len: nat, attempts: set<nat>)
    requires len > 0
    ensures |Rounds(len, attempts)| <= |attempts|
    ensures |Rounds(len, attempts)| == |attempts| <==> OnePerRound(len, attempts)
    decreases attempts
  {
    if attempts == {} {
      assert Rounds(len, attempts) == {};
    } else {
      var k := Pick(attempts);
      var rest := attempts - {k};
      RoundsOfAttempts(len, rest);
      RoundsAdd(len, rest, k);
      assert attempts == rest + {k};
    }
  }

  /** `rounds_with_diff` is the number of rounds with a meaningful diff, as documented, exactly when no
      round delivers two; otherwise it is larger. */
  lemma CounterCountsRoundsIff(w: World, rows: Table, sha256: string -> string, n: nat)
    requires w.targets != [] && ValidTable(rows)
    ensures
      var counter := NewsCount(Run(w, rows, sha256, n).callbacks);
      var rounds := |NewsRounds(w, rows, sha256, n)|;
      && counter >= rounds
      && (counter == rounds <==> OnePerRound(|w.targets|, NewsAttempts(w, rows, sha256, n)))
  {
    CounterCountsScans(w, rows, sha256, n);
    RoundsOfAttempts(|w.targets|, NewsAttempts(w, rows, sha256, n));
    assert NewsRounds(w, rows, sha256, n) == Rounds(|w.targets|, NewsAttempts(w, rows, sha256, n));
  }

  lemma {:induction false} OneTargetOneAttempt(k: nat)
    ensures RoundOf(1, k) == k
  {
    if k >= 1 { OneTargetOneAttempt(k - 1); }
  }

  /** With one target every round is one attempt, so the documentation is right. */
  lemma OneTargetCountsRounds(w: World, rows: Table, sha256: string -> string, n: nat)
    requires |w.targets| == 1 && ValidTable(rows)
    ensures NewsCount(Run(w, rows, sha256, n).callbacks) == |NewsRounds(w, rows, sha256, n)|
  {
    hide Run, NewsCount, NewsRounds, NewsAttempts, ValidTable, RoundOf;
    CounterCountsRoundsIff(w, rows, sha256, n);
    forall k: nat ensures RoundOf(1, k) == k { OneTargetOneAttempt(k); }
  }
}
