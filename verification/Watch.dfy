/** The watch daemon: scan every target in turn, record, diff, call back, until told to stop. */
module Watch {
  import opened Text
  import opened Instants
  import opened Snapshots
  import opened Baseline

  /** What the world does to one call of `watch_once` and to the callback after it. */
  datatype Attempt =
    | ScanRaises
    | ScanCancelled
    | RecordRaises
    | DiffRaises(report: Report)
    | Completes(report: Report, callbackRaises: bool)

  /** The arguments of `watch_loop` and all it cannot decide: how attempt number k goes, the clock
      when it records, the first check of the stop event that finds it set, and after how many rounds
      the wait is cancelled, if it ever is. */
  datatype World = World(targets: seq<string>, attempt: nat -> Attempt, clock: nat -> Instant,
                         stopCheck: nat, cancelledWait: Option<nat>, maxIterations: Option<int>)

  datatype Callback = Callback(target: string, report: Snapshot, diff: Option<Diff>)

  predicate IsNews(diff: Option<Diff>) {
    diff.Some? && IsMeaningful(diff.value)
  }

  /** CancelledError and whatever `on_iteration` raises leave the loop. */
  predicate Interrupts(a: Attempt) {
    a.ScanCancelled? || (a.Completes? && a.callbackRaises)
  }

  /* ---------- one attempt and a run of attempts ---------- */

  /** The table after an attempt. */
  ghost function RowsAfter(rows: Table, a: Attempt, now: Instant, sha256: string -> string): (rows': Table)
    requires ValidTable(rows)
    ensures ValidTable(rows')
  {
    match a
    case DiffRaises(report) => StoredIsValid(rows, report, now, sha256); Stored(rows, report, now, sha256)
    case Completes(report, _) => StoredIsValid(rows, report, now, sha256); Stored(rows, report, now, sha256)
    case _ => rows
  }

  /** The callback an attempt makes, if any; it sees the table after the recording. */
  ghost function Delivered(rows': Table, target: string, a: Attempt): seq<Callback>
    requires ValidTable(rows')
  {
    match a
    case Completes(report, _) => [Callback(target, View(report), DiffIn(rows', View(report)))]
    case _ => []
  }

  function NewsCount(callbacks: seq<Callback>): nat {
    if callbacks == [] then 0
    else NewsCount(callbacks[..|callbacks| - 1]) + if IsNews(callbacks[|callbacks| - 1].diff) then 1 else 0
  }

  datatype State = State(rows: Table, callbacks: seq<Callback>)

  ghost function Step(s: State, target: string, a: Attempt, now: Instant, sha256: string -> string): (s': State)
    requires ValidTable(s.rows)
    ensures ValidTable(s'.rows)
  {
    var rows := RowsAfter(s.rows, a, now, sha256);
    State(rows, s.callbacks + Delivered(rows, target, a))
  }

  /** The round of attempt k, from 0. */
  function RoundOf(len: nat, k: nat): nat
    requires len > 0
  {
    if k < len then 0 else 1 + RoundOf(len, k - len)
  }

  /** The place of attempt k in its round. */
  function PlaceOf(len: nat, k: nat): (place: nat)
    requires len > 0
    ensures place < len
  {
    if k < len then k else PlaceOf(len, k - len)
  }

  lemma {:induction false} NextPlace(len: nat, k: nat)
    requires len > 0
    ensures PlaceOf(len, k + 1) == if PlaceOf(len, k) + 1 == len then 0 else PlaceOf(len, k) + 1
    ensures RoundOf(len, k + 1) == if PlaceOf(len, k) + 1 == len then RoundOf(len, k) + 1 else RoundOf(len, k)
  {
    if k >= len { NextPlace(len, k - len); }
  }

  /** Attempt k is on target k modulo the number of targets, in round k divided by it. */
  lemma {:induction false} RoundRobin(len: nat, k: nat)
    requires len > 0
    ensures k == RoundOf(len, k) * len + PlaceOf(len, k)
    ensures RoundOf(len, k) == k / len && PlaceOf(len, k) == k % len
  {
    if k >= len {
      RoundRobin(len, k - len);
      assert (RoundOf(len, k - len) + 1) * len == RoundOf(len, k - len) * len + len;
    }
    DivModUnique(len, RoundOf(len, k), PlaceOf(len, k), k);
  }

  lemma DivModUnique(len: nat, q: nat, r: nat, k: nat)
    requires r < len && k == q * len + r
    ensures q == k / len && r == k % len
  {
    assert k == (k / len) * len + k % len;
    assert (q - k / len) * len == k % len - r && (k / len - q) * len == r - k % len;
    if q > k / len { AtLeastOnce(len, q - k / len); }
    if k / len > q { AtLeastOnce(len, k / len - q); }
  }

  lemma AtLeastOnce(len: nat, d: int)
    requires d >= 1
    ensures d * len >= len
  {
    assert (d - 1) * len >= 0;
  }

  function TargetAt(w: World, k: nat): string
    requires w.targets != []
  {
    w.targets[PlaceOf(|w.targets|, k)]
  }

  /** Every attempt is on the next target, round after round. */
  lemma TargetOfAttempt(w: World, k: nat)
    requires w.targets != []
    ensures TargetAt(w, k) == w.targets[k % |w.targets|]
  {
    RoundRobin(|w.targets|, k);
  }

  /** The state after the first n attempts. */
  ghost function Run(w: World, rows: Table, sha256: string -> string, n: nat): (s: State)
    requires w.targets != [] && ValidTable(rows)
    ensures ValidTable(s.rows)
  {
    if n == 0 then State(rows, [])
    else Step(Run(w, rows, sha256, n - 1), TargetAt(w, n - 1), w.attempt(n - 1), w.clock(n - 1), sha256)
  }

  /* ---------- watch_once ---------- */

  datatype Once = OnceRaises | OnceCancelled | Returns(report: Snapshot, diff: Option<Diff>)

  /** How an attempt looks to the loop, given the table after it. */
  ghost function OnceOf(rows': Table, a: Attempt): Once
    requires ValidTable(rows')
  {
    match a
    case ScanCancelled => OnceCancelled
    case Completes(report, _) => Returns(View(report), DiffIn(rows', View(report)))
    case _ => OnceRaises
  }

  method WatchOnce(target: string, a: Attempt, now: Instant, store: BaselineStore) returns (once: Once)
    requires ValidTable(store.rows)
    modifies store
    ensures ValidTable(store.rows)
    ensures store.rows == RowsAfter(old(store.rows), a, now, store.sha256)
    ensures once == OnceOf(store.rows, a)
  {
    hide ValidTable, DiffIn, View, Stored;
    match a
    case ScanRaises => once := OnceRaises;
    case ScanCancelled => once := OnceCancelled;
    case RecordRaises => once := OnceRaises;
    case DiffRaises(report) =>
      var _ := store.Record(report, now);
      once := OnceRaises;
    case Completes(report, _) =>
      var _ := store.Record(report, now);
      var diff := store.DiffAgainstPrevious(View(report));
      once := Returns(View(report), diff);
  }

  /* ---------- watch_loop ---------- */

  datatype Outcome = Rejected | Raised | Finished(iterations: nat, roundsWithDiff: nat)

  /** How many checks of the stop event precede the one before attempt k: one for each earlier
      attempt and one for each round begun. */
  function CheckBefore(w: World, k: nat): nat
    requires w.targets != []
  {
    k + RoundOf(|w.targets|, k) + 1
  }

  /** The test after each round. */
  predicate MaxReached(w: World, iterations: nat) {
    w.maxIterations.Some? && iterations >= w.maxIterations.value
  }

  /** How many rounds a limit allows; one below one still allows one. */
  function Allowed(limit: int): nat {
    if limit < 1 then 1 else limit
  }

  /** How a run ends after n attempts: all its rounds are whole, except that a stop may cut the last
      one short. It ended because of a stop, or with exactly the rounds the limit allows; without a
      limit only a stop ends it. */
  ghost predicate Ended(w: World, iterations: nat, n: nat)
    requires w.targets != []
  {
    && iterations == RoundOf(|w.targets|, n)
    && (PlaceOf(|w.targets|, n) != 0 ==> w.stopCheck <= CheckBefore(w, n))
    && (w.stopCheck <= CheckBefore(w, n) || (w.maxIterations.Some? && iterations == Allowed(w.maxIterations.value)))
    && (w.maxIterations.Some? ==> iterations <= Allowed(w.maxIterations.value))
  }

  /** Besides, no attempt was made at or after the check that saw the stop. */
  ghost predicate Accounted(w: World, iterations: nat, n: nat)
    requires w.targets != []
  {
    Ended(w, iterations, n) && forall k | 0 <= k < n :: CheckBefore(w, k) < w.stopCheck
  }

  /** None of the waits after the first rounds was cancelled. */
  predicate WaitsPassed(w: World, rounds: int) {
    w.cancelledWait.Some? ==> !(1 <= w.cancelledWait.value <= rounds)
  }

  /** The loop was left by an exception after n attempts: the last one let it through, or the wait
      after the last round was cancelled. */
  ghost predicate Interrupted(w: World, n: nat)
    requires w.targets != []
  {
    || (n > 0 && Interrupts(w.attempt(n - 1)) && Undisturbed(w, n - 1))
    || (&& Undisturbed(w, n) && PlaceOf(|w.targets|, n) == 0
        && var rounds := RoundOf(|w.targets|, n);
           && rounds >= 1 && (w.maxIterations.Some? ==> rounds < w.maxIterations.value)
           && w.cancelledWait == Some(rounds) && WaitsPassed(w, rounds - 1))
  }

  /** The waits that a run which was not interrupted has behind it. */
  predicate Waited(w: World, iterations: nat) {
    var last := w.maxIterations.Some? && iterations == Allowed(w.maxIterations.value);
    WaitsPassed(w, if last then iterations - 1 else iterations)
  }

  /** Where the loop stands after n attempts that did not interrupt it. */
  ghost predicate Reached(w: World, rows: Table, sha256: string -> string, n: nat,
                          rows': Table, callbacks: seq<Callback>, roundsWithDiff: nat)
    requires w.targets != [] && ValidTable(rows)
  {
    && ValidTable(rows')
    && State(rows', callbacks) == Run(w, rows, sha256, n)
    && roundsWithDiff == NewsCount(callbacks)
    && forall k | 0 <= k < n :: CheckBefore(w, k) < w.stopCheck
  }

  ghost predicate Undisturbed(w: World, n: nat) {
    forall k | 0 <= k < n :: !Interrupts(w.attempt(k))
  }

  lemma NewsCountAppend(callbacks: seq<Callback>, more: seq<Callback>)
    requires |more| <= 1
    ensures NewsCount(callbacks + more) == NewsCount(callbacks) + if more != [] && IsNews(more[0].diff) then 1 else 0
  {
    if more == [] {
      assert callbacks + more == callbacks;
    } else {
      assert (callbacks + more)[..|callbacks|] == callbacks;
    }
  }

  /** One more attempt, as one more step of the run. */
  lemma RunNext(w: World, rows: Table, sha256: string -> string, n: nat, before: Table, callbacks: seq<Callback>)
    requires w.targets != [] && ValidTable(rows) && ValidTable(before)
    requires State(before, callbacks) == Run(w, rows, sha256, n)
    ensures
      var after := RowsAfter(before, w.attempt(n), w.clock(n), sha256);
      Run(w, rows, sha256, n + 1) == State(after, callbacks + Delivered(after, TargetAt(w, n), w.attempt(n)))
  {
    hide ValidTable, RowsAfter, Delivered, TargetAt;
  }

  /** The body of the inner loop after its stop check. */
  method WatchTarget(w: World, ghost rows: Table, target: string, n: nat, callbacks: seq<Callback>,
                     roundsWithDiff: nat, store: BaselineStore)
    returns (callbacks': seq<Callback>, roundsWithDiff': nat, raised: bool)
    requires w.targets != [] && ValidTable(rows)
    requires Reached(w, rows, store.sha256, n, store.rows, callbacks, roundsWithDiff) && Undisturbed(w, n)
    requires CheckBefore(w, n) < w.stopCheck && target == TargetAt(w, n)
    modifies store
    ensures Reached(w, rows, store.sha256, n + 1, store.rows, callbacks', roundsWithDiff')
    ensures raised <==> Interrupts(w.attempt(n))
    ensures !raised ==> Undisturbed(w, n + 1)
  {
    hide Reached, RowsAfter, OnceOf, CheckBefore, ValidTable, IsNews, TargetAt, Undisturbed;
    ReachedIsValid(w, rows, store.sha256, n, store.rows, callbacks, roundsWithDiff);
    var a := w.attempt(n);
    ghost var before := store.rows;
    callbacks', roundsWithDiff', raised := callbacks, roundsWithDiff, false;
    var once := WatchOnce(target, a, w.clock(n), store);
    OnceIs(store.rows, a);
    match once {
      case OnceCancelled =>
        raised := true;
      case OnceRaises =>
      case Returns(report, diff) =>
        if IsNews(diff) {
          roundsWithDiff' := roundsWithDiff + 1;
        }
        callbacks' := callbacks + [Callback(target, report, diff)];
        raised := a.callbackRaises;
    }
    OnceReached(w, rows, store.sha256, n, before, callbacks, roundsWithDiff,
                store.rows, once, callbacks', roundsWithDiff');
    UndisturbedNext(w, n);
  }

  lemma OnceIs(rows': Table, a: Attempt)
    requires ValidTable(rows')
    ensures OnceOf(rows', a).OnceCancelled? <==> a.ScanCancelled?
    ensures OnceOf(rows', a).Returns? <==> a.Completes?
  {}

  lemma UndisturbedNext(w: World, n: nat)
    ensures Undisturbed(w, n + 1) <==> Undisturbed(w, n) && !Interrupts(w.attempt(n))
  {}

  lemma ReachedIsValid(w: World, rows: Table, sha256: string -> string, n: nat,
                       rows': Table, callbacks: seq<Callback>, roundsWithDiff: nat)
    requires w.targets != [] && ValidTable(rows) && Reached(w, rows, sha256, n, rows', callbacks, roundsWithDiff)
    ensures ValidTable(rows')
  {}

  /** What the loop makes of one result of `watch_once` is one more step of the run. */
  lemma OnceReached(w: World, rows: Table, sha256: string -> string, n: nat,
                    before: Table, callbacks: seq<Callback>, roundsWithDiff: nat,
                    after: Table, once: Once, callbacks': seq<Callback>, roundsWithDiff': nat)
    requires w.targets != [] && ValidTable(rows) && ValidTable(before)
    requires Reached(w, rows, sha256, n, before, callbacks, roundsWithDiff) && CheckBefore(w, n) < w.stopCheck
    requires after == RowsAfter(before, w.attempt(n), w.clock(n), sha256) && once == OnceOf(after, w.attempt(n))
    requires callbacks'
          == if once.Returns? then callbacks + [Callback(TargetAt(w, n), once.report, once.diff)] else callbacks
    requires roundsWithDiff' == if once.Returns? && IsNews(once.diff) then roundsWithDiff + 1 else roundsWithDiff
    ensures Reached(w, rows, sha256, n + 1, after, callbacks', roundsWithDiff')
  {
    hide RowsAfter, CheckBefore, ValidTable, IsNews, TargetAt, View, DiffIn, Run, NewsCount;
    var delivered := Delivered(after, TargetAt(w, n), w.attempt(n));
    assert callbacks' == callbacks + delivered;
    assert delivered == if once.Returns? then [Callback(TargetAt(w, n), once.report, once.diff)] else [];
    hide Delivered, OnceOf;
    RunNext(w, rows, sha256, n, before, callbacks);
    NewsCountAppend(callbacks, delivered);
  }

  lemma StartReached(w: World, rows: Table, sha256: string -> string)
    requires w.targets != [] && ValidTable(rows)
    ensures Reached(w, rows, sha256, 0, rows, [], 0) && Undisturbed(w, 0)
  {}

  /** The inner loop: one scan per target, with a stop check before each. */
  method WatchRound(w: World, ghost rows: Table, round: nat, n: nat, callbacks: seq<Callback>, roundsWithDiff: nat,
                    store: BaselineStore)
    returns (callbacks': seq<Callback>, roundsWithDiff': nat, n': nat, stopped: bool, raised: bool)
    requires w.targets != [] && ValidTable(rows)
    requires RoundOf(|w.targets|, n) == round && PlaceOf(|w.targets|, n) == 0
    requires Reached(w, rows, store.sha256, n, store.rows, callbacks, roundsWithDiff) && Undisturbed(w, n)
    modifies store
    ensures Reached(w, rows, store.sha256, n', store.rows, callbacks', roundsWithDiff')
    ensures n' > 0 || !raised
    ensures Undisturbed(w, if raised then n' - 1 else n') && (raised ==> Interrupts(w.attempt(n' - 1)))
    ensures !raised ==> RoundOf(|w.targets|, n') == if stopped then round else round + 1
    ensures !raised ==> if stopped then w.stopCheck <= CheckBefore(w, n') else PlaceOf(|w.targets|, n') == 0
  {
    hide Reached, Undisturbed;
    var len := |w.targets|;
    callbacks', roundsWithDiff', n', stopped, raised := callbacks, roundsWithDiff, n, false, false;
    for j := 0 to len
      invariant !stopped && !raised && Undisturbed(w, n')
      invariant RoundOf(len, n') == if j < len then round else round + 1
      invariant PlaceOf(len, n') == if j < len then j else 0
      invariant Reached(w, rows, store.sha256, n', store.rows, callbacks', roundsWithDiff')
    {
      NextPlace(len, n');
      stopped := w.stopCheck <= CheckBefore(w, n');
      if stopped {
        break;
      }
      callbacks', roundsWithDiff', raised := WatchTarget(w, rows, w.targets[j], n', callbacks', roundsWithDiff', store);
      n' := n' + 1;
      if raised {
        break;
      }
    }
  }

  /** The outer loop: rounds until a stop is seen, enough were made, or something is raised. */
  method WatchRounds(w: World, store: BaselineStore)
    returns (iterations: nat, roundsWithDiff: nat, callbacks: seq<Callback>, attempts: nat, raised: bool)
    requires w.targets != [] && ValidTable(store.rows)
    modifies store
    ensures Reached(w, old(store.rows), store.sha256, attempts, store.rows, callbacks, roundsWithDiff)
    ensures raised ==> Interrupted(w, attempts)
    ensures !raised ==> Ended(w, iterations, attempts) && Undisturbed(w, attempts) && Waited(w, iterations)
  {
    hide Reached, Undisturbed, ValidTable;
    ghost var rows := store.rows;
    iterations, roundsWithDiff, callbacks, attempts, raised := 0, 0, [], 0, false;
    var stopped := w.stopCheck <= 0;
    StartReached(w, rows, store.sha256);
    while !stopped
      invariant RoundOf(|w.targets|, attempts) == iterations && PlaceOf(|w.targets|, attempts) == 0 && !raised
      invariant stopped == (w.stopCheck <= attempts + iterations)
      invariant Reached(w, rows, store.sha256, attempts, store.rows, callbacks, roundsWithDiff)
      invariant Undisturbed(w, attempts)
      invariant iterations > 0 ==> !MaxReached(w, iterations)
      invariant WaitsPassed(w, iterations)
      decreases w.stopCheck - iterations
    {
      callbacks, roundsWithDiff, attempts, stopped, raised :=
        WatchRound(w, rows, iterations, attempts, callbacks, roundsWithDiff, store);
      if raised || stopped {
        break;
      }
      iterations := iterations + 1;
      if MaxReached(w, iterations) {
        break;
      }
      raised := w.cancelledWait == Some(iterations);
      if raised {
        break;
      }
      stopped := w.stopCheck <= attempts + iterations;
    }
  }

  /** Why a run ends: a stop, or a limit that is exactly used up. */
  lemma EndsBecause(w: World, iterations: nat, n: nat)
    requires w.targets != [] && Ended(w, iterations, n)
    ensures || w.stopCheck <= n + n / |w.targets| + 1
            || (w.maxIterations.Some? && iterations == if w.maxIterations.value < 1 then 1 else w.maxIterations.value)
  {
    RoundRobin(|w.targets|, n);
  }

  /** A run that ends by itself had no wait cancelled between its rounds. */
  lemma NoWaitCancelled(w: World, iterations: nat)
    requires Waited(w, iterations)
    ensures w.cancelledWait.Some? && 1 <= w.cancelledWait.value ==> iterations <= w.cancelledWait.value
  {}

  /** Check number k + k div n + 1, from 0, precedes attempt k: one for each earlier attempt, one for each
      round begun. */
  lemma BeforeTheStop(w: World, n: nat)
    requires w.targets != [] && forall k | 0 <= k < n :: CheckBefore(w, k) < w.stopCheck
    ensures forall k | 0 <= k < n :: k + k / |w.targets| + 1 < w.stopCheck
  {
    forall k: nat | k < n ensures k + k / |w.targets| + 1 < w.stopCheck {
      RoundRobin(|w.targets|, k);
      assert CheckBefore(w, k) < w.stopCheck;
    }
  }

  method WatchLoop(w: World, interval: real, store: BaselineStore)
    returns (outcome: Outcome, callbacks: seq<Callback>, attempts: nat)
    requires ValidTable(store.rows)
    modifies store
    ensures outcome.Rejected? <==> w.targets == [] || interval <= 0.0
    ensures outcome.Rejected? ==> store.rows == old(store.rows) && callbacks == [] && attempts == 0
    ensures !outcome.Rejected? ==> State(store.rows, callbacks) == Run(w, old(store.rows), store.sha256, attempts)
    ensures outcome.Finished? ==>
              && outcome.roundsWithDiff == NewsCount(callbacks)
              && Accounted(w, outcome.iterations, attempts) && Undisturbed(w, attempts) && Waited(w, outcome.iterations)
    ensures outcome.Finished? ==>
              || w.stopCheck <= attempts + attempts / |w.targets| + 1
              || (w.maxIterations.Some? &&
                  outcome.iterations == if w.maxIterations.value < 1 then 1 else w.maxIterations.value)
    ensures outcome.Raised? ==> Interrupted(w, attempts)
    ensures outcome.Finished? && w.cancelledWait.Some? && 1 <= w.cancelledWait.value ==>
              outcome.iterations <= w.cancelledWait.value
    ensures !outcome.Rejected? ==> forall k | 0 <= k < attempts :: k + k / |w.targets| + 1 < w.stopCheck
  {
    if w.targets == [] || interval <= 0.0 {
      return Rejected, [], 0;
    }
    hide Ended, Undisturbed, ValidTable, Run, Interrupted, Waited;
    ghost var rows := store.rows;
    var iterations, roundsWithDiff, raised;
    iterations, roundsWithDiff, callbacks, attempts, raised := WatchRounds(w, store);
    outcome := if raised then Raised else Finished(iterations, roundsWithDiff);
    if !raised {
      EndsBecause(w, iterations, attempts);
      NoWaitCancelled(w, iterations);
    }
    BeforeTheStop(w, attempts);
  }
}
