/** Analyzers run as concurrent tasks: the gate first, then the analyzer, then its outcome wrapped.
    A run is any interleaving of the tasks' steps. */
module Orchestrator {
  import opened Text
  import opened HostScope
  import opened Reports

  datatype Registration = Registration(name: string, legalClass: LegalClass)

  /** How `analyze` under its timeout ends; `Crashes` is any exception that `_run_one` does not catch. */
  datatype Outcome = Returns(report: BaseReport) | TimesOut | NetworkFails | AnalyzerFails | Crashes

  /** The tasks `run` creates, and the outcome each would have if the gate lets it start. */
  datatype Config = Config(lower: Lower, gate: Gate, target: string, enabled: set<string>,
                           registrations: seq<Registration>, outcome: string -> Outcome)

  function Enabled(regs: seq<Registration>, enabled: set<string>): seq<Registration> {
    if regs == [] then []
    else (if regs[0].name in enabled then [regs[0]] else []) + Enabled(regs[1..], enabled)
  }

  function Tasks(c: Config): seq<Registration> {
    Enabled(c.registrations, c.enabled)
  }

  datatype Task = Pending | Running | Done(result: AnalyzerResult) | Crashed

  type State = seq<Task>

  function Start(c: Config): State {
    seq(|Tasks(c)|, _ => Pending)
  }

  function GateFor(c: Config, reg: Registration): Option<Denial> {
    Check(c.lower, c.gate, c.target, reg.legalClass)
  }

  function DeniedResult(reg: Registration, denial: Denial): AnalyzerResult {
    AnalyzerResult(reg.name, reg.legalClass, Denied, None, Some(denial), None)
  }

  function Failed(reg: Registration, kind: ErrorKind): AnalyzerResult {
    AnalyzerResult(reg.name, reg.legalClass, Error, None, None, Some(kind))
  }

  /** What the except clauses and the return of `_run_one` make of an outcome. */
  function Wrap(reg: Registration, outcome: Outcome): Task {
    match outcome
    case Returns(report) => Done(AnalyzerResult(reg.name, reg.legalClass, Ok, Some(report), None, None))
    case TimesOut => Done(Failed(reg, Timeout))
    case NetworkFails => Done(Failed(reg, Network))
    case AnalyzerFails => Done(Failed(reg, Analyzer))
    case Crashes => Crashed
  }

  /** The next step of a task: through the gate, then to its outcome. */
  function Advance(c: Config, reg: Registration, t: Task): Task {
    match t
    case Pending => (match GateFor(c, reg) case Some(denial) => Done(DeniedResult(reg, denial)) case None => Running)
    case Running => Wrap(reg, c.outcome(reg.name))
    case _ => t
  }

  /** `gather` hands the first exception to `run`, which is then over. */
  predicate Aborted(s: State) { Crashed in s }

  /** The run is over. */
  predicate Finished(s: State) {
    Aborted(s) || forall t | t in s :: t.Done?
  }

  /** Task i can make a step; `gather` does not stop the other tasks when one crashes. */
  predicate CanStep(s: State, i: nat) {
    i < |s| && (s[i].Pending? || s[i].Running?)
  }

  function Step(c: Config, s: State, i: nat): State
    requires |s| == |Tasks(c)| && CanStep(s, i)
  {
    s[i := Advance(c, Tasks(c)[i], s[i])]
  }

  /** The states a schedule of task steps leads through, each step one that can be made. */
  ghost predicate Schedule(c: Config, schedule: seq<nat>, s: State)
    decreases |schedule|
  {
    if schedule == [] then s == Start(c)
    else
      var i := schedule[|schedule| - 1];
      exists before: State :: Schedule(c, schedule[..|schedule| - 1], before)
        && |before| == |Tasks(c)| && CanStep(before, i) && s == Step(c, before, i)
  }

  /* ---------- what every interleaving keeps ---------- */

  /** How a task ends, whatever the others do. */
  function Final(c: Config, reg: Registration): Task {
    match GateFor(c, reg)
    case Some(denial) => Done(DeniedResult(reg, denial))
    case None => Wrap(reg, c.outcome(reg.name))
  }

  /** A task is pending, or running with the gate's leave, or at its end. */
  ghost predicate Consistent(c: Config, s: State) {
    && |s| == |Tasks(c)|
    && forall i | 0 <= i < |s| ::
         || s[i].Pending?
         || (s[i].Running? && GateFor(c, Tasks(c)[i]).None?)
         || s[i] == Final(c, Tasks(c)[i])
  }

  lemma {:induction false} RunsAreConsistent(c: Config, schedule: seq<nat>, s: State)
    requires Schedule(c, schedule, s)
    ensures Consistent(c, s)
    decreases |schedule|
  {
    if schedule != [] {
      var i := schedule[|schedule| - 1];
      var before: State :| Schedule(c, schedule[..|schedule| - 1], before)
        && |before| == |Tasks(c)| && CanStep(before, i) && s == Step(c, before, i);
      RunsAreConsistent(c, schedule[..|schedule| - 1], before);
    }
  }

  predicate Started(t: Task) {
    t.Running? || t.Crashed? || (t.Done? && t.result.status != Denied)
  }

  /** Gate safety over runs: whatever has started in any reachable state is passive, or runs under an
      authorization whose host covers the target, by force if it is intrusive. */
  lemma StartedMayRun(c: Config, schedule: seq<nat>, s: State, i: nat)
    requires Schedule(c, schedule, s) && i < |s| && Started(s[i])
    ensures |s| == |Tasks(c)| && MayRun(c.lower, c.gate, c.target, Tasks(c)[i].legalClass)
  {
    RunsAreConsistent(c, schedule, s);
    CheckAdmitsIff(c.lower, c.gate, c.target, Tasks(c)[i].legalClass);
  }

  /* ---------- every interleaving ends ---------- */

  function WorkOf(t: Task): nat {
    match t case Pending => 2 case Running => 1 case _ => 0
  }

  function Work(s: State): nat {
    if s == [] then 0 else WorkOf(s[0]) + Work(s[1..])
  }

  lemma {:induction false} WorkUpdate(s: State, i: nat, t: Task)
    requires i < |s|
    ensures Work(s[i := t]) + WorkOf(s[i]) == Work(s) + WorkOf(t)
  {
    if i == 0 {
      assert s[0 := t][1..] == s[1..];
    } else {
      WorkUpdate(s[1..], i - 1, t);
      assert s[i := t][1..] == s[1..][i - 1 := t];
    }
  }

  lemma {:induction false} WorkAtStart(n: nat)
    ensures Work(seq(n, _ => Pending)) == 2 * n
  {
    if n > 0 {
      WorkAtStart(n - 1);
      assert seq(n, _ => Pending)[1..] == seq(n - 1, _ => Pending);
    }
  }

  /** No schedule is longer than two steps a task, and while the run is not over some task can step; so
      every schedule that goes on ends the run. */
  lemma {:induction false} RunsEnd(c: Config, schedule: seq<nat>, s: State)
    requires Schedule(c, schedule, s)
    ensures |schedule| + Work(s) <= 2 * |Tasks(c)|
    ensures !Finished(s) ==> exists i: nat :: CanStep(s, i)
    decreases |schedule|
  {
    if schedule == [] {
      WorkAtStart(|Tasks(c)|);
    } else {
      var i := schedule[|schedule| - 1];
      var before: State :| Schedule(c, schedule[..|schedule| - 1], before)
        && |before| == |Tasks(c)| && CanStep(before, i) && s == Step(c, before, i);
      RunsEnd(c, schedule[..|schedule| - 1], before);
      WorkUpdate(before, i, Advance(c, Tasks(c)[i], before[i]));
    }
    SomeTaskCanStep(s);
  }

  lemma SomeTaskCanStep(s: State)
    ensures !Finished(s) ==> exists i: nat :: CanStep(s, i)
  {
    if !Finished(s) {
      var t :| t in s && !t.Done?;
      var i :| 0 <= i < |s| && s[i] == t;
      assert CanStep(s, i);
    }
  }

  /* ---------- every interleaving ends alike ---------- */

  datatype RunResult = RunRaises | RunReport(analyzers: Results)

  /** `{r.name: r.result for r in records}` over the records in task order. */
  function Collect(s: State): Results
    requires forall t | t in s :: t.Done?
  {
    if s == [] then map[]
    else
      var last := s[|s| - 1];
      Collect(s[..|s| - 1])[last.result.name := last.result]
  }

  function ResultOf(s: State): RunResult
    requires Finished(s)
  {
    if Aborted(s) then RunRaises else RunReport(Collect(s))
  }

  /** Every task at its end. */
  function FinalState(c: Config): State {
    seq(|Tasks(c)|, i requires 0 <= i < |Tasks(c)| => Final(c, Tasks(c)[i]))
  }

  lemma FinalIsFinished(c: Config)
    ensures Finished(FinalState(c))
  {
    forall t | t in FinalState(c) && !Aborted(FinalState(c)) ensures t.Done? {}
  }

  /** Main result: the result of a run does not depend on the interleaving. It raises exactly when a
      task that passes the gate crashes, and otherwise holds each task's own result. */
  lemma RunsAgree(c: Config, schedule: seq<nat>, s: State)
    requires Schedule(c, schedule, s) && Finished(s)
    ensures Finished(FinalState(c)) && ResultOf(s) == ResultOf(FinalState(c))
    ensures ResultOf(s).RunRaises?
       <==> exists reg :: reg in Tasks(c) && GateFor(c, reg).None? && c.outcome(reg.name).Crashes?
  {
    RunsAreConsistent(c, schedule, s);
    FinalIsFinished(c);
    var f := FinalState(c);
    if Aborted(s) {
      var i :| 0 <= i < |s| && s[i] == Crashed;
      assert f[i] == Crashed && Tasks(c)[i] in Tasks(c);
    } else {
      forall i | 0 <= i < |s| ensures s[i] == f[i] { assert s[i] in s; }
      assert s == f;
    }
    if reg :| reg in Tasks(c) && GateFor(c, reg).None? && c.outcome(reg.name).Crashes? {
      var i :| 0 <= i < |Tasks(c)| && Tasks(c)[i] == reg;
      assert f[i] == Crashed;
    }
  }

  /** The first k tasks have made their first step, in the order in which `run` creates them. */
  function FirstSteps(c: Config, k: nat): State
    requires k <= |Tasks(c)|
  {
    seq(|Tasks(c)|, i requires 0 <= i < |Tasks(c)| => if i < k then Advance(c, Tasks(c)[i], Pending) else Pending)
  }

  function UpTo(k: nat): seq<nat> {
    if k == 0 then [] else UpTo(k - 1) + [k - 1]
  }

  lemma {:induction false} InOrder(c: Config, k: nat)
    requires k <= |Tasks(c)|
    ensures |UpTo(k)| == k && Schedule(c, UpTo(k), FirstSteps(c, k))
  {
    hide Advance, Tasks, Schedule;
    if k == 0 {
      assert FirstSteps(c, 0) == Start(c);
      NothingScheduled(c);
    } else {
      InOrder(c, k - 1);
      var before := FirstSteps(c, k - 1);
      assert FirstSteps(c, k) == Step(c, before, k - 1);
      ScheduleOneMore(c, UpTo(k - 1), before, k - 1);
    }
  }

  lemma NothingScheduled(c: Config)
    ensures Schedule(c, [], Start(c))
  {}

  lemma ScheduleOneMore(c: Config, schedule: seq<nat>, before: State, i: nat)
    requires Schedule(c, schedule, before) && |before| == |Tasks(c)| && CanStep(before, i)
    ensures Schedule(c, schedule + [i], Step(c, before, i))
  {
    hide Tasks, Step, CanStep;
    assert (schedule + [i])[..|schedule|] == schedule;
  }

  /** When several tasks crash, any of them may be the one whose exception escapes: there is a run in
      which all tasks have started, in order, and it crashes first. */
  lemma AnyCrashMayEscape(c: Config, i: nat)
    requires i < |Tasks(c)| && GateFor(c, Tasks(c)[i]).None? && c.outcome(Tasks(c)[i].name).Crashes?
    ensures
      var n := |Tasks(c)|;
      var s := FirstSteps(c, n)[i := Crashed];
      && Schedule(c, UpTo(n) + [i], s) && Aborted(s)
      && forall j | 0 <= j < n && j != i :: s[j] != Crashed && !s[j].Pending?
  {
    hide GateFor, Tasks, Schedule;
    var n := |Tasks(c)|;
    var before := FirstSteps(c, n);
    var s := before[i := Crashed];
    InOrder(c, n);
    assert s == Step(c, before, i);
    ScheduleOneMore(c, UpTo(n), before, i);
    assert s[i] == Crashed;
  }

  predicate UniqueNames(regs: seq<Registration>) {
    forall i, j | 0 <= i < j < |regs| :: regs[i].name != regs[j].name
  }

  /** A result has a report exactly when it is ok, an error kind exactly when it is an error, a reason
      exactly when it was denied. */
  predicate WellShaped(r: AnalyzerResult) {
    && (r.status.Ok? <==> r.report.Some?)
    && (r.status.Error? <==> r.errorKind.Some?)
    && (r.status.Denied? <==> r.skipReason.Some?)
    && !r.status.Skipped?
  }

  lemma {:induction false} EnabledAreListed(regs: seq<Registration>, enabled: set<string>)
    ensures forall reg :: reg in Enabled(regs, enabled) <==> reg in regs && reg.name in enabled
    ensures UniqueNames(regs) ==> UniqueNames(Enabled(regs, enabled))
  {
    if regs != [] {
      EnabledAreListed(regs[1..], enabled);
      var rest := Enabled(regs[1..], enabled);
      assert regs == [regs[0]] + regs[1..];
      if UniqueNames(regs) {
        forall i | 0 <= i < |rest| ensures rest[i].name != regs[0].name {
          assert rest[i] in regs[1..];
        }
      }
    }
  }

  lemma {:induction false} CollectKeepsAll(s: State)
    requires forall t | t in s :: t.Done?
    requires forall i, j | 0 <= i < j < |s| :: s[i].result.name != s[j].result.name
    ensures forall i | 0 <= i < |s| :: s[i].result.name in Collect(s) && Collect(s)[s[i].result.name] == s[i].result
    ensures forall name | name in Collect(s) :: exists i :: 0 <= i < |s| && s[i].result.name == name
  {
    if s != [] {
      var front := s[..|s| - 1];
      CollectKeepsAll(front);
      forall name | name in Collect(s) ensures exists i :: 0 <= i < |s| && s[i].result.name == name {
        if name == s[|s| - 1].result.name {
        } else {
          var i :| 0 <= i < |front| && front[i].result.name == name;
          assert s[i].result.name == name;
        }
      }
    }
  }

  lemma TasksAreDone(c: Config, s: State)
    requires Consistent(c, s) && Finished(s) && !Aborted(s)
    ensures forall i | 0 <= i < |s| ::
              && s[i].Done? && s[i] == Final(c, Tasks(c)[i])
              && s[i].result.name == Tasks(c)[i].name && WellShaped(s[i].result)
  {
    forall i | 0 <= i < |s|
      ensures s[i].Done? && s[i] == Final(c, Tasks(c)[i])
      ensures s[i].result.name == Tasks(c)[i].name && WellShaped(s[i].result)
    {
      assert s[i] in s;
    }
  }

  /** What a result says of an analyzer: denied, with the gate's reason, or how it ended. */
  predicate Tells(c: Config, reg: Registration, r: AnalyzerResult) {
    && r.name == reg.name && r.legalClass == reg.legalClass
    && match Check(c.lower, c.gate, c.target, reg.legalClass)
       case Some(reason) =>
         r.status == Denied && r.skipReason == Some(reason) && r.report == None && r.errorKind == None
       case None =>
         match c.outcome(reg.name)
         case Returns(report) =>
           r.status == Ok && r.report == Some(report) && r.skipReason == None && r.errorKind == None
         case TimesOut =>
           r.status == Error && r.errorKind == Some(Timeout) && r.report == None && r.skipReason == None
         case NetworkFails =>
           r.status == Error && r.errorKind == Some(Network) && r.report == None && r.skipReason == None
         case AnalyzerFails =>
           r.status == Error && r.errorKind == Some(Analyzer) && r.report == None && r.skipReason == None
         case Crashes => false
  }

  lemma FinalTells(c: Config, reg: Registration, r: AnalyzerResult)
    requires Done(r) == Final(c, reg)
    ensures Tells(c, reg, r)
  {}

  /** The report holds one result for each enabled registered analyzer, under its name, and each says
      how that analyzer went. */
  lemma ReportIsComplete(c: Config, schedule: seq<nat>, s: State, reg: Registration)
    requires Schedule(c, schedule, s) && Finished(s) && !Aborted(s) && UniqueNames(c.registrations)
    requires reg in c.registrations && reg.name in c.enabled
    ensures
      var analyzers := ResultOf(s).analyzers;
      && reg.name in analyzers && Tells(c, reg, analyzers[reg.name])
      && Done(analyzers[reg.name]) == Final(c, reg) && WellShaped(analyzers[reg.name])
  {
    hide Schedule, Consistent, Final, WellShaped, Collect, Enabled, Tells;
    RunsAreConsistent(c, schedule, s);
    assert |s| == |Tasks(c)| by { LengthOf(c, s); }
    EnabledAreListed(c.registrations, c.enabled);
    TasksAreDone(c, s);
    CollectKeepsAll(s);
    var i :| 0 <= i < |Tasks(c)| && Tasks(c)[i] == reg;
    assert s[i].result.name == reg.name;
    FinalTells(c, reg, s[i].result);
  }

  lemma LengthOf(c: Config, s: State)
    requires Consistent(c, s)
    ensures |s| == |Tasks(c)|
  {}

  /** And it holds nothing else. */
  lemma ReportIsExact(c: Config, schedule: seq<nat>, s: State, name: string)
    requires Schedule(c, schedule, s) && Finished(s) && !Aborted(s) && UniqueNames(c.registrations)
    requires name in ResultOf(s).analyzers
    ensures name in c.enabled && exists reg :: reg in c.registrations && reg.name == name
  {
    hide Schedule, Consistent, Final, WellShaped, Collect, Enabled;
    RunsAreConsistent(c, schedule, s);
    assert |s| == |Tasks(c)| by { LengthOf(c, s); }
    EnabledAreListed(c.registrations, c.enabled);
    TasksAreDone(c, s);
    CollectKeepsAll(s);
    var i :| 0 <= i < |s| && s[i].result.name == name;
    assert Tasks(c)[i] in Tasks(c);
  }
}
