/** The parallel check of several partitions, as a state machine over every interleaving of the
    workers, the timeout and the goroutine that collects their results. */
module Parallel {
  import opened FiniteSets
  import opened Linearizability
  import opened Search
  import opened Checker

  datatype CheckResult = Unknown | Ok | Illegal

  /** What a check is started with: `timeout` is whether there is one. */
  datatype Config<!S, !I, !O> = Config(
    model: Model<S, I, O>, history: seq<History<I, O>>, computeInfo: bool, timeout: bool)

  ghost predicate ValidConfig<S(!new), I(!new), O(!new)>(c: Config<S, I, O>) {
    GoodModel(c.model) && forall i :: 0 <= i < |c.history| ==> WellFormed(c.history[i])
  }

  datatype Worker = Running | Finished(ok: bool, longest: Longest)

  /** A result in the channel; the number of its worker is for the proofs only. */
  datatype Result = Result(worker: int, ok: bool)

  /** The collector selects among results and the timeout, then waits for the rest of the workers if
      it has to, then returns. */
  datatype Phase = Selecting | Draining | Returned

  /** `heard` is the workers whose result the select loop has taken; it is for the proofs only. */
  datatype State = State(
    workers: seq<Worker>, results: seq<Result>, kill: bool, ok: bool,
    timedOut: bool, count: nat, phase: Phase, heard: set<int>)

  function Initial(n: nat): State {
    State(seq(n, _ => Running), [], false, true, false, 0, Selecting, {})
  }

  function Verdict(s: State): CheckResult {
    if !s.ok then Illegal else if s.timedOut then Unknown else Ok
  }

  // ---------- the steps ----------

  /** Worker `i` sends its result. What it may be is what a search may return; a worker that finishes
      before the kill flag is set has never seen it set. */
  ghost predicate WorkerStep<S(!new), I(!new), O(!new)>(c: Config<S, I, O>, s: State, t: State, i: int)
    requires ValidConfig(c)
  {
    && 0 <= i < |s.workers| == |c.history| && s.workers[i] == Running
    && i < |t.workers| && t.workers[i].Finished?
    && SingleSpec(c.model, c.history[i], c.computeInfo, s.kill, t.workers[i].ok, t.workers[i].longest)
    && t == s.(workers := s.workers[i := t.workers[i]], results := s.results + [Result(i, t.workers[i].ok)])
  }

  /** Leaving the select loop: with information to compute, the collector first waits for every worker. */
  function Leave(computeInfo: bool, s: State): State {
    s.(phase := if computeInfo && s.count < |s.workers| then Draining else Returned)
  }

  /** The select loop takes a result. */
  function Received(computeInfo: bool, s: State): State
    requires s.results != []
  {
    var result := s.results[0];
    var t := s.(results := s.results[1..], count := s.count + 1, ok := s.ok && result.ok,
      heard := s.heard + {result.worker});
    if !t.ok && !computeInfo then Leave(computeInfo, t.(kill := true))
    else if t.count >= |s.workers| then Leave(computeInfo, t)
    else t
  }

  /** The select loop takes the timeout. */
  function Expired(computeInfo: bool, s: State): State {
    Leave(computeInfo, s.(timedOut := true, kill := true))
  }

  /** A result is thrown away after the loop. */
  function Drained(s: State): State
    requires s.results != []
  {
    var t := s.(results := s.results[1..], count := s.count + 1);
    t.(phase := if t.count < |s.workers| then Draining else Returned)
  }

  ghost predicate CollectorStep<S, I, O>(c: Config<S, I, O>, s: State, t: State) {
    || (s.phase == Selecting && s.results != [] && t == Received(c.computeInfo, s))
    || (s.phase == Selecting && c.timeout && t == Expired(c.computeInfo, s))
    || (s.phase == Draining && s.results != [] && t == Drained(s))
  }

  ghost predicate Step<S(!new), I(!new), O(!new)>(c: Config<S, I, O>, s: State, t: State)
    requires ValidConfig(c)
  {
    CollectorStep(c, s, t) || exists i :: WorkerStep(c, s, t, i)
  }

  /** A run is any sequence of steps from the initial state. */
  ghost predicate IsRun<S(!new), I(!new), O(!new)>(c: Config<S, I, O>, run: seq<State>)
    requires ValidConfig(c)
  {
    && run != [] && run[0] == Initial(|c.history|)
    && forall k :: 0 <= k < |run| - 1 ==> Step(c, run[k], run[k + 1])
  }

  // ---------- what every step keeps ----------

  ghost predicate Genuine<S(!new), I(!new), O(!new)>(c: Config<S, I, O>, i: int, ok: bool)
    requires ValidConfig(c)
  {
    0 <= i < |c.history| && (ok <==> HistoryLinearizable(c.model, c.history[i]))
  }

  function FinishedCount(workers: seq<Worker>): nat {
    if workers == [] then 0
    else FinishedCount(workers[..|workers| - 1]) + (if workers[|workers| - 1].Finished? then 1 else 0)
  }

  /** While the loop selects, every result is genuine: the kill flag is not set yet. */
  ghost predicate ResultsGenuine<S(!new), I(!new), O(!new)>(c: Config<S, I, O>, s: State)
    requires ValidConfig(c)
  {
    forall k :: 0 <= k < |s.results| ==> Genuine(c, s.results[k].worker, s.results[k].ok)
  }

  /** No worker is heard twice or waiting twice. */
  ghost predicate ResultsDistinct(s: State) {
    && (forall j, k :: 0 <= j < k < |s.results| ==> s.results[j].worker != s.results[k].worker)
    && (forall k :: 0 <= k < |s.results| ==> s.results[k].worker !in s.heard)
    && (forall k :: 0 <= k < |s.results| ==>
         0 <= s.results[k].worker < |s.workers| && s.workers[s.results[k].worker].Finished?)
    && (forall i :: i in s.heard ==> 0 <= i < |s.workers| && s.workers[i].Finished?)
  }

  ghost predicate WorkersKeepSpec<S(!new), I(!new), O(!new)>(c: Config<S, I, O>, workers: seq<Worker>, killed: bool)
    requires ValidConfig(c)
  {
    && |workers| == |c.history|
    && forall i :: 0 <= i < |workers| && workers[i].Finished? ==> WorkerKeepsSpec(c, i, workers[i], killed)
  }

  ghost predicate WorkerKeepsSpec<S(!new), I(!new), O(!new)>(c: Config<S, I, O>, i: int, w: Worker, killed: bool)
    requires ValidConfig(c) && 0 <= i < |c.history| && w.Finished?
  {
    SingleSpec(c.model, c.history[i], c.computeInfo, killed, w.ok, w.longest)
  }

  ghost predicate AllLinearizable<S(!new), I(!new), O(!new)>(c: Config<S, I, O>)
    requires ValidConfig(c)
  {
    forall i :: 0 <= i < |c.history| ==> HistoryLinearizable(c.model, c.history[i])
  }

  ghost predicate Invariant<S(!new), I(!new), O(!new)>(c: Config<S, I, O>, s: State)
    requires ValidConfig(c)
  {
    && WorkersKeepSpec(c, s.workers, s.kill)
    && (s.kill <==> s.timedOut || (!s.ok && !c.computeInfo))
    && (s.phase == Selecting <==>
         !s.timedOut && (s.ok || c.computeInfo) && (|s.heard| < |c.history| || |c.history| == 0))
    && ResultsDistinct(s)
    && s.count + |s.results| == FinishedCount(s.workers)
    && (s.phase == Selecting ==> !s.kill && ResultsGenuine(c, s) && s.count == |s.heard|)
    && (s.phase == Draining ==> c.computeInfo && s.count < |c.history|)
    && (s.phase == Returned && c.computeInfo ==> s.count >= |c.history|)
    && (s.ok <==> forall i :: i in s.heard ==> HistoryLinearizable(c.model, c.history[i]))
    && (s.timedOut ==> c.timeout)
    && (s.phase != Selecting && !s.timedOut ==>
         |c.history| > 0 && (!s.ok || forall i :: 0 <= i < |c.history| ==> i in s.heard))
  }

  lemma InitialKeeps<S(!new), I(!new), O(!new)>(c: Config<S, I, O>)
    requires ValidConfig(c)
    ensures Invariant(c, Initial(|c.history|))
  {
    NoneFinished(|c.history|);
  }

  lemma {:induction false} NoneFinished(n: nat)
    ensures FinishedCount(seq(n, _ => Running)) == 0
  {
    if n > 0 {
      NoneFinished(n - 1);
      var w: seq<Worker> := seq(n, _ => Running);
      assert w[..|w| - 1] == seq(n - 1, _ => Running);
    }
  }

  lemma {:induction false} OneMoreFinished(workers: seq<Worker>, i: int, w: Worker)
    requires 0 <= i < |workers| && workers[i] == Running && w.Finished?
    ensures FinishedCount(workers[i := w]) == FinishedCount(workers) + 1
  {
    var n := |workers| - 1;
    var after := workers[i := w];
    if i == n {
      assert after[..n] == workers[..n];
    } else {
      OneMoreFinished(workers[..n], i, w);
      assert after[..n] == workers[..n][i := w];
    }
  }

  lemma {:induction false} FinishedAtMostAll(workers: seq<Worker>)
    ensures FinishedCount(workers) <= |workers|
    ensures (forall i :: 0 <= i < |workers| ==> workers[i].Finished?) ==> FinishedCount(workers) == |workers|
  {
    if workers != [] {
      FinishedAtMostAll(workers[..|workers| - 1]);
    }
  }

  lemma WorkerKeeps<S(!new), I(!new), O(!new)>(c: Config<S, I, O>, s: State, t: State, i: int)
    requires ValidConfig(c) && Invariant(c, s) && WorkerStep(c, s, t, i)
    ensures Invariant(c, t)
  {
    hide HistoryLinearizable, WellFormed, GoodModel, FinishedCount;
    OneMoreFinished(s.workers, i, t.workers[i]);
    assert WorkerKeepsSpec(c, i, t.workers[i], s.kill);
    forall k | 0 <= k < |t.results|
      ensures t.results[k].worker !in t.heard
      ensures 0 <= t.results[k].worker < |t.workers| && t.workers[t.results[k].worker].Finished?
      ensures !t.kill && s.phase == Selecting ==> Genuine(c, t.results[k].worker, t.results[k].ok)
    {
      if k < |s.results| {
        assert t.results[k] == s.results[k];
      } else {
        SpecIsGenuine(c, i, s.kill, t.workers[i]);
      }
    }
  }

  /** What a search returns that was not told to stop, it may also return when it was. */
  lemma SpecsWeaken<S(!new), I(!new), O(!new)>(c: Config<S, I, O>, workers: seq<Worker>, killed: bool)
    requires ValidConfig(c) && WorkersKeepSpec(c, workers, killed)
    ensures WorkersKeepSpec(c, workers, true)
  {
    hide WellFormed, GoodModel, HistoryLinearizable, LongestValid, LongestMaximal, IsComplete;
  }

  /** A search whose looks saw the kill flag only if it is set by now returns what a worker may send. */
  lemma LooksAllowWorkerStep<S(!new), I(!new), O(!new)>(
    m: Model<S, I, O>, h: History<I, O>, computePartial: bool,
    kill: nat -> bool, looks: nat, flag: bool, ok: bool, longest: Longest)
    requires WellFormed(h) && SingleSpec(m, h, computePartial, SawKill(kill, looks), ok, longest)
    requires SawKill(kill, looks) ==> flag
    ensures SingleSpec(m, h, computePartial, flag, ok, longest)
  {
    hide IsPartial, WellFormed, HistoryLinearizable;
  }

  lemma SpecIsGenuine<S(!new), I(!new), O(!new)>(c: Config<S, I, O>, i: int, killed: bool, w: Worker)
    requires ValidConfig(c) && 0 <= i < |c.history| && w.Finished?
    requires SingleSpec(c.model, c.history[i], c.computeInfo, killed, w.ok, w.longest)
    ensures !killed ==> Genuine(c, i, w.ok)
  {
  }

  lemma ReceiveKeeps<S(!new), I(!new), O(!new)>(c: Config<S, I, O>, s: State)
    requires ValidConfig(c) && Invariant(c, s) && s.phase == Selecting && s.results != []
    ensures Invariant(c, Received(c.computeInfo, s))
  {
    hide HistoryLinearizable, WellFormed, GoodModel, FinishedCount, WorkersKeepSpec, ResultsDistinct, ResultsGenuine;
    var t, result := Received(c.computeInfo, s), s.results[0];
    FirstIsGenuine(c, s);
    ReceiveDistinct(c.computeInfo, s);
    ReceiveGenuine(c, s);
    WorkersCount(c, s);
    SpecsWeaken(c, s.workers, s.kill);
    if t.phase != Selecting && t.ok {
      HeardAreWorkers(t);
      AllHeard(t.heard, |c.history|);
    }
  }

  lemma FirstIsGenuine<S(!new), I(!new), O(!new)>(c: Config<S, I, O>, s: State)
    requires ValidConfig(c) && ResultsGenuine(c, s) && s.results != []
    ensures Genuine(c, s.results[0].worker, s.results[0].ok)
  {
  }

  lemma ReceiveGenuine<S(!new), I(!new), O(!new)>(c: Config<S, I, O>, s: State)
    requires ValidConfig(c) && ResultsGenuine(c, s) && s.results != []
    ensures ResultsGenuine(c, Received(c.computeInfo, s))
  {
    hide ValidConfig, HistoryLinearizable;
    var t := Received(c.computeInfo, s);
    assert forall k :: 0 <= k < |t.results| ==> t.results[k] == s.results[k + 1];
  }

  lemma ReceiveDistinct(computeInfo: bool, s: State)
    requires ResultsDistinct(s) && s.results != []
    ensures ResultsDistinct(Received(computeInfo, s))
    ensures |Received(computeInfo, s).heard| == |s.heard| + 1
  {
    var t := Received(computeInfo, s);
    assert forall k :: 0 <= k < |t.results| ==> t.results[k] == s.results[k + 1];
  }

  lemma HeardAreWorkers(s: State)
    requires ResultsDistinct(s)
    ensures forall i :: i in s.heard ==> 0 <= i < |s.workers|
  {
  }

  lemma WorkersCount<S(!new), I(!new), O(!new)>(c: Config<S, I, O>, s: State)
    requires ValidConfig(c) && WorkersKeepSpec(c, s.workers, s.kill)
    ensures |s.workers| == |c.history|
  {
  }

  /** `n` different workers below `n` are all of them. */
  lemma AllHeard(heard: set<int>, n: nat)
    requires |heard| >= n && forall i :: i in heard ==> 0 <= i < n
    ensures forall i :: 0 <= i < n ==> i in heard
  {
    IdsBelowMembers(n);
    var ids := IdsBelow(n);
    forall i | i in heard
      ensures i in ids
    {
    }
    SubsetSize(heard, ids);
    SubsetOfSameSize(heard, ids);
  }

  lemma SubsetOfSameSize<T>(a: set<T>, b: set<T>)
    requires a <= b && |a| == |b|
    ensures a == b
  {
    assert |b - a| == |b| - |a|;
  }

  lemma ExpireKeeps<S(!new), I(!new), O(!new)>(c: Config<S, I, O>, s: State)
    requires ValidConfig(c) && Invariant(c, s) && s.phase == Selecting && c.timeout
    ensures Invariant(c, Expired(c.computeInfo, s))
  {
    SpecsWeaken(c, s.workers, s.kill);
    hide WellFormed, GoodModel, HistoryLinearizable, WorkersKeepSpec, FinishedCount;
  }

  lemma DrainKeeps<S(!new), I(!new), O(!new)>(c: Config<S, I, O>, s: State)
    requires ValidConfig(c) && Invariant(c, s) && s.phase == Draining && s.results != []
    ensures Invariant(c, Drained(s))
  {
    var t := Drained(s);
    assert forall k :: 0 <= k < |t.results| ==> t.results[k] == s.results[k + 1];
  }

  lemma StepKeeps<S(!new), I(!new), O(!new)>(c: Config<S, I, O>, s: State, t: State)
    requires ValidConfig(c) && Invariant(c, s) && Step(c, s, t)
    ensures Invariant(c, t)
  {
    hide Invariant, WorkerStep, Received, Expired, Drained;
    if CollectorStep(c, s, t) {
      if s.phase == Selecting && s.results != [] && t == Received(c.computeInfo, s) {
        ReceiveKeeps(c, s);
      } else if s.phase == Selecting {
        ExpireKeeps(c, s);
      } else {
        DrainKeeps(c, s);
      }
    } else {
      var i :| WorkerStep(c, s, t, i);
      WorkerKeeps(c, s, t, i);
    }
  }

  lemma {:induction false} RunKeeps<S(!new), I(!new), O(!new)>(c: Config<S, I, O>, run: seq<State>, k: nat)
    requires ValidConfig(c) && IsRun(c, run) && k < |run|
    ensures Invariant(c, run[k])
  {
    hide Invariant, Step;
    if k == 0 {
      InitialKeeps(c);
    } else {
      RunKeeps(c, run, k - 1);
      assert Step(c, run[k - 1], run[k - 1 + 1]);
      StepKeeps(c, run[k - 1], run[k]);
    }
  }

  // ---------- the verdict ----------

  /** In every run the verdict is right: Ok only if every partition is linearizable, Illegal only if some
      partition is not, Unknown only after a timeout when no result received so far was a failure. */
  lemma VerdictIsRight<S(!new), I(!new), O(!new)>(c: Config<S, I, O>, run: seq<State>, k: nat)
    requires ValidConfig(c) && IsRun(c, run) && k < |run| && run[k].phase == Returned
    ensures Verdict(run[k]) == Ok ==> AllLinearizable(c)
    ensures Verdict(run[k]) == Illegal ==> !AllLinearizable(c)
    ensures Verdict(run[k]) == Unknown ==> c.timeout && run[k].timedOut && forall i :: i in run[k].heard ==>
      0 <= i < |c.history| && HistoryLinearizable(c.model, c.history[i])
    ensures !c.timeout ==> Verdict(run[k]) == if AllLinearizable(c) then Ok else Illegal
  {
    RunKeeps(c, run, k);
  }

  /** How far the collector is follows from what it has heard: it selects until the timeout, a failure (unless
      information is computed) or the last result; then it returns, with information only after every result. The
      workers are told to stop exactly on the timeout or on a failure without information. */
  lemma CollectorIsDetermined<S(!new), I(!new), O(!new)>(c: Config<S, I, O>, run: seq<State>, k: nat)
    requires ValidConfig(c) && IsRun(c, run) && k < |run|
    ensures var s := run[k];
      var failed := exists i :: i in s.heard && 0 <= i < |c.history| && !HistoryLinearizable(c.model, c.history[i]);
      && (s.kill <==> s.timedOut || (failed && !c.computeInfo))
      && (s.phase == Selecting <==>
           !s.timedOut && (!failed || c.computeInfo) && (|s.heard| < |c.history| || |c.history| == 0))
      && (s.phase == Returned <==> s.phase != Selecting && (c.computeInfo ==> s.count >= |c.history|))
      && (Verdict(s) == if failed then Illegal else if s.timedOut then Unknown else Ok)
  {
    RunKeeps(c, run, k);
    HeardAreWorkers(run[k]);
    hide HistoryLinearizable, WellFormed, GoodModel, FinishedCount, WorkerKeepsSpec, ResultsGenuine;
  }

  /** With information computed, the collector has waited for every worker, and unless there was a timeout every
      search has run to its end: a partition is found linearizable, or what is recorded of it is longest. */
  lemma InfoIsComplete<S(!new), I(!new), O(!new)>(c: Config<S, I, O>, run: seq<State>, k: nat, i: int)
    requires ValidConfig(c) && IsRun(c, run) && k < |run| && run[k].phase == Returned && c.computeInfo
    requires 0 <= i < |c.history|
    ensures |run[k].workers| == |c.history| && run[k].workers[i].Finished?
    ensures var w := run[k].workers[i];
      SingleSpec(c.model, c.history[i], true, run[k].timedOut, w.ok, w.longest)
  {
    RunKeeps(c, run, k);
    var s := run[k];
    FinishedAtMostAll(s.workers);
    SomeRunning(s.workers, i);
    assert WorkerKeepsSpec(c, i, s.workers[i], s.kill);
    hide SingleSpec, WellFormed, GoodModel, HistoryLinearizable, FinishedCount;
  }

  lemma {:induction false} SomeRunning(workers: seq<Worker>, i: int)
    requires 0 <= i < |workers|
    ensures workers[i] == Running ==> FinishedCount(workers) < |workers|
  {
    var n := |workers| - 1;
    FinishedAtMostAll(workers[..n]);
    if i < n {
      SomeRunning(workers[..n], i);
    }
  }

  // ---------- termination ----------

  /** Falls with every step. */
  function Measure(s: State): int {
    2 * (|s.workers| - FinishedCount(s.workers)) + |s.results| +
    (match s.phase case Selecting => 2 case Draining => 1 case Returned => 0)
  }

  lemma StepsEnd<S(!new), I(!new), O(!new)>(c: Config<S, I, O>, s: State, t: State)
    requires ValidConfig(c) && Step(c, s, t)
    ensures 0 <= Measure(t) < Measure(s)
  {
    hide WorkerStep, Measure;
    if CollectorStep(c, s, t) {
      CollectorStepsEnd(c, s, t);
    } else {
      var i :| WorkerStep(c, s, t, i);
      WorkerStepsEnd(c, s, t, i);
    }
  }

  lemma CollectorStepsEnd<S(!new), I(!new), O(!new)>(c: Config<S, I, O>, s: State, t: State)
    requires CollectorStep(c, s, t)
    ensures 0 <= Measure(t) < Measure(s)
  {
    FinishedAtMostAll(t.workers);
    hide FinishedCount;
  }

  lemma WorkerStepsEnd<S(!new), I(!new), O(!new)>(c: Config<S, I, O>, s: State, t: State, i: int)
    requires ValidConfig(c) && WorkerStep(c, s, t, i)
    ensures 0 <= Measure(t) < Measure(s)
  {
    hide SingleSpec, WellFormed, GoodModel, FinishedCount;
    FinishedAtMostAll(t.workers);
    OneMoreFinished(s.workers, i, t.workers[i]);
  }

  /** The collector never waits in vain: when every worker has finished and there is a partition, it can go on. */
  lemma CollectorCanGoOn<S(!new), I(!new), O(!new)>(c: Config<S, I, O>, run: seq<State>, k: nat)
    requires ValidConfig(c) && IsRun(c, run) && k < |run| && run[k].phase != Returned && |c.history| > 0
    requires forall i :: 0 <= i < |run[k].workers| ==> run[k].workers[i].Finished?
    ensures exists t :: CollectorStep(c, run[k], t)
  {
    RunKeeps(c, run, k);
    var s := run[k];
    FinishedAtMostAll(s.workers);
    var t := if s.phase == Selecting then Received(c.computeInfo, s) else Drained(s);
    assert CollectorStep(c, s, t);
  }

  /** A longest valid partial linearization that contains an operation, if there is any of length at most `k`. */
  lemma {:induction false} LongestContaining<S(!new), I(!new), O(!new)>(
    m: Model<S, I, O>, h: History<I, O>, id: int, k: nat)
    returns (r: Option<seq<int>>)
    requires WellFormed(h) && forall s :: IsPartial(m, h, s) && id in s ==> |s| <= k
    ensures r == None ==> forall s :: IsPartial(m, h, s) ==> id !in s
    ensures r.Some? ==> IsPartial(m, h, r.value) && id in r.value && forall s :: IsPartial(m, h, s) && id in s ==>
      |s| <= |r.value|
  {
    hide IsPartial, WellFormed;
    if s :| IsPartial(m, h, s) && id in s && |s| == k {
      r := Some(s);
    } else if k == 0 {
      r := None;
    } else {
      r := LongestContaining(m, h, id, k - 1);
    }
  }

  lemma {:induction false} AllLongest<S(!new), I(!new), O(!new)>(
    m: Model<S, I, O>, h: History<I, O>, n: nat)
    returns (longest: Longest)
    requires WellFormed(h) && n <= Size(h)
    ensures |longest| == n
    ensures forall id :: 0 <= id < n && longest[id].Some? ==>
      IsPartial(m, h, longest[id].value) && id in longest[id].value
    ensures forall id, s :: 0 <= id < n && IsPartial(m, h, s) && id in s ==>
      longest[id].Some? && |s| <= |longest[id].value|
  {
    hide IsPartial, WellFormed, Size;
    if n == 0 {
      longest := [];
    } else {
      var rest := AllLongest(m, h, n - 1);
      forall s | IsPartial(m, h, s)
        ensures |s| <= Size(h)
      {
        PartialIsBounded(m, h, s);
      }
      var r := LongestContaining(m, h, n - 1, Size(h));
      longest := rest + [r];
    }
  }

  lemma SomeMaximal<S(!new), I(!new), O(!new)>(m: Model<S, I, O>, h: History<I, O>) returns (longest: Longest)
    requires WellFormed(h)
    ensures LongestValid(m, h, longest) && LongestMaximal(m, h, longest)
  {
    hide IsPartial, WellFormed, Size;
    longest := AllLongest(m, h, Size(h));
    forall s | IsPartial(m, h, s)
      ensures AtLeast(longest, s)
    {
      PartialIdsInRange(m, h, s);
    }
  }

  /** A search always has something to return. */
  lemma SearchCanReturn<S(!new), I(!new), O(!new)>(
    m: Model<S, I, O>, h: History<I, O>, computePartial: bool, killed: bool)
    returns (ok: bool, longest: Longest)
    requires WellFormed(h)
    ensures SingleSpec(m, h, computePartial, killed, ok, longest)
  {
    hide IsPartial, WellFormed, SingleSpec, IsComplete;
    if HistoryLinearizable(m, h) {
      var s :| IsComplete(m, h, s);
      ok, longest := true, seq(Size(h), _ => Some(s));
      CompleteSpec(m, h, computePartial, killed, s, longest);
    } else if computePartial {
      ok := false;
      longest := SomeMaximal(m, h);
      MaximalSpec(m, h, computePartial, killed, longest);
    } else {
      ok, longest := false, seq(Size(h), _ => None);
      NothingSpec(m, h, computePartial, killed, longest);
    }
  }

  lemma MaximalSpec<S(!new), I(!new), O(!new)>(
    m: Model<S, I, O>, h: History<I, O>, computePartial: bool, killed: bool, longest: Longest)
    requires WellFormed(h) && !HistoryLinearizable(m, h) && computePartial
    requires LongestValid(m, h, longest) && LongestMaximal(m, h, longest)
    ensures SingleSpec(m, h, computePartial, killed, false, longest)
  {
  }

  lemma NothingSpec<S(!new), I(!new), O(!new)>(
    m: Model<S, I, O>, h: History<I, O>, computePartial: bool, killed: bool, longest: Longest)
    requires WellFormed(h) && !HistoryLinearizable(m, h) && !computePartial
    requires |longest| == Size(h) && forall id :: 0 <= id < |longest| ==> longest[id] == None
    ensures SingleSpec(m, h, computePartial, killed, false, longest)
  {
    hide IsPartial, WellFormed;
  }

  lemma PartialIdsInRange<S, I, O>(m: Model<S, I, O>, h: History<I, O>, s: seq<int>)
    requires WellFormed(h) && IsPartial(m, h, s)
    ensures forall id :: id in s ==> 0 <= id < Size(h)
  {
    forall id | id in s
      ensures 0 <= id < Size(h)
    {
      var k :| 0 <= k < |s| && s[k] == id;
      assert IsId(h, s[k]);
    }
  }

  /** No run gets stuck before it returns, unless there is no partition and no timeout. As every step lowers
      `Measure`, every run that goes on as long as it can returns. */
  lemma StuckOnlyWithoutPartitions<S(!new), I(!new), O(!new)>(c: Config<S, I, O>, run: seq<State>, k: nat)
    requires ValidConfig(c) && IsRun(c, run) && k < |run| && run[k].phase != Returned
    ensures (exists t :: Step(c, run[k], t)) <==> |c.history| > 0 || (c.timeout && run[k].phase == Selecting)
  {
    RunKeeps(c, run, k);
    var s := run[k];
    if |c.history| > 0 {
      if i :| 0 <= i < |s.workers| && s.workers[i] == Running {
        var ok, longest := SearchCanReturn(c.model, c.history[i], c.computeInfo, s.kill);
        var t := s.(workers := s.workers[i := Finished(ok, longest)], results := s.results + [Result(i, ok)]);
        assert WorkerStep(c, s, t, i);
        assert Step(c, s, t);
      } else {
        CollectorCanGoOn(c, run, k);
        var t :| CollectorStep(c, s, t);
        assert Step(c, s, t);
      }
    } else if c.timeout && s.phase == Selecting {
      assert CollectorStep(c, s, Expired(c.computeInfo, s));
      assert Step(c, s, Expired(c.computeInfo, s));
    }
  }
}
