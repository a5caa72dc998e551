/** The parallel test runner with retries (miden-client/bin/integration-tests/src/main.rs).  Workers take tests from a
    shared queue and append to shared results; their steps interleave in any order. */
module Runner {
  import opened Common

  type Name = string

  /** One execution of a test.  The subprocess reports under the name it was started with. */
  datatype Attempt = Attempt(name: Name, passed: bool)

  /** Where a worker is in its loop: about to pop, running a test, about to push a result, or out of the loop. */
  datatype Worker = Popping | Running(test: Name) | Pushing(result: Attempt) | Exited

  datatype State = State(queue: seq<Name>, workers: seq<Worker>, results: seq<Attempt>, completed: nat)

  function Start(tests: seq<Name>, jobs: nat): State {
    State(tests, seq(jobs, _ => Popping), [], 0)
  }

  /** One step of worker `w`; `passed` is what its subprocess reports, if it is running one. */
  function Step(s: State, w: nat, passed: bool): State
    requires w < |s.workers| && !s.workers[w].Exited?
  {
    match s.workers[w]
    case Popping =>
      if |s.queue| == 0 then s.(workers := s.workers[w := Exited])
      else
        var n := |s.queue| - 1;
        s.(queue := s.queue[..n], workers := s.workers[w := Running(s.queue[n])])
    case Running(test) =>
      s.(completed := s.completed + 1, workers := s.workers[w := Pushing(Attempt(test, passed))])
    case Pushing(result) =>
      s.(results := s.results + [result], workers := s.workers[w := Popping])
  }

  // What every interleaving keeps

  ghost function Names(attempts: seq<Attempt>): (names: multiset<Name>) {
    if |attempts| == 0 then multiset{}
    else Names(attempts[..|attempts| - 1]) + multiset{attempts[|attempts| - 1].name}
  }

  /** The test a worker holds. */
  ghost function Held(w: Worker): multiset<Name> {
    match w
    case Running(test) => multiset{test}
    case Pushing(result) => multiset{result.name}
    case _ => multiset{}
  }

  ghost function InFlight(workers: seq<Worker>): multiset<Name> {
    if |workers| == 0 then multiset{} else InFlight(workers[..|workers| - 1]) + Held(workers[|workers| - 1])
  }

  /** Queued, in flight and finished tests together. */
  ghost function Everything(s: State): multiset<Name> {
    multiset(s.queue) + InFlight(s.workers) + Names(s.results)
  }

  lemma {:induction false} InFlightUpdate(workers: seq<Worker>, w: nat, after: Worker)
    requires w < |workers|
    ensures InFlight(workers[w := after]) + Held(workers[w]) == InFlight(workers) + Held(after)
  {
    hide Held;
    var n := |workers| - 1;
    var updated := workers[w := after];
    if w == n {
      assert updated[..n] == workers[..n];
      Swap(InFlight(workers[..n]), Held(after), Held(workers[n]));
    } else {
      InFlightUpdate(workers[..n], w, after);
      assert updated[..n] == workers[..n][w := after];
      AddBoth(InFlight(updated[..n]), InFlight(workers[..n]), Held(workers[w]), Held(after), Held(workers[n]));
    }
  }

  lemma Swap<X>(a: multiset<X>, b: multiset<X>, c: multiset<X>)
    ensures a + b + c == a + c + b
  {
  }

  lemma AddBoth<X>(a: multiset<X>, b: multiset<X>, c: multiset<X>, d: multiset<X>, e: multiset<X>)
    requires a + c == b + d
    ensures a + e + c == b + e + d
  {
    Swap(a, e, c);
    Swap(b, e, d);
  }

  /** How much of its loop a worker has left, in steps. */
  function Left(w: Worker): nat {
    match w case Popping => 1 case Running(_) => 3 case Pushing(_) => 2 case Exited => 0
  }

  function WorkLeft(workers: seq<Worker>): nat {
    if |workers| == 0 then 0 else WorkLeft(workers[..|workers| - 1]) + Left(workers[|workers| - 1])
  }

  function Measure(s: State): nat {
    3 * |s.queue| + WorkLeft(s.workers)
  }

  lemma {:induction false} WorkLeftUpdate(workers: seq<Worker>, w: nat, after: Worker)
    requires w < |workers|
    ensures WorkLeft(workers[w := after]) + Left(workers[w]) == WorkLeft(workers) + Left(after)
  {
    var n := |workers| - 1;
    var updated := workers[w := after];
    if w == n {
      assert updated[..n] == workers[..n];
    } else {
      WorkLeftUpdate(workers[..n], w, after);
      assert updated[..n] == workers[..n][w := after];
    }
  }

  /** A worker that has left saw the queue empty. */
  ghost predicate DrainedWhenLeft(s: State) {
    (exists w :: 0 <= w < |s.workers| && s.workers[w].Exited?) ==> s.queue == []
  }

  /** Every step moves one test along, loses and repeats none, and brings the end nearer by exactly one. */
  lemma StepKeeps(s: State, w: nat, passed: bool)
    requires w < |s.workers| && !s.workers[w].Exited?
    ensures var s' := Step(s, w, passed);
            && Everything(s') == Everything(s)
            && Measure(s') == Measure(s) - 1
            && |s'.workers| == |s.workers|
            && (DrainedWhenLeft(s) ==> DrainedWhenLeft(s'))
  {
    var s' := Step(s, w, passed);
    StillDrained(s, w, passed);
    hide DrainedWhenLeft, Names, InFlight, WorkLeft, Held;
    InFlightUpdate(s.workers, w, s'.workers[w]);
    WorkLeftUpdate(s.workers, w, s'.workers[w]);
    StepMoves(s, w, passed);
    Balance(multiset(s.queue), InFlight(s.workers), Names(s.results),
            multiset(s'.queue), InFlight(s'.workers), Names(s'.results), Held(s.workers[w]), Held(s'.workers[w]));
  }

  lemma StillDrained(s: State, w: nat, passed: bool)
    requires w < |s.workers| && !s.workers[w].Exited?
    ensures DrainedWhenLeft(s) ==> DrainedWhenLeft(Step(s, w, passed))
  {
    var s' := Step(s, w, passed);
    assert forall v :: 0 <= v < |s.workers| && v != w ==> s'.workers[v] == s.workers[v];
  }

  /** What the step's worker hands over. */
  lemma StepMoves(s: State, w: nat, passed: bool)
    requires w < |s.workers| && !s.workers[w].Exited?
    ensures var s' := Step(s, w, passed);
            && s'.workers == s.workers[w := s'.workers[w]]
            && multiset(s'.queue) + Names(s'.results) + Held(s'.workers[w]) == multiset(s.queue) + Names(s.results) + Held(s.workers[w])
  {
    match s.workers[w]
    case Popping =>
      if |s.queue| > 0 {
        var n := |s.queue| - 1;
        assert s.queue == s.queue[..n] + [s.queue[n]];
      }
    case Running(test) =>
    case Pushing(result) =>
      assert (s.results + [result])[..|s.results|] == s.results;
  }

  lemma Balance<X>(q: multiset<X>, f: multiset<X>, r: multiset<X>, q': multiset<X>, f': multiset<X>, r': multiset<X>,
                   h: multiset<X>, h': multiset<X>)
    requires q' + r' + h' == q + r + h && f' + h == f + h'
    ensures q' + f' + r' == q + f + r
  {
    forall x ensures (q' + f' + r')[x] == (q + f + r)[x] {
      assert (q' + r' + h')[x] == (q + r + h)[x];
      assert (f' + h)[x] == (f + h')[x];
    }
  }

  lemma {:induction false} StartKeeps(tests: seq<Name>, jobs: nat)
    ensures Everything(Start(tests, jobs)) == multiset(tests) && Measure(Start(tests, jobs)) == 3 * |tests| + jobs
    ensures DrainedWhenLeft(Start(tests, jobs))
  {
    AllPopping(jobs);
  }

  lemma {:induction false} AllPopping(jobs: nat)
    ensures var workers := seq(jobs, _ => Popping); InFlight(workers) == multiset{} && WorkLeft(workers) == jobs
  {
    if jobs > 0 {
      AllPopping(jobs - 1);
      assert seq(jobs, _ => Popping)[..jobs - 1] == seq(jobs - 1, _ => Popping);
    }
  }

  ghost predicate AllExited(workers: seq<Worker>) {
    forall w :: 0 <= w < |workers| ==> workers[w].Exited?
  }

  lemma {:induction false} NothingInFlight(workers: seq<Worker>)
    requires AllExited(workers)
    ensures InFlight(workers) == multiset{} && WorkLeft(workers) == 0
  {
    if |workers| > 0 { NothingInFlight(workers[..|workers| - 1]); }
  }

  // Whole runs

  /** A run: at each moment some worker that has not left takes a step. */
  datatype Move = Move(worker: nat, passed: bool)

  ghost predicate IsRun(s: State, moves: seq<Move>)
    decreases |moves|
  {
    |moves| == 0 ||
    (moves[0].worker < |s.workers| && !s.workers[moves[0].worker].Exited?
     && IsRun(Step(s, moves[0].worker, moves[0].passed), moves[1..]))
  }

  ghost function Final(s: State, moves: seq<Move>): State
    requires IsRun(s, moves)
    decreases |moves|
  {
    if |moves| == 0 then s else Final(Step(s, moves[0].worker, moves[0].passed), moves[1..])
  }

  /** Over every interleaving nothing is lost or repeated, and the steps taken and those left add up. */
  lemma {:induction false} RunKeeps(s: State, moves: seq<Move>)
    requires IsRun(s, moves) && DrainedWhenLeft(s)
    ensures var s' := Final(s, moves);
            && Everything(s') == Everything(s) && Measure(s') + |moves| == Measure(s)
            && |s'.workers| == |s.workers| && DrainedWhenLeft(s')
    decreases |moves|
  {
    if |moves| > 0 {
      StepKeeps(s, moves[0].worker, moves[0].passed);
      RunKeeps(Step(s, moves[0].worker, moves[0].passed), moves[1..]);
    }
  }

  /** Every interleaving of at least one worker: it is never longer than three steps a test and one a worker, it is that
      long exactly when all workers have left, and then each test has exactly one attempt. */
  lemma RunsComplete(tests: seq<Name>, jobs: nat, moves: seq<Move>)
    requires jobs > 0 && IsRun(Start(tests, jobs), moves)
    ensures |moves| <= 3 * |tests| + jobs
    ensures var s := Final(Start(tests, jobs), moves);
            && Everything(s) == multiset(tests)
            && (AllExited(s.workers) <==> |moves| == 3 * |tests| + jobs)
            && (AllExited(s.workers) ==> s.queue == [] && Names(s.results) == multiset(tests))
  {
    hide Final, IsRun, Everything, InFlight, Names, Step, DrainedWhenLeft, WorkLeft;
    var s := Final(Start(tests, jobs), moves);
    StartKeeps(tests, jobs);
    RunKeeps(Start(tests, jobs), moves);
    if AllExited(s.workers) {
      AllDone(s, tests);
    } else {
      var w :| 0 <= w < |s.workers| && !s.workers[w].Exited?;
      WorkLeftUpdate(s.workers, w, Exited);
    }
  }

  // What the attempts report

  /** The attempts that workers have in hand. */
  ghost function Pending(workers: seq<Worker>): multiset<Attempt> {
    if |workers| == 0 then multiset{}
    else
      var last := workers[|workers| - 1];
      Pending(workers[..|workers| - 1]) + if last.Pushing? then multiset{last.result} else multiset{}
  }

  lemma {:induction false} PendingUpdate(workers: seq<Worker>, w: nat, after: Worker)
    requires w < |workers|
    ensures Pending(workers[w := after]) + InHand(workers[w]) == Pending(workers) + InHand(after)
  {
    var n := |workers| - 1;
    var updated := workers[w := after];
    if w == n {
      assert updated[..n] == workers[..n];
      Swap(Pending(workers[..n]), InHand(after), InHand(workers[n]));
    } else {
      PendingUpdate(workers[..n], w, after);
      assert updated[..n] == workers[..n][w := after];
      AddBoth(Pending(updated[..n]), Pending(workers[..n]), InHand(workers[w]), InHand(after), InHand(workers[n]));
    }
  }

  ghost function InHand(w: Worker): multiset<Attempt> {
    if w.Pushing? then multiset{w.result} else multiset{}
  }

  /** What a move finds out: the report of the worker's subprocess, if it is running one. */
  ghost function Report(s: State, move: Move): multiset<Attempt>
    requires move.worker < |s.workers|
  {
    var w := s.workers[move.worker];
    if w.Running? then multiset{Attempt(w.test, move.passed)} else multiset{}
  }

  /** Everything the subprocesses of a run report. */
  ghost function Reported(s: State, moves: seq<Move>): multiset<Attempt>
    requires IsRun(s, moves)
    decreases |moves|
  {
    if |moves| == 0 then multiset{}
    else Report(s, moves[0]) + Reported(Step(s, moves[0].worker, moves[0].passed), moves[1..])
  }

  lemma StepReports(s: State, move: Move)
    requires move.worker < |s.workers| && !s.workers[move.worker].Exited?
    ensures var s' := Step(s, move.worker, move.passed);
            && multiset(s'.results) + Pending(s'.workers) == multiset(s.results) + Pending(s.workers) + Report(s, move)
            && s'.completed == s.completed + |Report(s, move)|
  {
    hide Step, Pending, InHand, Report;
    var w, s' := move.worker, Step(s, move.worker, move.passed);
    StepHands(s, move);
    PendingUpdate(s.workers, w, s'.workers[w]);
    TradeHands(multiset(s.results), Pending(s.workers), InHand(s.workers[w]), Report(s, move),
               multiset(s'.results), Pending(s'.workers), InHand(s'.workers[w]));
  }

  /** The worker that moves takes its report in hand and then gives it to the results. */
  lemma StepHands(s: State, move: Move)
    requires move.worker < |s.workers| && !s.workers[move.worker].Exited?
    ensures var w, s' := move.worker, Step(s, move.worker, move.passed);
            && |s'.workers| == |s.workers| && s'.workers == s.workers[w := s'.workers[w]]
            && multiset(s'.results) + InHand(s'.workers[w])
               == multiset(s.results) + InHand(s.workers[w]) + Report(s, move)
            && s'.completed == s.completed + |Report(s, move)|
  {
  }

  lemma TradeHands(results: multiset<Attempt>, pending: multiset<Attempt>, hand: multiset<Attempt>,
                   report: multiset<Attempt>, results': multiset<Attempt>, pending': multiset<Attempt>,
                   hand': multiset<Attempt>)
    requires results' + hand' == results + hand + report && pending' + hand == pending + hand'
    ensures results' + pending' == results + pending + report
  {
    forall a ensures (results' + pending')[a] == (results + pending + report)[a] {
      assert (results' + hand')[a] == (results + hand + report)[a] && (pending' + hand)[a] == (pending + hand')[a];
    }
  }

  /** Over every interleaving the attempts recorded or in hand are those that were there and what the subprocesses
      report, no more and no less, and the progress counter counts them. */
  lemma {:induction false} RunReports(s: State, moves: seq<Move>)
    requires IsRun(s, moves)
    ensures var s' := Final(s, moves);
            && multiset(s'.results) + Pending(s'.workers)
               == multiset(s.results) + Pending(s.workers) + Reported(s, moves)
            && s'.completed == s.completed + |Reported(s, moves)|
    decreases |moves|
  {
    if |moves| > 0 {
      StepReports(s, moves[0]);
      RunReports(Step(s, moves[0].worker, moves[0].passed), moves[1..]);
    }
  }

  lemma {:induction false} NothingPending(workers: seq<Worker>)
    requires forall w :: 0 <= w < |workers| ==> !workers[w].Pushing?
    ensures Pending(workers) == multiset{}
  {
    if |workers| > 0 { NothingPending(workers[..|workers| - 1]); }
  }

  /** A finished run returns exactly what the subprocesses reported, one report a test. */
  lemma FinishedReports(tests: seq<Name>, jobs: nat, moves: seq<Move>)
    requires jobs > 0 && IsRun(Start(tests, jobs), moves) && AllExited(Final(Start(tests, jobs), moves).workers)
    ensures var s := Final(Start(tests, jobs), moves);
            && multiset(s.results) == Reported(Start(tests, jobs), moves)
            && s.completed == |s.results| == |tests|
  {
    hide Final, IsRun, Reported, Step;
    var s := Final(Start(tests, jobs), moves);
    RunReports(Start(tests, jobs), moves);
    NothingPending(Start(tests, jobs).workers);
    NothingPending(s.workers);
    assert multiset(Start(tests, jobs).results) == multiset{};
    NoneAdded(multiset(s.results));
    NoneAdded(Reported(Start(tests, jobs), moves));
    assert multiset(s.results) == Reported(Start(tests, jobs), moves);
    assert |multiset(s.results)| == |s.results|;
    RunsComplete(tests, jobs, moves);
    NamesSize(s.results);
    assert |multiset(tests)| == |tests|;
  }

  lemma NoneAdded<X>(m: multiset<X>)
    ensures m + multiset{} == m && multiset{} + multiset{} + m == m
  {
  }

  lemma {:induction false} NamesSize(attempts: seq<Attempt>)
    ensures |Names(attempts)| == |attempts|
  {
    if |attempts| > 0 { NamesSize(attempts[..|attempts| - 1]); }
  }

  // The order in which tests start

  /** The tests that workers take from the queue, in order. */
  ghost function Started(s: State, moves: seq<Move>): seq<Name>
    requires IsRun(s, moves)
    decreases |moves|
  {
    if |moves| == 0 then []
    else
      var s' := Step(s, moves[0].worker, moves[0].passed);
      (if s'.workers[moves[0].worker].Running? then [s'.workers[moves[0].worker].test] else []) + Started(s', moves[1..])
  }

  /** Over every interleaving tests start from the end of the list. */
  lemma {:induction false} StartOrder(s: State, moves: seq<Move>)
    requires IsRun(s, moves)
    ensures Reversed(s.queue) == Started(s, moves) + Reversed(Final(s, moves).queue)
    decreases |moves|
  {
    if |moves| > 0 {
      var s' := Step(s, moves[0].worker, moves[0].passed);
      StartOrder(s', moves[1..]);
      if s.workers[moves[0].worker].Popping? && |s.queue| > 0 {
        assert Reversed(s.queue) == [s.queue[|s.queue| - 1]] + Reversed(s'.queue);
      }
    }
  }

  // The runner itself, under an arbitrary scheduler

  /** One more move at the end of a run. */
  lemma {:induction false} RunExtended(s: State, moves: seq<Move>, move: Move)
    requires IsRun(s, moves)
    requires move.worker < |Final(s, moves).workers| && !Final(s, moves).workers[move.worker].Exited?
    ensures IsRun(s, moves + [move])
    ensures Final(s, moves + [move]) == Step(Final(s, moves), move.worker, move.passed)
    ensures Reported(s, moves + [move]) == Reported(s, moves) + Report(Final(s, moves), move)
    decreases |moves|
  {
    var more := moves + [move];
    if |moves| == 0 {
      assert more == [move] && more[1..] == [];
    } else {
      assert more[0] == moves[0] && more[1..] == moves[1..] + [move];
      RunExtended(Step(s, moves[0].worker, moves[0].passed), moves[1..], move);
    }
  }

  /** The attempt reports what the subprocess of its test said at some step. */
  ghost predicate Said(outcome: (nat, Name) -> bool, a: Attempt) {
    exists k: nat :: a.passed == outcome(k, a.name)
  }

  ghost predicate AllSaid(outcome: (nat, Name) -> bool, reports: multiset<Attempt>) {
    forall a :: a in reports ==> Said(outcome, a)
  }

  method Active(workers: seq<Worker>) returns (active: seq<nat>)
    ensures forall w: nat :: w in active ==> w < |workers| && !workers[w].Exited?
    ensures active == [] ==> AllExited(workers)
  {
    active := [];
    for w := 0 to |workers|
      invariant forall v: nat :: v in active ==> v < w && !workers[v].Exited?
      invariant active == [] ==> forall v :: 0 <= v < w ==> workers[v].Exited?
    {
      if !workers[w].Exited? { active := active + [w]; }
    }
  }

  /** Runs the tests; `pick` is the scheduler's choice at each step and `outcome` what the subprocess of each step
      reports.  It is one of the runs of the state machine: each test is attempted exactly once and each attempt
      reports what its subprocess said. */
  method RunTestsParallel(tests: seq<Name>, jobs: nat, pick: nat -> nat, outcome: (nat, Name) -> bool)
    returns (results: seq<Attempt>, ghost moves: seq<Move>)
    ensures jobs == 0 ==> results == []
    ensures jobs > 0 ==> Names(results) == multiset(tests)
    ensures IsRun(Start(tests, jobs), moves) && results == Final(Start(tests, jobs), moves).results
    ensures jobs > 0 ==> multiset(results) == Reported(Start(tests, jobs), moves)
    ensures forall a :: a in results ==> Said(outcome, a)
  {
    hide Everything, InFlight, Names, WorkLeft, Step, IsRun, Final, Reported, Said, Start;
    var s, k := Start(tests, jobs), 0;
    ghost var start := s;
    StartKeeps(tests, jobs);
    NoMoves(start);
    StartSizes(tests, jobs);
    moves := [];
    var active := Active(s.workers);
    while active != []
      invariant Everything(s) == multiset(tests) && DrainedWhenLeft(s) && |s.workers| == jobs
      invariant forall w: nat :: w in active ==> w < |s.workers| && !s.workers[w].Exited?
      invariant active == [] ==> AllExited(s.workers)
      invariant jobs == 0 ==> s.results == []
      invariant IsRun(start, moves) && s == Final(start, moves) && AllSaid(outcome, Reported(start, moves))
      decreases Measure(s)
    {
      var w := active[pick(k) % |active|];
      assert w in active;
      var passed := s.workers[w].Running? && outcome(k, s.workers[w].test);
      StepKeeps(s, w, passed);
      RunExtended(start, moves, Move(w, passed));
      SaidAt(outcome, s, Move(w, passed), k);
      moves := moves + [Move(w, passed)];
      s, k := Step(s, w, passed), k + 1;
      active := Active(s.workers);
    }
    results := s.results;
    if jobs > 0 {
      AllDone(s, tests);
      FinishedReports(tests, jobs, moves);
    }
  }

  lemma NoMoves(s: State)
    ensures IsRun(s, []) && Final(s, []) == s && Reported(s, []) == multiset{}
  {
  }

  lemma StartSizes(tests: seq<Name>, jobs: nat)
    ensures |Start(tests, jobs).workers| == jobs && Start(tests, jobs).results == []
  {
  }

  lemma SaidAt(outcome: (nat, Name) -> bool, s: State, move: Move, k: nat)
    requires move.worker < |s.workers|
    requires s.workers[move.worker].Running? ==> move.passed == outcome(k, s.workers[move.worker].test)
    ensures AllSaid(outcome, Report(s, move))
  {
  }

  lemma AllDone(s: State, tests: seq<Name>)
    requires Everything(s) == multiset(tests) && DrainedWhenLeft(s) && AllExited(s.workers) && |s.workers| > 0
    ensures Names(s.results) == multiset(tests) && s.queue == [] && Measure(s) == 0
  {
    assert s.workers[0].Exited?;
    NothingInFlight(s.workers);
  }

  // Retries

  datatype TestResult = TestResult(name: Name, attempts: seq<bool>)
  {
    predicate Passed() { |attempts| > 0 && attempts[|attempts| - 1] }

    predicate Failed() { !Passed() }
  }

  ghost predicate DistinctResults(results: seq<TestResult>) {
    forall i, j :: 0 <= i < j < |results| ==> results[i].name != results[j].name
  }

  /** What the attempts report under a name, in order. */
  function Reports(attempts: seq<Attempt>, name: Name): seq<bool> {
    if |attempts| == 0 then []
    else
      var last := attempts[|attempts| - 1];
      Reports(attempts[..|attempts| - 1], name) + if last.name == name then [last.passed] else []
  }

  lemma {:induction false} ReportsCount(attempts: seq<Attempt>, name: Name)
    ensures |Reports(attempts, name)| == Names(attempts)[name]
  {
    if |attempts| > 0 { ReportsCount(attempts[..|attempts| - 1], name); }
  }

  function Extended(r: TestResult, attempts: seq<Attempt>): TestResult {
    r.(attempts := r.attempts + Reports(attempts, r.name))
  }

  /** No earlier result has the same name. */
  ghost predicate IsFirst(results: seq<TestResult>, i: nat)
    requires i < |results|
  {
    forall j :: 0 <= j < i ==> results[j].name != results[i].name
  }

  /** Appends each attempt to the first result with its name. */
  method Record(results: seq<TestResult>, attempts: seq<Attempt>) returns (after: seq<TestResult>)
    ensures |after| == |results|
    ensures forall i :: 0 <= i < |results| ==>
              after[i] == if IsFirst(results, i) then Extended(results[i], attempts) else results[i]
  {
    after := results;
    for k := 0 to |attempts|
      invariant |after| == |results|
      invariant forall i :: 0 <= i < |results| ==>
                  after[i] == if IsFirst(results, i) then Extended(results[i], attempts[..k]) else results[i]
    {
      var attempt := attempts[k];
      assert attempts[..k + 1][..k] == attempts[..k];
      var j := 0;
      while j < |after| && after[j].name != attempt.name
        invariant 0 <= j <= |after| && forall i :: 0 <= i < j ==> after[i].name != attempt.name
      {
        j := j + 1;
      }
      if j < |after| {
        after := after[j := after[j].(attempts := after[j].attempts + [attempt.passed])];
      }
    }
    assert attempts[..|attempts|] == attempts;
  }

  ghost function ResultNames(results: seq<TestResult>): (names: seq<Name>)
    ensures |names| == |results| && forall i :: 0 <= i < |results| ==> names[i] == results[i].name
  {
    seq(|results|, i requires 0 <= i < |results| => results[i].name)
  }

  /** After round `round` (the first run being round 1): every attempt but the last failed, and a test that has not
      passed has been tried in every round. */
  ghost predicate Tried(r: TestResult, round: nat) {
    && 1 <= |r.attempts| <= round
    && (forall i :: 0 <= i < |r.attempts| - 1 ==> !r.attempts[i])
    && (r.Failed() ==> |r.attempts| == round)
  }

  /** Some result with this name failed. */
  ghost predicate FailedName(results: seq<TestResult>, name: Name) {
    exists i :: 0 <= i < |results| && results[i].name == name && results[i].Failed()
  }

  /** The tests to run again: those registered under a failed name, as often as they are registered. */
  method FailedTests(registry: seq<Name>, results: seq<TestResult>) returns (again: seq<Name>, none: bool)
    ensures none <==> forall i :: 0 <= i < |results| ==> results[i].Passed()
    ensures forall n :: multiset(again)[n] == if FailedName(results, n) then multiset(registry)[n] else 0
  {
    var failed: set<Name> := set r | r in results && r.Failed() :: r.name;
    assert forall n :: n in failed <==> FailedName(results, n) by { FailedNames(results, failed); }
    none := failed == {};
    assert none <==> forall i :: 0 <= i < |results| ==> results[i].Passed() by { NoneFailed(results, failed); }
    again := [];
    for k := 0 to |registry|
      invariant forall n :: multiset(again)[n] == if FailedName(results, n) then multiset(registry[..k])[n] else 0
    {
      assert registry[..k + 1] == registry[..k] + [registry[k]];
      if registry[k] in failed { again := again + [registry[k]]; }
    }
    assert registry[..|registry|] == registry;
  }

  lemma FailedNames(results: seq<TestResult>, failed: set<Name>)
    requires failed == set r | r in results && r.Failed() :: r.name
    ensures forall n :: n in failed <==> FailedName(results, n)
  {
    forall n | FailedName(results, n) ensures n in failed {
      var i :| 0 <= i < |results| && results[i].name == n && results[i].Failed();
      assert results[i] in results;
    }
  }

  lemma NoneFailed(results: seq<TestResult>, failed: set<Name>)
    requires failed == set r | r in results && r.Failed() :: r.name
    ensures failed == {} <==> forall i :: 0 <= i < |results| ==> results[i].Passed()
  {
    forall i | 0 <= i < |results| && results[i].Failed() ensures results[i].name in failed {
      assert results[i] in results;
    }
  }

  /** With distinct names, all registered, exactly the failed tests run again, once each. */
  lemma FailedOnce(registry: seq<Name>, results: seq<TestResult>, again: seq<Name>)
    requires Distinct(registry) && DistinctResults(results)
    requires forall i :: 0 <= i < |results| ==> results[i].name in registry
    requires forall n :: multiset(again)[n] == if FailedName(results, n) then multiset(registry)[n] else 0
    ensures forall i :: 0 <= i < |results| ==> multiset(again)[results[i].name] == if results[i].Failed() then 1 else 0
  {
    forall i | 0 <= i < |results|
      ensures multiset(again)[results[i].name] == if results[i].Failed() then 1 else 0
    {
      OncePresent(registry, results[i].name);
      assert results[i].name in multiset(registry);
      if results[i].Failed() { assert FailedName(results, results[i].name); }
    }
  }

  /** The first run, one attempt a test. */
  method FirstResults(attempts: seq<Attempt>) returns (results: seq<TestResult>)
    ensures |results| == |attempts|
    ensures forall i :: 0 <= i < |attempts| ==> results[i] == TestResult(attempts[i].name, [attempts[i].passed])
  {
    results := [];
    for i := 0 to |attempts|
      invariant |results| == i
      invariant forall j :: 0 <= j < i ==> results[j] == TestResult(attempts[j].name, [attempts[j].passed])
    {
      results := results + [TestResult(attempts[i].name, [attempts[i].passed])];
    }
  }

  lemma {:induction false} NamesOf(attempts: seq<Attempt>, results: seq<TestResult>)
    requires |results| == |attempts| && forall i :: 0 <= i < |attempts| ==> results[i].name == attempts[i].name
    ensures multiset(ResultNames(results)) == Names(attempts)
  {
    if |attempts| == 0 {
      assert ResultNames(results) == [];
    } else {
      var n := |attempts| - 1;
      NamesOf(attempts[..n], results[..n]);
      assert ResultNames(results) == ResultNames(results[..n]) + [results[n].name];
    }
  }

  lemma DistinctFromTests(results: seq<TestResult>, tests: seq<Name>)
    requires Distinct(tests) && multiset(ResultNames(results)) == multiset(tests)
    ensures DistinctResults(results) && forall i :: 0 <= i < |results| ==> results[i].name in tests
  {
    var names := ResultNames(results);
    forall i | 0 <= i < |results| ensures results[i].name in tests { assert names[i] in multiset(tests); }
    forall i, j | 0 <= i < j < |results| ensures results[i].name != results[j].name {
      OncePresent(tests, names[i]);
      if names[i] == names[j] { TwicePresent(names, i, j); }
    }
  }

  lemma FirstRound(attempts: seq<Attempt>, results: seq<TestResult>)
    requires |results| == |attempts|
    requires forall i :: 0 <= i < |attempts| ==> results[i] == TestResult(attempts[i].name, [attempts[i].passed])
    ensures forall i :: 0 <= i < |results| ==> Tried(results[i], 1)
  {
  }

  lemma NextRound(before: seq<TestResult>, after: seq<TestResult>, more: seq<Attempt>, again: seq<Name>, round: nat)
    requires |after| == |before| && DistinctResults(before)
    requires forall i :: 0 <= i < |before| ==>
               after[i] == if IsFirst(before, i) then Extended(before[i], more) else before[i]
    requires Names(more) == multiset(again)
    requires forall i :: 0 <= i < |before| ==> Tried(before[i], round)
    requires forall i :: 0 <= i < |before| ==> multiset(again)[before[i].name] == if before[i].Failed() then 1 else 0
    ensures forall i :: 0 <= i < |after| ==> Tried(after[i], round + 1)
  {
    hide Names, Reports, Tried;
    forall i | 0 <= i < |after| ensures Tried(after[i], round + 1) {
      assert IsFirst(before, i);
      ReportsCount(more, before[i].name);
      TriedAgain(before[i], Reports(more, before[i].name), round);
    }
  }

  /** One more round for a single test. */
  lemma TriedAgain(r: TestResult, reports: seq<bool>, round: nat)
    requires Tried(r, round) && |reports| == if r.Failed() then 1 else 0
    ensures Tried(r.(attempts := r.attempts + reports), round + 1)
  {
    if r.Passed() { assert r.attempts + reports == r.attempts; }
  }

  lemma LastRound(results: seq<TestResult>, round: nat, last: nat)
    requires round <= last && forall i :: 0 <= i < |results| ==> Tried(results[i], round) && results[i].Passed()
    ensures forall i :: 0 <= i < |results| ==> Tried(results[i], last)
  {
  }

  lemma SameNames(before: seq<TestResult>, after: seq<TestResult>, more: seq<Attempt>)
    requires |after| == |before| && forall i :: 0 <= i < |before| ==> |before[i].attempts| > 0
    requires forall i :: 0 <= i < |before| ==>
               after[i] == if IsFirst(before, i) then Extended(before[i], more) else before[i]
    ensures ResultNames(after) == ResultNames(before)
    ensures forall i :: 0 <= i < |after| ==> |after[i].attempts| > 0
  {
    hide Reports, IsFirst;
  }

  /** The tests are registered, and no name is used twice. */
  ghost predicate Regular(registry: seq<Name>, tests: seq<Name>) {
    Distinct(registry) && Distinct(tests) && forall i :: 0 <= i < |tests| ==> tests[i] in registry
  }

  lemma RetryRound(registry: seq<Name>, tests: seq<Name>, before: seq<TestResult>, again: seq<Name>, more: seq<Attempt>,
                   after: seq<TestResult>, round: nat)
    requires Regular(registry, tests) && multiset(ResultNames(before)) == multiset(tests)
    requires forall n :: multiset(again)[n] == if FailedName(before, n) then multiset(registry)[n] else 0
    requires forall i :: 0 <= i < |before| ==> Tried(before[i], round)
    requires Names(more) == multiset(again) && |after| == |before|
    requires forall i :: 0 <= i < |before| ==>
               after[i] == if IsFirst(before, i) then Extended(before[i], more) else before[i]
    ensures forall i :: 0 <= i < |after| ==> Tried(after[i], round + 1)
  {
    hide Names, ResultNames, Reports, Tried, Distinct, FailedName, IsFirst;
    DistinctFromTests(before, tests);
    RegisteredResults(registry, tests, before);
    FailedOnce(registry, before, again);
    NextRound(before, after, more, again, round);
  }

  lemma RegisteredResults(registry: seq<Name>, tests: seq<Name>, results: seq<TestResult>)
    requires Regular(registry, tests) && forall i :: 0 <= i < |results| ==> results[i].name in tests
    ensures forall i :: 0 <= i < |results| ==> results[i].name in registry
  {
    forall i | 0 <= i < |results| ensures results[i].name in registry {
      var j :| 0 <= j < |tests| && tests[j] == results[i].name;
      assert tests[j] in registry;
    }
  }

  // What the results report

  /** What a subprocess of round `round` said about the test. */
  ghost predicate SaidIn(outcome: (nat, nat, Name) -> bool, round: nat, name: Name, passed: bool) {
    exists k: nat :: passed == outcome(round, k, name)
  }

  function InRound(outcome: (nat, nat, Name) -> bool, round: nat): (nat, Name) -> bool {
    (k: nat, name: Name) => outcome(round, k, name)
  }

  /** Every attempt is what a subprocess of some round said. */
  ghost predicate Heard(outcome: (nat, nat, Name) -> bool, r: TestResult) {
    forall j :: 0 <= j < |r.attempts| ==> SaidSometime(outcome, r.name, r.attempts[j])
  }

  ghost predicate SaidSometime(outcome: (nat, nat, Name) -> bool, name: Name, passed: bool) {
    exists round: nat :: SaidIn(outcome, round, name, passed)
  }

  /** Attempt `j` is what the subprocess of round `j` said. */
  ghost predicate HeardInOrder(outcome: (nat, nat, Name) -> bool, r: TestResult) {
    forall j :: 0 <= j < |r.attempts| ==> SaidIn(outcome, j, r.name, r.attempts[j])
  }

  lemma {:induction false} ReportsSaid(outcome: (nat, nat, Name) -> bool, round: nat, attempts: seq<Attempt>,
                                       name: Name)
    requires forall a :: a in attempts ==> Said(InRound(outcome, round), a)
    ensures forall passed :: passed in Reports(attempts, name) ==> SaidIn(outcome, round, name, passed)
  {
    if |attempts| > 0 {
      var last := attempts[|attempts| - 1];
      ReportsSaid(outcome, round, attempts[..|attempts| - 1], name);
      assert Said(InRound(outcome, round), last);
    }
  }

  lemma FirstHeard(outcome: (nat, nat, Name) -> bool, attempts: seq<Attempt>, results: seq<TestResult>)
    requires forall a :: a in attempts ==> Said(InRound(outcome, 0), a)
    requires |results| == |attempts|
    requires forall i :: 0 <= i < |attempts| ==> results[i] == TestResult(attempts[i].name, [attempts[i].passed])
    ensures forall i :: 0 <= i < |results| ==> Heard(outcome, results[i]) && HeardInOrder(outcome, results[i])
  {
    forall i | 0 <= i < |results| ensures Heard(outcome, results[i]) && HeardInOrder(outcome, results[i]) {
      assert Said(InRound(outcome, 0), attempts[i]);
      assert SaidIn(outcome, 0, results[i].name, results[i].attempts[0]);
    }
  }

  lemma HeardAgain(outcome: (nat, nat, Name) -> bool, r: TestResult, more: seq<Attempt>, round: nat)
    requires forall a :: a in more ==> Said(InRound(outcome, round), a)
    ensures Heard(outcome, r) ==> Heard(outcome, Extended(r, more))
    ensures HeardInOrder(outcome, r) && |Reports(more, r.name)| <= (if |r.attempts| == round then 1 else 0) ==>
              HeardInOrder(outcome, Extended(r, more))
  {
    hide SaidIn, Reports, Said;
    ReportsSaid(outcome, round, more, r.name);
    var reports := Reports(more, r.name);
    if Heard(outcome, r) {
      forall j | 0 <= j < |r.attempts + reports|
        ensures SaidSometime(outcome, r.name, (r.attempts + reports)[j])
      {
        if j < |r.attempts| {
          assert SaidSometime(outcome, r.name, r.attempts[j]);
        } else {
          assert SaidIn(outcome, round, r.name, reports[j - |r.attempts|]);
        }
      }
    }
  }

  ghost predicate AllHeard(outcome: (nat, nat, Name) -> bool, results: seq<TestResult>) {
    forall i :: 0 <= i < |results| ==> Heard(outcome, results[i])
  }

  ghost predicate AllHeardInOrder(outcome: (nat, nat, Name) -> bool, results: seq<TestResult>) {
    forall i :: 0 <= i < |results| ==> HeardInOrder(outcome, results[i])
  }

  lemma RoundHeard(outcome: (nat, nat, Name) -> bool, before: seq<TestResult>, after: seq<TestResult>,
                   more: seq<Attempt>, round: nat)
    requires forall a :: a in more ==> Said(InRound(outcome, round), a)
    requires |after| == |before| && AllHeard(outcome, before)
    requires forall i :: 0 <= i < |before| ==>
               after[i] == if IsFirst(before, i) then Extended(before[i], more) else before[i]
    ensures AllHeard(outcome, after)
  {
    hide Heard, Extended, IsFirst, Said;
    forall i | 0 <= i < |after| ensures Heard(outcome, after[i]) {
      HeardAgain(outcome, before[i], more, round);
    }
  }

  /** In a regular run a test is told of in round `round` exactly when it failed in all rounds before. */
  lemma RoundHeardInOrder(outcome: (nat, nat, Name) -> bool, registry: seq<Name>, tests: seq<Name>,
                          before: seq<TestResult>, again: seq<Name>, more: seq<Attempt>, after: seq<TestResult>,
                          round: nat)
    requires Regular(registry, tests) && multiset(ResultNames(before)) == multiset(tests)
    requires forall n :: multiset(again)[n] == if FailedName(before, n) then multiset(registry)[n] else 0
    requires forall i :: 0 <= i < |before| ==> Tried(before[i], round)
    requires Names(more) == multiset(again) && |after| == |before|
    requires forall a :: a in more ==> Said(InRound(outcome, round), a)
    requires forall i :: 0 <= i < |before| ==>
               after[i] == if IsFirst(before, i) then Extended(before[i], more) else before[i]
    requires AllHeardInOrder(outcome, before)
    ensures AllHeardInOrder(outcome, after)
  {
    hide Names, ResultNames, Reports, Distinct, FailedName, IsFirst, Said, HeardInOrder, Heard;
    DistinctFromTests(before, tests);
    RegisteredResults(registry, tests, before);
    FailedOnce(registry, before, again);
    forall i | 0 <= i < |after| ensures HeardInOrder(outcome, after[i]) {
      ReportsCount(more, before[i].name);
      HeardAgain(outcome, before[i], more, round);
    }
  }

  /** A test whose subprocess never passes fails in every round; one whose subprocess always passes is run once. */
  lemma SteadyOutcomes(outcome: (nat, nat, Name) -> bool, r: TestResult, rounds: nat)
    requires rounds > 0 && Tried(r, rounds) && HeardInOrder(outcome, r)
    ensures (forall round: nat, k: nat :: !outcome(round, k, r.name)) ==> r.Failed() && |r.attempts| == rounds
    ensures (forall round: nat, k: nat :: outcome(round, k, r.name)) ==> r.Passed() && |r.attempts| == 1
  {
    var n := |r.attempts|;
    assert SaidIn(outcome, 0, r.name, r.attempts[0]) && SaidIn(outcome, n - 1, r.name, r.attempts[n - 1]);
  }

  /** Runs the tests and retries failures.  Every test has one result with at least one attempt, and every attempt is
      what a subprocess said.  If no name is used twice and all are registered, a test has at most `retryCount + 1`
      attempts, all but the last failed, a test that failed in the end used all of them, and attempt `j` is what the
      subprocess of round `j` said. */
  method RunTestsWithRetries(registry: seq<Name>, tests: seq<Name>, jobs: nat, retryCount: nat,
                             pick: (nat, nat) -> nat, outcome: (nat, nat, Name) -> bool) returns (results: seq<TestResult>)
    ensures jobs == 0 ==> results == []
    ensures jobs > 0 ==> multiset(ResultNames(results)) == multiset(tests)
    ensures forall i :: 0 <= i < |results| ==> |results[i].attempts| > 0
    ensures AllHeard(outcome, results)
    ensures Regular(registry, tests) ==> AllHeardInOrder(outcome, results)
    ensures Regular(registry, tests) ==> forall i :: 0 <= i < |results| ==> Tried(results[i], retryCount + 1)
  {
    hide Names, ResultNames, Reports, Regular, DistinctResults, Tried, FailedName, IsFirst, AllHeard, AllHeardInOrder, Said,
      Reported, IsRun, Final;
    var attempts, _ := RunTestsParallel(tests, jobs, (k: nat) => pick(0, k), InRound(outcome, 0));
    results := FirstResults(attempts);
    FirstAllHeard(outcome, attempts, results);
    if jobs == 0 { return; }
    NamesOf(attempts, results);
    FirstRound(attempts, results);
    var retry := 1;
    while retry <= retryCount
      invariant 1 <= retry <= retryCount + 1
      invariant multiset(ResultNames(results)) == multiset(tests)
      invariant forall i :: 0 <= i < |results| ==> |results[i].attempts| > 0
      invariant AllHeard(outcome, results) && (Regular(registry, tests) ==> AllHeardInOrder(outcome, results))
      invariant Regular(registry, tests) ==> forall i :: 0 <= i < |results| ==> Tried(results[i], retry)
    {
      var again, none := FailedTests(registry, results);
      if none {
        if Regular(registry, tests) { LastRound(results, retry, retryCount + 1); }
        return;
      }
      var more, _ := RunTestsParallel(again, jobs, (k: nat) => pick(retry, k), InRound(outcome, retry));
      ghost var before := results;
      results := Record(results, more);
      SameNames(before, results, more);
      RoundHeard(outcome, before, results, more, retry);
      if Regular(registry, tests) {
        RoundHeardInOrder(outcome, registry, tests, before, again, more, results, retry);
        RetryRound(registry, tests, before, again, more, results, retry);
      }
      retry := retry + 1;
    }
  }

  lemma FirstAllHeard(outcome: (nat, nat, Name) -> bool, attempts: seq<Attempt>, results: seq<TestResult>)
    requires forall a :: a in attempts ==> Said(InRound(outcome, 0), a)
    requires |results| == |attempts|
    requires forall i :: 0 <= i < |attempts| ==> results[i] == TestResult(attempts[i].name, [attempts[i].passed])
    ensures AllHeard(outcome, results) && AllHeardInOrder(outcome, results)
  {
    hide Heard, HeardInOrder;
    FirstHeard(outcome, attempts, results);
  }
}
