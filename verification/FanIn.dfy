/** skiplist.go: one goroutine per job sends its log on an unbuffered channel, one receiver takes
    as many messages as goroutines were started and files the test results. */
module FanIn {
  import opened Outcomes

  /** A parsed line of a log, and what a job's goroutine sends. */
  datatype TestResult = TestResult(name: string, status: string)

  /** A job, with the results its log will parse to, whatever that log turns out to be. */
  datatype Job = Job(release: string, status: string, results: seq<TestResult>)

  // ---- The goroutines and the channel ----

  datatype Phase = Fetching | Sending | Done

  datatype Worker = Worker(job: Job, phase: Phase)

  /** The receiver starts goroutines for jobs[..pos], then receives; `arrivals` lists the jobs
      whose messages it took, in order. */
  datatype State = State(pos: nat, workers: seq<Worker>, arrivals: seq<Job>)

  datatype Step =
    | Start             // the receiver looks at the next job
    | Fetch(w: nat)     // a worker has its log, or an error text, and blocks on the send
    | Deliver(w: nat)   // a blocked sender and the receiver meet on the channel

  predicate Enabled(jobs: seq<Job>, s: State, step: Step) {
    match step
    case Start => s.pos < |jobs|
    case Fetch(w) => w < |s.workers| && s.workers[w].phase.Fetching?
    case Deliver(w) =>
      && s.pos == |jobs| && |s.arrivals| < |s.workers|
      && w < |s.workers| && s.workers[w].phase.Sending?
  }

  function Next(jobs: seq<Job>, s: State, step: Step): State
    requires Enabled(jobs, s, step)
  {
    match step
    case Start =>
      var job := jobs[s.pos];
      s.(pos := s.pos + 1, workers := if job.status == "SKIPPED" then s.workers
          else s.workers + [Worker(job, Fetching)])
    case Fetch(w) => s.(workers := s.workers[w := Worker(s.workers[w].job, Sending)])
    case Deliver(w) =>
      s.(workers := s.workers[w := Worker(s.workers[w].job, Done)], arrivals := s.arrivals + [s.workers[w].job])
  }

  /** The state after a schedule, if every step of it was enabled where it was taken. */
  function Run(jobs: seq<Job>, steps: seq<Step>): Option<State> {
    if steps == [] then Some(State(0, [], []))
    else
      match Run(jobs, steps[..|steps| - 1])
      case None => None
      case Some(s) => if Enabled(jobs, s, steps[|steps| - 1]) then Some(Next(jobs, s, steps[|steps| - 1])) else None
  }

  /** The receiver has started everything and has taken as many messages as it started. */
  predicate Finished(jobs: seq<Job>, s: State) {
    s.pos == |jobs| && |s.arrivals| == |s.workers|
  }

  function NotSkipped(jobs: seq<Job>): seq<Job> {
    if jobs == [] then []
    else
      var last := jobs[|jobs| - 1];
      NotSkipped(jobs[..|jobs| - 1]) + if last.status == "SKIPPED" then [] else [last]
  }

  function PendingOne(w: Worker): multiset<Job> {
    if w.phase.Done? then multiset{} else multiset{w.job}
  }

  /** The jobs whose workers have not sent yet. */
  function Pending(workers: seq<Worker>): multiset<Job> {
    if workers == [] then multiset{} else Pending(workers[..|workers| - 1]) + PendingOne(workers[|workers| - 1])
  }

  /** Every job looked at and not skipped has arrived or is pending, but not both. */
  ghost predicate Inv(jobs: seq<Job>, s: State) {
    && s.pos <= |jobs|
    && multiset(s.arrivals) + Pending(s.workers) == multiset(NotSkipped(jobs[..s.pos]))
    && |s.workers| == |NotSkipped(jobs[..s.pos])|
    && (s.pos < |jobs| ==> s.arrivals == [])
  }

  lemma UnionIsAssociative(a: multiset<Job>, b: multiset<Job>, c: multiset<Job>)
    ensures a + (b + c) == (a + b) + c
  {
  }

  lemma PendingLast(workers: seq<Worker>, last: Worker)
    ensures Pending(workers + [last]) == Pending(workers) + PendingOne(last)
  {
    assert (workers + [last])[..|workers|] == workers;
  }

  lemma {:induction false} PendingConcat(a: seq<Worker>, b: seq<Worker>)
    ensures Pending(a + b) == Pending(a) + Pending(b)
    decreases |b|
  {
    hide Pending, PendingOne;
    if b == [] {
      assert a + b == a;
      NoneStarted(b);
    } else {
      var init, last := b[..|b| - 1], b[|b| - 1];
      PendingConcat(a, init);
      assert a + b == (a + init) + [last];
      assert b == init + [last];
      PendingLast(a + init, last);
      PendingLast(init, last);
      UnionIsAssociative(Pending(a), Pending(init), PendingOne(last));
    }
  }

  lemma NoneStarted(workers: seq<Worker>)
    requires workers == []
    ensures Pending(workers) == multiset{}
  {
  }

  lemma PendingSplit(workers: seq<Worker>, w: nat)
    requires w < |workers|
    ensures Pending(workers) == Pending(workers[..w]) + PendingOne(workers[w]) + Pending(workers[w + 1..])
  {
    hide Pending, PendingOne;
    assert workers == (workers[..w] + [workers[w]]) + workers[w + 1..];
    PendingConcat(workers[..w] + [workers[w]], workers[w + 1..]);
    PendingLast(workers[..w], workers[w]);
  }

  /** A fetch leaves a worker pending, a delivery takes it off. */
  lemma PendingAfter(workers: seq<Worker>, w: nat, phase: Phase)
    requires w < |workers| && !workers[w].phase.Done?
    ensures var sent := if phase.Done? then multiset{workers[w].job} else multiset{};
            Pending(workers[w := Worker(workers[w].job, phase)]) + sent == Pending(workers)
  {
    hide Pending;
    var updated := workers[w := Worker(workers[w].job, phase)];
    assert updated[..w] == workers[..w] && updated[w + 1..] == workers[w + 1..];
    PendingSplit(workers, w);
    PendingSplit(updated, w);
  }

  lemma CountSplit(a: seq<Job>, p: multiset<Job>, all: seq<Job>)
    requires multiset(a) + p == multiset(all)
    ensures |a| + |p| == |all|
  {
    assert |multiset(a)| == |a| && |multiset(all)| == |all|;
    assert |multiset(a) + p| == |multiset(a)| + |p|;
  }

  lemma {:induction false} NonePending(workers: seq<Worker>)
    ensures Pending(workers) == multiset{} <==> forall w | 0 <= w < |workers| :: workers[w].phase.Done?
    decreases |workers|
  {
    if workers == [] {
    } else {
      var init, last := workers[..|workers| - 1], workers[|workers| - 1];
      NonePending(init);
      assert forall w | 0 <= w < |init| :: workers[w] == init[w];
      if !last.phase.Done? {
        assert last.job in Pending(workers);
      }
    }
  }

  lemma StepKeepsInv(jobs: seq<Job>, s: State, step: Step)
    requires Inv(jobs, s) && Enabled(jobs, s, step)
    ensures Inv(jobs, Next(jobs, s, step))
  {
    hide Pending, PendingOne, NotSkipped;
    match step
    case Start => StartKeepsInv(jobs, s);
    case Fetch(w) => PendingAfter(s.workers, w, Sending);
    case Deliver(w) =>
      PendingAfter(s.workers, w, Done);
      var job, now := multiset{s.workers[w].job}, Pending(Next(jobs, s, step).workers);
      assert multiset(s.arrivals + [s.workers[w].job]) == multiset(s.arrivals) + job;
      MoveOver(multiset(s.arrivals), now, job);
  }

  lemma MoveOver(a: multiset<Job>, b: multiset<Job>, c: multiset<Job>)
    ensures (a + c) + b == a + (b + c)
  {
  }

  lemma StartKeepsInv(jobs: seq<Job>, s: State)
    requires Inv(jobs, s) && Enabled(jobs, s, Start)
    ensures Inv(jobs, Next(jobs, s, Start))
  {
    hide Pending;
    var job := jobs[s.pos];
    assert jobs[..s.pos + 1][..s.pos] == jobs[..s.pos];
    if job.status == "SKIPPED" {
      assert NotSkipped(jobs[..s.pos + 1]) == NotSkipped(jobs[..s.pos]);
    } else {
      PendingLast(s.workers, Worker(job, Fetching));
      UnionIsAssociative(multiset(s.arrivals), Pending(s.workers), multiset{job});
      var before := NotSkipped(jobs[..s.pos]);
      assert NotSkipped(jobs[..s.pos + 1]) == before + [job];
      assert multiset(before + [job]) == multiset(before) + multiset{job};
    }
  }

  lemma {:induction false} ScheduleKeepsInv(jobs: seq<Job>, steps: seq<Step>)
    requires Run(jobs, steps).Some?
    ensures Inv(jobs, Run(jobs, steps).value)
    decreases |steps|
  {
    if steps == [] {
      assert jobs[..0] == [];
    } else {
      ScheduleKeepsInv(jobs, steps[..|steps| - 1]);
      StepKeepsInv(jobs, Run(jobs, steps[..|steps| - 1]).value, steps[|steps| - 1]);
    }
  }

  // ---- No deadlock, no blocked sender, termination ----

  /** In every reachable state that is not finished some step can be taken. */
  lemma NoDeadlock(jobs: seq<Job>, steps: seq<Step>)
    requires Run(jobs, steps).Some? && !Finished(jobs, Run(jobs, steps).value)
    ensures exists step :: Enabled(jobs, Run(jobs, steps).value, step)
  {
    ScheduleKeepsInv(jobs, steps);
    var s := Run(jobs, steps).value;
    if s.pos < |jobs| {
      assert Enabled(jobs, s, Start);
    } else {
      assert jobs[..s.pos] == jobs;
      NonePending(s.workers);
      CountSplit(s.arrivals, Pending(s.workers), NotSkipped(jobs));
      var w :| 0 <= w < |s.workers| && !s.workers[w].phase.Done?;
      assert Enabled(jobs, s, Fetch(w)) || Enabled(jobs, s, Deliver(w));
    }
  }

  /** In a finished state every worker has sent its message: none is left blocked, and nothing
      can happen any more. */
  lemma FinishedMeansAllSent(jobs: seq<Job>, steps: seq<Step>)
    requires Run(jobs, steps).Some? && Finished(jobs, Run(jobs, steps).value)
    ensures var s := Run(jobs, steps).value;
            && (forall w | 0 <= w < |s.workers| :: s.workers[w].phase.Done?)
            && (forall step :: !Enabled(jobs, s, step))
            && |s.arrivals| == |NotSkipped(jobs)|
  {
    ScheduleKeepsInv(jobs, steps);
    var s := Run(jobs, steps).value;
    assert jobs[..s.pos] == jobs;
    CountSplit(s.arrivals, Pending(s.workers), NotSkipped(jobs));
    NonePending(s.workers);
  }

  function Work(workers: seq<Worker>): nat {
    if workers == [] then 0
    else
      var phase := workers[|workers| - 1].phase;
      Work(workers[..|workers| - 1]) + match phase case Fetching => 2 case Sending => 1 case Done => 0
  }

  lemma {:induction false} WorkAfterUpdate(workers: seq<Worker>, w: nat, worker: Worker)
    requires w < |workers|
    requires (workers[w].phase.Fetching? && worker.phase.Sending?) || (workers[w].phase.Sending? && worker.phase.Done?)
    ensures Work(workers[w := worker]) == Work(workers) - 1
    decreases |workers|
  {
    var n := |workers| - 1;
    if w < n {
      WorkAfterUpdate(workers[..n], w, worker);
      assert workers[w := worker][..n] == workers[..n][w := worker];
    } else {
      assert workers[w := worker][..n] == workers[..n];
    }
  }

  /** Every schedule stops: a step uses up at least one unit of the work left. */
  lemma {:induction false} SchedulesAreBounded(jobs: seq<Job>, steps: seq<Step>)
    requires Run(jobs, steps).Some?
    ensures var s := Run(jobs, steps).value;
            s.pos <= |jobs| && |steps| + 3 * (|jobs| - s.pos) + Work(s.workers) <= 3 * |jobs|
    decreases |steps|
  {
    if steps == [] {
    } else {
      var init, step := steps[..|steps| - 1], steps[|steps| - 1];
      SchedulesAreBounded(jobs, init);
      var s := Run(jobs, init).value;
      match step
      case Start =>
        if jobs[s.pos].status != "SKIPPED" {
          assert (s.workers + [Worker(jobs[s.pos], Fetching)])[..|s.workers|] == s.workers;
        }
      case Fetch(w) => WorkAfterUpdate(s.workers, w, Worker(s.workers[w].job, Sending));
      case Deliver(w) => WorkAfterUpdate(s.workers, w, Worker(s.workers[w].job, Done));
    }
  }

  // ---- Filing the results ----

  type Tests = map<string, map<string, seq<int>>>

  function Filed(tests: Tests, release: string, name: string): seq<int> {
    if release in tests && name in tests[release] then tests[release][name] else []
  }

  function Mark(result: TestResult): int {
    if result.status == "FAILED" then 0 else 1
  }

  /** One result filed under its release and test. */
  function FileOne(tests: Tests, release: string, result: TestResult): Tests {
    var named := if release in tests then tests[release] else map[];
    tests[release := named[result.name := Filed(tests, release, result.name) + [Mark(result)]]]
  }

  function FileAll(tests: Tests, release: string, results: seq<TestResult>): Tests
    decreases |results|
  {
    if results == [] then tests
    else FileOne(FileAll(tests, release, results[..|results| - 1]), release, results[|results| - 1])
  }

  /** The marks that some results contribute to one test. */
  function MarksOf(results: seq<TestResult>, name: string): seq<int>
    decreases |results|
  {
    if results == [] then []
    else
      var last := results[|results| - 1];
      MarksOf(results[..|results| - 1], name) + if last.name == name then [Mark(last)] else []
  }

  lemma {:induction false} FilingAppendsMarks(tests: Tests, job: Job, results: seq<TestResult>, release: string,
                                              name: string)
    ensures Filed(FileAll(tests, job.release, results), release, name) ==
            Filed(tests, release, name) + if job.release == release then MarksOf(results, name) else []
    decreases |results|
  {
    if results == [] {
    } else {
      FilingAppendsMarks(tests, job, results[..|results| - 1], release, name);
    }
  }

  class Collector {
    var tests: Tests

    constructor ()
      ensures tests == map[]
    {
      tests := map[];
    }

    /** The body of the receive loop: file every result of one message. */
    method Receive(release: string, results: seq<TestResult>)
      modifies this
      ensures tests == FileAll(old(tests), release, results)
    {
      for n := 0 to |results|
        invariant tests == FileAll(old(tests), release, results[..n])
      {
        assert results[..n + 1][..n] == results[..n];
        FileOneInSteps(tests, release, results[n]);
        var testname, testresult := results[n].name, results[n].status;
        if release !in tests {
          tests := tests[release := map[]];
        }
        if testname !in tests[release] {
          tests := tests[release := tests[release][testname := []]];
        }
        var result := tests[release][testname];
        if testresult == "FAILED" {
          result := result + [0];
        } else {
          result := result + [1];
        }
        tests := tests[release := tests[release][testname := result]];
      }
      assert results[..|results|] == results;
    }

    /** The receive loop of `collectData`, over the messages in the order they arrive. */
    method CollectData(arrivals: seq<Job>)
      requires tests == map[]
      modifies this
      ensures tests == Collected(arrivals)
    {
      for i := 0 to |arrivals|
        invariant tests == Collected(arrivals[..i])
      {
        assert arrivals[..i + 1][..i] == arrivals[..i];
        Receive(arrivals[i].release, arrivals[i].results);
      }
      assert arrivals[..|arrivals|] == arrivals;
    }
  }

  /** Making the two dictionaries' entries first and appending then is filing the result. */
  lemma FileOneInSteps(tests: Tests, release: string, result: TestResult)
    ensures var known := if release in tests then tests else tests[release := map[]];
            var listed := if result.name in known[release] then known
                          else known[release := known[release][result.name := []]];
            listed[release := listed[release][result.name := listed[release][result.name] + [Mark(result)]]]
            == FileOne(tests, release, result)
  {
    var known := if release in tests then tests else tests[release := map[]];
    var listed := if result.name in known[release] then known
                  else known[release := known[release][result.name := []]];
    var marks := listed[release][result.name] + [Mark(result)];
    assert marks == Filed(tests, release, result.name) + [Mark(result)];
    var named := if release in tests then tests[release] else map[];
    assert listed[release][result.name := marks] == named[result.name := marks];
  }

  /** The tests after receiving the messages of these jobs, in order. */
  function Collected(jobs: seq<Job>): Tests {
    if jobs == [] then map[]
    else FileAll(Collected(jobs[..|jobs| - 1]), jobs[|jobs| - 1].release, jobs[|jobs| - 1].results)
  }

  predicate AreBits(s: seq<int>) {
    forall i | 0 <= i < |s| :: s[i] == 0 || s[i] == 1
  }

  function Sum(s: seq<int>): int {
    if s == [] then 0 else Sum(s[..|s| - 1]) + s[|s| - 1]
  }

  lemma {:induction false} SumConcat(a: seq<int>, b: seq<int>)
    ensures Sum(a + b) == Sum(a) + Sum(b) && Zeros(a + b) == Zeros(a) + Zeros(b)
    decreases |b|
  {
    if b == [] {
      assert a + b == a;
    } else {
      SumConcat(a, b[..|b| - 1]);
      assert (a + b)[..|a + b| - 1] == a + b[..|b| - 1];
    }
  }

  /** How many results of a test have failed, or have not, among some results. */
  function CountOf(results: seq<TestResult>, name: string, failed: bool): nat
    decreases |results|
  {
    if results == [] then 0
    else
      var last := results[|results| - 1];
      CountOf(results[..|results| - 1], name, failed)
      + if last.name == name && (last.status == "FAILED" <==> failed) then 1 else 0
  }

  /** The same in the logs of a release's jobs. */
  function Counted(jobs: seq<Job>, release: string, name: string, failed: bool): nat {
    if jobs == [] then 0
    else
      var last := jobs[|jobs| - 1];
      Counted(jobs[..|jobs| - 1], release, name, failed)
      + if last.release == release then CountOf(last.results, name, failed) else 0
  }

  /** The same without the jobs that were skipped. */
  function CountedUnskipped(jobs: seq<Job>, release: string, name: string, failed: bool): nat {
    if jobs == [] then 0
    else
      var last := jobs[|jobs| - 1];
      CountedUnskipped(jobs[..|jobs| - 1], release, name, failed)
      + if last.release == release && last.status != "SKIPPED" then CountOf(last.results, name, failed) else 0
  }

  lemma {:induction false} SkippedDoNotCount(jobs: seq<Job>, release: string, name: string, failed: bool)
    ensures Counted(NotSkipped(jobs), release, name, failed) == CountedUnskipped(jobs, release, name, failed)
    decreases |jobs|
  {
    if jobs == [] {
    } else {
      var init, last := jobs[..|jobs| - 1], jobs[|jobs| - 1];
      SkippedDoNotCount(init, release, name, failed);
      assert (NotSkipped(init) + [last])[..|NotSkipped(init)|] == NotSkipped(init);
      assert NotSkipped(init) + [] == NotSkipped(init);
    }
  }

  /** Exactly the jobs whose status is not SKIPPED are kept, each as often as it occurs. */
  lemma {:induction false} NotSkippedAre(jobs: seq<Job>, job: Job)
    ensures multiset(NotSkipped(jobs))[job] == if job.status == "SKIPPED" then 0 else multiset(jobs)[job]
    decreases |jobs|
  {
    if jobs == [] {
    } else {
      var init, last := jobs[..|jobs| - 1], jobs[|jobs| - 1];
      NotSkippedAre(init, job);
      assert jobs == init + [last];
      assert NotSkipped(init) + [] == NotSkipped(init);
      OneMoreJob(init, last, job);
      OneMoreJob(NotSkipped(init), last, job);
    }
  }

  lemma OneMoreJob(jobs: seq<Job>, last: Job, job: Job)
    ensures multiset(jobs + [last])[job] == multiset(jobs)[job] + if job == last then 1 else 0
  {
    assert multiset(jobs + [last]) == multiset(jobs) + multiset{last};
  }

  /** Some marks are filed for these many failures, as 0, and these many other results, as 1. */
  ghost predicate Tallies(marks: seq<int>, failures: nat, others: nat) {
    AreBits(marks) && Zeros(marks) == failures && Sum(marks) == others && |marks| == failures + others
  }

  lemma {:induction false} MarksTally(results: seq<TestResult>, name: string)
    ensures Tallies(MarksOf(results, name), CountOf(results, name, true), CountOf(results, name, false))
    decreases |results|
  {
    if results == [] {
    } else {
      var init, mark := results[..|results| - 1], Mark(results[|results| - 1]);
      MarksTally(init, name);
      var before := MarksOf(init, name);
      assert (before + [mark])[..|before|] == before && before + [] == before;
    }
  }

  lemma TallyBoth(a: seq<int>, b: seq<int>, f: nat, o: nat, f': nat, o': nat)
    requires Tallies(a, f, o) && Tallies(b, f', o')
    ensures Tallies(a + b, f + f', o + o')
  {
    SumConcat(a, b);
  }

  /** What is filed for a test of a release after receiving some messages: a 0 for each of its results
      with status FAILED in the logs of that release, and a 1 for each of the others. */
  lemma {:induction false} CollectedTotals(jobs: seq<Job>, release: string, name: string)
    ensures Tallies(Filed(Collected(jobs), release, name), Counted(jobs, release, name, true),
                    Counted(jobs, release, name, false))
    decreases |jobs|
  {
    if jobs == [] {
    } else {
      hide Tallies, MarksOf, FileAll;
      var init, last := jobs[..|jobs| - 1], jobs[|jobs| - 1];
      CollectedTotals(init, release, name);
      FilingAppendsMarks(Collected(init), last, last.results, release, name);
      var before := Filed(Collected(init), release, name);
      if last.release == release {
        MarksTally(last.results, name);
        TallyBoth(before, MarksOf(last.results, name), Counted(init, release, name, true),
                  Counted(init, release, name, false), CountOf(last.results, name, true),
                  CountOf(last.results, name, false));
      } else {
        assert before + [] == before;
      }
    }
  }

  /** A failed result is filed as 0, and any other as 1. */
  lemma FailureIsZero()
    ensures Filed(Collected([Job("master", "SUCCESS", [TestResult("test", "FAILED")])]), "master", "test") == [0]
    ensures Filed(Collected([Job("master", "FAILURE", [TestResult("test", "PASSED")])]), "master", "test") == [1]
  {
    OneResult("master", "SUCCESS", "test", "FAILED");
    OneResult("master", "FAILURE", "test", "PASSED");
    assert |"FAILED"| == 6 && "FAILED"[0] != "PASSED"[0];
  }

  lemma OneResult(release: string, status: string, name: string, result: string)
    ensures Filed(Collected([Job(release, status, [TestResult(name, result)])]), release, name) ==
            if result == "FAILED" then [0] else [1]
  {
    var results := [TestResult(name, result)];
    var jobs := [Job(release, status, results)];
    assert jobs[..0] == [] && results[..0] == [];
    assert FileAll(map[], release, results) == FileOne(FileAll(map[], release, []), release, results[0]);
    assert Collected(jobs) == FileAll(Collected([]), release, results);
  }

  /** Totals do not depend on the order of the jobs. */
  lemma {:induction false} TotalsIgnoreOrder(a: seq<Job>, b: seq<Job>, release: string, name: string,
                                           failed: bool)
    requires multiset(a) == multiset(b)
    ensures Counted(a, release, name, failed) == Counted(b, release, name, failed)
    decreases |a|
  {
    hide Counted;
    if a == [] {
      assert |multiset(b)| == 0;
      assert b == a;
    } else {
      var init, last := a[..|a| - 1], a[|a| - 1];
      var k := Partner(a, b);
      var before, after := b[..k], b[k + 1..];
      TotalsIgnoreOrder(init, before + after, release, name, failed);
      assert a == init + [last] && b == before + [last] + after;
      TotalsConcat(init, [last], release, name, failed);
      TotalsConcat(before, after, release, name, failed);
      TotalsConcat(before, [last], release, name, failed);
      TotalsConcat(before + [last], after, release, name, failed);
    }
  }

  /** The last element of one list in the other, and what is left when both are taken out. */
  lemma Partner(a: seq<Job>, b: seq<Job>) returns (k: nat)
    requires multiset(a) == multiset(b) && a != []
    ensures k < |b| && b[k] == a[|a| - 1]
    ensures multiset(b[..k] + b[k + 1..]) == multiset(a[..|a| - 1])
  {
    var init, last := a[..|a| - 1], a[|a| - 1];
    assert a == init + [last];
    assert last in multiset(a) && last in multiset(b);
    k :| 0 <= k < |b| && b[k] == last;
    TakeOut(b, k);
    assert multiset(init) == multiset(a) - multiset{last};
  }

  lemma TakeOut(b: seq<Job>, k: nat)
    requires k < |b|
    ensures b == b[..k] + [b[k]] + b[k + 1..]
    ensures multiset(b[..k] + b[k + 1..]) == multiset(b) - multiset{b[k]}
  {
    assert b == b[..k] + [b[k]] + b[k + 1..];
  }

  lemma {:induction false} TotalsConcat(a: seq<Job>, b: seq<Job>, release: string, name: string, failed: bool)
    ensures Counted(a + b, release, name, failed) ==
            Counted(a, release, name, failed) + Counted(b, release, name, failed)
    decreases |b|
  {
    if b == [] {
      assert a + b == a;
    } else {
      TotalsConcat(a, b[..|b| - 1], release, name, failed);
      assert (a + b)[..|a + b| - 1] == a + b[..|b| - 1];
    }
  }

  // ---- Every schedule collects the same totals ----

  /** Whatever the schedule, the receiver ends with one message per job that was not skipped, and for
      every test of every release with a 0 for each of its results with status FAILED in these jobs'
      logs, and a 1 for each of the others. */
  lemma TotalsAreScheduleIndependent(jobs: seq<Job>, steps: seq<Step>, release: string, name: string)
    requires Run(jobs, steps).Some? && Finished(jobs, Run(jobs, steps).value)
    ensures var arrivals := Run(jobs, steps).value.arrivals;
            && multiset(arrivals) == multiset(NotSkipped(jobs))
            && Tallies(Filed(Collected(arrivals), release, name), CountedUnskipped(jobs, release, name, true),
                       CountedUnskipped(jobs, release, name, false))
  {
    hide Tallies, Counted, NotSkipped, CountedUnskipped, Collected, Filed;
    ScheduleKeepsInv(jobs, steps);
    var s := Run(jobs, steps).value;
    assert jobs[..s.pos] == jobs;
    CountSplit(s.arrivals, Pending(s.workers), NotSkipped(jobs));
    TotalsIgnoreOrder(s.arrivals, NotSkipped(jobs), release, name, true);
    TotalsIgnoreOrder(s.arrivals, NotSkipped(jobs), release, name, false);
    SkippedDoNotCount(jobs, release, name, true);
    SkippedDoNotCount(jobs, release, name, false);
    CollectedTotals(s.arrivals, release, name);
  }

  // ---- Summing up ----

  const LIMIT := 10

  /** The newest entries of a list, at most as many as the limit. */
  function LastTen(results: seq<int>): seq<int> {
    if |results| <= LIMIT then results else results[|results| - LIMIT..]
  }

  /** They are the end of the list, ten of it or all. */
  lemma LastTenAre(s: seq<int>)
    ensures exists k: nat :: k <= |s| && LastTen(s) == s[k..] && |LastTen(s)| == if |s| < 10 then |s| else 10
  {
    var k := if |s| <= LIMIT then 0 else |s| - LIMIT;
    assert LastTen(s) == s[k..];
  }

  function Zeros(s: seq<int>): nat {
    if s == [] then 0 else Zeros(s[..|s| - 1]) + if s[|s| - 1] == 0 then 1 else 0
  }

  method Reverse(input: seq<int>) returns (output: seq<int>)
    ensures |output| == |input| && forall k | 0 <= k < |input| :: output[k] == input[|input| - 1 - k]
  {
    output := [];
    var i := |input| - 1;
    while i >= 0
      invariant -1 <= i < |input| && |output| == |input| - 1 - i
      invariant forall k | 0 <= k < |output| :: output[k] == input[|input| - 1 - k]
    {
      output := output + [input[i]];
      i := i - 1;
    }
  }

  /** `sum_results`, before its numbers are turned into text. */
  method SumResults(results: seq<int>) returns (passing: int, failing: int, lastPassing: int, lastFailing: int)
    ensures passing == Sum(results) && failing == |results| - passing
    ensures lastPassing == Sum(LastTen(results)) && lastFailing == Zeros(LastTen(results))
  {
    var sum := 0;
    passing, lastPassing, lastFailing := 0, 0, 0;
    var reversed := Reverse(results);
    assert results[|results|..] == [];
    for index := 0 to |reversed|
      invariant sum == index
      invariant passing == Sum(results[|results| - index..])
      invariant var n := if index < LIMIT then index else LIMIT;
                lastPassing == Sum(results[|results| - n..]) && lastFailing == Zeros(results[|results| - n..])
    {
      var value := reversed[index];
      var k := |results| - 1 - index;
      assert results[k..] == [value] + results[k + 1..];
      SumCons(value, results[k + 1..]);
      passing := passing + value;
      sum := sum + 1;
      if index < LIMIT {
        lastPassing := lastPassing + value;
        if value == 0 {
          lastFailing := lastFailing + 1;
        }
      }
    }
    assert results[0..] == results;
    failing := sum - passing;
  }

  lemma {:induction false} SumCons(x: int, s: seq<int>)
    ensures Sum([x] + s) == x + Sum(s)
    ensures Zeros([x] + s) == (if x == 0 then 1 else 0) + Zeros(s)
    decreases |s|
  {
    if s == [] {
      assert [x] + s == [x] && [x][..0] == [];
    } else {
      SumCons(x, s[..|s| - 1]);
      assert ([x] + s)[..|s|] == [x] + s[..|s| - 1];
    }
  }

  /** For the marks that are filed, failing counts the failures, and the last ten split into
      passing and failing. */
  lemma {:induction false} MarksSplit(s: seq<int>)
    requires AreBits(s)
    ensures Sum(s) + Zeros(s) == |s|
    decreases |s|
  {
    if s == [] {
    } else {
      MarksSplit(s[..|s| - 1]);
    }
  }

  lemma LastTenSplit(s: seq<int>)
    requires AreBits(s)
    ensures Sum(LastTen(s)) + Zeros(LastTen(s)) == if |s| < LIMIT then |s| else LIMIT
    ensures |s| - Sum(s) == Zeros(s)
  {
    MarksSplit(s);
    MarksSplit(LastTen(s));
  }
}
