/** ruck_rover.py: the dashboard's folding of DLRN job reports, and its own computation of the
    jobs a hash still needs, which must agree with the promoter's. */
module RuckRover {
  import opened Criteria

  datatype Report = Report(jobId: string, success: bool, timestamp: int)

  /** Periodic and pipeline jobs only. */
  predicate Eligible(jobId: string) {
    "periodic" <= jobId || "pipeline_" <= jobId
  }

  lemma EligibleStarts(jobId: string)
    ensures Eligible(jobId) <==> exists rest :: jobId == "periodic" + rest || jobId == "pipeline_" + rest
  {
    if "periodic" <= jobId {
      assert jobId == "periodic" + jobId[8..];
    } else if "pipeline_" <= jobId {
      assert jobId == "pipeline_" + jobId[9..];
    }
  }

  type Jobs = map<string, Report>

  // ---- Folding the reports ----

  /** One report: the first of its job is kept, and a newer one replaces it unless it is a
      failure after a success. */
  function FoldOne(jobs: Jobs, r: Report): Jobs {
    if !Eligible(r.jobId) then jobs
    else if r.jobId !in jobs then jobs[r.jobId := r]
    else if r.timestamp > jobs[r.jobId].timestamp && (r.success || !jobs[r.jobId].success) then jobs[r.jobId := r]
    else jobs
  }

  function Fold(jobs: Jobs, reports: seq<Report>): Jobs
    decreases |reports|
  {
    if reports == [] then jobs else Fold(FoldOne(jobs, reports[0]), reports[1..])
  }

  method GetDlrnResults(apiResponse: seq<Report>) returns (jobs: Jobs)
    ensures jobs == Fold(map[], apiResponse)
  {
    jobs := map[];
    for n := 0 to |apiResponse|
      invariant Fold(map[], apiResponse) == Fold(jobs, apiResponse[n..])
    {
      var job := apiResponse[n];
      if !Eligible(job.jobId) {
        continue;
      }
      if job.jobId !in jobs {
        jobs := jobs[job.jobId := job];
        continue;
      }
      var existingJob := jobs[job.jobId];
      if job.timestamp > existingJob.timestamp {
        if existingJob.success && !job.success {
          continue;
        }
        jobs := jobs[job.jobId := job];
      }
    }
  }

  /** What is kept for a job, given what was reported for it: a success is the newest success,
      a failure is the newest report of all. */
  ghost predicate KeptFor(jobs: Jobs, reports: seq<Report>, id: string) {
    && (id in jobs <==> Eligible(id) && exists r :: r in reports && r.jobId == id)
    && (id in jobs ==>
         && jobs[id] in reports && jobs[id].jobId == id
         && forall r | r in reports && r.jobId == id && (r.success || !jobs[id].success) ::
              r.timestamp <= jobs[id].timestamp)
  }

  lemma FoldOneKeeps(jobs: Jobs, done: seq<Report>, r: Report, id: string)
    requires KeptFor(jobs, done, id)
    ensures KeptFor(FoldOne(jobs, r), done + [r], id)
  {
    assert forall x :: x in done + [r] <==> x in done || x == r;
  }

  lemma {:induction false} FoldKeeps(jobs: Jobs, done: seq<Report>, reports: seq<Report>, id: string)
    requires KeptFor(jobs, done, id)
    ensures KeptFor(Fold(jobs, reports), done + reports, id)
    decreases |reports|
  {
    if reports == [] {
      assert done + reports == done;
    } else {
      FoldOneKeeps(jobs, done, reports[0], id);
      FoldKeeps(FoldOne(jobs, reports[0]), done + [reports[0]], reports[1..], id);
      assert done + [reports[0]] + reports[1..] == done + reports;
    }
  }

  /** Whatever the order of the reports: one of them is kept per eligible job; a kept success is
      the newest success, a kept failure the newest report. */
  lemma ResultsAreNewest(reports: seq<Report>, id: string)
    ensures KeptFor(Fold(map[], reports), reports, id)
  {
    FoldKeeps(map[], [], reports, id);
    assert [] + reports == reports;
  }

  // ---- When the verdict depends on the order ----

  /** No success, no failure, or a success newer than every failure. */
  ghost predicate Settled(reports: seq<Report>, id: string) {
    || (forall r | r in reports && r.jobId == id :: !r.success)
    || (forall r | r in reports && r.jobId == id :: r.success)
    || exists s :: s in reports && s.jobId == id && s.success && NewerThanFailures(s, reports)
  }

  predicate NewerThanFailures(s: Report, reports: seq<Report>) {
    forall f | f in reports && f.jobId == s.jobId && !f.success :: f.timestamp < s.timestamp
  }

  lemma {:induction false} SuccessStays(jobs: Jobs, reports: seq<Report>, id: string)
    requires id in jobs && jobs[id].success
    ensures id in Fold(jobs, reports) && Fold(jobs, reports)[id].success
    decreases |reports|
  {
    if reports == [] {
    } else {
      SuccessStays(FoldOne(jobs, reports[0]), reports[1..], id);
    }
  }

  lemma {:induction false} NewFailureStays(jobs: Jobs, reports: seq<Report>, id: string)
    requires id in jobs && !jobs[id].success
    requires forall r | r in reports && r.jobId == id && r.success :: r.timestamp <= jobs[id].timestamp
    ensures id in Fold(jobs, reports) && !Fold(jobs, reports)[id].success
    decreases |reports|
  {
    if reports == [] {
    } else {
      assert reports[0] in reports && forall r | r in reports[1..] :: r in reports;
      NewFailureStays(FoldOne(jobs, reports[0]), reports[1..], id);
    }
  }

  /** The newest failure of a job. */
  lemma {:induction false} NewestFailure(reports: seq<Report>, id: string) returns (f: Report)
    requires exists r :: r in reports && r.jobId == id && !r.success
    ensures f in reports && f.jobId == id && !f.success
    ensures forall r | r in reports && r.jobId == id && !r.success :: r.timestamp <= f.timestamp
    decreases |reports|
  {
    var first, rest := reports[0], reports[1..];
    assert reports == [first] + rest;
    assert forall r :: r in reports <==> r == first || r in rest;
    if exists r :: r in rest && r.jobId == id && !r.success {
      f := NewestFailure(rest, id);
      if first.jobId == id && !first.success && first.timestamp > f.timestamp {
        f := first;
      }
    } else {
      f := first;
    }
  }

  /** The same reports with one of them first. */
  lemma MoveToFront(reports: seq<Report>, r: Report) returns (rest: seq<Report>)
    requires r in reports
    ensures multiset([r] + rest) == multiset(reports)
    ensures forall x | x in rest :: x in reports
  {
    var k :| 0 <= k < |reports| && reports[k] == r;
    rest := reports[..k] + reports[k + 1..];
    assert reports == reports[..k] + [r] + reports[k + 1..];
  }

  /** Both orders of the reports give the job the same verdict. */
  predicate SameVerdict(reports: seq<Report>, other: seq<Report>, id: string) {
    && id in Fold(map[], reports) && id in Fold(map[], other)
    && Fold(map[], reports)[id].success == Fold(map[], other)[id].success
  }

  lemma SettledVerdict(reports: seq<Report>, other: seq<Report>, id: string)
    requires Eligible(id) && (exists r :: r in reports && r.jobId == id)
    requires Settled(reports, id) && multiset(other) == multiset(reports)
    ensures SameVerdict(reports, other, id)
  {
    forall x ensures x in reports <==> x in other {
      assert x in reports <==> x in multiset(reports);
      assert x in other <==> x in multiset(other);
    }
    ResultsAreNewest(reports, id);
    ResultsAreNewest(other, id);
  }

  lemma UnsettledVerdict(reports: seq<Report>, id: string) returns (a: seq<Report>, b: seq<Report>)
    requires Eligible(id) && !Settled(reports, id)
    ensures multiset(a) == multiset(reports) == multiset(b)
    ensures !SameVerdict(a, b, id)
  {
    var s :| s in reports && s.jobId == id && s.success;
    var f := NewestFailure(reports, id);
    forall r | r in reports && r.jobId == id && r.success ensures r.timestamp <= f.timestamp {
      assert !NewerThanFailures(r, reports);
    }
    var rest := MoveToFront(reports, s);
    SuccessStays(FoldOne(map[], s), rest, id);
    assert ([s] + rest)[1..] == rest;
    var rest' := MoveToFront(reports, f);
    NewFailureStays(FoldOne(map[], f), rest', id);
    assert ([f] + rest')[1..] == rest';
    a, b := [s] + rest, [f] + rest';
  }

  /** Whether a job counts as passed can depend on the order in which its reports are listed. It
      does not, for every order of these reports, if and only if they are settled. */
  lemma VerdictIsOrderIndependentIff(reports: seq<Report>, id: string)
    requires Eligible(id) && exists r :: r in reports && r.jobId == id
    ensures (forall other | multiset(other) == multiset(reports) :: SameVerdict(reports, other, id)) <==>
        Settled(reports, id)
  {
    if Settled(reports, id) {
      forall other | multiset(other) == multiset(reports) ensures SameVerdict(reports, other, id) {
        SettledVerdict(reports, other, id);
      }
    } else {
      var a, b := UnsettledVerdict(reports, id);
      assert !SameVerdict(reports, a, id) || !SameVerdict(reports, b, id);
    }
  }

  /** A success and a newer failure: listed in this order the job passed, in the other it failed. */
  lemma OrderDecides()
    ensures var success := Report("periodic-job", true, 1);
            var failure := Report("periodic-job", false, 2);
            !SameVerdict([success, failure], [failure, success], "periodic-job")
  {
    var success, failure := Report("periodic-job", true, 1), Report("periodic-job", false, 2);
    assert [success, failure][1..] == [failure] && [failure, success][1..] == [success];
    assert "periodic" <= "periodic-job";
    SuccessStays(FoldOne(map[], success), [failure], "periodic-job");
    NewFailureStays(FoldOne(map[], failure), [success], "periodic-job");
  }

  // ---- The criteria on the dashboard ----

  datatype Status = Passed | Failed | Pending

  datatype Row = Row(jobName: string, criteria: bool, altCriteria: seq<string>, status: Status)

  function StatusOf(dlrnJobs: Jobs, job: string): Status {
    if job !in dlrnJobs then Pending else if dlrnJobs[job].success then Passed else Failed
  }

  function RowOf(criteria: set<string>, alts: Alternatives, dlrnJobs: Jobs, job: string): Row {
    Row(job, job in criteria, AlternativesOf(alts, job), StatusOf(dlrnJobs, job))
  }

  /** A job's row: passed when its kept report is a success, failed when it is a failure, and pending
      when there is none. */
  predicate IsRowFor(r: Row, criteria: set<string>, alts: Alternatives, dlrnJobs: Jobs) {
    && (r.criteria <==> r.jobName in criteria)
    && r.altCriteria == AlternativesOf(alts, r.jobName)
    && (r.status.Passed? <==> r.jobName in dlrnJobs && dlrnJobs[r.jobName].success)
    && (r.status.Failed? <==> r.jobName in dlrnJobs && !dlrnJobs[r.jobName].success)
    && (r.status.Pending? <==> r.jobName !in dlrnJobs)
  }

  predicate HasRow(rows: seq<Row>, job: string) {
    exists r :: r in rows && r.jobName == job
  }

  lemma HasRowNext(rows: seq<Row>, row: Row)
    ensures forall job :: HasRow(rows + [row], job) <==> HasRow(rows, job) || job == row.jobName
  {
    forall job ensures HasRow(rows + [row], job) <==> HasRow(rows, job) || job == row.jobName {
      assert forall r :: r in rows + [row] <==> r in rows || r == row;
      assert row in rows + [row];
    }
  }

  /** Exactly one row for each job reported or required. */
  ghost predicate RowsFor(rows: seq<Row>, criteria: set<string>, alts: Alternatives, dlrnJobs: Jobs) {
    && (forall i, j | 0 <= i < j < |rows| :: rows[i].jobName != rows[j].jobName)
    && (forall r | r in rows :: IsRowFor(r, criteria, alts, dlrnJobs))
    && (forall job :: HasRow(rows, job) <==> job in dlrnJobs || job in criteria)
  }

  /** `prepare_jobs`, in any order of the jobs. */
  method PrepareJobs(jobsInCriteria: set<string>, jobsInAltCriteria: Alternatives, dlrnJobs: Jobs)
    returns (rows: seq<Row>)
    ensures RowsFor(rows, jobsInCriteria, jobsInAltCriteria, dlrnJobs)
  {
    var allJobs := dlrnJobs.Keys + jobsInCriteria;
    var left := allJobs;
    rows := [];
    while left != {}
      invariant left <= allJobs
      invariant forall i, j | 0 <= i < j < |rows| :: rows[i].jobName != rows[j].jobName
      invariant forall r | r in rows :: IsRowFor(r, jobsInCriteria, jobsInAltCriteria, dlrnJobs)
      invariant forall job :: HasRow(rows, job) <==> job in allJobs && job !in left
    {
      var jobName :| jobName in left;
      left := left - {jobName};
      var row := RowOf(jobsInCriteria, jobsInAltCriteria, dlrnJobs, jobName);
      forall i | 0 <= i < |rows| ensures rows[i].jobName != jobName {
        assert rows[i] in rows && HasRow(rows, rows[i].jobName);
      }
      HasRowNext(rows, row);
      rows := rows + [row];
    }
  }

  function NamesWith(rows: seq<Row>, status: Status): set<string> {
    set r | r in rows && r.status == status :: r.jobName
  }

  /** The jobs passed according to the folded reports. */
  function PassedJobs(dlrnJobs: Jobs): set<string> {
    set j | j in dlrnJobs && dlrnJobs[j].success
  }

  datatype Colour = Red | Yellow | Green

  /** The set logic of `render_tables`: the jobs left to promote, and the status colour. */
  method ToPromote(rows: seq<Row>) returns (toPromote: set<string>, colour: Colour)
    requires forall i, j | 0 <= i < j < |rows| :: rows[i].jobName != rows[j].jobName
    ensures toPromote == set r | r in rows && r.criteria && r.jobName !in NamesWith(rows, Passed)
                                 && (forall a | a in r.altCriteria :: a !in NamesWith(rows, Passed)) :: r.jobName
    ensures colour == if NamesWith(rows, Failed) != {} then Red else if toPromote == {} then Green else Yellow
  {
    var passed, failed := NamesWith(rows, Passed), NamesWith(rows, Failed);
    var inCriteria := set r | r in rows && r.criteria :: r.jobName;
    toPromote := inCriteria - passed;
    var left := toPromote;
    ghost var all := toPromote;
    while left != {}
      invariant left <= all
      invariant toPromote == set j | j in all && (j in left || NonePassed(rows, j, passed))
    {
      var jobToPromote :| jobToPromote in left;
      left := left - {jobToPromote};
      var altCriteria := CriteriaOf(rows, jobToPromote);
      if exists a | a in altCriteria :: a in passed {
        toPromote := toPromote - {jobToPromote};
      }
    }
    forall r | r in rows && r.criteria
      ensures NonePassed(rows, r.jobName, passed) <==> forall a | a in r.altCriteria :: a !in passed
    {
      OneRow(rows, r);
    }
    colour := if failed != {} then Red else if toPromote == {} then Green else Yellow;
  }

  /** `in_criteria_dict[job]`. */
  function CriteriaOf(rows: seq<Row>, job: string): seq<string> {
    if rows == [] then []
    else if rows[0].criteria && rows[0].jobName == job then rows[0].altCriteria
    else CriteriaOf(rows[1..], job)
  }

  predicate NonePassed(rows: seq<Row>, job: string, passed: set<string>) {
    forall a | a in CriteriaOf(rows, job) :: a !in passed
  }

  lemma {:induction false} OneRow(rows: seq<Row>, r: Row)
    requires forall i, j | 0 <= i < j < |rows| :: rows[i].jobName != rows[j].jobName
    requires r in rows && r.criteria
    ensures CriteriaOf(rows, r.jobName) == r.altCriteria
    decreases |rows|
  {
    if rows[0] != r {
      var k :| 0 <= k < |rows| && rows[k] == r;
      assert rows[0].jobName != rows[k].jobName;
      assert rows[1..][k - 1] == r;
      OneRow(rows[1..], r);
    }
  }

  /** The two implementations agree: for the same criteria, alternatives and passed jobs, the jobs
      the dashboard lists as left to promote are the jobs the promoter finds missing after its
      substitutions, and both are the required jobs that neither passed nor have a passed
      alternative. */
  lemma DashboardAgreesWithPromoter(rows: seq<Row>, criteria: set<string>, alts: Alternatives, dlrnJobs: Jobs,
                                    toPromote: set<string>)
    requires RowsFor(rows, criteria, alts, dlrnJobs)
    requires toPromote == set r | r in rows && r.criteria && r.jobName !in NamesWith(rows, Passed)
                                  && (forall a | a in r.altCriteria :: a !in NamesWith(rows, Passed)) :: r.jobName
    ensures toPromote == MissingJobs(criteria, alts, PassedJobs(dlrnJobs))
    ensures toPromote == Substitute(criteria, alts, PassedJobs(dlrnJobs)) - PassedJobs(dlrnJobs)
  {
    var passed := PassedJobs(dlrnJobs);
    forall j ensures j in NamesWith(rows, Passed) <==> j in passed {
      if j in passed {
        assert HasRow(rows, j);
        var r :| r in rows && r.jobName == j;
      }
    }
    assert NamesWith(rows, Passed) == passed;
    forall j | j in MissingJobs(criteria, alts, passed) ensures j in toPromote {
      assert HasRow(rows, j);
      var r :| r in rows && r.jobName == j;
    }
    MissingAfterSubstitution(criteria, alts, passed);
  }

  /** The rows that the tables are computed from, and what is computed. */
  ghost predicate Rendered(rows: seq<Row>, toPromote: set<string>, colour: Colour) {
    && toPromote == (set r | r in rows && r.criteria && r.jobName !in NamesWith(rows, Passed)
                             && (forall a | a in r.altCriteria :: a !in NamesWith(rows, Passed)) :: r.jobName)
    && colour == if NamesWith(rows, Failed) != {} then Red else if toPromote == {} then Green else Yellow
  }

  /** A job was reported, and never as a success. */
  ghost predicate OnlyFailed(reports: seq<Report>, id: string) {
    && Eligible(id) && (exists r :: r in reports && r.jobId == id)
    && forall r | r in reports && r.jobId == id :: !r.success
  }

  ghost predicate Succeeded(reports: seq<Report>, id: string) {
    Eligible(id) && exists r :: r in reports && r.jobId == id && r.success
  }

  /** From reports that are settled for every job, in whatever order: the dashboard is red exactly when
      some job was reported and only as failed; else green exactly when every required job, or one of
      its alternatives, succeeded; and yellow otherwise. */
  lemma ColourOfReports(reports: seq<Report>, criteria: set<string>, alts: Alternatives, rows: seq<Row>,
                        toPromote: set<string>, colour: Colour)
    requires forall id :: Settled(reports, id)
    requires RowsFor(rows, criteria, alts, Fold(map[], reports)) && Rendered(rows, toPromote, colour)
    ensures colour.Red? <==> exists id :: OnlyFailed(reports, id)
    ensures colour.Green? <==>
            && !colour.Red?
            && forall j | j in criteria ::
                 Succeeded(reports, j) || exists a :: a in AlternativesOf(alts, j) && Succeeded(reports, a)
  {
    var jobs := Fold(map[], reports);
    forall id
      ensures id in NamesWith(rows, Failed) <==> OnlyFailed(reports, id)
      ensures id in PassedJobs(jobs) <==> Succeeded(reports, id)
    {
      assert Settled(reports, id);
      ResultsAreNewest(reports, id);
      assert HasRow(rows, id) <==> id in jobs || id in criteria;
    }
    DashboardAgreesWithPromoter(rows, criteria, alts, jobs, toPromote);
    assert colour.Red? <==> NamesWith(rows, Failed) != {};
    if id :| OnlyFailed(reports, id) {
      assert id in NamesWith(rows, Failed);
    }
    forall j | j in criteria
      ensures j in MissingJobs(criteria, alts, PassedJobs(jobs)) <==>
              !(Succeeded(reports, j) || exists a :: a in AlternativesOf(alts, j) && Succeeded(reports, a))
    {
    }
  }
}
