/** The promotion criteria of logic.py: which required jobs a candidate misses, when a failing
    job can be switched for a passing alternative, and what the switches leave behind in the
    configured set, which every later candidate is judged against. */
module Criteria {
  import opened Outcomes

  type Alternatives = map<string, seq<string>>

  function AlternativesOf(alts: Alternatives, job: string): seq<string> {
    if job in alts then alts[job] else []
  }

  /** The k-th job of a list passed, and none before it did. */
  predicate PassesFirst(jobs: seq<string>, passed: set<string>, k: nat) {
    k < |jobs| && jobs[k] in passed && forall i | 0 <= i < k :: jobs[i] !in passed
  }

  function FirstPassing(jobs: seq<string>, passed: set<string>): (r: Option<string>)
    ensures r.Some? ==> r.value in jobs && r.value in passed
    ensures r.Some? ==> exists k: nat :: PassesFirst(jobs, passed, k) && jobs[k] == r.value
    ensures r.None? <==> forall j | j in jobs :: j !in passed
  {
    if jobs == [] then None
    else if jobs[0] in passed then
      assert PassesFirst(jobs, passed, 0);
      Some(jobs[0])
    else
      var r := FirstPassing(jobs[1..], passed);
      if r.Some? then
        FirstIsLater(jobs, passed, r.value);
        r
      else None
  }

  lemma FirstIsLater(jobs: seq<string>, passed: set<string>, first: string)
    requires jobs != [] && jobs[0] !in passed
    requires exists k: nat :: PassesFirst(jobs[1..], passed, k) && jobs[1..][k] == first
    ensures exists k: nat :: PassesFirst(jobs, passed, k) && jobs[k] == first
  {
    var k: nat :| PassesFirst(jobs[1..], passed, k) && jobs[1..][k] == first;
    assert PassesFirst(jobs, passed, k + 1) && jobs[k + 1] == first;
  }

  /** The first passing job of a list is one job. */
  lemma PassesFirstOnce(jobs: seq<string>, passed: set<string>, j: nat, k: nat)
    requires PassesFirst(jobs, passed, j) && PassesFirst(jobs, passed, k)
    ensures j == k
  {
  }

  /** What a required job becomes when a candidate with these passed jobs is judged. */
  function Choice(alts: Alternatives, passed: set<string>, job: string): (r: string)
    ensures r == job || r in passed
  {
    if job in passed then job else FirstPassing(AlternativesOf(alts, job), passed).GetOr(job)
  }

  /** The required set after judging one candidate. */
  function Substitute(required: set<string>, alts: Alternatives, passed: set<string>): set<string> {
    set r | r in required :: Choice(alts, passed, r)
  }

  /** What a required job is after judging a candidate: itself, when it passed or none of its
      alternatives did, and else the first of its alternatives that passed. */
  ghost predicate StandsFor(alts: Alternatives, passed: set<string>, job: string, now: string) {
    var jobs := AlternativesOf(alts, job);
    if job in passed || forall a | a in jobs :: a !in passed then now == job
    else exists k: nat :: PassesFirst(jobs, passed, k) && jobs[k] == now
  }

  /** So the set holds exactly what the required jobs are afterwards, each one thing. */
  lemma SubstituteIs(required: set<string>, alts: Alternatives, passed: set<string>)
    ensures forall x :: x in Substitute(required, alts, passed) <==>
                        exists r :: r in required && StandsFor(alts, passed, r, x)
    ensures forall r, x, y | StandsFor(alts, passed, r, x) && StandsFor(alts, passed, r, y) :: x == y
  {
    forall r, x ensures StandsFor(alts, passed, r, x) <==> x == Choice(alts, passed, r) {
      StandsForOne(alts, passed, r, x);
    }
    hide StandsFor, Choice;
    forall x ensures x in Substitute(required, alts, passed) <==>
        exists r :: r in required && StandsFor(alts, passed, r, x) {
      if x in Substitute(required, alts, passed) {
        var r :| r in required && x == Choice(alts, passed, r);
        assert StandsFor(alts, passed, r, x);
      }
    }
  }

  lemma StandsForOne(alts: Alternatives, passed: set<string>, job: string, now: string)
    ensures StandsFor(alts, passed, job, now) <==> now == Choice(alts, passed, job)
  {
    var jobs := AlternativesOf(alts, job);
    if job !in passed && exists a :: a in jobs && a in passed {
      var first := FirstPassing(jobs, passed);
      assert first.Some?;
      var k: nat :| PassesFirst(jobs, passed, k) && jobs[k] == first.value;
      forall j: nat | PassesFirst(jobs, passed, j) ensures j == k {
        PassesFirstOnce(jobs, passed, j, k);
      }
    }
  }

  /** Required, not passed, and with no passed alternative. */
  function MissingJobs(required: set<string>, alts: Alternatives, passed: set<string>): set<string> {
    set r | r in required && r !in passed && forall a | a in AlternativesOf(alts, r) :: a !in passed
  }

  lemma MissingAfterSubstitution(required: set<string>, alts: Alternatives, passed: set<string>)
    ensures Substitute(required, alts, passed) - passed == MissingJobs(required, alts, passed)
  {
    forall r | r in MissingJobs(required, alts, passed) ensures r in Substitute(required, alts, passed) {
      assert Choice(alts, passed, r) == r;
    }
  }

  /** The search for a passing alternative of one missing job. */
  method FindPassing(altJobs: seq<string>, successful: set<string>) returns (r: Option<string>)
    ensures r == FirstPassing(altJobs, successful)
    ensures r.Some? ==> exists k :: 0 <= k < |altJobs| && altJobs[k] == r.value && altJobs[k] in successful
                                    && forall i | 0 <= i < k :: altJobs[i] !in successful
    ensures r.None? <==> forall i | 0 <= i < |altJobs| :: altJobs[i] !in successful
  {
    for n := 0 to |altJobs|
      invariant FirstPassing(altJobs, successful) == FirstPassing(altJobs[n..], successful)
      invariant forall i | 0 <= i < n :: altJobs[i] !in successful
    {
      if altJobs[n] in successful {
        return Some(altJobs[n]);
      }
    }
    return None;
  }

  /** A required job's entry halfway through the switching: the jobs in `left` await their turn. */
  function Entry(alts: Alternatives, passed: set<string>, left: set<string>, job: string): string {
    if job in left then job else Choice(alts, passed, job)
  }

  function Switched(required: set<string>, alts: Alternatives, passed: set<string>, left: set<string>): set<string> {
    set r | r in required :: Entry(alts, passed, left, r)
  }

  /** The switching loop of `promote_label_to_label`, over the missing jobs in any order.
      `required.remove` never misses its key, so no KeyError escapes. */
  method SwitchAlternatives(required: set<string>, alts: Alternatives, successful: set<string>)
    returns (r: Outcome<set<string>>)
    ensures r == Returned(Substitute(required, alts, successful))
    ensures r.Returned? && forall x :: x in r.value <==>
                                       exists job :: job in required && StandsFor(alts, successful, job, x)
  {
    SubstituteIs(required, alts, successful);
    hide Switched, Choice, FirstPassing, Substitute;
    var requiredJobs := required;
    var left := requiredJobs - successful;
    SwitchedAtFirst(required, alts, successful);
    while left != {}
      invariant left <= required - successful
      invariant requiredJobs == Switched(required, alts, successful, left)
    {
      var missingJob :| missingJob in left;
      SwitchOne(required, alts, successful, left, missingJob);
      left := left - {missingJob};
      var altJob := FindPassing(AlternativesOf(alts, missingJob), successful);
      if altJob.Some? {
        if missingJob !in requiredJobs {
          return Raised(KeyError);
        }
        requiredJobs := requiredJobs - {missingJob} + {altJob.value};
      }
    }
    SwitchedAtLast(required, alts, successful);
    return Returned(requiredJobs);
  }

  lemma SwitchedAtFirst(required: set<string>, alts: Alternatives, passed: set<string>)
    ensures Switched(required, alts, passed, required - passed) == required
  {
    forall r | r in required ensures Entry(alts, passed, required - passed, r) == r {
    }
  }

  lemma SwitchedAtLast(required: set<string>, alts: Alternatives, passed: set<string>)
    ensures Switched(required, alts, passed, {}) == Substitute(required, alts, passed)
  {
    hide Choice;
    assert forall r :: Entry(alts, passed, {}, r) == Choice(alts, passed, r);
  }

  /** Switching one missing job changes exactly that job's entry of the set, which is there. */
  lemma SwitchOne(required: set<string>, alts: Alternatives, passed: set<string>, left: set<string>, job: string)
    requires left <= required - passed && job in left
    ensures var before := Switched(required, alts, passed, left);
            && job in before
            && Switched(required, alts, passed, left - {job}) ==
               match FirstPassing(AlternativesOf(alts, job), passed)
               case None => before
               case Some(a) => before - {job} + {a}
  {
    hide FirstPassing, AlternativesOf;
    var after := left - {job};
    assert Choice(alts, passed, job) == FirstPassing(AlternativesOf(alts, job), passed).GetOr(job);
    ReplaceOne(required, alts, passed, left, after, job);
  }

  lemma ReplaceOne(required: set<string>, alts: Alternatives, passed: set<string>, left: set<string>,
                   after: set<string>, job: string)
    requires left <= required - passed && job in left && after == left - {job}
    ensures job in Switched(required, alts, passed, left)
    ensures Switched(required, alts, passed, after) ==
            Switched(required, alts, passed, left) - {job} + {Choice(alts, passed, job)}
  {
    hide Choice;
    assert Entry(alts, passed, left, job) == job && Entry(alts, passed, after, job) == Choice(alts, passed, job);
    forall r | r in required && r != job
      ensures Entry(alts, passed, left, r) == Entry(alts, passed, after, r) != job
    {
    }
  }

  // ---- Judging a run of candidates against one shared set ----

  /** The required set after judging candidates with these passed jobs, in order. */
  function AfterCandidates(required: set<string>, alts: Alternatives, votes: seq<set<string>>): set<string>
    decreases |votes|
  {
    if votes == [] then required
    else Substitute(AfterCandidates(required, alts, votes[..|votes| - 1]), alts, votes[|votes| - 1])
  }

  /** A chain of alternatives from one job to another. */
  predicate IsChain(alts: Alternatives, path: seq<string>) {
    |path| > 0 && forall i | 0 < i < |path| :: path[i] in AlternativesOf(alts, path[i - 1])
  }

  ghost predicate Reaches(alts: Alternatives, from: string, to: string) {
    exists path :: IsChain(alts, path) && path[0] == from && path[|path| - 1] == to
  }

  lemma ReachesChoice(alts: Alternatives, passed: set<string>, from: string, job: string)
    requires Reaches(alts, from, job)
    ensures Reaches(alts, from, Choice(alts, passed, job))
  {
    var path :| IsChain(alts, path) && path[0] == from && path[|path| - 1] == job;
    var chosen := Choice(alts, passed, job);
    if chosen != job {
      assert IsChain(alts, path + [chosen]) && (path + [chosen])[|path|] == chosen;
    }
  }

  /** Every originally required job still stands for something in the set. */
  ghost predicate Represented(required: set<string>, alts: Alternatives, now: set<string>) {
    forall j | j in required :: exists r :: r in now && Reaches(alts, j, r)
  }

  lemma RepresentedAtFirst(required: set<string>, alts: Alternatives)
    ensures Represented(required, alts, required)
  {
    forall j | j in required ensures exists r :: r in required && Reaches(alts, j, r) {
      assert IsChain(alts, [j]) && [j][0] == j;
      assert Reaches(alts, j, j);
    }
  }

  /** Judging a candidate keeps every original job represented in the shared set. */
  lemma SubstituteRepresents(required: set<string>, alts: Alternatives, now: set<string>, passed: set<string>)
    requires Represented(required, alts, now)
    ensures Represented(required, alts, Substitute(now, alts, passed))
  {
    forall j | j in required ensures exists r :: r in Substitute(now, alts, passed) && Reaches(alts, j, r) {
      var r :| r in now && Reaches(alts, j, r);
      ReachesChoice(alts, passed, j, r);
      assert Choice(alts, passed, r) in Substitute(now, alts, passed);
    }
  }

  /** A set the original one has become by judging candidates. */
  ghost predicate Edited(required: set<string>, alts: Alternatives, now: set<string>) {
    exists votes :: now == AfterCandidates(required, alts, votes)
  }

  lemma EditedAtFirst(required: set<string>, alts: Alternatives)
    ensures Edited(required, alts, required)
  {
    assert AfterCandidates(required, alts, []) == required;
  }

  lemma SubstituteEdits(required: set<string>, alts: Alternatives, now: set<string>, passed: set<string>)
    requires Edited(required, alts, now)
    ensures Edited(required, alts, Substitute(now, alts, passed))
  {
    var votes :| now == AfterCandidates(required, alts, votes);
    assert (votes + [passed])[..|votes|] == votes;
    assert Substitute(now, alts, passed) == AfterCandidates(required, alts, votes + [passed]);
  }

  lemma {:induction false} AfterCandidatesRepresents(required: set<string>, alts: Alternatives, votes: seq<set<string>>)
    ensures Represented(required, alts, AfterCandidates(required, alts, votes))
    decreases |votes|
  {
    if votes == [] {
      RepresentedAtFirst(required, alts);
    } else {
      var init := votes[..|votes| - 1];
      AfterCandidatesRepresents(required, alts, init);
      SubstituteRepresents(required, alts, AfterCandidates(required, alts, init), votes[|votes| - 1]);
    }
  }

  /** A job of the original criteria is answered for by a passed job at the end of a chain of
      alternatives; where alternatives have none of their own, by itself or one of its own. */
  ghost predicate AnsweredFor(required: set<string>, alts: Alternatives, passed: set<string>) {
    && (forall j | j in required :: exists r :: r in passed && Reaches(alts, j, r))
    && (OneLevel(required, alts) ==> Met(required, alts, passed))
  }

  /** When the judged set has no missing job, each original job is answered for. */
  lemma NothingMissing(required: set<string>, alts: Alternatives, now: set<string>, passed: set<string>)
    requires Edited(required, alts, now) && Substitute(now, alts, passed) - passed == {}
    ensures AnsweredFor(required, alts, passed)
  {
    var votes :| now == AfterCandidates(required, alts, votes);
    AfterCandidatesRepresents(required, alts, votes);
    SubstituteRepresents(required, alts, now, passed);
    forall j | j in required ensures exists r :: r in passed && Reaches(alts, j, r) {
      var r :| r in Substitute(now, alts, passed) && Reaches(alts, j, r);
      assert r !in Substitute(now, alts, passed) - passed;
    }
    if OneLevel(required, alts) {
      MissingAfterSubstitution(now, alts, passed);
      MetLaterIsMetOriginally(required, alts, votes, passed);
    }
  }

  // ---- Sizes and one-level alternatives ----

  lemma {:induction false} ImageIsNoLarger(s: set<string>, alts: Alternatives, passed: set<string>)
    ensures |Substitute(s, alts, passed)| <= |s|
  {
    if s == {} {
    } else {
      var x :| x in s;
      ImageIsNoLarger(s - {x}, alts, passed);
      assert Substitute(s, alts, passed) == Substitute(s - {x}, alts, passed) + {Choice(alts, passed, x)};
    }
  }

  /** However many candidates are judged, the shared set never grows. */
  lemma {:induction false} RequiredNeverGrows(required: set<string>, alts: Alternatives, votes: seq<set<string>>)
    ensures |AfterCandidates(required, alts, votes)| <= |required|
    decreases |votes|
  {
    if votes == [] {
    } else {
      RequiredNeverGrows(required, alts, votes[..|votes| - 1]);
      ImageIsNoLarger(AfterCandidates(required, alts, votes[..|votes| - 1]), alts, votes[|votes| - 1]);
    }
  }

  /** No alternative of a required job has alternatives itself. */
  predicate OneLevel(required: set<string>, alts: Alternatives) {
    forall j | j in required :: forall a | a in AlternativesOf(alts, j) :: AlternativesOf(alts, a) == []
  }

  /** With one-level alternatives a required job is still there, or one of its own alternatives is;
      and whatever is there is an original job or an alternative without alternatives. */
  lemma {:induction false} OneLevelEntries(required: set<string>, alts: Alternatives, votes: seq<set<string>>)
    requires OneLevel(required, alts)
    ensures var now := AfterCandidates(required, alts, votes);
            && (forall j | j in required :: j in now || exists a :: a in AlternativesOf(alts, j) && a in now)
            && (forall r | r in now :: r in required || AlternativesOf(alts, r) == [])
    decreases |votes|
  {
    if votes == [] {
    } else {
      var init, passed := votes[..|votes| - 1], votes[|votes| - 1];
      OneLevelEntries(required, alts, init);
      var was := AfterCandidates(required, alts, init);
      var now := Substitute(was, alts, passed);
      assert forall r | r in was :: Choice(alts, passed, r) in now;
      forall j | j in required && j !in now ensures exists a :: a in AlternativesOf(alts, j) && a in now {
        if j in was {
          assert Choice(alts, passed, j) in AlternativesOf(alts, j);
        } else {
          var a :| a in AlternativesOf(alts, j) && a in was;
          assert Choice(alts, passed, a) == a;
        }
      }
    }
  }

  predicate Met(required: set<string>, alts: Alternatives, passed: set<string>) {
    MissingJobs(required, alts, passed) == {}
  }

  /** With one-level alternatives, a candidate judged after any others passes only if each
      original job passed or has a passed alternative of its own: chains have length at most one. */
  lemma MetLaterIsMetOriginally(required: set<string>, alts: Alternatives, votes: seq<set<string>>, passed: set<string>)
    requires OneLevel(required, alts)
    requires Met(AfterCandidates(required, alts, votes), alts, passed)
    ensures Met(required, alts, passed)
  {
    var now := AfterCandidates(required, alts, votes);
    OneLevelEntries(required, alts, votes);
    forall j | j in required ensures j !in MissingJobs(required, alts, passed) {
      if j in now {
        assert j !in MissingJobs(now, alts, passed);
      } else {
        var a :| a in AlternativesOf(alts, j) && a in now;
        assert AlternativesOf(alts, a) == [];
        assert a !in MissingJobs(now, alts, passed);
      }
    }
  }

  // ---- The first candidate that meets the criteria ----

  /** The first of the candidates with these passed jobs that is judged to miss nothing. */
  function FirstMet(required: set<string>, alts: Alternatives, votes: seq<set<string>>): (r: Option<nat>)
    ensures r.Some? ==> r.value < |votes|
    decreases |votes|
  {
    if votes == [] then None
    else if Met(required, alts, votes[0]) then Some(0)
    else
      match FirstMet(Substitute(required, alts, votes[0]), alts, votes[1..])
      case None => None
      case Some(k) => Some(k + 1)
  }

  /** Judging the first of some candidates, and then the others. */
  lemma {:induction false} AfterFirst(required: set<string>, alts: Alternatives, first: set<string>,
                                      votes: seq<set<string>>)
    ensures AfterCandidates(required, alts, [first] + votes) ==
            AfterCandidates(Substitute(required, alts, first), alts, votes)
    decreases |votes|
  {
    if votes == [] {
      assert [first] + votes == [first];
      AfterOne(required, alts, first);
    } else {
      var init := votes[..|votes| - 1];
      AfterFirst(required, alts, first, init);
      assert ([first] + votes)[..|votes|] == [first] + init;
    }
  }

  lemma AfterNone(required: set<string>, alts: Alternatives)
    ensures AfterCandidates(required, alts, []) == required
  {
  }

  /** A candidate misses nothing after those before it were judged. */
  predicate MetInTurn(required: set<string>, alts: Alternatives, votes: seq<set<string>>, k: nat)
    requires k < |votes|
  {
    Met(AfterCandidates(required, alts, votes[..k]), alts, votes[k])
  }

  /** It is the first that meets the set as the candidates before it left it. */
  lemma {:induction false} FirstMetIs(required: set<string>, alts: Alternatives, votes: seq<set<string>>)
    ensures match FirstMet(required, alts, votes)
            case None => forall j | 0 <= j < |votes| :: !MetInTurn(required, alts, votes, j)
            case Some(k) =>
              && MetInTurn(required, alts, votes, k)
              && forall j | 0 <= j < k :: !MetInTurn(required, alts, votes, j)
    decreases |votes|
  {
    hide Met, Substitute, AfterCandidates;
    if votes == [] {
    } else {
      var first, rest := votes[0], votes[1..];
      assert votes == [first] + rest && votes[..0] == [];
      AfterNone(required, alts);
      FirstMetIs(Substitute(required, alts, first), alts, rest);
      forall j | 0 < j < |votes|
        ensures MetInTurn(required, alts, votes, j) == MetInTurn(Substitute(required, alts, first), alts, rest, j - 1)
      {
        assert votes[..j] == [first] + rest[..j - 1];
        AfterFirst(required, alts, first, rest[..j - 1]);
      }
    }
  }

  // ---- When edited and configured criteria agree ----

  /** A required job is met by itself or one of its alternatives. */
  function Clause(alts: Alternatives, job: string): set<string> {
    {job} + set a | a in AlternativesOf(alts, job)
  }

  lemma MetByClauses(required: set<string>, alts: Alternatives, passed: set<string>)
    ensures Met(required, alts, passed) <==> forall j | j in required :: Clause(alts, j) * passed != {}
  {
    forall j | j in required ensures Clause(alts, j) * passed == {} <==> j in MissingJobs(required, alts, passed) {
      if Clause(alts, j) * passed == {} {
        assert forall x | x in Clause(alts, j) :: x !in passed by {
          assert forall x | x in Clause(alts, j) && x in passed :: x in Clause(alts, j) * passed;
        }
      }
    }
  }

  /** Each job of the second set is met by whatever meets some job of the first. */
  ghost predicate Covers(alts: Alternatives, a: set<string>, b: set<string>) {
    forall r | r in b :: exists j :: j in a && Clause(alts, j) <= Clause(alts, r)
  }

  /** Meeting one set always means meeting another if and only if the first covers the second. */
  lemma AlwaysMeetsIff(alts: Alternatives, a: set<string>, b: set<string>)
    ensures (forall passed :: Met(a, alts, passed) ==> Met(b, alts, passed)) <==> Covers(alts, a, b)
  {
    if Covers(alts, a, b) {
      forall passed | Met(a, alts, passed) ensures Met(b, alts, passed) {
        MetByClauses(a, alts, passed);
        MetByClauses(b, alts, passed);
        forall r | r in b ensures Clause(alts, r) * passed != {} {
          var j :| j in a && Clause(alts, j) <= Clause(alts, r);
          assert Clause(alts, j) * passed <= Clause(alts, r) * passed;
        }
      }
    } else {
      var r :| r in b && !exists j :: j in a && Clause(alts, j) <= Clause(alts, r);
      var passed := set j, x | j in a && x in Clause(alts, j) && x !in Clause(alts, r) :: x;
      MetByClauses(a, alts, passed);
      MetByClauses(b, alts, passed);
      forall j | j in a ensures Clause(alts, j) * passed != {} {
        assert !(Clause(alts, j) <= Clause(alts, r));
        var x :| x in Clause(alts, j) && x !in Clause(alts, r);
        assert x in Clause(alts, j) * passed;
      }
      assert Clause(alts, r) * passed == {};
    }
  }

  /** Every candidate gets the same verdict from two sets. */
  ghost predicate SameVerdicts(alts: Alternatives, a: set<string>, b: set<string>) {
    forall passed :: Met(a, alts, passed) <==> Met(b, alts, passed)
  }

  /** The substitutions outlive the candidate they were made for. For all alternatives, a later
      candidate is judged as the configured criteria would judge it, whatever jobs it passed, if
      and only if the edited set and the configured one cover each other. */
  lemma LaterVerdictsAgreeIff(required: set<string>, alts: Alternatives, votes: seq<set<string>>)
    ensures var now := AfterCandidates(required, alts, votes);
            SameVerdicts(alts, now, required) <==> Covers(alts, now, required) && Covers(alts, required, now)
  {
    var now := AfterCandidates(required, alts, votes);
    AlwaysMeetsIff(alts, now, required);
    AlwaysMeetsIff(alts, required, now);
    if && (forall passed :: Met(now, alts, passed) ==> Met(required, alts, passed))
       && (forall passed :: Met(required, alts, passed) ==> Met(now, alts, passed)) {
      assert SameVerdicts(alts, now, required);
    }
  }

  /** With one-level alternatives that is so if and only if no job from outside the configured
      criteria has been switched in. */
  lemma OneLevelVerdictsAgreeIff(required: set<string>, alts: Alternatives, votes: seq<set<string>>)
    requires OneLevel(required, alts)
    ensures var now := AfterCandidates(required, alts, votes);
            SameVerdicts(alts, now, required) <==> now <= required
  {
    var now := AfterCandidates(required, alts, votes);
    OneLevelEntries(required, alts, votes);
    if now <= required {
      forall passed ensures Met(now, alts, passed) <==> Met(required, alts, passed) {
        if Met(now, alts, passed) {
          MetLaterIsMetOriginally(required, alts, votes, passed);
        }
        if Met(required, alts, passed) {
          assert MissingJobs(now, alts, passed) <= MissingJobs(required, alts, passed);
        }
      }
    } else {
      var a :| a in now && a !in required;
      assert Met(required, alts, required);
      assert a in MissingJobs(now, alts, required);
    }
  }

  /** With two levels it is not: the edited set is within the configured one, and still a later
      candidate meets it that does not meet the configured one. */
  lemma TwoLevelsLetPass()
    ensures var required, alts := {"a", "b"}, map["a" := ["b"], "b" := ["c"]];
            var now := AfterCandidates(required, alts, [{"b"}]);
            && now <= required
            && Met(now, alts, {"c"}) && !Met(required, alts, {"c"})
            && !Covers(alts, now, required)
  {
    var alts := map["a" := ["b"], "b" := ["c"]];
    assert "a" != "b" && "a" != "c" && "b" != "c";
    TwoLevels(alts, "a", "b", "c");
  }

  lemma TwoLevels(alts: Alternatives, a: string, b: string, c: string)
    requires a != b && a != c && b != c && a in alts && alts[a] == [b] && b in alts && alts[b] == [c]
    ensures var now := AfterCandidates({a, b}, alts, [{b}]);
            now == {b} && Met(now, alts, {c}) && !Met({a, b}, alts, {c}) && !Covers(alts, now, {a, b})
  {
    AfterOne({a, b}, alts, {b});
    OneAlternative(alts, {b}, a, b);
    assert Substitute({a, b}, alts, {b}) == {b};
    assert AlternativesOf(alts, a) == [b] && c in AlternativesOf(alts, b);
    assert a in MissingJobs({a, b}, alts, {c});
    assert c in Clause(alts, b) && c !in Clause(alts, a);
  }

  lemma AfterOne(required: set<string>, alts: Alternatives, passed: set<string>)
    ensures AfterCandidates(required, alts, [passed]) == Substitute(required, alts, passed)
  {
    assert [passed][..0] == [];
    assert AfterCandidates(required, alts, []) == required;
  }

  lemma OneAlternative(alts: Alternatives, passed: set<string>, job: string, alt: string)
    requires job in alts && alts[job] == [alt] && job !in passed && alt in passed
    ensures Choice(alts, passed, job) == alt
  {
    assert FirstPassing([alt], passed) == Some(alt);
  }

  /** A run in which the order of the alternatives decides: the first candidate passed both
      alternatives of a job, the first of them is switched in, and so the second candidate, which
      passed the first alternative alone, meets the criteria. */
  lemma FirstAlternativeIsSwitchedIn()
    ensures var required, alts := {"job", "other"}, map["job" := ["one", "two"]];
            var now := AfterCandidates(required, alts, [{"one", "two"}]);
            && now == {"one", "other"} && Met(now, alts, {"one", "other"})
            && !Met({"two", "other"}, alts, {"one", "other"})
  {
    var alts := map["job" := ["one", "two"]];
    assert "job" != "one" && "job" != "two" && "one" != "two";
    assert "other" != "one" && "other" != "two" && "other" != "job";
    FirstOfTwo(alts, "job", "one", "two", "other");
  }

  lemma FirstOfTwo(alts: Alternatives, job: string, one: string, two: string, other: string)
    requires job != one && job != two && one != two && other != one && other != two && other != job
    requires alts == map[job := [one, two]]
    ensures var now := AfterCandidates({job, other}, alts, [{one, two}]);
            now == {one, other} && Met(now, alts, {one, other}) && !Met({two, other}, alts, {one, other})
  {
    AfterOne({job, other}, alts, {one, two});
    var jobs := AlternativesOf(alts, job);
    assert jobs == [one, two] && FirstPassing(jobs, {one, two}) == Some(one);
    assert Choice(alts, {one, two}, job) == one && Choice(alts, {one, two}, other) == other;
    assert two in MissingJobs({two, other}, alts, {one, other});
  }

  /** A run where it shows: the second candidate passed the only configured job and is still
      refused, because judging the first switched that job for an alternative. */
  lemma CarriedOverSubstitutionRefuses()
    ensures var required, alts := {"job"}, map["job" := ["alt"]];
            var votes := [{"alt"}];
            Met(required, alts, {"job"}) && !Met(AfterCandidates(required, alts, votes), alts, {"job"})
  {
    var alts := map["job" := ["alt"]];
    AfterOne({"job"}, alts, {"alt"});
    OneAlternative(alts, {"alt"}, "job", "alt");
    assert Substitute({"job"}, alts, {"alt"}) == {"alt"};
    assert "alt" in MissingJobs({"alt"}, alts, {"job"});
  }
}
