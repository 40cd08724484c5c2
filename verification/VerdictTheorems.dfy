/** What every verdict of a run says: it is the criteria as configured, edited by the earlier
    verdicts for the same target, applied to the jobs the candidate passed. */
module VerdictTheorems {
  import opened Outcomes
  import opened DlrnHashes
  import opened PromotionApi
  import opened Criteria
  import opened DlrnClientSpec
  import opened ClientOrder
  import opened PromoterSpec
  import opened PromoterTheorems

  /** The passed jobs of the candidates judged for a target, in order. */
  function PassedSets(trace: seq<Event>, target: string): seq<set<string>>
    decreases |trace|
  {
    if trace == [] then []
    else
      var last := trace[|trace| - 1];
      PassedSets(trace[..|trace| - 1], target) + if last.Judged? && last.target == target then [last.passed] else []
  }

  /** The missing jobs of a verdict are those that the configured criteria, edited by the earlier
      verdicts for the target, require, that did not pass, and that have no passed alternative. */
  ghost predicate VerdictExact(s: Settings, criteria: map<string, set<string>>, trace: seq<Event>, i: nat) {
    && i < |trace| && trace[i].Judged? && trace[i].target in criteria
    && exists p | IsConfigured(s, p) && p.target == trace[i].target ::
         trace[i].missing == Missed(criteria[p.target], p, trace[..i], trace[i].passed)
  }

  function Missed(required: set<string>, p: Promotion, before: seq<Event>, passed: set<string>): set<string> {
    MissingJobs(AfterCandidates(required, p.alternatives, PassedSets(before, p.target)), p.alternatives, passed)
  }

  /** All verdicts so far are exact, and the sets held by the configuration are what they left. */
  ghost predicate Exact(s: Settings, criteria: map<string, set<string>>, st: State) {
    && st.criteria.Keys == criteria.Keys
    && (forall p | IsConfigured(s, p) && p.target in criteria ::
         st.criteria[p.target] ==
         AfterCandidates(criteria[p.target], p.alternatives, PassedSets(st.net.trace, p.target)))
    && (forall i | 0 <= i < |st.net.trace| && st.net.trace[i].Judged? :: VerdictExact(s, criteria, st.net.trace, i))
  }

  lemma {:induction false} NoVerdictAdded(trace: seq<Event>, more: seq<Event>, target: string)
    requires trace <= more
    requires forall i | |trace| <= i < |more| :: !more[i].Judged?
    ensures PassedSets(more, target) == PassedSets(trace, target)
    decreases |more|
  {
    if |more| == |trace| {
      assert more == trace;
    } else {
      NoVerdictAdded(trace, more[..|more| - 1], target);
    }
  }

  lemma VerdictAdded(trace: seq<Event>, e: Event, target: string)
    requires e.Judged?
    ensures PassedSets(trace + [e], target) ==
            PassedSets(trace, target) + if e.target == target then [e.passed] else []
  {
    assert (trace + [e])[..|trace|] == trace;
  }

  lemma ExactLater(s: Settings, criteria: map<string, set<string>>, trace: seq<Event>, more: seq<Event>, i: nat)
    requires trace <= more && VerdictExact(s, criteria, trace, i)
    ensures VerdictExact(s, criteria, more, i)
  {
    hide Valid, Missed;
    assert more[i] == trace[i] && more[..i] == trace[..i];
  }

  /** Events that are not verdicts keep everything exact. */
  lemma OtherEventsKeepExact(s: Settings, criteria: map<string, set<string>>, a: State, b: State)
    requires Exact(s, criteria, a) && a.net.trace <= b.net.trace && b.criteria == a.criteria
    requires forall i | |a.net.trace| <= i < |b.net.trace| :: !b.net.trace[i].Judged?
    ensures Exact(s, criteria, b)
  {
    hide Valid, VerdictExact, AfterCandidates;
    forall p | IsConfigured(s, p) && p.target in criteria
      ensures PassedSets(b.net.trace, p.target) == PassedSets(a.net.trace, p.target)
    {
      NoVerdictAdded(a.net.trace, b.net.trace, p.target);
    }
    forall i | 0 <= i < |b.net.trace| && b.net.trace[i].Judged? ensures VerdictExact(s, criteria, b.net.trace, i) {
      assert b.net.trace[i] == a.net.trace[i];
      ExactLater(s, criteria, a.net.trace, b.net.trace, i);
    }
  }

  lemma AfterOneMore(required: set<string>, alts: Alternatives, votes: seq<set<string>>, passed: set<string>)
    ensures AfterCandidates(required, alts, votes + [passed]) ==
            Substitute(AfterCandidates(required, alts, votes), alts, passed)
  {
    assert (votes + [passed])[..|votes|] == votes;
  }

  /** The set of each target after a verdict is what all verdicts for it have left. */
  lemma SetAfterVerdict(s: Settings, criteria: map<string, set<string>>, st: State, h: Hash, p: Promotion,
                        passed: set<string>, q: Promotion)
    requires WellConfigured(s) && IsConfigured(s, p) && IsConfigured(s, q) && p.target in st.criteria
    requires Exact(s, criteria, st) && q.target in criteria
    ensures var r := Judge(st, h, p, passed);
            q.target in r.criteria
            && r.criteria[q.target] ==
               AfterCandidates(criteria[q.target], q.alternatives, PassedSets(r.net.trace, q.target))
  {
    hide Valid, VerdictExact, Substitute, AfterCandidates, PassedSets;
    JudgeAddsVerdict(st, h, p, passed);
    var verdict := Judge(st, h, p, passed).net.trace[|st.net.trace|];
    VerdictAdded(st.net.trace, verdict, q.target);
    var votes := PassedSets(st.net.trace, q.target);
    if q.target == p.target {
      OneSetting(s, p, q);
      AfterOneMore(criteria[q.target], q.alternatives, votes, passed);
    } else {
      assert votes + [] == votes;
    }
  }

  /** A verdict is exact, and edits the one set accordingly. */
  lemma JudgingKeepsExact(s: Settings, criteria: map<string, set<string>>, st: State, h: Hash, p: Promotion,
                          passed: set<string>)
    requires WellConfigured(s) && IsConfigured(s, p) && p.target in st.criteria && Exact(s, criteria, st)
    ensures Exact(s, criteria, Judge(st, h, p, passed)) && p.target in Judge(st, h, p, passed).criteria
  {
    hide Valid, VerdictExact, Substitute, AfterCandidates, PassedSets;
    var r := Judge(st, h, p, passed);
    JudgeAddsVerdict(st, h, p, passed);
    forall q | IsConfigured(s, q) && q.target in criteria
      ensures r.criteria[q.target] ==
              AfterCandidates(criteria[q.target], q.alternatives, PassedSets(r.net.trace, q.target))
    {
      SetAfterVerdict(s, criteria, st, h, p, passed, q);
    }
    NewVerdictExact(s, criteria, st, h, p, passed);
    forall i | 0 <= i < |r.net.trace| && r.net.trace[i].Judged? ensures VerdictExact(s, criteria, r.net.trace, i) {
      if i < |st.net.trace| {
        assert r.net.trace[i] == st.net.trace[i];
        ExactLater(s, criteria, st.net.trace, r.net.trace, i);
      }
    }
  }

  lemma NewVerdictExact(s: Settings, criteria: map<string, set<string>>, st: State, h: Hash, p: Promotion,
                        passed: set<string>)
    requires IsConfigured(s, p) && p.target in st.criteria && Exact(s, criteria, st)
    ensures VerdictExact(s, criteria, Judge(st, h, p, passed).net.trace, |st.net.trace|)
  {
    hide Valid, Substitute, MissingJobs, AfterCandidates, PassedSets;
    var r := Judge(st, h, p, passed);
    JudgeAddsVerdict(st, h, p, passed);
    MissingAfterSubstitution(st.criteria[p.target], p.alternatives, passed);
    assert r.net.trace[..|st.net.trace|] == st.net.trace;
  }

  lemma OneSetting(s: Settings, p: Promotion, q: Promotion)
    requires WellConfigured(s) && IsConfigured(s, p) && IsConfigured(s, q) && p.target == q.target
    ensures p == q
  {
    var i, j :| 0 <= i < |s.promotions| && 0 <= j < |s.promotions| && s.promotions[i] == p && s.promotions[j] == q;
    assert i == j;
  }

  lemma DrivingKeepsExact(s: Settings, criteria: map<string, set<string>>, st: State, h: Hash, target: string)
    requires WellConfigured(s) && Exact(s, criteria, st)
    ensures Exact(s, criteria, DriveClients(s, st, h, target).state)
  {
    hide Valid, Exact, PromoteWith;
    SortKeepsClients(s.allowedClients);
    PromotionIsSafe(Targets(s.promotions), st, SortDescending(s.allowedClients), h, target);
    OtherEventsKeepExact(s, criteria, st, DriveClients(s, st, h, target).state);
  }

  lemma {:induction false} TryingKeepsExact(s: Settings, criteria: map<string, set<string>>, st: State,
                                            candidates: seq<Hash>, p: Promotion)
    requires WellConfigured(s) && IsConfigured(s, p) && p.target in st.criteria && Exact(s, criteria, st)
    ensures Exact(s, criteria, TryCandidates(s, st, candidates, p).state)
    decreases |candidates|
  {
    hide Valid, Exact, Judge, Advance, DriveClients;
    if candidates == [] {
    } else {
      var turn, asked, h := NextTurn(st.net), st.(net := Advance(st.net)), candidates[0];
      OtherEventsKeepExact(s, criteria, st, asked);
      if ApiFault(turn).None? {
        var judged := Judge(asked, h, p, turn.votes);
        JudgingKeepsExact(s, criteria, asked, h, p, turn.votes);
        if judged.criteria[p.target] - turn.votes != {} {
          TryingKeepsExact(s, criteria, judged, candidates[1..], p);
        } else {
          var attempted := judged.(net := Note(judged.net, Attempt(p.target, h)));
          OtherEventsKeepExact(s, criteria, judged, attempted);
          DrivingKeepsExact(s, criteria, attempted, h, p.target);
        }
      }
    }
  }

  lemma LabelKeepsExact(s: Settings, criteria: map<string, set<string>>, st: State, p: Promotion)
    requires WellConfigured(s) && IsConfigured(s, p) && Exact(s, criteria, st)
    ensures Exact(s, criteria, PromoteLabel(s, st, p).state)
  {
    hide Valid, Exact, SelectCandidates, TryCandidates;
    var (net, selected) := SelectCandidates(st.net, p.candidate, p.target, s.latestHashesCount);
    var ready := st.(net := net);
    OtherEventsKeepExact(s, criteria, st, ready);
    if selected.Returned? && selected.value != [] && p.target in st.criteria {
      TryingKeepsExact(s, criteria, ready, selected.value, p);
    }
  }

  lemma {:induction false} RestKeepsExact(s: Settings, criteria: map<string, set<string>>, st: State,
                                          ps: seq<Promotion>, pairs: seq<(Hash, string)>)
    requires WellConfigured(s) && (forall p | p in ps :: IsConfigured(s, p)) && Exact(s, criteria, st)
    ensures Exact(s, criteria, PromoteRest(s, st, ps, pairs).state)
    decreases |ps|
  {
    hide Valid, Exact, PromoteLabel;
    if ps == [] {
    } else {
      LabelKeepsExact(s, criteria, st, ps[0]);
      var r := PromoteLabel(s, st, ps[0]);
      if r.error.None? || r.error == Some(PromotionError) {
        var more := if r.promoted.Some? then pairs + [(r.promoted.value, ps[0].target)] else pairs;
        RestKeepsExact(s, criteria, r.state, ps[1..], more);
      }
    }
  }

  /** In any environment, for every verdict of a run: the missing jobs are exactly those that the
      criteria as configured, edited by the earlier verdicts for that target, require, that the
      candidate did not pass, and that have no alternative it passed; and at the end of the run the
      configuration holds the sets that all these verdicts have left. */
  lemma VerdictsAreExact(s: Settings, st: State)
    requires WellConfigured(s) && st.net.trace == []
    ensures Exact(s, st.criteria, PromoteAll(s, st).state)
  {
    hide Valid, PromoteRest;
    var named := FetchNamed(st.net, Targets(s.promotions), map[]);
    var started := st.(net := named.net, stored := st.stored + named.hashes);
    assert Exact(s, st.criteria, st) by {
      forall p | IsConfigured(s, p) ensures PassedSets(st.net.trace, p.target) == [] {
      }
    }
    hide Exact;
    OtherEventsKeepExact(s, st.criteria, st, started);
    if named.error.None? {
      RestKeepsExact(s, st.criteria, started, s.promotions, []);
    }
  }
}
