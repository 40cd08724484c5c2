/** What a promotion run guarantees, for every agenda of the environment: every interleaving
    with outside writers, every pattern of failures, and all votes. */
module PromoterTheorems {
  import opened Outcomes
  import opened DlrnHashes
  import opened PromotionApi
  import opened Labels
  import opened Criteria
  import opened DlrnClientSpec
  import opened DlrnClientTheorems
  import opened ClientOrder
  import opened PromoterSpec

  // ---- One promotion ----

  /** The event before index i is a passed check. */
  predicate CheckedBefore(trace: seq<Event>, from: nat, i: nat) {
    from < i <= |trace| && trace[i - 1] == Checked(true)
  }

  /** What the events of one promotion can be, from index `from` on. */
  ghost predicate IsPromotion(trace: seq<Event>, from: nat, clients: seq<string>, h: Hash, target: string) {
    forall i | from <= i < |trace| ::
      && !trace[i].Judged? && !trace[i].Attempt?
      && (trace[i].Posted? ==> trace[i].name == PreviousLabel(target) || trace[i] == Posted(target, DumpToParams(h)))
      && (trace[i].Called? ==>
           && trace[i].client in clients && trace[i].target == target && trace[i].hash == h
           && CheckedBefore(trace, from, i))
  }

  /** A client finished successfully between two points of the trace. */
  ghost predicate FinishedWithin(trace: seq<Event>, from: nat, to: nat, client: string) {
    exists k | from <= k < to <= |trace| :: trace[k] == Finished(client, true)
  }

  /** Every post, from an index on, comes after all the other clients finished. */
  ghost predicate PostsFollowOthers(trace: seq<Event>, from: nat, clients: seq<string>) {
    forall i | from <= i < |trace| && trace[i].Posted? ::
      forall c | c in clients && c != DLRN :: FinishedWithin(trace, from, i, c)
  }

  /** A failed check, from an index on, is the last event, and the run ends in its error. */
  ghost predicate FailedCheckEnds(trace: seq<Event>, from: nat, error: Option<Error>) {
    forall i | from <= i < |trace| && trace[i] == Checked(false) ::
      i == |trace| - 1 && error == Some(HashChangedError)
  }

  /** The three together, for one promotion. */
  ghost predicate SafePromotion(trace: seq<Event>, from: nat, clients: seq<string>, h: Hash, target: string,
                                error: Option<Error>)
  {
    && IsPromotion(trace, from, clients, h, target)
    && PostsFollowOthers(trace, from, clients)
    && FailedCheckEnds(trace, from, error)
  }

  /** For distinct known clients in descending order: a passed check directly precedes every
      client call, the DLRN client posts only after every other client has returned, and a
      check that sees a changed hash ends the promotion with no client called any more. */
  lemma {:induction false} PromotionIsSafe(names: seq<string>, st: State, clients: seq<string>, h: Hash, target: string)
    requires Descending(clients) && Distinct(clients) && forall c | c in clients :: IsClient(c)
    ensures var r := PromoteWith(names, st, clients, h, target);
            SafePromotion(r.state.net.trace, |st.net.trace|, clients, h, target, r.error)
    decreases |clients|
  {
    hide Valid, DumpToParams, Check, RunClient;
    if clients == [] {
    } else {
      var check := Check(st.net, names, st.stored);
      var checked := st.(net := check.net);
      if check.error.None? {
        var run := RunClient(checked, clients[0], h, target);
        RunIsSafe(st, check, clients[0], h, target);
        if clients[0] == DLRN {
          DlrnComesLast(clients, 0);
        }
        if run.error.None? {
          var rest := clients[1..];
          assert forall c | c in clients :: c == clients[0] || c in rest;
          assert Descending(rest) && Distinct(rest);
          PromotionIsSafe(names, run.state, rest, h, target);
          var r := PromoteWith(names, run.state, rest, h, target);
          SafeThenSafe(st, run.state, clients, h, target, r);
        } else {
          NoPostsUnlessDlrn(st, run.state.net.trace, clients, h, target);
        }
      }
    }
  }

  /** The part of the trace one checked client call adds. */
  ghost predicate OneCall(trace: seq<Event>, from: nat, client: string, h: Hash, target: string) {
    forall i | from <= i < |trace| ::
      && !trace[i].Judged? && !trace[i].Attempt? && trace[i] != Checked(false)
      && (trace[i].Posted? ==>
           && client == DLRN
           && (trace[i].name == PreviousLabel(target) || trace[i] == Posted(target, DumpToParams(h))))
      && (trace[i].Called? ==> trace[i] == Called(client, target, h) && CheckedBefore(trace, from, i))
  }

  lemma RunIsSafe(st: State, check: Step, client: string, h: Hash, target: string)
    requires st.net.trace <= check.net.trace && |check.net.trace| > |st.net.trace|
    requires check.net.trace[|check.net.trace| - 1] == Checked(true)
    requires forall i | |st.net.trace| <= i < |check.net.trace| ::
               check.net.trace[i].Outside? || check.net.trace[i].Compared? || check.net.trace[i] == Checked(true)
    ensures OneCall(RunClient(st.(net := check.net), client, h, target).state.net.trace, |st.net.trace|, client, h,
        target)
  {
    hide Valid, DumpToParams, RunClient;
    var was, trace := check.net.trace, RunClient(st.(net := check.net), client, h, target).state.net.trace;
    assert was + [Called(client, target, h)] <= trace;
    forall i | |st.net.trace| <= i < |trace|
      ensures !trace[i].Judged? && !trace[i].Attempt? && trace[i] != Checked(false)
      ensures trace[i].Posted? ==>
                && client == DLRN
                && (trace[i].name == PreviousLabel(target) || trace[i] == Posted(target, DumpToParams(h)))
      ensures trace[i].Called? ==> trace[i] == Called(client, target, h) && CheckedBefore(trace, |st.net.trace|, i)
    {
      if i < |was| {
        assert trace[i] == was[i];
      } else if i == |was| {
        assert trace[i] == Called(client, target, h) && trace[i - 1] == was[i - 1];
      }
    }
  }

  lemma NoPostsUnlessDlrn(st: State, trace: seq<Event>, clients: seq<string>, h: Hash, target: string)
    requires clients != [] && OneCall(trace, |st.net.trace|, clients[0], h, target)
    requires clients[0] == DLRN ==> clients == [DLRN]
    ensures SafePromotion(trace, |st.net.trace|, clients, h, target, None)
  {
    assert clients[0] in clients;
  }

  /** A checked call followed by a safe rest is safe. */
  lemma SafeThenSafe(st: State, mid: State, clients: seq<string>, h: Hash, target: string, r: Result)
    requires clients != [] && |st.net.trace| < |mid.net.trace| && mid.net.trace <= r.state.net.trace
    requires OneCall(mid.net.trace, |st.net.trace|, clients[0], h, target)
    requires clients[0] == DLRN ==> clients == [DLRN]
    requires mid.net.trace[|mid.net.trace| - 1] == Finished(clients[0], true)
    requires SafePromotion(r.state.net.trace, |mid.net.trace|, clients[1..], h, target, r.error)
    ensures SafePromotion(r.state.net.trace, |st.net.trace|, clients, h, target, r.error)
  {
    var trace, from, cut := r.state.net.trace, |st.net.trace|, |mid.net.trace|;
    assert forall i | from <= i < cut :: trace[i] == mid.net.trace[i];
    assert clients[0] in clients && forall c | c in clients[1..] :: c in clients;
    assert forall c | c in clients :: c == clients[0] || c in clients[1..];
    assert IsPromotion(trace, from, clients, h, target) by {
      forall i | from <= i < |trace| && trace[i].Called?
        ensures trace[i].client in clients && trace[i].target == target && trace[i].hash == h
        ensures CheckedBefore(trace, from, i)
      {
        if i < cut {
          assert CheckedBefore(mid.net.trace, from, i);
        } else {
          assert CheckedBefore(trace, cut, i);
        }
      }
    }
    forall i, c | from <= i < |trace| && trace[i].Posted? && c in clients && c != DLRN
      ensures FinishedWithin(trace, from, i, c)
    {
      if cut <= i {
        if c == clients[0] {
          assert trace[cut - 1] == Finished(c, true);
        } else {
          assert FinishedWithin(trace, cut, i, c);
          var k :| cut <= k < i && trace[k] == Finished(c, true);
        }
      }
    }
  }

  /** In any interleaving: when a fetch of the check before a client reads a stored label as
      another hash, neither that client nor a later one is called, nothing is posted, and the
      promotion ends in an error, which is HashChangedError unless a label could not be read. */
  lemma OutsideChangeStopsPromotion(names: seq<string>, st: State, clients: seq<string>, h: Hash, target: string,
                                    k: nat)
    requires Distinct(names) && clients != [] && k < |names|
    requires Reading(st.net, names, k).Returned? && !Agrees(Reading(st.net, names, k), names[k], st.stored)
    ensures var r := PromoteWith(names, st, clients, h, target);
            && r.error.Some?
            && (r.error == Some(HashChangedError) <==>
                 IsClient(clients[0]) && forall j | 0 <= j < |names| :: Reading(st.net, names, j).Returned?)
            && r.state.stored == st.stored
            && forall i | |st.net.trace| <= i < |r.state.net.trace| ::
                 !r.state.net.trace[i].Called? && !r.state.net.trace[i].Posted?
  {
    hide Valid, Reading, Agrees, Check;
    CheckVerdictIff(st.net, names, st.stored);
  }

  // ---- Whole runs ----

  /** The promotion that a target of the configuration names. */
  predicate IsConfigured(s: Settings, p: Promotion) {
    p in s.promotions
  }

  /** An attempt follows at once on a verdict with nothing missing, whose passed jobs answer for
      every job of the originally configured criteria. */
  ghost predicate AttemptJustified(s: Settings, criteria: map<string, set<string>>, trace: seq<Event>, a: nat) {
    && 0 < a < |trace| && trace[a].Attempt? && trace[a - 1].Judged?
    && trace[a - 1].target == trace[a].target && trace[a - 1].hash == trace[a].hash && trace[a - 1].missing == {}
    && trace[a].target in criteria
    && exists p | IsConfigured(s, p) && p.target == trace[a].target ::
         AnsweredFor(criteria[p.target], p.alternatives, trace[a - 1].passed)
  }

  /** A post belongs to a justified attempt: it names that attempt's target or previous label,
      under the target it carries that attempt's hash, and all the other allowed clients
      finished in between. */
  ghost predicate PostJustifiedBy(s: Settings, criteria: map<string, set<string>>, trace: seq<Event>, i: nat, a: nat) {
    && a < i < |trace| && trace[i].Posted?
    && AttemptJustified(s, criteria, trace, a)
    && (trace[i].name == PreviousLabel(trace[a].target)
        || trace[i] == Posted(trace[a].target, DumpToParams(trace[a].hash)))
    && (forall c | c in s.allowedClients && c != DLRN :: FinishedWithin(trace, a + 1, i, c))
    && (forall k | a < k < i :: !trace[k].Attempt?)
  }

  ghost predicate PostJustified(s: Settings, criteria: map<string, set<string>>, trace: seq<Event>, i: nat) {
    exists a: nat :: PostJustifiedBy(s, criteria, trace, i, a)
  }

  /** A call of any client is to an allowed one, belongs to a justified attempt whose hash and
      target it carries, with no other verdict or attempt in between, and follows at once on a
      check passed since the attempt. */
  ghost predicate CallJustifiedBy(s: Settings, criteria: map<string, set<string>>, trace: seq<Event>, i: nat, a: nat) {
    && a < i < |trace| && trace[i].Called? && trace[i].client in s.allowedClients
    && AttemptJustified(s, criteria, trace, a)
    && trace[i].target == trace[a].target && trace[i].hash == trace[a].hash
    && CheckedBefore(trace, a + 1, i)
    && (forall k | a < k < i :: !trace[k].Attempt? && !trace[k].Judged?)
  }

  ghost predicate CallJustified(s: Settings, criteria: map<string, set<string>>, trace: seq<Event>, i: nat) {
    exists a: nat :: CallJustifiedBy(s, criteria, trace, i, a)
  }

  /** Everything a trace must satisfy at any point of a run. */
  ghost predicate Lawful(s: Settings, criteria: map<string, set<string>>, trace: seq<Event>) {
    && (forall i | 0 <= i < |trace| && trace[i].Attempt? :: AttemptJustified(s, criteria, trace, i))
    && (forall i | 0 <= i < |trace| && trace[i].Posted? :: PostJustified(s, criteria, trace, i))
    && (forall i | 0 <= i < |trace| && trace[i].Called? :: CallJustified(s, criteria, trace, i))
  }

  /** The configured sets are the original ones, edited by verdicts. */
  ghost predicate CriteriaEdited(s: Settings, criteria: map<string, set<string>>, st: State) {
    && st.criteria.Keys == criteria.Keys
    && forall p | IsConfigured(s, p) && p.target in criteria ::
         Edited(criteria[p.target], p.alternatives, st.criteria[p.target])
  }

  predicate WellConfigured(s: Settings) {
    && (forall i, j | 0 <= i < j < |s.promotions| :: s.promotions[i].target != s.promotions[j].target)
    && (forall i, j | 0 <= i < j < |s.allowedClients| :: s.allowedClients[i] != s.allowedClients[j])
    && (forall c | c in s.allowedClients :: IsClient(c))
  }

  /** Justifications survive as the trace grows. */
  lemma JustifiedLater(s: Settings, criteria: map<string, set<string>>, trace: seq<Event>, more: seq<Event>, i: nat)
    requires trace <= more && i < |trace|
    ensures AttemptJustified(s, criteria, trace, i) ==> AttemptJustified(s, criteria, more, i)
    ensures PostJustified(s, criteria, trace, i) ==> PostJustified(s, criteria, more, i)
    ensures CallJustified(s, criteria, trace, i) ==> CallJustified(s, criteria, more, i)
  {
    hide Valid, DumpToParams;
    if PostJustified(s, criteria, trace, i) {
      var a: nat :| PostJustifiedBy(s, criteria, trace, i, a);
      forall c | c in s.allowedClients && c != DLRN ensures FinishedWithin(more, a + 1, i, c) {
        var k :| a + 1 <= k < i && trace[k] == Finished(c, true);
        assert more[k] == trace[k];
      }
      assert PostJustifiedBy(s, criteria, more, i, a);
    }
    if CallJustified(s, criteria, trace, i) {
      var a: nat :| CallJustifiedBy(s, criteria, trace, i, a);
      assert CallJustifiedBy(s, criteria, more, i, a);
    }
  }

  /** Events that are not attempts, posts or calls need no justification. */
  lemma LawfulLater(s: Settings, criteria: map<string, set<string>>, trace: seq<Event>, more: seq<Event>)
    requires Lawful(s, criteria, trace) && trace <= more
    requires forall i | |trace| <= i < |more| :: !more[i].Attempt? && !more[i].Posted? && !more[i].Called?
    ensures Lawful(s, criteria, more)
  {
    forall i | 0 <= i < |trace|
      ensures AttemptJustified(s, criteria, trace, i) ==> AttemptJustified(s, criteria, more, i)
      ensures PostJustified(s, criteria, trace, i) ==> PostJustified(s, criteria, more, i)
      ensures CallJustified(s, criteria, trace, i) ==> CallJustified(s, criteria, more, i)
    {
      JustifiedLater(s, criteria, trace, more, i);
    }
    assert forall i | 0 <= i < |trace| :: more[i] == trace[i];
  }

  /** A justified attempt followed by a safe promotion is lawful. */
  lemma LawfulPromotion(s: Settings, criteria: map<string, set<string>>, attempted: seq<Event>, more: seq<Event>,
                        clients: seq<string>, error: Option<Error>)
    requires attempted != [] && attempted <= more && Lawful(s, criteria, attempted)
    requires attempted[|attempted| - 1].Attempt?
    requires var e := attempted[|attempted| - 1]; SafePromotion(more, |attempted|, clients, e.hash, e.target, error)
    requires forall c :: c in clients <==> c in s.allowedClients
    ensures Lawful(s, criteria, more)
  {
    hide Valid, DumpToParams, AttemptJustified;
    var a := |attempted| - 1;
    assert more[a] == attempted[a];
    forall i | 0 <= i < |attempted|
      ensures AttemptJustified(s, criteria, attempted, i) ==> AttemptJustified(s, criteria, more, i)
      ensures PostJustified(s, criteria, attempted, i) ==> PostJustified(s, criteria, more, i)
      ensures CallJustified(s, criteria, attempted, i) ==> CallJustified(s, criteria, more, i)
      ensures more[i] == attempted[i]
    {
      JustifiedLater(s, criteria, attempted, more, i);
    }
    forall i | |attempted| <= i < |more| && more[i].Posted? ensures PostJustified(s, criteria, more, i) {
      assert PostJustifiedBy(s, criteria, more, i, a);
    }
    forall i | |attempted| <= i < |more| && more[i].Called? ensures CallJustified(s, criteria, more, i) {
      assert CallJustifiedBy(s, criteria, more, i, a);
    }
  }

  /** Judging a candidate records a verdict and edits one set. */
  lemma JudgingIsLawful(s: Settings, criteria: map<string, set<string>>, st: State, h: Hash, p: Promotion,
                        passed: set<string>)
    requires WellConfigured(s) && IsConfigured(s, p) && p.target in st.criteria
    requires Lawful(s, criteria, st.net.trace) && CriteriaEdited(s, criteria, st)
    ensures var r := Judge(st, h, p, passed);
            Lawful(s, criteria, r.net.trace) && CriteriaEdited(s, criteria, r)
  {
    hide Valid, AttemptJustified, PostJustified, CallJustified, Edited, Substitute;
    var r := Judge(st, h, p, passed);
    LawfulLater(s, criteria, st.net.trace, r.net.trace);
    forall q | IsConfigured(s, q) && q.target in criteria
      ensures Edited(criteria[q.target], q.alternatives, r.criteria[q.target])
    {
      if q.target == p.target {
        var i, j :| 0 <= i < |s.promotions| && 0 <= j < |s.promotions| && s.promotions[i] == p && s.promotions[j] == q;
        assert i == j;
        SubstituteEdits(criteria[p.target], p.alternatives, st.criteria[p.target], passed);
      }
    }
  }

  /** Attempting a candidate with nothing missing is justified by the verdict just recorded. */
  lemma AttemptIsLawful(s: Settings, criteria: map<string, set<string>>, st: State, h: Hash, p: Promotion,
                        passed: set<string>)
    requires WellConfigured(s) && IsConfigured(s, p) && p.target in st.criteria
    requires Lawful(s, criteria, st.net.trace) && CriteriaEdited(s, criteria, st)
    requires Judge(st, h, p, passed).criteria[p.target] - passed == {}
    ensures Lawful(s, criteria, Note(Judge(st, h, p, passed).net, Attempt(p.target, h)).trace)
  {
    JudgingIsLawful(s, criteria, st, h, p, passed);
    var judged := Judge(st, h, p, passed);
    NothingMissing(criteria[p.target], p.alternatives, st.criteria[p.target], passed);
    OneMoreAttempt(s, criteria, judged.net.trace, h, p, passed);
  }

  lemma OneMoreAttempt(s: Settings, criteria: map<string, set<string>>, trace: seq<Event>, h: Hash, p: Promotion,
                       passed: set<string>)
    requires IsConfigured(s, p) && p.target in criteria && AnsweredFor(criteria[p.target], p.alternatives, passed)
    requires trace != [] && trace[|trace| - 1] == Judged(p.target, h, passed, {})
    requires Lawful(s, criteria, trace)
    ensures Lawful(s, criteria, trace + [Attempt(p.target, h)])
  {
    hide Valid, AnsweredFor;
    var more := trace + [Attempt(p.target, h)];
    assert more[|trace| - 1] == trace[|trace| - 1];
    assert AttemptJustified(s, criteria, more, |trace|);
    forall i | 0 <= i < |trace|
      ensures AttemptJustified(s, criteria, trace, i) ==> AttemptJustified(s, criteria, more, i)
      ensures PostJustified(s, criteria, trace, i) ==> PostJustified(s, criteria, more, i)
      ensures CallJustified(s, criteria, trace, i) ==> CallJustified(s, criteria, more, i)
      ensures more[i] == trace[i]
    {
      JustifiedLater(s, criteria, trace, more, i);
    }
  }

  /** A stretch of a run: lawful, with edited criteria, and ended by a failed check. */
  ghost predicate SafeStretch(s: Settings, criteria: map<string, set<string>>, from: nat, st: State,
                              error: Option<Error>)
  {
    && Lawful(s, criteria, st.net.trace)
    && CriteriaEdited(s, criteria, st)
    && FailedCheckEnds(st.net.trace, from, error)
  }

  lemma {:induction false} TryingIsSafe(s: Settings, criteria: map<string, set<string>>, st: State,
                                        candidates: seq<Hash>, p: Promotion)
    requires WellConfigured(s) && IsConfigured(s, p) && p.target in st.criteria
    requires Lawful(s, criteria, st.net.trace) && CriteriaEdited(s, criteria, st)
    ensures var r := TryCandidates(s, st, candidates, p);
            SafeStretch(s, criteria, |st.net.trace|, r.state, r.error)
    decreases |candidates|
  {
    hide Valid, AttemptJustified, PostJustified, CallJustified, CriteriaEdited, Judge, Advance, Edited, DriveClients;
    if candidates == [] {
    } else {
      var turn, asked, h := NextTurn(st.net), st.(net := Advance(st.net)), candidates[0];
      LawfulLater(s, criteria, st.net.trace, asked.net.trace);
      SameCriteria(s, criteria, st, asked);
      if ApiFault(turn).None? {
        var judged := Judge(asked, h, p, turn.votes);
        JudgingIsLawful(s, criteria, asked, h, p, turn.votes);
        JudgeAddsVerdict(asked, h, p, turn.votes);
        if judged.criteria[p.target] - turn.votes != {} {
          TryingIsSafe(s, criteria, judged, candidates[1..], p);
        } else {
          AttemptIsLawful(s, criteria, asked, h, p, turn.votes);
          var attempted := judged.(net := Note(judged.net, Attempt(p.target, h)));
          PromotingIsSafe(s, criteria, attempted, h, p.target);
          SameCriteria(s, criteria, judged, DriveClients(s, attempted, h, p.target).state);
        }
      }
    }
  }

  lemma SameCriteria(s: Settings, criteria: map<string, set<string>>, a: State, b: State)
    requires CriteriaEdited(s, criteria, a) && b.criteria == a.criteria
    ensures CriteriaEdited(s, criteria, b)
  {
  }

  lemma JudgeAddsVerdict(st: State, h: Hash, p: Promotion, passed: set<string>)
    requires p.target in st.criteria
    ensures var r := Judge(st, h, p, passed);
            r.net.trace == st.net.trace + [Judged(p.target, h, passed, r.criteria[p.target] - passed)]
                && p.target in r.criteria
  {
  }

  lemma PromotingIsSafe(s: Settings, criteria: map<string, set<string>>, attempted: State, h: Hash, target: string)
    requires WellConfigured(s) && Lawful(s, criteria, attempted.net.trace)
    requires attempted.net.trace != [] && attempted.net.trace[|attempted.net.trace| - 1] == Attempt(target, h)
    ensures var r := DriveClients(s, attempted, h, target);
            Lawful(s, criteria, r.state.net.trace) && FailedCheckEnds(r.state.net.trace, |attempted.net.trace|, r.error)
  {
    hide Valid, AttemptJustified, PostJustified, CallJustified, Lawful;
    var clients := SortDescending(s.allowedClients);
    SortKeepsClients(s.allowedClients);
    PromotionIsSafe(Targets(s.promotions), attempted, clients, h, target);
    var r := DriveClients(s, attempted, h, target);
    LawfulPromotion(s, criteria, attempted.net.trace, r.state.net.trace, clients, r.error);
  }

  lemma LabelIsSafe(s: Settings, criteria: map<string, set<string>>, st: State, p: Promotion)
    requires WellConfigured(s) && IsConfigured(s, p)
    requires Lawful(s, criteria, st.net.trace) && CriteriaEdited(s, criteria, st)
    ensures var r := PromoteLabel(s, st, p);
            && st.net.trace <= r.state.net.trace
            && SafeStretch(s, criteria, |st.net.trace|, r.state, r.error)
  {
    hide Valid, Lawful, CriteriaEdited, SelectCandidates, TryCandidates;
    var (net, selected) := SelectCandidates(st.net, p.candidate, p.target, s.latestHashesCount);
    var ready := st.(net := net);
    LawfulLater(s, criteria, st.net.trace, net.trace);
    SameCriteria(s, criteria, st, ready);
    if selected.Returned? && selected.value != [] && p.target in st.criteria {
      TryingIsSafe(s, criteria, ready, selected.value, p);
    }
  }

  lemma {:induction false} RestIsSafe(s: Settings, criteria: map<string, set<string>>, st: State, ps: seq<Promotion>,
                                      pairs: seq<(Hash, string)>)
    requires WellConfigured(s) && forall p | p in ps :: IsConfigured(s, p)
    requires Lawful(s, criteria, st.net.trace) && CriteriaEdited(s, criteria, st)
    ensures var r := PromoteRest(s, st, ps, pairs);
            && st.net.trace <= r.state.net.trace
            && SafeStretch(s, criteria, |st.net.trace|, r.state, r.error)
    decreases |ps|
  {
    hide Valid, Lawful, CriteriaEdited, PromoteLabel;
    if ps == [] {
    } else {
      LabelIsSafe(s, criteria, st, ps[0]);
      var r := PromoteLabel(s, st, ps[0]);
      if r.error.None? || r.error == Some(PromotionError) {
        var more := if r.promoted.Some? then pairs + [(r.promoted.value, ps[0].target)] else pairs;
        RestIsSafe(s, criteria, r.state, ps[1..], more);
        var end := PromoteRest(s, r.state, ps[1..], more);
        NoFailedCheckThenSafe(st.net.trace, r.state.net.trace, end.state.net.trace, r.error, end.error);
      }
    }
  }

  lemma NoFailedCheckThenSafe(start: seq<Event>, mid: seq<Event>, end: seq<Event>, error: Option<Error>,
                              error': Option<Error>)
    requires start <= mid <= end && FailedCheckEnds(mid, |start|, error) && error != Some(HashChangedError)
    requires FailedCheckEnds(end, |mid|, error')
    ensures FailedCheckEnds(end, |start|, error')
  {
    assert forall i | |start| <= i < |mid| :: mid[i] == end[i];
  }

  /** Any run of the promoter, from an empty trace, in any environment. Every hash handed to
      `promote` was judged right before with nothing missing, and every job of the criteria as
      configured is answered for by a job it passed, through a chain of alternatives, although
      earlier verdicts edited the shared sets. Every call of a client belongs to the latest such
      attempt and follows at once on a check passed since. Every label post belongs to it too,
      and comes after all other allowed clients finished it. A failed check is the last thing
      that happens. */
  lemma WholeRunIsSafe(s: Settings, st: State)
    requires WellConfigured(s) && st.net.trace == []
    ensures var r := PromoteAll(s, st);
            && Lawful(s, st.criteria, r.state.net.trace)
            && FailedCheckEnds(r.state.net.trace, 0, r.error)
  {
    hide Valid, Edited, PromoteRest;
    var named := FetchNamed(st.net, Targets(s.promotions), map[]);
    var started := st.(net := named.net, stored := st.stored + named.hashes);
    forall p | IsConfigured(s, p) && p.target in st.criteria
      ensures Edited(st.criteria[p.target], p.alternatives, st.criteria[p.target])
    {
      EditedAtFirst(st.criteria[p.target], p.alternatives);
    }
    assert Lawful(s, st.criteria, named.net.trace);
    if named.error.None? {
      RestIsSafe(s, st.criteria, started, s.promotions, []);
      NoFailedCheckThenSafe([], named.net.trace, PromoteAll(s, st).state.net.trace, None, PromoteAll(s, st).error);
    }
  }
}
