/** Which candidates a label's promotion considers, and in what order it decides on them. */
module CandidateTheorems {
  import opened Outcomes
  import opened DlrnHashes
  import opened PromotionApi
  import opened DlrnClientSpec
  import opened ClientOrder
  import opened PromoterSpec
  import opened PromoterTheorems

  // ---- Converting the API's answer ----

  /** The hashes of `r` from index `from` on are conversions of distinct entries, in order. */
  predicate ReadsInOrder(rs: seq<ApiHash>, r: seq<Hash>, from: nat, idx: seq<nat>) {
    && |idx| + from == |r|
    && (forall k | 0 <= k < |idx| :: idx[k] < |rs| && Convert(rs[idx[k]]) == Returned(Some(r[from + k])))
    && (forall j, k | 0 <= j < k < |idx| :: idx[j] < idx[k])
  }

  predicate NoRepeats(hs: seq<Hash>) {
    forall j, k | 0 <= j < k < |hs| :: !Eq(hs[j], hs[k])
  }

  predicate Listed(hs: seq<Hash>, h: Hash) {
    exists d | d in hs :: Eq(d, h)
  }

  /** What is read from the rest of an answer is read one place further on in all of it. */
  lemma ReadsLater(rs: seq<ApiHash>, r: seq<Hash>, from: nat, tail: seq<nat>) returns (idx: seq<nat>)
    requires rs != [] && ReadsInOrder(rs[1..], r, from, tail)
    ensures ReadsInOrder(rs, r, from, idx) && forall k | 0 <= k < |idx| :: idx[k] > 0
  {
    hide Valid, Convert;
    idx := seq(|tail|, k requires 0 <= k < |tail| => tail[k] + 1);
  }

  /** The converted list keeps the answer's order, has no hash equal to an earlier one, and
      leaves out only old-format entries and repetitions. */
  lemma {:induction false} ConvertAllReads(rs: seq<ApiHash>, done: seq<Hash>) returns (idx: seq<nat>)
    requires NoRepeats(done) && ConvertAll(rs, done).Returned?
    ensures var r := ConvertAll(rs, done).value;
            && done <= r && NoRepeats(r) && ReadsInOrder(rs, r, |done|, idx)
            && forall e | e in rs ::
                 Convert(e).Returned? && (Convert(e).value.Some? ==> Listed(r, Convert(e).value.value))
    decreases |rs|
  {
    hide Valid, Convert, Eq;
    if rs == [] {
      return [];
    }
    var rest := rs[1..];
    var r := ConvertAll(rs, done).value;
    match Convert(rs[0]).value
    case None =>
      var tail := ConvertAllReads(rest, done);
      idx := ReadsLater(rs, r, |done|, tail);
    case Some(h) =>
      if Listed(done, h) {
        var tail := ConvertAllReads(rest, done);
        idx := ReadsLater(rs, r, |done|, tail);
        var d :| d in done && Eq(d, h);
        assert d in r;
      } else {
        assert NoRepeats(done + [h]) by {
          assert forall j | 0 <= j < |done| :: done[j] in done;
        }
        var tail := ConvertAllReads(rest, done + [h]);
        var later := ReadsLater(rs, r, |done| + 1, tail);
        idx := [0] + later;
        assert r[|done|] == (done + [h])[|done|] == h;
        EqIsReflexive(h);
        assert h in r;
      }
  }

  lemma EqIsReflexive(h: Hash)
    ensures Eq(h, h)
  {
  }

  // ---- Selecting ----

  /** The selection is exactly the longest prefix of the candidates in which no full hash occurs
      in the target's history; it is empty when candidate and target label coincide. */
  lemma {:induction false} SelectIsLongestUnpromotedPrefix(candidates: seq<Hash>, promoted: seq<Hash>)
    ensures var r := Select(candidates, promoted, false);
            && r <= candidates
            && (forall h | h in r :: !InHistory(h, promoted))
            && (|r| < |candidates| ==> InHistory(candidates[|r|], promoted))
    ensures Select(candidates, promoted, true) == []
  {
    hide Valid, InHistory;
    if candidates == [] || InHistory(candidates[0], promoted) {
    } else {
      SelectIsLongestUnpromotedPrefix(candidates[1..], promoted);
      var rest := Select(candidates[1..], promoted, false);
      var r := Select(candidates, promoted, false);
      assert r == [candidates[0]] + rest;
      assert candidates == [candidates[0]] + candidates[1..];
    }
  }

  /** For hashes of one class: a candidate is selected exactly when neither it nor a newer candidate is
      the same build as anything in the target's history. */
  lemma SelectedAreNew(candidates: seq<Hash>, promoted: seq<Hash>, kind: Kind, i: nat)
    requires i < |candidates|
    requires forall h | h in candidates || h in promoted :: h.kind == kind && IsPlain(h)
    ensures i < |Select(candidates, promoted, false)| <==>
            forall j, p | 0 <= j <= i && p in promoted :: !SameBuild(candidates[j], p)
  {
    hide Valid, FullHash, SameBuild;
    SelectIsLongestUnpromotedPrefix(candidates, promoted);
    var n := |Select(candidates, promoted, false)|;
    if i < n {
      forall j, p | 0 <= j <= i && p in promoted ensures !SameBuild(candidates[j], p) {
        assert Select(candidates, promoted, false)[j] == candidates[j];
        assert candidates[j] in Select(candidates, promoted, false) && !InHistory(candidates[j], promoted);
        SharedFullHashIff(candidates[j], p);
      }
    } else {
      var p :| p in promoted && FullHash(p) == FullHash(candidates[n]);
      SharedFullHashIff(candidates[n], p);
    }
  }

  /** What `select_candidates` returns, for any history and count other than 1. */
  lemma SelectedAre(net: Net, candidate: string, target: string, count: Option<int>)
    requires count != Some(1) && SelectCandidates(net, candidate, target, count).1.Returned?
    ensures var selected := SelectCandidates(net, candidate, target, count).1.value;
            var asked := Advance(net);
            var all := ConvertAll(Answer(asked, candidate, count), []);
            && all.Returned? && NoRepeats(all.value)
            && selected <= all.value
            && (all.value != [] && candidate != target ==>
                 var earlier := ConvertAll(Answer(Advance(asked), target, None), []);
                 && earlier.Returned?
                 && (forall h | h in selected :: !InHistory(h, earlier.value))
                 && (|selected| < |all.value| ==> InHistory(all.value[|selected|], earlier.value)))
            && (candidate == target ==> selected == [])
  {
    hide Valid, InHistory, Answer, ConvertAll;
    var all := ConvertAll(Answer(Advance(net), candidate, count), []);
    var idx := ConvertAllReads(Answer(Advance(net), candidate, count), []);
    if all.value != [] {
      var promoted := ConvertAll(Answer(Advance(Advance(net)), target, None), []);
      SelectIsLongestUnpromotedPrefix(all.value, promoted.value);
      assert candidate == target ==> Select(all.value, promoted.value, true) == [];
    }
  }

  // ---- Deciding ----

  predicate IsDecision(e: Event) {
    e.Judged? || e.Attempt?
  }

  /** The verdicts and attempts of a trace, in order. */
  function Decisions(trace: seq<Event>): seq<Event> {
    Only(trace, IsDecision)
  }

  /** Candidates are judged newest first; each one with a missing job gives way to the next,
      and the first without is attempted, after which nothing more is decided. */
  predicate DecidedInOrder(decided: seq<Event>, candidates: seq<Hash>, target: string) {
    decided == [] ||
    (&& candidates != []
     && decided[0].Judged? && decided[0].target == target && decided[0].hash == candidates[0]
     && if decided[0].missing != {} then DecidedInOrder(decided[1..], candidates[1..], target)
        else decided[1..] == [Attempt(target, candidates[0])])
  }

  /** Driving the clients decides nothing. */
  lemma DrivingDecidesNothing(s: Settings, st: State, h: Hash, target: string)
    requires WellConfigured(s)
    ensures Decisions(DriveClients(s, st, h, target).state.net.trace) == Decisions(st.net.trace)
  {
    hide Valid, PromoteWith;
    SortKeepsClients(s.allowedClients);
    var clients := SortDescending(s.allowedClients);
    PromotionIsSafe(Targets(s.promotions), st, clients, h, target);
    NoneAdded(st.net.trace, DriveClients(s, st, h, target).state.net.trace, IsDecision);
  }

  /** Trying candidates: at most one is attempted, every newer one had a missing job when it was
      judged, and a promoted hash is the attempted one. When nothing was promoted without an
      error, every candidate was judged and had a missing job. */
  lemma {:induction false} TriedInOrder(s: Settings, st: State, candidates: seq<Hash>, p: Promotion)
    returns (decided: seq<Event>)
    requires WellConfigured(s) && p.target in st.criteria
    ensures var r := TryCandidates(s, st, candidates, p);
            && Decisions(r.state.net.trace) == Decisions(st.net.trace) + decided
            && DecidedInOrder(decided, candidates, p.target)
            && (r.promoted.Some? ==> decided != [] && decided[|decided| - 1] == Attempt(p.target, r.promoted.value))
            && (r.error.None? && r.promoted.None? ==> |decided| == |candidates| && forall e | e in decided :: e.Judged?)
    decreases |candidates|
  {
    hide Valid, Judge, Advance, DriveClients, Only, NextTurn;
    if candidates == [] {
      return [];
    }
    var turn, asked, h := NextTurn(st.net), st.(net := Advance(st.net)), candidates[0];
    NoneAdded(st.net.trace, asked.net.trace, IsDecision);
    if ApiFault(turn).Some? {
      return [];
    }
    var judged := Judge(asked, h, p, turn.votes);
    JudgeAddsVerdict(asked, h, p, turn.votes);
    var verdict := Judged(p.target, h, turn.votes, judged.criteria[p.target] - turn.votes);
    OneAdded(asked.net.trace, verdict, IsDecision);
    if verdict.missing != {} {
      var rest := TriedInOrder(s, judged, candidates[1..], p);
      decided := [verdict] + rest;
      assert decided[1..] == rest;
    } else {
      var attempted := judged.(net := Note(judged.net, Attempt(p.target, h)));
      OneAdded(judged.net.trace, Attempt(p.target, h), IsDecision);
      DrivingDecidesNothing(s, attempted, h, p.target);
      decided := [verdict, Attempt(p.target, h)];
    }
  }

  /** One label: the decisions are on a prefix of the selected candidates, in order. */
  lemma LabelDecidesInOrder(s: Settings, st: State, p: Promotion) returns (decided: seq<Event>)
    requires WellConfigured(s)
    ensures var r := PromoteLabel(s, st, p);
            var selected := SelectCandidates(st.net, p.candidate, p.target, s.latestHashesCount).1;
            && Decisions(r.state.net.trace) == Decisions(st.net.trace) + decided
            && (selected.Raised? ==> decided == [])
            && (selected.Returned? ==> DecidedInOrder(decided, selected.value, p.target))
            && (r.error.None? && r.promoted.None? ==>
                 selected.Returned? && |decided| == |selected.value| && forall e | e in decided :: e.Judged?)
            && (r.promoted.Some? ==> decided != [] && decided[|decided| - 1] == Attempt(p.target, r.promoted.value))
  {
    hide Valid, SelectCandidates, TryCandidates, Only;
    var (net, selected) := SelectCandidates(st.net, p.candidate, p.target, s.latestHashesCount);
    var ready := st.(net := net);
    NoneAdded(st.net.trace, net.trace, IsDecision);
    if selected.Returned? && selected.value != [] && p.target in st.criteria {
      decided := TriedInOrder(s, ready, selected.value, p);
    } else {
      decided := [];
    }
  }
}
