/** What a whole run comes to in any environment: how one label ends, turn by turn, and how the
    outcomes of the labels make up the outcome of the run. */
module RunLaws {
  import opened Outcomes
  import opened DlrnHashes
  import opened PromotionApi
  import opened Criteria
  import opened DlrnClientSpec
  import opened DlrnClientTheorems
  import opened DlrnClientLaws
  import opened ClientOrder
  import opened PromoterSpec
  import opened CompletionTheorems
  import opened DrivingLaws

  // ---- Selecting ----

  /** A conversion fails as its first unreadable entry does. */
  lemma {:induction false} ConvertAllRaises(rs: seq<ApiHash>, done: seq<Hash>)
    ensures var r := ConvertAll(rs, done);
            && (r.Returned? ==> forall k | 0 <= k < |rs| :: Convert(rs[k]).Returned?)
            && (r.Raised? ==> exists k :: 0 <= k < |rs| && RaisesFirst(rs, k, r.error))
    decreases |rs|
  {
    hide Valid, Convert, Eq;
    if rs == [] {
    } else if Convert(rs[0]).Raised? {
      var e := Convert(rs[0]).error;
      assert ConvertAll(rs, done) == Raised(e) && RaisesFirst(rs, 0, e);
    } else {
      var done' := match Convert(rs[0]).value
                   case None => done
                   case Some(h) => if exists d | d in done :: Eq(d, h) then done else done + [h];
      ConvertAllRaises(rs[1..], done');
      if ConvertAll(rs, done).Raised? {
        var e := ConvertAll(rs, done).error;
        var k :| 0 <= k < |rs[1..]| && RaisesFirst(rs[1..], k, e);
        assert forall j | 0 < j <= k + 1 :: rs[j] == rs[1..][j - 1];
        assert RaisesFirst(rs, k + 1, e);
      } else {
        assert forall j | 0 < j < |rs| :: rs[j] == rs[1..][j - 1];
      }
    }
  }

  predicate RaisesFirst(rs: seq<ApiHash>, k: nat, e: Error)
    requires k < |rs|
  {
    Convert(rs[k]) == Raised(e) && forall j | 0 <= j < k :: Convert(rs[j]).Returned?
  }

  /** The answer to a query is a prefix of the label's history, newest first, of the length asked for,
      or of the server's page, or all there is. */
  lemma AnswerIsNewest(net: Net, name: string, count: Option<int>)
    ensures var r, history := Answer(net, name, count), History(net, name);
            && r <= history
            && (count.Some? && count.value >= 0 ==> |r| == count.value || (|r| < count.value && r == history))
            && (count.None? || count.value < 0 ==> |r| == net.page || (|r| < net.page && r == history))
  {
    hide Valid;
  }

  /** Selecting, in any environment: the candidates are asked for in one turn and, unless that fails
      or finds none, the target's history in a second one; one hash instead of a list is an error. */
  lemma SelectionOutcome(net: Net, candidate: string, target: string, count: Option<int>)
    ensures var (after, r) := SelectCandidates(net, candidate, target, count);
            var all := ConvertAll(Answer(After(net, 1), candidate, count), []);
            var earlier := ConvertAll(Answer(After(net, 2), target, None), []);
            if TurnAt(net, 0).fault.Some? then
              after == After(net, 1) && r == Raised(Escaping(TurnAt(net, 0).fault.value, false))
            else if all.Raised? || all.value == [] then after == After(net, 1) && r == all
            else if count == Some(1) then after == After(net, 1) && r == Raised(TypeError)
            else if TurnAt(net, 1).fault.Some? then
              after == After(net, 2) && r == Raised(Escaping(TurnAt(net, 1).fault.value, false))
            else if earlier.Raised? then after == After(net, 2) && r == earlier
            else after == After(net, 2) && r == Returned(Select(all.value, earlier.value, candidate == target))
  {
    hide Valid, ConvertAll, Answer, Advance, Select, ApiFault, Later;
    var asked := Advance(net);
    TurnIsNext(net);
    TurnIsNext(asked);
    TurnLater(net, asked, 1, 0);
    FaultEscapes(NextTurn(net));
    FaultEscapes(NextTurn(asked));
    assert After(net, 1) == After(asked, 0) == asked;
    assert After(net, 2) == After(asked, 1) == After(Advance(asked), 0) == Advance(asked);
  }

  // ---- Trying candidates ----

  /** The passed jobs that the first n candidates are judged by. */
  function Votes(net: Net, n: nat): (r: seq<set<string>>)
    ensures |r| == n && forall i | 0 <= i < n :: r[i] == TurnAt(net, i).votes
  {
    seq(n, i requires 0 <= i < n => TurnAt(net, i).votes)
  }

  lemma VotesNext(net: Net, n: nat)
    ensures Votes(net, n + 1)[..n] == Votes(net, n) && Votes(net, n + 1)[n] == TurnAt(net, n).votes
  {
  }

  /** The set that the k-th candidate is judged against. */
  function RequiredAt(net: Net, required: set<string>, alts: Alternatives, k: nat): set<string> {
    AfterCandidates(required, alts, Votes(net, k))
  }

  lemma RequiredNext(net: Net, required: set<string>, alts: Alternatives, k: nat)
    ensures RequiredAt(net, required, alts, 0) == required
    ensures RequiredAt(net, required, alts, k + 1) ==
            Substitute(RequiredAt(net, required, alts, k), alts, TurnAt(net, k).votes)
  {
    hide Substitute;
    VotesNext(net, k);
  }

  /** The first k candidates' jobs could be fetched, and each of these candidates misses some job. */
  ghost predicate Refused(net: Net, required: set<string>, alts: Alternatives, k: nat) {
    forall j | 0 <= j < k ::
      TurnAt(net, j).fault.None? && !Met(RequiredAt(net, required, alts, j), alts, TurnAt(net, j).votes)
  }

  /** Nothing was called, posted or stored; the target's set is this one, and the server and the
      environment are where they are after these turns. */
  ghost predicate OnlyJudged(st: State, r: State, target: string, required: set<string>, turns: nat) {
    && Bare(r.net) == Bare(After(st.net, turns)) && r.stored == st.stored
    && r.criteria == st.criteria[target := required]
    && Only(r.net.trace, IsCall) == Only(st.net.trace, IsCall)
    && Only(r.net.trace, IsPost) == Only(st.net.trace, IsPost)
  }

  lemma JudgedNext(st: State, mid: State, p: Promotion, k: nat, h: Hash)
    requires p.target in st.criteria
    requires OnlyJudged(st, mid, p.target, RequiredAt(st.net, st.criteria[p.target], p.alternatives, k), k)
    ensures NextTurn(mid.net) == TurnAt(st.net, k)
    ensures var required := st.criteria[p.target];
            var asked := mid.(net := Advance(mid.net));
            var judged := Judge(asked, h, p, NextTurn(mid.net).votes);
            && OnlyJudged(st, asked, p.target, RequiredAt(st.net, required, p.alternatives, k), k + 1)
            && OnlyJudged(st, judged, p.target, RequiredAt(st.net, required, p.alternatives, k + 1), k + 1)
            && (judged.criteria[p.target] - NextTurn(mid.net).votes == {} <==>
                Met(RequiredAt(st.net, required, p.alternatives, k), p.alternatives, TurnAt(st.net, k).votes))
  {
    hide Valid, Only, Advance, RequiredAt, After, TurnAt, NextTurn, Substitute, MissingJobs;
    CallMeetsTurn(st.net, mid.net, k);
    var required := st.criteria[p.target];
    var votes, asked := NextTurn(mid.net).votes, mid.(net := Advance(mid.net));
    RequiredNext(st.net, required, p.alternatives, k);
    MissingAfterSubstitution(RequiredAt(st.net, required, p.alternatives, k), p.alternatives, votes);
    var judged := Judge(asked, h, p, votes);
    NoneAdded(mid.net.trace, asked.net.trace, IsCall);
    NoneAdded(mid.net.trace, asked.net.trace, IsPost);
    NoneAdded(asked.net.trace, judged.net.trace, IsCall);
    NoneAdded(asked.net.trace, judged.net.trace, IsPost);
  }

  /** After k refused candidates the loop goes on with the others. */
  lemma {:induction false} ReachCandidate(s: Settings, st: State, candidates: seq<Hash>, p: Promotion, k: nat)
    returns (mid: State)
    requires p.target in st.criteria && k <= |candidates|
    requires Refused(st.net, st.criteria[p.target], p.alternatives, k)
    ensures OnlyJudged(st, mid, p.target, RequiredAt(st.net, st.criteria[p.target], p.alternatives, k), k)
    ensures TryCandidates(s, st, candidates, p) == TryCandidates(s, mid, candidates[k..], p)
    decreases k
  {
    hide Valid, Only, Advance, RequiredAt, After, TurnAt, NextTurn, Judge, DriveClients, ApiFault, Met;
    var required := st.criteria[p.target];
    if k == 0 {
      mid := st;
      RequiredNext(st.net, required, p.alternatives, 0);
      NoTurns(st.net);
      assert candidates[0..] == candidates;
      SameEntry(st.criteria, p.target);
    } else {
      assert Refused(st.net, required, p.alternatives, k - 1);
      var before := ReachCandidate(s, st, candidates, p, k - 1);
      JudgedNext(st, before, p, k - 1, candidates[k - 1]);
      FaultEscapes(NextTurn(before.net));
      mid := Judge(before.(net := Advance(before.net)), candidates[k - 1], p, NextTurn(before.net).votes);
      assert candidates[k - 1..][0] == candidates[k - 1] && candidates[k - 1..][1..] == candidates[k..];
    }
  }

  lemma NoTurns(net: Net)
    ensures After(net, 0) == net
  {
  }

  lemma SameEntry(criteria: map<string, set<string>>, target: string)
    requires target in criteria
    ensures criteria[target := criteria[target]] == criteria
  {
  }

  /** The candidate that ends the loop: its jobs cannot be fetched, or it misses nothing. */
  ghost predicate Decides(net: Net, required: set<string>, alts: Alternatives, k: nat) {
    TurnAt(net, k).fault.Some? || Met(RequiredAt(net, required, alts, k), alts, TurnAt(net, k).votes)
  }

  lemma {:induction false} FirstDeciding(net: Net, required: set<string>, alts: Alternatives, n: nat)
    returns (k: nat)
    ensures k <= n && Refused(net, required, alts, k) && (k < n ==> Decides(net, required, alts, k))
    decreases n
  {
    hide Met, RequiredAt, TurnAt;
    if n == 0 {
      k := 0;
    } else {
      k := FirstDeciding(net, required, alts, n - 1);
      if k == n - 1 && !Decides(net, required, alts, k) {
        k := n;
      }
    }
  }

  /** How trying candidates ends when the k-th is the first to decide: in the exception of the failing
      query, or as driving the clients with that candidate ends, from the state that the verdicts
      left; and with nothing promoted when there is none. */
  ghost predicate TriedOutcome(s: Settings, st: State, candidates: seq<Hash>, p: Promotion, r: Tried, k: nat,
                               attempted: State)
    requires p.target in st.criteria && k <= |candidates|
  {
    var required := st.criteria[p.target];
    if k == |candidates| then
      r.error.None? && r.promoted.None?
      && OnlyJudged(st, r.state, p.target, RequiredAt(st.net, required, p.alternatives, k), k)
    else if TurnAt(st.net, k).fault.Some? then
      r.error == Some(Escaping(TurnAt(st.net, k).fault.value, false)) && r.promoted.None?
      && OnlyJudged(st, r.state, p.target, RequiredAt(st.net, required, p.alternatives, k), k + 1)
    else
      var driven := DriveClients(s, attempted, candidates[k], p.target);
      && OnlyJudged(st, attempted, p.target, RequiredAt(st.net, required, p.alternatives, k + 1), k + 1)
      && r.state == driven.state && r.error == driven.error
      && r.promoted == if driven.error.None? then Some(candidates[k]) else None
  }

  /** Trying candidates in any environment. */
  lemma TryingOutcome(s: Settings, st: State, candidates: seq<Hash>, p: Promotion)
    returns (k: nat, attempted: State)
    requires p.target in st.criteria
    ensures k <= |candidates| && Refused(st.net, st.criteria[p.target], p.alternatives, k)
    ensures k < |candidates| ==> Decides(st.net, st.criteria[p.target], p.alternatives, k)
    ensures TriedOutcome(s, st, candidates, p, TryCandidates(s, st, candidates, p), k, attempted)
  {
    hide Valid, Only, Advance, RequiredAt, After, TurnAt, NextTurn, Judge, DriveClients, ApiFault, Met, Refused;
    k := FirstDeciding(st.net, st.criteria[p.target], p.alternatives, |candidates|);
    var mid := ReachCandidate(s, st, candidates, p, k);
    attempted := mid;
    if k < |candidates| {
      JudgedNext(st, mid, p, k, candidates[k]);
      FaultEscapes(NextTurn(mid.net));
      assert candidates[k..][0] == candidates[k];
      var judged := Judge(mid.(net := Advance(mid.net)), candidates[k], p, NextTurn(mid.net).votes);
      attempted := judged.(net := Note(judged.net, Attempt(p.target, candidates[k])));
      NoneAdded(judged.net.trace, attempted.net.trace, IsCall);
      NoneAdded(judged.net.trace, attempted.net.trace, IsPost);
    }
  }

  // ---- One label ----

  /** One label in any environment: it ends as selecting does when that fails or finds nothing, in a
      KeyError without criteria, and else as trying the selected candidates does. */
  lemma LabelOutcome(s: Settings, st: State, p: Promotion) returns (k: nat, attempted: State)
    ensures var (net, selected) := SelectCandidates(st.net, p.candidate, p.target, s.latestHashesCount);
            var ready, r := st.(net := net), PromoteLabel(s, st, p);
            if selected.Raised? then r == Tried(ready, None, Some(selected.error))
            else if selected.value == [] then r == Tried(ready, None, None)
            else if p.target !in st.criteria then r == Tried(ready, None, Some(KeyError))
            else
              && k <= |selected.value| && Refused(net, st.criteria[p.target], p.alternatives, k)
              && (k < |selected.value| ==> Decides(net, st.criteria[p.target], p.alternatives, k))
              && TriedOutcome(s, ready, selected.value, p, r, k, attempted)
  {
    hide Valid, SelectCandidates, TryCandidates, TriedOutcome, Refused, Decides;
    var (net, selected) := SelectCandidates(st.net, p.candidate, p.target, s.latestHashesCount);
    k, attempted := 0, st;
    if selected.Returned? && selected.value != [] && p.target in st.criteria {
      k, attempted := TryingOutcome(s, st.(net := net), selected.value, p);
    }
  }

  // ---- The labels of a run ----

  /** The state in which the i-th label is promoted, when all before it are. */
  function LabelState(s: Settings, st: State, ps: seq<Promotion>, i: nat): State
    requires i <= |ps|
    decreases i, 0
  {
    if i == 0 then st else LabelRun(s, st, ps, i - 1).state
  }

  /** Promoting the i-th label there. */
  function LabelRun(s: Settings, st: State, ps: seq<Promotion>, i: nat): Tried
    requires i < |ps|
    decreases i, 1
  {
    PromoteLabel(s, LabelState(s, st, ps, i), ps[i])
  }

  /** The run goes on with the next label. */
  predicate MovesOn(error: Option<Error>) {
    error.None? || error == Some(PromotionError)
  }

  /** What the first n labels report, in order. */
  function ReportedBy(s: Settings, st: State, ps: seq<Promotion>, n: nat): seq<(Hash, string)>
    requires n <= |ps|
  {
    if n == 0 then []
    else
      var promoted := LabelRun(s, st, ps, n - 1).promoted;
      ReportedBy(s, st, ps, n - 1) + if promoted.Some? then [(promoted.value, ps[n - 1].target)] else []
  }

  /** The first n labels ended normally or in a PromotionError. */
  ghost predicate AllMoveOn(s: Settings, st: State, ps: seq<Promotion>, n: nat)
    requires n <= |ps|
  {
    forall i | 0 <= i < n :: MovesOn(LabelRun(s, st, ps, i).error)
  }

  lemma {:induction false} ReachLabel(s: Settings, st: State, ps: seq<Promotion>, pairs: seq<(Hash, string)>, n: nat)
    requires n <= |ps| && AllMoveOn(s, st, ps, n)
    ensures PromoteRest(s, st, ps, pairs) ==
            PromoteRest(s, LabelState(s, st, ps, n), ps[n..], pairs + ReportedBy(s, st, ps, n))
    decreases n
  {
    hide Valid, PromoteLabel;
    if n == 0 {
      assert ps[0..] == ps && pairs + [] == pairs;
    } else {
      ReachLabel(s, st, ps, pairs, n - 1);
      assert MovesOn(LabelRun(s, st, ps, n - 1).error);
      var r := LabelRun(s, st, ps, n - 1);
      assert ps[n - 1..][0] == ps[n - 1] && ps[n - 1..][1..] == ps[n..];
      var before, reported := ReportedBy(s, st, ps, n - 1),
          if r.promoted.Some? then [(r.promoted.value, ps[n - 1].target)] else [];
      assert (pairs + before) + reported == pairs + (before + reported);
      assert (pairs + before) + [] == pairs + before;
    }
  }

  lemma {:induction false} FirstEnding(s: Settings, st: State, ps: seq<Promotion>, n: nat) returns (k: nat)
    requires n <= |ps|
    ensures k <= n && AllMoveOn(s, st, ps, k)
    ensures k < n ==> !MovesOn(LabelRun(s, st, ps, k).error)
    decreases n
  {
    hide Valid, LabelRun, MovesOn;
    if n == 0 {
      k := 0;
    } else {
      k := FirstEnding(s, st, ps, n - 1);
      if k == n - 1 && MovesOn(LabelRun(s, st, ps, k).error) {
        k := n;
      }
    }
  }

  /** The labels of a run, in any environment. The first label that ends in an exception other than a
      PromotionError ends the run: with that exception, in the state that label left, without a
      further event or turn, and reporting what the labels before it promoted. Without such a label
      every label is tried, and the run ends normally. */
  lemma RestOutcome(s: Settings, st: State, ps: seq<Promotion>, pairs: seq<(Hash, string)>) returns (k: nat)
    ensures k <= |ps| && AllMoveOn(s, st, ps, k)
    ensures var r := PromoteRest(s, st, ps, pairs);
            if k == |ps| then r == PromoterSpec.Run(LabelState(s, st, ps, k), pairs + ReportedBy(s, st, ps, k), None)
            else
              var last := LabelRun(s, st, ps, k);
              && last.error.Some? && last.error != Some(PromotionError)
              && r == PromoterSpec.Run(last.state, pairs + ReportedBy(s, st, ps, k), last.error)
  {
    hide Valid, PromoteLabel, AllMoveOn;
    k := FirstEnding(s, st, ps, |ps|);
    ReachLabel(s, st, ps, pairs, k);
    if k < |ps| {
      assert ps[k..][0] == ps[k];
    }
  }

  /** A run starts by fetching all targets. When one cannot be read the run ends in its exception, with
      what was fetched before it stored and nothing promoted; else the labels are tried, starting with
      what was stored before and, on top, what the targets read as. */
  lemma RunOutcome(s: Settings, st: State) returns (k: nat)
    requires Distinct(Targets(s.promotions))
    ensures var names, r := Targets(s.promotions), PromoteAll(s, st);
            var named := FetchNamed(st.net, names, map[]);
            var started := st.(net := named.net, stored := st.stored + named.hashes);
            && ReadsEach(st.net, names, map[], named)
            && k <= |s.promotions|
            && if named.error.Some? then r == PromoterSpec.Run(started, [], named.error)
               else
                 && AllMoveOn(s, started, s.promotions, k)
                 && var reported := ReportedBy(s, started, s.promotions, k);
                    if k == |s.promotions| then
                      r == PromoterSpec.Run(LabelState(s, started, s.promotions, k), reported, None)
                    else
                      var last := LabelRun(s, started, s.promotions, k);
                      && last.error.Some? && last.error != Some(PromotionError)
                      && r == PromoterSpec.Run(last.state, reported, last.error)
  {
    hide Valid, LabelRun, LabelState, ReportedBy, AllMoveOn, FetchNamed, ReadsEach, PromoteRest;
    var names := Targets(s.promotions);
    var named := FetchNamed(st.net, names, map[]);
    var started := st.(net := named.net, stored := st.stored + named.hashes);
    FetchReadsEach(st.net, names, map[]);
    k := 0;
    if named.error.None? {
      k := RestOutcome(s, started, s.promotions, []);
      assert [] + ReportedBy(s, started, s.promotions, k) == ReportedBy(s, started, s.promotions, k);
    }
  }
}
