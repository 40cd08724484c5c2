/** What a promotion run achieves when nothing goes wrong outside it: no other writer, a server
    that stores what it is sent, no failing call, and histories that can be read. */
module ProgressTheorems {
  import opened Outcomes
  import opened DlrnHashes
  import opened PromotionApi
  import opened Labels
  import opened Criteria
  import opened DlrnClientSpec
  import opened DlrnClientTheorems
  import opened ClientOrder
  import opened PromoterSpec
  import opened PromoterTheorems
  import opened CandidateTheorems
  import opened SyncTheorems

  predicate AllConvert(rs: seq<ApiHash>) {
    forall e | e in rs :: Convert(e).Returned?
  }

  /** Every entry of every history is in the old format, or can be converted. */
  ghost predicate Readable(net: Net) {
    forall l :: AllConvert(History(net, l))
  }

  ghost predicate Ready(names: seq<string>, st: State) {
    Synced(names, st) && Calm(st.net) && Readable(st.net) && NoFailedCheck(st.net.trace)
  }

  lemma {:induction false} ConvertAllReturns(rs: seq<ApiHash>, done: seq<Hash>)
    requires AllConvert(rs)
    ensures ConvertAll(rs, done).Returned?
    decreases |rs|
  {
    hide Valid, Convert;
    if rs == [] {
    } else {
      assert rs[0] in rs && AllConvert(rs[1..]);
      match Convert(rs[0]).value
      case None => ConvertAllReturns(rs[1..], done);
      case Some(h) => ConvertAllReturns(rs[1..], if exists d | d in done :: Eq(d, h) then done else done + [h]);
    }
  }

  lemma SameLabelsReadable(a: Net, b: Net)
    requires Readable(a) && b.labels == a.labels
    ensures Readable(b)
  {
    hide Valid, AllConvert;
    forall l ensures AllConvert(History(b, l)) {
      assert AllConvert(History(a, l));
    }
  }

  /** An event that is not a failed check, or a turn of the environment, keeps a state ready. */
  lemma SameLabelsReady(names: seq<string>, a: State, b: State)
    requires Ready(names, a) && b.net.labels == a.net.labels && b.stored == a.stored
    requires Calm(b.net) && NoFailedCheck(b.net.trace)
    ensures Ready(names, b)
  {
    hide Valid, InSync;
    SyncedOnSameLabels(names, a, b);
    SameLabelsReadable(a.net, b.net);
  }

  lemma LatestReturns(net: Net, name: string)
    requires Readable(net)
    ensures Latest(net, name).Returned?
  {
    hide Valid, Convert;
    assert AllConvert(History(net, name));
  }

  // ---- One promotion ----

  lemma PromoteHashCalm(net: Net, stored: map<string, Hash>, h: Hash, name: string)
    requires Calm(net) && Readable(net) && Fetchable(h)
    ensures var r := PromoteHash(net, stored, h, name);
            r.error.None? && Calm(r.net) && Readable(r.net)
  {
    hide Valid, PromoteHash, Convert, DumpToParams, Fetchable;
    CalmPostCompletes(net, stored, h, name);
    PromoteHashEffect(net, stored, h, name);
    ConvertDump(h);
    var r := PromoteHash(net, stored, h, name).net;
    forall l ensures AllConvert(History(r, l)) {
      assert AllConvert(History(net, l));
    }
  }

  /** The target is promoted already. */
  ghost predicate Heads(net: Net, h: Hash, target: string) {
    Incumbent(net, target).Some? && Eq(Incumbent(net, target).value, h)
  }

  lemma DlrnPromoteCalm(net: Net, stored: map<string, Hash>, h: Hash, target: string)
    requires Calm(net) && Readable(net) && Fetchable(h)
    ensures var r := DlrnClientSpec.Promote(net, stored, h, target, true);
            && r.error == (if Heads(net, h, target) then Some(PromotionError) else None)
            && Calm(r.net) && Readable(r.net)
  {
    hide Valid, PromoteHash, Latest, DumpToParams, Fetchable, Eq, Readable;
    AdvanceUndisturbed(net);
    FetchUndisturbed(net, target);
    LatestReturns(net, target);
    var asked := Advance(net);
    SameLabelsReadable(net, asked);
    match Latest(net, target).value
    case None => PromoteHashCalm(asked, stored, h, target);
    case Some(i) =>
      LatestIsFetchable(net, target);
      PromoteHashCalm(asked, stored, i, PreviousLabel(target));
      var saved := PromoteHash(asked, stored, i, PreviousLabel(target));
      PromoteHashCalm(saved.net, saved.stored, h, target);
  }

  lemma RunClientCalm(names: seq<string>, st: State, client: string, h: Hash, target: string)
    requires Ready(names, st) && Fetchable(h)
    ensures var r := RunClient(st, client, h, target);
            && Ready(names, r.state)
            && r.error == (if client == DLRN && Heads(st.net, h, target) then Some(PromotionError) else None)
            && (client != DLRN ==> r.state.net.labels == st.net.labels)
  {
    hide Valid, InSync, Latest, Fetchable, Eq, DlrnClientSpec.Promote;
    RunClientIsClean(names, st, client, h, target);
    var called := Note(st.net, Called(client, target, h));
    SameLabelsReadable(st.net, called);
    SameLabelsSameLatest(called, st.net, target);
    AdvanceUndisturbed(called);
    SameLabelsReadable(called, Advance(called));
    var r := RunClient(st, client, h, target);
    if client == DLRN {
      DlrnPromoteCalm(called, st.stored, h, target);
      SameLabelsReadable(DlrnClientSpec.Promote(called, st.stored, h, target, true).net, r.state.net);
    } else {
      SameLabelsReadable(Advance(called), r.state.net);
    }
  }

  lemma CheckCalm(names: seq<string>, st: State)
    requires Ready(names, st)
    ensures var r := Check(st.net, names, st.stored);
            r.error.None? && Ready(names, st.(net := r.net)) && r.net.labels == st.net.labels
  {
    hide Valid, InSync, Latest;
    CheckInSync(st.net, names, st.stored);
    CheckIsClean(names, st);
    FetchNamedReads(st.net, names, map[]);
    SameLabelsReadable(st.net, Check(st.net, names, st.stored).net);
  }

  lemma SameLabelsSameHeads(a: Net, b: Net, h: Hash, target: string)
    requires a.labels == b.labels
    ensures Heads(a, h, target) == Heads(b, h, target)
    ensures Incumbent(a, target) == Incumbent(b, target)
  {
    hide Valid, Latest, Eq;
    SameLabelsSameLatest(a, b, target);
  }

  /** For distinct known clients the promotion returns normally, unless the DLRN client finds
      that the hash heads its target already. */
  lemma {:induction false} DrivingCalm(names: seq<string>, st: State, clients: seq<string>, h: Hash, target: string)
    requires Ready(names, st) && Fetchable(h)
    requires Distinct(clients) && forall c | c in clients :: IsClient(c)
    ensures var r := PromoteWith(names, st, clients, h, target);
            && Ready(names, r.state)
            && r.error == (if DLRN in clients && Heads(st.net, h, target) then Some(PromotionError) else None)
    decreases |clients|
  {
    hide Valid, Ready, Fetchable, RunClient, Check, Heads;
    if clients == [] {
    } else {
      var check := Check(st.net, names, st.stored);
      var checked := st.(net := check.net);
      CheckCalm(names, st);
      SameLabelsSameHeads(st.net, checked.net, h, target);
      var run := RunClient(checked, clients[0], h, target);
      RunClientCalm(names, checked, clients[0], h, target);
      assert clients[0] in clients;
      if run.error.None? {
        var rest := clients[1..];
        assert forall c | c in clients :: c == clients[0] || c in rest;
        DrivingCalm(names, run.state, rest, h, target);
        if clients[0] != DLRN {
          SameLabelsSameHeads(checked.net, run.state.net, h, target);
        } else {
          assert DLRN !in rest;
        }
      }
    }
  }

  // ---- One label ----

  /** The passed jobs that n queries are answered with, one after the other. */
  function VotesFor(agenda: seq<Turn>, n: nat): (r: seq<set<string>>)
    ensures |r| == n
    decreases n
  {
    if n == 0 then []
    else if agenda == [] then [QUIET.votes] + VotesFor([], n - 1)
    else [agenda[0].votes] + VotesFor(agenda[1..], n - 1)
  }

  /** The guard against promoting the incumbent again. */
  ghost predicate GuardHit(s: Settings, net: Net, h: Hash, target: string) {
    DLRN in s.allowedClients && Heads(net, h, target)
  }

  /** Without a candidate that met the criteria nothing is promoted; the first one that did is
      promoted, unless it hits the guard. */
  ghost predicate CalmOutcome(s: Settings, net: Net, candidates: seq<Hash>, target: string, met: Option<nat>, r: Tried)
    requires met.Some? ==> met.value < |candidates|
  {
    match met
    case None => r.error.None? && r.promoted.None?
    case Some(k) =>
      if GuardHit(s, net, candidates[k], target) then r.error == Some(PromotionError) && r.promoted.None?
      else r.error.None? && r.promoted == Some(candidates[k])
  }

  lemma {:induction false} TryingCalm(s: Settings, st: State, candidates: seq<Hash>, p: Promotion)
    requires Ready(Targets(s.promotions), st) && WellConfigured(s) && p.target in st.criteria
    requires forall h | h in candidates :: Fetchable(h)
    ensures var r := TryCandidates(s, st, candidates, p);
            var met := FirstMet(st.criteria[p.target], p.alternatives, VotesFor(st.net.agenda, |candidates|));
            && Ready(Targets(s.promotions), r.state)
            && CalmOutcome(s, st.net, candidates, p.target, met, r)
    decreases |candidates|
  {
    hide Valid, Fetchable, Ready, Heads, PromoteWith, Judge, Advance, Substitute, MissingJobs, FirstMet, VotesFor;
    if candidates == [] {
      NoneMet(st.criteria[p.target], p.alternatives, st.net.agenda);
    } else {
      var names, h := Targets(s.promotions), candidates[0];
      var votes, asked := NextTurn(st.net).votes, st.(net := Advance(st.net));
      AskingKeepsReady(names, st);
      var judged := Judge(asked, h, p, votes);
      JudgingKeepsReady(names, asked, h, p, votes);
      MissingAfterSubstitution(st.criteria[p.target], p.alternatives, votes);
      FirstMetNext(st.criteria[p.target], p.alternatives, st.net, |candidates| - 1);
      SameLabelsSameHead(st.net, judged.net, p.target);
      if judged.criteria[p.target] - votes != {} {
        TryingCalm(s, judged, candidates[1..], p);
      } else {
        var attempted := judged.(net := Note(judged.net, Attempt(p.target, h)));
        NotingKeepsReady(names, judged, attempted, Attempt(p.target, h));
        SameLabelsSameHead(st.net, attempted.net, p.target);
        SortKeepsClients(s.allowedClients);
        DrivingCalm(names, attempted, SortDescending(s.allowedClients), h, p.target);
      }
    }
  }

  lemma FirstMetNext(required: set<string>, alts: Alternatives, net: Net, n: nat)
    ensures FirstMet(required, alts, VotesFor(net.agenda, n + 1)) ==
            if Met(required, alts, NextTurn(net).votes) then Some(0)
            else
              match FirstMet(Substitute(required, alts, NextTurn(net).votes), alts, VotesFor(Advance(net).agenda, n))
              case None => None
              case Some(k) => Some(k + 1)
  {
    hide Met, Substitute;
    var votes := VotesFor(net.agenda, n + 1);
    assert votes[0] == NextTurn(net).votes && votes[1..] == VotesFor(Advance(net).agenda, n);
  }

  lemma NoneMet(required: set<string>, alts: Alternatives, agenda: seq<Turn>)
    ensures FirstMet(required, alts, VotesFor(agenda, 0)) == None
  {
  }

  lemma JudgingKeepsReady(names: seq<string>, st: State, h: Hash, p: Promotion, votes: set<string>)
    requires Ready(names, st) && p.target in st.criteria
    ensures var judged := Judge(st, h, p, votes);
            && Ready(names, judged) && judged.net.labels == st.net.labels && judged.net.agenda == st.net.agenda
            && p.target in judged.criteria
            && judged.criteria[p.target] == Substitute(st.criteria[p.target], p.alternatives, votes)
  {
    hide Valid, Ready, Substitute;
    var judged := Judge(st, h, p, votes);
    NotingKeepsReady(names, st, judged, Judged(p.target, h, votes, judged.criteria[p.target] - votes));
  }

  lemma SameLabelsSameHead(a: Net, b: Net, target: string)
    requires a.labels == b.labels
    ensures forall h :: Heads(a, h, target) == Heads(b, h, target)
  {
    hide Valid, Latest, Eq;
    SameLabelsSameLatest(a, b, target);
  }

  /** A turn of the environment that does not fail keeps a state ready. */
  lemma AskingKeepsReady(names: seq<string>, st: State)
    requires Ready(names, st)
    ensures Ready(names, st.(net := Advance(st.net)))
    ensures Advance(st.net).labels == st.net.labels && ApiFault(NextTurn(st.net)).None?
  {
    hide Valid, InSync, Readable;
    AdvanceIsClean(names, st);
    AdvanceUndisturbed(st.net);
    SameLabelsReadable(st.net, Advance(st.net));
  }

  lemma NotingKeepsReady(names: seq<string>, a: State, b: State, e: Event)
    requires Ready(names, a) && e != Checked(false) && b.net == Note(a.net, e) && b.stored == a.stored
    ensures Ready(names, b)
  {
    hide Valid, InSync, Synced;
    NoteIsClean(names, a, b, e);
    SameLabelsReady(names, a, b);
  }

  /** The candidates can be selected. */
  lemma SelectingCalm(s: Settings, st: State, p: Promotion)
    requires Ready(Targets(s.promotions), st) && s.latestHashesCount != Some(1)
    ensures var (net, selected) := SelectCandidates(st.net, p.candidate, p.target, s.latestHashesCount);
            && selected.Returned? && Ready(Targets(s.promotions), st.(net := net))
            && net.labels == st.net.labels
            && (forall h | h in selected.value :: Fetchable(h))
  {
    hide Valid, InSync, Fetchable, Select, ConvertAll, Convert;
    var names, asked := Targets(s.promotions), Advance(st.net);
    SelectingIsClean(names, st, p.candidate, p.target, s.latestHashesCount);
    AdvanceUndisturbed(st.net);
    AdvanceUndisturbed(asked);
    SameLabelsReadable(st.net, asked);
    SameLabelsReadable(asked, Advance(asked));
    AnswerConverts(asked, p.candidate, s.latestHashesCount);
    AnswerConverts(Advance(asked), p.target, None);
  }

  /** Two hashes that equality confuses: a commit/distro hash and an aggregate of the same commit,
      distro, extended hash, timestamp and component. */
  predicate Twins(incumbent: Hash, h: Hash) {
    && incumbent.kind.CommitDistro? && h.kind.Aggregate?
    && (incumbent.commit, incumbent.distro, incumbent.extended) == (h.commit, h.distro, h.extended)
    && (incumbent.timestamp, incumbent.component) == (h.timestamp, h.component)
  }

  /** When the server lists at least one entry of the target, the selected candidates that head the
      target are exactly the twins of the incumbent. */
  lemma SelectedHeadsIff(s: Settings, st: State, p: Promotion, h: Hash)
    requires Ready(Targets(s.promotions), st) && s.latestHashesCount != Some(1) && st.net.page >= 1
    requires var selected := SelectCandidates(st.net, p.candidate, p.target, s.latestHashesCount).1;
             selected.Returned? && h in selected.value
    ensures Heads(st.net, h, p.target) <==>
            Incumbent(st.net, p.target).Some? && Twins(Incumbent(st.net, p.target).value, h)
  {
    hide Valid, InSync, Select, ConvertAll, Convert, FullHash, InHistory, Eq, Twins;
    var asked := Advance(st.net);
    AdvanceUndisturbed(st.net);
    AdvanceUndisturbed(asked);
    SameLabelsReadable(st.net, asked);
    SameLabelsReadable(asked, Advance(asked));
    AnswerConverts(asked, p.candidate, s.latestHashesCount);
    AnswerConverts(Advance(asked), p.target, None);
    var all := ConvertAll(Answer(asked, p.candidate, s.latestHashesCount), []).value;
    var promoted := ConvertAll(Answer(Advance(asked), p.target, None), []).value;
    SelectIsLongestUnpromotedPrefix(all, promoted);
    assert h in all && !InHistory(h, promoted);
    ConvertedFrom(Answer(asked, p.candidate, s.latestHashesCount), h);
    SameLabelsSameLatest(st.net, Advance(asked), p.target);
    HeadsOrTwins(Advance(asked), p.target, h);
  }

  lemma AnswerConverts(net: Net, name: string, count: Option<int>)
    requires Readable(net)
    ensures ConvertAll(Answer(net, name, count), []).Returned?
  {
    hide Valid, Convert;
    assert AllConvert(History(net, name));
    ConvertAllReturns(Answer(net, name, count), []);
  }

  /** Everything in a converted answer is the conversion of an entry. */
  lemma ConvertedFrom(rs: seq<ApiHash>, h: Hash)
    requires ConvertAll(rs, []).Returned? && h in ConvertAll(rs, []).value
    ensures exists e :: e in rs && Convert(e) == Returned(Some(h))
  {
    hide Valid, Convert, ConvertAll, Eq;
    var idx := ConvertAllReads(rs, []);
    var all := ConvertAll(rs, []).value;
    var k :| 0 <= k < |all| && all[k] == h;
    assert rs[idx[k]] in rs && Convert(rs[idx[k]]) == Returned(Some(all[0 + k]));
  }

  /** A converted hash has an aggregate exactly when it is of the aggregate class. */
  lemma ConvertedClass(e: ApiHash, h: Hash)
    requires Convert(e) == Returned(Some(h))
    ensures h.kind.Aggregate? <==> !h.aggregate.Nil?
  {
  }

  /** A converted hash whose full hash is not in the listed history of a label heads the label
      exactly when it is a twin of the incumbent. */
  lemma HeadsOrTwins(net: Net, target: string, h: Hash)
    requires net.page >= 1 && exists e :: Convert(e) == Returned(Some(h))
    requires var promoted := ConvertAll(Answer(net, target, None), []);
             promoted.Returned? && !InHistory(h, promoted.value)
    ensures Heads(net, h, target) <==> Incumbent(net, target).Some? && Twins(Incumbent(net, target).value, h)
  {
    hide Valid, Convert, ConvertAll, FullHash;
    if Incumbent(net, target).Some? {
      var rs, i := Answer(net, target, None), Incumbent(net, target).value;
      var e :| Convert(e) == Returned(Some(h));
      ConvertedClass(e, h);
      assert rs[0] == History(net, target)[0] && Convert(rs[0]) == Returned(Some(i));
      ConvertedClass(rs[0], i);
      HeadIsListed(rs, i);
      if i.kind == h.kind && Eq(i, h) {
        EqualHashesShareNames(i, h);
      }
    }
  }

  lemma HeadIsListed(rs: seq<ApiHash>, i: Hash)
    requires rs != [] && Convert(rs[0]) == Returned(Some(i)) && ConvertAll(rs, []).Returned?
    ensures i in ConvertAll(rs, []).value
  {
    hide Valid, Convert, Eq;
    assert [] + [i] == [i] && !exists d | d in [] :: Eq(d, i);
    var r := ConvertAll(rs, []).value;
    var idx := ConvertAllReads(rs[1..], [i]);
    assert r[0] == i;
  }

  /** The outcome of one label on a calm server, from the criteria and the votes alone: nothing when
      no selected candidate meets the criteria as those before it left them; otherwise the first
      that does, or a PromotionError when that one heads the target and the DLRN client is allowed. */
  lemma MetCandidateIsPromoted(s: Settings, st: State, p: Promotion)
    requires Ready(Targets(s.promotions), st) && WellConfigured(s)
    requires p.target in st.criteria && s.latestHashesCount != Some(1)
    ensures var r := PromoteLabel(s, st, p);
            var (net, selected) := SelectCandidates(st.net, p.candidate, p.target, s.latestHashesCount);
            && Ready(Targets(s.promotions), r.state) && r.state.criteria.Keys == st.criteria.Keys
            && selected.Returned?
            && var votes := VotesFor(net.agenda, |selected.value|);
               var met := FirstMet(st.criteria[p.target], p.alternatives, votes);
               CalmOutcome(s, st.net, selected.value, p.target, met, r)
  {
    hide Valid, SelectCandidates, TryCandidates, Ready, Fetchable, Heads;
    SelectingCalm(s, st, p);
    var (net, selected) := SelectCandidates(st.net, p.candidate, p.target, s.latestHashesCount);
    if selected.value != [] {
      TryingCalm(s, st.(net := net), selected.value, p);
      SameLabelsSameHead(st.net, net, p.target);
    }
  }

  // ---- Whether any votes can hit the guard ----

  predicate CalmTurns(turns: seq<Turn>) {
    forall t | t in turns :: t.writes == [] && t.fault.None? && t.keeps.None? && !t.garbles
  }

  function WithAgenda(st: State, turns: seq<Turn>): State {
    st.(net := st.net.(agenda := turns))
  }

  lemma OtherVotesAreReady(names: seq<string>, st: State, turns: seq<Turn>)
    requires Ready(names, st) && CalmTurns(turns)
    ensures Ready(names, WithAgenda(st, turns))
  {
    hide Valid, InSync, Synced;
    SameLabelsReady(names, st, WithAgenda(st, turns));
  }

  /** The selection does not depend on the votes, and takes two turns when it finds candidates. */
  lemma SelectionIgnoresVotes(s: Settings, st: State, p: Promotion, turns: seq<Turn>)
    requires Ready(Targets(s.promotions), st) && s.latestHashesCount != Some(1) && CalmTurns(turns)
    ensures var here := SelectCandidates(st.net, p.candidate, p.target, s.latestHashesCount);
            var there := SelectCandidates(WithAgenda(st, turns).net, p.candidate, p.target, s.latestHashesCount);
            && here.1.Returned? && here.1 == there.1
            && (here.1.value != [] && |turns| >= 2 ==> there.0.agenda == turns[2..])
  {
    hide Valid, Synced, SelectCandidates, ConvertAll;
    OtherVotesAreReady(Targets(s.promotions), st, turns);
    CalmSelection(st.net, p.candidate, p.target, s.latestHashesCount);
    CalmSelection(WithAgenda(st, turns).net, p.candidate, p.target, s.latestHashesCount);
  }

  /** What is selected on a calm server, from its labels alone. */
  lemma CalmSelection(net: Net, candidate: string, target: string, count: Option<int>)
    requires Calm(net) && Readable(net) && count != Some(1)
    ensures var all := ConvertAll(Answer(net, candidate, count), []);
            var promoted := ConvertAll(Answer(net, target, None), []);
            var r := SelectCandidates(net, candidate, target, count);
            && all.Returned? && promoted.Returned?
            && r.1 == Returned(if all.value == [] then [] else Select(all.value, promoted.value, candidate == target))
            && (r.1.value != [] && |net.agenda| >= 2 ==> r.0.agenda == net.agenda[2..])
  {
    hide Valid, ConvertAll, Select, Calm, Readable, Advance, NextTurn;
    TwoTurns(net);
    AnswerConverts(net, candidate, count);
    AnswerConverts(net, target, None);
    assert Answer(Advance(net), candidate, count) == Answer(net, candidate, count);
    assert Answer(Advance(Advance(net)), target, None) == Answer(net, target, None);
  }

  lemma TwoTurns(net: Net)
    requires Calm(net)
    ensures var once, twice := Advance(net), Advance(Advance(net));
            && once.labels == net.labels && twice.labels == net.labels && once.page == twice.page == net.page
            && ApiFault(NextTurn(net)).None? && ApiFault(NextTurn(once)).None?
            && (|net.agenda| >= 2 ==> twice.agenda == net.agenda[2..])
  {
    AdvanceUndisturbed(net);
    AdvanceUndisturbed(Advance(net));
  }

  /** No job passed k times, and then exactly the required ones. */
  function LateVotes(required: set<string>, k: nat): (r: seq<Turn>)
    ensures CalmTurns(r)
  {
    if k == 0 then [QUIET.(votes := required)] else [QUIET] + LateVotes(required, k - 1)
  }

  lemma {:induction false} LateVotesMeet(required: set<string>, alts: Alternatives, k: nat, n: nat)
    requires k < n && (k == 0 || required != {})
    ensures FirstMet(required, alts, VotesFor(LateVotes(required, k), n)) == Some(k)
    decreases k
  {
    if k == 0 {
      assert Met(required, alts, required);
    } else {
      var j :| j in required;
      assert j in MissingJobs(required, alts, {});
      assert Substitute(required, alts, {}) == required by {
        assert forall r | r in required :: Choice(alts, {}, r) == r;
      }
      assert LateVotes(required, k)[1..] == LateVotes(required, k - 1);
      LateVotesMeet(required, alts, k - 1, n - 1);
    }
  }

  /** A selected candidate can be the first to meet the criteria, and hits the guard if it is. */
  ghost predicate CanHitGuard(s: Settings, st: State, p: Promotion, selected: seq<Hash>, k: nat)
    requires p.target in st.criteria
  {
    k < |selected| && GuardHit(s, st.net, selected[k], p.target) && (k == 0 || st.criteria[p.target] != {})
  }

  /** Over all votes on a calm server: some votes make a label's promotion end in a PromotionError if
      and only if the DLRN client is allowed and some selected candidate heads the target, which
      without any criteria must be the first. */
  lemma SomeVotesHitGuardIff(s: Settings, st: State, p: Promotion)
    requires Ready(Targets(s.promotions), st) && WellConfigured(s)
    requires p.target in st.criteria && s.latestHashesCount != Some(1)
    ensures var selected := SelectCandidates(st.net, p.candidate, p.target, s.latestHashesCount).1;
            && selected.Returned?
            && ((exists turns | CalmTurns(turns) ::
                   PromoteLabel(s, WithAgenda(st, turns), p).error == Some(PromotionError))
                <==> exists k :: CanHitGuard(s, st, p, selected.value, k))
  {
    hide Valid, SelectCandidates, PromoteLabel, Ready, Heads;
    SelectingCalm(s, st, p);
    var names := Targets(s.promotions);
    var selected := SelectCandidates(st.net, p.candidate, p.target, s.latestHashesCount).1.value;
    forall turns | CalmTurns(turns) && PromoteLabel(s, WithAgenda(st, turns), p).error == Some(PromotionError)
      ensures exists k :: CanHitGuard(s, st, p, selected, k)
    {
      OtherVotesAreReady(names, st, turns);
      SelectionIgnoresVotes(s, st, p, turns);
      MetCandidateIsPromoted(s, WithAgenda(st, turns), p);
      SameLabelsSameHead(st.net, WithAgenda(st, turns).net, p.target);
      var net := SelectCandidates(WithAgenda(st, turns).net, p.candidate, p.target, s.latestHashesCount).0;
      var met := FirstMet(st.criteria[p.target], p.alternatives, VotesFor(net.agenda, |selected|));
      assert CanHitGuard(s, st, p, selected, met.value);
    }
    if k :| CanHitGuard(s, st, p, selected, k) {
      var turns := [QUIET, QUIET] + LateVotes(st.criteria[p.target], k);
      assert CalmTurns(turns) && turns[2..] == LateVotes(st.criteria[p.target], k);
      OtherVotesAreReady(names, st, turns);
      SelectionIgnoresVotes(s, st, p, turns);
      MetCandidateIsPromoted(s, WithAgenda(st, turns), p);
      SameLabelsSameHead(st.net, WithAgenda(st, turns).net, p.target);
      LateVotesMeet(st.criteria[p.target], p.alternatives, k, |selected|);
    }
  }

  /** So, with some criteria, and a server that lists at least one entry of the target, no votes hit
      the guard if and only if no selected candidate is a twin of the incumbent. */
  lemma NoVotesHitGuardIffNoTwin(s: Settings, st: State, p: Promotion)
    requires Ready(Targets(s.promotions), st) && WellConfigured(s) && DLRN in s.allowedClients && st.net.page >= 1
    requires p.target in st.criteria && st.criteria[p.target] != {} && s.latestHashesCount != Some(1)
    ensures var selected := SelectCandidates(st.net, p.candidate, p.target, s.latestHashesCount).1;
            && selected.Returned?
            && ((forall turns | CalmTurns(turns) :: PromoteLabel(s, WithAgenda(st, turns), p).error.None?)
                <==> forall h | h in selected.value ::
                       !(Incumbent(st.net, p.target).Some? && Twins(Incumbent(st.net, p.target).value, h)))
  {
    hide Valid, SelectCandidates, PromoteLabel, Ready, Heads, Twins, Incumbent;
    SomeVotesHitGuardIff(s, st, p);
    var selected := SelectCandidates(st.net, p.candidate, p.target, s.latestHashesCount).1.value;
    forall turns | CalmTurns(turns)
      ensures var e := PromoteLabel(s, WithAgenda(st, turns), p).error; e.None? || e == Some(PromotionError)
    {
      OtherVotesAreReady(Targets(s.promotions), st, turns);
      MetCandidateIsPromoted(s, WithAgenda(st, turns), p);
    }
    forall h | h in selected
      ensures Heads(st.net, h, p.target) <==>
              Incumbent(st.net, p.target).Some? && Twins(Incumbent(st.net, p.target).value, h)
    {
      SelectedHeadsIff(s, st, p, h);
    }
    forall k: nat | k < |selected| ensures CanHitGuard(s, st, p, selected, k) <==>
        Heads(st.net, selected[k], p.target) {
    }
    if h :| h in selected && Heads(st.net, h, p.target) {
      var k :| 0 <= k < |selected| && selected[k] == h;
      assert CanHitGuard(s, st, p, selected, k);
    }
  }

  /** The hashes two labels read as are all of one class. */
  ghost predicate OneKind(net: Net, a: string, b: string, kind: Kind) {
    forall e | e in History(net, a) || e in History(net, b) ::
      Convert(e).Returned? && Convert(e).value.Some? ==> Convert(e).value.value.kind == kind
  }

  /** When the server lists at least one entry of the target, and both labels hold hashes of one
      class only, the guard is never hit. */
  lemma OneClassNeverHitsGuard(s: Settings, st: State, p: Promotion, kind: Kind)
    requires Ready(Targets(s.promotions), st) && WellConfigured(s)
    requires p.target in st.criteria && s.latestHashesCount != Some(1)
    requires st.net.page >= 1 && OneKind(st.net, p.candidate, p.target, kind)
    ensures PromoteLabel(s, st, p).error.None?
  {
    hide Valid, SelectCandidates, PromoteLabel, Ready, Convert, Heads;
    MetCandidateIsPromoted(s, st, p);
    var selected := SelectCandidates(st.net, p.candidate, p.target, s.latestHashesCount).1.value;
    forall h | h in selected ensures !Heads(st.net, h, p.target) {
      SelectedHeadsIff(s, st, p, h);
      SelectedIsOfKind(s, st, p, h, kind);
      if Incumbent(st.net, p.target).Some? {
        IncumbentIsOfKind(st.net, p.candidate, p.target, kind);
      }
    }
  }

  lemma SelectedIsOfKind(s: Settings, st: State, p: Promotion, h: Hash, kind: Kind)
    requires Ready(Targets(s.promotions), st) && s.latestHashesCount != Some(1)
    requires OneKind(st.net, p.candidate, p.target, kind)
    requires var selected := SelectCandidates(st.net, p.candidate, p.target, s.latestHashesCount).1;
             selected.Returned? && h in selected.value
    ensures h.kind == kind
  {
    hide Valid, InSync, ConvertAll, Convert, Select, InHistory;
    var asked := Advance(st.net);
    AdvanceUndisturbed(st.net);
    AdvanceUndisturbed(asked);
    SameLabelsReadable(st.net, asked);
    SameLabelsReadable(asked, Advance(asked));
    AnswerConverts(asked, p.candidate, s.latestHashesCount);
    AnswerConverts(Advance(asked), p.target, None);
    var rs := Answer(asked, p.candidate, s.latestHashesCount);
    var promoted := ConvertAll(Answer(Advance(asked), p.target, None), []).value;
    SelectIsLongestUnpromotedPrefix(ConvertAll(rs, []).value, promoted);
    ConvertedFrom(rs, h);
    var e :| e in rs && Convert(e) == Returned(Some(h));
    assert e in History(st.net, p.candidate);
  }

  lemma IncumbentIsOfKind(net: Net, candidate: string, target: string, kind: Kind)
    requires OneKind(net, candidate, target, kind) && Incumbent(net, target).Some?
    ensures Incumbent(net, target).value.kind == kind
  {
    hide Valid, Convert;
    assert History(net, target)[0] in History(net, target);
  }

  // ---- A label with both classes ----

  /** Digits of a hash, long enough for the extended format. */
  const DIGITS := seq(41, i => 'a')
  const SINGLE := ApiHash(Text("a"), Text("b"), Text(DIGITS + "_" + "b"), Nil, Nil, Nil)
  const TWIN := SINGLE.(aggregate := Text("a"))

  /** A record in the long format whose parts are hexadecimal is read as it stands. */
  lemma RecordConverts(r: ApiHash)
    requires r.extended.Text? && |r.extended.s| > 40 && CheckExtendedHash(r.extended).None?
    requires !r.commit.Nil? && !r.distro.Nil? && CheckHash(r.commit) && CheckHash(r.distro) && CheckHash(r.aggregate)
    ensures var kind := if r.aggregate.Nil? then CommitDistro else Aggregate;
            var h := HashValue(kind, r.commit, r.distro, r.extended, r.aggregate, r.timestamp, r.component);
            Valid(h) && Convert(r) == Returned(Some(h))
  {
    hide CheckHash, CheckExtendedHash;
    assert Text("None") != r.extended && Text("") != r.extended;
    var source := ApiSource(r);
    assert "commit_hash" in source.entries;
    var h := HashValue(CommitDistro, r.commit, r.distro, r.extended, r.aggregate, r.timestamp, r.component);
    assert Build(CommitDistro, FromSource(source)) == Returned(h);
    if !r.aggregate.Nil? {
      assert Build(Aggregate, FromSource(source)) == Returned(h.(kind := Aggregate));
    }
  }

  /** The two records are read as twins with different full hashes. */
  lemma RecordsAreTwins()
    ensures Convert(SINGLE).Returned? && Convert(SINGLE).value.Some?
    ensures Convert(TWIN).Returned? && Convert(TWIN).value.Some?
    ensures Twins(Convert(SINGLE).value.value, Convert(TWIN).value.value)
    ensures FullHash(Convert(SINGLE).value.value) != FullHash(Convert(TWIN).value.value)
  {
    assert CheckHash(SINGLE.commit) && CheckHash(SINGLE.distro) && CheckHash(Text(DIGITS)) by {
      HexDigitsParse(DIGITS);
      HexDigitsParse("a");
      HexDigitsParse("b");
    }
    hide ParsesBase16, Convert;
    SplitAtUnderscore(DIGITS, "b");
    assert CheckExtendedHash(SINGLE.extended).None?;
    RecordConverts(SINGLE);
    RecordConverts(TWIN);
    LongerThanCommit(Convert(SINGLE).value.value);
  }

  lemma LongerThanCommit(h: Hash)
    requires h.kind.CommitDistro?
    ensures |FullHash(h)| > |h.commit.s|
  {
    hide ParsesBase16;
  }

  /** A calm run of one label that hits the guard: the incumbent is a commit/distro hash, and the
      candidate its aggregate twin, which is not in the target's history by its full hash. */
  lemma TwinsHitTheGuard()
    ensures var p := Promotion("target", "candidate", map[]);
            var net := Net(map["target" := [SINGLE], "candidate" := [TWIN]], [], [], 100);
            var s := Settings([p], [DLRN], None);
            PromoteLabel(s, PromoterSpec.State(net, map[], map["target" := {}]), p).error == Some(PromotionError)
  {
    var p := Promotion("target", "candidate", map[]);
    var net := Net(map["target" := [SINGLE], "candidate" := [TWIN]], [], [], 100);
    RecordsAreTwins();
    TwinRun(net, p, Settings([p], [DLRN], None), SINGLE, TWIN);
  }

  lemma TwinRun(net: Net, p: Promotion, s: Settings, c: ApiHash, a: ApiHash)
    requires p.target != p.candidate && s == Settings([p], [DLRN], None)
    requires net == Net(map[p.target := [c], p.candidate := [a]], [], [], 100)
    requires Convert(c).Returned? && Convert(c).value.Some? && Convert(a).Returned? && Convert(a).value.Some?
    requires Twins(Convert(c).value.value, Convert(a).value.value)
    requires FullHash(Convert(c).value.value) != FullHash(Convert(a).value.value)
    ensures PromoteLabel(s, PromoterSpec.State(net, map[], map[p.target := {}]), p).error == Some(PromotionError)
  {
    hide Valid, Convert, FullHash, TryCandidates;
    var st := PromoterSpec.State(net, map[], map[p.target := {}]);
    var single, twin := Convert(c).value.value, Convert(a).value.value;
    assert Readable(net) by {
      forall l ensures AllConvert(History(net, l)) {
      }
    }
    assert Ready(Targets(s.promotions), st);
    SelectingCalm(s, st, p);
    ConvertSingle(a);
    ConvertSingle(c);
    var (asked, selected) := SelectCandidates(net, p.candidate, p.target, None);
    assert Answer(Advance(net), p.candidate, None) == [a] && Answer(Advance(Advance(net)), p.target, None) == [c];
    assert Select([twin], [single], false) == [twin] by {
      assert Select([twin][1..], [single], false) == [];
    }
    assert Heads(net, twin, p.target);
    assert Met({}, p.alternatives, VotesFor(asked.agenda, 1)[0]);
    MetCandidateIsPromoted(s, st, p);
  }

  // ---- A whole run ----

  lemma {:induction false} RestCalm(s: Settings, st: State, ps: seq<Promotion>, pairs: seq<(Hash, string)>)
    requires Ready(Targets(s.promotions), st) && WellConfigured(s) && s.latestHashesCount != Some(1)
    requires forall p | p in ps :: p.target in st.criteria
    ensures PromoteRest(s, st, ps, pairs).error.None?
    decreases |ps|
  {
    hide Valid, Ready, PromoteLabel, SelectCandidates, GuardHit;
    if ps == [] {
    } else {
      assert ps[0] in ps;
      MetCandidateIsPromoted(s, st, ps[0]);
      var r := PromoteLabel(s, st, ps[0]);
      RestCalm(s, r.state, ps[1..], if r.promoted.Some? then pairs + [(r.promoted.value, ps[0].target)] else pairs);
    }
  }

  /** A run ends normally on a calm server whose histories can be read, when every target has
      criteria and more than one hash is asked for, whatever the votes. */
  lemma CalmRunEndsNormally(s: Settings, st: State)
    requires WellConfigured(s) && s.latestHashesCount != Some(1)
    requires Calm(st.net) && Readable(st.net) && st.net.trace == []
    requires forall p | p in s.promotions :: p.target in st.criteria
    ensures PromoteAll(s, st).error.None?
  {
    hide Valid, InSync, Latest, PromoteRest;
    var names := Targets(s.promotions);
    FetchNamedReads(st.net, names, map[]);
    var named := FetchNamed(st.net, names, map[]);
    if named.error.Some? {
      var l :| l in names && Latest(st.net, l) == Raised(named.error.value);
      LatestReturns(st.net, l);
    } else {
      StoringSyncs(st.net, names, st.stored);
      var started := st.(net := named.net, stored := st.stored + named.hashes);
      SameLabelsReadable(st.net, named.net);
      RestCalm(s, started, s.promotions, []);
    }
  }
}
