/** With no other writer and a server that stores what it is sent, a whole promotion run never
    sees a changed hash, although it moves the very labels it watches. Calls may fail, and replies
    be unreadable. */
module SyncTheorems {
  import opened Outcomes
  import opened DlrnHashes
  import opened PromotionApi
  import opened DlrnClientSpec
  import opened DlrnClientTheorems
  import opened ClientOrder
  import opened PromoterSpec

  ghost predicate Synced(names: seq<string>, st: State) {
    Undisturbed(st.net) && InSync(st.net, names, st.stored)
  }

  /** What a step leaves: no failed check, and agreement, unless it ended in an unreadable hash,
      which ends the run. */
  ghost predicate Clean(names: seq<string>, st: State, error: Option<Error>) {
    NoFailedCheck(st.net.trace) && (error != Some(DlrnHashError) ==> Synced(names, st))
  }

  /** No check failed so far. */
  predicate NoFailedCheck(trace: seq<Event>) {
    forall i | 0 <= i < |trace| :: trace[i] != Checked(false)
  }

  lemma MoreEvents(trace: seq<Event>, more: seq<Event>)
    requires trace <= more && NoFailedCheck(trace)
    requires forall i | |trace| <= i < |more| :: more[i] != Checked(false)
    ensures NoFailedCheck(more)
  {
    assert forall i | 0 <= i < |trace| :: more[i] == trace[i];
  }

  lemma SyncedOnSameLabels(names: seq<string>, a: State, b: State)
    requires Synced(names, a) && b.net.labels == a.net.labels && b.stored == a.stored && Undisturbed(b.net)
    ensures Synced(names, b)
  {
    hide Valid, Latest;
    forall l | l in names ensures Agrees(Latest(b.net, l), l, b.stored) {
      assert Agrees(Latest(a.net, l), l, a.stored);
      SameLabelsSameLatest(a.net, b.net, l);
    }
  }

  lemma CheckIsClean(names: seq<string>, st: State)
    requires Synced(names, st) && NoFailedCheck(st.net.trace)
    ensures var r := Check(st.net, names, st.stored);
            Synced(names, st.(net := r.net)) && NoFailedCheck(r.net.trace)
  {
    hide Valid, InSync;
    CheckInSync(st.net, names, st.stored);
    MoreEvents(st.net.trace, Check(st.net, names, st.stored).net.trace);
  }

  lemma RunClientIsClean(names: seq<string>, st: State, client: string, h: Hash, target: string)
    requires Synced(names, st) && NoFailedCheck(st.net.trace) && Fetchable(h)
    ensures var r := RunClient(st, client, h, target);
            Clean(names, r.state, r.error)
  {
    hide Valid, InSync, Fetchable;
    var called := st.(net := Note(st.net, Called(client, target, h)));
    SyncedOnSameLabels(names, st, called);
    AdvanceUndisturbed(called.net);
    PromoteKeepsSync(called.net, names, st.stored, h, target, true);
    var r := RunClient(st, client, h, target);
    if client == DLRN {
      var p := DlrnClientSpec.Promote(called.net, st.stored, h, target, true);
      if p.error != Some(DlrnHashError) {
        SyncedOnSameLabels(names, State(p.net, p.stored, st.criteria), r.state);
      }
    } else {
      SyncedOnSameLabels(names, called, r.state);
    }
    assert r.state.net.trace[..|st.net.trace| + 1] == st.net.trace + [Called(client, target, h)];
    MoreEvents(st.net.trace, r.state.net.trace);
  }

  lemma {:induction false} DrivingIsClean(names: seq<string>, st: State, clients: seq<string>, h: Hash, target: string)
    requires Synced(names, st) && NoFailedCheck(st.net.trace) && Fetchable(h)
    ensures var r := PromoteWith(names, st, clients, h, target);
            Clean(names, r.state, r.error)
    decreases |clients|
  {
    hide Valid, Synced, Fetchable, RunClient, Check;
    if clients == [] {
    } else if IsClient(clients[0]) {
      var check := Check(st.net, names, st.stored);
      var checked := st.(net := check.net);
      CheckIsClean(names, st);
      if check.error.None? {
        RunClientIsClean(names, checked, clients[0], h, target);
        var run := RunClient(checked, clients[0], h, target);
        if run.error.None? {
          DrivingIsClean(names, run.state, clients[1..], h, target);
        }
      }
    }
  }

  lemma AdvanceIsClean(names: seq<string>, st: State)
    requires Synced(names, st) && NoFailedCheck(st.net.trace)
    ensures Synced(names, st.(net := Advance(st.net))) && NoFailedCheck(Advance(st.net).trace)
  {
    hide Valid, InSync;
    AdvanceUndisturbed(st.net);
    SyncedOnSameLabels(names, st, st.(net := Advance(st.net)));
    MoreEvents(st.net.trace, Advance(st.net).trace);
  }

  /** An event that is not a failed check keeps the run clean. */
  lemma NoteIsClean(names: seq<string>, st: State, st': State, e: Event)
    requires Synced(names, st) && NoFailedCheck(st.net.trace) && e != Checked(false)
    requires st'.net == Note(st.net, e) && st'.stored == st.stored
    ensures Synced(names, st') && NoFailedCheck(st'.net.trace)
  {
    hide Valid, InSync;
    SyncedOnSameLabels(names, st, st');
    MoreEvents(st.net.trace, st'.net.trace);
  }

  lemma {:induction false} TryingIsClean(s: Settings, st: State, candidates: seq<Hash>, p: Promotion)
    requires p.target in st.criteria
    requires Synced(Targets(s.promotions), st) && NoFailedCheck(st.net.trace)
    requires forall h | h in candidates :: Fetchable(h)
    ensures var r := TryCandidates(s, st, candidates, p);
            Clean(Targets(s.promotions), r.state, r.error)
    decreases |candidates|
  {
    hide Valid, Synced, Fetchable, NoFailedCheck, Advance, NextTurn, PromoteWith;
    if candidates == [] {
    } else {
      var names := Targets(s.promotions);
      var turn, asked, h := NextTurn(st.net), st.(net := Advance(st.net)), candidates[0];
      AdvanceIsClean(names, st);
      if ApiFault(turn).None? {
        var judged := Judge(asked, h, p, turn.votes);
        var missing := judged.criteria[p.target] - turn.votes;
        NoteIsClean(names, asked, judged, Judged(p.target, h, turn.votes, missing));
        if missing != {} {
          TryingIsClean(s, judged, candidates[1..], p);
        } else {
          var attempted := judged.(net := Note(judged.net, Attempt(p.target, h)));
          NoteIsClean(names, judged, attempted, Attempt(p.target, h));
          DrivingIsClean(names, attempted, SortDescending(s.allowedClients), h, p.target);
        }
      }
    }
  }

  /** Everything a fetch converts can be posted and fetched again. */
  lemma {:induction false} ConvertedAreFetchable(rs: seq<ApiHash>, done: seq<Hash>)
    requires (forall h | h in done :: Fetchable(h)) && ConvertAll(rs, done).Returned?
    ensures forall h | h in ConvertAll(rs, done).value :: Fetchable(h)
    decreases |rs|
  {
    hide Valid;
    if rs == [] {
    } else {
      match Convert(rs[0]).value
      case None => ConvertedAreFetchable(rs[1..], done);
      case Some(h) =>
        ConvertedAreFetchable(rs[1..], if exists d | d in done :: Eq(d, h) then done else done + [h]);
    }
  }

  lemma {:induction false} SelectedAreCandidates(candidates: seq<Hash>, promoted: seq<Hash>, sameLabel: bool)
    ensures forall h | h in Select(candidates, promoted, sameLabel) :: h in candidates
  {
    hide Valid, InHistory;
    if candidates == [] || sameLabel || InHistory(candidates[0], promoted) {
    } else {
      SelectedAreCandidates(candidates[1..], promoted, sameLabel);
    }
  }

  lemma SelectingIsClean(names: seq<string>, st: State, candidate: string, target: string, count: Option<int>)
    requires Synced(names, st) && NoFailedCheck(st.net.trace)
    ensures var (net, selected) := SelectCandidates(st.net, candidate, target, count);
            && Synced(names, st.(net := net)) && NoFailedCheck(net.trace)
            && (selected.Returned? ==> forall h | h in selected.value :: Fetchable(h))
  {
    hide Valid, Synced, Fetchable, NoFailedCheck, Advance, Select, ConvertAll, NextTurn;
    AdvanceIsClean(names, st);
    AdvanceIsClean(names, st.(net := Advance(st.net)));
    var all := ConvertAll(Answer(Advance(st.net), candidate, count), []);
    if all.Returned? {
      ConvertedAreFetchable(Answer(Advance(st.net), candidate, count), []);
      forall promoted: seq<Hash>, same: bool ensures forall h | h in Select(all.value, promoted, same) :: Fetchable(h) {
        SelectedAreCandidates(all.value, promoted, same);
      }
    }
  }

  lemma LabelIsClean(s: Settings, st: State, p: Promotion)
    requires Synced(Targets(s.promotions), st) && NoFailedCheck(st.net.trace)
    ensures var r := PromoteLabel(s, st, p);
            Clean(Targets(s.promotions), r.state, r.error)
  {
    hide Valid, Synced, Fetchable, NoFailedCheck, SelectCandidates, TryCandidates;
    SelectingIsClean(Targets(s.promotions), st, p.candidate, p.target, s.latestHashesCount);
    var (net, selected) := SelectCandidates(st.net, p.candidate, p.target, s.latestHashesCount);
    if selected.Returned? && selected.value != [] && p.target in st.criteria {
      TryingIsClean(s, st.(net := net), selected.value, p);
    }
  }

  lemma {:induction false} RestIsClean(s: Settings, st: State, ps: seq<Promotion>, pairs: seq<(Hash, string)>)
    requires Synced(Targets(s.promotions), st) && NoFailedCheck(st.net.trace)
    ensures NoFailedCheck(PromoteRest(s, st, ps, pairs).state.net.trace)
    decreases |ps|
  {
    hide Valid, Synced, NoFailedCheck, PromoteLabel;
    if ps == [] {
    } else {
      LabelIsClean(s, st, ps[0]);
      var r := PromoteLabel(s, st, ps[0]);
      if r.error.None? || r.error == Some(PromotionError) {
        var more := if r.promoted.Some? then pairs + [(r.promoted.value, ps[0].target)] else pairs;
        RestIsClean(s, r.state, ps[1..], more);
      }
    }
  }

  /** A whole run of the promoter on a server nobody else writes to and that stores what it is
      sent never sees a changed hash, for any targets, votes, failing calls and unreadable replies. */
  lemma UndisturbedRunNeverTrips(s: Settings, st: State)
    requires Undisturbed(st.net) && st.net.trace == []
    ensures NoFailedCheck(PromoteAll(s, st).state.net.trace)
  {
    hide Valid, InSync, PromoteRest;
    var names := Targets(s.promotions);
    var named := FetchNamed(st.net, names, map[]);
    if named.error.None? {
      StoringSyncs(st.net, names, st.stored);
      RestIsClean(s, st.(net := named.net, stored := st.stored + named.hashes), s.promotions, []);
    }
  }
}
