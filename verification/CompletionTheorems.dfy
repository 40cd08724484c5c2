/** What a promotion that returns normally has done, in any environment: which clients it called,
    what it posted, and what the reported pairs stand for. */
module CompletionTheorems {
  import opened Outcomes
  import opened DlrnHashes
  import opened PromotionApi
  import opened Labels
  import opened DlrnClientSpec
  import opened DlrnClientLaws
  import opened ClientOrder
  import opened PromoterSpec
  import opened PromoterTheorems

  // ---- Which clients are called ----

  predicate IsCall(e: Event) {
    e.Called?
  }

  function CallsOf(clients: seq<string>, target: string, h: Hash): (r: seq<Event>)
    ensures |r| == |clients| && forall i | 0 <= i < |r| :: r[i] == Called(clients[i], target, h)
  {
    seq(|clients|, i requires 0 <= i < |clients| => Called(clients[i], target, h))
  }

  /** The candidate was posted under the target between two points of the trace. */
  ghost predicate PostedWithin(trace: seq<Event>, from: nat, target: string, h: Hash) {
    exists k | from <= k < |trace| :: trace[k] == Posted(target, DumpToParams(h))
  }

  /** All clients finished from an index on, and the DLRN client, if among them, posted the hash. */
  ghost predicate AllDone(trace: seq<Event>, from: nat, clients: seq<string>, h: Hash, target: string) {
    && (forall c | c in clients :: FinishedWithin(trace, from, |trace|, c))
    && (DLRN in clients ==> PostedWithin(trace, from, target, h))
  }

  /** One client: its call is the only one added, and a normal return is a finished call, in
      which the DLRN client posted the hash. */
  lemma RunCallsOne(st: State, client: string, h: Hash, target: string)
    ensures var r := RunClient(st, client, h, target);
            && Only(r.state.net.trace, IsCall) == Only(st.net.trace, IsCall) + [Called(client, target, h)]
            && (r.error.None? ==> AllDone(r.state.net.trace, |st.net.trace|, [client], h, target))
  {
    hide Valid, DumpToParams, Only, RunClient;
    var called := Note(st.net, Called(client, target, h));
    var r := RunClient(st, client, h, target);
    OneAdded(st.net.trace, Called(client, target, h), IsCall);
    NoneAdded(called.trace, r.state.net.trace, IsCall);
    if r.error.None? {
      assert r.state.net.trace[|r.state.net.trace| - 1] == Finished(client, true);
      if client == DLRN {
        DlrnPosted(st, h, target);
      }
    }
  }

  lemma DlrnPosted(st: State, h: Hash, target: string)
    requires RunClient(st, DLRN, h, target).error.None?
    ensures PostedWithin(RunClient(st, DLRN, h, target).state.net.trace, |st.net.trace|, target, h)
  {
    hide Valid, DumpToParams, DlrnClientSpec.Promote, Planned;
    var called := Note(st.net, Called(DLRN, target, h));
    var k := PostsArePlanned(called, st.stored, h, target, true);
    var plan := Planned(called, h, target, true);
    var step := DlrnClientSpec.Promote(called, st.stored, h, target, true);
    LastKept(called.trace, step.net.trace, plan, IsPost);
    var i :| |called.trace| <= i < |step.net.trace| && step.net.trace[i] == plan[|plan| - 1];
    assert RunClient(st, DLRN, h, target).state.net.trace[i] == plan[|plan| - 1];
  }

  /** Events added to those of one kind are in the added part of the trace. */
  lemma {:induction false} LastKept(trace: seq<Event>, more: seq<Event>, added: seq<Event>, keep: Event -> bool)
    requires trace <= more && added != [] && Only(more, keep) == Only(trace, keep) + added
    ensures exists i :: |trace| <= i < |more| && more[i] == added[|added| - 1]
    decreases |more|
  {
    assert |more| == |trace| ==> more == trace;
    if |more| > |trace| {
      var init, last := more[..|more| - 1], more[|more| - 1];
      if keep(last) {
        assert last == Only(more, keep)[|Only(more, keep)| - 1] == added[|added| - 1];
      } else {
        LastKept(trace, init, added, keep);
      }
    }
  }

  /** In any environment the clients called are a prefix of the sorted list, each once and in its
      order. A normal return means that every client was called and finished, and that the DLRN
      client, if it is allowed, posted the hash under the target. */
  lemma {:induction false} ClientsCalledInOrder(names: seq<string>, st: State, clients: seq<string>, h: Hash,
                                                target: string)
    returns (k: nat)
    ensures var r := PromoteWith(names, st, clients, h, target);
            && k <= |clients|
            && Only(r.state.net.trace, IsCall) == Only(st.net.trace, IsCall) + CallsOf(clients[..k], target, h)
            && (r.error.None? ==> k == |clients| && AllDone(r.state.net.trace, |st.net.trace|, clients, h, target))
    decreases |clients|
  {
    hide Valid, DumpToParams, Only, RunClient, Check, AllDone, CallsOf, Advance, IsCall;
    k := 0;
    NoCalls(clients[..0], target, h);
    if clients == [] {
      NoneToDo(st.net.trace, clients, h, target);
    } else if IsClient(clients[0]) {
      var check := Check(st.net, names, st.stored);
      var checked := st.(net := check.net);
      CheckCallsNobody(st.net, names, st.stored);
      if check.error.None? {
        var run := RunClient(checked, clients[0], h, target);
        RunCallsOne(checked, clients[0], h, target);
        OneCalled(clients, target, h);
        k := 1;
        if run.error.None? {
          var rest := clients[1..];
          var j := ClientsCalledInOrder(names, run.state, rest, h, target);
          k := j + 1;
          FirstCall(Only(st.net.trace, IsCall), clients, target, h, j);
          var r := PromoteWith(names, run.state, rest, h, target);
          if r.error.None? {
            var from, at := |st.net.trace|, |checked.net.trace|;
            DoneThenDone(from, at, run.state.net.trace, r.state.net.trace, clients, h, target);
          }
        }
      }
    }
  }

  lemma CheckCallsNobody(net: Net, names: seq<string>, stored: map<string, Hash>)
    ensures Only(Check(net, names, stored).net.trace, IsCall) == Only(net.trace, IsCall)
  {
    hide Valid, Check;
    NoneAdded(net.trace, Check(net, names, stored).net.trace, IsCall);
  }

  lemma NoCalls(clients: seq<string>, target: string, h: Hash)
    requires clients == []
    ensures CallsOf(clients, target, h) == []
  {
  }

  lemma OneCalled(clients: seq<string>, target: string, h: Hash)
    requires clients != []
    ensures CallsOf(clients[..1], target, h) == [Called(clients[0], target, h)]
  {
  }

  lemma FirstCall(calls: seq<Event>, clients: seq<string>, target: string, h: Hash, j: nat)
    requires clients != [] && j < |clients|
    ensures calls + CallsOf(clients[..j + 1], target, h) ==
            calls + [Called(clients[0], target, h)] + CallsOf(clients[1..][..j], target, h)
  {
    hide Valid;
    assert CallsOf(clients[..j + 1], target, h) ==
           [Called(clients[0], target, h)] + CallsOf(clients[1..][..j], target, h);
  }

  lemma NoneToDo(trace: seq<Event>, clients: seq<string>, h: Hash, target: string)
    requires clients == []
    ensures AllDone(trace, |trace|, clients, h, target)
  {
  }

  lemma DoneThenDone(from: nat, at: nat, mid: seq<Event>, end: seq<Event>, clients: seq<string>, h: Hash,
                     target: string)
    requires clients != [] && from <= at <= |mid| && mid <= end
    requires AllDone(mid, at, [clients[0]], h, target) && AllDone(end, |mid|, clients[1..], h, target)
    ensures AllDone(end, from, clients, h, target)
  {
    hide Valid, DumpToParams;
    assert clients[0] in [clients[0]];
    forall c | c in clients ensures FinishedWithin(end, from, |end|, c) {
      if c == clients[0] {
        var i :| at <= i < |mid| && mid[i] == Finished(c, true);
        assert end[i] == mid[i];
      } else {
        assert c in clients[1..];
        assert FinishedWithin(end, |mid|, |end|, c);
      }
    }
    if DLRN == clients[0] {
      var i :| at <= i < |mid| && mid[i] == Posted(target, DumpToParams(h));
      assert end[i] == mid[i];
    } else if DLRN in clients {
      assert DLRN in clients[1..];
    }
  }

  // ---- What a run reports ----

  /** The hash was attempted for the target, then all allowed clients finished, and the DLRN
      client, if it is allowed, posted the hash under the target. */
  ghost predicate CompletedAt(s: Settings, trace: seq<Event>, h: Hash, target: string, i: nat) {
    && i < |trace| && trace[i] == Attempt(target, h)
    && (forall c | c in s.allowedClients :: FinishedWithin(trace, i + 1, |trace|, c))
    && (DLRN in s.allowedClients ==> PostedWithin(trace, i + 1, target, h))
  }

  ghost predicate Completed(s: Settings, trace: seq<Event>, h: Hash, target: string) {
    exists i: nat :: CompletedAt(s, trace, h, target, i)
  }

  lemma CompletedLater(s: Settings, trace: seq<Event>, more: seq<Event>, h: Hash, target: string)
    requires trace <= more && Completed(s, trace, h, target)
    ensures Completed(s, more, h, target)
  {
    hide Valid, DumpToParams;
    var i: nat :| CompletedAt(s, trace, h, target, i);
    assert forall k | 0 <= k < |trace| :: more[k] == trace[k];
    forall c | c in s.allowedClients ensures FinishedWithin(more, i + 1, |more|, c) {
      var k :| i + 1 <= k < |trace| && trace[k] == Finished(c, true);
      assert more[k] == trace[k];
    }
    if DLRN in s.allowedClients {
      var k :| i + 1 <= k < |trace| && trace[k] == Posted(target, DumpToParams(h));
      assert more[k] == trace[k];
    }
    assert CompletedAt(s, more, h, target, i);
  }

  lemma DrivingCompletes(s: Settings, st: State, h: Hash, target: string)
    requires WellConfigured(s) && st.net.trace != [] && st.net.trace[|st.net.trace| - 1] == Attempt(target, h)
    requires DriveClients(s, st, h, target).error.None?
    ensures Completed(s, DriveClients(s, st, h, target).state.net.trace, h, target)
  {
    hide Valid, DumpToParams, PromoteWith;
    var clients := SortDescending(s.allowedClients);
    SortKeepsClients(s.allowedClients);
    var k := ClientsCalledInOrder(Targets(s.promotions), st, clients, h, target);
    var r := DriveClients(s, st, h, target);
    assert CompletedAt(s, r.state.net.trace, h, target, |st.net.trace| - 1);
  }

  lemma {:induction false} TryingCompletes(s: Settings, st: State, candidates: seq<Hash>, p: Promotion)
    requires WellConfigured(s) && p.target in st.criteria
    ensures var r := TryCandidates(s, st, candidates, p);
            r.promoted.Some? ==> r.error.None? && r.promoted.value in candidates
                                 && Completed(s, r.state.net.trace, r.promoted.value, p.target)
    decreases |candidates|
  {
    hide Valid, Judge, Advance, DriveClients, Completed;
    if candidates == [] {
    } else if ApiFault(NextTurn(st.net)).None? {
      var votes := NextTurn(st.net).votes;
      var judged := Judge(st.(net := Advance(st.net)), candidates[0], p, votes);
      JudgeAddsVerdict(st.(net := Advance(st.net)), candidates[0], p, votes);
      if judged.criteria[p.target] - votes != {} {
        TryingCompletes(s, judged, candidates[1..], p);
      } else {
        var attempted := judged.(net := Note(judged.net, Attempt(p.target, candidates[0])));
        if DriveClients(s, attempted, candidates[0], p.target).error.None? {
          DrivingCompletes(s, attempted, candidates[0], p.target);
        }
      }
    }
  }

  /** Every reported pair was completed, or was reported before. */
  ghost predicate PairsCompleted(s: Settings, trace: seq<Event>, pairs: seq<(Hash, string)>) {
    forall pair | pair in pairs :: Completed(s, trace, pair.0, pair.1)
  }

  /** The pairs' targets are targets of the settings, each at most once and in their order. */
  predicate TargetsInOrder(ps: seq<Promotion>, pairs: seq<(Hash, string)>, idx: seq<nat>) {
    && |idx| == |pairs|
    && (forall i | 0 <= i < |idx| :: idx[i] < |ps| && ps[idx[i]].target == pairs[i].1)
    && (forall i, j | 0 <= i < j < |idx| :: idx[i] < idx[j])
  }

  lemma TargetsInOrderNext(ps: seq<Promotion>, first: seq<(Hash, string)>, pairs: seq<(Hash, string)>, rest: seq<nat>)
    returns (idx: seq<nat>)
    requires ps != [] && TargetsInOrder(ps[1..], pairs, rest)
    requires |first| <= 1 && forall pair | pair in first :: pair.1 == ps[0].target
    ensures TargetsInOrder(ps, first + pairs, idx)
  {
    hide Valid;
    idx := (if first == [] then [] else [0]) + seq(|rest|, i requires 0 <= i < |rest| => rest[i] + 1);
  }

  lemma PairsCompletedLater(s: Settings, trace: seq<Event>, more: seq<Event>, pairs: seq<(Hash, string)>)
    requires trace <= more && PairsCompleted(s, trace, pairs)
    ensures PairsCompleted(s, more, pairs)
  {
    hide Valid, Completed;
    forall pair | pair in pairs ensures Completed(s, more, pair.0, pair.1) {
      CompletedLater(s, trace, more, pair.0, pair.1);
    }
  }

  lemma {:induction false} RestCompletes(s: Settings, st: State, ps: seq<Promotion>, pairs: seq<(Hash, string)>)
    returns (idx: seq<nat>)
    requires WellConfigured(s) && PairsCompleted(s, st.net.trace, pairs)
    ensures var r := PromoteRest(s, st, ps, pairs);
            && st.net.trace <= r.state.net.trace
            && PairsCompleted(s, r.state.net.trace, r.pairs)
            && pairs <= r.pairs && TargetsInOrder(ps, r.pairs[|pairs|..], idx)
    decreases |ps|
  {
    hide Valid, Completed, PromoteLabel, TargetsInOrder;
    NoTargets(ps);
    assert pairs[|pairs|..] == [];
    idx := [];
    if ps == [] {
    } else {
      var r := PromoteLabel(s, st, ps[0]);
      LabelCompletes(s, st, ps[0]);
      PairsCompletedLater(s, st.net.trace, r.state.net.trace, pairs);
      if r.error.None? || r.error == Some(PromotionError) {
        var first := if r.promoted.Some? then [(r.promoted.value, ps[0].target)] else [];
        var more := if r.promoted.Some? then pairs + first else pairs;
        var rest := RestCompletes(s, r.state, ps[1..], more);
        var all := PromoteRest(s, r.state, ps[1..], more).pairs;
        idx := TargetsInOrderNext(ps, first, all[|more|..], rest);
        assert all[|pairs|..] == first + all[|more|..];
      }
    }
  }

  lemma NoTargets(ps: seq<Promotion>)
    ensures TargetsInOrder(ps, [], [])
  {
  }

  lemma LabelCompletes(s: Settings, st: State, p: Promotion)
    requires WellConfigured(s)
    ensures var r := PromoteLabel(s, st, p);
            && st.net.trace <= r.state.net.trace
            && (r.promoted.Some? ==> r.error.None? && Completed(s, r.state.net.trace, r.promoted.value, p.target))
  {
    hide Valid, SelectCandidates, TryCandidates, Completed;
    var (net, selected) := SelectCandidates(st.net, p.candidate, p.target, s.latestHashesCount);
    if selected.Returned? && selected.value != [] && p.target in st.criteria {
      TryingCompletes(s, st.(net := net), selected.value, p);
    }
  }

  /** In any environment, what a run reports is true: for every reported pair the hash was
      attempted for its target, after that every allowed client finished promoting it, and the
      DLRN client, if it is allowed, posted it under that target. The pairs name targets of the
      settings in their order, each at most once. */
  lemma ReportedPairsAreCompleted(s: Settings, st: State) returns (idx: seq<nat>)
    requires WellConfigured(s)
    ensures var r := PromoteAll(s, st);
            && PairsCompleted(s, r.state.net.trace, r.pairs)
            && TargetsInOrder(s.promotions, r.pairs, idx)
  {
    hide Valid, Completed, PromoteRest;
    idx := [];
    var named := FetchNamed(st.net, Targets(s.promotions), map[]);
    var started := st.(net := named.net, stored := st.stored + named.hashes);
    if named.error.None? {
      idx := RestCompletes(s, started, s.promotions, []);
    }
  }
}
