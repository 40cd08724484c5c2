/** What the record of a run accounts for, in any environment: every label's history, and what each
    check compared with. */
module RecordTheorems {
  import opened Outcomes
  import opened DlrnHashes
  import opened PromotionApi
  import opened Labels
  import opened Criteria
  import opened DlrnClientSpec
  import opened ClientOrder
  import opened PromoterSpec

  /** What was written under a label, newest first: by others, and by the promoter. */
  function Written(trace: seq<Event>, name: string): seq<ApiHash>
    decreases |trace|
  {
    if trace == [] then []
    else WrittenBy(trace[|trace| - 1], name) + Written(trace[..|trace| - 1], name)
  }

  function WrittenBy(e: Event, name: string): seq<ApiHash> {
    match e
    case Outside(w) => if w.name == name then [w.hash] else []
    case Posted(n, sent) => if n == name then [sent] else []
    case _ => []
  }

  /** What the promoter itself posted last under a label. */
  function LastSent(trace: seq<Event>, name: string): Option<ApiHash>
    decreases |trace|
  {
    if trace == [] then None
    else
      var last := trace[|trace| - 1];
      if last.Posted? && last.name == name then Some(last.sent) else LastSent(trace[..|trace| - 1], name)
  }

  lemma WrittenNext(trace: seq<Event>, e: Event, name: string)
    ensures Written(trace + [e], name) == WrittenBy(e, name) + Written(trace, name)
    ensures LastSent(trace + [e], name) ==
            if e.Posted? && e.name == name then Some(e.sent) else LastSent(trace, name)
  {
    assert (trace + [e])[..|trace|] == trace;
  }

  /** The server stores what it is sent. */
  predicate Echoes(net: Net) {
    forall t | t in net.agenda :: t.keeps.None?
  }

  /** Every label's history is the one at the start with exactly what was written since on top. */
  ghost predicate Replayed(start: Net, net: Net) {
    forall l :: History(net, l) == Written(net.trace, l) + History(start, l)
  }

  /** The hash stored for a label is the one that the promoter posted last, and without a post of its
      own the one stored at the start, if any. */
  predicate StoredFrom(base: map<string, Hash>, trace: seq<Event>, stored: map<string, Hash>, l: string) {
    match LastSent(trace, l)
    case None => (l in stored <==> l in base) && (l in stored ==> stored[l] == base[l])
    case Some(sent) => l in stored && DumpToParams(stored[l]) == sent
  }

  ghost predicate Follows(base: map<string, Hash>, trace: seq<Event>, stored: map<string, Hash>) {
    forall l :: StoredFrom(base, trace, stored, l)
  }

  /** A comparison is with the stored hashes, and its verdict follows at once. */
  ghost predicate ComparesStored(base: map<string, Hash>, trace: seq<Event>, i: nat)
    requires i < |trace| && trace[i].Compared?
  {
    && Follows(base, trace[..i], trace[i].stored)
    && i + 1 < |trace| && trace[i + 1] == Checked(!Changed(trace[i].stored, trace[i].fetched))
  }

  ghost predicate AllCompareStored(base: map<string, Hash>, trace: seq<Event>) {
    forall i | 0 <= i < |trace| && trace[i].Compared? :: ComparesStored(base, trace, i)
  }

  /** What holds throughout a run; after an unreadable hash, which ends it, what is stored is open. */
  ghost predicate Accounted(start: Net, base: map<string, Hash>, net: Net, stored: map<string, Hash>,
                            error: Option<Error>)
  {
    && (Echoes(start) ==> Echoes(net) && Replayed(start, net))
    && (error != Some(DlrnHashError) ==> Follows(base, net.trace, stored))
    && AllCompareStored(base, net.trace)
  }

  // ---- One event, one turn ----

  lemma ComparedLater(base: map<string, Hash>, trace: seq<Event>, e: Event)
    requires AllCompareStored(base, trace) && !e.Compared?
    ensures AllCompareStored(base, trace + [e])
  {
    hide Valid, Follows, Changed;
    var more := trace + [e];
    forall i | 0 <= i < |more| && more[i].Compared? ensures ComparesStored(base, more, i) {
      assert i < |trace| && more[i] == trace[i] && more[..i] == trace[..i];
      assert ComparesStored(base, trace, i);
    }
  }

  /** An event that writes nothing and compares nothing. */
  lemma NotingAccounts(start: Net, base: map<string, Hash>, net: Net, stored: map<string, Hash>, e: Event,
                       error: Option<Error>)
    requires Accounted(start, base, net, stored, error)
    requires !e.Compared? && !e.Posted? && !e.Outside?
    ensures Accounted(start, base, Note(net, e), stored, error)
  {
    hide Valid, Written, LastSent, AllCompareStored, DumpToParams;
    ComparedLater(base, net.trace, e);
    forall l
      ensures Written(net.trace + [e], l) == Written(net.trace, l)
      ensures LastSent(net.trace + [e], l) == LastSent(net.trace, l)
    {
      WrittenNext(net.trace, e, l);
    }
    if error != Some(DlrnHashError) {
      forall l ensures StoredFrom(base, net.trace + [e], stored, l) {
        assert StoredFrom(base, net.trace, stored, l);
      }
    }
  }

  /** A write by others. */
  lemma WriteAccounts(start: Net, base: map<string, Hash>, net: Net, stored: map<string, Hash>, w: Write,
                      error: Option<Error>)
    requires Accounted(start, base, net, stored, error)
    ensures Accounted(start, base, Note(Prepend(net, w.name, w.hash), Outside(w)), stored, error)
  {
    hide Valid, Written, LastSent, AllCompareStored, DumpToParams;
    var e := Outside(w);
    ComparedLater(base, net.trace, e);
    forall l
      ensures Written(net.trace + [e], l) == WrittenBy(e, l) + Written(net.trace, l)
      ensures LastSent(net.trace + [e], l) == LastSent(net.trace, l)
    {
      WrittenNext(net.trace, e, l);
    }
    if Echoes(start) {
      OneMoreWritten(start, net, Note(Prepend(net, w.name, w.hash), e), w.name, w.hash, e);
    }
    if error != Some(DlrnHashError) {
      forall l ensures StoredFrom(base, net.trace + [e], stored, l) {
        assert StoredFrom(base, net.trace, stored, l);
      }
    }
  }

  lemma OneMoreWritten(start: Net, net: Net, r: Net, name: string, hash: ApiHash, e: Event)
    requires Replayed(start, net) && r == Note(Prepend(net, name, hash), e)
    requires e == Posted(name, hash) || e == Outside(Write(name, hash))
    ensures Replayed(start, r)
  {
    hide Valid, Written;
    forall l ensures History(r, l) == Written(r.trace, l) + History(start, l) {
      WrittenNext(net.trace, e, l);
      OnTop(hash, Written(net.trace, l), History(start, l));
    }
  }

  lemma OnTop(hash: ApiHash, a: seq<ApiHash>, b: seq<ApiHash>)
    ensures [hash] + (a + b) == ([hash] + a) + b && [] + a == a
  {
  }

  lemma {:induction false} WritesAccount(start: Net, base: map<string, Hash>, net: Net, stored: map<string, Hash>,
                                         ws: seq<Write>, error: Option<Error>)
    requires Accounted(start, base, net, stored, error)
    ensures Accounted(start, base, Writes(net, ws), stored, error)
    decreases |ws|
  {
    hide Valid, Accounted;
    if ws == [] {
    } else {
      WriteAccounts(start, base, net, stored, ws[0], error);
      WritesAccount(start, base, Note(Prepend(net, ws[0].name, ws[0].hash), Outside(ws[0])), stored, ws[1..], error);
    }
  }

  lemma TurnAccounts(start: Net, base: map<string, Hash>, net: Net, stored: map<string, Hash>, error: Option<Error>)
    requires Accounted(start, base, net, stored, error)
    ensures Accounted(start, base, Advance(net), stored, error)
    ensures Echoes(start) ==> NextTurn(net).keeps.None?
  {
    hide Valid, Writes, AllCompareStored, Follows, Written;
    var rest := net.(agenda := if net.agenda == [] then [] else net.agenda[1..]);
    assert Accounted(start, base, rest, stored, error) by {
      assert Echoes(net) ==> Echoes(rest);
      assert forall l :: History(rest, l) == History(net, l);
    }
    WritesAccount(start, base, rest, stored, NextTurn(net).writes, error);
  }

  // ---- The DLRN client ----

  lemma {:induction false} FetchingAccounts(start: Net, base: map<string, Hash>, net: Net, names: seq<string>,
                                            done: map<string, Hash>, stored: map<string, Hash>, error: Option<Error>)
    requires Accounted(start, base, net, stored, error)
    ensures Accounted(start, base, FetchNamed(net, names, done).net, stored, error)
    decreases |names|
  {
    hide Valid, Accounted, Advance, FetchLatest;
    if names == [] {
    } else {
      TurnAccounts(start, base, net, stored, error);
      match FetchLatest(net, names[0])
      case Raised(e) =>
      case Returned(None) => FetchingAccounts(start, base, Advance(net), names[1..], done, stored, error);
      case Returned(Some(h)) =>
        FetchingAccounts(start, base, Advance(net), names[1..], done[names[0] := h], stored, error);
    }
  }

  /** A comparison of what is stored, and its verdict. */
  lemma ComparingAccounts(start: Net, base: map<string, Hash>, net: Net, stored: map<string, Hash>,
                          fetched: map<string, Hash>)
    requires Accounted(start, base, net, stored, None)
    ensures Accounted(start, base, Note(Note(net, Compared(stored, fetched)), Checked(!Changed(stored, fetched))),
                      stored, None)
  {
    hide Valid, Written, LastSent, Changed, DumpToParams;
    var e, v := Compared(stored, fetched), Checked(!Changed(stored, fetched));
    var once := net.trace + [e];
    var more := once + [v];
    forall l
      ensures Written(more, l) == Written(net.trace, l)
      ensures LastSent(more, l) == LastSent(net.trace, l)
    {
      WrittenNext(net.trace, e, l);
      WrittenNext(once, v, l);
    }
    forall l ensures StoredFrom(base, more, stored, l) {
      assert StoredFrom(base, net.trace, stored, l);
    }
    VerdictCompares(base, net.trace, stored, fetched);
  }

  lemma VerdictCompares(base: map<string, Hash>, trace: seq<Event>, stored: map<string, Hash>,
                        fetched: map<string, Hash>)
    requires AllCompareStored(base, trace) && Follows(base, trace, stored)
    ensures AllCompareStored(base, trace + [Compared(stored, fetched)] + [Checked(!Changed(stored, fetched))])
  {
    hide Valid, Follows, Changed;
    var more := trace + [Compared(stored, fetched)] + [Checked(!Changed(stored, fetched))];
    forall i | 0 <= i < |more| && more[i].Compared? ensures ComparesStored(base, more, i) {
      if i < |trace| {
        assert more[i] == trace[i] && more[..i] == trace[..i];
        assert ComparesStored(base, trace, i);
      } else {
        assert i == |trace| && more[..i] == trace;
      }
    }
  }

  lemma CheckAccounts(start: Net, base: map<string, Hash>, net: Net, names: seq<string>, stored: map<string, Hash>)
    requires Accounted(start, base, net, stored, None)
    ensures var r := Check(net, names, stored);
            Accounted(start, base, r.net, stored, None)
  {
    hide Valid, Accounted, FetchNamed, Changed;
    FetchingAccounts(start, base, net, names, map[], stored, None);
    var named := FetchNamed(net, names, map[]);
    ComparingAccounts(start, base, named.net, stored, named.hashes);
  }

  lemma PostAccounts(start: Net, base: map<string, Hash>, net: Net, stored: map<string, Hash>, h: Hash, name: string)
    requires Accounted(start, base, net, stored, None)
    ensures var r := Post(net, stored, h, name);
            Accounted(start, base, r.net, r.stored, r.error)
  {
    hide Valid, Accounted, DumpToParams, Advance, NextTurn, ApiFault;
    TurnAccounts(start, base, net, stored, None);
    var turn, asked := NextTurn(net), Advance(net);
    if ApiFault(turn).Some? {
      StillAccounted(start, base, asked, stored, ApiFault(turn));
    } else {
      RecordAccounts(start, base, asked, stored, h, name, turn);
    }
  }

  lemma StillAccounted(start: Net, base: map<string, Hash>, net: Net, stored: map<string, Hash>, error: Option<Error>)
    requires Accounted(start, base, net, stored, None)
    ensures Accounted(start, base, net, stored, error)
  {
  }

  lemma RecordAccounts(start: Net, base: map<string, Hash>, net: Net, stored: map<string, Hash>, h: Hash, name: string,
                       turn: Turn)
    requires Accounted(start, base, net, stored, None) && (Echoes(start) ==> turn.keeps.None?)
    ensures var sent := DumpToParams(h);
            var posted := Note(Prepend(net, name, turn.keeps.GetOr(sent)), Posted(name, sent));
            if turn.garbles then Accounted(start, base, posted, stored, Some(DlrnHashError))
            else Accounted(start, base, posted, stored[name := h], None)
  {
    hide Valid, Written, LastSent, AllCompareStored, DumpToParams;
    var sent := DumpToParams(h);
    var e := Posted(name, sent);
    ComparedLater(base, net.trace, e);
    if Echoes(start) {
      OneMoreWritten(start, net, Note(Prepend(net, name, sent), e), name, sent, e);
    }
    var more, kept := net.trace + [e], stored[name := h];
    forall l ensures StoredFrom(base, more, kept, l) {
      WrittenNext(net.trace, e, l);
      assert StoredFrom(base, net.trace, stored, l);
    }
  }

  lemma HashAccounts(start: Net, base: map<string, Hash>, net: Net, stored: map<string, Hash>, h: Hash, name: string)
    requires Accounted(start, base, net, stored, None)
    ensures var r := PromoteHash(net, stored, h, name);
            Accounted(start, base, r.net, r.stored, r.error)
  {
    hide Valid, Accounted, Post, Advance, NextTurn, AggregateFault;
    TurnAccounts(start, base, net, stored, None);
    StillAccounted(start, base, Advance(net), stored, AggregateFault(NextTurn(net)));
    PostAccounts(start, base, net, stored, h, name);
    PostAccounts(start, base, Advance(net), stored, h, name);
  }

  lemma PromotionAccounts(start: Net, base: map<string, Hash>, net: Net, stored: map<string, Hash>, h: Hash,
                          target: string)
    requires Accounted(start, base, net, stored, None)
    ensures var r := DlrnClientSpec.Promote(net, stored, h, target, true);
            Accounted(start, base, r.net, r.stored, r.error)
  {
    hide Valid, Accounted, PromoteHash, Advance, FetchLatest, Eq;
    TurnAccounts(start, base, net, stored, None);
    var asked := Advance(net);
    match FetchLatest(net, target)
    case Raised(e) => StillAccounted(start, base, asked, stored, Some(e));
    case Returned(None) => HashAccounts(start, base, asked, stored, h, target);
    case Returned(Some(i)) =>
      StillAccounted(start, base, asked, stored, Some(PromotionError));
      HashAccounts(start, base, asked, stored, i, PreviousLabel(target));
      var saved := PromoteHash(asked, stored, i, PreviousLabel(target));
      if saved.error.None? {
        HashAccounts(start, base, saved.net, saved.stored, h, target);
      }
  }

  // ---- The promoter ----

  ghost predicate StateAccounted(start: Net, base: map<string, Hash>, st: State, error: Option<Error>) {
    Accounted(start, base, st.net, st.stored, error)
  }

  lemma ClientAccounts(start: Net, base: map<string, Hash>, st: State, client: string, h: Hash, target: string)
    requires StateAccounted(start, base, st, None)
    ensures var r := RunClient(st, client, h, target); StateAccounted(start, base, r.state, r.error)
  {
    hide Valid, Accounted, DlrnClientSpec.Promote, Advance, NextTurn;
    var e := Called(client, target, h);
    NotingAccounts(start, base, st.net, st.stored, e, None);
    var called := Note(st.net, e);
    var step := if client == DLRN then DlrnClientSpec.Promote(called, st.stored, h, target, true)
                else Step(Advance(called), st.stored, NextTurn(called).fault);
    if client == DLRN {
      PromotionAccounts(start, base, called, st.stored, h, target);
    } else {
      TurnAccounts(start, base, called, st.stored, None);
      StillAccounted(start, base, Advance(called), st.stored, NextTurn(called).fault);
    }
    NotingAccounts(start, base, step.net, step.stored, Finished(client, step.error.None?), step.error);
  }

  lemma {:induction false} DrivingAccounts(start: Net, base: map<string, Hash>, names: seq<string>, st: State,
                                           clients: seq<string>, h: Hash, target: string)
    requires StateAccounted(start, base, st, None)
    ensures var r := PromoteWith(names, st, clients, h, target); StateAccounted(start, base, r.state, r.error)
    decreases |clients|
  {
    hide Valid, Accounted, Check, RunClient;
    if clients == [] {
    } else if !IsClient(clients[0]) {
      StillAccounted(start, base, st.net, st.stored, Some(AttributeError));
    } else {
      var check := Check(st.net, names, st.stored);
      CheckAccounts(start, base, st.net, names, st.stored);
      if check.error.Some? {
        StillAccounted(start, base, check.net, st.stored, check.error);
      } else {
        var run := RunClient(st.(net := check.net), clients[0], h, target);
        ClientAccounts(start, base, st.(net := check.net), clients[0], h, target);
        if run.error.None? {
          DrivingAccounts(start, base, names, run.state, clients[1..], h, target);
        }
      }
    }
  }

  lemma SelectingAccounts(start: Net, base: map<string, Hash>, st: State, candidate: string, target: string,
                          count: Option<int>, error: Option<Error>)
    requires StateAccounted(start, base, st, None)
    ensures StateAccounted(start, base, st.(net := SelectCandidates(st.net, candidate, target, count).0), error)
  {
    hide Valid, Accounted, Advance, ConvertAll, Select;
    var asked := Advance(st.net);
    TurnAccounts(start, base, st.net, st.stored, None);
    TurnAccounts(start, base, asked, st.stored, None);
    StillAccounted(start, base, asked, st.stored, error);
    StillAccounted(start, base, Advance(asked), st.stored, error);
  }

  lemma {:induction false} TryingAccounts(start: Net, base: map<string, Hash>, s: Settings, st: State,
                                          candidates: seq<Hash>, p: Promotion)
    requires StateAccounted(start, base, st, None) && p.target in st.criteria
    ensures var r := TryCandidates(s, st, candidates, p); StateAccounted(start, base, r.state, r.error)
    decreases |candidates|
  {
    hide Valid, Accounted, Advance, NextTurn, ApiFault, PromoteWith, Substitute;
    if candidates == [] {
    } else {
      var turn, asked, h := NextTurn(st.net), st.(net := Advance(st.net)), candidates[0];
      TurnAccounts(start, base, st.net, st.stored, None);
      StillAccounted(start, base, asked.net, st.stored, ApiFault(turn));
      var judged := Judge(asked, h, p, turn.votes);
      var missing := judged.criteria[p.target] - turn.votes;
      NotingAccounts(start, base, asked.net, st.stored, Judged(p.target, h, turn.votes, missing), None);
      if ApiFault(turn).None? {
        if missing != {} {
          TryingAccounts(start, base, s, judged, candidates[1..], p);
        } else {
          NotingAccounts(start, base, judged.net, st.stored, Attempt(p.target, h), None);
          DrivingAccounts(start, base, Targets(s.promotions),
                          judged.(net := Note(judged.net, Attempt(p.target, h))),
                          SortDescending(s.allowedClients), h, p.target);
        }
      }
    }
  }

  lemma LabelAccounts(start: Net, base: map<string, Hash>, s: Settings, st: State, p: Promotion)
    requires StateAccounted(start, base, st, None)
    ensures var r := PromoteLabel(s, st, p); StateAccounted(start, base, r.state, r.error)
  {
    hide Valid, Accounted, SelectCandidates, TryCandidates;
    var (net, selected) := SelectCandidates(st.net, p.candidate, p.target, s.latestHashesCount);
    SelectingAccounts(start, base, st, p.candidate, p.target, s.latestHashesCount, None);
    var r := PromoteLabel(s, st, p);
    SelectingAccounts(start, base, st, p.candidate, p.target, s.latestHashesCount, r.error);
    if selected.Returned? && selected.value != [] && p.target in st.criteria {
      TryingAccounts(start, base, s, st.(net := net), selected.value, p);
    }
  }

  lemma {:induction false} RestAccounts(start: Net, base: map<string, Hash>, s: Settings, st: State,
                                        ps: seq<Promotion>, pairs: seq<(Hash, string)>)
    requires StateAccounted(start, base, st, None)
    ensures var r := PromoteRest(s, st, ps, pairs); StateAccounted(start, base, r.state, r.error)
    decreases |ps|
  {
    hide Valid, Accounted, PromoteLabel;
    if ps == [] {
    } else {
      LabelAccounts(start, base, s, st, ps[0]);
      var r := PromoteLabel(s, st, ps[0]);
      if r.error.None? || r.error == Some(PromotionError) {
        GoesOn(start, base, r.state, r.error);
        var more := if r.promoted.Some? then pairs + [(r.promoted.value, ps[0].target)] else pairs;
        RestAccounts(start, base, s, r.state, ps[1..], more);
      }
    }
  }

  lemma GoesOn(start: Net, base: map<string, Hash>, st: State, error: Option<Error>)
    requires StateAccounted(start, base, st, error) && error != Some(DlrnHashError)
    ensures StateAccounted(start, base, st, None)
  {
  }

  /** Any run, in any environment. With a server that stores what it is sent, each label's history at
      the end is the one at the start with exactly the recorded writes of others and posts of the
      promoter on top, in their order: nothing is lost, and nothing else is added. Every check compares
      with what the first fetch stored, or, for labels the promoter has posted since, with what it
      posted last, whatever others wrote in between; and it passes exactly when no fetched label
      differs. */
  lemma RunIsAccountedFor(s: Settings, st: State)
    requires st.net.trace == []
    ensures var named := FetchNamed(st.net, Targets(s.promotions), map[]);
            var r := PromoteAll(s, st);
            && (Echoes(st.net) ==> Replayed(st.net, r.state.net))
            && AllCompareStored(st.stored + named.hashes, r.state.net.trace)
            && (r.error != Some(DlrnHashError) ==>
                 Follows(st.stored + named.hashes, r.state.net.trace, r.state.stored))
  {
    hide Valid, FetchNamed, PromoteRest, DumpToParams;
    var names := Targets(s.promotions);
    var named := FetchNamed(st.net, names, map[]);
    var base := st.stored + named.hashes;
    assert Replayed(st.net, st.net) by {
      forall l ensures History(st.net, l) == Written(st.net.trace, l) + History(st.net, l) {
      }
    }
    assert Accounted(st.net, base, st.net, base, None);
    FetchingAccounts(st.net, base, st.net, names, map[], base, None);
    var started := st.(net := named.net, stored := base);
    if named.error.Some? {
      StillAccounted(st.net, base, named.net, base, named.error);
    } else {
      RestAccounts(st.net, base, s, started, s.promotions, []);
    }
  }
}
